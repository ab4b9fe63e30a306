/**
  expr_eliminate_dups1 and expr_eliminate_dups of expr.c, on values.

  The C function walks two pointers over the operands of one && or || level; both start at the root of
  the same tree, so a rewrite through one pointer is seen through the other. Here the operands of the
  level are a list of slots that both walks index, and the pairs of slots meet row by row. ExprHeapDups
  shows that the recursion over the nodes of the tree does the same, whatever the nesting of the level.
 */
module Dups {
  import opened Tristates
  import opened Exprs
  import opened ElimEq
  import opened Join

  /** The operands of e at level op, from left to right. */
  function Operands(op: Op, e: Expr): (r: seq<Expr>)
    ensures |r| >= 1
    ensures IsOp(e, op) ==> |r| >= 2
  {
    if IsOp(e, op) then Operands(op, e.l) + Operands(op, e.r) else [e]
  }

  /** e with its operands at level op replaced by the slots. */
  function Rebuild(op: Op, e: Expr, slots: seq<Expr>): Expr
    requires |slots| == |Operands(op, e)|
  {
    if IsOp(e, op) then
      var n := |Operands(op, e.l)|;
      Bin(op, Rebuild(op, e.l, slots[..n]), Rebuild(op, e.r, slots[n..]))
    else slots[0]
  }

  /** Slots that hold operands of level op, not further levels of it. */
  predicate AllOperands(op: Op, slots: seq<Expr>) {
    forall k :: 0 <= k < |slots| ==> !IsOp(slots[k], op)
  }

  lemma {:induction false} OperandsAreOperands(op: Op, e: Expr)
    ensures AllOperands(op, Operands(op, e))
  {
    if IsOp(e, op) {
      OperandsAreOperands(op, e.l);
      OperandsAreOperands(op, e.r);
    }
  }

  lemma {:induction false} RebuildOperands(op: Op, e: Expr)
    ensures Rebuild(op, e, Operands(op, e)) == e
  {
    if IsOp(e, op) {
      RebuildOperands(op, e.l);
      RebuildOperands(op, e.r);
      var a, b := Operands(op, e.l), Operands(op, e.r);
      assert (a + b)[..|a|] == a && (a + b)[|a|..] == b;
    }
  }

  /** A rebuilt level has the slots as its operands. */
  lemma {:induction false} OperandsRebuild(op: Op, e: Expr, slots: seq<Expr>)
    requires |slots| == |Operands(op, e)| && AllOperands(op, slots)
    ensures Operands(op, Rebuild(op, e, slots)) == slots
  {
    if IsOp(e, op) {
      var n := |Operands(op, e.l)|;
      OperandsRebuild(op, e.l, slots[..n]);
      OperandsRebuild(op, e.r, slots[n..]);
      assert slots[..n] + slots[n..] == slots;
    }
  }

  function Total(slots: seq<Expr>): nat {
    if slots == [] then 0 else Size(slots[0]) + Total(slots[1..])
  }

  lemma {:induction false} TotalConcat(a: seq<Expr>, b: seq<Expr>)
    ensures Total(a + b) == Total(a) + Total(b)
  {
    if a == [] {
      assert a + b == b;
    } else {
      assert (a + b)[1..] == a[1..] + b;
      TotalConcat(a[1..], b);
    }
  }

  lemma {:induction false} TotalUpdate(slots: seq<Expr>, i: nat, x: Expr)
    requires i < |slots|
    ensures Total(slots[i := x]) + Size(slots[i]) == Total(slots) + Size(x)
    ensures Size(slots[i]) <= Total(slots)
  {
    if i > 0 {
      assert slots[i := x][1..] == slots[1..][i - 1 := x];
      TotalUpdate(slots[1..], i - 1, x);
    } else {
      assert slots[0 := x][1..] == slots[1..];
    }
  }

  lemma TotalPair(slots: seq<Expr>, i: nat, j: nat, x: Expr, y: Expr)
    requires i < |slots| && j < |slots| && i != j
    ensures Total(slots[i := x][j := y]) + Size(slots[i]) + Size(slots[j]) == Total(slots) + Size(x) + Size(y)
  {
    var mid := slots[i := x];
    assert mid[j] == slots[j];
    TotalUpdate(slots, i, x);
    TotalUpdate(mid, j, y);
  }

  /** The size of a level is that of its operands plus one node per join between them. */
  lemma {:induction false} RebuildSize(op: Op, e: Expr, slots: seq<Expr>)
    requires |slots| == |Operands(op, e)|
    ensures Size(Rebuild(op, e, slots)) == Total(slots) + |slots| - 1
  {
    if IsOp(e, op) {
      var n := |Operands(op, e.l)|;
      RebuildSize(op, e.l, slots[..n]);
      RebuildSize(op, e.r, slots[n..]);
      TotalConcat(slots[..n], slots[n..]);
      assert slots[..n] + slots[n..] == slots;
    } else {
      assert slots[1..] == [];
    }
  }

  /** The slots after some steps and the number of rewrites made, trans_count. */
  datatype Pass = Pass(slots: seq<Expr>, count: nat)

  /** What every step keeps. */
  predicate Keeps(op: Op, slots: seq<Expr>, p: Pass) {
    |p.slots| == |slots| && AllOperands(op, p.slots) && Total(p.slots) <= Total(slots)
  }

  /** expr_eliminate_dups1(type, &e, &e): one pass over the level of e and the levels nested in it. */
  function RunPass(e: Expr): (r: (Expr, nat))
    ensures Size(r.0) <= Size(e)
    ensures e.Bin? ==> IsOp(r.0, e.op)
    ensures !e.Bin? ==> r == (e, 0)
    decreases Size(e), 0, 0, 0
  {
    if !e.Bin? then (e, 0)
    else
      var slots := Operands(e.op, e);
      OperandsAreOperands(e.op, e);
      RebuildOperands(e.op, e);
      RebuildSize(e.op, e, slots);
      var p := Rows(e.op, 0, |slots|, 0, |slots|, slots);
      RebuildSize(e.op, e, p.slots);
      (Rebuild(e.op, e, p.slots), p.count)
  }

  /** The slots from lo1 to hi1 against the slots from lo2 to hi2. */
  function Rows(op: Op, lo1: nat, hi1: nat, lo2: nat, hi2: nat, slots: seq<Expr>): (p: Pass)
    requires lo1 <= hi1 <= |slots| && lo2 <= hi2 <= |slots| && AllOperands(op, slots)
    ensures Keeps(op, slots, p)
    decreases Total(slots), 3, hi1 - lo1, 0
  {
    if lo1 == hi1 then Pass(slots, 0)
    else
      var p := Row(op, lo1, lo2, hi2, slots);
      var q := Rows(op, lo1 + 1, hi1, lo2, hi2, p.slots);
      Pass(q.slots, p.count + q.count)
  }

  /** Slot i against the slots from lo to hi. */
  function Row(op: Op, i: nat, lo: nat, hi: nat, slots: seq<Expr>): (p: Pass)
    requires i < |slots| && lo <= hi <= |slots| && AllOperands(op, slots)
    ensures Keeps(op, slots, p)
    decreases Total(slots), 2, hi - lo, 0
  {
    if lo == hi then Pass(slots, 0)
    else
      var p := Meet(op, i, lo, slots);
      var q := Row(op, i, lo + 1, hi, p.slots);
      Pass(q.slots, p.count + q.count)
  }

  /** Two different operands: the first is simplified in itself, then the two are joined if they can be. */
  function Meet(op: Op, i: nat, j: nat, slots: seq<Expr>): (p: Pass)
    requires i < |slots| && j < |slots| && AllOperands(op, slots)
    ensures Keeps(op, slots, p)
    decreases Total(slots), 1, 0, 0
  {
    if i == j then Pass(slots, 0)
    else
      TotalUpdate(slots, i, slots[i]);
      var (x, n) := RunPass(slots[i]);
      match JoinOp(op, x, slots[j])
      case None =>
        TotalUpdate(slots, i, x);
        Pass(slots[i := x], n)
      case Some(t) =>
        JoinShape(op, x, slots[j]);
        TotalPair(slots, i, j, Atom(UnitSymbol(op)), t);
        Pass(slots[i := Atom(UnitSymbol(op))][j := t], n + 1)
  }

  // -------------------------------------------------------------- meaning

  ghost predicate AllRegular(slots: seq<Expr>, f: Form) {
    forall k :: 0 <= k < |slots| ==> Regular(slots[k], f)
  }

  /** t absorbs every slot: for || an upper bound of the values, for && a lower bound. */
  ghost predicate Bounds(op: Op, slots: seq<Expr>, v: Valuation, t: Tristate) {
    forall k :: 0 <= k < |slots| ==> Absorbed(op, Eval(slots[k], v), t)
  }

  lemma BoundsSplit(op: Op, slots: seq<Expr>, n: nat, v: Valuation, t: Tristate)
    requires n <= |slots|
    ensures Bounds(op, slots, v, t) <==> Bounds(op, slots[..n], v, t) && Bounds(op, slots[n..], v, t)
  {
    assert forall k :: n <= k < |slots| ==> slots[k] == slots[n..][k - n];
    assert forall k :: 0 <= k < n ==> slots[k] == slots[..n][k];
  }

  lemma {:induction false} RebuildBounds(op: Op, e: Expr, slots: seq<Expr>, v: Valuation, t: Tristate)
    requires |slots| == |Operands(op, e)|
    ensures Absorbed(op, Eval(Rebuild(op, e, slots), v), t) <==> Bounds(op, slots, v, t)
  {
    if IsOp(e, op) {
      var n := |Operands(op, e.l)|;
      RebuildBounds(op, e.l, slots[..n], v, t);
      RebuildBounds(op, e.r, slots[n..], v, t);
      BoundsSplit(op, slots, n, v, t);
    }
  }

  lemma {:induction false} RebuildRegular(op: Op, e: Expr, slots: seq<Expr>, f: Form)
    requires |slots| == |Operands(op, e)|
    ensures Regular(Rebuild(op, e, slots), f) <==> AllRegular(slots, f)
  {
    if IsOp(e, op) {
      var n := |Operands(op, e.l)|;
      RebuildRegular(op, e.l, slots[..n], f);
      RebuildRegular(op, e.r, slots[n..], f);
      assert AllRegular(slots, f) <==> AllRegular(slots[..n], f) && AllRegular(slots[n..], f) by {
        assert forall k :: n <= k < |slots| ==> slots[k] == slots[n..][k - n];
        assert forall k :: 0 <= k < n ==> slots[k] == slots[..n][k];
      }
    }
  }

  lemma {:induction false} RunPassSound(e: Expr, v: Valuation, f: Form)
    requires Admissible(v) && Regular(e, f)
    ensures Eval(RunPass(e).0, v) == Eval(e, v)
    ensures Regular(RunPass(e).0, f)
    decreases Size(e), 0, 0, 0
  {
    if e.Bin? {
      var slots := Operands(e.op, e);
      OperandsAreOperands(e.op, e);
      RebuildOperands(e.op, e);
      RebuildSize(e.op, e, slots);
      RebuildRegular(e.op, e, slots, f);
      var p := Rows(e.op, 0, |slots|, 0, |slots|, slots);
      forall t ensures Absorbed(e.op, Eval(Rebuild(e.op, e, p.slots), v), t) <==> Absorbed(e.op, Eval(e, v), t) {
        RowsSound(e.op, 0, |slots|, 0, |slots|, slots, v, t, f);
        RebuildBounds(e.op, e, slots, v, t);
        RebuildBounds(e.op, e, p.slots, v, t);
      }
      RowsSound(e.op, 0, |slots|, 0, |slots|, slots, v, Yes, f);
      RebuildRegular(e.op, e, p.slots, f);
      AbsorbedDetermines(e.op, Eval(Rebuild(e.op, e, p.slots), v), Eval(e, v));
    }
  }

  lemma AbsorbedDetermines(op: Op, a: Tristate, b: Tristate)
    requires forall t :: Absorbed(op, a, t) <==> Absorbed(op, b, t)
    ensures a == b
  {
    assert Absorbed(op, a, a) && Absorbed(op, b, b);
  }

  lemma {:induction false} RowsSound(op: Op, lo1: nat, hi1: nat, lo2: nat, hi2: nat, slots: seq<Expr>, v: Valuation,
                                     t: Tristate, f: Form)
    requires lo1 <= hi1 <= |slots| && lo2 <= hi2 <= |slots| && AllOperands(op, slots)
    requires Admissible(v) && AllRegular(slots, f)
    ensures Bounds(op, Rows(op, lo1, hi1, lo2, hi2, slots).slots, v, t) <==> Bounds(op, slots, v, t)
    ensures AllRegular(Rows(op, lo1, hi1, lo2, hi2, slots).slots, f)
    decreases Total(slots), 3, hi1 - lo1, 0
  {
    if lo1 < hi1 {
      RowSound(op, lo1, lo2, hi2, slots, v, t, f);
      RowsSound(op, lo1 + 1, hi1, lo2, hi2, Row(op, lo1, lo2, hi2, slots).slots, v, t, f);
    }
  }

  lemma {:induction false} RowSound(op: Op, i: nat, lo: nat, hi: nat, slots: seq<Expr>, v: Valuation, t: Tristate,
                                    f: Form)
    requires i < |slots| && lo <= hi <= |slots| && AllOperands(op, slots)
    requires Admissible(v) && AllRegular(slots, f)
    ensures Bounds(op, Row(op, i, lo, hi, slots).slots, v, t) <==> Bounds(op, slots, v, t)
    ensures AllRegular(Row(op, i, lo, hi, slots).slots, f)
    decreases Total(slots), 2, hi - lo, 0
  {
    if lo < hi {
      var p := Meet(op, i, lo, slots);
      MeetSound(op, i, lo, slots, v, t, f);
      RowSound(op, i, lo + 1, hi, p.slots, v, t, f);
      assert Row(op, i, lo, hi, slots).slots == Row(op, i, lo + 1, hi, p.slots).slots;
    }
  }

  lemma {:induction false} MeetSound(op: Op, i: nat, j: nat, slots: seq<Expr>, v: Valuation, t: Tristate, f: Form)
    requires i < |slots| && j < |slots| && AllOperands(op, slots)
    requires Admissible(v) && AllRegular(slots, f)
    ensures Bounds(op, Meet(op, i, j, slots).slots, v, t) <==> Bounds(op, slots, v, t)
    ensures AllRegular(Meet(op, i, j, slots).slots, f)
    decreases Total(slots), 1, 0, 0
  {
    if i != j {
      TotalUpdate(slots, i, slots[i]);
      RunPassSound(slots[i], v, f);
      var x := RunPass(slots[i]).0;
      var p := Meet(op, i, j, slots);
      if JoinOp(op, x, slots[j]).Some? {
        JoinSound(op, x, slots[j], v, f);
        JoinShape(op, x, slots[j]);
        PairBounds(op, Eval(slots[i], v), Eval(slots[j], v), t);
        BoundsUpdate(op, slots, j, JoinOp(op, x, slots[j]).value, v, t);
        BoundsUpdate(op, slots[j := JoinOp(op, x, slots[j]).value], i, Atom(UnitSymbol(op)), v, t);
        assert slots[j := JoinOp(op, x, slots[j]).value][j] == JoinOp(op, x, slots[j]).value;
        assert p.slots == slots[j := JoinOp(op, x, slots[j]).value][i := Atom(UnitSymbol(op))];
      } else {
        BoundsUpdate(op, slots, i, x, v, t);
      }
    }
  }

  ghost predicate BoundsBut(op: Op, slots: seq<Expr>, i: nat, v: Valuation, t: Tristate) {
    forall k :: 0 <= k < |slots| && k != i ==> Absorbed(op, Eval(slots[k], v), t)
  }

  lemma BoundsUpdate(op: Op, slots: seq<Expr>, i: nat, x: Expr, v: Valuation, t: Tristate)
    requires i < |slots|
    ensures Bounds(op, slots, v, t) <==> Absorbed(op, Eval(slots[i], v), t) && BoundsBut(op, slots, i, v, t)
    ensures Bounds(op, slots[i := x], v, t) <==> Absorbed(op, Eval(x, v), t) && BoundsBut(op, slots, i, v, t)
  {
    if Bounds(op, slots[i := x], v, t) {
      assert slots[i := x][i] == x;
      forall k | 0 <= k < |slots| && k != i ensures Absorbed(op, Eval(slots[k], v), t) {
        assert slots[i := x][k] == slots[k];
      }
    }
  }

  lemma PairBounds(op: Op, a: Tristate, b: Tristate, t: Tristate)
    ensures Absorbed(op, Apply(op, a, b), t) <==> Absorbed(op, a, t) && Absorbed(op, b, t)
    ensures Absorbed(op, Unit(op), t)
  {
  }

  // --------------------------------------------------- when a pass does nothing

  lemma {:induction false} OperandsSmaller(op: Op, e: Expr)
    requires IsOp(e, op)
    ensures forall k :: 0 <= k < |Operands(op, e)| ==> Size(Operands(op, e)[k]) < Size(e)
  {
    var a, b := Operands(op, e.l), Operands(op, e.r);
    if IsOp(e.l, op) { OperandsSmaller(op, e.l); }
    if IsOp(e.r, op) { OperandsSmaller(op, e.r); }
  }

  /** No two operands of any reachable level can be joined. */
  ghost predicate Settled(e: Expr)
    decreases Size(e)
  {
    if !e.Bin? then true
    else
      OperandsSmaller(e.op, e);
      var o := Operands(e.op, e);
      && (forall i, j :: 0 <= i < |o| && 0 <= j < |o| && i != j ==> JoinOp(e.op, o[i], o[j]).None?)
      && (forall i :: 0 <= i < |o| ==> Settled(o[i]))
  }

  /** The two operands cannot be joined, and the first is settled in itself. */
  ghost predicate QuietPair(op: Op, slots: seq<Expr>, i: nat, j: nat)
    requires i < |slots| && j < |slots|
  {
    JoinOp(op, slots[i], slots[j]).None? && Settled(slots[i])
  }

  /** The pairs of the rectangle are quiet. */
  ghost predicate Quiet(op: Op, lo1: nat, hi1: nat, lo2: nat, hi2: nat, slots: seq<Expr>)
    requires hi1 <= |slots| && hi2 <= |slots|
  {
    forall i, j :: lo1 <= i < hi1 && lo2 <= j < hi2 && i != j ==> QuietPair(op, slots, i, j)
  }

  lemma QuietSplit(op: Op, lo1: nat, hi1: nat, lo2: nat, hi2: nat, slots: seq<Expr>)
    requires lo1 < hi1 <= |slots| && hi2 <= |slots|
    ensures Quiet(op, lo1, hi1, lo2, hi2, slots)
            <==> Quiet(op, lo1, lo1 + 1, lo2, hi2, slots) && Quiet(op, lo1 + 1, hi1, lo2, hi2, slots)
  {
    if Quiet(op, lo1, lo1 + 1, lo2, hi2, slots) && Quiet(op, lo1 + 1, hi1, lo2, hi2, slots) {
      forall i, j | lo1 <= i < hi1 && lo2 <= j < hi2 && i != j
        ensures QuietPair(op, slots, i, j)
      {
      }
    }
  }

  /** A pass makes no rewrite exactly when the expression is settled, and then changes nothing. */
  lemma {:induction false} RunPassIdle(e: Expr)
    ensures RunPass(e).1 == 0 <==> Settled(e)
    ensures RunPass(e).1 == 0 ==> RunPass(e).0 == e
    decreases Size(e), 0, 0, 0
  {
    if e.Bin? {
      var slots := Operands(e.op, e);
      OperandsAreOperands(e.op, e);
      OperandsSmaller(e.op, e);
      RebuildOperands(e.op, e);
      RebuildSize(e.op, e, slots);
      RowsIdle(e.op, 0, |slots|, 0, |slots|, slots);
      if Quiet(e.op, 0, |slots|, 0, |slots|, slots) {
        forall i | 0 <= i < |slots| ensures Settled(slots[i]) {
          var j := if i == 0 then 1 else 0;
          assert QuietPair(e.op, slots, i, j);
        }
        forall i, j | 0 <= i < |slots| && 0 <= j < |slots| && i != j ensures JoinOp(e.op, slots[i], slots[j]).None? {
          assert QuietPair(e.op, slots, i, j);
        }
      }
    }
  }

  lemma {:induction false} RowsIdle(op: Op, lo1: nat, hi1: nat, lo2: nat, hi2: nat, slots: seq<Expr>)
    requires lo1 <= hi1 <= |slots| && lo2 <= hi2 <= |slots| && AllOperands(op, slots)
    ensures var p := Rows(op, lo1, hi1, lo2, hi2, slots);
            && (p.count == 0 <==> Quiet(op, lo1, hi1, lo2, hi2, slots))
            && (p.count == 0 ==> p.slots == slots)
    decreases Total(slots), 3, hi1 - lo1, 0
  {
    if lo1 < hi1 {
      RowIdle(op, lo1, lo2, hi2, slots);
      QuietSplit(op, lo1, hi1, lo2, hi2, slots);
      RowsIdle(op, lo1 + 1, hi1, lo2, hi2, Row(op, lo1, lo2, hi2, slots).slots);
    }
  }

  lemma {:induction false} RowIdle(op: Op, i: nat, lo: nat, hi: nat, slots: seq<Expr>)
    requires i < |slots| && lo <= hi <= |slots| && AllOperands(op, slots)
    ensures var p := Row(op, i, lo, hi, slots);
            && (p.count == 0 <==> Quiet(op, i, i + 1, lo, hi, slots))
            && (p.count == 0 ==> p.slots == slots)
    decreases Total(slots), 2, hi - lo, 0
  {
    if lo < hi {
      MeetIdle(op, i, lo, slots);
      RowIdle(op, i, lo + 1, hi, Meet(op, i, lo, slots).slots);
    }
  }

  lemma {:induction false} MeetIdle(op: Op, i: nat, j: nat, slots: seq<Expr>)
    requires i < |slots| && j < |slots| && AllOperands(op, slots)
    ensures var p := Meet(op, i, j, slots);
            && (p.count == 0 <==> Quiet(op, i, i + 1, j, j + 1, slots))
            && (p.count == 0 ==> p.slots == slots)
    decreases Total(slots), 1, 0, 0
  {
    if i != j {
      TotalUpdate(slots, i, slots[i]);
      RunPassIdle(slots[i]);
      if Quiet(op, i, i + 1, j, j + 1, slots) {
        assert QuietPair(op, slots, i, j);
      }
    }
  }

  // ----------------------------------------------------------- termination

  /** A constant operand, or one that contains a reachable constant. */
  predicate Marked(e: Expr) {
    IsConst(e, YES) || IsConst(e, NO) || Reducible(e)
  }

  ghost predicate HasMark(slots: seq<Expr>) {
    exists k :: 0 <= k < |slots| && Marked(slots[k])
  }

  lemma {:induction false} RebuildMarked(op: Op, e: Expr, slots: seq<Expr>)
    requires |slots| == |Operands(op, e)|
    ensures Marked(Rebuild(op, e, slots)) <==> HasMark(slots)
  {
    if IsOp(e, op) {
      var n := |Operands(op, e.l)|;
      var a, b := slots[..n], slots[n..];
      RebuildMarked(op, e.l, a);
      RebuildMarked(op, e.r, b);
      assert HasMark(slots) <==> HasMark(a) || HasMark(b) by {
        assert forall k :: n <= k < |slots| ==> slots[k] == b[k - n];
        assert forall k :: 0 <= k < n ==> slots[k] == a[k];
        if HasMark(b) {
          var k :| 0 <= k < |b| && Marked(b[k]);
          assert slots[n + k] == b[k];
        }
      }
    } else {
      assert Rebuild(op, e, slots) == slots[0] && |slots| == 1;
    }
  }

  /** A rewrite leaves a constant behind for expr_eliminate_yn, and no pass loses one. */
  lemma {:induction false} RunPassReducible(e: Expr)
    requires RunPass(e).1 > 0 || Reducible(e)
    ensures Reducible(RunPass(e).0)
    decreases Size(e), 0, 0, 0
  {
    var slots := Operands(e.op, e);
    OperandsAreOperands(e.op, e);
    RebuildOperands(e.op, e);
    RebuildSize(e.op, e, slots);
    var p := Rows(e.op, 0, |slots|, 0, |slots|, slots);
    RebuildMarked(e.op, e, slots);
    RowsReducible(e.op, 0, |slots|, 0, |slots|, slots);
    RebuildMarked(e.op, e, p.slots);
  }

  lemma {:induction false} RowsReducible(op: Op, lo1: nat, hi1: nat, lo2: nat, hi2: nat, slots: seq<Expr>)
    requires lo1 <= hi1 <= |slots| && lo2 <= hi2 <= |slots| && AllOperands(op, slots)
    ensures var p := Rows(op, lo1, hi1, lo2, hi2, slots); p.count > 0 || HasMark(slots) ==> HasMark(p.slots)
    decreases Total(slots), 3, hi1 - lo1, 0
  {
    if lo1 < hi1 {
      RowReducible(op, lo1, lo2, hi2, slots);
      RowsReducible(op, lo1 + 1, hi1, lo2, hi2, Row(op, lo1, lo2, hi2, slots).slots);
    }
  }

  lemma {:induction false} RowReducible(op: Op, i: nat, lo: nat, hi: nat, slots: seq<Expr>)
    requires i < |slots| && lo <= hi <= |slots| && AllOperands(op, slots)
    ensures var p := Row(op, i, lo, hi, slots); p.count > 0 || HasMark(slots) ==> HasMark(p.slots)
    decreases Total(slots), 2, hi - lo, 0
  {
    if lo < hi {
      MeetReducible(op, i, lo, slots);
      RowReducible(op, i, lo + 1, hi, Meet(op, i, lo, slots).slots);
    }
  }

  lemma {:induction false} MeetReducible(op: Op, i: nat, j: nat, slots: seq<Expr>)
    requires i < |slots| && j < |slots| && AllOperands(op, slots)
    ensures var p := Meet(op, i, j, slots); p.count > 0 || HasMark(slots) ==> HasMark(p.slots)
    decreases Total(slots), 1, 0, 0
  {
    if i != j {
      TotalUpdate(slots, i, slots[i]);
      var (x, n) := RunPass(slots[i]);
      var p := Meet(op, i, j, slots);
      if JoinOp(op, x, slots[j]).Some? {
        assert Marked(p.slots[i]);
      } else {
        assert p.slots == slots[i := x];
        if n > 0 || Marked(slots[i]) {
          if n > 0 || Reducible(slots[i]) { RunPassReducible(slots[i]); }
          assert Marked(p.slots[i]);
        } else if HasMark(slots) {
          var k :| 0 <= k < |slots| && Marked(slots[k]);
          assert p.slots[k] == slots[k];
        }
      }
    }
  }

  // ------------------------------------------------------ the whole function

  /** expr_eliminate_dups: passes until one makes no rewrite. */
  function EliminateDups(e: Expr): (r: Expr)
    ensures Size(r) <= Size(e)
    decreases Size(e)
  {
    var (x, n) := RunPass(e);
    if n == 0 then x
    else
      RunPassReducible(e);
      EliminateYnNormal(x);
      EliminateDups(EliminateYn(x))
  }

  /** expr_eliminate_dups keeps the value and ends where nothing can be joined. */
  lemma {:induction false} EliminateDupsCorrect(e: Expr, v: Valuation, f: Form)
    requires Admissible(v) && Regular(e, f)
    ensures Eval(EliminateDups(e), v) == Eval(e, v)
    ensures Regular(EliminateDups(e), f)
    decreases Size(e)
  {
    var (x, n) := RunPass(e);
    RunPassSound(e, v, f);
    if n > 0 {
      RunPassReducible(e);
      EliminateYnNormal(x);
      EliminateYnSound(x, v);
      EliminateDupsCorrect(EliminateYn(x), v, f);
    }
  }

  /** The result is settled; a settled expression is a fixed point, so the function is idempotent. */
  lemma {:induction false} EliminateDupsSettles(e: Expr)
    ensures Settled(EliminateDups(e))
    ensures Settled(e) ==> EliminateDups(e) == e
    ensures EliminateDups(EliminateDups(e)) == EliminateDups(e)
    decreases Size(e)
  {
    var (x, n) := RunPass(e);
    RunPassIdle(e);
    if n > 0 {
      RunPassReducible(e);
      EliminateYnNormal(x);
      EliminateDupsSettles(EliminateYn(x));
    }
    RunPassIdle(EliminateDups(e));
  }

  /** A symbol, a comparison, or the negation of one. */
  predicate Literal(e: Expr) {
    e.Atom? || e.Compare? || (e.Neg? && (e.arg.Atom? || e.arg.Compare?))
  }

  lemma LiteralJoins(op: Op, x: Expr)
    requires Literal(x)
    ensures JoinOp(op, x, x) == Some(x)
  {
    if x.Neg? { assert ExprEq(x.arg, x.arg); }
  }

  /** Of two operands that are joined the first becomes the constant, and the second takes the result. */
  lemma FirstGoes(op: Op, i: nat, j: nat, slots: seq<Expr>)
    requires i < |slots| && j < |slots| && i != j && AllOperands(op, slots) && !slots[i].Bin?
    requires JoinOp(op, slots[i], slots[j]).Some?
    ensures var p := Meet(op, i, j, slots);
            && p.slots[i] == Atom(UnitSymbol(op)) && p.slots[j] == JoinOp(op, slots[i], slots[j]).value && p.count == 1
            && forall k :: 0 <= k < |slots| && k != i && k != j ==> p.slots[k] == slots[k]
  {
  }

  lemma QuietRow(op: Op, i: nat, slots: seq<Expr>)
    requires |slots| == 3 && i < 3 && AllOperands(op, slots) && !slots[i].Bin?
    requires forall j :: 0 <= j < 3 && j != i ==> JoinOp(op, slots[i], slots[j]).None?
    ensures Row(op, i, 0, 3, slots) == Pass(slots, 0)
  {
    assert slots[i := slots[i]] == slots;
    assert Meet(op, i, 0, slots) == Pass(slots, 0) && Meet(op, i, 1, slots) == Pass(slots, 0);
    assert Meet(op, i, 2, slots) == Pass(slots, 0);
    assert Row(op, i, 3, 3, slots) == Pass(slots, 0);
    assert Row(op, i, 2, 3, slots) == Pass(slots, 0);
    assert Row(op, i, 1, 3, slots) == Pass(slots, 0);
  }

  lemma FirstRow(op: Op, x: Expr, y: Expr, u: Expr)
    requires u == Atom(UnitSymbol(op)) && !x.Bin? && !y.Bin? && JoinOp(op, x, y).None? && JoinOp(op, x, x) == Some(x)
    ensures AllOperands(op, [x, y, x]) && Row(op, 0, 0, 3, [x, y, x]) == Pass([u, y, x], 1)
  {
    var s0, s1 := [x, y, x], [u, y, x];
    assert s0[0 := u][2 := x] == s1 && s0[0 := x] == s0;
    assert Row(op, 0, 3, 3, s1) == Pass(s1, 0) && Meet(op, 0, 2, s0) == Pass(s1, 1);
    assert Row(op, 0, 2, 3, s0) == Pass(s1, 1);
    assert Meet(op, 0, 1, s0) == Pass(s0, 0);
    assert Row(op, 0, 1, 3, s0) == Pass(s1, 1);
  }

  lemma ThreeRows(op: Op, x: Expr, y: Expr, u: Expr)
    requires u == Atom(UnitSymbol(op)) && !x.Bin? && !y.Bin? && JoinOp(op, x, y).None? && JoinOp(op, x, x) == Some(x)
    requires JoinOp(op, y, x).None? && JoinOp(op, x, u).None? && JoinOp(op, y, u).None?
    ensures AllOperands(op, [x, y, x]) && Rows(op, 0, 3, 0, 3, [x, y, x]) == Pass([u, y, x], 1)
  {
    var s1 := [u, y, x];
    FirstRow(op, x, y, u);
    QuietRow(op, 1, s1);
    QuietRow(op, 2, s1);
    assert Rows(op, 3, 3, 0, 3, s1) == Pass(s1, 0);
    assert Rows(op, 2, 3, 0, 3, s1) == Pass(s1, 0);
    assert Rows(op, 1, 3, 0, 3, s1) == Pass(s1, 0);
  }

  lemma ThreeOperands(op: Op, x: Expr, y: Expr)
    requires !x.Bin? && !y.Bin?
    ensures Operands(op, Bin(op, Bin(op, x, y), x)) == [x, y, x]
  {
    assert Operands(op, Bin(op, x, y)) == [x, y] && Operands(op, x) == [x];
  }

  lemma ThreeRebuilt(op: Op, x: Expr, y: Expr, u: Expr)
    requires !x.Bin? && !y.Bin?
    ensures |Operands(op, Bin(op, Bin(op, x, y), x))| == 3
    ensures Rebuild(op, Bin(op, Bin(op, x, y), x), [u, y, x]) == Bin(op, Bin(op, u, y), x)
  {
    var s1 := [u, y, x];
    ThreeOperands(op, x, y);
    assert Operands(op, Bin(op, x, y)) == [x, y] && Operands(op, x) == [x] && Operands(op, y) == [y];
    assert s1[..2] == [u, y] && s1[2..] == [x] && [u, y][..1] == [u] && [u, y][1..] == [y];
    assert Rebuild(op, Bin(op, x, y), [u, y]) == Bin(op, u, y) && Rebuild(op, x, [x]) == x;
  }

  lemma PassOverThree(op: Op, x: Expr, y: Expr, u: Expr)
    requires u == Atom(UnitSymbol(op)) && !x.Bin? && !y.Bin? && JoinOp(op, x, y).None? && JoinOp(op, x, x) == Some(x)
    requires JoinOp(op, y, x).None? && JoinOp(op, x, u).None? && JoinOp(op, y, u).None?
    ensures RunPass(Bin(op, Bin(op, x, y), x)) == (Bin(op, Bin(op, u, y), x), 1)
  {
    ThreeRows(op, x, y, u);
    ThreeOperands(op, x, y);
    ThreeRebuilt(op, x, y, u);
  }

  /** So of a repeated operand the last occurrence stays: A || B || A becomes B || A. */
  lemma LastStays(op: Op, a: Symbol, b: Symbol)
    requires a != b && !IsTristateConstant(a) && !IsTristateConstant(b)
    ensures EliminateDups(Bin(op, Bin(op, Atom(a), Atom(b)), Atom(a))) == Bin(op, Atom(b), Atom(a))
  {
    var x, y, u := Atom(a), Atom(b), Atom(UnitSymbol(op));
    var e := Bin(op, Bin(op, u, y), x);
    PassOverThree(op, x, y, u);
    assert EliminateYn(Bin(op, u, y)) == y;
    assert EliminateYn(e) == Bin(op, y, x);
    TwoSettled(op, x, y);
    EliminateDupsSettles(Bin(op, y, x));
  }

  lemma TwoSettled(op: Op, x: Expr, y: Expr)
    requires !x.Bin? && !y.Bin? && JoinOp(op, x, y).None? && JoinOp(op, y, x).None?
    ensures Settled(Bin(op, y, x))
  {
    assert Operands(op, Bin(op, y, x)) == [y, x];
  }

  /** x is a part of e. */
  predicate IsPart(x: Expr, e: Expr) {
    x == e || match e
      case Neg(a) => false
      case Bin(_, a, b) => IsPart(x, a) || IsPart(x, b)
      case _ => false
  }

  /** Two operands of one level that expr_join_or or expr_join_and has a rule for, in either order. */
  predicate HasRule(op: Op, x: Expr, y: Expr) {
    RuleFor(op, x, y) || RuleFor(op, y, x)
  }

  predicate RuleFor(op: Op, x: Expr, y: Expr) {
    match (x, y)
    case (Atom(s), Neg(Atom(r))) => op == OrOp && s == r && s.ty == Boolean
    case (Atom(s), Compare(rel, r, c)) =>
      op == AndOp && s == r && IsLogical(s) && ((rel == Eq && c == YES) || (rel == Ne && (c == NO || c == MOD)))
    case (Compare(rel, s, b), Compare(rel', r, c)) =>
      && s == r && s.ty == Trivalued
      && (if rel == rel' then
            rel == (if op == OrOp then Eq else Ne) && b != c && IsTristateConstant(b) && IsTristateConstant(c)
          else op == AndOp && rel == Eq && rel' == Ne && b.isConst && c.isConst)
    case _ => false
  }

  lemma RulesJoin(op: Op, x: Expr, y: Expr)
    requires HasRule(op, x, y)
    ensures JoinOp(op, x, y).Some? && JoinOp(op, y, x).Some?
  {
  }

  /** From lo on, the operands of e are those of x. */
  predicate HasRun(op: Op, e: Expr, x: Expr, lo: nat) {
    var o, p := Operands(op, e), Operands(op, x);
    IsOp(x, op) && lo + |p| <= |o| && o[lo..lo + |p|] == p
  }

  lemma SliceLeft(p: seq<Expr>, q: seq<Expr>, lo: nat, hi: nat)
    requires lo <= hi <= |p|
    ensures (p + q)[lo..hi] == p[lo..hi]
  {
  }

  lemma SliceRight(p: seq<Expr>, q: seq<Expr>, lo: nat, hi: nat)
    requires lo <= hi <= |q|
    ensures (p + q)[|p| + lo..|p| + hi] == q[lo..hi]
  {
  }

  lemma RunLeft(op: Op, a: Expr, b: Expr, x: Expr, lo: nat)
    requires HasRun(op, a, x, lo)
    ensures HasRun(op, Bin(op, a, b), x, lo)
  {
    SliceLeft(Operands(op, a), Operands(op, b), lo, lo + |Operands(op, x)|);
  }

  lemma RunRight(op: Op, a: Expr, b: Expr, x: Expr, lo: nat)
    requires HasRun(op, b, x, lo)
    ensures HasRun(op, Bin(op, a, b), x, |Operands(op, a)| + lo)
  {
    SliceRight(Operands(op, a), Operands(op, b), lo, lo + |Operands(op, x)|);
  }

  /** x is a part of one of the expressions os. */
  ghost predicate IsPartOfOne(x: Expr, os: seq<Expr>) {
    exists k :: 0 <= k < |os| && IsPart(x, os[k])
  }

  lemma PartOfSum(x: Expr, p: seq<Expr>, q: seq<Expr>)
    ensures IsPartOfOne(x, p) || IsPartOfOne(x, q) ==> IsPartOfOne(x, p + q)
  {
    if k :| 0 <= k < |p| && IsPart(x, p[k]) {
      assert (p + q)[k] == p[k];
    }
    if k :| 0 <= k < |q| && IsPart(x, q[k]) {
      assert (p + q)[|p| + k] == q[k];
    }
  }

  /** A part of e is a part of its level, or of one of the operands. */
  lemma {:induction false} PartCases(op: Op, e: Expr, x: Expr)
    requires IsPart(x, e)
    ensures (exists lo: nat :: HasRun(op, e, x, lo)) || IsPartOfOne(x, Operands(op, e))
  {
    if !IsOp(e, op) {
      assert Operands(op, e)[0] == e;
    } else if x == e {
      assert HasRun(op, e, x, 0);
    } else {
      PartOfSum(x, Operands(op, e.l), Operands(op, e.r));
      if IsPart(x, e.l) {
        PartCases(op, e.l, x);
        if lo: nat :| HasRun(op, e.l, x, lo) { RunLeft(op, e.l, e.r, x, lo); }
      } else {
        PartCases(op, e.r, x);
        if lo: nat :| HasRun(op, e.r, x, lo) { RunRight(op, e.l, e.r, x, lo); }
      }
    }
  }

  lemma {:induction false} SettledPart(e: Expr, x: Expr, i: nat, j: nat)
    requires Settled(e) && IsPart(x, e) && x.Bin? && i < |Operands(x.op, x)| && j < |Operands(x.op, x)| && i != j
    ensures JoinOp(x.op, Operands(x.op, x)[i], Operands(x.op, x)[j]).None?
    decreases Size(e)
  {
    if e.Bin? {
      var o := Operands(e.op, e);
      PartCases(e.op, e, x);
      if lo: nat :| HasRun(e.op, e, x, lo) {
        var p := Operands(e.op, x);
        assert p[i] == o[lo..lo + |p|][i] == o[lo + i] && p[j] == o[lo..lo + |p|][j] == o[lo + j];
      } else {
        var k :| 0 <= k < |o| && IsPart(x, o[k]);
        OperandsSmaller(e.op, e);
        SettledPart(o[k], x, i, j);
      }
    }
  }

  /**
    At no level that is not below a negation does the result of expr_eliminate_dups have two equal literals, or
    two operands that there is a rule for.
   */
  lemma NothingToJoin(e: Expr, x: Expr, i: nat, j: nat)
    requires IsPart(x, EliminateDups(e)) && x.Bin? && i < j < |Operands(x.op, x)|
    ensures var o := Operands(x.op, x); !HasRule(x.op, o[i], o[j]) && (Literal(o[i]) ==> o[i] != o[j])
  {
    var o := Operands(x.op, x);
    EliminateDupsSettles(e);
    SettledPart(EliminateDups(e), x, i, j);
    if Literal(o[i]) { LiteralJoins(x.op, o[i]); }
    if HasRule(x.op, o[i], o[j]) { RulesJoin(x.op, o[i], o[j]); }
  }

  /** A || B || A becomes A || B: no literal occurs twice among the operands of a level of the result. */
  lemma SettledDistinct(e: Expr, i: nat, j: nat)
    requires EliminateDups(e).Bin?
    requires var r := EliminateDups(e); i < j < |Operands(r.op, r)|
    ensures var r := EliminateDups(e); Literal(Operands(r.op, r)[i]) ==> Operands(r.op, r)[i] != Operands(r.op, r)[j]
  {
    EliminateDupsSettles(e);
    var r := EliminateDups(e);
    var o := Operands(r.op, r);
    if Literal(o[i]) { LiteralJoins(r.op, o[i]); }
  }
}
