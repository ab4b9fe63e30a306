/**
  __expr_eliminate_eq, expr_eliminate_eq and expr_eq of expr.c as they run: two trees lose their common
  operands in place, and expr_eq does that to copies.
 */
module ExprHeapEq {
  import opened Tristates
  import opened Exprs
  import opened ElimEq
  import opened ExprHeaps

  /** Two trees without a common node. */
  ghost predicate Pair(h: Cells, p1: nat, e1: Expr, p2: nat, e2: Expr) {
    Owns(h, p1, e1) && Owns(h, p2, e2) && Feet(h, p1, e1) !! Feet(h, p2, e2)
  }

  ghost function PairFeet(h: Cells, p1: nat, e1: Expr, p2: nat, e2: Expr): set<nat> {
    Feet(h, p1, e1) + Feet(h, p2, e2)
  }

  /** The pair at p1 and p2 in a is rewritten into the pair at q1 and q2 in b. */
  ghost predicate BecamePair(a: Cells, p1: nat, e1: Expr, p2: nat, e2: Expr, b: Cells, q1: nat, r1: Expr, q2: nat,
                             r2: Expr) {
    && Pair(b, q1, r1, q2, r2)
    && OnlyOn(a, b, PairFeet(a, p1, e1, p2, e2))
    && Within(a, PairFeet(a, p1, e1, p2, e2), PairFeet(b, q1, r1, q2, r2))
  }

  lemma PairSwap(a: Cells, p1: nat, e1: Expr, p2: nat, e2: Expr, b: Cells, q1: nat, r1: Expr, q2: nat, r2: Expr)
    requires BecamePair(a, p1, e1, p2, e2, b, q1, r1, q2, r2)
    ensures BecamePair(a, p2, e2, p1, e1, b, q2, r2, q1, r1)
  {
    assert PairFeet(a, p2, e2, p1, e1) == PairFeet(a, p1, e1, p2, e2);
    assert PairFeet(b, q2, r2, q1, r1) == PairFeet(b, q1, r1, q2, r2);
  }

  lemma PairUnharmed(a: Cells, b: Cells, p1: nat, e1: Expr, p2: nat, e2: Expr)
    requires Pair(a, p1, e1, p2, e2) && OnlyOn(a, b, {})
    ensures BecamePair(a, p1, e1, p2, e2, b, p1, e1, p2, e2)
  {
    Outside(a, b, p1, e1, {});
    Outside(a, b, p2, e2, {});
  }

  lemma PairOnward(a: Cells, p1: nat, e1: Expr, p2: nat, e2: Expr, b: Cells, q1: nat, r1: Expr, q2: nat, r2: Expr,
                   c: Cells, s1: nat, t1: Expr, s2: nat, t2: Expr)
    requires BecamePair(a, p1, e1, p2, e2, b, q1, r1, q2, r2) && BecamePair(b, q1, r1, q2, r2, c, s1, t1, s2, t2)
    ensures BecamePair(a, p1, e1, p2, e2, c, s1, t1, s2, t2)
  {
  }

  /** The left operand of p1 has been compared with the tree at p2: its right operand is next. */
  lemma FirstHalf(a: Cells, p1: nat, e1: Expr, p2: nat, e2: Expr, b: Cells, l: nat, le: Expr, x: nat, xe: Expr)
    requires Pair(a, p1, e1, p2, e2) && e1.Bin? && BecamePair(a, a[p1].left, e1.l, p2, e2, b, l, le, x, xe)
    ensures Pair(b, a[p1].right, e1.r, x, xe) && Feet(b, a[p1].right, e1.r) == Feet(a, a[p1].right, e1.r)
    ensures Feet(b, l, le) !! PairFeet(b, a[p1].right, e1.r, x, xe)
    ensures p1 < |b| && b[p1] == a[p1] && p1 !in PairFeet(b, l, le, x, xe)
  {
    FeetAllocated(a, p1, e1);
    Outside(a, b, a[p1].right, e1.r, PairFeet(a, a[p1].left, e1.l, p2, e2));
  }

  /** Both operands of p1 have been rewritten, to the trees at l and r, and the other tree to that at y. */
  ghost predicate Halves(a: Cells, p1: nat, e1: Expr, p2: nat, e2: Expr, c: Cells, l: nat, le: Expr, r: nat, re: Expr,
                         y: nat, ye: Expr) {
    && p1 < |c| && p1 in Feet(a, p1, e1)
    && Pair(c, l, le, r, re) && p1 !in PairFeet(c, l, le, r, re)
    && Owns(c, y, ye) && p1 !in Feet(c, y, ye) && PairFeet(c, l, le, r, re) !! Feet(c, y, ye)
    && OnlyOn(a, c, PairFeet(a, p1, e1, p2, e2))
    && Within(a, PairFeet(a, p1, e1, p2, e2), PairFeet(c, l, le, r, re) + Feet(c, y, ye))
  }

  /** What a step on trees within f does to a tree apart from it, and how far the results spread. */
  lemma Accounts(a: Cells, m: set<nat>, b: Cells, f: set<nat>, k: set<nat>, c: Cells, g: set<nat>)
    requires OnlyOn(a, b, m) && Within(a, m, f) && Within(a, m, k) && OnlyOn(b, c, k) && Within(b, k, g)
    ensures OnlyOn(a, c, m) && Within(a, m, f + g)
  {
  }

  lemma BothHalves(a: Cells, p1: nat, e1: Expr, p2: nat, e2: Expr, b: Cells, l: nat, le: Expr, x: nat, xe: Expr,
                   c: Cells, r: nat, re: Expr, y: nat, ye: Expr)
    requires Pair(a, p1, e1, p2, e2) && e1.Bin? && BecamePair(a, a[p1].left, e1.l, p2, e2, b, l, le, x, xe)
    requires BecamePair(b, a[p1].right, e1.r, x, xe, c, r, re, y, ye)
    ensures Halves(a, p1, e1, p2, e2, c, l, le, r, re, y, ye) && c[p1] == a[p1]
  {
    FirstHalf(a, p1, e1, p2, e2, b, l, le, x, xe);
    FeetAllocated(b, l, le);
    Outside(b, c, l, le, PairFeet(b, a[p1].right, e1.r, x, xe));
    FeetAllocated(a, p1, e1);
    Accounts(a, PairFeet(a, p1, e1, p2, e2), b, Feet(b, l, le), PairFeet(b, a[p1].right, e1.r, x, xe),
             c, PairFeet(c, r, re, y, ye));
    assert PairFeet(c, l, le, r, re) + Feet(c, y, ye) == Feet(b, l, le) + PairFeet(c, r, re, y, ye);
  }

  /** p joins the trees at l and r by op. */
  lemma Join(c: Cells, p: nat, op: Op, l: nat, le: Expr, r: nat, re: Expr)
    requires p < |c| && Pair(c, l, le, r, re) && p !in PairFeet(c, l, le, r, re)
    ensures var d := c[p := OpCell(op, l, r)];
            Owns(d, p, Bin(op, le, re)) && Feet(d, p, Bin(op, le, re)) == {p} + PairFeet(c, l, le, r, re)
  {
    var d := c[p := OpCell(op, l, r)];
    Unharmed(c, d, l, le);
    Unharmed(c, d, r, re);
  }

  lemma JoinedPair(c: Cells, p: nat, op: Op, l: nat, le: Expr, r: nat, re: Expr, y: nat, ye: Expr)
    requires p < |c| && Pair(c, l, le, r, re) && p !in PairFeet(c, l, le, r, re)
    requires Owns(c, y, ye) && p !in Feet(c, y, ye) && PairFeet(c, l, le, r, re) !! Feet(c, y, ye)
    ensures var d := c[p := OpCell(op, l, r)];
            && Pair(d, p, Bin(op, le, re), y, ye)
            && PairFeet(d, p, Bin(op, le, re), y, ye) == {p} + PairFeet(c, l, le, r, re) + Feet(c, y, ye)
  {
    Join(c, p, op, l, le, r, re);
    Unharmed(c, c[p := OpCell(op, l, r)], y, ye);
  }

  lemma HalvesJoined(a: Cells, p1: nat, e1: Expr, p2: nat, e2: Expr, c: Cells, op: Op, l: nat, le: Expr, r: nat,
                     re: Expr, y: nat, ye: Expr)
    requires Halves(a, p1, e1, p2, e2, c, l, le, r, re, y, ye)
    ensures BecamePair(a, p1, e1, p2, e2, c[p1 := OpCell(op, l, r)], p1, Bin(op, le, re), y, ye)
  {
    JoinedPair(c, p1, op, l, le, r, re, y, ye);
    Account(a, PairFeet(a, p1, e1, p2, e2), c, c[p1 := OpCell(op, l, r)], p1,
            PairFeet(c, l, le, r, re), Feet(c, y, ye));
  }

  lemma Account(a: Cells, m: set<nat>, c: Cells, d: Cells, p: nat, f: set<nat>, g: set<nat>)
    requires p in m && p < |c| && OnlyOn(a, c, m) && |d| == |c| && (forall k :: 0 <= k < |c| && k != p ==> d[k] == c[k])
    requires Within(a, m, f + g)
    ensures OnlyOn(a, d, m) && Within(a, m, {p} + f + g)
  {
  }

  /** A tree all of whose nodes are new since a. */
  ghost predicate Fresh(a: Cells, h: Cells, q: nat, e: Expr) {
    Owns(h, q, e) && OnlyOn(a, h, {}) && Within(a, {}, Feet(h, q, e))
  }

  lemma FreshNode(a: Cells, b: Cells, l: nat, le: Expr, c: Cells, r: nat, re: Expr, op: Op)
    requires Fresh(a, b, l, le) && Fresh(b, c, r, re)
    ensures Fresh(a, c + [OpCell(op, l, r)], |c|, Bin(op, le, re))
  {
    var d := c + [OpCell(op, l, r)];
    FeetAllocated(b, l, le);
    Outside(b, c, l, le, {});
    FeetAllocated(c, r, re);
    Unharmed(c, d, l, le);
    Unharmed(c, d, r, re);
  }

  lemma FreshNegation(a: Cells, b: Cells, q: nat, e: Expr)
    requires Fresh(a, b, q, e)
    ensures Fresh(a, b + [NotCell(q)], |b|, Neg(e))
  {
    FeetAllocated(b, q, e);
    Unharmed(b, b + [NotCell(q)], q, e);
  }

  /** expr_copy. */
  method Copy(x: ExprHeap, p: nat, ghost e: Expr) returns (q: nat)
    requires Owns(x.h, p, e)
    modifies x`h
    ensures Fresh(old(x.h), x.h, q, e)
    decreases e
  {
    ghost var a := x.h;
    if x.h[p].OpCell? {
      var cell := x.h[p];
      var left := Copy(x, cell.left, e.l);
      ghost var b := x.h;
      Outside(a, b, cell.right, e.r, {});
      var right := Copy(x, cell.right, e.r);
      FreshNode(a, b, left, e.l, x.h, right, e.r, cell.op);
      q := x.Alloc(OpCell(cell.op, left, right));
    } else if x.h[p].NotCell? {
      var arg := Copy(x, x.h[p].arg, e.arg);
      FreshNegation(a, x.h, arg, e.arg);
      q := x.Alloc(NotCell(arg));
    } else {
      q := x.Alloc(x.h[p]);
    }
  }

  /** __expr_eliminate_eq. */
  method EliminateLevel(x: ExprHeap, op: Op, p1: nat, p2: nat, ghost e1: Expr, ghost e2: Expr)
    returns (q1: nat, q2: nat)
    requires Pair(x.h, p1, e1, p2, e2)
    modifies x
    ensures var r := ElimEq.EliminateLevel(op, e1, e2); BecamePair(old(x.h), p1, e1, p2, e2, x.h, q1, r.0, q2, r.1)
    decreases Size(e1) + Size(e2), if IsOp(e1, op) || IsOp(e2, op) then 1 else 5
  {
    if x.h[p1].OpCell? && x.h[p1].op == op {
      q1, q2 := LevelFirst(x, op, p1, p2, e1, e2);
    } else if x.h[p2].OpCell? && x.h[p2].op == op {
      q1, q2 := LevelSecond(x, op, p1, p2, e1, e2);
    } else {
      q1, q2 := LevelLeaves(x, op, p1, p2, e1, e2);
    }
  }

  /** The first tree branches: its operands in turn against the second tree. */
  method LevelFirst(x: ExprHeap, op: Op, p1: nat, p2: nat, ghost e1: Expr, ghost e2: Expr) returns (q1: nat, q2: nat)
    requires Pair(x.h, p1, e1, p2, e2) && IsOp(e1, op)
    modifies x
    ensures var r := ElimEq.EliminateLevel(op, e1, e2); BecamePair(old(x.h), p1, e1, p2, e2, x.h, q1, r.0, q2, r.1)
    decreases Size(e1) + Size(e2), 0
  {
    ghost var a := x.h;
    ghost var s := ElimEq.EliminateLevel(op, e1.l, e2);
    ghost var t := ElimEq.EliminateLevel(op, e1.r, s.1);
    var left, mid := EliminateLevel(x, op, x.h[p1].left, p2, e1.l, e2);
    ghost var b := x.h;
    FirstHalf(a, p1, e1, p2, e2, b, left, s.0, mid, s.1);
    var right;
    right, q2 := EliminateLevel(x, op, x.h[p1].right, mid, e1.r, s.1);
    BothHalves(a, p1, e1, p2, e2, b, left, s.0, mid, s.1, x.h, right, t.0, q2, t.1);
    HalvesJoined(a, p1, e1, p2, e2, x.h, op, left, s.0, right, t.0, q2, t.1);
    x.h := x.h[p1 := OpCell(op, left, right)];
    q1 := p1;
  }

  /** Only the second one does: the first tree against its operands in turn. */
  method LevelSecond(x: ExprHeap, op: Op, p1: nat, p2: nat, ghost e1: Expr, ghost e2: Expr) returns (q1: nat, q2: nat)
    requires Pair(x.h, p1, e1, p2, e2) && !IsOp(e1, op) && IsOp(e2, op)
    modifies x
    ensures var r := ElimEq.EliminateLevel(op, e1, e2); BecamePair(old(x.h), p1, e1, p2, e2, x.h, q1, r.0, q2, r.1)
    decreases Size(e1) + Size(e2), 0
  {
    ghost var a := x.h;
    ghost var s := ElimEq.EliminateLevel(op, e1, e2.l);
    ghost var t := ElimEq.EliminateLevel(op, s.0, e2.r);
    var mid, left := EliminateLevel(x, op, p1, x.h[p2].left, e1, e2.l);
    ghost var b := x.h;
    PairSwap(a, p1, e1, a[p2].left, e2.l, b, mid, s.0, left, s.1);
    FirstHalf(a, p2, e2, p1, e1, b, left, s.1, mid, s.0);
    var right;
    q1, right := EliminateLevel(x, op, mid, x.h[p2].right, s.0, e2.r);
    PairSwap(b, mid, s.0, a[p2].right, e2.r, x.h, q1, t.0, right, t.1);
    BothHalves(a, p2, e2, p1, e1, b, left, s.1, mid, s.0, x.h, right, t.1, q1, t.0);
    HalvesJoined(a, p2, e2, p1, e1, x.h, op, left, s.1, right, t.1, q1, t.0);
    x.h := x.h[p2 := OpCell(op, left, right)];
    q2 := p2;
    PairSwap(a, p2, e2, p1, e1, x.h, p2, Bin(op, s.1, t.1), q1, t.0);
  }

  /** Two leaves: equal ones both become the constant to be eliminated later. */
  method LevelLeaves(x: ExprHeap, op: Op, p1: nat, p2: nat, ghost e1: Expr, ghost e2: Expr) returns (q1: nat, q2: nat)
    requires Pair(x.h, p1, e1, p2, e2) && !IsOp(e1, op) && !IsOp(e2, op)
    modifies x
    ensures var r := ElimEq.EliminateLevel(op, e1, e2); BecamePair(old(x.h), p1, e1, p2, e2, x.h, q1, r.0, q2, r.1)
    decreases Size(e1) + Size(e2), 4
  {
    q1, q2 := p1, p2;
    if x.h[p1].SymCell? && x.h[p2] == x.h[p1] && (x.h[p1].sym == YES || x.h[p1].sym == NO) {
      return;
    }
    ghost var a := x.h;
    var equal := ExprEq(x, p1, p2, e1, e2);
    PairUnharmed(a, x.h, p1, e1, p2, e2);
    if equal {
      x.transCount := x.transCount + 1;
      q1 := x.Alloc(SymCell(UnitSymbol(op)));
      q2 := x.Alloc(SymCell(UnitSymbol(op)));
    }
  }

  /** expr_eliminate_eq. */
  method EliminateEq(x: ExprHeap, p1: nat, p2: nat, ghost e1: Expr, ghost e2: Expr) returns (q1: nat, q2: nat)
    requires Pair(x.h, p1, e1, p2, e2)
    modifies x
    ensures var r := ElimEq.EliminateEq(e1, e2); BecamePair(old(x.h), p1, e1, p2, e2, x.h, q1, r.0, q2, r.1)
    decreases Size(e1) + Size(e2), 2
  {
    ghost var a := x.h;
    ghost var r1 := if e1.Bin? then ElimEq.EliminateLevel(e1.op, e1, e2) else (e1, e2);
    q1, q2 := p1, p2;
    if x.h[p1].OpCell? {
      q1, q2 := EliminateLevel(x, x.h[p1].op, p1, p2, e1, e2);
    }
    ghost var b, t1, t2 := x.h, q1, q2;
    ghost var r2 := if r1.1.Bin? && !IsOp(r1.0, r1.1.op) then ElimEq.EliminateLevel(r1.1.op, r1.0, r1.1) else r1;
    if x.h[q2].OpCell? && !(x.h[q1].OpCell? && x.h[q1].op == x.h[q2].op) {
      q1, q2 := EliminateLevel(x, x.h[q2].op, q1, q2, r1.0, r1.1);
    }
    PairOnward(a, p1, e1, p2, e2, b, t1, r1.0, t2, r1.1, x.h, q1, r2.0, q2, r2.1);
    EliminateBothYn(x, q1, q2, r2.0, r2.1);
  }

  method EliminateBothYn(x: ExprHeap, p1: nat, p2: nat, ghost e1: Expr, ghost e2: Expr)
    requires Pair(x.h, p1, e1, p2, e2)
    modifies x`h
    ensures BecamePair(old(x.h), p1, e1, p2, e2, x.h, p1, ElimEq.EliminateYn(e1), p2, ElimEq.EliminateYn(e2))
  {
    ghost var a := x.h;
    x.EliminateYn(p1, e1);
    Outside(a, x.h, p2, e2, Feet(a, p1, e1));
    ghost var b := x.h;
    FeetAllocated(a, p2, e2);
    FeetAllocated(b, p1, ElimEq.EliminateYn(e1));
    x.EliminateYn(p2, e2);
    Outside(b, x.h, p1, ElimEq.EliminateYn(e1), Feet(b, p2, e2));
  }

  /** expr_eq: the trees compared stay as they are. */
  method ExprEq(x: ExprHeap, p1: nat, p2: nat, ghost e1: Expr, ghost e2: Expr) returns (res: bool)
    requires Owns(x.h, p1, e1) && Owns(x.h, p2, e2)
    modifies x
    ensures res == ElimEq.ExprEq(e1, e2) && OnlyOn(old(x.h), x.h, {}) && x.transCount == old(x.transCount)
    decreases Size(e1) + Size(e2), 3
  {
    var c1, c2 := x.h[p1], x.h[p2];
    if c1.OpCell? && c2.OpCell? && c1.op == c2.op {
      ghost var a := x.h;
      var q1 := Copy(x, p1, e1);
      ghost var b := x.h;
      Outside(a, b, p2, e2, {});
      var q2 := Copy(x, p2, e2);
      ghost var c := x.h;
      TwoCopies(a, b, q1, e1, c, q2, e2);
      var oldCount := x.transCount;
      q1, q2 := EliminateEq(x, q1, q2, e1, e2);
      res := x.h[q1].SymCell? && x.h[q2] == x.h[q1];
      x.transCount := oldCount;
    } else if c1.NotCell? && c2.NotCell? {
      res := ExprEq(x, c1.arg, c2.arg, e1.arg, e2.arg);
    } else {
      res := !c1.OpCell? && !c1.NotCell? && c1 == c2;
    }
  }

  lemma TwoCopies(a: Cells, b: Cells, q1: nat, e1: Expr, c: Cells, q2: nat, e2: Expr)
    requires Fresh(a, b, q1, e1) && Fresh(b, c, q2, e2)
    ensures Pair(c, q1, e1, q2, e2) && OnlyOn(a, c, {}) && Within(a, {}, PairFeet(c, q1, e1, q2, e2))
  {
    FeetAllocated(b, q1, e1);
    Outside(b, c, q1, e1, {});
  }
}
