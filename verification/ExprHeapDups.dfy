/**
  expr_eliminate_dups1 and expr_eliminate_dups of expr.c as they run. Two walks go down the same tree; each
  is at a place, struct expr **, that holds a pointer to a node. What one walk writes into a place the other
  reads from it.
 */
module ExprHeapDups {
  import opened Tristates
  import opened Exprs
  import opened ElimEq
  import opened Join
  import opened Dups
  import opened ExprHeaps
  import opened ExprHeapEq

  /** A struct expr **: the pointer a pass starts from, or a field of a node. */
  datatype Place = Top(n: nat) | LeftOf(n: nat) | RightOf(n: nat)

  predicate HasPlace(h: Cells, w: Place) {
    w.Top? || (w.n < |h| && h[w.n].OpCell?)
  }

  function Deref(h: Cells, w: Place): nat
    requires HasPlace(h, w)
  {
    match w
    case Top(n) => n
    case LeftOf(n) => h[n].left
    case RightOf(n) => h[n].right
  }

  /** The nodes of one level of && or ||, down to its numbered operands. */
  datatype Spine = Leaf(k: nat) | Inner(n: nat, l: Spine, r: Spine)

  function Width(t: Spine): (n: nat)
    ensures n >= 1
  {
    match t
    case Leaf(_) => 1
    case Inner(_, l, r) => Width(l) + Width(r)
  }

  /** The operands of t are numbered from lo on. */
  predicate From(t: Spine, lo: nat) {
    match t
    case Leaf(k) => k == lo
    case Inner(_, l, r) => From(l, lo) && From(r, lo + Width(l))
  }

  function Nodes(t: Spine): set<nat> {
    match t
    case Leaf(_) => {}
    case Inner(n, l, r) => {n} + Nodes(l) + Nodes(r)
  }

  predicate Tidy(t: Spine) {
    t.Inner? ==> t.n !in Nodes(t.l) && t.n !in Nodes(t.r) && Nodes(t.l) !! Nodes(t.r) && Tidy(t.l) && Tidy(t.r)
  }

  /** At place w the heap has the level t, whose operands are at the nodes ps. */
  ghost predicate Level(h: Cells, op: Op, w: Place, t: Spine, ps: seq<nat>)
    decreases t
  {
    && HasPlace(h, w)
    && match t
       case Leaf(k) => k < |ps| && Deref(h, w) == ps[k]
       case Inner(n, l, r) =>
         && Deref(h, w) == n && n < |h| && h[n].OpCell? && h[n].op == op
         && Level(h, op, LeftOf(n), l, ps) && Level(h, op, RightOf(n), r, ps)
  }

  /** t1 at w1 is a part of t at w. */
  ghost predicate Sub(t: Spine, w: Place, t1: Spine, w1: Place)
    decreases t
  {
    (t == t1 && w == w1) || (t.Inner? && (Sub(t.l, LeftOf(t.n), t1, w1) || Sub(t.r, RightOf(t.n), t1, w1)))
  }

  lemma {:induction false} SubLevel(h: Cells, op: Op, w: Place, t: Spine, ps: seq<nat>, t1: Spine, w1: Place)
    requires Level(h, op, w, t, ps) && Sub(t, w, t1, w1)
    ensures Level(h, op, w1, t1, ps)
    decreases t
  {
    if !(t == t1 && w == w1) {
      if Sub(t.l, LeftOf(t.n), t1, w1) {
        SubLevel(h, op, LeftOf(t.n), t.l, ps, t1, w1);
      } else {
        SubLevel(h, op, RightOf(t.n), t.r, ps, t1, w1);
      }
    }
  }

  lemma {:induction false} SubTrans(t: Spine, w: Place, t1: Spine, w1: Place, t2: Spine, w2: Place)
    requires Sub(t, w, t1, w1) && Sub(t1, w1, t2, w2)
    ensures Sub(t, w, t2, w2)
    decreases t
  {
    if !(t == t1 && w == w1) {
      if Sub(t.l, LeftOf(t.n), t1, w1) {
        SubTrans(t.l, LeftOf(t.n), t1, w1, t2, w2);
      } else {
        SubTrans(t.r, RightOf(t.n), t1, w1, t2, w2);
      }
    }
  }

  /** A part below the top sits in a field of one of the nodes. */
  lemma {:induction false} SubBelow(t: Spine, w: Place, lo: nat, k: nat, w1: Place)
    requires Sub(t, w, Leaf(k), w1) && From(t, lo)
    ensures lo <= k < lo + Width(t)
    ensures t.Inner? ==> !w1.Top? && w1.n in Nodes(t)
    ensures t.Leaf? ==> w1 == w && k == lo
    decreases t
  {
    if t.Inner? {
      if Sub(t.l, LeftOf(t.n), Leaf(k), w1) {
        SubBelow(t.l, LeftOf(t.n), lo, k, w1);
      } else {
        SubBelow(t.r, RightOf(t.n), lo + Width(t.l), k, w1);
      }
    }
  }

  /** A level whose nodes stay as they are. */
  lemma {:induction false} LevelKept(h: Cells, h': Cells, op: Op, w: Place, t: Spine, lo: nat, ps: seq<nat>,
                                     ps': seq<nat>)
    requires Level(h, op, w, t, ps) && From(t, lo) && HasPlace(h', w) && Deref(h', w) == Deref(h, w)
    requires |h| <= |h'| && forall n :: n in Nodes(t) ==> n < |h| && h'[n] == h[n]
    requires |ps'| == |ps| && forall k :: lo <= k < lo + Width(t) && k < |ps| ==> ps'[k] == ps[k]
    ensures Level(h', op, w, t, ps')
    decreases t
  {
    if t.Inner? {
      LevelKept(h, h', op, LeftOf(t.n), t.l, lo, ps, ps');
      LevelKept(h, h', op, RightOf(t.n), t.r, lo + Width(t.l), ps, ps');
    }
  }

  /** The cell of a node with the pointer in one of its fields replaced. */
  function Filled(c: Cell, w: Place, q: nat): Cell
    requires c.OpCell? && !w.Top?
  {
    if w.LeftOf? then c.(left := q) else c.(right := q)
  }

  function Write(h: Cells, w: Place, q: nat): Cells
    requires HasPlace(h, w) && !w.Top?
  {
    h[w.n := Filled(h[w.n], w, q)]
  }

  /** Writing the place of operand k. */
  lemma {:induction false} LevelWritten(h: Cells, op: Op, w: Place, t: Spine, lo: nat, ps: seq<nat>, k: nat,
                                        w1: Place, q: nat)
    requires Level(h, op, w, t, ps) && From(t, lo) && Tidy(t) && lo + Width(t) <= |ps|
    requires t.Inner? && Sub(t, w, Leaf(k), w1) && (!w.Top? ==> w.n !in Nodes(t))
    ensures k < |ps| && HasPlace(h, w1) && !w1.Top? && Level(Write(h, w1, q), op, w, t, ps[k := q])
    decreases t
  {
    SubLevel(h, op, w, t, ps, Leaf(k), w1);
    SubBelow(t, w, lo, k, w1);
    var h', ps' := Write(h, w1, q), ps[k := q];
    if Sub(t.l, LeftOf(t.n), Leaf(k), w1) {
      SubBelow(t.l, LeftOf(t.n), lo, k, w1);
      LevelNodes(h, op, RightOf(t.n), t.r, ps);
      LevelKept(h, h', op, RightOf(t.n), t.r, lo + Width(t.l), ps, ps');
      if t.l.Inner? { LevelWritten(h, op, LeftOf(t.n), t.l, lo, ps, k, w1, q); }
    } else {
      SubBelow(t.r, RightOf(t.n), lo + Width(t.l), k, w1);
      LevelNodes(h, op, LeftOf(t.n), t.l, ps);
      LevelKept(h, h', op, LeftOf(t.n), t.l, lo, ps, ps');
      if t.r.Inner? { LevelWritten(h, op, RightOf(t.n), t.r, lo + Width(t.l), ps, k, w1, q); }
    }
  }

  lemma {:induction false} LevelNodes(h: Cells, op: Op, w: Place, t: Spine, ps: seq<nat>)
    requires Level(h, op, w, t, ps)
    ensures forall n :: n in Nodes(t) ==> n < |h|
    decreases t
  {
    if t.Inner? {
      LevelNodes(h, op, LeftOf(t.n), t.l, ps);
      LevelNodes(h, op, RightOf(t.n), t.r, ps);
    }
  }

  // --------------------------------------------------- the state of a pass

  /** Operand k is the tree es[k], beside the nodes of the level. */
  ghost predicate OwnSlot(h: Cells, t: Spine, ps: seq<nat>, es: seq<Expr>, k: nat)
    requires k < |ps| == |es|
  {
    Owns(h, ps[k], es[k]) && Feet(h, ps[k], es[k]) !! Nodes(t)
  }

  ghost predicate Apart(h: Cells, ps: seq<nat>, es: seq<Expr>, k: nat, j: nat)
    requires k < |ps| == |es| && j < |ps|
  {
    Feet(h, ps[k], es[k]) !! Feet(h, ps[j], es[j])
  }

  /** The operands are trees that share no nodes. */
  ghost predicate Operating(h: Cells, t: Spine, ps: seq<nat>, es: seq<Expr>) {
    && |ps| == |es|
    && (forall k :: 0 <= k < |ps| ==> OwnSlot(h, t, ps, es, k))
    && (forall k, j :: 0 <= k < |ps| && 0 <= j < |ps| && k != j ==> Apart(h, ps, es, k, j))
  }

  /** Since a, only nodes of m have changed, and all nodes in use are among them or new. */
  ghost predicate Accounted(a: Cells, m: set<nat>, h: Cells, t: Spine, ps: seq<nat>, es: seq<Expr>)
    requires |ps| == |es|
  {
    && OnlyOn(a, h, m) && (forall n :: n in Nodes(t) ==> n in m)
    && forall k :: 0 <= k < |ps| ==> Within(a, m, Feet(h, ps[k], es[k]))
  }

  /** A pass over the level t at p, which began in a with a tree of the nodes m. */
  ghost predicate Passing(a: Cells, m: set<nat>, h: Cells, op: Op, p: nat, t: Spine, ps: seq<nat>, es: seq<Expr>) {
    && t.Inner? && Tidy(t) && From(t, 0) && Width(t) == |ps| && Level(h, op, Top(p), t, ps)
    && Operating(h, t, ps, es) && AllOperands(op, es) && Accounted(a, m, h, t, ps, es)
  }

  /** Operand i has been rewritten in place. */
  lemma OperandRewritten(a: Cells, m: set<nat>, h: Cells, h': Cells, op: Op, p: nat, t: Spine, ps: seq<nat>,
                         es: seq<Expr>, i: nat, x: Expr)
    requires Passing(a, m, h, op, p, t, ps, es) && i < |ps| && Became(h, ps[i], es[i], h', ps[i], x) && !IsOp(x, op)
    ensures Passing(a, m, h', op, p, t, ps, es[i := x])
  {
    var es' := es[i := x];
    LevelNodes(h, op, Top(p), t, ps);
    assert OwnSlot(h, t, ps, es, i);
    LevelKept(h, h', op, Top(p), t, 0, ps, ps);
    forall k | 0 <= k < |ps| && k != i
      ensures Owns(h', ps[k], es'[k]) && Feet(h', ps[k], es'[k]) == Feet(h, ps[k], es[k])
      ensures forall n :: n in Feet(h, ps[k], es[k]) ==> n < |h|
      ensures Feet(h, ps[k], es[k]) !! Feet(h, ps[i], es[i])
    {
      assert OwnSlot(h, t, ps, es, k) && Apart(h, ps, es, k, i);
      FeetAllocated(h, ps[k], es[k]);
      Outside(h, h', ps[k], es[k], Feet(h, ps[i], es[i]));
    }
    assert Operating(h', t, ps, es') by {
      forall k | 0 <= k < |ps| ensures OwnSlot(h', t, ps, es', k) {
        assert OwnSlot(h, t, ps, es, k);
      }
      forall k, j | 0 <= k < |ps| && 0 <= j < |ps| && k != j ensures Apart(h', ps, es', k, j) {
        assert Apart(h, ps, es, k, j);
      }
    }
  }

  /** New nodes have been made. */
  lemma HeapGrown(a: Cells, m: set<nat>, h: Cells, h': Cells, op: Op, p: nat, t: Spine, ps: seq<nat>, es: seq<Expr>)
    requires Passing(a, m, h, op, p, t, ps, es) && OnlyOn(h, h', {})
    ensures Passing(a, m, h', op, p, t, ps, es)
  {
    assert OwnSlot(h, t, ps, es, 0);
    Outside(h, h', ps[0], es[0], {});
    OperandRewritten(a, m, h, h', op, p, t, ps, es, 0, es[0]);
    assert es[0 := es[0]] == es;
  }

  /** The tree x at q is made of nodes that no operand but the one in slot i may share. */
  ghost predicate Spare(a: Cells, m: set<nat>, h: Cells, t: Spine, ps: seq<nat>, es: seq<Expr>, i: nat, q: nat, x: Expr)
    requires |ps| == |es|
  {
    && Owns(h, q, x) && Feet(h, q, x) !! Nodes(t) && Within(a, m, Feet(h, q, x))
    && forall k :: 0 <= k < |ps| && k != i ==> SpareOf(h, ps, es, k, q, x)
  }

  ghost predicate SpareOf(h: Cells, ps: seq<nat>, es: seq<Expr>, k: nat, q: nat, x: Expr)
    requires k < |ps| == |es|
  {
    Feet(h, ps[k], es[k]) !! Feet(h, q, x)
  }

  /** The place of operand i has been given another tree. */
  lemma SlotWritten(a: Cells, m: set<nat>, h: Cells, op: Op, p: nat, t: Spine, ps: seq<nat>, es: seq<Expr>, i: nat,
                    w: Place, q: nat, x: Expr)
    requires Passing(a, m, h, op, p, t, ps, es) && i < |ps| && Sub(t, Top(p), Leaf(i), w)
    requires Spare(a, m, h, t, ps, es, i, q, x) && !IsOp(x, op)
    ensures HasPlace(h, w) && !w.Top? && Passing(a, m, Write(h, w, q), op, p, t, ps[i := q], es[i := x])
  {
    LevelWritten(h, op, Top(p), t, 0, ps, i, w, q);
    SubBelow(t, Top(p), 0, i, w);
    var h', ps', es' := Write(h, w, q), ps[i := q], es[i := x];
    Unharmed(h, h', q, x);
    forall k | 0 <= k < |ps| && k != i
      ensures Owns(h', ps'[k], es'[k]) && Feet(h', ps'[k], es'[k]) == Feet(h, ps[k], es[k])
      ensures Feet(h, ps[k], es[k]) !! Nodes(t) && Feet(h, ps[k], es[k]) !! Feet(h, q, x)
    {
      assert OwnSlot(h, t, ps, es, k) && SpareOf(h, ps, es, k, q, x);
      Unharmed(h, h', ps[k], es[k]);
    }
    assert Operating(h', t, ps', es') by {
      forall k | 0 <= k < |ps| ensures OwnSlot(h', t, ps', es', k) {
      }
      forall k, j | 0 <= k < |ps| && 0 <= j < |ps| && k != j ensures Apart(h', ps', es', k, j) {
        assert Apart(h, ps, es, k, j);
      }
    }
  }

  /** A new tree is spare for every slot. */
  lemma NewIsSpare(a: Cells, m: set<nat>, h: Cells, h': Cells, op: Op, p: nat, t: Spine, ps: seq<nat>, es: seq<Expr>,
                   i: nat, q: nat, x: Expr)
    requires Passing(a, m, h, op, p, t, ps, es) && Fresh(h, h', q, x)
    ensures Passing(a, m, h', op, p, t, ps, es) && Spare(a, m, h', t, ps, es, i, q, x)
  {
    HeapGrown(a, m, h, h', op, p, t, ps, es);
    LevelNodes(h, op, Top(p), t, ps);
    forall k | 0 <= k < |ps| && k != i ensures SpareOf(h', ps, es, k, q, x) {
      assert OwnSlot(h, t, ps, es, k);
      FeetAllocated(h, ps[k], es[k]);
      Outside(h, h', ps[k], es[k], {});
    }
  }

  /** Between the two writes: the joined tree is still spare. */
  lemma StillSpare(a: Cells, m: set<nat>, h: Cells, op: Op, p: nat, t: Spine, ps: seq<nat>, es: seq<Expr>, i: nat,
                   j: nat, w: Place, c: nat, z: Expr, q: nat, x: Expr)
    requires Passing(a, m, h, op, p, t, ps, es) && i < |ps| && j < |ps| && i != j && Sub(t, Top(p), Leaf(i), w)
    requires Spare(a, m, h, t, ps, es, i, c, z) && Spare(a, m, h, t, ps, es, j, q, x) && Feet(h, c, z) !! Feet(h, q, x)
    ensures HasPlace(h, w) && !w.Top? && Spare(a, m, Write(h, w, c), t, ps[i := c], es[i := z], j, q, x)
  {
    LevelWritten(h, op, Top(p), t, 0, ps, i, w, c);
    SubBelow(t, Top(p), 0, i, w);
    var h', ps', es' := Write(h, w, c), ps[i := c], es[i := z];
    Unharmed(h, h', q, x);
    Unharmed(h, h', c, z);
    forall k | 0 <= k < |ps| && k != j ensures SpareOf(h', ps', es', k, q, x) {
      if k != i {
        assert OwnSlot(h, t, ps, es, k) && SpareOf(h, ps, es, k, q, x);
        Unharmed(h, h', ps[k], es[k]);
      }
    }
  }

  /** The two places are written, e1 = expr_alloc_symbol(...) and e2 = tmp. */
  lemma PairWritten(a: Cells, m: set<nat>, h1: Cells, h2: Cells, op: Op, p: nat, t: Spine, ps: seq<nat>, es: seq<Expr>,
                    i: nat, w1: Place, s: Symbol, j: nat, w2: Place, q: nat, x: Expr)
    requires Passing(a, m, h1, op, p, t, ps, es) && i < |ps| && j < |ps| && i != j
    requires Sub(t, Top(p), Leaf(i), w1) && Sub(t, Top(p), Leaf(j), w2) && Fresh(h1, h2, q, x) && !IsOp(x, op)
    ensures var h3 := h2 + [SymCell(s)];
            && HasPlace(h3, w1) && !w1.Top? && HasPlace(Write(h3, w1, |h2|), w2) && !w2.Top?
            && Passing(a, m, Write(Write(h3, w1, |h2|), w2, q), op, p, t,
                       ps[i := |h2|][j := q], es[i := Atom(s)][j := x])
  {
    var h3, c := h2 + [SymCell(s)], |h2|;
    NewIsSpare(a, m, h1, h2, op, p, t, ps, es, j, q, x);
    NewIsSpare(a, m, h2, h3, op, p, t, ps, es, i, c, Atom(s));
    FeetAllocated(h2, q, x);
    Outside(h2, h3, q, x, {});
    NewIsSpare(a, m, h1, h3, op, p, t, ps, es, j, q, x);
    SlotWritten(a, m, h3, op, p, t, ps, es, i, w1, c, Atom(s));
    StillSpare(a, m, h3, op, p, t, ps, es, i, j, w1, c, Atom(s), q, x);
    SlotWritten(a, m, Write(h3, w1, c), op, p, t, ps[i := c], es[i := Atom(s)], j, w2, q, x);
  }

  // ------------------------------------------------ entering and leaving a level

  /** The level op of the tree e at p, with operands numbered from lo on. */
  ghost function SpineOf(h: Cells, p: nat, op: Op, e: Expr, lo: nat): (t: Spine)
    ensures From(t, lo) && Width(t) == |Operands(op, e)|
    decreases e
  {
    if IsOp(e, op) then
      var (l, r) := if p < |h| && h[p].OpCell? then (h[p].left, h[p].right) else (0, 0);
      Inner(p, SpineOf(h, l, op, e.l, lo), SpineOf(h, r, op, e.r, lo + |Operands(op, e.l)|))
    else Leaf(lo)
  }

  /** The nodes of its operands. */
  ghost function PointersOf(h: Cells, p: nat, op: Op, e: Expr): (ps: seq<nat>)
    ensures |ps| == |Operands(op, e)|
    decreases e
  {
    if IsOp(e, op) then
      var (l, r) := if p < |h| && h[p].OpCell? then (h[p].left, h[p].right) else (0, 0);
      PointersOf(h, l, op, e.l) + PointersOf(h, r, op, e.r)
    else [p]
  }

  /** part lies in all from lo on. */
  ghost predicate PartAt<T>(all: seq<T>, lo: nat, part: seq<T>) {
    lo + |part| <= |all| && forall k :: 0 <= k < |part| ==> all[lo + k] == part[k]
  }

  lemma PartSplit<T>(all: seq<T>, lo: nat, a: seq<T>, b: seq<T>)
    requires PartAt(all, lo, a + b)
    ensures PartAt(all, lo, a) && PartAt(all, lo + |a|, b)
  {
    forall k | 0 <= k < |a| ensures all[lo + k] == a[k] {
      assert (a + b)[k] == a[k];
    }
    forall k | 0 <= k < |b| ensures all[lo + |a| + k] == b[k] {
      assert (a + b)[|a| + k] == b[k];
    }
  }

  lemma {:induction false} LevelOpened(h: Cells, op: Op, w: Place, p: nat, e: Expr, lo: nat, ps: seq<nat>)
    requires HasPlace(h, w) && p == Deref(h, w) && Owns(h, p, e) && PartAt(ps, lo, PointersOf(h, p, op, e))
    ensures Level(h, op, w, SpineOf(h, p, op, e, lo), ps)
    decreases e
  {
    if IsOp(e, op) {
      var l, r := h[p].left, h[p].right;
      PartSplit(ps, lo, PointersOf(h, l, op, e.l), PointersOf(h, r, op, e.r));
      LevelOpened(h, op, LeftOf(p), l, e.l, lo, ps);
      LevelOpened(h, op, RightOf(p), r, e.r, lo + |Operands(op, e.l)|, ps);
    } else {
      assert PointersOf(h, p, op, e)[0] == p;
      assert ps[lo + 0] == p;
    }
  }

  /** The operands are separate trees within the nodes f. */
  ghost predicate Opened(h: Cells, f: set<nat>, t: Spine, ps: seq<nat>, es: seq<Expr>) {
    && Tidy(t) && (forall n :: n in Nodes(t) ==> n in f)
    && Operating(h, t, ps, es) && forall k :: 0 <= k < |ps| ==> SlotWithin(h, f, ps, es, k)
  }

  ghost predicate SlotWithin(h: Cells, f: set<nat>, ps: seq<nat>, es: seq<Expr>, k: nat)
    requires k < |ps| == |es|
  {
    forall n :: n in Feet(h, ps[k], es[k]) ==> n in f
  }

  lemma OpenedBoth(h: Cells, n: nat, f1: set<nat>, t1: Spine, ps1: seq<nat>, es1: seq<Expr>, f2: set<nat>, t2: Spine,
                   ps2: seq<nat>, es2: seq<Expr>,
                   f: set<nat>, t: Spine, ps: seq<nat>, es: seq<Expr>)
    requires Opened(h, f1, t1, ps1, es1) && Opened(h, f2, t2, ps2, es2) && f1 !! f2 && n !in f1 && n !in f2
    requires f == {n} + f1 + f2 && t == Inner(n, t1, t2) && ps == ps1 + ps2 && es == es1 + es2
    ensures Opened(h, f, t, ps, es)
  {
    var c := |ps1|;
    forall k | 0 <= k < |ps|
      ensures OwnSlot(h, t, ps, es, k) && SlotWithin(h, f, ps, es, k)
      ensures k < c ==> SlotWithin(h, f1, ps, es, k)
      ensures k >= c ==> SlotWithin(h, f2, ps, es, k)
    {
      if k < c {
        assert OwnSlot(h, t1, ps1, es1, k) && SlotWithin(h, f1, ps1, es1, k);
      } else {
        assert OwnSlot(h, t2, ps2, es2, k - c) && SlotWithin(h, f2, ps2, es2, k - c);
      }
    }
    forall k, j | 0 <= k < |ps| && 0 <= j < |ps| && k != j ensures Apart(h, ps, es, k, j) {
      if k < c && j < c {
        assert Apart(h, ps1, es1, k, j);
      } else if k >= c && j >= c {
        assert Apart(h, ps2, es2, k - c, j - c);
      } else if k < c {
        assert SlotWithin(h, f1, ps, es, k) && SlotWithin(h, f2, ps, es, j);
      } else {
        assert SlotWithin(h, f2, ps, es, k) && SlotWithin(h, f1, ps, es, j);
      }
    }
  }

  lemma LeafOpened(h: Cells, p: nat, e: Expr, lo: nat)
    requires Owns(h, p, e)
    ensures Opened(h, Feet(h, p, e), Leaf(lo), [p], [e])
  {
    assert OwnSlot(h, Leaf(lo), [p], [e], 0) && SlotWithin(h, Feet(h, p, e), [p], [e], 0);
  }

  /** The parts of a tree at p that branches at level op. */
  lemma BranchNodes(h: Cells, p: nat, op: Op, e: Expr)
    requires Owns(h, p, e) && IsOp(e, op)
    ensures var l, r := h[p].left, h[p].right;
            && Owns(h, l, e.l) && Owns(h, r, e.r) && Feet(h, l, e.l) !! Feet(h, r, e.r)
            && p !in Feet(h, l, e.l) && p !in Feet(h, r, e.r)
            && Feet(h, p, e) == {p} + Feet(h, l, e.l) + Feet(h, r, e.r)
  {
  }

  lemma BranchParts(h: Cells, p: nat, op: Op, e: Expr, lo: nat, mid: nat, l: nat, r: nat)
    requires p < |h| && h[p] == OpCell(op, l, r) && IsOp(e, op) && mid == lo + |Operands(op, e.l)|
    ensures SpineOf(h, p, op, e, lo) == Inner(p, SpineOf(h, l, op, e.l, lo), SpineOf(h, r, op, e.r, mid))
    ensures PointersOf(h, p, op, e) == PointersOf(h, l, op, e.l) + PointersOf(h, r, op, e.r)
    ensures Operands(op, e) == Operands(op, e.l) + Operands(op, e.r)
  {
  }

  /** The level op of the tree e at p, opened. */
  ghost predicate IsOpened(h: Cells, p: nat, op: Op, e: Expr, lo: nat) {
    Opened(h, Feet(h, p, e), SpineOf(h, p, op, e, lo), PointersOf(h, p, op, e), Operands(op, e))
  }

  lemma NodeOpened(h: Cells, p: nat, op: Op, e: Expr, lo: nat, mid: nat)
    requires Owns(h, p, e) && IsOp(e, op) && mid == lo + |Operands(op, e.l)|
    requires IsOpened(h, h[p].left, op, e.l, lo) && IsOpened(h, h[p].right, op, e.r, mid)
    ensures IsOpened(h, p, op, e, lo)
  {
    var l, r := h[p].left, h[p].right;
    BranchNodes(h, p, op, e);
    BranchParts(h, p, op, e, lo, mid, l, r);
    OpenedBoth(h, p, Feet(h, l, e.l), SpineOf(h, l, op, e.l, lo), PointersOf(h, l, op, e.l), Operands(op, e.l),
               Feet(h, r, e.r), SpineOf(h, r, op, e.r, mid), PointersOf(h, r, op, e.r), Operands(op, e.r),
               Feet(h, p, e), SpineOf(h, p, op, e, lo), PointersOf(h, p, op, e), Operands(op, e));
  }

  lemma {:induction false} LevelIsOpened(h: Cells, p: nat, op: Op, e: Expr, lo: nat)
    requires Owns(h, p, e)
    ensures IsOpened(h, p, op, e, lo)
    decreases e
  {
    if IsOp(e, op) {
      var mid := lo + |Operands(op, e.l)|;
      LevelIsOpened(h, h[p].left, op, e.l, lo);
      LevelIsOpened(h, h[p].right, op, e.r, mid);
      NodeOpened(h, p, op, e, lo, mid);
    } else {
      LeafOpened(h, p, e, lo);
    }
  }

  /** A pass begins. */
  lemma PassBegins(h: Cells, p: nat, e: Expr)
    requires Owns(h, p, e) && e.Bin?
    ensures Passing(h, Feet(h, p, e), h, e.op, p,
                    SpineOf(h, p, e.op, e, 0), PointersOf(h, p, e.op, e), Operands(e.op, e))
  {
    var ps := PointersOf(h, p, e.op, e);
    LevelOpened(h, e.op, Top(p), p, e, 0, ps);
    LevelIsOpened(h, p, e.op, e, 0);
    OperandsAreOperands(e.op, e);
    forall k | 0 <= k < |ps| ensures Within(h, Feet(h, p, e), Feet(h, ps[k], Operands(e.op, e)[k])) {
      assert SlotWithin(h, Feet(h, p, e), ps, Operands(e.op, e), k);
    }
  }

  /** t branches as e does at level op. */
  predicate Matches(t: Spine, op: Op, e: Expr) {
    if IsOp(e, op) then t.Inner? && Matches(t.l, op, e.l) && Matches(t.r, op, e.r) else t.Leaf?
  }

  lemma {:induction false} SpineMatches(h: Cells, p: nat, op: Op, e: Expr, lo: nat)
    ensures Matches(SpineOf(h, p, op, e, lo), op, e)
    decreases e
  {
    if IsOp(e, op) {
      var (l, r) := if p < |h| && h[p].OpCell? then (h[p].left, h[p].right) else (0, 0);
      SpineMatches(h, l, op, e.l, lo);
      SpineMatches(h, r, op, e.r, lo + |Operands(op, e.l)|);
    }
  }

  lemma {:induction false} MatchingWidth(t: Spine, op: Op, e: Expr)
    requires Matches(t, op, e)
    ensures Width(t) == |Operands(op, e)|
  {
    if IsOp(e, op) {
      MatchingWidth(t.l, op, e.l);
      MatchingWidth(t.r, op, e.r);
    }
  }

  /** x is a node of one of the operands from lo to hi. */
  ghost predicate InSome(h: Cells, ps: seq<nat>, es: seq<Expr>, lo: nat, hi: nat, x: nat)
    requires hi <= |ps| == |es|
  {
    exists k :: lo <= k < hi && InSlot(h, ps, es, k, x)
  }

  ghost predicate InSlot(h: Cells, ps: seq<nat>, es: seq<Expr>, k: nat, x: nat)
    requires k < |ps| == |es|
  {
    x in Feet(h, ps[k], es[k])
  }

  /** The nodes f are those of the level t and of its operands. */
  ghost predicate Spans(h: Cells, f: set<nat>, t: Spine, ps: seq<nat>, es: seq<Expr>, lo: nat, hi: nat)
    requires hi <= |ps| == |es|
  {
    forall x :: x in f ==> x in Nodes(t) || InSome(h, ps, es, lo, hi, x)
  }

  /** Neighbouring parts of a level share no nodes. */
  lemma SpansApart(h: Cells, t0: Spine, ps: seq<nat>, es: seq<Expr>, lo: nat, mid: nat, hi: nat, n: nat,
                   f1: set<nat>, t1: Spine, f2: set<nat>, t2: Spine)
    requires Operating(h, t0, ps, es) && lo <= mid <= hi <= |ps|
    requires Spans(h, f1, t1, ps, es, lo, mid) && Spans(h, f2, t2, ps, es, mid, hi)
    requires Tidy(Inner(n, t1, t2)) && forall x :: x in Nodes(Inner(n, t1, t2)) ==> x in Nodes(t0)
    ensures f1 !! f2 && n !in f1 && n !in f2
    ensures Spans(h, {n} + f1 + f2, Inner(n, t1, t2), ps, es, lo, hi)
  {
    forall k, x | lo <= k < hi && InSlot(h, ps, es, k, x) ensures x !in Nodes(t0) {
      assert OwnSlot(h, t0, ps, es, k);
    }
    forall k, j, x | lo <= k < mid && mid <= j < hi && InSlot(h, ps, es, k, x) ensures !InSlot(h, ps, es, j, x) {
      assert Apart(h, ps, es, k, j);
    }
    assert n in Nodes(Inner(n, t1, t2));
    forall x | x in {n} + f1 + f2 ensures x in Nodes(Inner(n, t1, t2)) || InSome(h, ps, es, lo, hi, x) {
      if x in f1 && InSome(h, ps, es, lo, mid, x) {
        var k :| lo <= k < mid && InSlot(h, ps, es, k, x);
        assert InSome(h, ps, es, lo, hi, x);
      } else if x in f2 && InSome(h, ps, es, mid, hi, x) {
        var k :| mid <= k < hi && InSlot(h, ps, es, k, x);
        assert InSome(h, ps, es, lo, hi, x);
      }
    }
  }

  /** The level t at place w, with its operands, is the tree e with the operands own. */
  ghost predicate IsClosed(h: Cells, op: Op, p: nat, t: Spine, ps: seq<nat>, es: seq<Expr>, lo: nat, hi: nat, x: Expr)
    requires hi <= |ps| == |es|
  {
    Owns(h, p, x) && Spans(h, Feet(h, p, x), t, ps, es, lo, hi)
  }

  lemma LeafClosed(h: Cells, op: Op, p: nat, t0: Spine, ps: seq<nat>, es: seq<Expr>, k: nat)
    requires Operating(h, t0, ps, es) && k < |ps| && p == ps[k]
    ensures IsClosed(h, op, p, Leaf(k), ps, es, k, k + 1, es[k])
  {
    assert OwnSlot(h, t0, ps, es, k);
    forall x | x in Feet(h, p, es[k]) ensures InSome(h, ps, es, k, k + 1, x) {
      assert InSlot(h, ps, es, k, x);
    }
  }

  lemma NodeClosed(h: Cells, op: Op, p: nat, t0: Spine, t: Spine, ps: seq<nat>, es: seq<Expr>, lo: nat, mid: nat,
                   hi: nat, x: Expr, y: Expr)
    requires Operating(h, t0, ps, es) && lo <= mid <= hi <= |ps| && t.Inner? && Tidy(t) && t.n == p
    requires (forall n :: n in Nodes(t) ==> n in Nodes(t0)) && p < |h| && h[p].OpCell? && h[p].op == op
    requires IsClosed(h, op, h[p].left, t.l, ps, es, lo, mid, x) && IsClosed(h, op, h[p].right, t.r, ps, es, mid, hi, y)
    ensures IsClosed(h, op, p, t, ps, es, lo, hi, Bin(op, x, y))
  {
    SpansApart(h, t0, ps, es, lo, mid, hi, p, Feet(h, h[p].left, x), t.l, Feet(h, h[p].right, y), t.r);
  }

  lemma {:induction false} LevelIsClosed(h: Cells, op: Op, w: Place, p: nat, t0: Spine, t: Spine, ps: seq<nat>,
                                         es: seq<Expr>,
                                         lo: nat, hi: nat, e: Expr, own: seq<Expr>)
    requires Level(h, op, w, t, ps) && p == Deref(h, w) && From(t, lo)
    requires hi == lo + Width(t) && Matches(t, op, e) && Tidy(t)
    requires Operating(h, t0, ps, es) && forall n :: n in Nodes(t) ==> n in Nodes(t0)
    requires |own| == |Operands(op, e)| == Width(t) && PartAt(es, lo, own)
    ensures IsClosed(h, op, p, t, ps, es, lo, hi, Rebuild(op, e, own))
    decreases e
  {
    if IsOp(e, op) {
      var n := |Operands(op, e.l)|;
      var mid := lo + n;
      MatchingWidth(t.l, op, e.l);
      MatchingWidth(t.r, op, e.r);
      assert own == own[..n] + own[n..];
      PartSplit(es, lo, own[..n], own[n..]);
      LevelIsClosed(h, op, LeftOf(p), h[p].left, t0, t.l, ps, es, lo, mid, e.l, own[..n]);
      LevelIsClosed(h, op, RightOf(p), h[p].right, t0, t.r, ps, es, mid, hi, e.r, own[n..]);
      NodeClosed(h, op, p, t0, t, ps, es, lo, mid, hi, Rebuild(op, e.l, own[..n]), Rebuild(op, e.r, own[n..]));
    } else {
      LeafClosed(h, op, p, t0, ps, es, lo);
      assert es[lo + 0] == own[0];
    }
  }

  /** A pass ends: the tree at p is e with the operands that are left. */
  lemma PassEnds(a: Cells, h: Cells, p: nat, e: Expr, ps: seq<nat>, es: seq<Expr>)
    requires Owns(a, p, e) && e.Bin? && Passing(a, Feet(a, p, e), h, e.op, p, SpineOf(a, p, e.op, e, 0), ps, es)
    ensures |es| == |Operands(e.op, e)| && Became(a, p, e, h, p, Rebuild(e.op, e, es))
  {
    var t := SpineOf(a, p, e.op, e, 0);
    SpineMatches(a, p, e.op, e, 0);
    LevelIsClosed(h, e.op, Top(p), p, t, t, ps, es, 0, |es|, e, es);
    var r := Rebuild(e.op, e, es);
    forall x | x in Feet(h, p, r) ensures x in Feet(a, p, e) || x >= |a| {
      if x !in Nodes(t) {
        var k :| 0 <= k < |es| && InSlot(h, ps, es, k, x);
        assert Within(a, Feet(a, p, e), Feet(h, ps[k], es[k]));
      }
    }
  }

  // ------------------------------------------------------- the order of the pairs

  function Then(p: Pass, q: Pass): Pass {
    Pass(q.slots, p.count + q.count)
  }

  /** Rows can be done in two parts. */
  lemma {:induction false} RowsSplit(op: Op, lo1: nat, mid: nat, hi1: nat, lo2: nat, hi2: nat, slots: seq<Expr>)
    requires lo1 <= mid <= hi1 <= |slots| && lo2 <= hi2 <= |slots| && AllOperands(op, slots)
    ensures var p := Rows(op, lo1, mid, lo2, hi2, slots);
            Rows(op, lo1, hi1, lo2, hi2, slots) == Then(p, Rows(op, mid, hi1, lo2, hi2, p.slots))
    decreases mid - lo1
  {
    if lo1 < mid {
      RowsSplit(op, lo1 + 1, mid, hi1, lo2, hi2, Row(op, lo1, lo2, hi2, slots).slots);
    }
  }

  /** So can the pairs of one row. */
  lemma {:induction false} RowSplit(op: Op, i: nat, lo: nat, mid: nat, hi: nat, slots: seq<Expr>)
    requires i < |slots| && lo <= mid <= hi <= |slots| && AllOperands(op, slots)
    ensures var p := Row(op, i, lo, mid, slots);
            Row(op, i, lo, hi, slots) == Then(p, Row(op, i, mid, hi, p.slots))
    decreases mid - lo
  {
    if lo < mid {
      RowSplit(op, i, lo + 1, mid, hi, Meet(op, i, lo, slots).slots);
    }
  }

  lemma OneRow(op: Op, i: nat, lo: nat, hi: nat, slots: seq<Expr>)
    requires i < |slots| && lo <= hi <= |slots| && AllOperands(op, slots)
    ensures Rows(op, i, i + 1, lo, hi, slots) == Row(op, i, lo, hi, slots)
  {
    var p := Row(op, i, lo, hi, slots);
    assert Rows(op, i + 1, i + 1, lo, hi, p.slots) == Pass(p.slots, 0);
  }

  /** The pairs of one row, as rows. */
  lemma OneRowSplit(op: Op, i: nat, next: nat, lo: nat, mid: nat, hi: nat, slots: seq<Expr>)
    requires next == i + 1 <= |slots| && lo <= mid <= hi <= |slots| && AllOperands(op, slots)
    ensures var p := Rows(op, i, next, lo, mid, slots);
            Rows(op, i, next, lo, hi, slots) == Then(p, Rows(op, i, next, mid, hi, p.slots))
  {
    OneRow(op, i, lo, hi, slots);
    OneRow(op, i, lo, mid, slots);
    OneRow(op, i, mid, hi, Row(op, i, lo, mid, slots).slots);
    RowSplit(op, i, lo, mid, hi, slots);
  }

  lemma OnePair(op: Op, i: nat, i': nat, j: nat, j': nat, slots: seq<Expr>)
    requires i' == i + 1 <= |slots| && j' == j + 1 <= |slots| && AllOperands(op, slots)
    ensures Rows(op, i, i', j, j', slots) == Meet(op, i, j, slots)
  {
    OneRow(op, i, j, j', slots);
    var p := Meet(op, i, j, slots);
    assert Row(op, i, j', j', p.slots) == Pass(p.slots, 0);
  }

  // ---------------------------------------------------------- joining two operands

  function OfDifferent(op: Op, e1: Expr, e2: Expr): (r: Option<Expr>)
    ensures r.Some? ==> r.value.Atom? || r.value.Compare?
  {
    if op == OrOp then OrOfDifferent(e1, e2) else AndOfDifferent(e1, e2)
  }

  lemma OnlyLiteralsJoin(op: Op, e1: Expr, e2: Expr)
    ensures JoinOp(op, e1, e2) == if ElimEq.ExprEq(e1, e2) then Some(e1)
                                  else if Literal(e1) && Literal(e2) then OfDifferent(op, e1, e2) else None
  {
  }

  /** What expr_join_or and expr_join_and look into: the fields of a node and of the operand of a negation. */
  method Inspect(x: ExprHeap, p: nat, ghost e: Expr) returns (r: Option<Expr>)
    requires Owns(x.h, p, e)
    ensures r == if Literal(e) then Some(e) else None
  {
    var c := x.h[p];
    r := None;
    if c.NotCell? {
      var d := x.h[c.arg];
      if d.SymCell? {
        r := Some(Neg(Atom(d.sym)));
      } else if d.CompareCell? {
        r := Some(Neg(Compare(d.rel, d.lhs, d.rhs)));
      }
    } else if c.SymCell? {
      r := Some(Atom(c.sym));
    } else if c.CompareCell? {
      r := Some(Compare(c.rel, c.lhs, c.rhs));
    }
  }

  /** expr_join_or and expr_join_and: a new tree, or NULL. */
  method JoinNodes(x: ExprHeap, op: Op, p1: nat, p2: nat, ghost e1: Expr, ghost e2: Expr) returns (q: Option<nat>)
    requires Owns(x.h, p1, e1) && Owns(x.h, p2, e2)
    modifies x
    ensures x.transCount == old(x.transCount) && OnlyOn(old(x.h), x.h, {})
    ensures q.Some? <==> JoinOp(op, e1, e2).Some?
    ensures q.Some? ==> Fresh(old(x.h), x.h, q.value, JoinOp(op, e1, e2).value)
  {
    OnlyLiteralsJoin(op, e1, e2);
    ghost var a := x.h;
    var equal := ExprHeapEq.ExprEq(x, p1, p2, e1, e2);
    Outside(a, x.h, p1, e1, {});
    Outside(a, x.h, p2, e2, {});
    if equal {
      var n := Copy(x, p1, e1);
      return Some(n);
    }
    var s1 := Inspect(x, p1, e1);
    var s2 := Inspect(x, p2, e2);
    if s1.None? || s2.None? {
      return None;
    }
    var t := OfDifferent(op, s1.value, s2.value);
    if t.None? {
      return None;
    }
    var n := x.Alloc(if t.value.Atom? then SymCell(t.value.sym)
                     else CompareCell(t.value.rel, t.value.lhs, t.value.rhs));
    q := Some(n);
  }

  // ------------------------------------------------------------------- the walks

  /** What stays fixed during a pass: the heap before it, the nodes of the tree, and the level. */
  datatype Frame = Frame(a: Cells, m: set<nat>, op: Op, p: nat, t: Spine)

  ghost predicate InPass(h: Cells, f: Frame, ps: seq<nat>, es: seq<Expr>) {
    Passing(f.a, f.m, h, f.op, f.p, f.t, ps, es)
  }

  /** A walk is at w, from where the part t1 of the level hangs, with the operands from lo to hi. */
  ghost predicate WalkAt(f: Frame, w: Place, t1: Spine, lo: nat, hi: nat) {
    Sub(f.t, Top(f.p), t1, w) && From(t1, lo) && hi == lo + Width(t1) <= Width(f.t)
  }

  lemma {:induction false} SubWithin(t: Spine, w: Place, lo: nat, t1: Spine, w1: Place, lo1: nat)
    requires Sub(t, w, t1, w1) && From(t, lo) && From(t1, lo1)
    ensures lo <= lo1 && lo1 + Width(t1) <= lo + Width(t)
    decreases t
  {
    if t == t1 && w == w1 {
      SameStart(t, lo, lo1);
    } else if Sub(t.l, LeftOf(t.n), t1, w1) {
      SubWithin(t.l, LeftOf(t.n), lo, t1, w1, lo1);
    } else {
      SubWithin(t.r, RightOf(t.n), lo + Width(t.l), t1, w1, lo1);
    }
  }

  lemma {:induction false} SameStart(t: Spine, lo: nat, lo1: nat)
    requires From(t, lo) && From(t, lo1)
    ensures lo == lo1
  {
    if t.Inner? { SameStart(t.l, lo, lo1); }
  }

  /** What a walk finds at its place: an inner node of the level, or an operand. */
  lemma Found(h: Cells, f: Frame, ps: seq<nat>, es: seq<Expr>, w: Place, t1: Spine, lo: nat, hi: nat)
    requires InPass(h, f, ps, es) && WalkAt(f, w, t1, lo, hi)
    ensures HasPlace(h, w) && Deref(h, w) < |h| && hi <= |ps| == |es|
    ensures t1.Inner? <==> h[Deref(h, w)].OpCell? && h[Deref(h, w)].op == f.op
    ensures t1.Inner? ==> Deref(h, w) == t1.n
    ensures t1.Leaf? ==> lo < |ps| && hi == lo + 1 && t1 == Leaf(lo) && Deref(h, w) == ps[lo] && Owns(h, ps[lo], es[lo])
  {
    SubLevel(h, f.op, Top(f.p), f.t, ps, t1, w);
    if t1.Leaf? { assert OwnSlot(h, f.t, ps, es, lo); }
  }

  /** A walk goes down. */
  lemma Descend(f: Frame, w: Place, t1: Spine, lo: nat, mid: nat, hi: nat)
    requires WalkAt(f, w, t1, lo, hi) && t1.Inner? && mid == lo + Width(t1.l)
    ensures WalkAt(f, LeftOf(t1.n), t1.l, lo, mid) && WalkAt(f, RightOf(t1.n), t1.r, mid, hi)
  {
    assert Sub(t1, w, t1.l, LeftOf(t1.n)) && Sub(t1, w, t1.r, RightOf(t1.n));
    SubTrans(f.t, Top(f.p), t1, w, t1.l, LeftOf(t1.n));
    SubTrans(f.t, Top(f.p), t1, w, t1.r, RightOf(t1.n));
  }

  /** expr_eliminate_dups1(op, ep1, ep2), the walks being at w1 and w2. */
  method Dups1(x: ExprHeap, w1: Place, w2: Place, op: Op, ghost f: Frame, ghost t1: Spine, ghost t2: Spine,
               ghost lo1: nat, ghost hi1: nat, ghost lo2: nat, ghost hi2: nat, ghost ps: seq<nat>, ghost es: seq<Expr>)
    returns (ghost ps': seq<nat>, ghost es': seq<Expr>)
    requires op == f.op && InPass(x.h, f, ps, es) && WalkAt(f, w1, t1, lo1, hi1) && WalkAt(f, w2, t2, lo2, hi2)
    modifies x
    ensures InPass(x.h, f, ps', es') && hi1 <= |es| && hi2 <= |es| && AllOperands(op, es)
    ensures var r := Rows(op, lo1, hi1, lo2, hi2, es); es' == r.slots && x.transCount == old(x.transCount) + r.count
    decreases Total(es), 3, t1, t2
  {
    Found(x.h, f, ps, es, w1, t1, lo1, hi1);
    Found(x.h, f, ps, es, w2, t2, lo2, hi2);
    var n1, n2 := Deref(x.h, w1), Deref(x.h, w2);
    if x.h[n1].OpCell? && x.h[n1].op == op {
      ghost var mid := lo1 + Width(t1.l);
      Descend(f, w1, t1, lo1, mid, hi1);
      RowsSplit(op, lo1, mid, hi1, lo2, hi2, es);
      ps', es' := Dups1(x, LeftOf(n1), w2, op, f, t1.l, t2, lo1, mid, lo2, hi2, ps, es);
      ps', es' := Dups1(x, RightOf(n1), w2, op, f, t1.r, t2, mid, hi1, lo2, hi2, ps', es');
    } else if x.h[n2].OpCell? && x.h[n2].op == op {
      ghost var mid := lo2 + Width(t2.l);
      Descend(f, w2, t2, lo2, mid, hi2);
      OneRowSplit(op, lo1, hi1, lo2, mid, hi2, es);
      ps', es' := Dups1(x, w1, LeftOf(n2), op, f, t1, t2.l, lo1, hi1, lo2, mid, ps, es);
      ps', es' := Dups1(x, w1, RightOf(n2), op, f, t1, t2.r, lo1, hi1, mid, hi2, ps', es');
    } else {
      OnePair(op, lo1, hi1, lo2, hi2, es);
      ps', es' := MeetLeaves(x, w1, w2, op, f, lo1, lo2, ps, es);
    }
  }

  /** The part of expr_eliminate_dups1 for two leaves. */
  method MeetLeaves(x: ExprHeap, w1: Place, w2: Place, op: Op, ghost f: Frame, ghost i: nat, ghost j: nat,
                    ghost ps: seq<nat>, ghost es: seq<Expr>)
    returns (ghost ps': seq<nat>, ghost es': seq<Expr>)
    requires op == f.op && InPass(x.h, f, ps, es)
    requires WalkAt(f, w1, Leaf(i), i, i + 1) && WalkAt(f, w2, Leaf(j), j, j + 1)
    modifies x
    ensures InPass(x.h, f, ps', es') && i < |es| && j < |es| && AllOperands(op, es)
    ensures var r := Meet(op, i, j, es); es' == r.slots && x.transCount == old(x.transCount) + r.count
    decreases Total(es), 2
  {
    ps', es' := ps, es;
    Found(x.h, f, ps, es, w1, Leaf(i), i, i + 1);
    Found(x.h, f, ps, es, w2, Leaf(j), j, j + 1);
    var n1, n2 := Deref(x.h, w1), Deref(x.h, w2);
    SamePointer(x.h, f, ps, es, i, j);
    if n1 == n2 {
      return;
    }
    TotalUpdate(es, i, es[i]);
    es' := SimplifyOperand(x, n1, f, i, ps, es);
    ps', es' := JoinPlaces(x, w1, w2, op, f, i, j, ps, es');
  }

  /** Two places hold the same pointer exactly if they are the same place. */
  lemma SamePointer(h: Cells, f: Frame, ps: seq<nat>, es: seq<Expr>, i: nat, j: nat)
    requires InPass(h, f, ps, es) && i < |ps| && j < |ps|
    ensures ps[i] == ps[j] <==> i == j
  {
    if i != j {
      assert OwnSlot(h, f.t, ps, es, i) && OwnSlot(h, f.t, ps, es, j) && Apart(h, ps, es, i, j);
      FeetAllocated(h, ps[i], es[i]);
      FeetAllocated(h, ps[j], es[j]);
    }
  }

  /** An operand that is a level of its own is simplified first. */
  method SimplifyOperand(x: ExprHeap, n: nat, ghost f: Frame, ghost i: nat, ghost ps: seq<nat>, ghost es: seq<Expr>)
    returns (ghost es': seq<Expr>)
    requires InPass(x.h, f, ps, es) && i < |ps| && n == ps[i] && |es| == |ps| && Size(es[i]) <= Total(es)
    modifies x
    ensures es' == es[i := RunPass(es[i]).0] && InPass(x.h, f, ps, es')
    ensures x.transCount == old(x.transCount) + RunPass(es[i]).1
    decreases Total(es), 1
  {
    ghost var h := x.h;
    assert OwnSlot(h, f.t, ps, es, i);
    es' := es[i := RunPass(es[i]).0];
    if x.h[n].OpCell? {
      DupsWithin(x, n, es[i]);
      OperandRewritten(f.a, f.m, h, x.h, f.op, f.p, f.t, ps, es, i, RunPass(es[i]).0);
    } else {
      assert es' == es;
    }
  }

  /** If the operands at two places can be joined, the first becomes a constant and the second the joined one. */
  method JoinPlaces(x: ExprHeap, w1: Place, w2: Place, op: Op, ghost f: Frame, ghost i: nat, ghost j: nat,
                    ghost ps: seq<nat>, ghost es: seq<Expr>)
    returns (ghost ps': seq<nat>, ghost es': seq<Expr>)
    requires op == f.op && InPass(x.h, f, ps, es) && WalkAt(f, w1, Leaf(i), i, i + 1)
    requires WalkAt(f, w2, Leaf(j), j, j + 1) && i != j
    modifies x
    ensures InPass(x.h, f, ps', es') && i < |es| && j < |es|
    ensures match JoinOp(op, es[i], es[j])
            case None => es' == es && x.transCount == old(x.transCount)
            case Some(t) => es' == es[i := Atom(UnitSymbol(op))][j := t] && x.transCount == old(x.transCount) + 1
  {
    ps', es' := ps, es;
    ghost var h := x.h;
    Found(h, f, ps, es, w1, Leaf(i), i, i + 1);
    Found(h, f, ps, es, w2, Leaf(j), j, j + 1);
    var tmp := JoinNodes(x, op, Deref(x.h, w1), Deref(x.h, w2), es[i], es[j]);
    HeapGrown(f.a, f.m, h, x.h, op, f.p, f.t, ps, es);
    if tmp.Some? {
      ghost var h2, t := x.h, JoinOp(op, es[i], es[j]).value;
      JoinShape(op, es[i], es[j]);
      PairWritten(f.a, f.m, h, h2, op, f.p, f.t, ps, es, i, w1, UnitSymbol(op), j, w2, tmp.value, t);
      var c := x.Alloc(SymCell(UnitSymbol(op)));
      x.h := Write(x.h, w1, c);
      x.h := Write(x.h, w2, tmp.value);
      x.transCount := x.transCount + 1;
      ps', es' := ps[i := c][j := tmp.value], es[i := Atom(UnitSymbol(op))][j := t];
    }
  }

  /** expr_eliminate_dups1(e->type, &e, &e). */
  method DupsWithin(x: ExprHeap, p: nat, ghost e: Expr)
    requires Owns(x.h, p, e) && e.Bin?
    modifies x
    ensures Became(old(x.h), p, e, x.h, p, RunPass(e).0) && x.transCount == old(x.transCount) + RunPass(e).1
    decreases Size(e), 0
  {
    ghost var a := x.h;
    ghost var o, t := Operands(e.op, e), SpineOf(a, p, e.op, e, 0);
    ghost var ps, f := PointersOf(a, p, e.op, e), Frame(a, Feet(a, p, e), e.op, p, t);
    PassBegins(a, p, e);
    RebuildOperands(e.op, e);
    RebuildSize(e.op, e, o);
    ghost var ps', es' := Dups1(x, Top(p), Top(p), x.h[p].op, f, t, t, 0, |o|, 0, |o|, ps, o);
    PassEnds(a, x.h, p, e, ps', es');
  }

  /** expr_eliminate_dups. */
  method EliminateDups(x: ExprHeap, p: nat, ghost e0: Expr)
    requires Owns(x.h, p, e0)
    modifies x
    ensures Became(old(x.h), p, e0, x.h, p, Dups.EliminateDups(e0)) && x.transCount == old(x.transCount)
  {
    var oldcount := x.transCount;
    ghost var a, e := x.h, e0;
    while true
      invariant Became(a, p, e0, x.h, p, e) && Dups.EliminateDups(e) == Dups.EliminateDups(e0)
      decreases Size(e)
    {
      x.transCount := 0;
      ghost var b := x.h;
      if x.h[p].OpCell? {
        DupsWithin(x, p, e);
      }
      Onward(a, p, e0, b, p, e, x.h, p, RunPass(e).0);
      ghost var before := e;
      e := RunPass(e).0;
      if x.transCount == 0 {
        break;
      }
      RunPassReducible(before);
      EliminateYnNormal(e);
      ghost var c := x.h;
      x.EliminateYn(p, e);
      Onward(a, p, e0, c, p, e, x.h, p, ElimEq.EliminateYn(e));
      e := ElimEq.EliminateYn(e);
    }
    x.transCount := oldcount;
  }
}
