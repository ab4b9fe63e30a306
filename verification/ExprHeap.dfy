/**
  The rewritings of expr.c as they run: on nodes that are overwritten in place. A node is an index into the
  cells of a heap; a freed node is one that nothing refers to any more. Each method is proved to do to the
  tree at a node what the function of the same name does to the expression.
 */
module ExprHeaps {
  import opened Tristates
  import opened Exprs
  import opened ElimEq
  import opened Transforms

  /** struct expr. */
  datatype Cell =
    | SymCell(sym: Symbol)
    | CompareCell(rel: Relation, lhs: Symbol, rhs: Symbol)
    | NotCell(arg: nat)
    | OpCell(op: Op, left: nat, right: nat)

  type Cells = seq<Cell>

  /** The nodes of the tree e at p. */
  ghost function Feet(h: Cells, p: nat, e: Expr): set<nat>
    decreases e
  {
    match e
    case Neg(a) => if p < |h| && h[p].NotCell? then {p} + Feet(h, h[p].arg, a) else {p}
    case Bin(_, a, b) => if p < |h| && h[p].OpCell? then {p} + Feet(h, h[p].left, a) + Feet(h, h[p].right, b) else {p}
    case _ => {p}
  }

  /** The expression e is the tree at p, and no two nodes of it coincide. */
  ghost predicate Owns(h: Cells, p: nat, e: Expr)
    decreases e
  {
    && p < |h|
    && match e
       case Atom(s) => h[p] == SymCell(s)
       case Compare(rel, a, b) => h[p] == CompareCell(rel, a, b)
       case Neg(a) => h[p].NotCell? && Owns(h, h[p].arg, a) && p !in Feet(h, h[p].arg, a)
       case Bin(op, a, b) =>
         && h[p].OpCell? && h[p].op == op && Owns(h, h[p].left, a) && Owns(h, h[p].right, b)
         && p !in Feet(h, h[p].left, a) && p !in Feet(h, h[p].right, b)
         && Feet(h, h[p].left, a) !! Feet(h, h[p].right, b)
  }

  ghost predicate SameOn(h: Cells, h': Cells, m: set<nat>) {
    |h| <= |h'| && forall k :: k in m && k < |h| ==> h'[k] == h[k]
  }

  /** Only nodes of m and new ones differ. */
  ghost predicate OnlyOn(h: Cells, h': Cells, m: set<nat>) {
    |h| <= |h'| && forall k :: 0 <= k < |h| && k !in m ==> h'[k] == h[k]
  }

  /** Nodes of m and nodes that are new since h. */
  ghost predicate Within(h: Cells, m: set<nat>, m': set<nat>) {
    forall k :: k in m' ==> k in m || k >= |h|
  }

  lemma {:induction false} FeetAllocated(h: Cells, p: nat, e: Expr)
    requires Owns(h, p, e)
    ensures forall k :: k in Feet(h, p, e) ==> k < |h|
    ensures p in Feet(h, p, e)
    decreases e
  {
    match e
    case Neg(a) => FeetAllocated(h, h[p].arg, a);
    case Bin(_, a, b) =>
      FeetAllocated(h, h[p].left, a);
      FeetAllocated(h, h[p].right, b);
    case _ =>
  }

  /** A tree stays as it is if its nodes do. */
  lemma {:induction false} Unharmed(h: Cells, h': Cells, p: nat, e: Expr)
    requires Owns(h, p, e) && SameOn(h, h', Feet(h, p, e))
    ensures Owns(h', p, e) && Feet(h', p, e) == Feet(h, p, e)
    decreases e
  {
    match e
    case Neg(a) => Unharmed(h, h', h[p].arg, a);
    case Bin(_, a, b) =>
      Unharmed(h, h', h[p].left, a);
      Unharmed(h, h', h[p].right, b);
    case _ =>
  }

  /** A tree outside m stays as it is if only m and new nodes differ. */
  lemma Outside(h: Cells, h': Cells, p: nat, e: Expr, m: set<nat>)
    requires Owns(h, p, e) && OnlyOn(h, h', m) && Feet(h, p, e) !! m
    ensures Owns(h', p, e) && Feet(h', p, e) == Feet(h, p, e)
  {
    FeetAllocated(h, p, e);
    Unharmed(h, h', p, e);
  }

  /** What every rewriting of the tree e at p in a into the tree r at q in b keeps to. */
  ghost predicate Became(a: Cells, p: nat, e: Expr, b: Cells, q: nat, r: Expr) {
    Owns(b, q, r) && OnlyOn(a, b, Feet(a, p, e)) && Within(a, Feet(a, p, e), Feet(b, q, r))
  }

  /** The left operand of p has been rewritten; the right one and p itself are as they were. */
  lemma LeftDone(a: Cells, p: nat, e: Expr, b: Cells, q: nat, l: Expr)
    requires Owns(a, p, e) && e.Bin? && Became(a, a[p].left, e.l, b, q, l)
    ensures Owns(b, a[p].right, e.r) && Feet(b, a[p].right, e.r) == Feet(a, a[p].right, e.r)
    ensures Feet(b, q, l) !! Feet(b, a[p].right, e.r) && p !in Feet(b, q, l) && p < |b| && b[p] == a[p]
  {
    FeetAllocated(a, p, e);
    Outside(a, b, a[p].right, e.r, Feet(a, a[p].left, e.l));
  }

  /**
    Both operands of p have been rewritten, to the trees at left and right; nothing of the tree at p is lost
    outside it.
   */
  ghost predicate Rewritten(a: Cells, p: nat, e: Expr, c: Cells, left: nat, l: Expr, right: nat, r: Expr) {
    && Owns(a, p, e) && p < |c| && OnlyOn(a, c, Feet(a, p, e))
    && Owns(c, left, l) && Owns(c, right, r) && Feet(c, left, l) !! Feet(c, right, r)
    && p !in Feet(c, left, l) && p !in Feet(c, right, r)
    && Within(a, Feet(a, p, e), Feet(c, left, l)) && Within(a, Feet(a, p, e), Feet(c, right, r))
  }

  lemma BothDone(a: Cells, p: nat, e: Expr, b: Cells, left: nat, l: Expr, c: Cells, right: nat, r: Expr)
    requires Owns(a, p, e) && e.Bin? && Became(a, a[p].left, e.l, b, left, l) && Became(b, a[p].right, e.r, c, right, r)
    ensures Rewritten(a, p, e, c, left, l, right, r) && c[p] == a[p]
  {
    LeftDone(a, p, e, b, left, l);
    FeetAllocated(b, left, l);
    Outside(b, c, left, l, Feet(b, a[p].right, e.r));
    FeetAllocated(a, p, e);
  }

  /** Then p joins them by op. */
  lemma Rejoined(a: Cells, p: nat, e: Expr, c: Cells, op: Op, left: nat, l: Expr, right: nat, r: Expr)
    requires Rewritten(a, p, e, c, left, l, right, r)
    ensures Became(a, p, e, c[p := OpCell(op, left, right)], p, Bin(op, l, r))
  {
    var d := c[p := OpCell(op, left, right)];
    FeetAllocated(a, p, e);
    Unharmed(c, d, left, l);
    Unharmed(c, d, right, r);
  }

  /** A copy of the root of a tree in another node is a root of that tree. */
  lemma RootCopied(c: Cells, p: nat, q: nat, r: Expr)
    requires p < |c| && Owns(c, q, r) && p !in Feet(c, q, r)
    ensures Owns(c[p := c[q]], p, r)
    ensures forall k :: k in Feet(c[p := c[q]], p, r) ==> k == p || k in Feet(c, q, r)
  {
    var d := c[p := c[q]];
    match r
    case Neg(x) => Unharmed(c, d, c[q].arg, x);
    case Bin(_, x, y) =>
      Unharmed(c, d, c[q].left, x);
      Unharmed(c, d, c[q].right, y);
    case _ =>
  }

  /** Then p is overwritten with the root of one of them, *e = *(e->left.expr). */
  lemma Overwritten(a: Cells, p: nat, e: Expr, c: Cells, q: nat, r: Expr)
    requires Owns(a, p, e) && p < |c| && OnlyOn(a, c, Feet(a, p, e))
    requires Owns(c, q, r) && p !in Feet(c, q, r) && Within(a, Feet(a, p, e), Feet(c, q, r))
    ensures Became(a, p, e, c[p := c[q]], p, r)
  {
    FeetAllocated(a, p, e);
    RootCopied(c, p, q, r);
  }

  /** Then p becomes a symbol. */
  lemma Replaced(a: Cells, p: nat, e: Expr, c: Cells, s: Symbol)
    requires Owns(a, p, e) && p < |c| && OnlyOn(a, c, Feet(a, p, e))
    ensures Became(a, p, e, c[p := SymCell(s)], p, Atom(s))
  {
    FeetAllocated(a, p, e);
  }

  /** The operand of the negation at p has been rewritten. */
  lemma ArgDone(a: Cells, p: nat, e: Expr, b: Cells, q: nat, x: Expr)
    requires Owns(a, p, e) && e.Neg? && Became(a, a[p].arg, e.arg, b, q, x)
    ensures Became(a, p, e, b[p := NotCell(q)], p, Neg(x))
  {
    FeetAllocated(a, p, e);
    FeetAllocated(b, q, x);
    Unharmed(b, b[p := NotCell(q)], q, x);
  }

  /** One rewriting after the other. */
  lemma Onward(a: Cells, p: nat, e: Expr, b: Cells, q: nat, x: Expr, c: Cells, r: nat, z: Expr)
    requires OnlyOn(a, b, Feet(a, p, e)) && Within(a, Feet(a, p, e), Feet(b, q, x)) && Became(b, q, x, c, r, z)
    ensures Became(a, p, e, c, r, z)
  {
  }

  /** expr_transform of a negation whose operand x has been transformed. */
  function Negated(x: Expr): Expr {
    match x
    case Neg(y) => Transforms.Transform(y)
    case Compare(rel, a, b) => Compare(Opposite(rel), a, b)
    case Bin(op, y, z) => Transforms.Transform(Bin(Dual(op), Neg(y), Neg(z)))
    case Atom(s) => NegateAtom(s)
  }

  lemma TransformNegation(x: Expr)
    ensures Transforms.Transform(Neg(x)) == Negated(Transforms.Transform(x))
  {
  }

  class ExprHeap {
    var h: Cells
    /** trans_count, which passes use to learn whether they have changed anything. */
    var transCount: nat

    constructor ()
      ensures h == []
    {
      h := [];
    }

    /** expr_trans_bool. */
    method TransBool(p: nat, ghost e: Expr)
      requires Owns(h, p, e)
      modifies this`h
      ensures Became(old(h), p, e, h, p, Transforms.TransBool(e))
      decreases e
    {
      ghost var a := h;
      FeetAllocated(a, p, e);
      if h[p].OpCell? {
        var op, left, right := h[p].op, h[p].left, h[p].right;
        ghost var l, r := Transforms.TransBool(e.l), Transforms.TransBool(e.r);
        TransBool(left, e.l);
        ghost var b := h;
        LeftDone(a, p, e, b, left, l);
        TransBool(right, e.r);
        BothDone(a, p, e, b, left, l, h, right, r);
        Rejoined(a, p, e, h, op, left, l, right, r);
        assert h[p := OpCell(op, left, right)] == h;
      } else if h[p].NotCell? {
        TransBool(h[p].arg, e.arg);
      } else if h[p].CompareCell? && h[p].rel == Ne && h[p].lhs.ty == Trivalued && h[p].rhs == NO {
        h := h[p := SymCell(h[p].lhs)];
      }
    }

    /** expr_eliminate_yn. */
    method EliminateYn(p: nat, ghost e: Expr)
      requires Owns(h, p, e)
      modifies this`h
      ensures Became(old(h), p, e, h, p, ElimEq.EliminateYn(e))
      decreases e
    {
      ghost var a := h;
      FeetAllocated(a, p, e);
      if !h[p].OpCell? {
        return;
      }
      var op, left, right := h[p].op, h[p].left, h[p].right;
      ghost var l, r := ElimEq.EliminateYn(e.l), ElimEq.EliminateYn(e.r);
      EliminateYn(left, e.l);
      ghost var b := h;
      LeftDone(a, p, e, b, left, l);
      EliminateYn(right, e.r);
      ghost var c := h;
      BothDone(a, p, e, b, left, l, c, right, r);
      JoinConstants(p, op, left, right, a, e, l, r);
    }

    /** The part of expr_eliminate_yn after the operands have been simplified. */
    method JoinConstants(p: nat, op: Op, left: nat, right: nat, ghost a: Cells, ghost e: Expr, ghost l: Expr,
                         ghost r: Expr)
      requires Rewritten(a, p, e, h, left, l, right, r) && h[p] == OpCell(op, left, right)
      modifies this`h
      ensures Became(a, p, e, h, p, ElimEq.JoinConstants(op, l, r))
    {
      ghost var c := h;
      var zero, one := UnitSymbol(Dual(op)), UnitSymbol(op);
      if h[left] == SymCell(zero) {
        h := h[p := SymCell(zero)];
        Replaced(a, p, e, c, zero);
      } else if h[left] == SymCell(one) {
        h := h[p := h[right]];
        Overwritten(a, p, e, c, right, r);
      } else if h[right] == SymCell(zero) {
        h := h[p := SymCell(zero)];
        Replaced(a, p, e, c, zero);
      } else if h[right] == SymCell(one) {
        h := h[p := h[left]];
        Overwritten(a, p, e, c, left, l);
      } else {
        Rejoined(a, p, e, c, op, left, l, right, r);
        assert c[p := OpCell(op, left, right)] == c;
      }
    }

    method Alloc(c: Cell) returns (q: nat)
      modifies this`h
      ensures q == |old(h)| && h == old(h) + [c]
    {
      q := |h|;
      h := h + [c];
    }

    /** expr_transform. */
    method Transform(p: nat, ghost e: Expr) returns (q: nat)
      requires Owns(h, p, e)
      modifies this`h
      ensures Became(old(h), p, e, h, q, Transforms.Transform(e))
      decreases Weight(e), 1
    {
      ghost var a := h;
      q := p;
      FeetAllocated(a, p, e);
      if h[p].OpCell? {
        var op, right := h[p].op, h[p].right;
        ghost var l, r := Transforms.Transform(e.l), Transforms.Transform(e.r);
        assert Weight(e) == 1 + Weight(e.l) + Weight(e.r);
        var left := Transform(h[p].left, e.l);
        ghost var b := h;
        LeftDone(a, p, e, b, left, l);
        right := Transform(right, e.r);
        BothDone(a, p, e, b, left, l, h, right, r);
        Rejoined(a, p, e, h, op, left, l, right, r);
        h := h[p := OpCell(op, left, right)];
      } else if h[p].NotCell? {
        ghost var x := Transforms.Transform(e.arg);
        assert Weight(e) == 2 * Weight(e.arg);
        var arg := Transform(h[p].arg, e.arg);
        ArgDone(a, p, e, h, arg, x);
        h := h[p := NotCell(arg)];
        ghost var b := h;
        q := PushNot(p, x);
        Onward(a, p, e, b, p, Neg(x), h, q, Negated(x));
        TransformNegation(e.arg);
      } else if h[p].CompareCell? {
        SimplifyCompareAt(p, e);
      }
    }

    /** A comparison of a bool symbol with y, m or n. */
    method SimplifyCompareAt(p: nat, ghost e: Expr)
      requires Owns(h, p, e) && e.Compare?
      modifies this`h
      ensures Became(old(h), p, e, h, p, SimplifyCompare(e.rel, e.lhs, e.rhs))
    {
      var rel, lhs, rhs := h[p].rel, h[p].lhs, h[p].rhs;
      if lhs.ty != Boolean || (rel != Eq && rel != Ne) {
        return;
      }
      if rhs == MOD {
        h := h[p := SymCell(if rel == Eq then NO else YES)];
      } else if (rhs == NO && rel == Eq) || (rhs == YES && rel == Ne) {
        var q := Alloc(SymCell(lhs));
        h := h[p := NotCell(q)];
      } else if rhs == NO || rhs == YES {
        h := h[p := SymCell(lhs)];
      }
    }

    /** The E_NOT case after the operand has been transformed. */
    method PushNot(p: nat, ghost x: Expr) returns (q: nat)
      requires Owns(h, p, Neg(x))
      modifies this`h
      ensures Became(old(h), p, Neg(x), h, q, Negated(x))
      decreases Weight(Neg(x)), 0
    {
      ghost var a := h;
      FeetAllocated(a, p, Neg(x));
      var tmp := h[p].arg;
      if h[tmp].NotCell? {
        assert Weight(Neg(x)) == 2 * Weight(x) == 4 * Weight(x.arg);
        q := Transform(h[tmp].arg, x.arg);
        Onward(a, p, Neg(x), a, a[tmp].arg, x.arg, h, q, Negated(x));
      } else if h[tmp].CompareCell? {
        h := h[tmp := h[tmp].(rel := Opposite(h[tmp].rel))];
        q := tmp;
      } else if h[tmp].OpCell? {
        PushWeight(x.op, x.l, x.r);
        ghost var y := Bin(Dual(x.op), Neg(x.l), Neg(x.r));
        DeMorgan(p, x);
        ghost var b := h;
        q := Transform(p, y);
        Onward(a, p, Neg(x), b, p, y, h, q, Negated(x));
      } else {
        q := NegateAtomAt(p, x);
      }
    }

    /** !(a && b) becomes !a or-ed with !b: the node of the operator turns into the first negation. */
    method DeMorgan(p: nat, ghost x: Expr)
      requires Owns(h, p, Neg(x)) && x.Bin?
      modifies this`h
      ensures Became(old(h), p, Neg(x), h, p, Bin(Dual(x.op), Neg(x.l), Neg(x.r)))
    {
      ghost var a := h;
      FeetAllocated(a, p, Neg(x));
      var tmp := h[p].arg;
      var op, left, right := h[tmp].op, h[tmp].left, h[tmp].right;
      var q := Alloc(NotCell(right));
      h := h[p := OpCell(Dual(op), tmp, q)];
      h := h[tmp := NotCell(left)];
      Unharmed(a, h, left, x.l);
      Unharmed(a, h, right, x.r);
    }

    method NegateAtomAt(p: nat, ghost x: Expr) returns (q: nat)
      requires Owns(h, p, Neg(x)) && x.Atom?
      modifies this`h
      ensures Became(old(h), p, Neg(x), h, q, NegateAtom(x.sym))
    {
      q := h[p].arg;
      if h[q].sym == YES {
        h := h[q := SymCell(NO)];
      } else if h[q].sym == MOD {
        h := h[q := SymCell(MOD)];
      } else if h[q].sym == NO {
        h := h[q := SymCell(YES)];
      } else {
        q := p;
      }
    }
  }
}
