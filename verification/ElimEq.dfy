/** expr_eliminate_yn, __expr_eliminate_eq, expr_eliminate_eq and expr_eq of expr.c. */
module ElimEq {
  import opened Tristates
  import opened Exprs

  predicate IsConst(e: Expr, s: Symbol) {
    e == Atom(s)
  }

  /** expr_eliminate_yn once both operands are simplified. */
  function JoinConstants(op: Op, a: Expr, b: Expr): Expr {
    var zero := UnitSymbol(Dual(op));
    var one := UnitSymbol(op);
    if IsConst(a, zero) then Atom(zero)
    else if IsConst(a, one) then b
    else if IsConst(b, zero) then Atom(zero)
    else if IsConst(b, one) then a
    else Bin(op, a, b)
  }

  /** expr_eliminate_yn. */
  function EliminateYn(e: Expr): (r: Expr)
    ensures Size(r) <= Size(e)
    ensures forall f :: Regular(e, f) ==> Regular(r, f)
  {
    match e
    case Bin(op, a, b) => JoinConstants(op, EliminateYn(a), EliminateYn(b))
    case _ => e
  }

  lemma {:induction false} EliminateYnSound(e: Expr, v: Valuation)
    requires Admissible(v)
    ensures Eval(EliminateYn(e), v) == Eval(e, v)
  {
    match e
    case Bin(op, a, b) =>
      EliminateYnSound(a, v);
      EliminateYnSound(b, v);
    case _ =>
  }

  /** e has a constant operand that expr_eliminate_yn reaches. */
  predicate Reducible(e: Expr) {
    && e.Bin?
    && (IsConst(e.l, YES) || IsConst(e.l, NO) || IsConst(e.r, YES) || IsConst(e.r, NO)
        || Reducible(e.l) || Reducible(e.r))
  }

  lemma JoinConstantsNormal(op: Op, a: Expr, b: Expr)
    requires !Reducible(a) && !Reducible(b)
    ensures !Reducible(JoinConstants(op, a, b))
    ensures Size(JoinConstants(op, a, b)) <= 1 + Size(a) + Size(b)
    ensures a.Atom? && (a.sym == YES || a.sym == NO) ==> Size(JoinConstants(op, a, b)) < 1 + Size(a) + Size(b)
    ensures b.Atom? && (b.sym == YES || b.sym == NO) ==> Size(JoinConstants(op, a, b)) < 1 + Size(a) + Size(b)
  {
  }

  /** expr_eliminate_yn removes every reachable constant operand, and shrinks exactly the trees that have one. */
  lemma {:induction false} EliminateYnNormal(e: Expr)
    ensures !Reducible(EliminateYn(e))
    ensures Reducible(e) ==> Size(EliminateYn(e)) < Size(e)
    ensures !Reducible(e) ==> EliminateYn(e) == e
  {
    if e.Bin? {
      EliminateYnNormal(e.l);
      EliminateYnNormal(e.r);
      JoinConstantsNormal(e.op, EliminateYn(e.l), EliminateYn(e.r));
    }
  }

  // ------------------------------------------------------------ expr_eq

  /** expr_eq; the C function works on copies, which values make implicit. */
  function ExprEq(e1: Expr, e2: Expr): bool
    decreases Size(e1) + Size(e2), 3
  {
    match (e1, e2)
    case (Compare(r1, a1, b1), Compare(r2, a2, b2)) => r1 == r2 && a1 == a2 && b1 == b2
    case (Atom(s1), Atom(s2)) => s1 == s2
    case (Neg(a1), Neg(a2)) => ExprEq(a1, a2)
    case (Bin(o1, _, _), Bin(o2, _, _)) =>
      if o1 != o2 then false
      else
        var (a, b) := EliminateEq(e1, e2);
        a.Atom? && b.Atom? && a.sym == b.sym
    case _ => false
  }

  /** expr_eliminate_eq on two trees that do not share nodes. */
  function EliminateEq(e1: Expr, e2: Expr): (r: (Expr, Expr))
    ensures Size(r.0) <= Size(e1) && Size(r.1) <= Size(e2)
    decreases Size(e1) + Size(e2), 2
  {
    var (a, b) := if e1.Bin? then EliminateLevel(e1.op, e1, e2) else (e1, e2);
    var (c, d) := if b.Bin? && !IsOp(a, b.op) then EliminateLevel(b.op, a, b) else (a, b);
    (EliminateYn(c), EliminateYn(d))
  }

  /** __expr_eliminate_eq: compares every operand of one level with every operand of the other. */
  function EliminateLevel(op: Op, e1: Expr, e2: Expr): (r: (Expr, Expr))
    ensures Size(r.0) <= Size(e1) && Size(r.1) <= Size(e2)
    decreases Size(e1) + Size(e2), if IsOp(e1, op) || IsOp(e2, op) then 1 else 4
  {
    if IsOp(e1, op) then
      var (l, x) := EliminateLevel(op, e1.l, e2);
      var (r, y) := EliminateLevel(op, e1.r, x);
      (Bin(op, l, r), y)
    else if IsOp(e2, op) then
      var (x, l) := EliminateLevel(op, e1, e2.l);
      var (y, r) := EliminateLevel(op, x, e2.r);
      (y, Bin(op, l, r))
    else if e1.Atom? && e2 == e1 && (e1.sym == YES || e1.sym == NO) then (e1, e2)
    else if !ExprEq(e1, e2) then (e1, e2)
    else (Atom(UnitSymbol(op)), Atom(UnitSymbol(op)))
  }

  lemma ApplyAssociates(op: Op, a: Tristate, b: Tristate, c: Tristate)
    ensures Apply(op, a, Apply(op, b, c)) == Apply(op, Apply(op, a, b), c)
  {
  }

  lemma Regroup(op: Op, a: Tristate, x: Tristate, b: Tristate, y: Tristate)
    ensures Apply(op, Apply(op, a, x), Apply(op, b, y)) == Apply(op, Apply(op, a, b), Apply(op, x, y))
    ensures Apply(op, a, Apply(op, b, y)) == Apply(op, Apply(op, a, b), y)
  {
    ApplyAssociates(op, a, b, y);
    calc {
      Apply(op, Apply(op, a, x), Apply(op, b, y));
      { ApplyAssociates(op, a, x, Apply(op, b, y)); }
      Apply(op, a, Apply(op, x, Apply(op, b, y)));
      { ApplyAssociates(op, x, b, y); ApplyAssociates(op, b, x, y); }
      Apply(op, a, Apply(op, b, Apply(op, x, y)));
      { ApplyAssociates(op, a, b, Apply(op, x, y)); }
      Apply(op, Apply(op, a, b), Apply(op, x, y));
    }
  }

  /** One level removes the same factor from both trees. */
  lemma {:induction false} EliminateLevelFactor(op: Op, e1: Expr, e2: Expr, v: Valuation) returns (c: Tristate)
    requires Admissible(v)
    ensures Eval(e1, v) == Apply(op, c, Eval(EliminateLevel(op, e1, e2).0, v))
    ensures Eval(e2, v) == Apply(op, c, Eval(EliminateLevel(op, e1, e2).1, v))
    decreases Size(e1) + Size(e2), if IsOp(e1, op) || IsOp(e2, op) then 1 else 4
  {
    if IsOp(e1, op) {
      var (l, x) := EliminateLevel(op, e1.l, e2);
      var c1 := EliminateLevelFactor(op, e1.l, e2, v);
      var c2 := EliminateLevelFactor(op, e1.r, x, v);
      var (r, y) := EliminateLevel(op, e1.r, x);
      c := Apply(op, c1, c2);
      Regroup(op, c1, Eval(l, v), c2, Eval(r, v));
      Regroup(op, c1, Eval(l, v), c2, Eval(y, v));
    } else if IsOp(e2, op) {
      var (x, l) := EliminateLevel(op, e1, e2.l);
      var c1 := EliminateLevelFactor(op, e1, e2.l, v);
      var c2 := EliminateLevelFactor(op, x, e2.r, v);
      var (y, r) := EliminateLevel(op, x, e2.r);
      c := Apply(op, c1, c2);
      Regroup(op, c1, Eval(l, v), c2, Eval(r, v));
      Regroup(op, c1, Eval(l, v), c2, Eval(y, v));
    } else if EliminateLevel(op, e1, e2) == (e1, e2) {
      c := Unit(op);
    } else {
      ExprEqSound(e1, e2, v);
      c := Eval(e1, v);
    }
  }

  /** The ends of the interval that two factors squeeze a value into. */
  function ClampLow(o1: Op, f1: Tristate, o2: Op, f2: Tristate): Tristate {
    Apply(o1, f1, Apply(o2, f2, No))
  }

  function ClampHigh(o1: Op, f1: Tristate, o2: Op, f2: Tristate): Tristate {
    Apply(o1, f1, Apply(o2, f2, Yes))
  }

  lemma TwoFactorsClamp(o1: Op, f1: Tristate, o2: Op, f2: Tristate, x: Tristate)
    ensures Apply(o1, f1, Apply(o2, f2, x)) == Clamp(ClampLow(o1, f1, o2, f2), ClampHigh(o1, f1, o2, f2), x)
  {
  }

  /**
    expr_eliminate_eq removes one clamp from both sides: at every valuation the old values are the
    same monotone function of the new ones.
   */
  lemma {:induction false} EliminateEqClamp(e1: Expr, e2: Expr, v: Valuation)
    requires Admissible(v)
    ensures exists lo, hi ::
              && Eval(e1, v) == Clamp(lo, hi, Eval(EliminateEq(e1, e2).0, v))
              && Eval(e2, v) == Clamp(lo, hi, Eval(EliminateEq(e1, e2).1, v))
    decreases Size(e1) + Size(e2), 2
  {
    var (a, b) := if e1.Bin? then EliminateLevel(e1.op, e1, e2) else (e1, e2);
    var (c, d) := if b.Bin? && !IsOp(a, b.op) then EliminateLevel(b.op, a, b) else (a, b);
    EliminateYnSound(c, v);
    EliminateYnSound(d, v);
    var f1, f2 := Unit(AndOp), Unit(AndOp);
    var o1, o2 := if e1.Bin? then e1.op else AndOp, if b.Bin? && !IsOp(a, b.op) then b.op else AndOp;
    if e1.Bin? {
      f1 := EliminateLevelFactor(e1.op, e1, e2, v);
    }
    if b.Bin? && !IsOp(a, b.op) {
      f2 := EliminateLevelFactor(b.op, a, b, v);
    }
    TwoFactorsClamp(o1, f1, o2, f2, Eval(c, v));
    TwoFactorsClamp(o1, f1, o2, f2, Eval(d, v));
    var lo, hi := ClampLow(o1, f1, o2, f2), ClampHigh(o1, f1, o2, f2);
    assert Eval(e1, v) == Clamp(lo, hi, Eval(EliminateEq(e1, e2).0, v));
    assert Eval(e2, v) == Clamp(lo, hi, Eval(EliminateEq(e1, e2).1, v));
  }

  /** expr_eq never equates two expressions that differ under some valuation. */
  lemma {:induction false} ExprEqSound(e1: Expr, e2: Expr, v: Valuation)
    requires Admissible(v) && ExprEq(e1, e2)
    ensures Eval(e1, v) == Eval(e2, v)
    decreases Size(e1) + Size(e2), 3
  {
    match (e1, e2)
    case (Neg(a1), Neg(a2)) => ExprEqSound(a1, a2, v);
    case (Bin(o1, _, _), Bin(o2, _, _)) => EliminateEqClamp(e1, e2, v);
    case _ =>
  }

  // ------------------------------------------------ common operands are found

  /** x is an operand of e at level op. */
  predicate IsOperand(op: Op, x: Expr, e: Expr) {
    if IsOp(e, op) then IsOperand(op, x, e.l) || IsOperand(op, x, e.r) else x == e
  }

  /** __expr_eliminate_eq puts nothing but the constant to be eliminated into either tree. */
  lemma {:induction false} OperandsRemain(op: Op, e1: Expr, e2: Expr, x: Expr)
    requires x != Atom(UnitSymbol(op))
    ensures IsOperand(op, x, EliminateLevel(op, e1, e2).0) ==> IsOperand(op, x, e1)
    ensures IsOperand(op, x, EliminateLevel(op, e1, e2).1) ==> IsOperand(op, x, e2)
    decreases Size(e1) + Size(e2), if IsOp(e1, op) || IsOp(e2, op) then 1 else 4
  {
    if IsOp(e1, op) {
      OperandsRemain(op, e1.l, e2, x);
      OperandsRemain(op, e1.r, EliminateLevel(op, e1.l, e2).1, x);
    } else if IsOp(e2, op) {
      OperandsRemain(op, e1, e2.l, x);
      OperandsRemain(op, EliminateLevel(op, e1, e2.l).0, e2.r, x);
    }
  }

  /** No operand that expr_eq recognizes is left in both trees, except y and n, which expr_eliminate_yn removes. */
  lemma {:induction false} CommonOperandsGo(op: Op, e1: Expr, e2: Expr, x: Expr)
    requires ExprEq(x, x) && x != Atom(YES) && x != Atom(NO)
    ensures var r := EliminateLevel(op, e1, e2); !(IsOperand(op, x, r.0) && IsOperand(op, x, r.1))
    decreases Size(e1) + Size(e2), if IsOp(e1, op) || IsOp(e2, op) then 1 else 4
  {
    if IsOp(e1, op) {
      var (l, y) := EliminateLevel(op, e1.l, e2);
      var (r, z) := EliminateLevel(op, e1.r, y);
      CommonOperandsGo(op, e1.l, e2, x);
      CommonOperandsGo(op, e1.r, y, x);
      OperandsRemain(op, e1.r, y, x);
      assert EliminateLevel(op, e1, e2) == (Bin(op, l, r), z);
    } else if IsOp(e2, op) {
      var (y, l) := EliminateLevel(op, e1, e2.l);
      var (z, r) := EliminateLevel(op, y, e2.r);
      CommonOperandsGo(op, e1, e2.l, x);
      CommonOperandsGo(op, y, e2.r, x);
      OperandsRemain(op, y, e2.r, x);
      assert EliminateLevel(op, e1, e2) == (z, Bin(op, l, r));
    }
  }
}
