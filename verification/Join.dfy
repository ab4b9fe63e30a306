/** expr_join_or and expr_join_and of expr.c: two operands of one level become one. */
module Join {
  import opened Tristates
  import opened Exprs
  import opened ElimEq

  predicate IsEquality(e: Expr) {
    e.Compare? && (e.rel == Eq || e.rel == Ne)
  }

  /** The symbol an operand is about, None where the C function gives up. */
  function Subject(e: Expr, first: bool): Option<Symbol> {
    match e
    case Atom(s) => Some(s)
    case Compare(_, a, _) => if IsEquality(e) then Some(a) else None
    case Neg(Atom(s)) => Some(s)
    case Neg(Compare(rel, a, _)) => if first && (rel == Eq || rel == Ne) then Some(a) else None
    case _ => None
  }

  /** The tests both functions start with, after expr_eq has failed: the common logical symbol. */
  function CommonSubject(e1: Expr, e2: Expr): Option<Symbol> {
    var s1, s2 := Subject(e1, true), Subject(e2, false);
    if s1.Some? && s1 == s2 && IsLogical(s1.value) then s1 else None
  }

  /** One operand has the form (rel1, c1), the other (rel2, c2). */
  predicate Are(e1: Expr, e2: Expr, rel: Relation, c1: Symbol, c2: Symbol) {
    && e1.Compare? && e2.Compare? && e1.rel == rel && e2.rel == rel
    && ((e1.rhs == c1 && e2.rhs == c2) || (e1.rhs == c2 && e2.rhs == c1))
  }

  /** One operand is the symbol itself, the other compares it with c. */
  predicate AtomAnd(e1: Expr, e2: Expr, rel: Relation, c: Symbol) {
    || (e1.Atom? && e2.Compare? && e2.rel == rel && e2.rhs == c)
    || (e2.Atom? && e1.Compare? && e1.rel == rel && e1.rhs == c)
  }

  predicate AtomAndItsNegation(e1: Expr, e2: Expr) {
    || (e1.Neg? && e1.arg.Atom? && e2.Atom?)
    || (e2.Neg? && e2.arg.Atom? && e1.Atom?)
  }

  /** e1 || e2. */
  function JoinOr(e1: Expr, e2: Expr): Option<Expr> {
    if ExprEq(e1, e2) then Some(e1) else OrOfDifferent(e1, e2)
  }

  /** The part of expr_join_or after expr_eq. */
  function OrOfDifferent(e1: Expr, e2: Expr): (r: Option<Expr>)
    ensures r.Some? ==> r.value.Atom? || r.value.Compare?
  {
    match CommonSubject(e1, e2)
    case None => None
    case Some(s) =>
      if s.ty == Trivalued then
        if Are(e1, e2, Eq, YES, MOD) then Some(Compare(Ne, s, NO))
        else if Are(e1, e2, Eq, YES, NO) then Some(Compare(Ne, s, MOD))
        else if Are(e1, e2, Eq, MOD, NO) then Some(Compare(Ne, s, YES))
        else None
      else if AtomAndItsNegation(e1, e2) then Some(Atom(YES))
      else None
  }

  /** (a = b) && (a != c) for two constants. */
  function JoinEqNe(s: Symbol, b: Symbol, c: Symbol): Expr {
    if b != c then Compare(Eq, s, b) else Atom(NO)
  }

  /** e1 && e2. */
  function JoinAnd(e1: Expr, e2: Expr): Option<Expr> {
    if ExprEq(e1, e2) then Some(e1) else AndOfDifferent(e1, e2)
  }

  /** The part of expr_join_and after expr_eq. */
  function AndOfDifferent(e1: Expr, e2: Expr): (r: Option<Expr>)
    ensures r.Some? ==> r.value.Atom? || r.value.Compare?
  {
    match CommonSubject(e1, e2)
    case None => None
    case Some(s) =>
      if AtomAnd(e1, e2, Eq, YES) then Some(Compare(Eq, s, YES))
      else if AtomAnd(e1, e2, Ne, NO) then Some(Atom(s))
      else if AtomAnd(e1, e2, Ne, MOD) then Some(Compare(Eq, s, YES))
      else if s.ty != Trivalued || !e1.Compare? || !e2.Compare? then None
      else if e1.rel == Eq && e2.rel == Ne && e2.rhs.isConst && e1.rhs.isConst then Some(JoinEqNe(s, e1.rhs, e2.rhs))
      else if e1.rel == Ne && e2.rel == Eq && e1.rhs.isConst && e2.rhs.isConst then Some(JoinEqNe(s, e2.rhs, e1.rhs))
      else if Are(e1, e2, Ne, YES, NO) then Some(Compare(Eq, s, MOD))
      else if Are(e1, e2, Ne, YES, MOD) then Some(Compare(Eq, s, NO))
      else if Are(e1, e2, Ne, MOD, NO) then Some(Compare(Eq, s, YES))
      else None
  }

  function JoinOp(op: Op, e1: Expr, e2: Expr): Option<Expr> {
    if op == OrOp then JoinOr(e1, e2) else JoinAnd(e1, e2)
  }

  /** A joined operand is no bigger than the two it replaces, is still an operand, and keeps the constant discipline. */
  lemma JoinShape(op: Op, e1: Expr, e2: Expr)
    requires JoinOp(op, e1, e2).Some?
    ensures var t := JoinOp(op, e1, e2).value;
            && Size(t) + 1 <= Size(e1) + Size(e2)
            && Size(t) <= Size(e1)
            && (t == e1 || !t.Bin?)
            && (forall f :: Regular(e1, f) && Regular(e2, f) ==> Regular(t, f))
  {
  }

  lemma OrOfDifferentSound(e1: Expr, e2: Expr, v: Valuation, f: Form)
    requires Admissible(v) && Regular(e1, f) && Regular(e2, f) && OrOfDifferent(e1, e2).Some?
    ensures Eval(OrOfDifferent(e1, e2).value, v) == Or(Eval(e1, v), Eval(e2, v))
  {
    var s := CommonSubject(e1, e2).value;
    CompareWithConstant(v, s, YES);
    CompareWithConstant(v, s, MOD);
    CompareWithConstant(v, s, NO);
    assert s.ty == Boolean ==> v.tri(s) != Mod;
  }

  lemma AndOfDifferentSound(e1: Expr, e2: Expr, v: Valuation, f: Form)
    requires Admissible(v) && Regular(e1, f) && Regular(e2, f) && AndOfDifferent(e1, e2).Some?
    ensures Eval(AndOfDifferent(e1, e2).value, v) == And(Eval(e1, v), Eval(e2, v))
  {
    var s := CommonSubject(e1, e2).value;
    CompareWithConstant(v, s, YES);
    CompareWithConstant(v, s, MOD);
    CompareWithConstant(v, s, NO);
    assert s.ty == Boolean ==> v.tri(s) != Mod;
  }

  /** Joining keeps the value of the pair. */
  lemma JoinSound(op: Op, e1: Expr, e2: Expr, v: Valuation, f: Form)
    requires Admissible(v) && Regular(e1, f) && Regular(e2, f)
    requires JoinOp(op, e1, e2).Some?
    ensures Eval(JoinOp(op, e1, e2).value, v) == Apply(op, Eval(e1, v), Eval(e2, v))
  {
    if ExprEq(e1, e2) {
      ExprEqSound(e1, e2, v);
    } else if op == OrOp {
      OrOfDifferentSound(e1, e2, v, f);
    } else {
      AndOfDifferentSound(e1, e2, v, f);
    }
  }

  /**
    Without the discipline on constants the rule (a = b) && (a != c) -> (a = b) is right exactly when
    the symbol does not equal both constants at once. A caller sees to it by comparing tristate
    symbols only with y, m and n.
   */
  lemma JoinEqNeExact(v: Valuation, s: Symbol, b: Symbol, c: Symbol)
    requires Admissible(v)
    ensures Eval(JoinEqNe(s, b, c), v) == And(Relate(v, Eq, s, b), Relate(v, Ne, s, c))
            <==> !(b != c && Relate(v, Eq, s, b) == Yes && Relate(v, Eq, s, c) == Yes)
  {
  }
}
