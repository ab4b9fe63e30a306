/** expr_transform and expr_trans_bool of expr.c. */
module Transforms {
  import opened Tristates
  import opened Exprs

  /** Weighs a negation double, so that pushing ! through && and || makes an expression lighter. */
  function Weight(e: Expr): nat
    ensures Weight(e) >= 1
  {
    match e
    case Atom(_) => 1
    case Compare(_, _, _) => 2
    case Neg(a) => 2 * Weight(a)
    case Bin(_, a, b) => 1 + Weight(a) + Weight(b)
  }

  /** De Morgan's step makes the expression lighter. */
  lemma PushWeight(op: Op, x: Expr, y: Expr)
    ensures Weight(Bin(Dual(op), Neg(x), Neg(y))) < Weight(Neg(Bin(op, x, y)))
  {
    assert Weight(Neg(x)) == 2 * Weight(x) && Weight(Neg(y)) == 2 * Weight(y);
  }

  /** Comparing a bool symbol with y, m or n. */
  function SimplifyCompare(rel: Relation, a: Symbol, b: Symbol): Expr {
    if a.ty != Boolean || (rel != Eq && rel != Ne) then Compare(rel, a, b)
    else if b == NO then (if rel == Eq then Neg(Atom(a)) else Atom(a))
    else if b == MOD then (if rel == Eq then Atom(NO) else Atom(YES))
    else if b == YES then (if rel == Eq then Atom(a) else Neg(Atom(a)))
    else Compare(rel, a, b)
  }

  /** ! of a symbol, evaluated on the three constants. */
  function NegateAtom(s: Symbol): Expr {
    if s == YES then Atom(NO)
    else if s == MOD then Atom(MOD)
    else if s == NO then Atom(YES)
    else Neg(Atom(s))
  }

  /** expr_transform. */
  function Transform(e: Expr): (r: Expr)
    ensures Weight(r) <= Weight(e)
    decreases Weight(e)
  {
    match e
    case Atom(_) => e
    case Compare(rel, a, b) => SimplifyCompare(rel, a, b)
    case Bin(op, a, b) => Bin(op, Transform(a), Transform(b))
    case Neg(a) =>
      match Transform(a)
      case Neg(x) => Transform(x)
      case Compare(rel, x, y) => Compare(Opposite(rel), x, y)
      case Bin(op, x, y) =>
        PushWeight(op, x, y);
        Transform(Bin(Dual(op), Neg(x), Neg(y)))
      case Atom(s) => NegateAtom(s)
  }

  function TransformOpt(e: Option<Expr>): Option<Expr> {
    match e
    case None => None
    case Some(x) => Some(Transform(x))
  }

  lemma PushedNegation(op: Op, x: Expr, y: Expr, v: Valuation)
    requires Regular(Bin(op, x, y), Form(true, false))
    ensures Eval(Bin(Dual(op), Neg(x), Neg(y)), v) == Not(Eval(Bin(op, x, y), v))
    ensures Regular(Bin(Dual(op), Neg(x), Neg(y)), Form(true, false))
  {
  }

  /** expr_transform keeps the value. */
  lemma {:induction false} TransformSound(e: Expr, v: Valuation)
    requires Admissible(v) && Regular(e, Form(true, false))
    ensures Eval(Transform(e), v) == Eval(e, v)
    ensures Regular(Transform(e), Form(true, true))
    decreases Weight(e)
  {
    match e
    case Atom(_) =>
    case Compare(rel, a, b) => SimplifyCompareSound(rel, a, b, v);
    case Bin(_, a, b) =>
      TransformSound(a, v);
      TransformSound(b, v);
    case Neg(a) =>
      TransformSound(a, v);
      RegularWeaker(Transform(a), Form(true, true));
      match Transform(a)
      case Neg(x) => TransformSound(x, v);
      case Compare(rel, x, y) =>
        OrderedOperands(v, x, y);
        OppositeIsNegation(v, rel, x, y);
      case Bin(op, x, y) =>
        PushWeight(op, x, y);
        PushedNegation(op, x, y, v);
        TransformSound(Bin(Dual(op), Neg(x), Neg(y)), v);
      case Atom(s) =>
  }

  lemma SimplifyCompareSound(rel: Relation, a: Symbol, b: Symbol, v: Valuation)
    requires Admissible(v)
    ensures Eval(SimplifyCompare(rel, a, b), v) == Relate(v, rel, a, b)
  {
    if a.ty == Boolean && IsTristateConstant(b) {
      CompareWithConstant(v, a, b);
    }
  }

  /**
    The normal form: ! only stands before a symbol that is not y, m or n, and no bool symbol is
    compared with y, m or n.
   */
  predicate Normal(e: Expr) {
    match e
    case Atom(_) => true
    case Compare(rel, a, b) => !(a.ty == Boolean && (rel == Eq || rel == Ne) && IsTristateConstant(b))
    case Neg(a) => a.Atom? && !IsTristateConstant(a.sym)
    case Bin(_, a, b) => Normal(a) && Normal(b)
  }

  /** expr_transform reaches the normal form and does nothing more to an expression that has it. */
  lemma {:induction false} TransformNormal(e: Expr)
    ensures Normal(Transform(e))
    ensures Normal(e) <==> Transform(e) == e
    decreases Weight(e)
  {
    match e
    case Atom(_) =>
    case Compare(_, _, _) =>
    case Bin(_, a, b) =>
      TransformNormal(a);
      TransformNormal(b);
    case Neg(a) =>
      TransformNormal(a);
      match Transform(a)
      case Neg(x) => TransformNormal(x);
      case Compare(_, _, _) =>
      case Bin(op, x, y) =>
        PushWeight(op, x, y);
        TransformNormal(Bin(Dual(op), Neg(x), Neg(y)));
      case Atom(_) =>
  }

  /** The symbols an expression is about, from left to right; the tests of bool symbols for m are about nothing. */
  function Subjects(e: Expr): seq<Symbol> {
    match e
    case Atom(s) => if IsTristateConstant(s) then [] else [s]
    case Compare(rel, a, b) =>
      if a.ty == Boolean && (rel == Eq || rel == Ne) && b == MOD then []
      else if a.ty == Boolean && (rel == Eq || rel == Ne) && IsTristateConstant(b) then [a]
      else [a, b]
    case Neg(a) => Subjects(a)
    case Bin(_, a, b) => Subjects(a) + Subjects(b)
  }

  /** expr_transform keeps them in their order. */
  lemma {:induction false} TransformOrder(e: Expr)
    ensures Subjects(Transform(e)) == Subjects(e)
    decreases Weight(e)
  {
    match e
    case Atom(_) =>
    case Compare(_, _, _) =>
    case Bin(_, a, b) =>
      TransformOrder(a);
      TransformOrder(b);
    case Neg(a) =>
      TransformOrder(a);
      TransformNormal(a);
      match Transform(a)
      case Neg(x) => TransformOrder(x);
      case Compare(_, _, _) =>
      case Bin(op, x, y) =>
        PushWeight(op, x, y);
        TransformOrder(Bin(Dual(op), Neg(x), Neg(y)));
      case Atom(_) =>
  }

  /** A second expr_transform changes nothing. */
  lemma TransformIdempotent(e: Expr)
    ensures Transform(Transform(e)) == Transform(e)
  {
    TransformNormal(e);
    TransformNormal(Transform(e));
  }

  /** Two S_OTHER symbols: a <= b is n, and so is a > b, which the flip makes of !(a <= b). */
  lemma TransformNeedsOrder(v: Valuation, a: Symbol, b: Symbol)
    requires a.ty == Foreign && b.ty == Foreign
    ensures Eval(Neg(Compare(Le, a, b)), v) == Yes
    ensures Eval(Transform(Neg(Compare(Le, a, b))), v) == No
  {
    assert Transform(Compare(Le, a, b)) == Compare(Le, a, b);
  }

  // ------------------------------------------------------- expr_trans_bool

  /** expr_trans_bool: a tristate FOO != n becomes FOO. */
  function TransBool(e: Expr): Expr {
    match e
    case Bin(op, a, b) => Bin(op, TransBool(a), TransBool(b))
    case Neg(a) => Neg(TransBool(a))
    case Compare(rel, a, b) => if rel == Ne && a.ty == Trivalued && b == NO then Atom(a) else e
    case Atom(_) => e
  }

  /**
    The value of e hangs on tests FOO != n of symbols at m: reading them as m instead of y decides. One
    such operand is enough where the other operands leave it to it, and all must be where one would decide.
   */
  predicate Exposed(e: Expr, v: Valuation) {
    match e
    case Atom(_) => false
    case Compare(rel, a, b) => rel == Ne && a.ty == Trivalued && b == NO && v.tri(a) == Mod
    case Neg(a) => Exposed(a, v)
    case Bin(op, a, b) =>
      var x := Eval(e, v);
      if x == Mod then false
      else if x == Unit(op) then Exposed(a, v) || Exposed(b, v)
      else (Eval(a, v) == x ==> Exposed(a, v)) && (Eval(b, v) == x ==> Exposed(b, v))
  }

  /** expr_trans_bool keeps the value of an expression exactly if it is not exposed; an exposed one becomes m. */
  lemma {:induction false} TransBoolExact(e: Expr, v: Valuation)
    requires Admissible(v)
    ensures Eval(TransBool(e), v) == if Exposed(e, v) then Mod else Eval(e, v)
    ensures Exposed(e, v) ==> Eval(e, v) != Mod
  {
    match e
    case Bin(_, a, b) =>
      TransBoolExact(a, v);
      TransBoolExact(b, v);
    case Neg(a) => TransBoolExact(a, v);
    case Compare(rel, a, b) =>
      if rel == Ne && a.ty == Trivalued && b == NO {
        CompareWithConstant(v, a, NO);
      }
    case Atom(_) =>
  }

  /** In negation normal form only a y can be exposed. */
  lemma {:induction false} ExposedIsY(e: Expr, v: Valuation)
    requires Admissible(v) && Regular(e, Form(false, true)) && Exposed(e, v)
    ensures Eval(e, v) == Yes
  {
    match e
    case Bin(op, a, b) =>
      if Exposed(a, v) { ExposedIsY(a, v); }
      if Exposed(b, v) { ExposedIsY(b, v); }
    case Compare(_, a, _) => CompareWithConstant(v, a, NO);
    case _ =>
  }

  /** So there expr_trans_bool keeps whether the value is n. */
  lemma TransBoolKeepsVisible(e: Expr, v: Valuation)
    requires Admissible(v) && Regular(e, Form(false, true))
    ensures Eval(TransBool(e), v) == No <==> Eval(e, v) == No
  {
    TransBoolExact(e, v);
    if Exposed(e, v) { ExposedIsY(e, v); }
  }

  /** In general it does so exactly unless an n is exposed, as that of !(A != n) for A = m is: it becomes m. */
  lemma TransBoolVisibleExact(e: Expr, v: Valuation)
    requires Admissible(v)
    ensures (Eval(TransBool(e), v) == No <==> Eval(e, v) == No) <==> !(Exposed(e, v) && Eval(e, v) == No)
  {
    TransBoolExact(e, v);
  }

  /** The failing case: !(A != n) is n for A = m, while !A is m. */
  lemma TransBoolNeedsNormalForm(v: Valuation, a: Symbol)
    requires Admissible(v) && a.ty == Trivalued && v.tri(a) == Mod
    ensures Eval(Neg(Compare(Ne, a, NO)), v) == No && Exposed(Neg(Compare(Ne, a, NO)), v)
    ensures Eval(TransBool(Neg(Compare(Ne, a, NO))), v) == Mod
  {
    CompareWithConstant(v, a, NO);
  }
}
