/** Dependency expressions and their value: struct expr of expr.h and expr_calc_value of expr.c. */
module Exprs {
  import opened Tristates

  datatype Option<+T> = None | Some(value: T)

  /** enum symbol_type. Trivalued is S_TRISTATE, Foreign is S_OTHER. */
  datatype SymbolType = Unknown | Boolean | Trivalued | Integer | Hexadecimal | Text | Foreign

  /** A struct symbol as expressions see it; id stands for the C pointer. */
  datatype Symbol = Symbol(id: nat, ty: SymbolType, isConst: bool)

  const NO := Symbol(0, Unknown, true)
  const MOD := Symbol(1, Unknown, true)
  const YES := Symbol(2, Unknown, true)

  datatype Relation = Eq | Ne | Lt | Le | Gt | Ge

  /** E_SYMBOL, the six comparisons, E_NOT, and E_AND / E_OR as one constructor. */
  datatype Expr =
    | Atom(sym: Symbol)
    | Compare(rel: Relation, lhs: Symbol, rhs: Symbol)
    | Neg(arg: Expr)
    | Bin(op: Op, l: Expr, r: Expr)

  function Size(e: Expr): nat
    ensures Size(e) >= 1
  {
    match e
    case Atom(_) => 1
    case Compare(_, _, _) => 1
    case Neg(a) => 1 + Size(a)
    case Bin(_, a, b) => 1 + Size(a) + Size(b)
  }

  predicate IsOp(e: Expr, op: Op) {
    e.Bin? && e.op == op
  }

  /** The neutral constant of op as a symbol. */
  function UnitSymbol(op: Op): Symbol {
    if op == AndOp then YES else NO
  }

  predicate IsTristateConstant(s: Symbol) {
    s == NO || s == MOD || s == YES
  }

  /** bool and tristate symbols. */
  predicate IsLogical(s: Symbol) {
    s.ty == Boolean || s.ty == Trivalued
  }

  // ---------------------------------------------------------------- values

  /**
    What expr_calc_value reads: the tristate value and the string value of every symbol, and the
    C library's number parser (the number a whole string spells in a base, if it spells one).
   */
  datatype Valuation = Valuation(tri: Symbol -> Tristate, text: Symbol -> string, number: (string, nat) -> Option<int>)

  /** expr_parse_string's answer. */
  datatype Parsed = AsString | AsSigned(n: int) | AsUnsigned(n: int) | Invalid

  function ParseTristate(s: string): int {
    if s == "n" then 0 else if s == "m" then 1 else if s == "y" then 2 else -1
  }

  function ParseString(v: Valuation, s: string, ty: SymbolType): Parsed {
    match ty
    case Boolean => AsSigned(ParseTristate(s))
    case Trivalued => AsSigned(ParseTristate(s))
    case Integer => (match v.number(s, 10) case Some(n) => AsSigned(n) case None => AsString)
    case Hexadecimal => (match v.number(s, 16) case Some(n) => AsUnsigned(n) case None => AsString)
    case Text => (match v.number(s, 0) case Some(n) => AsSigned(n) case None => AsString)
    case Unknown => (match v.number(s, 0) case Some(n) => AsSigned(n) case None => AsString)
    case Foreign => Invalid
  }

  /** strcmp. */
  function CompareStrings(a: string, b: string): int {
    if a == [] && b == [] then 0
    else if a == [] then -1
    else if b == [] then 1
    else if a[0] < b[0] then -1
    else if a[0] > b[0] then 1
    else CompareStrings(a[1..], b[1..])
  }

  lemma {:induction false} CompareStringsIsEquality(a: string, b: string)
    ensures CompareStrings(a, b) == 0 <==> a == b
  {
    if a != [] && b != [] {
      CompareStringsIsEquality(a[1..], b[1..]);
      assert a == [a[0]] + a[1..] && b == [b[0]] + b[1..];
    }
  }

  /** a comes before b in the order of strcmp: at the first difference it has the lower character, or it ends there. */
  ghost predicate Before(a: string, b: string) {
    exists k: nat :: BeforeAt(a, b, k)
  }

  predicate BeforeAt(a: string, b: string, k: nat) {
    k <= |a| && k < |b| && a[..k] == b[..k] && (k == |a| || a[k] < b[k])
  }

  lemma BeforeAtRest(a: string, b: string, k: nat)
    requires a != [] && b != [] && a[0] == b[0]
    ensures BeforeAt(a, b, k + 1) <==> BeforeAt(a[1..], b[1..], k)
  {
    if k < |a| && k + 1 < |b| {
      assert a[..k + 1] == [a[0]] + a[1..][..k] && b[..k + 1] == [b[0]] + b[1..][..k];
      assert a[1..][..k] == a[..k + 1][1..] && b[1..][..k] == b[..k + 1][1..];
    }
  }

  lemma BeforeRest(a: string, b: string)
    requires a != [] && b != [] && a[0] == b[0]
    ensures Before(a, b) <==> Before(a[1..], b[1..])
  {
    if k: nat :| BeforeAt(a, b, k) {
      assert k > 0;
      BeforeAtRest(a, b, k - 1);
    }
    if k: nat :| BeforeAt(a[1..], b[1..], k) { BeforeAtRest(a, b, k); }
  }

  lemma SameFirst(a: string, b: string, k: nat)
    ensures BeforeAt(a, b, k) && k > 0 ==> a != [] && b != [] && a[0] == b[0]
  {
    if BeforeAt(a, b, k) && k > 0 { assert a[..k][0] == b[..k][0]; }
  }

  lemma BeforeFirst(a: string, b: string)
    requires a == [] || b == [] || a[0] != b[0]
    ensures Before(a, b) <==> b != [] && (a == [] || a[0] < b[0])
  {
    assert b != [] && (a == [] || a[0] < b[0]) ==> BeforeAt(a, b, 0);
    if k: nat :| BeforeAt(a, b, k) {
      SameFirst(a, b, k);
    }
  }

  lemma {:induction false} CompareStringsOrder(a: string, b: string)
    ensures CompareStrings(a, b) < 0 <==> Before(a, b)
    ensures CompareStrings(a, b) > 0 <==> Before(b, a)
  {
    if a != [] && b != [] && a[0] == b[0] {
      CompareStringsOrder(a[1..], b[1..]);
      BeforeRest(a, b);
      BeforeRest(b, a);
    } else {
      BeforeFirst(a, b);
      BeforeFirst(b, a);
    }
  }

  function Sign(n: int): int {
    if n < 0 then -1 else if n > 0 then 1 else 0
  }

  /** The 64-bit pattern of n read as unsigned: the union string_value. */
  function AsWord(n: int): int {
    n % 0x1_0000_0000_0000_0000
  }

  /** The operands cannot be ordered, only tested for equal text (S_OTHER). */
  predicate Unordered(v: Valuation, a: Symbol, b: Symbol) {
    var p, q := Operand(v, a, b), Operand(v, b, a);
    !p.AsString? && !q.AsString? && (p.Invalid? || q.Invalid?)
  }

  function Operand(v: Valuation, a: Symbol, b: Symbol): Parsed {
    if a.ty == Text && b.ty == Text then AsString else ParseString(v, v.text(a), a.ty)
  }

  function CompareSymbols(v: Valuation, a: Symbol, b: Symbol): int {
    var p, q := Operand(v, a, b), Operand(v, b, a);
    if p.AsString? || q.AsString? || p.Invalid? || q.Invalid? then CompareStrings(v.text(a), v.text(b))
    else if p.AsUnsigned? || q.AsUnsigned? then Sign(AsWord(p.n) - AsWord(q.n))
    else Sign(p.n - q.n)
  }

  predicate Holds(rel: Relation, res: int) {
    match rel
    case Eq => res == 0
    case Ne => res != 0
    case Lt => res < 0
    case Le => res <= 0
    case Gt => res > 0
    case Ge => res >= 0
  }

  function Relate(v: Valuation, rel: Relation, a: Symbol, b: Symbol): Tristate {
    if rel != Eq && rel != Ne && Unordered(v, a, b) then No
    else if Holds(rel, CompareSymbols(v, a, b)) then Yes
    else No
  }

  /** expr_calc_value. */
  function Eval(e: Expr, v: Valuation): Tristate {
    match e
    case Atom(s) => v.tri(s)
    case Compare(rel, a, b) => Relate(v, rel, a, b)
    case Neg(a) => Not(Eval(a, v))
    case Bin(op, a, b) => Apply(op, Eval(a, v), Eval(b, v))
  }

  /** expr_calc_value of a pointer that may be NULL: no condition is y. */
  function EvalOpt(e: Option<Expr>, v: Valuation): Tristate {
    match e
    case None => Yes
    case Some(x) => Eval(x, v)
  }

  function AllocAnd(a: Option<Expr>, b: Option<Expr>): Option<Expr> {
    if a.None? then b else if b.None? then a else Some(Bin(AndOp, a.value, b.value))
  }

  function AllocOr(a: Option<Expr>, b: Option<Expr>): Option<Expr> {
    if a.None? then b else if b.None? then a else Some(Bin(OrOp, a.value, b.value))
  }

  function TristateText(t: Tristate): string {
    match t
    case No => "n"
    case Mod => "m"
    case Yes => "y"
  }

  /**
    The valuations that sym_calc_value produces: the three constants have their own values, a bool
    symbol is never m, and the text of a logical symbol spells its value.
   */
  ghost predicate Admissible(v: Valuation) {
    && v.tri(NO) == No && v.tri(MOD) == Mod && v.tri(YES) == Yes
    && v.text(NO) == "n" && v.text(MOD) == "m" && v.text(YES) == "y"
    && v.number("n", 0) == None && v.number("m", 0) == None && v.number("y", 0) == None
    && (forall s: Symbol :: s.ty == Boolean ==> v.tri(s) != Mod)
    && (forall s: Symbol :: IsLogical(s) ==> v.text(s) == TristateText(v.tri(s)))
  }

  /** Comparing a logical symbol with y, m or n compares tristate values. */
  lemma CompareWithConstant(v: Valuation, s: Symbol, c: Symbol)
    requires Admissible(v) && IsLogical(s) && IsTristateConstant(c)
    ensures Relate(v, Eq, s, c) == if v.tri(s) == v.tri(c) then Yes else No
    ensures Relate(v, Ne, s, c) == if v.tri(s) == v.tri(c) then No else Yes
  {
    assert Operand(v, c, s).AsString?;
    CompareStringsIsEquality(v.text(s), v.text(c));
    assert v.text(s) == TristateText(v.tri(s));
    assert v.text(c) == TristateText(v.tri(c));
  }

  function Opposite(rel: Relation): Relation {
    match rel
    case Eq => Ne
    case Ne => Eq
    case Lt => Ge
    case Le => Gt
    case Gt => Le
    case Ge => Lt
  }

  /** Replacing !(a rel b) by the opposite relation is right exactly when the operands can be ordered. */
  lemma OppositeIsNegation(v: Valuation, rel: Relation, a: Symbol, b: Symbol)
    ensures Not(Relate(v, rel, a, b)) == Relate(v, Opposite(rel), a, b)
            <==> rel == Eq || rel == Ne || !Unordered(v, a, b)
  {
  }

  /** The number that a symbol of type int, hex, string or none spells, in the base that its type stands for. */
  function NumberOf(v: Valuation, s: Symbol): Option<int> {
    if s.ty == Integer then v.number(v.text(s), 10)
    else if s.ty == Hexadecimal then v.number(v.text(s), 16)
    else if s.ty == Text || s.ty == Unknown then v.number(v.text(s), 0)
    else None
  }

  /** rel holds between x and y. */
  predicate Stands(rel: Relation, x: int, y: int) {
    match rel
    case Eq => x == y
    case Ne => x != y
    case Lt => x < y
    case Le => x <= y
    case Gt => x > y
    case Ge => x >= y
  }

  /** Numbers are compared as numbers, but for two strings. Next to a hex operand they have to be unsigned 64-bit. */
  lemma NumbersAreCompared(v: Valuation, rel: Relation, a: Symbol, b: Symbol)
    requires NumberOf(v, a).Some? && NumberOf(v, b).Some? && !(a.ty == Text && b.ty == Text)
    requires a.ty == Hexadecimal || b.ty == Hexadecimal ==>
               (0 <= NumberOf(v, a).value < 0x1_0000_0000_0000_0000
                && 0 <= NumberOf(v, b).value < 0x1_0000_0000_0000_0000)
    ensures Relate(v, rel, a, b) == if Stands(rel, NumberOf(v, a).value, NumberOf(v, b).value) then Yes else No
  {
  }

  /** Two strings, and anything that spells no number, are compared as texts. */
  lemma TextsAreCompared(v: Valuation, rel: Relation, a: Symbol, b: Symbol)
    requires (a.ty == Text && b.ty == Text)
             || (a.ty in {Integer, Hexadecimal, Text, Unknown} && NumberOf(v, a).None?)
             || (b.ty in {Integer, Hexadecimal, Text, Unknown} && NumberOf(v, b).None?)
    ensures rel == Lt ==> (Relate(v, rel, a, b) == Yes <==> Before(v.text(a), v.text(b)))
    ensures rel == Gt ==> (Relate(v, rel, a, b) == Yes <==> Before(v.text(b), v.text(a)))
    ensures rel == Eq ==> (Relate(v, rel, a, b) == Yes <==> v.text(a) == v.text(b))
    ensures rel == Ne ==> (Relate(v, rel, a, b) == Yes <==> v.text(a) != v.text(b))
    ensures rel == Le ==> (Relate(v, rel, a, b) == Yes <==> !Before(v.text(b), v.text(a)))
    ensures rel == Ge ==> (Relate(v, rel, a, b) == Yes <==> !Before(v.text(a), v.text(b)))
    ensures Relate(v, rel, a, b) != Mod
  {
    CompareStringsOrder(v.text(a), v.text(b));
    CompareStringsIsEquality(v.text(a), v.text(b));
  }

  /** Two bool or tristate symbols are compared as tristates. */
  lemma TristatesAreCompared(v: Valuation, rel: Relation, a: Symbol, b: Symbol)
    requires Admissible(v) && IsLogical(a) && IsLogical(b)
    ensures Relate(v, rel, a, b) == if Stands(rel, Level(v.tri(a)), Level(v.tri(b))) then Yes else No
  {
    assert v.text(a) == TristateText(v.tri(a)) && v.text(b) == TristateText(v.tri(b));
  }

  /** An S_OTHER operand, next to one that is no string or spells a number, is never ordered. */
  lemma OthersAreNotOrdered(v: Valuation, rel: Relation, a: Symbol, b: Symbol)
    requires a.ty == Foreign && (b.ty == Foreign || IsLogical(b) || NumberOf(v, b).Some?)
    ensures rel == Lt || rel == Le || rel == Gt || rel == Ge ==> Relate(v, rel, a, b) == Relate(v, rel, b, a) == No
    ensures rel == Eq ==> (Relate(v, rel, a, b) == Yes <==> v.text(a) == v.text(b))
    ensures rel == Ne ==> (Relate(v, rel, a, b) == Yes <==> v.text(a) != v.text(b))
  {
    CompareStringsIsEquality(v.text(a), v.text(b));
  }

  // ------------------------------------------------- what callers must keep to

  /** Which of the optional conditions of Regular are meant. */
  datatype Form = Form(ordered: bool, negAtoms: bool)

  /**
    A constant that e compares a tristate symbol with is y, m or n. With f.ordered, no comparison
    reads an S_OTHER symbol. With f.negAtoms, only symbols are negated: negation normal form.
   */
  predicate Regular(e: Expr, f: Form) {
    match e
    case Atom(_) => true
    case Compare(_, a, b) =>
      && (a.ty == Trivalued && b.isConst ==> IsTristateConstant(b))
      && (f.ordered ==> a.ty != Foreign && b.ty != Foreign)
    case Neg(a) => (f.negAtoms ==> a.Atom?) && Regular(a, f)
    case Bin(_, a, b) => Regular(a, f) && Regular(b, f)
  }

  predicate RegularOpt(e: Option<Expr>, f: Form) {
    e.Some? ==> Regular(e.value, f)
  }

  /** Negation normal form is a further condition on top of the other two. */
  lemma {:induction false} RegularWeaker(e: Expr, f: Form)
    requires Regular(e, f)
    ensures Regular(e, f.(negAtoms := false))
    ensures Regular(e, Form(false, false))
  {
    match e
    case Neg(a) => RegularWeaker(a, f);
    case Bin(_, a, b) =>
      RegularWeaker(a, f);
      RegularWeaker(b, f);
    case _ =>
  }

  lemma OrderedOperands(v: Valuation, a: Symbol, b: Symbol)
    requires a.ty != Foreign && b.ty != Foreign
    ensures !Unordered(v, a, b)
  {
  }
}
