/**
  expr_trans_compare, expr_contains_symbol and expr_depends_symbol of expr.c, and the test menu_finalize
  of menu.c builds from them: does an item that follows a symbol belong in that symbol's submenu?
 */
module Submenus {
  import opened Tristates
  import opened Exprs
  import opened ElimEq
  import opened Join
  import opened Dups
  import opened Transforms
  import Chains
  import Configs

  /** expr_trans_compare for the constants y and n. */
  function TransCompare(e: Expr, rel: Relation, c: Symbol): Expr
    requires (rel == Eq || rel == Ne) && (c == YES || c == NO)
  {
    match e
    case Atom(s) => Compare(rel, s, c)
    case Compare(_, _, _) => if (rel == Eq) == (c == YES) then e else Neg(e)
    case Neg(a) => TransCompare(a, Opposite(rel), c)
    case Bin(op, a, b) =>
      var x := Bin(if c == YES then op else Dual(op), TransCompare(a, Eq, c), TransCompare(b, Eq, c));
      if rel == Ne then Neg(x) else x
  }

  /** expr_trans_compare of a pointer that may be NULL, for != n. */
  function TransCompareOpt(e: Option<Expr>): Expr {
    match e
    case None => Neg(Atom(NO))
    case Some(x) => TransCompare(x, Ne, NO)
  }

  /** x is an atom of e. */
  predicate IsAtomOf(x: Symbol, e: Expr) {
    match e
    case Atom(s) => s == x
    case Compare(_, _, _) => false
    case Neg(a) => IsAtomOf(x, a)
    case Bin(_, a, b) => IsAtomOf(x, a) || IsAtomOf(x, b)
  }

  /** x is an operand of a comparison in e. */
  predicate IsComparedIn(x: Symbol, e: Expr) {
    match e
    case Atom(_) => false
    case Compare(_, a, b) => a == x || b == x
    case Neg(a) => IsComparedIn(x, a)
    case Bin(_, a, b) => IsComparedIn(x, a) || IsComparedIn(x, b)
  }

  /** The string value of a symbol spells its tristate value: so for bool and tristate symbols and for y, m and n. */
  predicate Spelled(x: Symbol, v: Valuation) {
    v.text(x) == TristateText(v.tri(x))
  }

  ghost predicate SpelledAtoms(e: Expr, v: Valuation) {
    forall x :: IsAtomOf(x, e) ==> Spelled(x, v)
  }

  /** No negated part of e is m under v. */
  predicate TwoValuedNegations(e: Expr, v: Valuation) {
    match e
    case Neg(a) => Eval(a, v) != Mod && TwoValuedNegations(a, v)
    case Bin(_, a, b) => TwoValuedNegations(a, v) && TwoValuedNegations(b, v)
    case _ => true
  }

  /** The answer expr_trans_compare should give. */
  function Answer(t: Tristate, rel: Relation, c: Symbol): Tristate {
    if (t == (if c == YES then Yes else No)) == (rel == Eq) then Yes else No
  }

  /**
    The comparison that replaces an atom is right exactly if the string value is that of c when the tristate
    value is.
   */
  lemma AtomAnswerExact(s: Symbol, rel: Relation, c: Symbol, v: Valuation)
    requires Admissible(v) && (rel == Eq || rel == Ne) && (c == YES || c == NO)
    ensures Relate(v, rel, s, c) == Answer(v.tri(s), rel, c) <==> (v.text(s) == v.text(c) <==> v.tri(s) == v.tri(c))
  {
    assert Operand(v, c, s).AsString?;
    CompareStringsIsEquality(v.text(s), v.text(c));
  }

  /**
    At the symbols of an evaluated table, != n is right exactly for bool and tristate symbols, for y, m and n,
    and for what else spells n. An undefined symbol spells its own name, so it counts as != n although its
    value is n; so does a string that is used as a condition.
   */
  lemma TableAtomExact(t: Configs.Table, user: Configs.User, s: seq<Configs.Result>, x: Symbol)
    requires Configs.WellFormed(t) && Configs.Solution(t, user, s) && Configs.Known(t, x)
    ensures var v := Configs.ValuationOf(t, s);
            Relate(v, Ne, x, NO) == Answer(v.tri(x), Ne, NO) <==> IsLogical(x) || x.id < 3 || v.text(x) == "n"
  {
    var v := Configs.ValuationOf(t, s);
    Configs.SolutionAdmissible(t, user, s);
    AtomAnswerExact(x, Ne, NO, v);
    Configs.ConstantsSolved(t, user, s);
    if Configs.IsTyped(x.ty) {
      Configs.TypedSolved(t, user, s, x.id);
    } else {
      Configs.UntypedSolved(t, user, s, x.id);
    }
  }

  /** expr_trans_compare says whether the value is c, wherever atoms are spelled and negated parts are two-valued. */
  lemma {:induction false} TransCompareSound(e: Expr, rel: Relation, c: Symbol, v: Valuation)
    requires Admissible(v) && (rel == Eq || rel == Ne) && (c == YES || c == NO)
    requires SpelledAtoms(e, v) && TwoValuedNegations(e, v)
    ensures Eval(TransCompare(e, rel, c), v) == Answer(Eval(e, v), rel, c)
  {
    match e
    case Atom(s) =>
      assert Spelled(s, v);
      AtomAnswerExact(s, rel, c, v);
    case Compare(_, _, _) =>
    case Neg(a) =>
      assert forall x :: IsAtomOf(x, a) ==> IsAtomOf(x, e);
      TransCompareSound(a, Opposite(rel), c, v);
    case Bin(_, a, b) =>
      assert forall x :: IsAtomOf(x, a) || IsAtomOf(x, b) ==> IsAtomOf(x, e);
      TransCompareSound(a, Eq, c, v);
      TransCompareSound(b, Eq, c, v);
  }

  /** Where the atoms are spelled, a negation is translated correctly exactly when its operand is not m. */
  lemma TransCompareNegationExact(a: Expr, rel: Relation, c: Symbol, v: Valuation)
    requires Admissible(v) && (rel == Eq || rel == Ne) && (c == YES || c == NO)
    requires SpelledAtoms(a, v) && TwoValuedNegations(a, v)
    ensures Eval(TransCompare(Neg(a), rel, c), v) == Answer(Eval(Neg(a), v), rel, c) <==> Eval(a, v) != Mod
  {
    TransCompareSound(a, Opposite(rel), c, v);
  }

  /** The value as expr_trans_compare reads it: !A is y where A is n, and n where it is m or y. */
  function Strict(e: Expr, v: Valuation): Tristate {
    match e
    case Neg(a) => if Strict(a, v) == No then Yes else No
    case Bin(op, a, b) => Apply(op, Strict(a, v), Strict(b, v))
    case _ => Eval(e, v)
  }

  function StrictOpt(e: Option<Expr>, v: Valuation): Tristate {
    if e.None? then Yes else Strict(e.value, v)
  }

  /** Against n, what expr_trans_compare answers is exactly the strict value, whatever negations stand for. */
  lemma {:induction false} TransCompareStrict(e: Expr, rel: Relation, v: Valuation)
    requires Admissible(v) && (rel == Eq || rel == Ne) && SpelledAtoms(e, v)
    ensures Eval(TransCompare(e, rel, NO), v) == Answer(Strict(e, v), rel, NO)
  {
    match e
    case Atom(s) =>
      assert Spelled(s, v);
      AtomAnswerExact(s, rel, NO, v);
    case Compare(_, _, _) =>
    case Neg(a) =>
      assert forall x :: IsAtomOf(x, a) ==> IsAtomOf(x, e);
      TransCompareStrict(a, Opposite(rel), v);
    case Bin(_, a, b) =>
      assert forall x :: IsAtomOf(x, a) || IsAtomOf(x, b) ==> IsAtomOf(x, e);
      TransCompareStrict(a, Eq, v);
      TransCompareStrict(b, Eq, v);
  }

  /** So it answers whether the value is n exactly where the two readings agree on that. */
  lemma TransCompareExact(e: Expr, rel: Relation, v: Valuation)
    requires Admissible(v) && (rel == Eq || rel == Ne) && SpelledAtoms(e, v)
    ensures Eval(TransCompare(e, rel, NO), v) == Answer(Eval(e, v), rel, NO) <==>
              (Strict(e, v) == No <==> Eval(e, v) == No)
  {
    TransCompareStrict(e, rel, v);
  }

  /** They agree altogether where no negated part is m. */
  lemma {:induction false} StrictIsValue(e: Expr, v: Valuation)
    requires TwoValuedNegations(e, v)
    ensures Strict(e, v) == Eval(e, v)
  {
    match e
    case Neg(a) => StrictIsValue(a, v);
    case Bin(_, a, b) =>
      StrictIsValue(a, v);
      StrictIsValue(b, v);
    case _ =>
  }

  /** An undefined symbol is not spelled: !FOO is y, but what becomes of it is n. */
  lemma UndefinedNegation(u: Symbol, v: Valuation)
    requires Admissible(v) && u.ty == Unknown && v.tri(u) == No && v.text(u) != "n"
    ensures Eval(Neg(Atom(u)), v) == Yes && Eval(TransCompare(Neg(Atom(u)), Ne, NO), v) == No
  {
    AtomAnswerExact(u, Eq, NO, v);
  }

  /** No atom of e is an S_OTHER symbol. */
  ghost predicate OrderedAtoms(e: Expr) {
    forall x :: IsAtomOf(x, e) ==> x.ty != Foreign
  }

  lemma {:induction false} TransCompareRegular(e: Expr, rel: Relation, c: Symbol)
    requires (rel == Eq || rel == Ne) && (c == YES || c == NO)
    requires OrderedAtoms(e) && Regular(e, Form(true, false))
    ensures Regular(TransCompare(e, rel, c), Form(true, false))
  {
    match e
    case Neg(a) =>
      assert forall x :: IsAtomOf(x, a) ==> IsAtomOf(x, e);
      TransCompareRegular(a, Opposite(rel), c);
    case Bin(_, a, b) =>
      assert forall x :: IsAtomOf(x, a) || IsAtomOf(x, b) ==> IsAtomOf(x, e);
      TransCompareRegular(a, Eq, c);
      TransCompareRegular(b, Eq, c);
    case Atom(s) => assert IsAtomOf(s, e);
    case _ =>
  }

  /** expr_contains_symbol. */
  predicate ContainsSymbol(e: Expr, s: Symbol) {
    match e
    case Atom(x) => x == s
    case Compare(_, a, b) => a == s || b == s
    case Neg(a) => ContainsSymbol(a, s)
    case Bin(_, a, b) => ContainsSymbol(a, s) || ContainsSymbol(b, s)
  }

  /** expr_depends_symbol. */
  predicate DependsOnSymbol(e: Expr, s: Symbol) {
    match e
    case Atom(x) => x == s
    case Compare(rel, a, b) => a == s && ((rel == Eq && (b == YES || b == MOD)) || (rel == Ne && b == NO))
    case Bin(op, a, b) => op == AndOp && (DependsOnSymbol(a, s) || DependsOnSymbol(b, s))
    case Neg(_) => false
  }

  /** A symbol is contained exactly if it is an atom of the expression or compared in it. */
  lemma {:induction false} ContainsExact(e: Expr, s: Symbol)
    ensures ContainsSymbol(e, s) <==> IsAtomOf(s, e) || IsComparedIn(s, e)
  {
    match e
    case Neg(a) => ContainsExact(a, s);
    case Bin(_, a, b) =>
      ContainsExact(a, s);
      ContainsExact(b, s);
    case _ =>
  }

  /** An expression depends on a symbol exactly if a conjunct is the symbol or says that it is y, m or not n. */
  lemma {:induction false} DependsExact(e: Expr, s: Symbol)
    ensures DependsOnSymbol(e, s) <==>
              (IsOperand(AndOp, Atom(s), e) || IsOperand(AndOp, Compare(Eq, s, YES), e)
               || IsOperand(AndOp, Compare(Eq, s, MOD), e) || IsOperand(AndOp, Compare(Ne, s, NO), e))
  {
    if IsOp(e, AndOp) {
      DependsExact(e.l, s);
      DependsExact(e.r, s);
    }
  }

  lemma {:induction false} DependsContains(e: Expr, s: Symbol)
    ensures DependsOnSymbol(e, s) ==> ContainsSymbol(e, s)
  {
    match e
    case Bin(_, a, b) =>
      DependsContains(a, s);
      DependsContains(b, s);
    case _ =>
  }

  /** A condition that depends on a symbol in this sense forces the symbol above n. */
  lemma {:induction false} DependsOnSymbolSound(e: Expr, s: Symbol, v: Valuation)
    requires Admissible(v) && IsLogical(s) && DependsOnSymbol(e, s) && Eval(e, v) != No
    ensures v.tri(s) != No
  {
    match e
    case Bin(_, a, b) =>
      if DependsOnSymbol(a, s) {
        DependsOnSymbolSound(a, s, v);
      } else {
        DependsOnSymbolSound(b, s, v);
      }
    case Compare(_, _, b) => CompareWithConstant(v, s, b);
    case Atom(_) =>
  }

  /** A condition that does not contain a symbol does not depend on its value in any way. */
  lemma {:induction false} NotContained(e: Expr, s: Symbol, v: Valuation, v': Valuation)
    requires !ContainsSymbol(e, s) && v.number == v'.number
    requires forall x: Symbol :: x != s ==> v.tri(x) == v'.tri(x) && v.text(x) == v'.text(x)
    ensures Eval(e, v) == Eval(e, v')
  {
    match e
    case Neg(a) => NotContained(a, s, v, v');
    case Bin(_, a, b) =>
      NotContained(a, s, v, v');
      NotContained(b, s, v, v');
    case _ =>
  }

  /** A symbol among the operands of a conjunction is always noticed. */
  lemma {:induction false} ConjunctIsNoticed(e: Expr, s: Symbol)
    requires IsOperand(AndOp, Atom(s), e)
    ensures DependsOnSymbol(e, s) && ContainsSymbol(e, s)
  {
    if IsOp(e, AndOp) {
      if IsOperand(AndOp, Atom(s), e.l) {
        ConjunctIsNoticed(e.l, s);
      } else {
        ConjunctIsNoticed(e.r, s);
      }
    }
  }

  /** Both conditions as menu_finalize compares them. */
  function Normalized(e: Option<Expr>): Expr {
    EliminateDups(Transform(TransCompareOpt(e)))
  }

  /** The symbol's own condition reduces to y against the item's. */
  predicate IsSuperset(prompt: Option<Expr>, dep: Option<Expr>) {
    EliminateEq(Normalized(dep), Normalized(prompt)).1 == Atom(YES)
  }

  /** menu_finalize puts an item with condition dep into the submenu of s, whose prompt condition is prompt. */
  predicate InSubmenu(s: Symbol, prompt: Option<Expr>, dep: Option<Expr>) {
    dep.Some? && ContainsSymbol(dep.value, s) && (DependsOnSymbol(dep.value, s) || IsSuperset(prompt, dep))
  }

  /**
    Where both conditions come out as conjunctions without constants, the prompt's is found to be a superset
    exactly if each of its operands is one of the item's.
   */
  lemma SupersetOfConjunctions(prompt: Option<Expr>, dep: Option<Expr>)
    requires var e, d := Normalized(prompt), Normalized(dep);
             && (IsOp(e, AndOp) || IsOp(d, AndOp)) && !IsOp(e, OrOp) && !IsOp(d, OrOp)
             && Chains.CleanChain(AndOp, e) && Chains.CleanChain(AndOp, d) && !Chains.Decided(AndOp, e)
    ensures IsSuperset(prompt, dep) <==> Chains.IsContained(AndOp, Normalized(prompt), Normalized(dep))
  {
    Chains.ContainedVanishes(AndOp, Normalized(dep), Normalized(prompt));
  }

  /** A symbol whose prompt has no condition takes every item whose condition mentions it. */
  lemma UnconditionalTakesAll(s: Symbol, dep: Option<Expr>)
    ensures InSubmenu(s, None, dep) <==> dep.Some? && (IsAtomOf(s, dep.value) || IsComparedIn(s, dep.value))
  {
    var d := Normalized(dep);
    assert Transform(Neg(Atom(NO))) == Atom(YES);
    assert Settled(Atom(YES));
    EliminateDupsSettles(Atom(YES));
    assert Normalized(None) == Atom(YES);
    if dep.Some? { ContainsExact(dep.value, s); }
    YesStays(d);
  }

  lemma YesStays(d: Expr)
    ensures EliminateEq(d, Atom(YES)).1 == Atom(YES)
  {
    if d.Bin? { YesStaysAt(d.op, d); }
  }

  lemma {:induction false} YesStaysAt(op: Op, d: Expr)
    ensures EliminateLevel(op, d, Atom(YES)).1 == Atom(YES)
  {
    if IsOp(d, op) {
      YesStaysAt(op, d.l);
      YesStaysAt(op, d.r);
    }
  }

  /** What the test needs to know about a condition. */
  ghost predicate Comparable(e: Option<Expr>) {
    e.Some? ==> OrderedAtoms(e.value) && Regular(e.value, Form(true, false))
  }

  ghost predicate SpelledOpt(e: Option<Expr>, v: Valuation) {
    e.Some? ==> SpelledAtoms(e.value, v)
  }

  lemma NormalizedSound(e: Option<Expr>, v: Valuation)
    requires Admissible(v) && Comparable(e) && SpelledOpt(e, v)
    ensures Eval(Normalized(e), v) == if StrictOpt(e, v) != No then Yes else No
  {
    var c := TransCompareOpt(e);
    if e.Some? {
      TransCompareStrict(e.value, Ne, v);
      TransCompareRegular(e.value, Ne, NO);
    }
    TransformSound(c, v);
    EliminateDupsCorrect(Transform(c), v, Form(true, true));
  }

  /**
    With all atoms spelled: if the symbol's condition reduces to y against the item's, it is on where the
    item's is.
   */
  lemma SpelledSuperset(prompt: Option<Expr>, dep: Option<Expr>, v: Valuation)
    requires Admissible(v) && Comparable(prompt) && Comparable(dep) && SpelledOpt(prompt, v) && SpelledOpt(dep, v)
    requires IsSuperset(prompt, dep) && StrictOpt(dep, v) != No
    ensures StrictOpt(prompt, v) != No
  {
    NormalizedSound(prompt, v);
    NormalizedSound(dep, v);
    EliminateEqClamp(Normalized(dep), Normalized(prompt), v);
  }

  predicate IsAtomOfEither(x: Symbol, prompt: Option<Expr>, dep: Option<Expr>) {
    (prompt.Some? && IsAtomOf(x, prompt.value)) || (dep.Some? && IsAtomOf(x, dep.value))
  }

  predicate IsComparedInEither(x: Symbol, prompt: Option<Expr>, dep: Option<Expr>) {
    (prompt.Some? && IsComparedIn(x, prompt.value)) || (dep.Some? && IsComparedIn(x, dep.value))
  }

  /** A symbol that does not spell its value, such as an undefined one, is not at once an atom and compared. */
  ghost predicate Separate(prompt: Option<Expr>, dep: Option<Expr>, v: Valuation) {
    forall x :: IsAtomOfEither(x, prompt, dep) && IsComparedInEither(x, prompt, dep) ==> Spelled(x, v)
  }

  /** v with the atoms of both conditions spelled. */
  function Respelled(v: Valuation, prompt: Option<Expr>, dep: Option<Expr>): Valuation {
    v.(text := (x: Symbol) => if IsAtomOfEither(x, prompt, dep) then TristateText(v.tri(x)) else v.text(x))
  }

  /** A condition reads the string values of the symbols it compares and no others. */
  lemma {:induction false} OnlyComparedTexts(e: Expr, v: Valuation, v': Valuation)
    requires v'.tri == v.tri && v'.number == v.number && forall x :: IsComparedIn(x, e) ==> v'.text(x) == v.text(x)
    ensures Eval(e, v') == Eval(e, v) && Strict(e, v') == Strict(e, v)
  {
    match e
    case Neg(a) =>
      assert forall x :: IsComparedIn(x, a) ==> IsComparedIn(x, e);
      OnlyComparedTexts(a, v, v');
    case Bin(_, a, b) =>
      assert forall x :: IsComparedIn(x, a) || IsComparedIn(x, b) ==> IsComparedIn(x, e);
      OnlyComparedTexts(a, v, v');
      OnlyComparedTexts(b, v, v');
    case Compare(_, a, b) => assert IsComparedIn(a, e) && IsComparedIn(b, e);
    case Atom(_) =>
  }

  lemma RespelledSame(e: Option<Expr>, prompt: Option<Expr>, dep: Option<Expr>, v: Valuation)
    requires Separate(prompt, dep, v) && (e == prompt || e == dep)
    ensures var v' := Respelled(v, prompt, dep);
            StrictOpt(e, v') == StrictOpt(e, v) && SpelledOpt(e, v')
  {
    if e.Some? {
      var v' := Respelled(v, prompt, dep);
      forall x | IsComparedIn(x, e.value) ensures v'.text(x) == v.text(x) {
        if IsAtomOfEither(x, prompt, dep) { assert Spelled(x, v); }
      }
      OnlyComparedTexts(e.value, v, v');
    }
  }

  /**
    If the symbol's condition reduces to y against the item's, it is on in the strict reading wherever the
    item's is. Undefined symbols do no harm as long as none is both used as a condition and compared: the test
    does not know their values, and would come out the same if they spelled n.
   */
  lemma SupersetStrict(prompt: Option<Expr>, dep: Option<Expr>, v: Valuation)
    requires Admissible(v) && Comparable(prompt) && Comparable(dep) && Separate(prompt, dep, v)
    requires IsSuperset(prompt, dep) && StrictOpt(dep, v) != No
    ensures StrictOpt(prompt, v) != No
  {
    var v' := Respelled(v, prompt, dep);
    RespelledSame(prompt, prompt, dep, v);
    RespelledSame(dep, prompt, dep, v);
    assert Admissible(v');
    SpelledSuperset(prompt, dep, v');
  }

  /** The strict reading does not call an item off that is on, nor a prompt on that is off. */
  predicate Faithful(prompt: Option<Expr>, dep: Option<Expr>, v: Valuation) {
    && (EvalOpt(dep, v) != No ==> StrictOpt(dep, v) != No)
    && (StrictOpt(prompt, v) != No ==> EvalOpt(prompt, v) != No)
  }

  /** Then the item cannot be visible without the prompt. */
  lemma SupersetSound(prompt: Option<Expr>, dep: Option<Expr>, v: Valuation)
    requires Admissible(v) && Comparable(prompt) && Comparable(dep) && Separate(prompt, dep, v)
    requires Faithful(prompt, dep, v) && IsSuperset(prompt, dep) && EvalOpt(dep, v) != No
    ensures EvalOpt(prompt, v) != No
  {
    SupersetStrict(prompt, dep, v);
  }

  /** An item in the submenu is only reachable where the symbol is above n or its prompt condition is. */
  lemma SubmenuSound(s: Symbol, prompt: Option<Expr>, dep: Option<Expr>, v: Valuation)
    requires Admissible(v) && IsLogical(s) && Comparable(prompt) && Comparable(dep) && Separate(prompt, dep, v)
    requires Faithful(prompt, dep, v) && InSubmenu(s, prompt, dep) && EvalOpt(dep, v) != No
    ensures v.tri(s) != No || EvalOpt(prompt, v) != No
  {
    if DependsOnSymbol(dep.value, s) {
      DependsOnSymbolSound(dep.value, s, v);
    } else {
      SupersetSound(prompt, dep, v);
    }
  }

  /** Two-valued negations are enough, as in tables without modules. */
  lemma TwoValuedFaithful(prompt: Option<Expr>, dep: Option<Expr>, v: Valuation)
    requires prompt.Some? ==> TwoValuedNegations(prompt.value, v)
    requires dep.Some? ==> TwoValuedNegations(dep.value, v)
    ensures Faithful(prompt, dep, v)
  {
    if prompt.Some? { StrictIsValue(prompt.value, v); }
    if dep.Some? { StrictIsValue(dep.value, v); }
  }

  /**
    The failing case for a negation at m: a prompt under A=n and an item under (S || Q) && !A, with A at m, S at n
    and Q at y.
   */
  lemma NegatedSuperset(a: Symbol, s: Symbol, q: Symbol, v: Valuation)
    requires Admissible(v) && a.ty == s.ty == q.ty == Trivalued && a != s && s != q && q != a
    requires v.tri(a) == Mod && v.tri(s) == No && v.tri(q) == Yes
    ensures var prompt, dep := Some(Compare(Eq, a, NO)), Some(Bin(AndOp, Bin(OrOp, Atom(s), Atom(q)), Neg(Atom(a))));
            && InSubmenu(s, prompt, dep) && Separate(prompt, dep, v) && !Faithful(prompt, dep, v)
            && EvalOpt(dep, v) == Mod && EvalOpt(prompt, v) == No && v.tri(s) == No
  {
    var prompt, dep := Some(Compare(Eq, a, NO)), Some(Bin(AndOp, Bin(OrOp, Atom(s), Atom(q)), Neg(Atom(a))));
    NegatedIsSuperset(a, s, q);
    CompareWithConstant(v, a, NO);
    forall x | IsAtomOfEither(x, prompt, dep) ensures Spelled(x, v) {
      ThreeAtoms(a, s, q, x);
    }
    assert Eval(Atom(s), v) == No && Eval(Atom(q), v) == Yes && Eval(Atom(a), v) == Mod;
    assert Eval(Bin(OrOp, Atom(s), Atom(q)), v) == Yes;
    assert Eval(Neg(Atom(a)), v) == Mod;
    assert Strict(Neg(Atom(a)), v) == No;
  }

  lemma ThreeAtoms(a: Symbol, s: Symbol, q: Symbol, x: Symbol)
    ensures IsAtomOf(x, Bin(AndOp, Bin(OrOp, Atom(s), Atom(q)), Neg(Atom(a)))) <==> x == s || x == q || x == a
  {
    assert IsAtomOf(x, Neg(Atom(a))) <==> IsAtomOf(x, Atom(a));
    assert IsAtomOf(x, Bin(OrOp, Atom(s), Atom(q))) <==> IsAtomOf(x, Atom(s)) || IsAtomOf(x, Atom(q));
  }

  lemma NegatedIsSuperset(a: Symbol, s: Symbol, q: Symbol)
    requires a.ty == s.ty == q.ty == Trivalued && a != s && s != q && q != a
    ensures IsSuperset(Some(Compare(Eq, a, NO)), Some(Bin(AndOp, Bin(OrOp, Atom(s), Atom(q)), Neg(Atom(a)))))
  {
    var x, y := Bin(OrOp, Compare(Ne, s, NO), Compare(Ne, q, NO)), Compare(Eq, a, NO);
    NegatedNormalized(a, s, q);
    assert ExprEq(y, y) && !ExprEq(x, y);
    assert EliminateLevel(AndOp, x, y) == (x, y) && EliminateLevel(AndOp, y, y) == (Atom(YES), Atom(YES));
    assert EliminateLevel(AndOp, Bin(AndOp, x, y), y) == (Bin(AndOp, x, Atom(YES)), Atom(YES));
    assert EliminateEq(Bin(AndOp, x, y), y).1 == Atom(YES);
  }

  lemma NegatedNormalized(a: Symbol, s: Symbol, q: Symbol)
    requires a.ty == s.ty == q.ty == Trivalued && a != s && s != q && q != a
    ensures Normalized(Some(Compare(Eq, a, NO))) == Compare(Eq, a, NO)
    ensures Normalized(Some(Bin(AndOp, Bin(OrOp, Atom(s), Atom(q)), Neg(Atom(a)))))
              == Bin(AndOp, Bin(OrOp, Compare(Ne, s, NO), Compare(Ne, q, NO)), Compare(Eq, a, NO))
  {
    var s0, q0, a1 := Compare(Eq, s, NO), Compare(Eq, q, NO), Compare(Ne, a, NO);
    var s1, q1, a0 := Compare(Ne, s, NO), Compare(Ne, q, NO), Compare(Eq, a, NO);
    var either, both := Bin(OrOp, s1, q1), Bin(AndOp, s0, q0);
    var e := Bin(AndOp, either, a0);
    var c := TransCompare(Bin(AndOp, Bin(OrOp, Atom(s), Atom(q)), Neg(Atom(a))), Ne, NO);
    assert TransCompare(Bin(OrOp, Atom(s), Atom(q)), Eq, NO) == both;
    assert TransCompare(Neg(Atom(a)), Eq, NO) == a1;
    assert c == Neg(Bin(OrOp, both, a1));
    assert Transform(s0) == s0 && Transform(q0) == q0 && Transform(a1) == a1;
    assert Transform(both) == both;
    assert Transform(Neg(s0)) == s1 && Transform(Neg(q0)) == q1 && Transform(Neg(a1)) == a0;
    assert Transform(Bin(OrOp, Neg(s0), Neg(q0))) == either;
    assert Transform(Neg(both)) == either;
    assert Transform(Bin(OrOp, both, a1)) == Bin(OrOp, both, a1);
    assert Transform(Bin(AndOp, Neg(both), Neg(a1))) == e;
    assert Transform(c) == e;
    NegatedSettled(s1, q1, a0);
    EliminateDupsSettles(a0);
    EliminateDupsSettles(e);
  }

  lemma NegatedSettled(x: Expr, y: Expr, z: Expr)
    requires x.Compare? && y.Compare? && z.Compare? && x.rel == y.rel == Ne && x.rhs == y.rhs == NO && x.lhs != y.lhs
    requires x.lhs.ty == y.lhs.ty == Trivalued
    ensures Settled(z) && Settled(Bin(AndOp, Bin(OrOp, x, y), z))
  {
    var either := Bin(OrOp, x, y);
    assert Operands(OrOp, x) == [x] && Operands(OrOp, y) == [y];
    assert Operands(AndOp, either) == [either] && Operands(AndOp, z) == [z];
    assert Operands(OrOp, either) == [x, y] && Operands(AndOp, Bin(AndOp, either, z)) == [either, z];
    assert JoinOp(OrOp, x, y).None? && JoinOp(OrOp, y, x).None?;
    assert JoinOp(AndOp, either, z).None? && JoinOp(AndOp, z, either).None?;
    assert Settled(x) && Settled(y) && Settled(either);
  }

  /** The failing case: a prompt under U and an item under S && U != n, with U undefined and S at y. */
  lemma UndefinedSuperset(u: Symbol, s: Symbol, v: Valuation)
    requires Admissible(v) && u.ty == Unknown && v.tri(u) == No
    requires v.text(u) != "n" && s.ty == Trivalued && v.tri(s) == Yes
    ensures var prompt, dep := Some(Atom(u)), Some(Bin(AndOp, Atom(s), Compare(Ne, u, NO)));
            IsSuperset(prompt, dep) && EvalOpt(dep, v) == Yes && EvalOpt(prompt, v) == No
  {
    var x, y := Compare(Ne, s, NO), Compare(Ne, u, NO);
    var prompt, dep := Some(Atom(u)), Some(Bin(AndOp, Atom(s), y));
    AtomAnswerExact(u, Ne, NO, v);
    TwoTestsNormalized(s, u);
    assert ExprEq(y, y) && !ExprEq(x, y);
    assert EliminateLevel(AndOp, Bin(AndOp, x, y), y) == (Bin(AndOp, x, Atom(YES)), Atom(YES)) by {
      assert EliminateLevel(AndOp, x, y) == (x, y) && EliminateLevel(AndOp, y, y) == (Atom(YES), Atom(YES));
    }
    assert EliminateEq(Bin(AndOp, x, y), y).1 == Atom(YES);
    assert Eval(dep.value, v) == And(Eval(Atom(s), v), Eval(y, v));
  }

  lemma TwoTestsNormalized(s: Symbol, u: Symbol)
    requires s.ty == Trivalued && u.ty == Unknown
    ensures Normalized(Some(Atom(u))) == Compare(Ne, u, NO)
    ensures Normalized(Some(Bin(AndOp, Atom(s), Compare(Ne, u, NO))))
              == Bin(AndOp, Compare(Ne, s, NO), Compare(Ne, u, NO))
  {
    var x, y := Compare(Ne, s, NO), Compare(Ne, u, NO);
    var e := Bin(AndOp, x, y);
    var c := TransCompare(Bin(AndOp, Atom(s), y), Ne, NO);
    var a, b := Compare(Eq, s, NO), Compare(Eq, u, NO);
    assert TransCompare(Atom(s), Eq, NO) == a && TransCompare(y, Eq, NO) == Neg(y);
    assert c == Neg(Bin(OrOp, a, Neg(y)));
    assert Transform(y) == y && Transform(a) == a && Transform(b) == b;
    assert Transform(Neg(y)) == b && Transform(Neg(a)) == x && Transform(Neg(b)) == y;
    assert Transform(Bin(OrOp, a, Neg(y))) == Bin(OrOp, a, b);
    assert Transform(Bin(AndOp, Neg(a), Neg(b))) == e;
    assert Transform(c) == e;
    assert Operands(AndOp, e) == [x, y];
    assert JoinOp(AndOp, x, y).None? && JoinOp(AndOp, y, x).None?;
    assert Settled(y) && Settled(e);
    EliminateDupsSettles(y);
    EliminateDupsSettles(e);
  }
}
