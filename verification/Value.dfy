/**
  What the values of an evaluated configuration are, stated from the declarations and user values alone: the
  visibility, the dependencies, the value and SYMBOL_WRITE of each symbol.
 */
module Values {
  import opened Tristates
  import opened Exprs
  import opened Configs
  import opened Settings

  /** x is no lower than a and b, and not m unless m is allowed. */
  predicate Fits(x: Tristate, m: bool, a: Tristate, b: Tristate) {
    (m || x != Mod) && Level(a) <= Level(x) && Level(b) <= Level(x)
  }

  /** x is the lowest value that fits. */
  ghost predicate IsLeast(x: Tristate, m: bool, a: Tristate, b: Tristate) {
    Fits(x, m, a, b) && forall y :: Fits(y, m, a, b) ==> Level(x) <= Level(y)
  }

  lemma LeastIs(x: Tristate, m: bool, a: Tristate, b: Tristate)
    requires x == if Or(a, b) == Mod && !m then Yes else Or(a, b)
    ensures IsLeast(x, m, a, b)
  {
  }

  /** Symbols of this type can be m: tristate symbols, with modules. */
  predicate HasM(t: Table, ty: SymbolType) {
    ty == Trivalued && t.modules != No
  }

  lemma {:induction false} PromptBounds(props: seq<Property>, v: Valuation)
    ensures forall p :: p in props && p.Prompt? ==> Level(EvalOpt(p.cond, v)) <= Level(PromptValue(props, v))
    ensures PromptValue(props, v) != No ==>
              exists p :: p in props && p.Prompt? && EvalOpt(p.cond, v) == PromptValue(props, v)
  {
    PromptIsMaximum(props, v);
    forall p | p in props && p.Prompt? ensures Level(EvalOpt(p.cond, v)) <= Level(PromptValue(props, v)) {
      var k :| 0 <= k < |props| && props[k] == p;
    }
  }

  /** A symbol is as visible as its prompts make it, m counting as y for a symbol that cannot be m. */
  lemma VisibilityExact(t: Table, user: User, s: seq<Result>, i: nat)
    requires Solution(t, user, s) && i < |s| && IsTyped(t.decls[i].ty)
    ensures var d, v := t.decls[i], ValuationOf(t, s);
            && (forall p :: p in d.props && p.Prompt? ==> Fits(s[i].visible, HasM(t, d.ty), EvalOpt(p.cond, v), No))
            && (s[i].visible != No ==>
                  exists p :: p in d.props && p.Prompt? && IsLeast(s[i].visible, HasM(t, d.ty), EvalOpt(p.cond, v), No))
  {
    var d, v := t.decls[i], ValuationOf(t, s);
    var x := PromptValue(d.props, v);
    TypedSolved(t, user, s, i);
    PromptBounds(d.props, v);
    if x != No {
      var p :| p in d.props && p.Prompt? && EvalOpt(p.cond, v) == x;
      LeastIs(s[i].visible, HasM(t, d.ty), EvalOpt(p.cond, v), No);
    }
  }

  /** The value of a dependency of a symbol of type ty whose expression is worth x. */
  lemma PromoteLeast(t: Table, ty: SymbolType, x: Tristate)
    ensures IsLeast(Promote(t, ty, x), ty != Boolean && (ty == Trivalued ==> t.modules != No), x, No)
  {
  }

  /** The three dependencies are worth their expressions, m counting as y for a bool symbol; without one, y, n and n. */
  lemma DependenciesExact(t: Table, user: User, s: seq<Result>, i: nat)
    requires Solution(t, user, s) && i < |s| && IsLogicalType(t.decls[i].ty)
    ensures var d, v, m := t.decls[i], ValuationOf(t, s), HasM(t, t.decls[i].ty);
            && IsLeast(s[i].dirDep, m, if d.dirDep.None? then Yes else Eval(d.dirDep.value, v), No)
            && IsLeast(s[i].revDep, m, if d.revDep.None? then No else Eval(d.revDep.value, v), No)
            && IsLeast(s[i].implied, m,
                       if d.implied.None? || s[i].dirDep == No then No else Eval(d.implied.value, v), No)
  {
    var d, v := t.decls[i], ValuationOf(t, s);
    TypedSolved(t, user, s, i);
    PromoteLeast(t, d.ty, EvalOpt(d.dirDep, v));
    PromoteLeast(t, d.ty, if d.revDep.None? then No else Eval(d.revDep.value, v));
    PromoteLeast(t, d.ty, if d.implied.None? || s[i].dirDep == No then No else Eval(d.implied.value, v));
  }

  /** The default of a bool or tristate symbol is x: what the first default that applies says, up to its condition. */
  ghost predicate IsDefault(d: Decl, v: Valuation, x: Tristate) {
    if exists p :: p in d.props && p.Default? && EvalOpt(p.cond, v) != No then
      exists k: nat :: IsFirst(d.props, v, k, (p: Property) => p.Default?)
        && (x == Eval(d.props[k].value, v) || x == EvalOpt(d.props[k].cond, v))
        && Level(x) <= Level(Eval(d.props[k].value, v)) && Level(x) <= Level(EvalOpt(d.props[k].cond, v))
    else x == No
  }

  lemma {:induction false} FirstOf(props: seq<Property>, v: Valuation, wanted: Property -> bool, p: Property)
    requires p in props && wanted(p) && EvalOpt(p.cond, v) != No
    ensures exists k: nat :: IsFirst(props, v, k, wanted)
  {
    if wanted(props[0]) && EvalOpt(props[0].cond, v) != No {
      assert IsFirst(props, v, 0, wanted);
    } else {
      FirstOf(props[1..], v, wanted, p);
      var k: nat :| IsFirst(props[1..], v, k, wanted);
      assert forall j :: 1 <= j < |props| ==> props[j] == props[1..][j - 1];
      assert IsFirst(props, v, k + 1, wanted);
    }
  }

  lemma DefaultTriIs(d: Decl, v: Valuation)
    ensures IsDefault(d, v, DefaultTri(d, v))
  {
    var wanted := (p: Property) => p.Default?;
    if p :| p in d.props && p.Default? && EvalOpt(p.cond, v) != No {
      FirstOf(d.props, v, wanted, p);
      var k: nat :| IsFirst(d.props, v, k, wanted);
      DefaultIsFirst(d.props, v, k);
    }
  }

  /** What the user wants, as far as the visibility lets. */
  function Wanted(x: Tristate, visible: Tristate): (r: Tristate)
    ensures Level(r) <= Level(x) && Level(r) <= Level(visible) && (r == x || r == visible)
  {
    if Level(x) <= Level(visible) then x else visible
  }

  lemma TriLeast(t: Table, d: Decl, start: Tristate, rev: Tristate, implied: Tristate)
    requires IsLogicalType(d.ty)
    ensures var x := Or(start, rev);
            IsLeast(if x == Mod && (EffectiveType(t, d.ty) == Boolean || implied == Yes) then Yes else x,
                    HasM(t, d.ty) && implied != Yes, start, rev)
  {
  }

  /**
    The value of a bool or tristate symbol is the lowest that is neither below its reverse dependency nor below
    what the user wants. An imply of y leaves no m.
   */
  lemma UserValueCounts(t: Table, user: User, s: seq<Result>, i: nat)
    requires Solution(t, user, s) && i < |s| && IsLogicalType(t.decls[i].ty)
    requires s[i].visible != No && user[i].Some?
    ensures IsLeast(s[i].curr.tri, HasM(t, t.decls[i].ty) && s[i].implied != Yes,
                    Wanted(user[i].value.tri, s[i].visible), s[i].revDep)
  {
    TypedSolved(t, user, s, i);
    TriLeast(t, t.decls[i], And(user[i].value.tri, s[i].visible), s[i].revDep, s[i].implied);
  }

  /** Where the user has no say the default and the imply take the place of the user's value. */
  lemma DefaultCounts(t: Table, user: User, s: seq<Result>, i: nat)
    requires Solution(t, user, s) && i < |s| && IsLogicalType(t.decls[i].ty)
    requires s[i].visible == No || user[i].None?
    ensures exists x :: IsDefault(t.decls[i], ValuationOf(t, s), x)
              && IsLeast(s[i].curr.tri, HasM(t, t.decls[i].ty) && s[i].implied != Yes, Or(x, s[i].implied), s[i].revDep)
  {
    var d, v := t.decls[i], ValuationOf(t, s);
    TypedSolved(t, user, s, i);
    DefaultTriIs(d, v);
    TriLeast(t, d, Or(DefaultTri(d, v), s[i].implied), s[i].revDep, s[i].implied);
  }

  // ------------------------------------------------------- texts and numbers

  predicate IsText(ty: SymbolType) {
    ty == Text || ty == Integer || ty == Hexadecimal
  }

  /** The user's text, or that of the symbol that the first default which applies names. */
  ghost predicate IsGiven(t: Table, user: User, s: seq<Result>, i: nat, x: string)
    requires i < |s| == |t.decls| == |user|
  {
    var d, v := t.decls[i], ValuationOf(t, s);
    if s[i].visible != No && user[i].Some? then x == user[i].value.text
    else if exists p :: p in d.props && p.Default? && EvalOpt(p.cond, v) != No then
      exists k: nat :: IsFirst(d.props, v, k, (p: Property) => p.Default?) && x == TextNamed(s, d.props[k].value)
    else x == ""
  }

  function TextNamed(s: seq<Result>, e: Expr): string {
    if e.Atom? && e.sym.id < |s| then s[e.sym.id].curr.text else ""
  }

  /** What the range at k makes of the numbers of symbol i. */
  ghost predicate Limits(t: Table, s: seq<Result>, i: nat, k: nat, lo: int, hi: int)
    requires i < |s| == |t.decls|
  {
    var d, v := t.decls[i], ValuationOf(t, s);
    && (d.ty == Integer || d.ty == Hexadecimal) && IsFirst(d.props, v, k, (p: Property) => p.Range?)
    && d.props[k].lo < |s| && d.props[k].hi < |s|
    && lo == BoundOf(t, s, d.props[k].lo, d.ty) && hi == BoundOf(t, s, d.props[k].hi, d.ty)
  }

  /** The number that symbol j stands for as a bound, read as its own type says or else as ty says. */
  function BoundOf(t: Table, s: seq<Result>, j: nat, ty: SymbolType): int
    requires j < |s| == |t.decls|
  {
    var own := t.decls[j].ty;
    NumberIn(t, s[j].curr.text, if own == Integer || own == Hexadecimal then own else ty)
  }

  function NumberIn(t: Table, text: string, ty: SymbolType): int {
    t.strtoll(text, if ty == Hexadecimal then 16 else 10)
  }

  ghost predicate NoLimits(t: Table, s: seq<Result>, i: nat)
    requires i < |s| == |t.decls|
  {
    forall k: nat, lo, hi :: !Limits(t, s, i, k, lo, hi)
  }

  lemma GivenIs(t: Table, user: User, s: seq<Result>, i: nat)
    requires Solution(t, user, s) && i < |s| && IsText(t.decls[i].ty)
    ensures IsGiven(t, user, s, i, TextOf(t, t.decls[i], user[i], ValuationOf(t, s), s))
  {
    var d, v := t.decls[i], ValuationOf(t, s);
    var wanted := (p: Property) => p.Default?;
    TypedSolved(t, user, s, i);
    if p :| p in d.props && p.Default? && EvalOpt(p.cond, v) != No {
      FirstOf(d.props, v, wanted, p);
      var k: nat :| IsFirst(d.props, v, k, wanted);
      DefaultIsFirst(d.props, v, k);
    }
  }

  /** Without a range that applies the value of a string, int or hex symbol is the text given. */
  lemma TextCounts(t: Table, user: User, s: seq<Result>, i: nat)
    requires WellFormed(t) && Solution(t, user, s) && i < |s| && IsText(t.decls[i].ty) && NoLimits(t, s, i)
    ensures IsGiven(t, user, s, i, s[i].curr.text)
  {
    var d, v := t.decls[i], ValuationOf(t, s);
    GivenIs(t, user, s, i);
    TypedSolved(t, user, s, i);
    var r := FirstRange(d.props, v);
    if (d.ty == Integer || d.ty == Hexadecimal) && r.Some? {
      var wanted := (p: Property) => p.Range?;
      FirstOf(d.props, v, wanted, r.value);
      var k: nat :| IsFirst(d.props, v, k, wanted);
      RangeIsFirst(d.props, v, k);
      assert EntryKnown(t, i) && PropKnown(t, d.props[k]);
      assert Limits(t, s, i, k, BoundOf(t, s, d.props[k].lo, d.ty), BoundOf(t, s, d.props[k].hi, d.ty));
    }
  }

  /** With one it is the text given, if that is within the range, or else the nearest bound, printed. */
  lemma NumberCounts(t: Table, user: User, s: seq<Result>, i: nat, k: nat, lo: int, hi: int)
    requires Solution(t, user, s) && i < |s| && Limits(t, s, i, k, lo, hi)
    ensures exists x :: IsGiven(t, user, s, i, x)
              && s[i].curr.text == (if NumberIn(t, x, t.decls[i].ty) < lo then t.show(lo, t.decls[i].ty)
                                    else if NumberIn(t, x, t.decls[i].ty) > hi then t.show(hi, t.decls[i].ty) else x)
  {
    GivenIs(t, user, s, i);
    RangeIsFirst(t.decls[i].props, ValuationOf(t, s), k);
    TypedSolved(t, user, s, i);
  }

  /** The user's text is the value of a visible symbol, unless a range applies that the number is not in. */
  lemma UserTextCounts(t: Table, user: User, s: seq<Result>, i: nat)
    requires WellFormed(t) && Solution(t, user, s) && i < |s| && IsText(t.decls[i].ty)
    requires s[i].visible != No && user[i].Some?
    requires forall k: nat, lo, hi :: Limits(t, s, i, k, lo, hi) ==>
               lo <= NumberIn(t, user[i].value.text, t.decls[i].ty) <= hi
    ensures s[i].curr.text == user[i].value.text
  {
    if NoLimits(t, s, i) {
      TextCounts(t, user, s, i);
    } else {
      var k: nat, lo, hi :| Limits(t, s, i, k, lo, hi);
      NumberCounts(t, user, s, i, k, lo, hi);
    }
  }

  /** A symbol without type that is no constant is n, reads as its name, and is not written. */
  lemma UndefinedIsName(t: Table, user: User, s: seq<Result>, i: nat)
    requires WellFormed(t) && Solution(t, user, s) && 3 <= i < |s| && !IsTyped(t.decls[i].ty)
    ensures s[i].curr.tri == No && s[i].curr.text == t.decls[i].name && !s[i].write
  {
    UntypedSolved(t, user, s, i);
  }

  // ------------------------------------------------------------ SYMBOL_WRITE

  /** The first default of symbol i that applies names a symbol. */
  ghost predicate NamesDefault(t: Table, s: seq<Result>, i: nat)
    requires i < |s| == |t.decls|
  {
    var d := t.decls[i];
    exists k: nat :: IsFirst(d.props, ValuationOf(t, s), k, (p: Property) => p.Default?) && d.props[k].value.Atom?
  }

  /**
    A bool or tristate symbol is written if it is visible or not n. A string or number is written if it is
    visible or has a default that names a symbol. AUTO symbols are never written.
   */
  lemma WriteExact(t: Table, user: User, s: seq<Result>, i: nat)
    requires Solution(t, user, s) && i < |s| && IsTyped(t.decls[i].ty)
    ensures t.decls[i].auto ==> !s[i].write
    ensures !t.decls[i].auto && IsLogicalType(t.decls[i].ty) ==>
              (s[i].write <==> s[i].visible != No || s[i].curr.tri != No)
    ensures !t.decls[i].auto && IsText(t.decls[i].ty) ==>
              (s[i].write <==> s[i].visible != No || NamesDefault(t, s, i))
  {
    var d, v := t.decls[i], ValuationOf(t, s);
    var wanted := (p: Property) => p.Default?;
    TypedSolved(t, user, s, i);
    if IsText(d.ty) {
      if k: nat :| IsFirst(d.props, v, k, wanted) { DefaultIsFirst(d.props, v, k); }
      var r := FirstDefault(d.props, v);
      if r.Some? {
        FirstOf(d.props, v, wanted, r.value);
        var k: nat :| IsFirst(d.props, v, k, wanted);
        DefaultIsFirst(d.props, v, k);
      }
    }
  }

  /** The full configuration has a line for exactly the symbols with SYMBOL_WRITE. */
  lemma InConfigExact(t: Table, user: User, s: seq<Result>, i: nat)
    requires Solution(t, user, s) && i < |s|
    ensures IsLogicalType(t.decls[i].ty) ==>
              (InConfig(t, s, i) <==> !t.decls[i].auto && (s[i].visible != No || s[i].curr.tri != No))
    ensures IsText(t.decls[i].ty) ==>
              (InConfig(t, s, i) <==> !t.decls[i].auto && (s[i].visible != No || NamesDefault(t, s, i)))
    ensures !IsTyped(t.decls[i].ty) ==> !InConfig(t, s, i)
  {
    if IsTyped(t.decls[i].ty) { WriteExact(t, user, s, i); }
  }

  // ------------------------------------------------- the minimal configuration

  /** x is the default of symbol i as a text. */
  ghost predicate IsDefaultText(t: Table, s: seq<Result>, i: nat, x: string)
    requires i < |s| == |t.decls|
  {
    var d, v := t.decls[i], ValuationOf(t, s);
    if exists p :: p in d.props && p.Default? && EvalOpt(p.cond, v) != No then
      exists k: nat :: IsFirst(d.props, v, k, (p: Property) => p.Default?) && x == TextNamed(s, d.props[k].value)
    else x == ""
  }

  lemma StringDefaultIs(t: Table, s: seq<Result>, i: nat)
    requires i < |s| == |t.decls| && IsText(t.decls[i].ty)
    ensures IsDefaultText(t, s, i, StringDefault(t, t.decls[i], ValuationOf(t, s), s))
  {
    var d, v := t.decls[i], ValuationOf(t, s);
    var wanted := (p: Property) => p.Default?;
    if p :| p in d.props && p.Default? && EvalOpt(p.cond, v) != No {
      FirstOf(d.props, v, wanted, p);
      var k: nat :| IsFirst(d.props, v, k, wanted);
      DefaultIsFirst(d.props, v, k);
    }
  }

  /** A string or number that shows its default as it stands has no line. */
  lemma NoLineForDefault(t: Table, s: seq<Result>, i: nat)
    requires i < |s| == |t.decls| && IsText(t.decls[i].ty)
    requires forall x :: IsDefaultText(t, s, i, x) ==> s[i].curr.text == x
    ensures !Written(t, s, i)
  {
    StringDefaultIs(t, s, i);
  }

  /** Without its line symbol i would not keep its value. */
  ghost predicate IsNeeded(t: Table, s: seq<Result>, i: nat)
    requires i < |s| == |t.decls|
  {
    var d, v := t.decls[i], ValuationOf(t, s);
    !IsText(d.ty) || d.ty == Text || s[i].curr.text != Validated(t, d, StringDefault(t, d, v, s), v, s)
  }

  /**
    No line of a minimal file can be left out: every line of a bool, tristate or string symbol is needed, and
    that of a number unless its range makes the default into the value shown.
   */
  lemma LineNeeded(t: Table, user: User, rank: seq<nat>, s: seq<Result>, i: nat, s': seq<Result>)
    requires Posed(t, user, rank, s) && i < |s| && Written(t, s, i)
    requires Solution(t, Saved(t, s)[i := None], s')
    ensures IsNeeded(t, s, i) ==> s' != s
    ensures !IsNeeded(t, s, i) && (forall j :: 0 <= j < |s| ==> !Forgotten(t, user, s, j)) ==> s' == s
  {
    var user' := Saved(t, s)[i := None];
    var d, v := t.decls[i], ValuationOf(t, s);
    RestoredExact(t, user, user', rank, s, s');
    TypedSolved(t, user, s, i);
    if IsLogicalType(d.ty) { DefaultShown(t, d, v, s); }
    assert SameAt(t, user', s, i) <==> !IsNeeded(t, s, i);
    if !IsNeeded(t, s, i) && forall j :: 0 <= j < |s| ==> !Forgotten(t, user, s, j) {
      forall j | 0 <= j < |s| ensures SameAt(t, user', s, j) {
        if j != i && IsTyped(t.decls[j].ty) { SavedValueSame(t, user, s, j); }
      }
    }
  }
}
