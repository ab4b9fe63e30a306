/**
  Changing a value and saving a configuration: sym_tristate_within_range and sym_get_string_default of
  symbol.c, and the choice of lines conf_write_defconfig of confdata.c makes.
 */
module Settings {
  import opened Tristates
  import opened Exprs
  import opened Configs

  predicate IsLogicalType(ty: SymbolType) {
    ty == Boolean || ty == Trivalued
  }

  /** sym_tristate_within_range for a symbol declared d that is not a choice value. */
  predicate WithinRange(t: Table, d: Decl, r: Result, x: Tristate) {
    && r.visible != No
    && IsLogicalType(d.ty)
    && !(EffectiveType(t, d.ty) == Boolean && x == Mod)
    && Level(r.visible) > Level(r.revDep)
    && !(r.implied == Yes && x == Mod)
    && Level(r.revDep) <= Level(x) <= Level(r.visible)
  }

  /** Changing the user value of i leaves every other symbol of no higher rank as it was. */
  lemma {:induction false} LowerUnaffected(t: Table, user: User, user': User, rank: seq<nat>, s: seq<Result>,
                                           s': seq<Result>, i: nat, j: nat)
    requires Acyclic(t, rank) && Solution(t, user, s) && Solution(t, user', s') && i < |s| && j < |s|
    requires forall k :: 0 <= k < |user| && k != i ==> user'[k] == user[k]
    requires j != i && rank[j] <= rank[i]
    ensures s'[j] == s[j]
    decreases rank[j]
  {
    assert LowerReads(t, rank, j);
    forall k | k in Reads(t.decls[j]) ensures s'[k].curr == s[k].curr {
      LowerUnaffected(t, user, user', rank, s, s', i, k);
    }
    CalcReads(t, user, j, s, s');
    SameUser(t, user, user', j, s');
    assert SolvedAt(t, user, s, j) && SolvedAt(t, user', s', j);
  }

  lemma SameUser(t: Table, user: User, user': User, j: nat, s: seq<Result>)
    requires j < |t.decls| == |s| == |user| == |user'| && user[j] == user'[j]
    ensures Calc(t, user, j, s) == Calc(t, user', j, s)
  {
  }

  /** What symbol i reads is not affected by its own user value. */
  lemma OwnReadsUnaffected(t: Table, user: User, user': User, rank: seq<nat>, s: seq<Result>, s': seq<Result>, i: nat)
    requires Acyclic(t, rank) && Solution(t, user, s) && Solution(t, user', s') && i < |s|
    requires forall k :: 0 <= k < |user| && k != i ==> user'[k] == user[k]
    ensures AgreeOn(Reads(t.decls[i]), s, s')
  {
    assert LowerReads(t, rank, i);
    forall k | k in Reads(t.decls[i]) ensures s'[k].curr == s[k].curr {
      LowerUnaffected(t, user, user', rank, s, s', i, k);
    }
  }

  /** A value sym_tristate_within_range accepts is the value the next evaluation gives. */
  lemma AcceptedValueIsReached(t: Table, user: User, rank: seq<nat>, s: seq<Result>, i: nat, x: Value, s': seq<Result>)
    requires Acyclic(t, rank) && Solution(t, user, s) && i < |s|
    requires WithinRange(t, t.decls[i], s[i], x.tri)
    requires Solution(t, user[i := Some(x)], s')
    ensures s'[i].curr.tri == x.tri
  {
    OwnReadsUnaffected(t, user, user[i := Some(x)], rank, s, s', i);
    DeclReads(t, t.decls[i], Some(x), s, s');
    TypedSolved(t, user, s, i);
    TypedSolved(t, user[i := Some(x)], s', i);
  }

  /**
    And it accepts no less: exactly the values not above the visibility that the next evaluation gives, provided
    that the symbol can be changed at all.
   */
  lemma WithinRangeExact(t: Table, user: User, rank: seq<nat>, s: seq<Result>, i: nat, x: Value, s': seq<Result>)
    requires Acyclic(t, rank) && Solution(t, user, s) && i < |s| && IsLogicalType(t.decls[i].ty)
    requires Solution(t, user[i := Some(x)], s')
    ensures WithinRange(t, t.decls[i], s[i], x.tri) <==> Settable(s[i], x.tri) && s'[i].curr.tri == x.tri
  {
    OwnReadsUnaffected(t, user, user[i := Some(x)], rank, s, s', i);
    DeclReads(t, t.decls[i], Some(x), s, s');
    TypedSolved(t, user, s, i);
    TypedSolved(t, user[i := Some(x)], s', i);
  }

  /** The symbol is not held by a select, and its prompt lets x. */
  predicate Settable(r: Result, x: Tristate) {
    Level(r.revDep) < Level(r.visible) && Level(x) <= Level(r.visible)
  }

  /**
    A visible symbol whose value exceeds its visibility without a select or an imply to hold it there. A
    default is not limited by the visibility of the prompt, so a tristate symbol with a prompt that is
    visible at m can show y.
   */
  predicate Capped(r: Result) {
    r.visible == Mod && r.curr.tri == Yes && r.revDep != Yes && r.implied != Yes
  }

  /**
    Setting a symbol to the value it shows: sym_set_tristate_value accepts this without a look at the
    range and keeps all caches. That is right exactly when the symbol is not capped; the next evaluation
    of a capped symbol gives another value.
   */
  lemma ShownValueKept(t: Table, user: User, rank: seq<nat>, s: seq<Result>, i: nat, x: Value)
    requires Posed(t, user, rank, s) && i < |s| && IsLogicalType(t.decls[i].ty) && x.tri == s[i].curr.tri
    ensures Solution(t, user[i := Some(x)], s) <==> !Capped(s[i])
  {
    var user' := user[i := Some(x)];
    forall j | 0 <= j < |s| && j != i ensures SolvedAt(t, user', s, j) {
      SameUser(t, user, user', j, s);
      assert SolvedAt(t, user, s, j);
    }
    ShownValueAt(t, user, s, i, x);
  }

  lemma ShownValueAt(t: Table, user: User, s: seq<Result>, i: nat, x: Value)
    requires Solution(t, user, s) && i < |s| && IsLogicalType(t.decls[i].ty) && x.tri == s[i].curr.tri
    ensures SolvedAt(t, user[i := Some(x)], s, i) <==> !Capped(s[i])
  {
    TypedSolved(t, user, s, i);
  }

  /** A tristate symbol with a prompt at m and a default of y. */
  function PromptAtM(): Decl {
    Decl(Trivalued, "A", false, [Prompt(Some(Atom(MOD))), Default(None, Atom(YES))], None, None, None, false)
  }

  lemma PromptAtMVisible(t: Table, v: Valuation)
    requires t.modules == Yes && v.tri(MOD) == Mod && v.tri(YES) == Yes
    ensures VisibleOf(t, PromptAtM(), v) == Mod && DefaultTri(PromptAtM(), v) == Yes
  {
    var props := PromptAtM().props;
    assert PromptValue(props[1..], v) == PromptValue(props[1..][1..], v) == No;
    assert FirstDefault(props[1..], v) == Some(props[1]);
  }

  /** Such a symbol is capped. */
  lemma CappedHappens(t: Table, user: User, rank: seq<nat>, s: seq<Result>)
    requires t.modules == Yes && t.decls == [Constant("n"), Constant("m"), Constant("y"), PromptAtM()]
    requires user == [None, None, None, None] && Posed(t, user, rank, s)
    ensures Capped(s[3])
  {
    ConstantsSolved(t, user, s);
    PromptAtMVisible(t, ValuationOf(t, s));
    TypedSolved(t, user, s, 3);
  }

  /** The last loop of conf_read for a file that needs no saving: invisible symbols lose their user value. */
  function Tidied(user: User, s: seq<Result>): (r: User)
    requires |user| == |s|
    ensures |r| == |user| && forall i :: 0 <= i < |s| && s[i].visible != No ==> r[i] == user[i]
    ensures forall i :: 0 <= i < |s| && s[i].visible == No ==> r[i] == None
  {
    seq(|s|, i requires 0 <= i < |s| => if s[i].visible == No then None else user[i])
  }

  /** That changes no value now. */
  lemma TidyingKeepsValues(t: Table, user: User, s: seq<Result>)
    requires |user| == |t.decls| == |s|
    ensures Solution(t, Tidied(user, s), s) <==> Solution(t, user, s)
  {
    forall i | 0 <= i < |s| ensures SolvedAt(t, Tidied(user, s), s, i) <==> SolvedAt(t, user, s, i) {
      TidyingKeepsValue(t, user, s, i);
    }
  }

  lemma TidyingKeepsValue(t: Table, user: User, s: seq<Result>, i: nat)
    requires |user| == |t.decls| == |s| && i < |s|
    ensures SolvedAt(t, Tidied(user, s), s, i) <==> SolvedAt(t, user, s, i)
  {
    var d, v := t.decls[i], ValuationOf(t, s);
    if s[i].visible == No && IsTyped(d.ty) && VisibleOf(t, d, v) == No {
      assert Calc(t, Tidied(user, s), i, s) == Calc(t, user, i, s);
    }
  }

  // ------------------------------------------------------- saving a minimal file

  /** sym_get_string_default. */
  function StringDefault(t: Table, d: Decl, v: Valuation, s: seq<Result>): string
    requires |s| == |t.decls|
  {
    if IsLogicalType(d.ty) then
      var x := Or(DefaultTri(d, v), RevDepOf(t, d, v));
      var y := if x == Mod && (t.modules == No || d.ty == Boolean) then Yes else x;
      TristateText(if Level(y) < Level(ImpliedOf(t, d, v)) then ImpliedOf(t, d, v) else y)
    else
      match DefaultSource(d, v)
      case None => ""
      case Some(j) => if j < |s| then s[j].curr.text else ""
  }

  /** conf_write_defconfig writes a line for symbol i. */
  predicate Written(t: Table, s: seq<Result>, i: nat)
    requires i < |s| == |t.decls|
  {
    var d := t.decls[i];
    && IsTyped(d.ty)
    && s[i].write
    && Level(s[i].visible) > Level(s[i].revDep)
    && StringValue(t, d.ty, s[i].curr) != StringDefault(t, d, ValuationOf(t, s), s)
  }

  /** The user value that reading the line of symbol i gives. */
  function SavedValue(t: Table, r: Result, i: nat): Value
    requires i < |t.decls|
  {
    if IsLogicalType(t.decls[i].ty) then Value(r.curr.tri, "") else Value(No, r.curr.text)
  }

  /** The user values after reading back the file. */
  function Saved(t: Table, s: seq<Result>): User
    requires |s| == |t.decls|
  {
    seq(|s|, i requires 0 <= i < |s| => if Written(t, s, i) then Some(SavedValue(t, s[i], i)) else None)
  }

  /** sym_is_changable, and not AUTO: the symbol is written unless it shows its default. */
  predicate Changeable(t: Table, s: seq<Result>, i: nat)
    requires i < |s| == |t.decls|
  {
    !t.decls[i].auto && Level(s[i].visible) > Level(s[i].revDep)
  }

  /** The user has set the symbol, and the user value counts. */
  predicate SetByUser(user: User, s: seq<Result>, i: nat)
    requires i < |s| == |user|
  {
    user[i].Some? && s[i].visible != No
  }

  /** The value of a string, int or hex symbol that is not validated as it is. */
  predicate Unsteady(t: Table, s: seq<Result>, i: nat)
    requires i < |s| == |t.decls|
  {
    Validated(t, t.decls[i], s[i].curr.text, ValuationOf(t, s), s) != s[i].curr.text
  }

  /**
    The symbols a minimal file forgets. They are set by the user and visible, but skipped, because a select
    holds them at their visibility or because they are AUTO, while the default would give something else. For
    a tristate symbol that takes a visibility and a select of m and a default of y; for a string it takes a
    select of a string symbol, which menu.c only warns about. A number is also lost where its range does not
    accept the bound that it has been set to.
   */
  predicate Forgotten(t: Table, user: User, s: seq<Result>, i: nat)
    requires i < |s| == |t.decls| == |user|
  {
    var d, v := t.decls[i], ValuationOf(t, s);
    if !IsTyped(d.ty) then false
    else if Changeable(t, s, i) then !IsLogicalType(d.ty) && Unsteady(t, s, i)
    else
      && SetByUser(user, s, i)
      && if IsLogicalType(d.ty) then
           if d.auto then TristateText(s[i].curr.tri) != StringDefault(t, d, v, s)
           else s[i].visible == Mod && s[i].revDep == Mod && s[i].implied != Yes && DefaultTri(d, v) == Yes
         else s[i].curr.text != Validated(t, d, StringDefault(t, d, v, s), v, s)
  }

  /** The same symbol as before, selected by a tristate symbol B whose default is m. */
  lemma ForgottenHappens(t: Table, user: User, rank: seq<nat>, s: seq<Result>)
    requires t.modules == Yes
    requires t.decls == [Constant("n"), Constant("m"), Constant("y"), DefaultM(),
                         PromptAtM().(revDep := Some(Atom(Symbol(3, Trivalued, false))))]
    requires user == [None, None, None, None, Some(Value(Mod, ""))] && Posed(t, user, rank, s)
    ensures Forgotten(t, user, s, 4) && s[4].curr.tri == Mod
  {
    var v := ValuationOf(t, s);
    ConstantsSolved(t, user, s);
    assert FirstDefault(DefaultM().props, v) == Some(DefaultM().props[0]);
    assert PromptValue(DefaultM().props, v) == PromptValue(DefaultM().props[1..], v) == No;
    TypedSolved(t, user, s, 3);
    SelectedPromptAtM(t, v);
    TypedSolved(t, user, s, 4);
  }

  function DefaultM(): Decl {
    Decl(Trivalued, "B", false, [Default(None, Atom(MOD))], None, None, None, false)
  }

  lemma SelectedPromptAtM(t: Table, v: Valuation)
    requires t.modules == Yes && v.tri(MOD) == Mod && v.tri(YES) == Yes
    ensures var d := PromptAtM().(revDep := Some(Atom(Symbol(3, Trivalued, false))));
            && VisibleOf(t, d, v) == Mod && DefaultTri(d, v) == Yes
            && RevDepOf(t, d, v) == v.tri(Symbol(3, Trivalued, false))
  {
    PromptAtMVisible(t, v);
  }

  /** With the saved user value, and the other symbols as before, symbol i has its old value unless it is forgotten. */
  lemma SavedValueSame(t: Table, user: User, s: seq<Result>, i: nat)
    requires Solution(t, user, s) && i < |s| && IsTyped(t.decls[i].ty)
    ensures var v := ValuationOf(t, s);
            CurrOf(t, t.decls[i], Saved(t, s)[i], v, s) == s[i].curr <==> !Forgotten(t, user, s, i)
  {
    if IsLogicalType(t.decls[i].ty) {
      SavedTristateSame(t, user, s, i);
      TypedSolved(t, user, s, i);
    } else {
      SavedTextSame(t, user, s, i);
    }
  }

  /** For bool and tristate symbols the default is the value that evaluation gives without a user value. */
  lemma DefaultShown(t: Table, d: Decl, v: Valuation, s: seq<Result>)
    requires |s| == |t.decls| && IsLogicalType(d.ty)
    ensures StringDefault(t, d, v, s) == TristateText(TriOf(t, d, None, v))
  {
  }

  lemma SavedTristateSame(t: Table, user: User, s: seq<Result>, i: nat)
    requires Solution(t, user, s) && i < |s| && IsLogicalType(t.decls[i].ty)
    ensures TriOf(t, t.decls[i], Saved(t, s)[i], ValuationOf(t, s)) == s[i].curr.tri <==> !Forgotten(t, user, s, i)
  {
    var d, v := t.decls[i], ValuationOf(t, s);
    TypedSolved(t, user, s, i);
    DefaultShown(t, d, v, s);
    if Changeable(t, s, i) {
      ShownAgain(t, user, s, i);
      assert TristateText(TriOf(t, d, None, v)) == TristateText(s[i].curr.tri) ==>
               TriOf(t, d, None, v) == s[i].curr.tri;
    } else {
      assert Saved(t, s)[i] == None;
    }
  }

  /** A changeable symbol set to the value it shows shows it again. */
  lemma ShownAgain(t: Table, user: User, s: seq<Result>, i: nat)
    requires Solution(t, user, s) && i < |s| && IsLogicalType(t.decls[i].ty) && Changeable(t, s, i)
    ensures Written(t, s, i) ==>
              TriOf(t, t.decls[i], Some(Value(s[i].curr.tri, "")), ValuationOf(t, s)) == s[i].curr.tri
    ensures !Written(t, s, i) ==> TristateText(s[i].curr.tri) == StringDefault(t, t.decls[i], ValuationOf(t, s), s)
  {
    TypedSolved(t, user, s, i);
  }

  lemma SavedTextSame(t: Table, user: User, s: seq<Result>, i: nat)
    requires Solution(t, user, s) && i < |s| && IsTyped(t.decls[i].ty) && !IsLogicalType(t.decls[i].ty)
    ensures var v := ValuationOf(t, s);
            CurrOf(t, t.decls[i], Saved(t, s)[i], v, s) == s[i].curr <==> !Forgotten(t, user, s, i)
  {
    TypedSolved(t, user, s, i);
  }

  /** Reading back other user values gives the same configuration exactly if each value is the same by itself. */
  lemma RestoredExact(t: Table, user: User, user': User, rank: seq<nat>, s: seq<Result>, s': seq<Result>)
    requires Acyclic(t, rank) && Solution(t, user, s) && Solution(t, user', s')
    ensures s' == s <==> forall i :: 0 <= i < |s| ==> SameAt(t, user', s, i)
  {
    if s' == s {
      forall i | 0 <= i < |s| ensures SameAt(t, user', s, i) {
        if IsTyped(t.decls[i].ty) { TypedSolved(t, user', s', i); }
      }
    }
    if forall i :: 0 <= i < |s| ==> SameAt(t, user', s, i) {
      forall i | 0 <= i < |s| ensures s'[i] == s[i] {
        RestoredAt(t, user, user', rank, s, s', i);
      }
    }
  }

  /** With the user value of user', and the other symbols as before, symbol i has its old value. */
  ghost predicate SameAt(t: Table, user': User, s: seq<Result>, i: nat)
    requires i < |s| == |t.decls| == |user'|
  {
    IsTyped(t.decls[i].ty) ==> CurrOf(t, t.decls[i], user'[i], ValuationOf(t, s), s) == s[i].curr
  }

  lemma {:induction false} RestoredAt(t: Table, user: User, user': User, rank: seq<nat>, s: seq<Result>,
                                      s': seq<Result>, i: nat)
    requires Acyclic(t, rank) && Solution(t, user, s) && Solution(t, user', s') && i < |s|
    requires forall i :: 0 <= i < |s| ==> SameAt(t, user', s, i)
    ensures s'[i] == s[i]
    decreases rank[i]
  {
    assert LowerReads(t, rank, i);
    forall k | k in Reads(t.decls[i]) ensures s'[k].curr == s[k].curr {
      RestoredAt(t, user, user', rank, s, s', k);
    }
    if IsTyped(t.decls[i].ty) {
      assert SameAt(t, user', s, i);
      DeclReads(t, t.decls[i], user'[i], s, s');
      TypedSolved(t, user, s, i);
      TypedSolved(t, user', s', i);
    } else {
      UntypedSolved(t, user, s, i);
      UntypedSolved(t, user', s', i);
    }
  }

  /**
    Writing a minimal file, reading it back and evaluating again gives every symbol its old value
    exactly when no symbol is forgotten.
   */
  lemma DefconfigRoundTrip(t: Table, user: User, rank: seq<nat>, s: seq<Result>, s': seq<Result>)
    requires WellFormed(t) && Acyclic(t, rank)
    requires Solution(t, user, s) && Solution(t, Saved(t, s), s')
    ensures s' == s <==> forall i :: 0 <= i < |s| ==> !Forgotten(t, user, s, i)
  {
    RestoredExact(t, user, Saved(t, s), rank, s, s');
    forall i | 0 <= i < |s| ensures SameAt(t, Saved(t, s), s, i) <==> !Forgotten(t, user, s, i) {
      if IsTyped(t.decls[i].ty) { SavedValueSame(t, user, s, i); }
    }
  }

  /** The bounds of the range that applies to an int or hex symbol. */
  function Bounds(t: Table, s: seq<Result>, i: nat): Option<(int, int)>
    requires i < |s| == |t.decls|
  {
    var d := t.decls[i];
    if d.ty != Integer && d.ty != Hexadecimal then None
    else
      match FirstRange(d.props, ValuationOf(t, s))
      case None => None
      case Some(p) =>
        if p.lo < |s| && p.hi < |s| then
          Some((RangeValue(t, p.lo, s[p.lo].curr.text, BaseOf(d.ty)),
                RangeValue(t, p.hi, s[p.hi].curr.text, BaseOf(d.ty))))
        else None
  }

  /** Where the bounds, once printed, are read as themselves, only an empty range makes a value unsteady. */
  lemma UnsteadyExact(t: Table, user: User, s: seq<Result>, i: nat)
    requires Solution(t, user, s) && i < |s| && IsTyped(t.decls[i].ty) && !IsLogicalType(t.decls[i].ty)
    requires var b, ty := Bounds(t, s, i), t.decls[i].ty;
             b.Some? ==> forall x :: x == b.value.0 || x == b.value.1 ==> t.strtoll(t.show(x, ty), BaseOf(ty)) == x
    ensures Unsteady(t, s, i) <==> Bounds(t, s, i).Some? && Bounds(t, s, i).value.0 > Bounds(t, s, i).value.1
  {
    TypedSolved(t, user, s, i);
  }

  /**
    Nothing that is invisible is ever forgotten. Among visible symbols that are not AUTO, bool symbols are not,
    nor are strings that nothing selects and numbers in the same way if their range accepts its bounds.
   */
  lemma NothingForgotten(t: Table, user: User, s: seq<Result>, i: nat)
    requires Solution(t, user, s) && i < |s|
    requires s[i].visible != No ==>
               (!t.decls[i].auto && (t.decls[i].ty != Trivalued || t.modules == No)
                && (!IsLogicalType(t.decls[i].ty) ==> t.decls[i].revDep.None? && !Unsteady(t, s, i)))
    ensures !Forgotten(t, user, s, i)
  {
    if IsTyped(t.decls[i].ty) { TypedSolved(t, user, s, i); }
  }

  // ------------------------------------------------------- saving a full file

  /** conf_write writes a line for symbol i, if it has a menu node. */
  predicate InConfig(t: Table, s: seq<Result>, i: nat)
    requires i < |s| == |t.decls|
  {
    IsTyped(t.decls[i].ty) && s[i].write
  }

  /** The user values after reading back the file of conf_write. */
  function Stored(t: Table, s: seq<Result>): User
    requires |s| == |t.decls|
  {
    seq(|s|, i requires 0 <= i < |s| => if InConfig(t, s, i) then Some(SavedValue(t, s[i], i)) else None)
  }

  /**
    The symbols a full file does not bring back: the capped ones, numbers whose range does not accept the bound
    they have been set to, and AUTO symbols with a prompt that the user has set.
   */
  predicate Lost(t: Table, user: User, s: seq<Result>, i: nat)
    requires i < |s| == |t.decls| == |user|
  {
    var d, v := t.decls[i], ValuationOf(t, s);
    if !IsTyped(d.ty) then false
    else if InConfig(t, s, i) then
      if IsLogicalType(d.ty) then Capped(s[i]) else s[i].visible != No && Unsteady(t, s, i)
    else
      && SetByUser(user, s, i)
      && if IsLogicalType(d.ty) then TristateText(s[i].curr.tri) != StringDefault(t, d, v, s)
         else s[i].curr.text != Validated(t, d, StringDefault(t, d, v, s), v, s)
  }

  lemma StoredTristateSame(t: Table, user: User, s: seq<Result>, i: nat)
    requires Solution(t, user, s) && i < |s| && IsLogicalType(t.decls[i].ty)
    ensures TriOf(t, t.decls[i], Stored(t, s)[i], ValuationOf(t, s)) == s[i].curr.tri <==> !Lost(t, user, s, i)
  {
    var d, v := t.decls[i], ValuationOf(t, s);
    TypedSolved(t, user, s, i);
    if InConfig(t, s, i) {
      ShownValueAt(t, user, s, i, SavedValue(t, s[i], i));
      TypedSolved(t, user, s, i);
      SolvedExact(t, user[i := Some(SavedValue(t, s[i], i))], s, i);
    } else {
      DefaultShown(t, d, v, s);
    }
  }

  lemma SolvedExact(t: Table, user: User, s: seq<Result>, i: nat)
    requires i < |s| == |t.decls| == |user| && IsTyped(t.decls[i].ty)
    ensures var d, v := t.decls[i], ValuationOf(t, s);
            SolvedAt(t, user, s, i) <==>
              s[i] == Result(CurrOf(t, d, user[i], v, s), VisibleOf(t, d, v), DirDepOf(t, d, v), RevDepOf(t, d, v),
                             ImpliedOf(t, d, v), WriteOf(t, d, user[i], v))
  {
  }

  lemma StoredTextSame(t: Table, user: User, s: seq<Result>, i: nat)
    requires Solution(t, user, s) && i < |s| && IsTyped(t.decls[i].ty) && !IsLogicalType(t.decls[i].ty)
    ensures var v := ValuationOf(t, s);
            CurrOf(t, t.decls[i], Stored(t, s)[i], v, s) == s[i].curr <==> !Lost(t, user, s, i)
  {
    TypedSolved(t, user, s, i);
  }

  /**
    Writing a full file, reading it back and evaluating again gives the old configuration exactly when nothing
    is lost.
   */
  lemma ConfigRoundTrip(t: Table, user: User, rank: seq<nat>, s: seq<Result>, s': seq<Result>)
    requires WellFormed(t) && Acyclic(t, rank)
    requires Solution(t, user, s) && Solution(t, Stored(t, s), s')
    ensures s' == s <==> forall i :: 0 <= i < |s| ==> !Lost(t, user, s, i)
  {
    RestoredExact(t, user, Stored(t, s), rank, s, s');
    forall i | 0 <= i < |s| ensures SameAt(t, Stored(t, s), s, i) <==> !Lost(t, user, s, i) {
      if IsLogicalType(t.decls[i].ty) {
        StoredTristateSame(t, user, s, i);
        TypedSolved(t, user, s, i);
      } else if IsTyped(t.decls[i].ty) {
        StoredTextSame(t, user, s, i);
      }
    }
  }

  /** Strings and numbers that are not AUTO are lost where they are visible and their value is unsteady. */
  lemma LostIsUnsteady(t: Table, user: User, s: seq<Result>, i: nat)
    requires Solution(t, user, s) && i < |s| && IsTyped(t.decls[i].ty) && !IsLogicalType(t.decls[i].ty)
    requires !t.decls[i].auto
    ensures Lost(t, user, s, i) <==> s[i].visible != No && Unsteady(t, s, i)
  {
    TypedSolved(t, user, s, i);
  }

  /** Of bool and tristate symbols that are not AUTO the capped ones are lost and no others. */
  lemma LostIsCapped(t: Table, user: User, s: seq<Result>, i: nat)
    requires Solution(t, user, s) && i < |s| && IsLogicalType(t.decls[i].ty) && !t.decls[i].auto
    ensures Lost(t, user, s, i) <==> Capped(s[i])
  {
    TypedSolved(t, user, s, i);
  }
}
