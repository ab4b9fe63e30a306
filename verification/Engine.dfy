/**
  sym_calc_value, sym_calc_visibility and sym_clear_all_valid of symbol.c: the evaluator with its cache.
  SYMBOL_VALID is set before the value is final, as in the C code; the bound of each contract says which
  valid entries can be trusted meanwhile.
 */
module Engines {
  import opened Tristates
  import opened Exprs
  import opened Configs
  import opened Settings

  class Engine {
    const t: Table
    var user: User
    var state: seq<Result>
    var valid: seq<bool>

    /** A rank of the read graph, and the values the definitions give. */
    ghost const rank: seq<nat>
    ghost var goal: seq<Result>

    /** Symbols 0, 1 and 2 are the constants, which are born valid. */
    constructor (t: Table, user: User, ghost rank: seq<nat>)
      requires WellFormed(t) && Acyclic(t, rank) && |user| == |t.decls|
      ensures this.t == t && this.user == user && this.rank == rank
      ensures Ready() && Fresh()
    {
      this.t := t;
      this.user := user;
      this.rank := rank;
      SolutionExists(t, user, rank);
      ghost var s :| Solution(t, user, s);
      goal := s;
      state := seq(|t.decls|, i requires 0 <= i < |t.decls| =>
                     if i < 3 then BLANK.(curr := UntypedValue(t, i)) else BLANK);
      valid := seq(|t.decls|, i => i < 3);
      new;
      ConstantsSolved(t, user, s);
    }

    ghost function Meaning(): Valuation
      requires |goal| == |t.decls|
      reads this
    {
      ValuationOf(t, goal)
    }

    /** goal is the solution, and valid entries of rank below bound have reached it. */
    ghost predicate Trusted(bound: nat)
      reads this
    {
      && |state| == |valid| == |goal| == |user| == |rank| == |t.decls| >= 3
      && Posed(t, user, rank, goal)
      && (forall j :: 0 <= j < |valid| && valid[j] && rank[j] < bound ==> state[j] == goal[j])
    }

    /** No evaluation is going on: all valid entries are final, and the constants are valid. */
    ghost predicate Ready()
      reads this
    {
      Trusted(MaxRank(rank) + 1) && forall j :: 0 <= j < 3 ==> valid[j]
    }

    ghost predicate Fresh()
      reads this
    {
      forall j :: 0 <= j < |valid| ==> valid[j] == (j < 3)
    }

    /** Entries of rank bound or more are as they were; no entry becomes invalid. */
    twostate predicate Frame(bound: nat)
      reads this
    {
      && user == old(user) && goal == old(goal)
      && |state| == old(|state|) == |rank| && |valid| == old(|valid|) == |rank|
      && (forall j :: 0 <= j < |rank| && rank[j] >= bound ==> state[j] == old(state[j]) && valid[j] == old(valid[j]))
      && (forall j :: 0 <= j < |rank| && old(valid[j]) ==> valid[j])
    }

    /** expr_calc_value. */
    method ExprCalcValue(e: Expr, ghost bound: nat) returns (r: Tristate)
      requires Trusted(bound) && ExprBelow(t, e, rank, bound)
      modifies this
      ensures Trusted(bound) && Frame(bound)
      ensures r == Eval(e, Meaning())
      decreases bound, 1, Size(e)
    {
      match e
      case Atom(x) =>
        CalcValue(x.id);
        r := state[x.id].curr.tri;
      case Bin(op, a, b) =>
        var x := ExprCalcValue(a, bound);
        var y := ExprCalcValue(b, bound);
        r := Apply(op, x, y);
      case Neg(a) =>
        var x := ExprCalcValue(a, bound);
        r := Not(x);
      case Compare(rel, a, b) =>
        CalcValue(a.id);
        CalcValue(b.id);
        RelateReads(t, rel, a, b, state, goal);
        r := Relate(ValuationOf(t, state), rel, a, b);
    }

    method OptCalcValue(e: Option<Expr>, ghost bound: nat) returns (r: Tristate)
      requires Trusted(bound) && OptBelow(t, e, rank, bound)
      modifies this
      ensures Trusted(bound) && Frame(bound)
      ensures r == EvalOpt(e, Meaning())
      decreases bound, 2, 0
    {
      if e.None? {
        r := Yes;
      } else {
        r := ExprCalcValue(e.value, bound);
      }
    }

    /** for_all_prompts in sym_calc_visibility. */
    method CalcPrompts(props: seq<Property>, ghost bound: nat) returns (r: Tristate)
      requires Trusted(bound) && PropsBelow(t, props, rank, bound)
      modifies this
      ensures Trusted(bound) && Frame(bound)
      ensures r == PromptValue(props, Meaning())
      decreases bound, 3, 0
    {
      r := No;
      var k := 0;
      assert props[0..] == props;
      while k < |props|
        invariant 0 <= k <= |props|
        invariant Trusted(bound) && Frame(bound)
        invariant Or(r, PromptValue(props[k..], Meaning())) == PromptValue(props, Meaning())
      {
        var p := props[k];
        assert PropBelow(t, p, rank, bound);
        if p.Prompt? {
          var x := OptCalcValue(p.cond, bound);
          r := Or(r, x);
        }
        assert props[k..][1..] == props[k + 1..];
        k := k + 1;
      }
    }

    /** sym_get_default_prop, with the value of the condition found. */
    method GetDefaultProp(props: seq<Property>, ghost bound: nat) returns (r: Option<Property>, c: Tristate)
      requires Trusted(bound) && PropsBelow(t, props, rank, bound)
      modifies this
      ensures Trusted(bound) && Frame(bound)
      ensures r == FirstDefault(props, Meaning())
      ensures r.Some? ==> c == EvalOpt(r.value.cond, Meaning())
      decreases bound, 3, 0
    {
      var k := 0;
      assert props[0..] == props;
      while k < |props|
        invariant 0 <= k <= |props|
        invariant Trusted(bound) && Frame(bound)
        invariant FirstDefault(props[k..], Meaning()) == FirstDefault(props, Meaning())
      {
        var p := props[k];
        assert PropBelow(t, p, rank, bound);
        if p.Default? {
          c := OptCalcValue(p.cond, bound);
          if c != No {
            return Some(p), c;
          }
        }
        assert props[k..][1..] == props[k + 1..];
        k := k + 1;
      }
      return None, No;
    }

    /** sym_get_range_prop. */
    method GetRangeProp(props: seq<Property>, ghost bound: nat) returns (r: Option<Property>)
      requires Trusted(bound) && PropsBelow(t, props, rank, bound)
      modifies this
      ensures Trusted(bound) && Frame(bound)
      ensures r == FirstRange(props, Meaning())
      decreases bound, 3, 0
    {
      var k := 0;
      assert props[0..] == props;
      while k < |props|
        invariant 0 <= k <= |props|
        invariant Trusted(bound) && Frame(bound)
        invariant FirstRange(props[k..], Meaning()) == FirstRange(props, Meaning())
      {
        var p := props[k];
        assert PropBelow(t, p, rank, bound);
        if p.Range? {
          var c := OptCalcValue(p.cond, bound);
          if c != No {
            return Some(p);
          }
        }
        assert props[k..][1..] == props[k + 1..];
        k := k + 1;
      }
      return None;
    }

    /** sym_get_range_val. */
    method GetRangeValue(i: nat, base: nat, ghost bound: nat) returns (x: int)
      requires i < |t.decls| == |rank| && Trusted(bound) && rank[i] < bound
      modifies this
      ensures Trusted(bound) && Frame(bound)
      ensures x == RangeValue(t, i, goal[i].curr.text, base)
      decreases bound, 1, 0
    {
      CalcValue(i);
      x := RangeValue(t, i, state[i].curr.text, base);
    }

    // ------------------------------------------- inside sym_calc_value of i

    /** Symbol i is being calculated: it is marked valid, and everything below it can be trusted. */
    ghost predicate Busy(i: nat)
      reads this
    {
      i < |t.decls| == |rank| && Trusted(rank[i]) && valid[i] && DeclBelow(t, rank, i)
    }

    /** Besides i, entries of its rank or more are as they were. */
    twostate predicate FrameBut(i: nat)
      requires i < |rank|
      reads this
    {
      && user == old(user) && goal == old(goal)
      && |state| == old(|state|) == |rank| && |valid| == old(|valid|) == |rank|
      && (forall j :: 0 <= j < |rank| && rank[j] >= rank[i] && j != i ==>
           state[j] == old(state[j]) && valid[j] == old(valid[j]))
      && (forall j :: 0 <= j < |rank| && old(valid[j]) ==> valid[j])
    }

    /** sym_calc_visibility. */
    method CalcVisibility(i: nat)
      requires Busy(i)
      modifies this
      ensures Busy(i) && FrameBut(i)
      ensures var d, v := t.decls[i], Meaning();
              state[i] == old(state[i]).(visible := VisibleOf(t, d, v), dirDep := DirDepOf(t, d, v),
                                         revDep := RevDepOf(t, d, v), implied := ImpliedOf(t, d, v))
      decreases rank[i], 4, 0
    {
      var d := t.decls[i];
      var x := CalcPrompts(d.props, rank[i]);
      if x == Mod && (d.ty != Trivalued || t.modules == No) { x := Yes; }
      state := state[i := state[i].(visible := x)];
      CalcDependencies(i);
    }

    /** The part of sym_calc_visibility after the visibility. */
    method CalcDependencies(i: nat)
      requires Busy(i)
      modifies this
      ensures Busy(i) && FrameBut(i)
      ensures var d, v := t.decls[i], Meaning();
              state[i] == old(state[i]).(dirDep := DirDepOf(t, d, v),
                        revDep := RevDepOf(t, d, v), implied := ImpliedOf(t, d, v))
      decreases rank[i], 3, 0
    {
      var d, x := t.decls[i], No;
      x := OptCalcValue(d.dirDep, rank[i]);
      x := Promote(t, d.ty, x);
      state := state[i := state[i].(dirDep := x)];
      x := No;
      if d.revDep.Some? { x := ExprCalcValue(d.revDep.value, rank[i]); }
      x := Promote(t, d.ty, x);
      state := state[i := state[i].(revDep := x)];
      x := No;
      if d.implied.Some? && state[i].dirDep != No { x := ExprCalcValue(d.implied.value, rank[i]); }
      x := Promote(t, d.ty, x);
      state := state[i := state[i].(implied := x)];
    }

    /** The bool and tristate case of sym_calc_value, up to and including the final promotion. */
    method CalcTristate(i: nat) returns (newval: Tristate, write: bool)
      requires Busy(i)
      requires var d, v := t.decls[i], Meaning();
               && state[i].visible == VisibleOf(t, d, v) && state[i].revDep == RevDepOf(t, d, v)
               && state[i].implied == ImpliedOf(t, d, v)
      modifies this
      ensures Busy(i) && FrameBut(i) && state[i] == old(state[i])
      ensures var d, v := t.decls[i], Meaning();
              && newval == TriOf(t, d, user[i], v)
              && (write || state[i].visible != No
                  <==> state[i].visible != No || RevDepOf(t, d, v) != No || DefaultTri(d, v) != No
                       || ImpliedOf(t, d, v) != No)
      decreases rank[i], 4, 1
    {
      var d := t.decls[i];
      newval, write := No, false;
      if state[i].visible != No && user[i].Some? {
        newval := And(user[i].value.tri, state[i].visible);
      } else {
        newval, write := CalcDefault(i);
      }
      newval := Or(newval, state[i].revDep);
      if newval == Mod && (EffectiveType(t, d.ty) == Boolean || state[i].implied == Yes) { newval := Yes; }
    }

    /** The part of the bool and tristate case for a symbol without a user value that counts. */
    method CalcDefault(i: nat) returns (newval: Tristate, write: bool)
      requires Busy(i) && state[i].implied == ImpliedOf(t, t.decls[i], Meaning())
      modifies this
      ensures Busy(i) && FrameBut(i) && state[i] == old(state[i])
      ensures var d, v := t.decls[i], Meaning();
              && newval == Or(DefaultTri(d, v), ImpliedOf(t, d, v))
              && (write <==> state[i].revDep != No || DefaultTri(d, v) != No || ImpliedOf(t, d, v) != No)
      decreases rank[i], 4, 0
    {
      newval, write := No, false;
      if state[i].revDep != No { write := true; }
      var p, c := GetDefaultProp(t.decls[i].props, rank[i]);
      if p.Some? {
        assert PropBelow(t, p.value, rank, rank[i]);
        var x := ExprCalcValue(p.value.value, rank[i]);
        newval := And(x, c);
        if newval != No { write := true; }
      }
      if state[i].implied != No {
        write := true;
        newval := Or(newval, state[i].implied);
      }
    }

    /** The string, int and hex case of sym_calc_value. */
    method CalcText(i: nat) returns (newval: string, write: bool)
      requires Busy(i) && state[i].visible == VisibleOf(t, t.decls[i], Meaning())
      modifies this
      ensures Busy(i) && FrameBut(i) && state[i] == old(state[i])
      ensures var d, v := t.decls[i], Meaning();
              && newval == TextOf(t, d, user[i], v, goal)
              && (write || state[i].visible != No <==> state[i].visible != No || DefaultSource(d, v).Some?)
      decreases rank[i], 4, 0
    {
      var d := t.decls[i];
      write := false;
      newval := "";
      if state[i].visible != No && user[i].Some? {
        newval := user[i].value.text;
      } else {
        var p, _ := GetDefaultProp(d.props, rank[i]);
        if p.Some? && p.value.value.Atom? {
          assert PropBelow(t, p.value, rank, rank[i]);
          write := true;
          CalcValue(p.value.value.sym.id);
          newval := state[p.value.value.sym.id].curr.text;
        }
      }
    }

    /** sym_validate_range. */
    method ValidateRange(i: nat, text: string) returns (r: string)
      requires Busy(i)
      modifies this
      ensures Busy(i) && FrameBut(i) && state[i] == old(state[i])
      ensures r == Validated(t, t.decls[i], text, Meaning(), goal)
      decreases rank[i], 4, 0
    {
      var d := t.decls[i];
      r := text;
      if d.ty == Integer || d.ty == Hexadecimal {
        var p := GetRangeProp(d.props, rank[i]);
        if p.Some? {
          assert PropBelow(t, p.value, rank, rank[i]);
          var x := t.strtoll(text, BaseOf(d.ty));
          var x2 := GetRangeValue(p.value.lo, BaseOf(d.ty), rank[i]);
          if x >= x2 {
            x2 := GetRangeValue(p.value.hi, BaseOf(d.ty), rank[i]);
            if x <= x2 {
              return;
            }
          }
          r := t.show(x2, d.ty);
        }
      }
    }

    /** sym_calc_value: afterwards symbol i is valid and has the value its definition gives it. */
    method CalcValue(i: nat)
      requires i < |t.decls| == |rank| && Trusted(rank[i] + 1)
      modifies this
      ensures i < |valid| == |state| == |goal|
      ensures Trusted(rank[i] + 1) && Frame(rank[i] + 1)
      ensures valid[i] && state[i] == goal[i]
      decreases rank[i], 7, 0
    {
      if valid[i] {
        return;
      }
      valid := valid[i := true];
      if !IsTyped(t.decls[i].ty) {
        state := state[i := BLANK.(curr := UntypedValue(t, i))];
        UntypedSolved(t, user, goal, i);
        return;
      }
      AcyclicBelow(t, rank, i);
      CalcTyped(i);
    }

    /** The fields sym_calc_visibility sets are those of the definition. */
    ghost predicate Seen(i: nat)
      requires i < |t.decls| == |state| == |goal|
      reads this
    {
      var d, v := t.decls[i], Meaning();
      && state[i].visible == VisibleOf(t, d, v) && state[i].dirDep == DirDepOf(t, d, v)
      && state[i].revDep == RevDepOf(t, d, v) && state[i].implied == ImpliedOf(t, d, v)
    }

    /** sym_calc_value of a symbol with a type. */
    method CalcTyped(i: nat)
      requires Busy(i) && IsTyped(t.decls[i].ty)
      modifies this
      ensures Trusted(rank[i]) && FrameBut(i) && valid[i] && state[i] == goal[i]
      decreases rank[i], 6, 0
    {
      state := state[i := state[i].(write := false)];
      CalcVisibility(i);
      if state[i].visible != No { state := state[i := state[i].(write := true)]; }
      if t.decls[i].ty == Boolean || t.decls[i].ty == Trivalued {
        AssignTristate(i);
      } else {
        AssignText(i);
      }
      if t.decls[i].auto { state := state[i := state[i].(write := false)]; }
      TypedSolved(t, user, goal, i);
    }

    method AssignTristate(i: nat)
      requires Busy(i) && Seen(i) && (t.decls[i].ty == Boolean || t.decls[i].ty == Trivalued)
      requires state[i].write == (state[i].visible != No)
      modifies this
      ensures Busy(i) && FrameBut(i)
      ensures var d, v := t.decls[i], Meaning();
              state[i] == old(state[i]).(curr := CurrOf(t, d, user[i], v, goal),
                        write := WriteOf(t, d.(auto := false), user[i], v))
      decreases rank[i], 5, 0
    {
      state := state[i := state[i].(curr := Value(No, "n"))];
      var x, w := CalcTristate(i);
      state := state[i := state[i].(curr := Value(x, "n"), write := state[i].write || w)];
    }

    method AssignText(i: nat)
      requires Busy(i) && Seen(i) && t.decls[i].ty != Boolean && t.decls[i].ty != Trivalued
      requires state[i].write == (state[i].visible != No)
      modifies this
      ensures Busy(i) && FrameBut(i)
      ensures var d, v := t.decls[i], Meaning();
              state[i] == old(state[i]).(curr := CurrOf(t, d, user[i], v, goal),
                        write := WriteOf(t, d.(auto := false), user[i], v))
      decreases rank[i], 5, 0
    {
      state := state[i := state[i].(curr := Value(No, ""))];
      var x, w := CalcText(i);
      x := ValidateRange(i, x);
      state := state[i := state[i].(curr := Value(No, x), write := state[i].write || w)];
    }

    /** sym_calc_value as the rest of the program calls it: at any time, for any symbol, in any order. */
    method GetValue(i: nat) returns (r: Result)
      requires Ready() && i < |t.decls|
      modifies this
      ensures Ready() && user == old(user) && goal == old(goal) && i < |valid| && valid[i] && r == goal[i]
    {
      CalcValue(i);
      r := state[i];
    }

    /** The value of the constants, which no user value changes. */
    ghost predicate ConstantsHeld()
      reads this
    {
      && |state| == |valid| == |t.decls| >= 3
      && forall j :: 0 <= j < 3 ==> valid[j] && state[j] == BLANK.(curr := UntypedValue(t, j))
    }

    /** sym_clear_all_valid: every entry but the constants is recalculated when next asked for. */
    method ClearAllValid()
      requires Trusted(0) && ConstantsHeld()
      modifies this`valid
      ensures Ready() && Fresh()
    {
      ConstantsSolved(t, user, goal);
      valid := seq(|t.decls|, i => i < 3);
    }

    /** def[S_DEF_USER] with the tristate value of symbol i set to x. */
    static function Changed(user: User, i: nat, x: Tristate): User
      requires i < |user|
    {
      user[i := Some(Value(x, if user[i].Some? then user[i].value.text else ""))]
    }

    /** The user value of symbol i changes, and with it the values the definitions give. */
    method ChangeUser(i: nat, x: Tristate)
      requires Trusted(0) && i < |user|
      modifies this`user, this`goal
      ensures user == Changed(old(user), i, x) && Trusted(0)
    {
      user := Changed(user, i, x);
      SolutionExists(t, user, rank);
      ghost var s :| Solution(t, user, s);
      goal := s;
    }

    /** With the value shown as the new user value, the entries stay right exactly if symbol i is not capped. */
    lemma KeptIfNotCapped(i: nat, before: User, shown: seq<Result>)
      requires Trusted(0) && i < |t.decls| && IsLogicalType(t.decls[i].ty) && ConstantsHeld() && valid[i]
      requires Posed(t, before, rank, shown) && user == Changed(before, i, shown[i].curr.tri)
      requires |shown| == |state| && forall j :: 0 <= j < |state| && valid[j] ==> state[j] == shown[j]
      ensures Ready() <==> !Capped(shown[i])
    {
      ShownValueKept(t, before, rank, shown, i, user[i].value);
      if !Capped(shown[i]) {
        SolutionUnique(t, user, rank, shown, goal);
      } else {
        CappedChanges(i, before, shown);
      }
    }

    lemma CappedChanges(i: nat, before: User, shown: seq<Result>)
      requires Trusted(0) && i < |t.decls| && IsLogicalType(t.decls[i].ty)
      requires Posed(t, before, rank, shown) && user == Changed(before, i, shown[i].curr.tri)
      requires |shown| == |state| && Capped(shown[i])
      ensures goal[i] != shown[i]
    {
      OwnReadsUnaffected(t, before, user, rank, shown, goal, i);
      DeclReads(t, t.decls[i], user[i], shown, goal);
      TypedSolved(t, before, shown, i);
      TypedSolved(t, user, goal, i);
    }

    /** With x as the new user value of symbol i, the evaluation gives symbol i the value x. */
    ghost predicate IsReached(before: User, i: nat, x: Tristate)
      requires i < |before| == |t.decls|
    {
      forall s: seq<Result> :: Solution(t, Changed(before, i, x), s) ==> s[i].curr.tri == x
    }

    lemma ReachedExact(before: User, shown: seq<Result>, i: nat, x: Tristate)
      requires Posed(t, before, rank, shown) && i < |t.decls| && IsLogicalType(t.decls[i].ty)
      ensures WithinRange(t, t.decls[i], shown[i], x) <==> Settable(shown[i], x) && IsReached(before, i, x)
    {
      var next := Changed(before, i, x);
      SolutionExists(t, next, rank);
      forall s: seq<Result> | Solution(t, next, s)
        ensures WithinRange(t, t.decls[i], shown[i], x) <==> Settable(shown[i], x) && s[i].curr.tri == x
      {
        WithinRangeExact(t, before, rank, shown, i, next[i].value, s);
      }
    }

    /**
      sym_set_tristate_value of a bool or tristate symbol that has been evaluated. A new value is accepted
      exactly within the range; then all caches are cleared, and the next evaluation gives that value. The
      value shown is always accepted and nothing is cleared: right exactly if the symbol is not capped.
     */
    method SetTristateValue(i: nat, x: Tristate) returns (ok: bool)
      requires Ready() && i < |t.decls| && valid[i] && IsLogicalType(t.decls[i].ty)
      modifies this
      ensures i < old(|state|) == old(|user|) == |goal| == |t.decls|
      ensures ok <==> x == old(state[i]).curr.tri || WithinRange(t, t.decls[i], old(state[i]), x)
      ensures x != old(state[i]).curr.tri ==> (ok <==> Settable(old(state[i]), x) && IsReached(old(user), i, x))
      ensures !ok ==> user == old(user) && goal == old(goal) && state == old(state) && valid == old(valid)
      ensures ok ==> user == Changed(old(user), i, x) && Posed(t, user, rank, goal)
      ensures ok && x != old(state[i]).curr.tri ==> Ready() && Fresh() && goal[i].curr.tri == x
      ensures ok && x == old(state[i]).curr.tri ==>
        state == old(state) && valid == old(valid) && (Ready() <==> !Capped(old(state[i])))
    {
      var oldval := state[i].curr.tri;
      ReachedExact(user, goal, i, x);
      if oldval != x && !WithinRange(t, t.decls[i], state[i], x) {
        return false;
      }
      ghost var before, shown := user, goal;
      ConstantsSolved(t, user, goal);
      ChangeUser(i, x);
      if oldval != x {
        AcceptedValueIsReached(t, before, rank, shown, i, user[i].value, goal);
        ClearAllValid();
      } else {
        KeptIfNotCapped(i, before, shown);
      }
      return true;
    }
  }
}
