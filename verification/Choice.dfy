/**
  A bool choice and its values: sym_calc_choice, sym_choice_default, the choice parts of sym_calc_value and
  sym_set_tristate_value of symbol.c, and the reverse dependency that menu.c gives to a choice. What the
  rest of the configuration contributes, the conditions of prompts and defaults, is given; the values of the
  choice have no defaults, selects or implies of their own.
 */
module Choices {
  import opened Tristates
  import opened Exprs

  class Choice {
    const optional: bool
    /** The value of the condition of the choice's prompt. */
    const shown: Tristate
    /** The value of the prompt condition of each choice value, apart from the mode of the choice. */
    const conds: seq<Tristate>
    /** The default properties: the value of the condition, and the choice value named. */
    const defaults: seq<(Tristate, nat)>

    /** The choice symbol's SYMBOL_DEF_USER, def[S_DEF_USER].tri and def[S_DEF_USER].val. */
    var userSet: bool
    var userMode: Tristate
    var picked: Option<nat>
    /** SYMBOL_DEF_USER of the choice values. */
    var named: seq<bool>

    /** curr of the choice symbol; visible and curr.tri of its values. */
    var tri: Tristate
    var curr: Option<nat>
    var visible: seq<Tristate>
    var vals: seq<Tristate>

    constructor (optional: bool, shown: Tristate, conds: seq<Tristate>, defaults: seq<(Tristate, nat)>)
      requires forall k :: 0 <= k < |defaults| ==> defaults[k].1 < |conds|
      ensures Valid() && !userSet && picked == None
    {
      this.optional, this.shown, this.conds, this.defaults := optional, shown, conds, defaults;
      userSet, userMode, picked, tri, curr := false, No, None, No, None;
      named := seq(|conds|, i => false);
      visible := seq(|conds|, i => No);
      vals := seq(|conds|, i => No);
    }

    ghost predicate Valid()
      reads this
    {
      && |named| == |visible| == |vals| == |conds|
      && (picked.Some? ==> picked.value < |conds|)
      && (forall k :: 0 <= k < |defaults| ==> defaults[k].1 < |conds|)
    }

    // ---------------------------------------------------- what is to be computed

    /** The mode is y: as the user wants, but always if the choice is shown and not optional. */
    predicate On(userSet: bool, userMode: Tristate) {
      shown != No && (!optional || (userSet && userMode != No))
    }

    /** A choice value is visible if the choice is on and its own condition holds. */
    predicate Offered(on: bool, i: nat) {
      on && i < |conds| && conds[i] != No
    }

    /** The last resort: the first visible value from lo on. */
    ghost function FirstOffered(on: bool, lo: nat): (r: Option<nat>)
      ensures r.Some? ==> lo <= r.value && Offered(on, r.value)
      ensures r.None? ==> forall i :: lo <= i < |conds| ==> !Offered(on, i)
      decreases |conds| - lo
    {
      if lo >= |conds| then None else if Offered(on, lo) then Some(lo) else FirstOffered(on, lo + 1)
    }

    /** The first default that applies and is visible, from property k on. */
    ghost function DefaultFrom(on: bool, k: nat): (r: Option<nat>)
      ensures r.Some? ==> Offered(on, r.value)
      ensures r.None? ==> forall i :: 0 <= i < |conds| ==> !Offered(on, i)
      decreases |defaults| - k
    {
      if k >= |defaults| then FirstOffered(on, 0)
      else if defaults[k].0 != No && Offered(on, defaults[k].1) then Some(defaults[k].1)
      else DefaultFrom(on, k + 1)
    }

    /** The selected value: the user's, if it is visible, else the default. There is one if any value is visible. */
    ghost function Selected(on: bool, picked: Option<nat>): (r: Option<nat>)
      ensures r.Some? ==> Offered(on, r.value)
      ensures r.None? ==> forall i :: 0 <= i < |conds| ==> !Offered(on, i)
    {
      if picked.Some? && Offered(on, picked.value) then picked else DefaultFrom(on, 0)
    }

    /** Default property k applies and names a value that is offered. */
    predicate Usable(on: bool, k: nat) {
      k < |defaults| && defaults[k].0 != No && Offered(on, defaults[k].1)
    }

    /**
      sel is the value to select: the user's if it is offered, or else that of the first default that can be
      used, or else the first value offered.
     */
    ghost predicate IsSelection(sel: Option<nat>, on: bool, picked: Option<nat>) {
      if picked.Some? && Offered(on, picked.value) then sel == picked else IsFallback(sel, on)
    }

    ghost predicate IsFallback(sel: Option<nat>, on: bool) {
      && (sel.None? <==> forall i: nat :: !Offered(on, i))
      && (forall k: nat :: IsFirstUsable(on, 0, k) ==> sel == Some(defaults[k].1))
      && ((forall k: nat :: !Usable(on, k)) ==> forall i: nat :: IsFirstOffered(on, 0, i) ==> sel == Some(i))
    }

    predicate IsFirstUsable(on: bool, lo: nat, k: nat) {
      lo <= k && Usable(on, k) && forall j :: lo <= j < k ==> !Usable(on, j)
    }

    predicate IsFirstOffered(on: bool, lo: nat, i: nat) {
      lo <= i && Offered(on, i) && forall j :: lo <= j < i ==> !Offered(on, j)
    }

    lemma {:induction false} FirstOfferedIs(lo: nat, i: nat, on: bool)
      requires IsFirstOffered(on, lo, i)
      ensures FirstOffered(on, lo) == Some(i)
      decreases i - lo
    {
      if lo < i { FirstOfferedIs(lo + 1, i, on); }
    }

    lemma {:induction false} FirstUsableIs(lo: nat, k: nat, on: bool)
      requires IsFirstUsable(on, lo, k)
      ensures DefaultFrom(on, lo) == Some(defaults[k].1)
      decreases k - lo
    {
      if lo < k {
        assert !Usable(on, lo);
        FirstUsableIs(lo + 1, k, on);
      }
    }

    lemma {:induction false} NoneUsable(lo: nat, on: bool)
      requires forall k: nat :: lo <= k ==> !Usable(on, k)
      ensures DefaultFrom(on, lo) == FirstOffered(on, 0)
      decreases |defaults| - lo
    {
      if lo < |defaults| {
        assert !Usable(on, lo);
        NoneUsable(lo + 1, on);
      }
    }

    lemma FallbackIs(on: bool)
      ensures IsFallback(DefaultFrom(on, 0), on)
    {
      forall k: nat | IsFirstUsable(on, 0, k) ensures DefaultFrom(on, 0) == Some(defaults[k].1) {
        FirstUsableIs(0, k, on);
      }
      if forall k: nat :: !Usable(on, k) {
        NoneUsable(0, on);
        forall i: nat | IsFirstOffered(on, 0, i) ensures FirstOffered(on, 0) == Some(i) {
          FirstOfferedIs(0, i, on);
        }
      }
      assert DefaultFrom(on, 0).Some? ==> Offered(on, DefaultFrom(on, 0).value);
    }

    /** Every value whose condition holds has been set by the user. */
    ghost predicate AllNamed(named: seq<bool>) {
      |named| == |conds| && forall i :: 0 <= i < |conds| && conds[i] != No ==> named[i]
    }

    /** The visible values are those offered. */
    ghost predicate Shows(on: bool)
      reads this`visible
    {
      |visible| == |conds| && forall i :: 0 <= i < |conds| ==> visible[i] == if Offered(on, i) then Yes else No
    }

    /** Value i is y exactly if it is the one selected. */
    ghost predicate Holds(sel: Option<nat>)
      reads this`vals
    {
      |vals| == |conds| && forall i :: 0 <= i < |conds| ==> vals[i] == if sel == Some(i) then Yes else No
    }

    // -------------------------------------------------------------- evaluation

    /** The visibility of value i while the mode is tri. */
    method CalcVisibility(i: nat)
      requires Valid() && i < |conds|
      modifies this`visible
      ensures Valid() && visible == old(visible)[i := if Offered(tri != No, i) then Yes else No]
      ensures visible[i] == if tri != No && conds[i] != No then Yes else No
    {
      var t := And(tri, conds[i]);
      if t == Mod { t := Yes; }
      visible := visible[i := t];
    }

    /** The mode of the choice in sym_calc_value; its type is bool, so m counts as y. */
    method CalcMode() returns (t: Tristate)
      ensures t == if On(userSet, userMode) then Yes else No
      ensures t == Yes <==> shown != No && (optional ==> userSet && userMode != No)
    {
      var vis := if shown == Mod then Yes else shown;
      var revDep := if optional then No else And(vis, Mod);
      if revDep == Mod { revDep := Yes; }
      t := No;
      if vis != No && userSet { t := And(userMode, vis); }
      t := Or(t, revDep);
      if t == Mod { t := Yes; }
    }

    /** sym_calc_choice, the mode being y. */
    method CalcChoice() returns (sel: Option<nat>)
      requires Valid() && tri == Yes
      modifies this`visible, this`userSet, this`tri
      ensures Valid() && Shows(true) && sel == Selected(true, picked) && IsSelection(sel, true, picked)
      ensures userSet == (old(userSet) && AllNamed(named))
      ensures tri == if sel.Some? then Yes else No
    {
      var flag := userSet;
      var i := 0;
      while i < |conds|
        invariant 0 <= i <= |conds| && Valid() && tri == Yes && userSet == old(userSet)
        invariant forall j :: 0 <= j < i ==> visible[j] == if Offered(true, j) then Yes else No
        invariant flag <==> userSet && forall j :: 0 <= j < i && conds[j] != No ==> named[j]
      {
        CalcVisibility(i);
        if visible[i] != No { flag := flag && named[i]; }
        i := i + 1;
      }
      FallbackIs(true);
      userSet := userSet && flag;
      if picked.Some? && visible[picked.value] != No {
        return picked;
      }
      sel := ChoiceDefault();
      if sel.None? { tri := No; }
    }

    /** sym_choice_default. */
    method ChoiceDefault() returns (sel: Option<nat>)
      requires Valid() && Shows(true)
      ensures sel == DefaultFrom(true, 0) && IsFallback(sel, true)
    {
      FallbackIs(true);
      var k := 0;
      while k < |defaults|
        invariant 0 <= k <= |defaults| && DefaultFrom(true, k) == DefaultFrom(true, 0)
      {
        if defaults[k].0 != No && visible[defaults[k].1] != No {
          return Some(defaults[k].1);
        }
        k := k + 1;
      }
      var i := 0;
      while i < |conds|
        invariant 0 <= i <= |conds| && FirstOffered(true, i) == FirstOffered(true, 0)
      {
        if visible[i] != No {
          return Some(i);
        }
        i := i + 1;
      }
      return None;
    }

    /** The state after an evaluation in which the choice was on or not. */
    ghost predicate Evaluated(on: bool)
      reads this
    {
      && Valid() && curr == Selected(on, picked) && IsSelection(curr, on, picked)
      && Shows(on) && Holds(curr) && (on ==> On(true, userMode))
    }

    /**
      sym_calc_value of the choice and then of its values. If the choice is on and a value is visible, the
      selected one becomes y and all others n. That the user has set an optional choice is forgotten exactly
      when there is a visible value that the user has not seen.
     */
    method Evaluate()
      requires Valid()
      modifies this
      ensures userMode == old(userMode) && picked == old(picked) && named == old(named)
      ensures var on := On(old(userSet), userMode);
              && Evaluated(on) && tri == (if curr.Some? then Yes else No)
              && userSet == (old(userSet) && (!on || AllNamed(named)))
              && (On(userSet, userMode) == on <==> !(optional && on && !AllNamed(named)))
    {
      curr := None;
      tri := CalcMode();
      ghost var on := tri == Yes;
      if tri == Yes {
        curr := CalcChoice();
      }
      CalcValues(on);
      FallbackIs(on);
    }

    /** sym_calc_value of each value. */
    method CalcValues(ghost on: bool)
      requires Valid() && curr == Selected(on, picked) && (tri == No || on) && (tri == No ==> curr == None)
      modifies this`visible, this`vals
      ensures Valid() && Shows(on) && Holds(curr)
    {
      var i := 0;
      while i < |conds|
        invariant 0 <= i <= |conds| && Valid()
        invariant forall j :: 0 <= j < i ==>
                  visible[j] == (if Offered(on, j) then Yes else No) && vals[j] == (if curr == Some(j) then Yes else No)
      {
        CalcVisibility(i);
        vals := vals[i := if visible[i] == Yes && curr == Some(i) then Yes else No];
        i := i + 1;
      }
    }

    /** Exactly one value is y, and it is visible. */
    ghost predicate OneChosen()
      reads this
    {
      && Valid()
      && exists k :: 0 <= k < |conds| && vals[k] == Yes && visible[k] == Yes
                     && forall j :: 0 <= j < |conds| && j != k ==> vals[j] == No
    }

    /** A choice that is on, with a value to offer, has exactly one value at y; any other has none. */
    lemma ExactlyOne(on: bool)
      requires Evaluated(on)
      ensures (exists i :: Offered(on, i)) ==> OneChosen()
      ensures (forall i :: !Offered(on, i)) ==> forall j :: 0 <= j < |conds| ==> vals[j] == No
    {
      if curr.Some? {
        assert Offered(on, curr.value);
        assert vals[curr.value] == Yes && visible[curr.value] == Yes;
      }
    }

    /** sym_set_tristate_value of choice value i to y. */
    method SetYes(i: nat) returns (ok: bool)
      requires Valid() && i < |conds|
      modifies this`userSet, this`picked, this`named
      ensures Valid() && (ok <==> vals[i] == Yes || visible[i] == Yes)
      ensures !ok ==> userSet == old(userSet) && picked == old(picked) && named == old(named)
      ensures ok ==> userSet && picked == Some(i)
      ensures ok ==> forall j :: 0 <= j < |conds| ==> named[j] == (old(named[j]) || j == i || visible[j] != No)
    {
      ok := vals[i] == Yes || visible[i] == Yes;
      if !ok {
        return;
      }
      picked, userSet := Some(i), true;
      ghost var before := named;
      named := named[i := true];
      var j := 0;
      while j < |conds|
        invariant 0 <= j <= |conds| && |named| == |conds| && picked == Some(i) && userSet
        invariant forall k :: 0 <= k < |conds| ==> named[k] == (before[k] || k == i || (k < j && visible[k] != No))
      {
        if visible[j] != No { named := named[j := true]; }
        j := j + 1;
      }
    }

    /**
      Setting another visible value and evaluating again moves the y to it, and the choice stays on as the
      user set it.
     */
    method Choose(i: nat, ghost on: bool) returns (ok: bool)
      requires i < |conds| && Evaluated(on)
      modifies this
      ensures ok <==> Offered(on, i)
      ensures ok ==> userSet && On(userSet, userMode) && Evaluated(true) && vals[i] == Yes && OneChosen()
    {
      ok := SetYes(i);
      if ok {
        Evaluate();
        ExactlyOne(true);
        assert Offered(true, i);
      }
    }
  }
}
