/**
  How menu_finalize of menu.c combines conditions: rewrite_m, the condition a menu node inherits, the
  condition of each of its properties, and the direct dependency of a symbol.
 */
module Propagation {
  import opened Tristates
  import opened Exprs
  import opened Dups
  import opened Transforms
  import opened Configs

  const NORMAL := Form(true, true)
  const PARSED := Form(true, false)

  /** rewrite_m: m becomes m && MODULES. */
  function RewriteM(e: Expr, modules: Symbol): Expr {
    match e
    case Atom(s) => if s == MOD then Bin(AndOp, e, Atom(modules)) else e
    case Compare(_, _, _) => e
    case Neg(a) => Neg(RewriteM(a, modules))
    case Bin(op, a, b) => Bin(op, RewriteM(a, modules), RewriteM(b, modules))
  }

  function RewriteMOpt(e: Option<Expr>, modules: Symbol): Option<Expr> {
    if e.None? then None else Some(RewriteM(e.value, modules))
  }

  /** v with the constant m lowered to what MODULES allows. */
  function WithoutModules(v: Valuation, modules: Symbol): Valuation {
    v.(tri := (s: Symbol) => if s == MOD then And(Mod, v.tri(modules)) else v.tri(s))
  }

  /** rewrite_m makes the constant m mean n where MODULES is n, and leaves everything else alone. */
  lemma {:induction false} RewriteMMeaning(e: Expr, modules: Symbol, v: Valuation)
    requires Admissible(v)
    ensures Eval(RewriteM(e, modules), v) == Eval(e, WithoutModules(v, modules))
  {
    match e
    case Neg(a) => RewriteMMeaning(a, modules, v);
    case Bin(_, a, b) =>
      RewriteMMeaning(a, modules, v);
      RewriteMMeaning(b, modules, v);
    case Compare(rel, a, b) =>
      assert Relate(WithoutModules(v, modules), rel, a, b) == Relate(v, rel, a, b);
    case Atom(_) =>
  }

  lemma {:induction false} RewriteMRegular(e: Expr, modules: Symbol)
    requires Regular(e, PARSED)
    ensures Regular(RewriteM(e, modules), PARSED)
  {
    match e
    case Neg(a) => RewriteMRegular(a, modules);
    case Bin(_, a, b) =>
      RewriteMRegular(a, modules);
      RewriteMRegular(b, modules);
    case _ =>
  }

  /** The condition a child node ends up with, from its parent's and its own. */
  function Inherit(parentDep: Option<Expr>, dep: Option<Expr>, modules: Symbol): Option<Expr> {
    var e := AllocAnd(parentDep, TransformOpt(RewriteMOpt(dep, modules)));
    if e.None? then None else Some(EliminateDups(e.value))
  }

  /** ty is the type of a symbol for which expr_trans_bool is called. */
  predicate Untristate(ty: Option<SymbolType>) {
    ty.Some? && ty.value != Trivalued
  }

  /** The condition a property of a node ends up with; ty is the type of the node's symbol, if it has one. */
  function PropertyCondition(baseDep: Option<Expr>, cond: Option<Expr>, ty: Option<SymbolType>,
                             modules: Symbol): Option<Expr> {
    var e := Inherit(baseDep, cond, modules);
    if e.Some? && Untristate(ty) then Some(TransBool(e.value)) else e
  }

  /** A child's condition is worth the minimum of its parent's and its own. */
  lemma InheritMeaning(parentDep: Option<Expr>, dep: Option<Expr>, modules: Symbol, v: Valuation)
    requires Admissible(v) && RegularOpt(parentDep, NORMAL) && RegularOpt(dep, PARSED)
    ensures EvalOpt(Inherit(parentDep, dep, modules), v)
              == And(EvalOpt(parentDep, v), EvalOpt(dep, WithoutModules(v, modules)))
    ensures RegularOpt(Inherit(parentDep, dep, modules), NORMAL)
    ensures Inherit(parentDep, dep, modules).Some? ==> Settled(Inherit(parentDep, dep, modules).value)
  {
    if dep.Some? {
      RewriteMRegular(dep.value, modules);
      RewriteMMeaning(dep.value, modules, v);
      TransformSound(RewriteM(dep.value, modules), v);
    }
    var e := AllocAnd(parentDep, TransformOpt(RewriteMOpt(dep, modules)));
    if e.Some? {
      EliminateDupsCorrect(e.value, v, NORMAL);
      EliminateDupsSettles(e.value);
    }
  }

  /**
    A property's condition is worth the minimum of its node's and its own, except that for symbols that are
    not tristate it is m where expr_trans_bool is handed an expression that is exposed.
   */
  lemma PropertyConditionExact(baseDep: Option<Expr>, cond: Option<Expr>, ty: Option<SymbolType>, modules: Symbol,
                               v: Valuation)
    requires Admissible(v) && RegularOpt(baseDep, NORMAL) && RegularOpt(cond, PARSED)
    ensures var e := Inherit(baseDep, cond, modules);
            var x := And(EvalOpt(baseDep, v), EvalOpt(cond, WithoutModules(v, modules)));
            && EvalOpt(PropertyCondition(baseDep, cond, ty, modules), v)
               == (if Untristate(ty) && e.Some? && Exposed(e.value, v) then Mod else x)
            && (e.Some? && Exposed(e.value, v) ==> x == Yes)
  {
    InheritMeaning(baseDep, cond, modules, v);
    var e := Inherit(baseDep, cond, modules);
    if e.Some? {
      TransBoolExact(e.value, v);
      if Exposed(e.value, v) {
        NormalNegAtoms(e.value);
        ExposedIsY(e.value, v);
      }
    }
  }

  /** A property is visible exactly where its node's condition and its own are. */
  lemma PropertyConditionMeaning(baseDep: Option<Expr>, cond: Option<Expr>, ty: Option<SymbolType>, modules: Symbol,
                                 v: Valuation)
    requires Admissible(v) && RegularOpt(baseDep, NORMAL) && RegularOpt(cond, PARSED)
    ensures EvalOpt(PropertyCondition(baseDep, cond, ty, modules), v) != No
            <==> EvalOpt(baseDep, v) != No && EvalOpt(cond, WithoutModules(v, modules)) != No
    ensures !Untristate(ty) ==> EvalOpt(PropertyCondition(baseDep, cond, ty, modules), v)
                                == And(EvalOpt(baseDep, v), EvalOpt(cond, WithoutModules(v, modules)))
    ensures RegularOpt(PropertyCondition(baseDep, cond, ty, modules), NORMAL)
  {
    InheritMeaning(baseDep, cond, modules, v);
    PropertyConditionExact(baseDep, cond, ty, modules, v);
    var e := Inherit(baseDep, cond, modules);
    if e.Some? { TransBoolRegular(e.value); }
  }

  lemma {:induction false} NormalNegAtoms(e: Expr)
    requires Regular(e, NORMAL)
    ensures Regular(e, Form(false, true))
  {
    match e
    case Neg(a) => NormalNegAtoms(a);
    case Bin(_, a, b) =>
      NormalNegAtoms(a);
      NormalNegAtoms(b);
    case _ =>
  }

  lemma {:induction false} TransBoolRegular(e: Expr)
    requires Regular(e, NORMAL)
    ensures Regular(TransBool(e), NORMAL)
  {
    match e
    case Bin(_, a, b) =>
      TransBoolRegular(a);
      TransBoolRegular(b);
    case _ =>
  }

  /** Properties with expr_trans_bool applied to their conditions. */
  function TransBoolAll(props: seq<Property>): seq<Property> {
    if props == [] then [] else [TransBoolProp(props[0])] + TransBoolAll(props[1..])
  }

  function TransBoolProp(p: Property): Property {
    p.(cond := if p.cond.None? then None else Some(TransBool(p.cond.value)))
  }

  lemma {:induction false} PromptValueKept(props: seq<Property>, v: Valuation)
    requires Admissible(v) && forall k :: 0 <= k < |props| ==> RegularOpt(props[k].cond, NORMAL)
    ensures PromptValue(TransBoolAll(props), v) == No <==> PromptValue(props, v) == No
  {
    if props != [] {
      assert forall k :: 0 <= k < |props[1..]| ==> props[1..][k] == props[k + 1];
      PromptValueKept(props[1..], v);
      var c := props[0].cond;
      if c.Some? {
        NormalNegAtoms(c.value);
        TransBoolKeepsVisible(c.value, v);
      }
      assert TransBoolAll(props)[1..] == TransBoolAll(props[1..]);
    }
  }

  /** expr_trans_bool changes no visibility: what it makes m counts as y for a symbol that is not tristate. */
  lemma VisibilityKept(t: Table, d: Decl, v: Valuation)
    requires Admissible(v) && d.ty != Trivalued
    requires forall k :: 0 <= k < |d.props| ==> RegularOpt(d.props[k].cond, NORMAL)
    ensures VisibleOf(t, d.(props := TransBoolAll(d.props)), v) == VisibleOf(t, d, v)
  {
    PromptValueKept(d.props, v);
  }

  // ------------------------------------------------------ direct dependency

  /** sym->dir_dep after all definitions of a symbol, whose nodes have the conditions deps. */
  function DirectDependency(deps: seq<Option<Expr>>): Option<Expr> {
    if deps == [] then None
    else AllocOr(DirectDependency(deps[..|deps| - 1]), deps[|deps| - 1])
  }

  /** Some definition has no condition while all that have one are off. */
  predicate Overlooked(deps: seq<Option<Expr>>, v: Valuation) {
    && None in deps
    && (exists k :: 0 <= k < |deps| && deps[k].Some?)
    && (forall k :: 0 <= k < |deps| && deps[k].Some? ==> Eval(deps[k].value, v) == No)
  }

  /** Either no definition has a condition, or the dependency is the best of those that exist. */
  lemma {:induction false} DirectDependencyMeaning(deps: seq<Option<Expr>>, v: Valuation)
    ensures DirectDependency(deps).None? <==> forall k :: 0 <= k < |deps| ==> deps[k].None?
    ensures forall k :: 0 <= k < |deps| && deps[k].Some? ==>
              Level(Eval(deps[k].value, v)) <= Level(EvalOpt(DirectDependency(deps), v))
    ensures DirectDependency(deps).Some? ==>
              exists k :: 0 <= k < |deps| && deps[k].Some?
                          && Eval(deps[k].value, v) == EvalOpt(DirectDependency(deps), v)
  {
    if deps != [] {
      var n := |deps| - 1;
      DirectDependencyMeaning(deps[..n], v);
      assert forall k :: 0 <= k < n ==> deps[..n][k] == deps[k];
      if DirectDependency(deps[..n]).Some? {
        var k :| 0 <= k < n && deps[..n][k].Some?
                 && Eval(deps[..n][k].value, v) == EvalOpt(DirectDependency(deps[..n]), v);
        if deps[n].Some? && Level(Eval(deps[n].value, v)) > Level(Eval(deps[k].value, v)) {
          assert Eval(deps[n].value, v) == EvalOpt(DirectDependency(deps), v);
        } else {
          assert deps[k].Some? && Eval(deps[k].value, v) == EvalOpt(DirectDependency(deps), v);
        }
      } else if deps[n].Some? {
        assert deps[n].Some? && Eval(deps[n].value, v) == EvalOpt(DirectDependency(deps), v);
      }
    }
  }

  /**
    A symbol one of whose definitions is on has its direct dependency on, exactly unless a definition
    without condition is overlooked: expr_alloc_or drops the NULL that stands for y.
   */
  lemma DirectDependencyCovers(deps: seq<Option<Expr>>, v: Valuation)
    ensures (forall k :: 0 <= k < |deps| && EvalOpt(deps[k], v) != No ==> EvalOpt(DirectDependency(deps), v) != No)
            <==> !Overlooked(deps, v)
  {
    DirectDependencyMeaning(deps, v);
    if Overlooked(deps, v) {
      var k :| 0 <= k < |deps| && deps[k] == None;
      assert EvalOpt(deps[k], v) != No;
    }
  }

  /** Where the definition of a property of a symbol stands, and what it says. */
  datatype Site = Site(definition: nat, cond: Option<Expr>)

  /** The condition menu_finalize gives a property written at a site. */
  function SiteCondition(deps: seq<Option<Expr>>, site: Site, ty: SymbolType, modules: Symbol): Option<Expr>
    requires site.definition < |deps|
  {
    PropertyCondition(deps[site.definition], site.cond, Some(ty), modules)
  }

  /** d is what menu_finalize makes of a symbol with the given definitions and property sites. */
  ghost predicate Finalized(d: Decl, deps: seq<Option<Expr>>, sites: seq<Site>, modules: Symbol) {
    && d.dirDep == DirectDependency(deps)
    && |sites| == |d.props|
    && (forall k :: 0 <= k < |deps| ==> RegularOpt(deps[k], NORMAL))
    && (forall k :: 0 <= k < |sites| && (d.props[k].Prompt? || d.props[k].Default?) ==>
          && sites[k].definition < |deps|
          && RegularOpt(sites[k].cond, PARSED)
          && d.props[k].cond == SiteCondition(deps, sites[k], d.ty, modules))
  }

  /** A prompt or default is only on where the direct dependency is. */
  lemma PropertyNeedsDependency(d: Decl, deps: seq<Option<Expr>>, sites: seq<Site>, modules: Symbol, k: nat,
                                v: Valuation)
    requires Admissible(v) && Finalized(d, deps, sites, modules) && !Overlooked(deps, v)
    requires k < |d.props| && (d.props[k].Prompt? || d.props[k].Default?) && EvalOpt(d.props[k].cond, v) != No
    ensures EvalOpt(d.dirDep, v) != No
  {
    var i := sites[k].definition;
    PropertyConditionMeaning(deps[i], sites[k].cond, Some(d.ty), modules, v);
    DirectDependencyCovers(deps, v);
    assert EvalOpt(deps[i], v) != No;
  }

  /**
    No value without a reason: a bool or tristate symbol above n has its direct dependency above n or
    is selected, unless one of its definitions is overlooked.
   */
  lemma ValueNeedsDependency(t: Table, user: User, s: seq<Result>, i: nat, deps: seq<Option<Expr>>, sites: seq<Site>,
                             modules: Symbol)
    requires WellFormed(t) && Solution(t, user, s) && i < |s| && IsLogical(Symbol(i, t.decls[i].ty, false))
    requires Finalized(t.decls[i], deps, sites, modules) && !Overlooked(deps, ValuationOf(t, s))
    requires s[i].curr.tri != No
    ensures s[i].dirDep != No || s[i].revDep != No
  {
    var d, v := t.decls[i], ValuationOf(t, s);
    SolutionAdmissible(t, user, s);
    TypedSolved(t, user, s, i);
    if s[i].dirDep == No {
      forall k | 0 <= k < |d.props| && (d.props[k].Prompt? || d.props[k].Default?)
        ensures EvalOpt(d.props[k].cond, v) == No
      {
        if EvalOpt(d.props[k].cond, v) != No { PropertyNeedsDependency(d, deps, sites, modules, k, v); }
      }
      NoPropertyOn(d.props, v);
    }
  }

  lemma {:induction false} NoPropertyOn(props: seq<Property>, v: Valuation)
    requires forall k :: 0 <= k < |props| && (props[k].Prompt? || props[k].Default?) ==> EvalOpt(props[k].cond, v) == No
    ensures PromptValue(props, v) == No && FirstDefault(props, v) == None
  {
    if props != [] {
      assert forall k :: 0 <= k < |props[1..]| ==> props[1..][k] == props[k + 1];
      NoPropertyOn(props[1..], v);
    }
  }

  /** A bool symbol defined once without condition and with a prompt, and once under A. */
  function TwiceDefined(a: Symbol): Decl {
    Decl(Boolean, "X", false, [Prompt(None)], DirectDependency([None, Some(Atom(a))]), None, None, false)
  }

  /** With A at n the first definition is overlooked: the symbol is visible and y, and its direct dependency is n. */
  lemma OverlookedHappens(t: Table, user: User, rank: seq<nat>, s: seq<Result>, modules: Symbol)
    requires t.decls == [Constant("n"), Constant("m"), Constant("y"),
                         Decl(Boolean, "A", false, [], None, None, None, false),
                         TwiceDefined(Symbol(3, Boolean, false))]
    requires user == [None, None, None, None, Some(Value(Yes, ""))] && Posed(t, user, rank, s)
    ensures var deps := [None, Some(Atom(Symbol(3, Boolean, false)))];
            Finalized(t.decls[4], deps, [Site(0, None)], modules) && Overlooked(deps, ValuationOf(t, s))
    ensures s[4].visible == Yes && s[4].curr.tri == Yes && s[4].dirDep == No && s[4].revDep == No
  {
    var a := Symbol(3, Boolean, false);
    var deps, props: seq<Property> := [None, Some(Atom(a))], [Prompt(None)];
    TypedSolved(t, user, s, 3);
    var one: seq<Option<Expr>> := [None];
    assert deps[..1] == one && one[..0] == [];
    assert DirectDependency(one) == None;
    assert DirectDependency(deps) == Some(Atom(a));
    assert PromptValue(props, ValuationOf(t, s)) == Or(Yes, PromptValue(props[1..], ValuationOf(t, s)));
    assert deps[1].Some? && deps[0] == None;
    TypedSolved(t, user, s, 4);
  }
}
