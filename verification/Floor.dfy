/**
  What the selects, implies and conditions in a menu tree mean for the values of symbols: the floors they
  give, and the reasons every value above n must have.
 */
module Floors {
  import opened Tristates
  import opened Exprs
  import opened Dups
  import opened Transforms
  import opened Configs
  import opened Propagation
  import opened Menus
  import opened MenuLinks
  import opened Selects

  /** What the parser hands over: no symbol has dependencies yet, and all conditions keep the discipline. */
  ghost predicate FromParser(y: Symbols, n: Node) {
    && y.revDep == map[] && y.implied == map[] && y.dirDep == map[]
    && Distinct(n.kids) && Menus.Parsed(n.kids) && RegularOpt(ParentDep(n.e), NORMAL)
    && forall i: nat, k :: 0 <= k < |PropsOf(y, i)| ==> RegularOpt(PropsOf(y, i)[k].p.cond, PARSED)
  }

  /** What a select promises: the minimum of its symbol, the condition of its node and its own. */
  function Declared(y: Symbols, e: Entry, k: nat, modules: Symbol, v: Valuation): Tristate
    requires e.sym.Some? && k < |PropsOf(y, e.sym.value.id)|
  {
    var cond := PropsOf(y, e.sym.value.id)[k].p.cond;
    And(v.tri(e.sym.value), And(EvalOpt(e.dep, v), EvalOpt(cond, WithoutModules(v, modules))))
  }

  /** A y that expr_trans_bool, called for a symbol that is not tristate, has made an m. */
  predicate Softened(y: Symbols, e: Entry, k: nat, modules: Symbol, v: Valuation)
    requires e.sym.Some? && k < |PropsOf(y, e.sym.value.id)|
  {
    var c := Inherit(e.dep, PropsOf(y, e.sym.value.id)[k].p.cond, modules);
    Untristate(Some(e.sym.value.ty)) && v.tri(e.sym.value) == Yes && c.Some? && Exposed(c.value, v)
  }

  lemma {:induction false} EntriesNormal(d: Option<Expr>, fs: seq<Node>, modules: Symbol, e: Entry, v: Valuation)
    requires Admissible(v) && RegularOpt(d, NORMAL) && Menus.Parsed(fs)
    requires e in Preorder(Plain(HandDownAll(d, fs, modules), modules))
    ensures RegularOpt(e.dep, NORMAL)
    decreases Menus.Count(fs)
  {
    if fs != [] {
      var e0 := HandDown(d, fs[0].e, modules);
      HandDownMeaning(d, fs[0].e, modules, v);
      InheritMeaning(d, fs[0].e.dep, modules, v);
      var n := Node(e0, fs[0].kids);
      var all, rest := HandDownAll(d, fs, modules), HandDownAll(d, fs[1..], modules);
      assert all == [n] + rest && all[1..] == rest;
      assert Plain(all, modules) == [Node(e0, Below(n, modules))] + Plain(rest, modules);
      assert Preorder(Plain(all, modules)) == [e0] + Preorder(Below(n, modules)) + Preorder(Plain(rest, modules));
      if e in Preorder(Below(n, modules)) {
        EntriesNormal(ParentDep(e0), fs[0].kids, modules, e, v);
      } else if e in Preorder(Plain(rest, modules)) {
        EntriesNormal(d, fs[1..], modules, e, v);
      }
    }
  }

  lemma TermExact(y: Symbols, n: Node, modules: Symbol, e: Entry, k: nat, v: Valuation)
    requires Admissible(v) && FromParser(y, n) && e in Entries(n, modules)
    requires e.sym.Some? && k < |PropsOf(y, e.sym.value.id)|
    ensures Term(y, e, k, modules, v) == if Softened(y, e, k, modules, v) then Mod else Declared(y, e, k, modules, v)
    ensures Softened(y, e, k, modules, v) ==> Declared(y, e, k, modules, v) == Yes
  {
    FinalPreorder(n, modules);
    EntriesNormal(ParentDep(n.e), n.kids, modules, e, v);
    PropertyConditionExact(e.dep, PropsOf(y, e.sym.value.id)[k].p.cond, Some(e.sym.value.ty), modules, v);
  }

  /** The k-th property of the symbol of e promises y and gives it. */
  predicate Kept(y: Symbols, e: Entry, k: nat, modules: Symbol, v: Valuation)
    requires e.sym.Some? && k < |PropsOf(y, e.sym.value.id)|
  {
    !Softened(y, e, k, modules, v) && Declared(y, e, k, modules, v) == Yes
  }

  /** Some select (or imply) of symbol i is at y and has not been softened. */
  ghost predicate Firm(y: Symbols, n: Node, modules: Symbol, i: nat, kind: Kind, v: Valuation) {
    exists e, k: nat :: Placed(y, n, modules, e, k, i, kind) && Kept(y, e, k, modules, v)
  }

  /** The dependency is at least what a select promises exactly if that one has not been softened or another is firm. */
  lemma PromiseKept(y: Symbols, n: Node, modules: Symbol, e: Entry, k: nat, i: nat, kind: Kind, v: Valuation)
    requires Admissible(v) && FromParser(y, n) && Placed(y, n, modules, e, k, i, kind)
    ensures var w, d := Worth(Deps(After(y, n, modules), kind), i, v), Declared(y, e, k, modules, v);
            && (Level(d) <= Level(w) <==> !Softened(y, e, k, modules, v) || Firm(y, n, modules, i, kind, v))
            && (w == No ==> d == No)
            && (Softened(y, e, k, modules, v) ==> d == Yes)
  {
    var w := Worth(Deps(After(y, n, modules), kind), i, v);
    DependencyIsMaximum(y, n, modules, i, kind, v);
    TermExact(y, n, modules, e, k, v);
    if Firm(y, n, modules, i, kind, v) {
      var e', k': nat :| Placed(y, n, modules, e', k', i, kind) && Kept(y, e', k', modules, v);
      TermExact(y, n, modules, e', k', v);
    } else if w == Yes {
      var e', k': nat :| Placed(y, n, modules, e', k', i, kind) && Term(y, e', k', modules, v) == w;
      TermExact(y, n, modules, e', k', v);
      assert false;
    }
  }

  /** d is declared with the dependencies that menu_finalize leaves in symbol i, and its properties. */
  ghost predicate Leaves(d: Decl, y: Symbols, i: nat) {
    && d.dirDep == Look(y.dirDep, i) && d.revDep == Look(y.revDep, i) && d.implied == Look(y.implied, i)
    && |d.props| == |PropsOf(y, i)| && forall k :: 0 <= k < |d.props| ==> d.props[k] == PropsOf(y, i)[k].p
  }

  /** How a floor d compares with the dependency w after m has been made y for a bool symbol. */
  lemma PromoteLevels(t: Table, ty: SymbolType, d: Tristate, w: Tristate)
    requires w == No ==> d == No
    ensures Level(Promote(t, ty, d)) <= Level(Promote(t, ty, w)) <==>
              (EffectiveType(t, ty) == Boolean || Level(d) <= Level(w))
  {
  }

  lemma Solved(t: Table, user: User, s: seq<Result>, i: nat, y: Symbols)
    requires WellFormed(t) && Solution(t, user, s) && i < |s|
    requires (t.decls[i].ty == Boolean || t.decls[i].ty == Trivalued)
    requires Leaves(t.decls[i], y, i)
    ensures var v := ValuationOf(t, s);
            && s[i].dirDep == Promote(t, t.decls[i].ty, EvalOpt(Look(y.dirDep, i), v))
            && s[i].revDep == Promote(t, t.decls[i].ty, Worth(y.revDep, i, v))
            && Level(s[i].revDep) <= Level(s[i].curr.tri)
            && (s[i].dirDep != No ==> s[i].implied == Promote(t, t.decls[i].ty, Worth(y.implied, i, v)))
            && (s[i].dirDep == No ==> s[i].implied == No)
            && (user[i].None? || s[i].visible == No ==> Level(s[i].implied) <= Level(s[i].curr.tri))
  {
    TypedSolved(t, user, s, i);
  }

  /**
    A selected symbol has at least the floor that its selects give. The floor is what a select promises
    exactly where the selected symbol is bool, the select has not been softened, or another one is firm.
   */
  lemma SelectFloor(t: Table, user: User, s: seq<Result>, i: nat, y: Symbols, n: Node, modules: Symbol, e: Entry,
                    k: nat)
    requires WellFormed(t) && Solution(t, user, s) && i < |s|
    requires (t.decls[i].ty == Boolean || t.decls[i].ty == Trivalued)
    requires FromParser(y, n) && Leaves(t.decls[i], After(y, n, modules), i)
    requires Placed(y, n, modules, e, k, i, Selecting)
    ensures var v := ValuationOf(t, s);
            var floor := Promote(t, t.decls[i].ty, Declared(y, e, k, modules, v));
            && (Level(floor) <= Level(s[i].revDep)
                <==> EffectiveType(t, t.decls[i].ty) == Boolean || !Softened(y, e, k, modules, v)
                     || Firm(y, n, modules, i, Selecting, v))
            && Level(s[i].revDep) <= Level(s[i].curr.tri)
            && (s[i].curr.tri == No ==> floor == No)
  {
    var v := ValuationOf(t, s);
    SolutionAdmissible(t, user, s);
    PromiseKept(y, n, modules, e, k, i, Selecting, v);
    Solved(t, user, s, i, After(y, n, modules));
    PromoteLevels(t, t.decls[i].ty, Declared(y, e, k, modules, v), Worth(After(y, n, modules).revDep, i, v));
  }

  /** The same for imply, where the user has no say and the direct dependency is not n; otherwise imply does nothing. */
  lemma ImplyFloor(t: Table, user: User, s: seq<Result>, i: nat, y: Symbols, n: Node, modules: Symbol, e: Entry, k: nat)
    requires WellFormed(t) && Solution(t, user, s) && i < |s|
    requires (t.decls[i].ty == Boolean || t.decls[i].ty == Trivalued)
    requires FromParser(y, n) && Leaves(t.decls[i], After(y, n, modules), i) && Placed(y, n, modules, e, k, i, Implying)
    ensures s[i].dirDep == No ==> s[i].implied == No
    ensures user[i].None? || s[i].visible == No ==> Level(s[i].implied) <= Level(s[i].curr.tri)
    ensures var v := ValuationOf(t, s);
            var floor := Promote(t, t.decls[i].ty, Declared(y, e, k, modules, v));
            s[i].dirDep != No ==>
              (Level(floor) <= Level(s[i].implied)
               <==> EffectiveType(t, t.decls[i].ty) == Boolean || !Softened(y, e, k, modules, v)
                    || Firm(y, n, modules, i, Implying, v))
  {
    var v := ValuationOf(t, s);
    SolutionAdmissible(t, user, s);
    PromiseKept(y, n, modules, e, k, i, Implying, v);
    Solved(t, user, s, i, After(y, n, modules));
    PromoteLevels(t, t.decls[i].ty, Declared(y, e, k, modules, v), Worth(After(y, n, modules).implied, i, v));
  }

  /** A single test passes through the simplifier as it is. */
  lemma SingleSettled(a: Symbol, modules: Symbol)
    requires a.ty == Trivalued
    ensures Inherit(None, Some(Compare(Ne, a, NO)), modules) == Some(Compare(Ne, a, NO))
  {
    EliminateDupsSettles(Compare(Ne, a, NO));
  }

  /** The failing case: a bool symbol at y selects another if A != n, and A is m. */
  lemma SoftenedHappens(y: Symbols, e: Entry, sel: Symbol, a: Symbol, i: nat, modules: Symbol, v: Valuation)
    requires Admissible(v) && sel.ty == Boolean && v.tri(sel) == Yes && a.ty == Trivalued && v.tri(a) == Mod
    requires e.sym == Some(sel) && e.dep == None && i !in y.revDep
    requires PropsOf(y, sel.id) == [Located(Some(e.id), Select(Some(Compare(Ne, a, NO)), i))]
    ensures Declared(y, e, 0, modules, v) == Yes
    ensures Worth(Treat(y, e, modules).revDep, i, v) == Mod
  {
    var c := Compare(Ne, a, NO);
    CompareWithConstant(v, a, NO);
    SingleSettled(a, modules);
    RewriteMMeaning(c, modules, v);
    TreatPropWorth(y, e, 0, modules, i, Selecting, v);
    assert TreatFrom(TreatProp(y, e, sel, 0, modules), e, sel, 1, modules) == TreatProp(y, e, sel, 0, modules);
  }

  // ------------------------------------------------- reasons for a value

  /** No node of symbol i has children before menu_finalize; only those of choices do. */
  ghost predicate Childless(fs: seq<Node>, i: nat)
    decreases Menus.Count(fs)
  {
    fs != [] ==>
      && (fs[0].e.sym.Some? && fs[0].e.sym.value.id == i ==> fs[0].kids == [])
      && Childless(fs[0].kids, i) && Childless(fs[1..], i)
  }

  lemma {:induction false} HandDownChildless(d: Option<Expr>, fs: seq<Node>, modules: Symbol, i: nat)
    requires Childless(fs, i)
    ensures Childless(HandDownAll(d, fs, modules), i)
  {
    if fs != [] {
      HandDownChildless(d, fs[1..], modules, i);
      assert HandDownAll(d, fs, modules)[1..] == HandDownAll(d, fs[1..], modules);
    }
  }

  lemma {:induction false} PlainChildless(fs: seq<Node>, modules: Symbol, i: nat)
    requires Childless(fs, i)
    ensures Childless(Plain(fs, modules), i)
    decreases Menus.Count(fs)
  {
    if fs != [] {
      HandDownChildless(ParentDep(fs[0].e), fs[0].kids, modules, i);
      PlainChildless(HandDownAll(ParentDep(fs[0].e), fs[0].kids, modules), modules, i);
      PlainChildless(fs[1..], modules, i);
      assert Plain(fs, modules)[1..] == Plain(fs[1..], modules);
    }
  }

  lemma {:induction false} DirectedOf(fs: seq<Node>, e: Entry)
    ensures Directed(e) in Expected(fs) ==> e in Preorder(fs)
    ensures e in Preorder(fs) && e.sym.Some? && Childless(fs, e.sym.value.id) ==> Directed(e) in Expected(fs)
    decreases Menus.Count(fs)
  {
    if fs != [] {
      DirectedOf(fs[0].kids, e);
      DirectedOf(fs[1..], e);
    }
  }

  lemma {:induction false} DepsInExact(es: seq<Event>, i: nat, d: Option<Expr>)
    ensures d in DepsIn(es, i) <==> exists e :: Directed(e) in es && e.sym.Some? && e.sym.value.id == i && e.dep == d
  {
    if es != [] {
      DepsInExact(es[1..], i, d);
      assert forall e :: Directed(e) in es <==> Directed(e) == es[0] || Directed(e) in es[1..];
    }
  }

  /** The conditions of the definitions of symbol i, as they end up in its direct dependency. */
  function Definitions(n: Node, modules: Symbol, i: nat): seq<Option<Expr>> {
    DepsIn(Events(n, [], modules), i)
  }

  /** They are those of its nodes in the finished tree. */
  lemma DefinitionsExact(n: Node, modules: Symbol, i: nat, d: Option<Expr>)
    requires n.kids != [] && Childless(n.kids, i)
    ensures d in Definitions(n, modules, i) <==>
              exists e :: e in Entries(n, modules) && e.sym.Some? && e.sym.value.id == i && e.dep == d
  {
    var es, below := Events(n, [], modules), Below(n, modules);
    RootEvents(n, modules);
    FinalPreorder(n, modules);
    HandDownChildless(ParentDep(n.e), n.kids, modules, i);
    PlainChildless(HandDownAll(ParentDep(n.e), n.kids, modules), modules, i);
    DepsInExact(es, i, d);
    forall e: Entry | e.sym.Some? && e.sym.value.id == i ensures Directed(e) in es <==> e in Preorder(below) {
      DirectedOf(below, e);
      assert Directed(e) in es <==> Directed(e) in multiset(es);
    }
  }

  /** Every prompt and default of sym is written at one of its nodes in the finished tree. */
  ghost predicate AllPlaced(y: Symbols, n: Node, modules: Symbol, sym: Symbol) {
    forall k :: 0 <= k < |PropsOf(y, sym.id)| && !IsPlain(PropsOf(y, sym.id)[k].p) ==> HasPlace(y, n, modules, sym, k)
  }

  /** Neither a prompt nor a default. */
  predicate IsPlain(p: Property) {
    !p.Prompt? && !p.Default?
  }

  ghost predicate HasPlace(y: Symbols, n: Node, modules: Symbol, sym: Symbol, k: nat)
    requires k < |PropsOf(y, sym.id)|
  {
    exists e :: e in Entries(n, modules) && e.sym == Some(sym) && PropsOf(y, sym.id)[k].menu == Some(e.id)
  }

  /** site says where the k-th property of sym was written, and its final condition is the one for that place. */
  ghost predicate IsSite(y: Symbols, n: Node, modules: Symbol, sym: Symbol, k: nat, site: Site) {
    var deps, props := Definitions(n, modules, sym.id), PropsOf(After(y, n, modules), sym.id);
    && site.definition < |deps| && RegularOpt(site.cond, PARSED)
    && k < |props| && props[k].p.cond == SiteCondition(deps, site, sym.ty, modules)
  }

  lemma SiteOf(y: Symbols, n: Node, modules: Symbol, sym: Symbol, k: nat)
    requires FromParser(y, n) && n.kids != [] && Childless(n.kids, sym.id)
    requires k < |PropsOf(y, sym.id)| && HasPlace(y, n, modules, sym, k)
    ensures exists site :: IsSite(y, n, modules, sym, k, site)
  {
    var e :| e in Entries(n, modules) && e.sym == Some(sym) && PropsOf(y, sym.id)[k].menu == Some(e.id);
    var deps := Definitions(n, modules, sym.id);
    DefinitionsExact(n, modules, sym.id, e.dep);
    FinalCondition(y, n, modules, e, k);
    var j :| 0 <= j < |deps| && deps[j] == e.dep;
    assert IsSite(y, n, modules, sym, k, Site(j, PropsOf(y, sym.id)[k].p.cond));
  }

  lemma {:induction false} SitesOf(y: Symbols, n: Node, modules: Symbol, sym: Symbol, k: nat) returns (sites: seq<Site>)
    requires FromParser(y, n) && n.kids != [] && Childless(n.kids, sym.id)
    requires AllPlaced(y, n, modules, sym) && k <= |PropsOf(y, sym.id)|
    ensures |sites| == k
    ensures forall j :: 0 <= j < k && !IsPlain(PropsOf(y, sym.id)[j].p) ==> IsSite(y, n, modules, sym, j, sites[j])
  {
    if k == 0 {
      sites := [];
    } else {
      sites := SitesOf(y, n, modules, sym, k - 1);
      var site := Site(0, None);
      if !IsPlain(PropsOf(y, sym.id)[k - 1].p) {
        SiteOf(y, n, modules, sym, k - 1);
        site :| IsSite(y, n, modules, sym, k - 1, site);
      }
      sites := sites + [site];
    }
  }

  /** What menu_finalize of the whole tree leaves in a symbol is what the theorems on direct dependencies assume. */
  lemma BecomesFinalized(d: Decl, y: Symbols, n: Node, modules: Symbol, i: nat, v: Valuation)
    requires Admissible(v) && FromParser(y, n) && n.kids != [] && Childless(n.kids, i)
    requires AllPlaced(y, n, modules, Symbol(i, d.ty, d.isConst)) && Leaves(d, After(y, n, modules), i)
    ensures exists sites :: Finalized(d, Definitions(n, modules, i), sites, modules)
  {
    var sym, deps := Symbol(i, d.ty, d.isConst), Definitions(n, modules, i);
    RunShape(y, Events(n, [], modules), modules, i);
    var sites := SitesOf(y, n, modules, sym, |PropsOf(y, i)|);
    DirectIsDependency(y, Events(n, [], modules), modules, i, []);
    assert [] + deps == deps;
    forall k | 0 <= k < |deps| ensures RegularOpt(deps[k], NORMAL) {
      DefinitionNormal(y, n, modules, i, deps[k], v);
    }
    forall k | 0 <= k < |sites| && (d.props[k].Prompt? || d.props[k].Default?)
      ensures IsSite(y, n, modules, sym, k, sites[k])
    {
      assert SameProperty(PropsOf(y, i)[k], PropsOf(After(y, n, modules), i)[k]);
    }
    assert Finalized(d, deps, sites, modules);
  }

  lemma DefinitionNormal(y: Symbols, n: Node, modules: Symbol, i: nat, dep: Option<Expr>, v: Valuation)
    requires Admissible(v) && FromParser(y, n) && n.kids != []
    requires Childless(n.kids, i) && dep in Definitions(n, modules, i)
    ensures RegularOpt(dep, NORMAL)
  {
    DefinitionsExact(n, modules, i, dep);
    FinalPreorder(n, modules);
    var e :| e in Entries(n, modules) && e.sym.Some? && e.sym.value.id == i && e.dep == dep;
    EntriesNormal(ParentDep(n.e), n.kids, modules, e, v);
  }

  /** A node of the symbol is on, or a select of it is: its symbol and everything it is written under. */
  ghost predicate HasReason(y: Symbols, n: Node, modules: Symbol, i: nat, v: Valuation) {
    || (exists dep :: dep in Definitions(n, modules, i) && EvalOpt(dep, v) != No)
    || (exists e, k: nat :: Placed(y, n, modules, e, k, i, Selecting) && Declared(y, e, k, modules, v) != No)
  }

  /**
    No bool or tristate symbol is above n without a reason in the Kconfig files: the condition of one of its
    nodes, or a select whose symbol, node and condition are not n. Overlooked definitions are excluded.
   */
  lemma ValueHasReason(t: Table, user: User, s: seq<Result>, i: nat, y: Symbols, n: Node, modules: Symbol)
    requires WellFormed(t) && Solution(t, user, s) && i < |s|
    requires (t.decls[i].ty == Boolean || t.decls[i].ty == Trivalued)
    requires FromParser(y, n) && n.kids != [] && Childless(n.kids, i) && !t.decls[i].isConst
    requires AllPlaced(y, n, modules, Symbol(i, t.decls[i].ty, false)) && Leaves(t.decls[i], After(y, n, modules), i)
    requires Definitions(n, modules, i) != [] && !Overlooked(Definitions(n, modules, i), ValuationOf(t, s))
    ensures s[i].curr.tri != No ==> HasReason(y, n, modules, i, ValuationOf(t, s))
  {
    if s[i].curr.tri != No {
      var v, deps := ValuationOf(t, s), Definitions(n, modules, i);
      SolutionAdmissible(t, user, s);
      BecomesFinalized(t.decls[i], y, n, modules, i, v);
      var sites :| Finalized(t.decls[i], deps, sites, modules);
      ValueNeedsDependency(t, user, s, i, deps, sites, modules);
      Solved(t, user, s, i, After(y, n, modules));
      if s[i].revDep != No {
        SelectReason(y, n, modules, i, v);
      } else {
        DirectReason(deps, v);
      }
    }
  }

  lemma SelectReason(y: Symbols, n: Node, modules: Symbol, i: nat, v: Valuation)
    requires Admissible(v) && FromParser(y, n) && Worth(After(y, n, modules).revDep, i, v) != No
    ensures exists e, k: nat :: Placed(y, n, modules, e, k, i, Selecting) && Declared(y, e, k, modules, v) != No
  {
    DependencyIsMaximum(y, n, modules, i, Selecting, v);
    var w := Worth(After(y, n, modules).revDep, i, v);
    var e, k: nat :| Placed(y, n, modules, e, k, i, Selecting) && Term(y, e, k, modules, v) == w;
    TermExact(y, n, modules, e, k, v);
  }

  lemma DirectReason(deps: seq<Option<Expr>>, v: Valuation)
    requires EvalOpt(DirectDependency(deps), v) != No && !Overlooked(deps, v)
    ensures deps != [] ==> exists dep :: dep in deps && EvalOpt(dep, v) != No
  {
    DirectDependencyMeaning(deps, v);
    if DirectDependency(deps).Some? {
      var k :| 0 <= k < |deps| && deps[k].Some? && Eval(deps[k].value, v) == EvalOpt(DirectDependency(deps), v);
      assert deps[k] in deps;
    } else if deps != [] {
      assert deps[0] in deps;
    }
  }
}
