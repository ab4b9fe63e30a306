/**
  What menu_finalize of menu.c makes of the symbols while it walks the menu tree: the conditions of their
  properties, the reverse and implied dependencies that selects and imply build up, and the direct
  dependencies.
 */
module Selects {
  import opened Tristates
  import opened Exprs
  import opened Dups
  import opened Transforms
  import opened Configs
  import opened Propagation
  import opened Menus
  import opened MenuLinks

  /** A property and the menu node it was written at, prop->menu; options have none. */
  datatype Located = Located(menu: Option<nat>, p: Property)

  /** The fields of struct symbol that menu_finalize updates, by symbol. An expression that is missing is NULL. */
  datatype Symbols = Symbols(
    props: map<nat, seq<Located>>, revDep: map<nat, Expr>, implied: map<nat, Expr>, dirDep: map<nat, Expr>)

  /** The two kinds of properties that act on another symbol. */
  datatype Kind = Selecting | Implying

  function Look(m: map<nat, Expr>, i: nat): Option<Expr> {
    if i in m then Some(m[i]) else None
  }

  function Put(m: map<nat, Expr>, i: nat, e: Option<Expr>): map<nat, Expr> {
    if e.None? then m else m[i := e.value]
  }

  function PropsOf(y: Symbols, i: nat): seq<Located> {
    if i in y.props then y.props[i] else []
  }

  function Deps(y: Symbols, kind: Kind): map<nat, Expr> {
    if kind == Selecting then y.revDep else y.implied
  }

  predicate IsOf(p: Property, kind: Kind) {
    if kind == Selecting then p.Select? else p.Imply?
  }

  // --------------------------------------------------------- one menu node

  /** p of the symbol sym adds sym && condition to the dependencies of its target. */
  function Added(y: Symbols, sym: Symbol, p: Property): (r: Symbols)
    ensures r.props == y.props
  {
    match p
    case Select(c, i) =>
      y.(revDep := Put(y.revDep, i, AllocOr(Look(y.revDep, i), AllocAnd(Some(Atom(sym)), c))))
    case Imply(c, i) =>
      y.(implied := Put(y.implied, i, AllocOr(Look(y.implied, i), AllocAnd(Some(Atom(sym)), c))))
    case _ => y
  }

  /** A property of sym with the condition that it gets at the node e. */
  function Conditioned(e: Entry, sym: Symbol, q: Located, modules: Symbol): Located {
    q.(p := q.p.(cond := PropertyCondition(e.dep, q.p.cond, Some(sym.ty), modules)))
  }

  /** The k-th property of sym, seen from the node e. */
  function TreatProp(y: Symbols, e: Entry, sym: Symbol, k: nat, modules: Symbol): (r: Symbols)
    requires k < |PropsOf(y, sym.id)|
    ensures |PropsOf(r, sym.id)| == |PropsOf(y, sym.id)|
  {
    var q := PropsOf(y, sym.id)[k];
    if q.menu != Some(e.id) then y
    else
      var q' := Conditioned(e, sym, q, modules);
      Added(y.(props := y.props[sym.id := y.props[sym.id][k := q']]), sym, q'.p)
  }

  function TreatFrom(y: Symbols, e: Entry, sym: Symbol, k: nat, modules: Symbol): Symbols
    requires k <= |PropsOf(y, sym.id)|
    decreases |PropsOf(y, sym.id)| - k
  {
    if k == |PropsOf(y, sym.id)| then y
    else TreatFrom(TreatProp(y, e, sym, k, modules), e, sym, k + 1, modules)
  }

  /** The loop over the properties of the symbol of node e, whose condition is final. */
  function Treat(y: Symbols, e: Entry, modules: Symbol): Symbols {
    if e.sym.None? then y else TreatFrom(y, e, e.sym.value, 0, modules)
  }

  /** The last statement for a symbol without children. */
  function Direct(y: Symbols, e: Entry): Symbols {
    if e.sym.None? then y
    else y.(dirDep := Put(y.dirDep, e.sym.value.id, AllocOr(Look(y.dirDep, e.sym.value.id), e.dep)))
  }

  // ------------------------------------------------------------ the whole walk

  /** What happens to the symbols: the properties at a node are treated, or its condition goes into dir_dep. */
  datatype Event = Treated(e: Entry) | Directed(e: Entry)

  function Step(y: Symbols, ev: Event, modules: Symbol): Symbols {
    match ev
    case Treated(e) => Treat(y, e, modules)
    case Directed(e) => Direct(y, e)
  }

  function Run(y: Symbols, es: seq<Event>, modules: Symbol): Symbols
    decreases es
  {
    if es == [] then y else Run(Step(y, es[0], modules), es[1..], modules)
  }

  lemma {:induction false} RunConcat(y: Symbols, a: seq<Event>, b: seq<Event>, modules: Symbol)
    ensures Run(y, a + b, modules) == Run(Run(y, a, modules), b, modules)
    decreases a
  {
    if a == [] {
      assert a + b == b;
    } else {
      assert (a + b)[1..] == a[1..] + b;
      RunConcat(Step(y, a[0], modules), a[1..], b, modules);
    }
  }

  function TreatedAll(fs: seq<Node>): seq<Event> {
    if fs == [] then [] else [Treated(fs[0].e)] + TreatedAll(fs[1..])
  }

  /** The events of menu_finalize of n, whose following siblings are rest, in order. */
  function Events(n: Node, rest: seq<Node>, modules: Symbol): seq<Event>
    decreases 1 + Menus.Count(n.kids) + Menus.Count(rest), 0
  {
    if n.kids != [] then
      var kids := HandDownAll(ParentDep(n.e), n.kids, modules);
      TreatedAll(kids) + EventsAll(kids, modules)
    else if n.e.sym.Some? then AbsorbEvents(n.e, rest, modules) + [Directed(n.e)]
    else []
  }

  function EventsAll(fs: seq<Node>, modules: Symbol): seq<Event>
    decreases Menus.Count(fs), 1
  {
    if fs == [] then []
    else Events(fs[0], fs[1..], modules) + EventsAll(Finalize(fs[0], fs[1..], modules).1, modules)
  }

  function AbsorbEvents(p: Entry, rest: seq<Node>, modules: Symbol): seq<Event>
    requires p.sym.Some?
    decreases Menus.Count(rest), 1
  {
    if rest == [] || !Absorbs(p, rest[0].e) then []
    else Events(rest[0], rest[1..], modules) + AbsorbEvents(p, Finalize(rest[0], rest[1..], modules).1, modules)
  }

  /** All entries below n in the finished tree. */
  function Entries(n: Node, modules: Symbol): seq<Entry> {
    Preorder(Finalize(n, [], modules).0.kids)
  }

  // ------------------------------------------------- every node exactly once

  function DirectOf(n: Node): multiset<Event> {
    if n.kids == [] && n.e.sym.Some? then multiset{Directed(n.e)} else multiset{}
  }

  /** Every node of fs is treated, and every symbol without children goes into its direct dependency. */
  function Expected(fs: seq<Node>): multiset<Event>
    decreases Menus.Count(fs)
  {
    if fs == [] then multiset{}
    else multiset{Treated(fs[0].e)} + DirectOf(fs[0]) + Expected(fs[0].kids) + Expected(fs[1..])
  }

  /** The same with conditions still to be handed down, but for the nodes of the list, which have been treated. */
  function Later(fs: seq<Node>, modules: Symbol): multiset<Event> {
    if fs == [] then multiset{}
    else DirectOf(fs[0]) + Expected(Below(fs[0], modules)) + Later(fs[1..], modules)
  }

  /** What is below n after all conditions have been handed down. */
  function Below(n: Node, modules: Symbol): seq<Node> {
    Plain(HandDownAll(ParentDep(n.e), n.kids, modules), modules)
  }

  lemma {:induction false} PlainExpected(fs: seq<Node>, modules: Symbol)
    ensures Expected(Plain(fs, modules)) == multiset(TreatedAll(fs)) + Later(fs, modules)
  {
    if fs != [] {
      PlainExpected(fs[1..], modules);
      var n := Node(fs[0].e, Below(fs[0], modules));
      assert Plain(fs, modules) == [n] + Plain(fs[1..], modules);
      ExpectedFirst(n, Plain(fs[1..], modules));
      assert multiset([Treated(n.e)] + TreatedAll(fs[1..])) == multiset{Treated(n.e)} + multiset(TreatedAll(fs[1..]));
    }
  }

  lemma ExpectedFirst(n: Node, rest: seq<Node>)
    ensures Expected([n] + rest) == multiset{Treated(n.e)} + DirectOf(n) + Expected(n.kids) + Expected(rest)
  {
    assert ([n] + rest)[1..] == rest;
  }

  lemma LaterSingle(n: Node, modules: Symbol)
    ensures Later([n], modules) == DirectOf(n) + Expected(Below(n, modules))
  {
    assert [n][1..] == [];
  }

  /** Finalizing n settles what is due for n and for those of its siblings that it takes. */
  lemma {:induction false} EventsComplete(n: Node, rest: seq<Node>, modules: Symbol)
    ensures multiset(Events(n, rest, modules)) + Later(Finalize(n, rest, modules).1, modules)
            == Later([n], modules) + Later(rest, modules)
    decreases 1 + Menus.Count(n.kids) + Menus.Count(rest), 0
  {
    LaterSingle(n, modules);
    if n.kids != [] {
      var kids := HandDownAll(ParentDep(n.e), n.kids, modules);
      EventsAllComplete(kids, modules);
      PlainExpected(kids, modules);
    } else if n.e.sym.Some? {
      AbsorbComplete(n.e, rest, modules);
      assert Below(n, modules) == [];
    } else {
      assert Below(n, modules) == [];
    }
  }

  lemma {:induction false} EventsAllComplete(fs: seq<Node>, modules: Symbol)
    ensures multiset(EventsAll(fs, modules)) == Later(fs, modules)
    decreases Menus.Count(fs), 1
  {
    if fs != [] {
      EventsComplete(fs[0], fs[1..], modules);
      EventsAllComplete(Finalize(fs[0], fs[1..], modules).1, modules);
      LaterSingle(fs[0], modules);
    }
  }

  lemma {:induction false} AbsorbComplete(p: Entry, rest: seq<Node>, modules: Symbol)
    requires p.sym.Some?
    ensures multiset(AbsorbEvents(p, rest, modules)) + Later(Absorb(p, rest, modules).1, modules)
              == Later(rest, modules)
    decreases Menus.Count(rest), 1
  {
    if rest != [] && Absorbs(p, rest[0].e) {
      EventsComplete(rest[0], rest[1..], modules);
      AbsorbComplete(p, Finalize(rest[0], rest[1..], modules).1, modules);
      LaterSingle(rest[0], modules);
    }
  }

  lemma {:induction false} ExpectedPreorder(fs: seq<Node>, e: Entry)
    ensures Expected(fs)[Treated(e)] == multiset(Preorder(fs))[e]
    decreases Menus.Count(fs)
  {
    if fs != [] {
      ExpectedPreorder(fs[0].kids, e);
      ExpectedPreorder(fs[1..], e);
    }
  }

  /**
    The loop over properties runs for each node below the one that menu_finalize was called on, once, and
    with the condition the node has in the end.
   */
  lemma EveryNodeOnce(n: Node, modules: Symbol, e: Entry)
    ensures multiset(Events(n, [], modules))[Treated(e)] == multiset(Entries(n, modules))[e]
  {
    RootEvents(n, modules);
    ExpectedPreorder(Below(n, modules), e);
    FinalPreorder(n, modules);
  }

  lemma RootEvents(n: Node, modules: Symbol)
    ensures multiset(Events(n, [], modules)) == DirectOf(n) + Expected(Below(n, modules))
  {
    EventsComplete(n, [], modules);
    LaterSingle(n, modules);
    RestGone(n, modules);
    assert Later([], modules) == multiset{};
  }

  lemma FinalPreorder(n: Node, modules: Symbol)
    ensures Entries(n, modules) == Preorder(Below(n, modules))
  {
    var n' := Finalize(n, [], modules).0;
    FinalizePreorder(n, [], modules);
    SinglePreorder(n, modules);
    SinglePreorder(n', modules);
    RestGone(n, modules);
    SameTail(n.e, Preorder(n'.kids), Preorder(Below(n, modules)));
  }

  lemma SameTail(e: Entry, a: seq<Entry>, b: seq<Entry>)
    requires [e] + a == [e] + b
    ensures a == b
  {
    assert a == ([e] + a)[1..] && b == ([e] + b)[1..];
  }

  lemma RestGone(n: Node, modules: Symbol)
    ensures Finalize(n, [], modules).1 == []
  {
  }

  // ---------------------------------------------- no node is treated twice

  ghost predicate DistinctTreated(es: seq<Event>) {
    forall i, j :: 0 <= i < j < |es| && es[i].Treated? && es[j].Treated? ==> es[i].e.id != es[j].e.id
  }

  lemma {:induction false} PlainIds(fs: seq<Node>, modules: Symbol)
    ensures Ids(Plain(fs, modules)) == Ids(fs)
    ensures Distinct(Plain(fs, modules)) <==> Distinct(fs)
    decreases Menus.Count(fs)
  {
    if fs != [] {
      var n := Node(fs[0].e, Below(fs[0], modules));
      HandDownIds(ParentDep(fs[0].e), fs[0].kids, modules);
      PlainIds(HandDownAll(ParentDep(fs[0].e), fs[0].kids, modules), modules);
      PlainIds(fs[1..], modules);
      assert Plain(fs, modules) == [n] + Plain(fs[1..], modules);
      IdsFirst(n, Plain(fs[1..], modules));
    }
  }

  lemma BelowIds(n: Node, modules: Symbol)
    ensures Ids(Below(n, modules)) == Ids(n.kids)
    ensures Distinct(Below(n, modules)) <==> Distinct(n.kids)
  {
    HandDownIds(ParentDep(n.e), n.kids, modules);
    PlainIds(HandDownAll(ParentDep(n.e), n.kids, modules), modules);
  }

  lemma {:induction false} PreorderIds(fs: seq<Node>, e: Entry)
    requires e in Preorder(fs)
    ensures e.id in Ids(fs)
    decreases Menus.Count(fs)
  {
    if e in Preorder(fs[0].kids) {
      PreorderIds(fs[0].kids, e);
    } else if e in Preorder(fs[1..]) {
      PreorderIds(fs[1..], e);
    }
  }

  /** In a forest without repeated nodes an id determines its entry, which occurs once. */
  lemma {:induction false} PreorderOnce(fs: seq<Node>, e: Entry, e': Entry)
    requires Distinct(fs) && e in Preorder(fs) && e' in Preorder(fs) && e.id == e'.id
    ensures e == e' && multiset(Preorder(fs))[e] == 1
    decreases Menus.Count(fs)
  {
    var first, kids, rest := fs[0].e, Preorder(fs[0].kids), Preorder(fs[1..]);
    assert multiset(Preorder(fs)) == multiset{first} + multiset(kids) + multiset(rest);
    forall x | x in [e, e'] ensures (x in kids ==> x.id in Ids(fs[0].kids)) && (x in rest ==> x.id in Ids(fs[1..])) {
      if x in kids { PreorderIds(fs[0].kids, x); }
      if x in rest { PreorderIds(fs[1..], x); }
    }
    assert e in [e, e'] && e' in [e, e'];
    if e in kids && e' in kids {
      PreorderOnce(fs[0].kids, e, e');
    } else if e in rest && e' in rest {
      PreorderOnce(fs[1..], e, e');
    }
  }

  lemma TwiceIn(es: seq<Event>, i: nat, j: nat)
    requires i < j < |es| && es[i] == es[j]
    ensures multiset(es)[es[i]] >= 2
  {
    assert es == es[..j] + es[j..];
    assert multiset(es) == multiset(es[..j]) + multiset(es[j..]);
    assert es[..j][i] == es[i] && es[j..][0] == es[j];
  }

  lemma TreatedOnce(n: Node, modules: Symbol)
    requires Distinct(n.kids)
    ensures DistinctTreated(Events(n, [], modules))
  {
    var es, fs := Events(n, [], modules), Finalize(n, [], modules).0.kids;
    forall i, j | 0 <= i < j < |es| && es[i].Treated? && es[j].Treated? ensures es[i].e.id != es[j].e.id {
      if es[i].e.id == es[j].e.id {
        TreatedOf(n, modules, es[i].e);
        TreatedOf(n, modules, es[j].e);
        BelowIds(n, modules);
        FinalPreorder(n, modules);
        PreorderOnce(Below(n, modules), es[i].e, es[j].e);
        EveryNodeOnce(n, modules, es[i].e);
        TwiceIn(es, i, j);
        assert false;
      }
    }
  }

  lemma TreatedOf(n: Node, modules: Symbol, e: Entry)
    ensures Treated(e) in Events(n, [], modules) <==> e in Entries(n, modules)
  {
    EveryNodeOnce(n, modules, e);
    assert Treated(e) in multiset(Events(n, [], modules)) <==> Treated(e) in Events(n, [], modules);
    assert e in multiset(Entries(n, modules)) <==> e in Entries(n, modules);
  }

  // ------------------------------------- what the dependencies are worth

  function Worth(m: map<nat, Expr>, i: nat, v: Valuation): Tristate {
    if i in m then Eval(m[i], v) else No
  }

  /** The k-th property of the symbol of e is written at e and selects or implies symbol i. */
  predicate Aims(y: Symbols, e: Entry, k: nat, i: nat, kind: Kind) {
    && e.sym.Some? && k < |PropsOf(y, e.sym.value.id)|
    && var q := PropsOf(y, e.sym.value.id)[k]; q.menu == Some(e.id) && IsOf(q.p, kind) && q.p.target == i
  }

  /** What that property contributes: the minimum of its symbol and its final condition. */
  function Term(y: Symbols, e: Entry, k: nat, modules: Symbol, v: Valuation): Tristate
    requires e.sym.Some? && k < |PropsOf(y, e.sym.value.id)|
  {
    var cond := PropsOf(y, e.sym.value.id)[k].p.cond;
    And(v.tri(e.sym.value), EvalOpt(PropertyCondition(e.dep, cond, Some(e.sym.value.ty), modules), v))
  }

  /** y' has the properties of y, but for the conditions of those written at the node id. */
  ghost predicate KeptBut(y: Symbols, y': Symbols, id: nat) {
    forall i: nat :: |PropsOf(y', i)| == |PropsOf(y, i)| && forall k :: 0 <= k < |PropsOf(y, i)| ==>
              KeptAt(y, y', id, i, k)
  }

  predicate KeptAt(y: Symbols, y': Symbols, id: nat, i: nat, k: nat)
    requires k < |PropsOf(y, i)| == |PropsOf(y', i)|
  {
    var q, q' := PropsOf(y, i)[k], PropsOf(y', i)[k];
    q'.menu == q.menu && q'.p == q.p.(cond := q'.p.cond) && (q.menu != Some(id) ==> q' == q)
  }

  lemma TermWorth(sym: Symbol, c: Option<Expr>, v: Valuation)
    ensures var e := AllocAnd(Some(Atom(sym)), c);
            e.Some? && Eval(e.value, v) == And(v.tri(sym), EvalOpt(c, v))
  {
    assert Eval(Atom(sym), v) == v.tri(sym);
  }

  lemma AddedWorth(y: Symbols, sym: Symbol, p: Property, i: nat, kind: Kind, v: Valuation)
    ensures var w, w' := Worth(Deps(y, kind), i, v), Worth(Deps(Added(y, sym, p), kind), i, v);
            w' == if IsOf(p, kind) && p.target == i then Or(w, And(v.tri(sym), EvalOpt(p.cond, v))) else w
  {
    if p.Select? || p.Imply? { TermWorth(sym, p.cond, v); }
  }

  lemma TreatPropWorth(y: Symbols, e: Entry, k: nat, modules: Symbol, i: nat, kind: Kind, v: Valuation)
    requires e.sym.Some? && k < |PropsOf(y, e.sym.value.id)|
    ensures var y' := TreatProp(y, e, e.sym.value, k, modules);
            var w := Worth(Deps(y, kind), i, v);
            Worth(Deps(y', kind), i, v) == if Aims(y, e, k, i, kind) then Or(w, Term(y, e, k, modules, v)) else w
  {
    var sym := e.sym.value;
    var q := PropsOf(y, sym.id)[k];
    if q.menu == Some(e.id) {
      var q' := Conditioned(e, sym, q, modules);
      var y1 := y.(props := y.props[sym.id := y.props[sym.id][k := q']]);
      AddedWorth(y1, sym, q'.p, i, kind, v);
      assert IsOf(q'.p, kind) == IsOf(q.p, kind);
    }
  }

  /** The loop from property k on: nothing gets lost, every aiming property is counted, and nothing else is. */
  lemma {:induction false} TreatFromWorth(y: Symbols, e: Entry, k: nat, modules: Symbol, i: nat, kind: Kind,
                                          v: Valuation)
    requires e.sym.Some? && k <= |PropsOf(y, e.sym.value.id)|
    ensures var w, w' := Worth(Deps(y, kind), i, v), Worth(Deps(TreatFrom(y, e, e.sym.value, k, modules), kind), i, v);
            && Level(w) <= Level(w')
            && (forall j: nat :: k <= j && Aims(y, e, j, i, kind) ==> Level(Term(y, e, j, modules, v)) <= Level(w'))
            && (w' != w ==> exists j: nat :: k <= j && Aims(y, e, j, i, kind) && Term(y, e, j, modules, v) == w')
    decreases |PropsOf(y, e.sym.value.id)| - k
  {
    if k < |PropsOf(y, e.sym.value.id)| {
      var y1 := TreatProp(y, e, e.sym.value, k, modules);
      TreatPropWorth(y, e, k, modules, i, kind, v);
      TreatFromWorth(y1, e, k + 1, modules, i, kind, v);
      assert forall j: nat :: k < j && j < |PropsOf(y, e.sym.value.id)| ==>
                PropsOf(y1, e.sym.value.id)[j] == PropsOf(y, e.sym.value.id)[j];
      assert forall j: nat :: k < j ==> (Aims(y, e, j, i, kind) <==> Aims(y1, e, j, i, kind));
    }
  }

  lemma KeptTrans(a: Symbols, b: Symbols, c: Symbols, id: nat)
    requires KeptBut(a, b, id) && KeptBut(b, c, id)
    ensures KeptBut(a, c, id)
  {
    forall i: nat, k | 0 <= k < |PropsOf(a, i)| ensures |PropsOf(c, i)| == |PropsOf(a, i)| && KeptAt(a, c, id, i, k) {
      assert KeptAt(a, b, id, i, k) && KeptAt(b, c, id, i, k);
    }
  }

  lemma {:induction false} TreatFromKeeps(y: Symbols, e: Entry, sym: Symbol, k: nat, modules: Symbol)
    requires k <= |PropsOf(y, sym.id)|
    ensures KeptBut(y, TreatFrom(y, e, sym, k, modules), e.id)
    decreases |PropsOf(y, sym.id)| - k
  {
    if k < |PropsOf(y, sym.id)| {
      var y1 := TreatProp(y, e, sym, k, modules);
      assert KeptBut(y, y1, e.id);
      TreatFromKeeps(y1, e, sym, k + 1, modules);
      KeptTrans(y, y1, TreatFrom(y, e, sym, k, modules), e.id);
    }
  }

  lemma StepKeeps(y: Symbols, ev: Event, modules: Symbol)
    ensures KeptBut(y, Step(y, ev, modules), ev.e.id)
    ensures ev.Directed? ==> Step(y, ev, modules).props == y.props
  {
    if ev.Treated? && ev.e.sym.Some? { TreatFromKeeps(y, ev.e, ev.e.sym.value, 0, modules); }
  }

  lemma AimsKept(y: Symbols, y': Symbols, id: nat, e: Entry, k: nat, modules: Symbol, i: nat, kind: Kind, v: Valuation)
    requires KeptBut(y, y', id) && e.id != id
    ensures Aims(y', e, k, i, kind) <==> Aims(y, e, k, i, kind)
    ensures Aims(y, e, k, i, kind) ==> Term(y', e, k, modules, v) == Term(y, e, k, modules, v)
  {
    if e.sym.Some? && k < |PropsOf(y, e.sym.value.id)| { assert KeptAt(y, y', id, e.sym.value.id, k); }
  }

  /** One of the properties that are treated in es. */
  ghost predicate Contributes(y: Symbols, es: seq<Event>, e: Entry, k: nat, i: nat, kind: Kind) {
    Treated(e) in es && Aims(y, e, k, i, kind)
  }

  lemma StepWorth(y: Symbols, ev: Event, modules: Symbol, i: nat, kind: Kind, v: Valuation)
    ensures var w, w' := Worth(Deps(y, kind), i, v), Worth(Deps(Step(y, ev, modules), kind), i, v);
            && Level(w) <= Level(w')
            && (forall k: nat :: Contributes(y, [ev], ev.e, k, i, kind) ==>
                 Level(Term(y, ev.e, k, modules, v)) <= Level(w'))
            && (w' != w ==>
                 exists k: nat :: Contributes(y, [ev], ev.e, k, i, kind) && Term(y, ev.e, k, modules, v) == w')
  {
    if ev.Treated? && ev.e.sym.Some? {
      var w, w' := Worth(Deps(y, kind), i, v), Worth(Deps(Step(y, ev, modules), kind), i, v);
      TreatFromWorth(y, ev.e, 0, modules, i, kind, v);
      assert Treated(ev.e) in [ev];
      if w' != w {
        var k: nat :| Aims(y, ev.e, k, i, kind) && Term(y, ev.e, k, modules, v) == w';
        assert Contributes(y, [ev], ev.e, k, i, kind);
      }
    }
  }

  /** The dependencies after a walk are worth the maximum of what they were and of all terms. */
  lemma {:induction false} RunWorth(y: Symbols, es: seq<Event>, modules: Symbol, i: nat, kind: Kind, v: Valuation)
    requires DistinctTreated(es)
    ensures var w, w' := Worth(Deps(y, kind), i, v), Worth(Deps(Run(y, es, modules), kind), i, v);
            && Level(w) <= Level(w')
            && (forall e, k: nat :: Contributes(y, es, e, k, i, kind) ==> Level(Term(y, e, k, modules, v)) <= Level(w'))
            && (w' != w ==> exists e, k: nat :: Contributes(y, es, e, k, i, kind) && Term(y, e, k, modules, v) == w')
    decreases es
  {
    if es != [] {
      var y1 := Step(y, es[0], modules);
      StepWorth(y, es[0], modules, i, kind, v);
      RunWorth(y1, es[1..], modules, i, kind, v);
      RunRest(y, es, modules, i, kind, v);
    }
  }

  /** What a later property contributes does not depend on the first step. */
  lemma RunRest(y: Symbols, es: seq<Event>, modules: Symbol, i: nat, kind: Kind, v: Valuation)
    requires DistinctTreated(es) && es != []
    ensures forall e, k: nat :: Contributes(y, es, e, k, i, kind) <==>
              Contributes(y, [es[0]], e, k, i, kind) || Contributes(Step(y, es[0], modules), es[1..], e, k, i, kind)
    ensures forall e, k: nat :: Contributes(Step(y, es[0], modules), es[1..], e, k, i, kind) ==>
              Aims(y, e, k, i, kind) && Term(Step(y, es[0], modules), e, k, modules, v) == Term(y, e, k, modules, v)
  {
    var y1 := Step(y, es[0], modules);
    StepKeeps(y, es[0], modules);
    forall e, k: nat
      ensures Treated(e) in es[1..] ==>
        && (Aims(y1, e, k, i, kind) <==> Aims(y, e, k, i, kind))
        && (Aims(y, e, k, i, kind) ==> Term(y1, e, k, modules, v) == Term(y, e, k, modules, v))
    {
      if Treated(e) in es[1..] && es[0].Treated? {
        var j :| 1 <= j < |es| && es[j] == Treated(e);
        AimsKept(y, y1, es[0].e.id, e, k, modules, i, kind, v);
      }
    }
  }

  /** The symbols after menu_finalize of the whole tree n. */
  function After(y: Symbols, n: Node, modules: Symbol): Symbols {
    Run(y, Events(n, [], modules), modules)
  }

  /** A property that selects or implies symbol i, at a node of the finished tree. */
  ghost predicate Placed(y: Symbols, n: Node, modules: Symbol, e: Entry, k: nat, i: nat, kind: Kind) {
    e in Entries(n, modules) && Aims(y, e, k, i, kind)
  }

  /**
    The reverse dependency of a symbol is the maximum, over all selects of it in the tree, of the minimum
    of the selecting symbol and the final condition of the select; so with imply.
   */
  lemma DependencyIsMaximum(y: Symbols, n: Node, modules: Symbol, i: nat, kind: Kind, v: Valuation)
    requires Distinct(n.kids) && i !in Deps(y, kind)
    ensures var w := Worth(Deps(After(y, n, modules), kind), i, v);
            && (forall e, k: nat :: Placed(y, n, modules, e, k, i, kind) ==>
                 Level(Term(y, e, k, modules, v)) <= Level(w))
            && (w != No ==> exists e, k: nat :: Placed(y, n, modules, e, k, i, kind) && Term(y, e, k, modules, v) == w)
  {
    var es := Events(n, [], modules);
    TreatedOnce(n, modules);
    RunWorth(y, es, modules, i, kind, v);
    forall e, k: nat ensures Placed(y, n, modules, e, k, i, kind) <==> Contributes(y, es, e, k, i, kind) {
      TreatedOf(n, modules, e);
    }
  }

  // ------------------------------------------- conditions of the properties

  lemma {:induction false} TreatFromAt(y: Symbols, e: Entry, k: nat, j: nat, modules: Symbol)
    requires e.sym.Some? && k <= |PropsOf(y, e.sym.value.id)| && j < |PropsOf(y, e.sym.value.id)|
    requires PropsOf(y, e.sym.value.id)[j].menu == Some(e.id)
    ensures var q := PropsOf(y, e.sym.value.id)[j];
            var r := PropsOf(TreatFrom(y, e, e.sym.value, k, modules), e.sym.value.id);
            && j < |r|
            && r[j] == if j < k then q else Conditioned(e, e.sym.value, q, modules)
    decreases |PropsOf(y, e.sym.value.id)| - k
  {
    if k < |PropsOf(y, e.sym.value.id)| {
      var y1 := TreatProp(y, e, e.sym.value, k, modules);
      assert PropsOf(y1, e.sym.value.id)[j].menu == Some(e.id);
      TreatFromAt(y1, e, k + 1, j, modules);
    }
  }

  lemma {:induction false} RunLeaves(y: Symbols, es: seq<Event>, modules: Symbol, i: nat, k: nat)
    requires k < |PropsOf(y, i)| && forall e :: Treated(e) in es ==> PropsOf(y, i)[k].menu != Some(e.id)
    ensures k < |PropsOf(Run(y, es, modules), i)| && PropsOf(Run(y, es, modules), i)[k] == PropsOf(y, i)[k]
    decreases es
  {
    if es != [] {
      var y1 := Step(y, es[0], modules);
      StepKeeps(y, es[0], modules);
      assert KeptAt(y, y1, es[0].e.id, i, k);
      assert PropsOf(y1, i)[k] == PropsOf(y, i)[k] by { if es[0].Treated? { assert Treated(es[0].e) in es; } }
      RunLeaves(y1, es[1..], modules, i, k);
    }
  }

  lemma {:induction false} RunTreats(y: Symbols, es: seq<Event>, modules: Symbol, e: Entry, k: nat)
    requires DistinctTreated(es) && Treated(e) in es && e.sym.Some? && k < |PropsOf(y, e.sym.value.id)|
    requires PropsOf(y, e.sym.value.id)[k].menu == Some(e.id)
    ensures var q, r := PropsOf(y, e.sym.value.id)[k], PropsOf(Run(y, es, modules), e.sym.value.id);
            && k < |r|
            && r[k] == Conditioned(e, e.sym.value, q, modules)
    decreases es
  {
    var y1, i := Step(y, es[0], modules), e.sym.value.id;
    StepKeeps(y, es[0], modules);
    assert KeptAt(y, y1, es[0].e.id, i, k);
    if es[0] == Treated(e) {
      TreatFromAt(y, e, 0, k, modules);
      forall e' | Treated(e') in es[1..] ensures e'.id != e.id {
        var j :| 1 <= j < |es| && es[j] == Treated(e');
      }
      RunLeaves(y1, es[1..], modules, i, k);
    } else {
      var j :| 1 <= j < |es| && es[j] == Treated(e);
      RunTreats(y1, es[1..], modules, e, k);
    }
  }

  /** Nothing else about a property changes. */
  lemma {:induction false} RunShape(y: Symbols, es: seq<Event>, modules: Symbol, i: nat)
    ensures |PropsOf(Run(y, es, modules), i)| == |PropsOf(y, i)|
    ensures forall k :: 0 <= k < |PropsOf(y, i)| ==>
              SameProperty(PropsOf(y, i)[k], PropsOf(Run(y, es, modules), i)[k])
    decreases es
  {
    if es != [] {
      var y1 := Step(y, es[0], modules);
      StepKeeps(y, es[0], modules);
      RunShape(y1, es[1..], modules, i);
      forall k | 0 <= k < |PropsOf(y, i)| ensures SameProperty(PropsOf(y, i)[k], PropsOf(Run(y, es, modules), i)[k]) {
        assert KeptAt(y, y1, es[0].e.id, i, k);
        assert SameProperty(PropsOf(y1, i)[k], PropsOf(Run(y, es, modules), i)[k]);
      }
    }
  }

  /** The two differ in the condition at most. */
  predicate SameProperty(q: Located, q': Located) {
    q'.menu == q.menu && q'.p == q.p.(cond := q'.p.cond)
  }

  /** Every property written at a node of the tree ends up with that node's condition joined to its own. */
  lemma FinalCondition(y: Symbols, n: Node, modules: Symbol, e: Entry, k: nat)
    requires Distinct(n.kids) && e in Entries(n, modules)
    requires e.sym.Some? && k < |PropsOf(y, e.sym.value.id)| && PropsOf(y, e.sym.value.id)[k].menu == Some(e.id)
    ensures var q, r := PropsOf(y, e.sym.value.id)[k], PropsOf(After(y, n, modules), e.sym.value.id);
            && k < |r|
            && r[k] == Conditioned(e, e.sym.value, q, modules)
  {
    TreatedOnce(n, modules);
    TreatedOf(n, modules, e);
    RunTreats(y, Events(n, [], modules), modules, e, k);
  }

  /** e is e0 with some condition handed down to it. */
  ghost predicate ComesFrom(e: Entry, e0: Entry, modules: Symbol) {
    exists d :: e == HandDown(d, e0, modules)
  }

  lemma {:induction false} PlainOrigin(d: Option<Expr>, fs: seq<Node>, modules: Symbol, e: Entry)
    requires e in Preorder(Plain(HandDownAll(d, fs, modules), modules))
    ensures exists e0 :: e0 in Preorder(fs) && ComesFrom(e, e0, modules)
    decreases Menus.Count(fs)
  {
    if fs != [] {
      var n := Node(HandDown(d, fs[0].e, modules), fs[0].kids);
      var all, rest := HandDownAll(d, fs, modules), HandDownAll(d, fs[1..], modules);
      assert all == [n] + rest && all[1..] == rest;
      assert Plain(all, modules) == [Node(n.e, Below(n, modules))] + Plain(rest, modules);
      assert Preorder(Plain(all, modules)) == [n.e] + Preorder(Below(n, modules)) + Preorder(Plain(rest, modules));
      assert Preorder(fs) == [fs[0].e] + Preorder(fs[0].kids) + Preorder(fs[1..]);
      if e in Preorder(Below(n, modules)) {
        PlainOrigin(ParentDep(n.e), fs[0].kids, modules, e);
      } else if e in Preorder(Plain(rest, modules)) {
        PlainOrigin(d, fs[1..], modules, e);
      } else {
        assert ComesFrom(e, fs[0].e, modules);
      }
    }
  }

  /** The prompt of a node is the one its symbol has there. */
  predicate Agrees(y: Symbols, e: Entry) {
    e.sym.Some? && e.prompt.Some? ==>
      forall q :: q in PropsOf(y, e.sym.value.id) && q.menu == Some(e.id) && q.p.Prompt? ==>
                q.p.cond == e.prompt.value.cond
  }

  /** menu_finalize leaves the prompts of the nodes the same as the prompts in the lists of their symbols. */
  lemma PromptsAgree(y: Symbols, n: Node, modules: Symbol)
    requires Distinct(n.kids) && forall e :: e in Preorder(n.kids) ==> Agrees(y, e)
    ensures forall e :: e in Entries(n, modules) ==> Agrees(After(y, n, modules), e)
  {
    forall e: Entry, q | e in Entries(n, modules) && e.sym.Some? && e.prompt.Some?
                         && q in PropsOf(After(y, n, modules), e.sym.value.id) && q.menu == Some(e.id) && q.p.Prompt?
      ensures q.p.cond == e.prompt.value.cond
    {
      FinalPreorder(n, modules);
      PlainOrigin(ParentDep(n.e), n.kids, modules, e);
      var e0 :| e0 in Preorder(n.kids) && ComesFrom(e, e0, modules);
      var props := PropsOf(After(y, n, modules), e.sym.value.id);
      var k :| 0 <= k < |props| && props[k] == q;
      RunShape(y, Events(n, [], modules), modules, e.sym.value.id);
      assert SameProperty(PropsOf(y, e.sym.value.id)[k], q);
      FinalCondition(y, n, modules, e, k);
      assert Agrees(y, e0) && PropsOf(y, e.sym.value.id)[k] in PropsOf(y, e.sym.value.id);
    }
  }

  // ----------------------------------------------------- direct dependencies

  /** ev is about a definition of symbol i. */
  predicate IsDefinition(ev: Event, i: nat) {
    ev.Directed? && ev.e.sym.Some? && ev.e.sym.value.id == i
  }

  /** The conditions of the definitions of symbol i, in the order in which they are taken. */
  function DepsIn(es: seq<Event>, i: nat): seq<Option<Expr>> {
    if es == [] then []
    else (if IsDefinition(es[0], i) then [es[0].e.dep] else []) + DepsIn(es[1..], i)
  }

  lemma DependencySnoc(before: seq<Option<Expr>>, d: Option<Expr>)
    ensures DirectDependency(before + [d]) == AllocOr(DirectDependency(before), d)
  {
    assert (before + [d])[..|before|] == before;
  }

  lemma StepDirect(y: Symbols, ev: Event, modules: Symbol, i: nat)
    ensures Look(Step(y, ev, modules).dirDep, i)
            == if IsDefinition(ev, i) then AllocOr(Look(y.dirDep, i), ev.e.dep) else Look(y.dirDep, i)
  {
    if ev.Treated? && ev.e.sym.Some? { TreatFromDirect(y, ev.e, ev.e.sym.value, 0, modules); }
  }

  lemma {:induction false} TreatFromDirect(y: Symbols, e: Entry, sym: Symbol, k: nat, modules: Symbol)
    requires k <= |PropsOf(y, sym.id)|
    ensures TreatFrom(y, e, sym, k, modules).dirDep == y.dirDep
    decreases |PropsOf(y, sym.id)| - k
  {
    if k < |PropsOf(y, sym.id)| { TreatFromDirect(TreatProp(y, e, sym, k, modules), e, sym, k + 1, modules); }
  }

  /** The direct dependency of a symbol is that of the conditions of its definitions. */
  lemma {:induction false} DirectIsDependency(y: Symbols, es: seq<Event>, modules: Symbol, i: nat,
                                              before: seq<Option<Expr>>)
    requires Look(y.dirDep, i) == DirectDependency(before)
    ensures Look(Run(y, es, modules).dirDep, i) == DirectDependency(before + DepsIn(es, i))
    decreases es
  {
    if es == [] {
      assert before + [] == before;
    } else {
      var now := if IsDefinition(es[0], i) then [es[0].e.dep] else [];
      StepDirect(y, es[0], modules, i);
      DependencySnoc(before, es[0].e.dep);
      assert before + [] == before;
      DirectIsDependency(Step(y, es[0], modules), es[1..], modules, i, before + now);
      Reassociate(before, now, DepsIn(es[1..], i));
    }
  }
}
