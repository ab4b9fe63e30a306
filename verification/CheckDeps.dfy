/**
  sym_check_deps of symbol.c: the search for recursive dependencies, on symbols that are neither choices
  nor choice values. SYMBOL_CHECK marks the symbols on the stack, SYMBOL_CHECKED those ever visited.
 */
module Checking {
  import opened Exprs
  import opened Configs

  type Graph = seq<seq<nat>>

  predicate IsGraph(g: Graph) {
    forall i, k :: 0 <= i < |g| && 0 <= k < |g[i]| ==> g[i][k] < |g|
  }

  predicate Edge(g: Graph, a: nat, b: nat) {
    a < |g| && b in g[a]
  }

  /** Each symbol of p depends on the next. */
  predicate IsPath(g: Graph, p: seq<nat>) {
    forall k :: 0 <= k < |p| - 1 ==> Edge(g, p[k], p[k + 1])
  }

  predicate IsCycle(g: Graph, c: seq<nat>) {
    c != [] && IsPath(g, c) && Edge(g, c[|c| - 1], c[0])
  }

  /** rank goes down along every edge. */
  ghost predicate Ranked(g: Graph, rank: seq<nat>) {
    |rank| == |g| && forall i: nat, j: nat :: Edge(g, i, j) ==> j < |g| && rank[j] < rank[i]
  }

  lemma {:induction false} PathDescends(g: Graph, rank: seq<nat>, p: seq<nat>, k: nat)
    requires Ranked(g, rank) && IsPath(g, p) && k < |p| && p[0] < |g|
    ensures p[k] < |g| && rank[p[k]] <= rank[p[0]]
  {
    if k > 0 {
      PathDescends(g, rank, p, k - 1);
      assert Edge(g, p[k - 1], p[k]);
    }
  }

  /** A graph with a cycle has no rank. */
  lemma CycleHasNoRank(g: Graph, rank: seq<nat>, c: seq<nat>)
    requires IsCycle(g, c)
    ensures !Ranked(g, rank)
  {
    assert Edge(g, c[|c| - 1], c[0]);
    if Ranked(g, rank) { PathDescends(g, rank, c, |c| - 1); }
  }

  lemma PushPath(g: Graph, p: seq<nat>, i: nat)
    requires IsPath(g, p) && (p != [] ==> Edge(g, p[|p| - 1], i))
    ensures IsPath(g, p + [i])
  {
    var q := p + [i];
    forall k | 0 <= k < |q| - 1 ensures Edge(g, q[k], q[k + 1]) {
      if k < |p| - 1 { assert q[k] == p[k] && q[k + 1] == p[k + 1]; }
    }
  }

  /** Every symbol of o depends only on earlier ones. */
  ghost predicate Sorted(g: Graph, o: seq<nat>) {
    forall k :: 0 <= k < |o| ==> o[k] < |g| && forall j :: j in g[o[k]] ==> j in o[..k]
  }

  lemma SortedAppend(g: Graph, o: seq<nat>, i: nat)
    requires Sorted(g, o) && i < |g| && forall j :: j in g[i] ==> j in o
    ensures Sorted(g, o + [i])
  {
    forall k | 0 <= k < |o + [i]|
      ensures (o + [i])[k] < |g| && forall j :: j in g[(o + [i])[k]] ==> j in (o + [i])[..k]
    {
      if k < |o| {
        assert (o + [i])[..k] == o[..k];
      } else {
        assert (o + [i])[..k] == o;
      }
    }
  }

  function FirstIndex(o: seq<nat>, x: nat): (k: nat)
    ensures k <= |o|
    ensures x in o ==> k < |o| && o[k] == x
    ensures forall i :: 0 <= i < k ==> o[i] != x
  {
    if o == [] || o[0] == x then 0
    else
      var k := FirstIndex(o[1..], x);
      assert forall i :: 1 <= i < k + 1 ==> o[i] == o[1..][i - 1];
      k + 1
  }

  /** A sorted list of all symbols gives a rank. */
  lemma SortedIsRanked(g: Graph, o: seq<nat>)
    requires Sorted(g, o) && forall i :: 0 <= i < |g| ==> i in o
    ensures Ranked(g, seq(|g|, (i: nat) => FirstIndex(o, i)))
  {
    var rank := seq(|g|, (i: nat) => FirstIndex(o, i));
    forall i: nat, j: nat | Edge(g, i, j) ensures j < |g| && rank[j] < rank[i] {
      var k := FirstIndex(o, i);
      assert o[k] == i && j in o[..k];
      var m :| 0 <= m < k && o[m] == j;
    }
  }

  class Checker {
    const g: Graph
    var check: seq<bool>
    var checked: seq<bool>
    var stack: seq<nat>
    /** The cycles sym_check_print_recursive has printed. */
    var reports: seq<seq<nat>>
    /** The finished symbols in the order they were finished. */
    ghost var order: seq<nat>

    constructor (g: Graph)
      requires IsGraph(g)
      ensures this.g == g && Valid() && stack == [] && reports == [] && order == []
      ensures forall i :: 0 <= i < |g| ==> !checked[i]
    {
      this.g := g;
      check := seq(|g|, i => false);
      checked := seq(|g|, i => false);
      stack := [];
      reports := [];
      order := [];
    }

    /** The marks match the stack, but for a symbol that has been marked and not yet pushed. */
    ghost predicate MarkedBut(pending: set<nat>)
      reads this
    {
      && IsGraph(g) && |check| == |checked| == |g|
      && IsPath(g, stack)
      && (forall k :: 0 <= k < |stack| ==> stack[k] < |g| && check[stack[k]])
      && (forall i :: 0 <= i < |g| && check[i] ==> checked[i] && (i in stack || i in pending))
      && (forall k :: 0 <= k < |reports| ==> IsCycle(g, reports[k]))
      && (reports == [] ==> Clean())
    }

    ghost predicate Valid()
      reads this
    {
      MarkedBut({})
    }

    /** What a visit keeps. */
    twostate predicate Visit()
      reads this
    {
      && stack == old(stack) && check == old(check) && old(reports) <= reports && |checked| == old(|checked|)
      && (forall j :: 0 <= j < |checked| && old(checked[j]) ==> checked[j])
    }

    /** While nothing has been reported, the symbols visited and left again are sorted. */
    ghost predicate Clean()
      requires |check| == |checked| == |g|
      reads this
    {
      && Sorted(g, order)
      && (forall i :: 0 <= i < |g| ==> (i in order <==> checked[i] && !check[i]))
    }

    ghost function Unchecked(): set<nat>
      reads this
    {
      set i: nat | i < |checked| && !checked[i]
    }

    /** sym_check_print_recursive: the stack from i to the top. */
    method PrintRecursive(i: nat)
      requires Valid() && i < |g| && check[i] && stack != [] && Edge(g, stack[|stack| - 1], i)
      modifies this`reports
      ensures Valid() && |reports| == old(|reports|) + 1
      ensures reports[..old(|reports|)] == old(reports)
      ensures exists k :: 0 <= k < |stack| && stack[k] == i && reports[old(|reports|)] == stack[k..]
    {
      var k := |stack| - 1;
      while stack[k] != i
        invariant 0 <= k < |stack|
        invariant forall m :: k < m < |stack| ==> stack[m] != i
        decreases k
      {
        k := k - 1;
      }
      var c := stack[k..];
      assert forall m :: 0 <= m < |c| ==> c[m] == stack[k + m];
      reports := reports + [c];
    }

    /**
      sym_check_deps. A symbol is returned only while it is still on the stack; no report means that
      everything i depends on has been finished.
     */
    method CheckDeps(i: nat) returns (r: Option<nat>)
      requires Valid() && i < |g| && (stack != [] ==> Edge(g, stack[|stack| - 1], i))
      modifies this
      ensures Valid() && Visit()
      ensures r.Some? ==> r.value < |g| && check[r.value] && reports != []
      ensures checked[i]
      ensures reports == [] ==> !check[i]
      decreases Unchecked(), 1
    {
      if check[i] {
        PrintRecursive(i);
        return Some(i);
      }
      if checked[i] {
        return None;
      }
      ghost var before := Unchecked();
      check := check[i := true];
      checked := checked[i := true];
      assert Unchecked() == before - {i};
      r := CheckSymDeps(i);
      check := check[i := false];
      if reports == [] {
        SortedAppend(g, order, i);
        order := order + [i];
      }
      if r == Some(i) { r := None; }
    }

    /** dep_stack_insert. */
    method Push(i: nat)
      requires i < |g| && MarkedBut({i}) && check[i] && (stack != [] ==> Edge(g, stack[|stack| - 1], i))
      modifies this`stack
      ensures Valid() && stack == old(stack) + [i]
    {
      PushPath(g, stack, i);
      stack := stack + [i];
    }

    /** dep_stack_remove. */
    method Pop(i: nat, ghost below: seq<nat>)
      requires Valid() && stack == below + [i] && IsPath(g, below)
      modifies this`stack
      ensures MarkedBut({i}) && stack == below
    {
      stack := stack[..|stack| - 1];
    }

    /** sym_check_sym_deps: pushes i, visits what it depends on until one visit returns a symbol, and pops it. */
    method CheckSymDeps(i: nat) returns (r: Option<nat>)
      requires i < |g| && MarkedBut({i}) && check[i] && i !in stack && (stack != [] ==> Edge(g, stack[|stack| - 1], i))
      modifies this
      ensures MarkedBut({i}) && Visit()
      ensures r.Some? ==> r.value < |g| && check[r.value] && reports != []
      ensures reports == [] ==> forall j :: j in g[i] ==> j in order
      decreases Unchecked(), 3
    {
      ghost var before := stack;
      Push(i);
      r := CheckAllOf(i);
      Pop(i, before);
    }

    /** The visits of sym_check_sym_deps, i being on top of the stack. */
    method CheckAllOf(i: nat) returns (r: Option<nat>)
      requires i < |g| && Valid() && stack != [] && stack[|stack| - 1] == i
      modifies this
      ensures Valid() && Visit()
      ensures r.Some? ==> r.value < |g| && check[r.value] && reports != []
      ensures reports == [] ==> forall j :: j in g[i] ==> j in order
      decreases Unchecked(), 2
    {
      r := None;
      var k := 0;
      while k < |g[i]| && r.None?
        invariant 0 <= k <= |g[i]|
        invariant Valid() && Visit()
        invariant r.Some? ==> r.value < |g| && check[r.value] && reports != []
        invariant reports == [] ==> forall m :: 0 <= m < k ==> g[i][m] < |g| && checked[g[i][m]] && !check[g[i][m]]
      {
        assert Edge(g, i, g[i][k]);
        assert Unchecked() <= old(Unchecked());
        r := CheckDeps(g[i][k]);
        k := k + 1;
      }
    }

    /**
      The loop of conf_parse over all symbols: no cycle is reported exactly when the dependencies have
      no cycle. The calls themselves never return a symbol, so the number of errors stays 0.
     */
    method CheckAll() returns (errors: nat)
      requires Valid() && stack == [] && reports == [] && forall i :: 0 <= i < |g| ==> !checked[i]
      modifies this
      ensures errors == 0
      ensures |check| == |g| && forall i :: 0 <= i < |g| ==> !check[i]
      ensures forall k :: 0 <= k < |reports| ==> IsCycle(g, reports[k])
      ensures reports == [] <==> exists rank :: Ranked(g, rank)
    {
      errors := 0;
      var i := 0;
      while i < |g|
        invariant 0 <= i <= |g| && errors == 0
        invariant Valid() && stack == [] && check == old(check)
        invariant forall j :: 0 <= j < i ==> checked[j]
      {
        var r := CheckDeps(i);
        errors := errors + if r.Some? then 1 else 0;
        i := i + 1;
      }
      if reports == [] {
        SortedIsRanked(g, order);
      } else {
        assert IsCycle(g, reports[0]);
        forall rank ensures !Ranked(g, rank) { CycleHasNoRank(g, rank, reports[0]); }
      }
    }
  }

  // ------------------------------------------ the walked relation of a symbol table

  function SymbolsOf(e: Expr): seq<nat> {
    match e
    case Atom(s) => [s.id]
    case Compare(_, a, b) => [a.id, b.id]
    case Neg(a) => SymbolsOf(a)
    case Bin(_, a, b) => SymbolsOf(a) + SymbolsOf(b)
  }

  function SymbolsOfOpt(e: Option<Expr>): seq<nat> {
    if e.None? then [] else SymbolsOf(e.value)
  }

  /** The symbols sym_check_sym_deps visits for one property. */
  function SymbolsOfProp(p: Property): seq<nat> {
    match p
    case Select(_, _) => []
    case Imply(c, _) => SymbolsOfOpt(c)
    case Default(c, e) => SymbolsOfOpt(c) + SymbolsOf(e)
    case Prompt(c) => SymbolsOfOpt(c)
    case Range(c, _, _) => SymbolsOfOpt(c)
    case Other(c) => SymbolsOfOpt(c)
  }

  function SymbolsOfProps(props: seq<Property>): seq<nat> {
    if props == [] then [] else SymbolsOfProp(props[0]) + SymbolsOfProps(props[1..])
  }

  function WalkedFrom(d: Decl): seq<nat> {
    SymbolsOfOpt(d.revDep) + SymbolsOfProps(d.props)
  }

  function WalkedGraph(t: Table): Graph {
    seq(|t.decls|, i requires 0 <= i < |t.decls| => WalkedFrom(t.decls[i]))
  }

  lemma {:induction false} SymbolsAreReads(e: Expr)
    ensures forall j :: j in ExprReads(e) <==> j in SymbolsOf(e)
  {
    match e
    case Neg(a) => SymbolsAreReads(a);
    case Bin(_, a, b) =>
      SymbolsAreReads(a);
      SymbolsAreReads(b);
    case _ =>
  }

  lemma OptSymbolsAreReads(e: Option<Expr>)
    ensures forall j :: j in OptReads(e) <==> j in SymbolsOfOpt(e)
  {
    if e.Some? { SymbolsAreReads(e.value); }
  }

  lemma {:induction false} PropSymbols(props: seq<Property>, p: Property)
    requires p in props
    ensures forall j :: j in SymbolsOfProp(p) ==> j in SymbolsOfProps(props)
  {
    if p != props[0] { PropSymbols(props[1..], p); }
  }

  lemma {:induction false} WalkedOfProps(props: seq<Property>, j: nat)
    ensures j in SymbolsOfProps(props) <==> exists p :: p in props && j in SymbolsOfProp(p)
  {
    if props != [] {
      WalkedOfProps(props[1..], j);
      if p :| p in props && j in SymbolsOfProp(p) {
        if p != props[0] { assert p in props[1..]; }
      }
    }
  }

  /** What is walked: the reverse dependency, the conditions of properties other than selects, and default values. */
  lemma WalkedExact(d: Decl, j: nat)
    ensures j in WalkedFrom(d) <==>
              (j in OptReads(d.revDep) || exists p :: p in d.props && !p.Select? && IsWalkedAt(p, j))
  {
    OptSymbolsAreReads(d.revDep);
    WalkedOfProps(d.props, j);
    forall p ensures j in SymbolsOfProp(p) <==> !p.Select? && IsWalkedAt(p, j) {
      OptSymbolsAreReads(p.cond);
      if p.Default? { SymbolsAreReads(p.value); }
    }
  }

  predicate IsWalkedAt(p: Property, j: nat) {
    j in OptReads(p.cond) || (p.Default? && j in ExprReads(p.value))
  }

  /** j is a bound of a range of d. */
  ghost predicate IsBound(d: Decl, j: nat) {
    exists p :: p in d.props && p.Range? && (j == p.lo || j == p.hi)
  }

  /** The reads that sym_check_sym_deps does not look at. */
  ghost predicate ReadAside(d: Decl, j: nat) {
    IsBound(d, j) || j in OptReads(d.implied) || j in OptReads(d.dirDep)
  }

  /** The evaluator reads j for a symbol declared d, and the walk does not go there. */
  ghost predicate Escapes(d: Decl, j: nat) {
    j in Reads(d) && j !in WalkedFrom(d)
  }

  /** Only the bounds of ranges and the symbols of implies and of the direct dependency can escape the walk. */
  lemma EscapesExact(d: Decl, j: nat)
    requires IsTyped(d.ty)
    ensures Escapes(d, j) <==> j !in WalkedFrom(d) && ReadAside(d, j)
  {
    if j !in WalkedFrom(d) {
      OptSymbolsAreReads(d.revDep);
      WalkedOfProps(d.props, j);
      forall p | p in d.props && j in PropReads(p) ensures p.Range? && (j == p.lo || j == p.hi) {
        OptSymbolsAreReads(p.cond);
        if p.Default? { SymbolsAreReads(p.value); }
        assert j !in SymbolsOfProp(p);
      }
      if IsBound(d, j) {
        var p :| p in d.props && p.Range? && (j == p.lo || j == p.hi);
        assert j in PropReads(p);
      }
      if j in Reads(d) && j !in OptReads(d.implied) && j !in OptReads(d.dirDep) {
        assert j !in OptReads(d.revDep);
        assert exists p :: p in d.props && j in PropReads(p);
      }
    }
  }

  lemma {:induction false} ExprReadsKnown(t: Table, e: Expr)
    requires ExprKnown(t, e)
    ensures forall j :: j in ExprReads(e) ==> j < |t.decls|
  {
    match e
    case Neg(a) => ExprReadsKnown(t, a);
    case Bin(_, a, b) =>
      ExprReadsKnown(t, a);
      ExprReadsKnown(t, b);
    case _ =>
  }

  lemma OptReadsKnown(t: Table, e: Option<Expr>)
    requires OptKnown(t, e)
    ensures forall j :: j in OptReads(e) ==> j < |t.decls|
  {
    if e.Some? { ExprReadsKnown(t, e.value); }
  }

  lemma ReadsKnown(t: Table, i: nat)
    requires WellFormed(t) && i < |t.decls|
    ensures forall j :: j in Reads(t.decls[i]) ==> j < |t.decls|
  {
    var d := t.decls[i];
    assert EntryKnown(t, i);
    forall p, j | p in d.props && j in PropReads(p) ensures j < |t.decls| {
      assert PropKnown(t, p);
      OptReadsKnown(t, p.cond);
      if p.Default? { ExprReadsKnown(t, p.value); }
    }
    OptReadsKnown(t, d.dirDep);
    OptReadsKnown(t, d.revDep);
    OptReadsKnown(t, d.implied);
  }

  lemma WalkedKnown(t: Table, i: nat, j: nat)
    requires WellFormed(t) && i < |t.decls| && j in WalkedFrom(t.decls[i])
    ensures j < |t.decls|
  {
    var d := t.decls[i];
    assert EntryKnown(t, i);
    OptSymbolsAreReads(d.revDep);
    OptReadsKnown(t, d.revDep);
    WalkedOfProps(d.props, j);
    forall p | p in d.props && j in SymbolsOfProp(p) ensures j < |t.decls| {
      assert PropKnown(t, p);
      OptSymbolsAreReads(p.cond);
      OptReadsKnown(t, p.cond);
      if p.Default? {
        SymbolsAreReads(p.value);
        ExprReadsKnown(t, p.value);
      }
    }
  }

  /** The walk stays within the table. */
  lemma WalkedIsGraph(t: Table)
    requires WellFormed(t)
    ensures IsGraph(WalkedGraph(t))
  {
    forall i: nat, k | i < |t.decls| && 0 <= k < |WalkedFrom(t.decls[i])|
      ensures WalkedFrom(t.decls[i])[k] < |t.decls|
    {
      WalkedKnown(t, i, WalkedFrom(t.decls[i])[k]);
    }
  }

  /** No symbol with a type escapes the walk; those without read nothing and are on no cycle. */
  ghost predicate Covered(t: Table, i: nat)
    requires i < |t.decls|
  {
    forall j: nat :: j < |t.decls| && IsTyped(t.decls[j].ty) ==> !Escapes(t.decls[i], j)
  }

  /** The ranks with symbols without a type put below all others. */
  function Shifted(t: Table, rank: seq<nat>): (r: seq<nat>)
    requires |rank| == |t.decls|
  {
    seq(|rank|, i requires 0 <= i < |rank| => if IsTyped(t.decls[i].ty) then rank[i] + 1 else 0)
  }

  /** Where no symbol with a type escapes, a run without report makes the evaluator's theorems apply. */
  lemma CheckedTableIsAcyclic(t: Table, rank: seq<nat>)
    requires WellFormed(t) && Ranked(WalkedGraph(t), rank) && forall i :: 0 <= i < |t.decls| ==> Covered(t, i)
    ensures Acyclic(t, Shifted(t, rank))
  {
    forall i | 0 <= i < |rank| ensures LowerReads(t, Shifted(t, rank), i) {
      ReadsKnown(t, i);
      assert Covered(t, i);
      forall j | j in Reads(t.decls[i])
        ensures j < |rank| && Shifted(t, rank)[j] < Shifted(t, rank)[i]
      {
        if IsTyped(t.decls[j].ty) { assert Edge(WalkedGraph(t), i, j); }
      }
    }
  }

  /** The walk goes nowhere from i that the evaluator does not read, symbols without a type aside. */
  ghost predicate Exact(t: Table, i: nat)
    requires i < |t.decls|
  {
    forall j :: j in WalkedFrom(t.decls[i]) ==>
      IsTyped(t.decls[i].ty) && (j < |t.decls| && IsTyped(t.decls[j].ty) ==> j in Reads(t.decls[i]))
  }

  /**
    Where no symbol with a type escapes and the walk goes nowhere else, it decides: no cycle is reported
    exactly if the evaluator's read graph has none.
   */
  lemma WalkDecides(t: Table)
    requires WellFormed(t) && forall i :: 0 <= i < |t.decls| ==> Covered(t, i) && Exact(t, i)
    ensures (exists rank :: Ranked(WalkedGraph(t), rank)) <==> (exists rank :: Acyclic(t, rank))
  {
    if rank :| Ranked(WalkedGraph(t), rank) {
      CheckedTableIsAcyclic(t, rank);
    }
    if rank :| Acyclic(t, rank) {
      var g, r := WalkedGraph(t), Shifted(t, rank);
      WalkedIsGraph(t);
      forall a: nat, b: nat | Edge(g, a, b) ensures b < |g| && r[b] < r[a] {
        assert Exact(t, a) && LowerReads(t, rank, a);
      }
      assert Ranked(g, r);
    }
  }

  /**
    A declaration is covered exactly if those bounds of its ranges, symbols of its imply and symbols of its
    direct dependency that have a type occur somewhere in what is walked. Constant bounds do no harm.
   */
  lemma CoveredExact(t: Table, i: nat)
    requires i < |t.decls| && IsTyped(t.decls[i].ty)
    ensures var d := t.decls[i];
            Covered(t, i) <==>
              forall j: nat :: j < |t.decls| && IsTyped(t.decls[j].ty) && ReadAside(d, j) ==> j in WalkedFrom(d)
  {
    var d := t.decls[i];
    forall j: nat | j < |t.decls| && IsTyped(t.decls[j].ty)
      ensures Escapes(d, j) <==> j !in WalkedFrom(d) && ReadAside(d, j)
    {
      EscapesExact(d, j);
    }
  }

  lemma TwoProps(x: Property, y: Property)
    ensures SymbolsOfProps([x, y]) == SymbolsOfProp(x) + SymbolsOfProp(y)
  {
    assert [x, y][1..] == [y] && [y][1..] == [];
    assert SymbolsOfProps([y]) == SymbolsOfProp(y) + SymbolsOfProps([]);
  }

  /** Two bool symbols that imply each other: the walk sees no edge, the evaluator has a cycle. */
  lemma MutualImplyIsMissed(t: Table, a: nat, b: nat)
    requires a < |t.decls| && b < |t.decls|
    requires t.decls[a] == Decl(Boolean, "A", false, [Other(None), Imply(None, b)],
                                None, None, Some(Atom(Symbol(b, Boolean, false))), false)
    requires t.decls[b] == Decl(Boolean, "B", false, [Other(None), Imply(None, a)],
                                None, None, Some(Atom(Symbol(a, Boolean, false))), false)
    ensures WalkedFrom(t.decls[a]) == [] && WalkedFrom(t.decls[b]) == []
    ensures Escapes(t.decls[a], b) && Escapes(t.decls[b], a)
    ensures !exists rank :: Acyclic(t, rank)
  {
    assert b in Reads(t.decls[a]) && a in Reads(t.decls[b]);
    TwoProps(Other(None), Imply(None, b));
    TwoProps(Other(None), Imply(None, a));
    forall rank: seq<nat> | |rank| == |t.decls| ensures !Acyclic(t, rank) {
      assert !(LowerReads(t, rank, a) && LowerReads(t, rank, b));
    }
  }
}
