/**
  menu_finalize of menu.c on trees of values: conditions are handed down, runs of items that depend on a
  symbol become its submenu, and the children of nodes without prompt text move up behind their parent.
 */
module Menus {
  import opened Tristates
  import opened Exprs
  import opened ElimEq
  import opened Submenus
  import opened Propagation

  /** struct property of a node's prompt: is there a text, and the condition. */
  datatype PromptInfo = PromptInfo(text: bool, cond: Option<Expr>)

  /** The fields of struct menu that are not links. */
  datatype Entry = Entry(id: nat, sym: Option<Symbol>, isChoice: bool, prompt: Option<PromptInfo>, dep: Option<Expr>)

  datatype Node = Node(e: Entry, kids: seq<Node>)

  function Count(fs: seq<Node>): nat {
    if fs == [] then 0 else 1 + Count(fs[0].kids) + Count(fs[1..])
  }

  lemma {:induction false} CountConcat(a: seq<Node>, b: seq<Node>)
    ensures Count(a + b) == Count(a) + Count(b)
  {
    if a == [] {
      assert a + b == b;
    } else {
      assert (a + b)[1..] == a[1..] + b;
      CountConcat(a[1..], b);
    }
  }

  function HasText(e: Entry): bool {
    e.prompt.Some? && e.prompt.value.text
  }

  // ----------------------------------------------------- handing conditions down

  /** The condition a node hands down to its children. */
  function ParentDep(e: Entry): Option<Expr> {
    if e.sym.Some? && e.isChoice then Some(Atom(e.sym.value))
    else if e.prompt.Some? then e.prompt.value.cond
    else e.dep
  }

  /** One child of a node that hands down d. */
  function HandDown(d: Option<Expr>, e: Entry, modules: Symbol): Entry {
    var base := Inherit(d, e.dep, modules);
    var ty := if e.sym.Some? then Some(e.sym.value.ty) else None;
    e.(dep := base,
       prompt := if e.prompt.None? then None
                 else Some(e.prompt.value.(cond := PropertyCondition(base, e.prompt.value.cond, ty, modules))))
  }

  function HandDownAll(d: Option<Expr>, fs: seq<Node>, modules: Symbol): (r: seq<Node>)
    ensures |r| == |fs| && Count(r) == Count(fs)
  {
    if fs == [] then []
    else [Node(HandDown(d, fs[0].e, modules), fs[0].kids)] + HandDownAll(d, fs[1..], modules)
  }

  // ------------------------------------------------------------- restructuring

  /** The condition under which an item is considered for a submenu. */
  function ItemDep(e: Entry): Option<Expr> {
    if e.prompt.Some? then e.prompt.value.cond else e.dep
  }

  predicate Absorbs(p: Entry, m: Entry)
    requires p.sym.Some?
  {
    InSubmenu(p.sym.value, if p.prompt.Some? then p.prompt.value.cond else None, ItemDep(m))
  }

  /** menu_finalize of node, whose following siblings are rest: the node and the siblings it leaves. */
  function Finalize(n: Node, rest: seq<Node>, modules: Symbol): (r: (Node, seq<Node>))
    ensures r.0.e == n.e && 1 + Count(r.0.kids) + Count(r.1) == 1 + Count(n.kids) + Count(rest)
    decreases 1 + Count(n.kids) + Count(rest), 0
  {
    if n.kids != [] then
      (Node(n.e, Flatten(FinalizeAll(HandDownAll(ParentDep(n.e), n.kids, modules), modules))), rest)
    else if n.e.sym.Some? then
      var (kids, rest') := Absorb(n.e, rest, modules);
      (Node(n.e, Flatten(kids)), rest')
    else (n, rest)
  }

  /** menu_finalize of each node of a list that is still there when its turn comes. */
  function FinalizeAll(fs: seq<Node>, modules: Symbol): (r: seq<Node>)
    ensures Count(r) == Count(fs)
    decreases Count(fs), 1
  {
    if fs == [] then []
    else
      var (n, rest) := Finalize(fs[0], fs[1..], modules);
      [n] + FinalizeAll(rest, modules)
  }

  /** The submenu of a symbol without children: the run of following items that depend on it. */
  function Absorb(p: Entry, rest: seq<Node>, modules: Symbol): (r: (seq<Node>, seq<Node>))
    requires p.sym.Some?
    ensures Count(r.0) + Count(r.1) == Count(rest)
    decreases Count(rest), 1
  {
    if rest == [] || !Absorbs(p, rest[0].e) then ([], rest)
    else
      var (m, rest1) := Finalize(rest[0], rest[1..], modules);
      var (ms, rest2) := Absorb(p, rest1, modules);
      ([m] + ms, rest2)
  }

  /** Children of nodes without text follow their parent instead. */
  function Flatten(fs: seq<Node>): (r: seq<Node>)
    ensures Count(r) == Count(fs)
    decreases Count(fs)
  {
    if fs == [] then []
    else if fs[0].kids != [] && !HasText(fs[0].e) then
      CountConcat(fs[0].kids, fs[1..]);
      [Node(fs[0].e, [])] + Flatten(fs[0].kids + fs[1..])
    else [fs[0]] + Flatten(fs[1..])
  }

  // ------------------------------------------------------------------ results

  /** The entries of a forest in preorder. */
  function Preorder(fs: seq<Node>): seq<Entry>
    decreases Count(fs)
  {
    if fs == [] then [] else [fs[0].e] + Preorder(fs[0].kids) + Preorder(fs[1..])
  }

  lemma {:induction false} PreorderConcat(a: seq<Node>, b: seq<Node>)
    ensures Preorder(a + b) == Preorder(a) + Preorder(b)
    decreases Count(a)
  {
    if a == [] {
      assert a + b == b;
    } else {
      assert (a + b)[1..] == a[1..] + b;
      PreorderConcat(a[1..], b);
    }
  }

  /** Handing conditions down and nothing else. */
  function Plain(fs: seq<Node>, modules: Symbol): (r: seq<Node>)
    ensures |r| == |fs|
    decreases Count(fs)
  {
    if fs == [] then []
    else [Node(fs[0].e, Plain(HandDownAll(ParentDep(fs[0].e), fs[0].kids, modules), modules))] + Plain(fs[1..], modules)
  }

  lemma {:induction false} FlattenPreorder(fs: seq<Node>)
    ensures Preorder(Flatten(fs)) == Preorder(fs)
    decreases Count(fs)
  {
    if fs != [] {
      if fs[0].kids != [] && !HasText(fs[0].e) {
        CountConcat(fs[0].kids, fs[1..]);
        PreorderConcat(fs[0].kids, fs[1..]);
        FlattenPreorder(fs[0].kids + fs[1..]);
        var n := Node(fs[0].e, []);
        assert Preorder([n] + Flatten(fs[0].kids + fs[1..])) == [fs[0].e] + Preorder(fs[0].kids + fs[1..]);
      } else {
        FlattenPreorder(fs[1..]);
        assert Flatten(fs)[1..] == Flatten(fs[1..]);
      }
    }
  }

  lemma SinglePreorder(n: Node, modules: Symbol)
    ensures Preorder([n]) == [n.e] + Preorder(n.kids)
    ensures Preorder(Plain([n], modules))
              == [n.e] + Preorder(Plain(HandDownAll(ParentDep(n.e), n.kids, modules), modules))
  {
    assert [n][1..] == [];
    var m := Node(n.e, Plain(HandDownAll(ParentDep(n.e), n.kids, modules), modules));
    assert Plain([n], modules) == [m];
    assert [m][1..] == [];
  }

  /**
    menu_finalize loses, duplicates and reorders no node, and the conditions are those that handing
    them down gives without any restructuring.
   */
  lemma {:induction false} FinalizePreorder(n: Node, rest: seq<Node>, modules: Symbol)
    ensures var (n', rest') := Finalize(n, rest, modules);
            Preorder([n']) + Preorder(Plain(rest', modules))
                      == Preorder(Plain([n], modules)) + Preorder(Plain(rest, modules))
    decreases 1 + Count(n.kids) + Count(rest), 0
  {
    var (n', rest') := Finalize(n, rest, modules);
    SinglePreorder(n, modules);
    SinglePreorder(n', modules);
    if n.kids != [] {
      var kids := HandDownAll(ParentDep(n.e), n.kids, modules);
      FinalizeAllPreorder(kids, modules);
      FlattenPreorder(FinalizeAll(kids, modules));
    } else if n.e.sym.Some? {
      SubmenuPreorder(n, rest, modules);
    }
  }

  lemma {:induction false} SubmenuPreorder(n: Node, rest: seq<Node>, modules: Symbol)
    requires n.kids == [] && n.e.sym.Some?
    ensures var (kids, rest') := Absorb(n.e, rest, modules);
            [n.e] + Preorder(Flatten(kids)) + Preorder(Plain(rest', modules)) == [n.e] + Preorder(Plain(rest, modules))
    decreases Count(rest), 2
  {
    var (kids, rest') := Absorb(n.e, rest, modules);
    AbsorbPreorder(n.e, rest, modules);
    FlattenPreorder(kids);
    assert [n.e] + Preorder(kids) + Preorder(Plain(rest', modules))
              == [n.e] + (Preorder(kids) + Preorder(Plain(rest', modules)));
  }

  lemma {:induction false} FinalizeAllPreorder(fs: seq<Node>, modules: Symbol)
    ensures Preorder(FinalizeAll(fs, modules)) == Preorder(Plain(fs, modules))
    decreases Count(fs), 1
  {
    if fs != [] {
      var (n, rest) := Finalize(fs[0], fs[1..], modules);
      FinalizePreorder(fs[0], fs[1..], modules);
      FinalizeAllPreorder(rest, modules);
      PreorderConcat([n], FinalizeAll(rest, modules));
      PlainConcat([fs[0]], fs[1..], modules);
      assert [fs[0]] + fs[1..] == fs;
    }
  }

  lemma {:induction false} AbsorbPreorder(p: Entry, rest: seq<Node>, modules: Symbol)
    requires p.sym.Some?
    ensures var (ms, rest') := Absorb(p, rest, modules);
            Preorder(ms) + Preorder(Plain(rest', modules)) == Preorder(Plain(rest, modules))
    decreases Count(rest), 1
  {
    if rest != [] && Absorbs(p, rest[0].e) {
      var (m, rest1) := Finalize(rest[0], rest[1..], modules);
      var (ms, rest2) := Absorb(p, rest1, modules);
      FinalizePreorder(rest[0], rest[1..], modules);
      AbsorbPreorder(p, rest1, modules);
      PreorderConcat([m], ms);
      PlainConcat([rest[0]], rest[1..], modules);
      assert [rest[0]] + rest[1..] == rest;
      Reassociate(Preorder([m]), Preorder(ms), Preorder(Plain(rest2, modules)));
    }
  }

  lemma Reassociate<T>(a: seq<T>, b: seq<T>, c: seq<T>)
    ensures (a + b) + c == a + (b + c)
  {
  }

  lemma {:induction false} PlainConcat(a: seq<Node>, b: seq<Node>, modules: Symbol)
    ensures Preorder(Plain(a + b, modules)) == Preorder(Plain(a, modules)) + Preorder(Plain(b, modules))
    decreases Count(a)
  {
    if a == [] {
      assert a + b == b;
    } else {
      assert (a + b)[1..] == a[1..] + b;
      PlainConcat(a[1..], b, modules);
    }
  }

  /** The node has a prompt, and the prompt has a text. */
  predicate IsTitled(e: Entry) {
    match e.prompt
    case None => false
    case Some(p) => p.text
  }

  /** No node of the forest has children without a prompt text of its own. */
  ghost predicate Texted(fs: seq<Node>)
    decreases Count(fs)
  {
    fs != [] ==> (fs[0].kids != [] ==> IsTitled(fs[0].e)) && Texted(fs[0].kids) && Texted(fs[1..])
  }

  /** Texted, but for the nodes of the list themselves. */
  ghost predicate KidsTexted(fs: seq<Node>) {
    forall k :: 0 <= k < |fs| ==> Texted(fs[k].kids)
  }

  lemma {:induction false} TextedNodes(fs: seq<Node>)
    requires Texted(fs)
    ensures KidsTexted(fs)
    decreases Count(fs)
  {
    if fs != [] {
      TextedNodes(fs[1..]);
      assert forall k :: 1 <= k < |fs| ==> fs[k] == fs[1..][k - 1];
    }
  }

  lemma {:induction false} FlattenTexted(fs: seq<Node>)
    requires KidsTexted(fs)
    ensures Texted(Flatten(fs))
    decreases Count(fs)
  {
    if fs != [] {
      assert forall k :: 1 <= k < |fs| ==> fs[k] == fs[1..][k - 1];
      if fs[0].kids != [] && !HasText(fs[0].e) {
        CountConcat(fs[0].kids, fs[1..]);
        TextedNodes(fs[0].kids);
        FlattenTexted(fs[0].kids + fs[1..]);
      } else {
        FlattenTexted(fs[1..]);
        assert Flatten(fs)[1..] == Flatten(fs[1..]);
      }
    }
  }

  /** Below the node that menu_finalize was called on, only nodes with a prompt text have children. */
  lemma {:induction false} FinalizeTexted(n: Node, rest: seq<Node>, modules: Symbol)
    ensures Texted(Finalize(n, rest, modules).0.kids)
    decreases 1 + Count(n.kids) + Count(rest), 0
  {
    if n.kids != [] {
      FinalizeAllTexted(HandDownAll(ParentDep(n.e), n.kids, modules), modules);
      FlattenTexted(FinalizeAll(HandDownAll(ParentDep(n.e), n.kids, modules), modules));
    } else if n.e.sym.Some? {
      AbsorbTexted(n.e, rest, modules);
      FlattenTexted(Absorb(n.e, rest, modules).0);
    }
  }

  lemma {:induction false} FinalizeAllTexted(fs: seq<Node>, modules: Symbol)
    ensures KidsTexted(FinalizeAll(fs, modules))
    decreases Count(fs), 1
  {
    if fs != [] {
      var (n, rest) := Finalize(fs[0], fs[1..], modules);
      FinalizeTexted(fs[0], fs[1..], modules);
      FinalizeAllTexted(rest, modules);
    }
  }

  lemma {:induction false} AbsorbTexted(p: Entry, rest: seq<Node>, modules: Symbol)
    requires p.sym.Some?
    ensures KidsTexted(Absorb(p, rest, modules).0)
    decreases Count(rest), 1
  {
    if rest != [] && Absorbs(p, rest[0].e) {
      var (m, rest1) := Finalize(rest[0], rest[1..], modules);
      FinalizeTexted(rest[0], rest[1..], modules);
      AbsorbTexted(p, rest1, modules);
    }
  }

  /** The submenu is exactly the maximal run of items that depend on the symbol, each finalized in turn. */
  lemma {:induction false} AbsorbMaximal(p: Entry, rest: seq<Node>, modules: Symbol)
    requires p.sym.Some?
    ensures var (ms, rest') := Absorb(p, rest, modules);
            && (forall k :: 0 <= k < |ms| ==> Absorbs(p, ms[k].e))
            && (rest' != [] ==> !Absorbs(p, rest'[0].e))
    decreases Count(rest)
  {
    if rest != [] && Absorbs(p, rest[0].e) {
      var (m, rest1) := Finalize(rest[0], rest[1..], modules);
      AbsorbMaximal(p, rest1, modules);
    }
  }

  /** Where only nodes with text have children, nothing moves up. */
  lemma {:induction false} FlattenIdle(fs: seq<Node>)
    requires forall k :: 0 <= k < |fs| ==> fs[k].kids == [] || IsTitled(fs[k].e)
    ensures Flatten(fs) == fs
  {
    if fs != [] {
      assert forall k :: 1 <= k < |fs| ==> fs[k] == fs[1..][k - 1];
      FlattenIdle(fs[1..]);
    }
  }

  /**
    A leaf with a symbol gets a submenu exactly if the item after it belongs there, and leaves no such item
    behind it.
   */
  lemma SubmenuCreated(n: Node, rest: seq<Node>, modules: Symbol)
    requires n.kids == [] && n.e.sym.Some?
    ensures var (n', rest') := Finalize(n, rest, modules);
            && (n'.kids != [] <==> rest != [] && Absorbs(n.e, rest[0].e))
            && (n'.kids != [] ==> n'.kids[0].e == rest[0].e)
            && (rest' != [] ==> !Absorbs(n.e, rest'[0].e))
  {
    AbsorbMaximal(n.e, rest, modules);
    var (ms, rest') := Absorb(n.e, rest, modules);
    if ms != [] { assert Flatten(ms)[0].e == ms[0].e; }
  }

  /** What the items after a node say: the condition of the prompt, or that of the node if it has none. */
  ghost predicate Says(e: Entry, c: Option<Expr>) {
    (e.prompt.Some? ==> c == e.prompt.value.cond) && (e.prompt.None? ==> c == e.dep)
  }

  /** An item taken into the submenu can only be visible where the symbol is not n or its prompt's condition holds. */
  lemma AbsorbedReachable(p: Entry, rest: seq<Node>, modules: Symbol, k: nat, c: Option<Expr>, v: Valuation)
    requires p.sym.Some? && IsLogical(p.sym.value) && Admissible(v)
    requires k < |Absorb(p, rest, modules).0| && Says(Absorb(p, rest, modules).0[k].e, c)
    requires var q := if p.prompt.Some? then p.prompt.value.cond else None;
             Comparable(q) && Comparable(c) && Separate(q, c, v) && Faithful(q, c, v)
    ensures EvalOpt(c, v) != No ==>
              v.tri(p.sym.value) != No || (p.prompt.Some? ==> EvalOpt(p.prompt.value.cond, v) != No)
  {
    AbsorbMaximal(p, rest, modules);
    var q := if p.prompt.Some? then p.prompt.value.cond else None;
    assert ItemDep(Absorb(p, rest, modules).0[k].e) == c;
    if EvalOpt(c, v) != No { SubmenuSound(p.sym.value, q, c, v); }
  }

  /** s, or a test that it is y, m or not n, is one of the conjuncts of c. */
  predicate HasConjunct(c: Option<Expr>, s: Symbol) {
    && c.Some?
    && (IsOperand(AndOp, Atom(s), c.value) || IsOperand(AndOp, Compare(Eq, s, YES), c.value)
        || IsOperand(AndOp, Compare(Eq, s, MOD), c.value) || IsOperand(AndOp, Compare(Ne, s, NO), c.value))
  }

  predicate Mentions(c: Option<Expr>, s: Symbol) {
    c.Some? && (IsAtomOf(s, c.value) || IsComparedIn(s, c.value))
  }

  predicate HasCondition(e: Entry) {
    e.prompt.Some? && e.prompt.value.cond.Some?
  }

  /**
    The item after a symbol starts its submenu if the symbol, or a test that it is y, m or not n, is one of the
    item's conjuncts; and it does not if the item does not mention the symbol.
   */
  lemma NextItemAbsorbed(n: Node, rest: seq<Node>, modules: Symbol, c: Option<Expr>)
    requires n.kids == [] && n.e.sym.Some? && rest != [] && Says(rest[0].e, c)
    ensures var taken := Finalize(n, rest, modules).0.kids != [];
            && (HasConjunct(c, n.e.sym.value) ==> taken)
            && (taken ==> Mentions(c, n.e.sym.value))
            && (Mentions(c, n.e.sym.value) && !HasCondition(n.e) ==> taken)
  {
    SubmenuCreated(n, rest, modules);
    UnconditionalTakesAll(n.e.sym.value, c);
    if c.Some? {
      ContainsExact(c.value, n.e.sym.value);
      DependsExact(c.value, n.e.sym.value);
      DependsContains(c.value, n.e.sym.value);
    }
  }

  // ---------------------------------------------------- conditions after handing down

  /** The conditions of an entry as they come from the parser. */
  predicate ParsedEntry(e: Entry) {
    RegularOpt(e.dep, PARSED) && (e.prompt.Some? ==> RegularOpt(e.prompt.value.cond, PARSED))
  }

  ghost predicate Parsed(fs: seq<Node>)
    decreases Count(fs)
  {
    fs != [] ==> ParsedEntry(fs[0].e) && Parsed(fs[0].kids) && Parsed(fs[1..])
  }

  /**
    What handing d down makes of an entry: the minimum of the conditions, and a prompt visible exactly where
    all three hold.
   */
  lemma HandDownMeaning(d: Option<Expr>, e: Entry, modules: Symbol, v: Valuation)
    requires Admissible(v) && RegularOpt(d, NORMAL) && ParsedEntry(e)
    ensures var r := HandDown(d, e, modules);
            && r.id == e.id && r.sym == e.sym && (r.prompt.Some? <==> e.prompt.Some?) && HasText(r) == HasText(e)
            && EvalOpt(r.dep, v) == And(EvalOpt(d, v), EvalOpt(e.dep, WithoutModules(v, modules)))
            && (r.prompt.Some? ==>
                 (EvalOpt(r.prompt.value.cond, v) != No
                  <==> EvalOpt(r.dep, v) != No && EvalOpt(e.prompt.value.cond, WithoutModules(v, modules)) != No))
            && RegularOpt(ParentDep(r), NORMAL)
  {
    InheritMeaning(d, e.dep, modules, v);
    if e.prompt.Some? {
      var ty := if e.sym.Some? then Some(e.sym.value.ty) else None;
      PropertyConditionMeaning(Inherit(d, e.dep, modules), e.prompt.value.cond, ty, modules, v);
    }
  }

  /** What encloses the children of a node that menu_finalize has reached. */
  function Enclosing(e: Entry, v: Valuation): Tristate {
    if e.isChoice && e.sym.Some? then v.tri(e.sym.value)
    else if e.prompt.Some? then EvalOpt(e.prompt.value.cond, v)
    else EvalOpt(e.dep, v)
  }

  /** The condition of a child is worth the minimum of what encloses it and of the condition it was written with. */
  lemma ChildCondition(e: Entry, k: Entry, modules: Symbol, v: Valuation)
    requires Admissible(v) && RegularOpt(e.dep, NORMAL) && ParsedEntry(k)
    requires e.prompt.Some? ==> RegularOpt(e.prompt.value.cond, NORMAL)
    ensures EvalOpt(HandDown(ParentDep(e), k, modules).dep, v)
            == And(Enclosing(e, v), EvalOpt(k.dep, WithoutModules(v, modules)))
  {
    HandDownMeaning(ParentDep(e), k, modules, v);
  }

  /** Whether a node is on, and whether its prompt, if it has one, is. */
  datatype Switch = Switch(on: bool, prompt: bool)

  /** A node is on if it is enclosed by nothing that is off and its own condition, as written, holds. */
  function SwitchOf(e: Entry, open: bool, modules: Symbol, v: Valuation): Switch {
    var w := WithoutModules(v, modules);
    var on := open && EvalOpt(e.dep, w) != No;
    Switch(on, on && e.prompt.Some? && EvalOpt(e.prompt.value.cond, w) != No)
  }

  /** The switches of a forest as it was written, in preorder; open says whether what encloses it is on. */
  function Switches(fs: seq<Node>, open: bool, modules: Symbol, v: Valuation): seq<Switch>
    decreases Count(fs)
  {
    if fs == [] then []
    else
      var e, w := fs[0].e, SwitchOf(fs[0].e, open, modules, v);
      var inside := if e.isChoice && e.sym.Some? then v.tri(e.sym.value) != No
                    else if e.prompt.Some? then w.prompt else w.on;
      [w] + Switches(fs[0].kids, inside, modules, v) + Switches(fs[1..], open, modules, v)
  }

  /** The entries es, with their final conditions, are switched as ws says. */
  ghost predicate Switched(es: seq<Entry>, ws: seq<Switch>, v: Valuation) {
    |es| == |ws| && forall k :: 0 <= k < |es| ==> SwitchedAs(es[k], ws[k], v)
  }

  predicate SwitchedAs(e: Entry, w: Switch, v: Valuation) {
    (EvalOpt(e.dep, v) != No <==> w.on) && (e.prompt.Some? ==> (EvalOpt(e.prompt.value.cond, v) != No <==> w.prompt))
  }

  lemma SwitchedConcat(a: seq<Entry>, ws: seq<Switch>, b: seq<Entry>, us: seq<Switch>, v: Valuation)
    requires Switched(a, ws, v) && Switched(b, us, v)
    ensures Switched(a + b, ws + us, v)
  {
    forall k | 0 <= k < |a + b| ensures SwitchedAs((a + b)[k], (ws + us)[k], v) {
      if k < |a| {
        assert SwitchedAs(a[k], ws[k], v);
      } else {
        assert SwitchedAs(b[k - |a|], us[k - |a|], v);
      }
    }
  }

  lemma SwitchedFirst(e: Entry, w: Switch, a: seq<Entry>, us: seq<Switch>, b: seq<Entry>, ws: seq<Switch>, v: Valuation)
    requires SwitchedAs(e, w, v) && Switched(a, us, v) && Switched(b, ws, v)
    ensures Switched([e] + a + b, [w] + us + ws, v)
  {
    assert Switched([e], [w], v);
    SwitchedConcat([e], [w], a, us, v);
    SwitchedConcat([e] + a, [w] + us, b, ws, v);
  }

  /** The preorder of a forest after handing d down, by its first node. */
  lemma PlainFirst(d: Option<Expr>, fs: seq<Node>, modules: Symbol)
    requires fs != []
    ensures var e := HandDown(d, fs[0].e, modules);
            Preorder(Plain(HandDownAll(d, fs, modules), modules))
            == [e] + Preorder(Plain(HandDownAll(ParentDep(e), fs[0].kids, modules), modules))
               + Preorder(Plain(HandDownAll(d, fs[1..], modules), modules))
  {
    var e := HandDown(d, fs[0].e, modules);
    var rest := HandDownAll(d, fs[1..], modules);
    var below := Plain(HandDownAll(ParentDep(e), fs[0].kids, modules), modules);
    assert HandDownAll(d, fs, modules) == [Node(e, fs[0].kids)] + rest;
    assert Plain(HandDownAll(d, fs, modules), modules) == [Node(e, below)] + Plain(rest, modules);
  }

  lemma HandDownSwitched(d: Option<Expr>, e: Entry, modules: Symbol, v: Valuation)
    requires Admissible(v) && RegularOpt(d, NORMAL) && ParsedEntry(e)
    ensures var r, w := HandDown(d, e, modules), SwitchOf(e, EvalOpt(d, v) != No, modules, v);
            && SwitchedAs(r, w, v) && RegularOpt(ParentDep(r), NORMAL)
            && (Enclosing(r, v) != No <==> (if e.isChoice && e.sym.Some? then v.tri(e.sym.value) != No
                                            else if e.prompt.Some? then w.prompt else w.on))
            && EvalOpt(ParentDep(r), v) == Enclosing(r, v)
  {
    HandDownMeaning(d, e, modules, v);
  }

  lemma {:induction false} PlainSwitched(d: Option<Expr>, fs: seq<Node>, modules: Symbol, v: Valuation)
    requires Admissible(v) && RegularOpt(d, NORMAL) && Parsed(fs)
    ensures Switched(Preorder(Plain(HandDownAll(d, fs, modules), modules)),
                     Switches(fs, EvalOpt(d, v) != No, modules, v), v)
    decreases Count(fs)
  {
    if fs != [] {
      var e, open := HandDown(d, fs[0].e, modules), EvalOpt(d, v) != No;
      var w, inside := SwitchOf(fs[0].e, open, modules, v), Enclosing(e, v) != No;
      HandDownSwitched(d, fs[0].e, modules, v);
      PlainSwitched(ParentDep(e), fs[0].kids, modules, v);
      PlainSwitched(d, fs[1..], modules, v);
      PlainFirst(d, fs, modules);
      SwitchedFirst(e, w, Preorder(Plain(HandDownAll(ParentDep(e), fs[0].kids, modules), modules)),
                    Switches(fs[0].kids, inside, modules, v),
                    Preorder(Plain(HandDownAll(d, fs[1..], modules), modules)),
                    Switches(fs[1..], open, modules, v), v);
    }
  }

  /**
    After menu_finalize of the whole tree a node is on exactly if its own condition and those of all menus, ifs
    and choices around it are, and so is its prompt.
   */
  lemma FinalizeSwitched(n: Node, modules: Symbol, v: Valuation)
    requires Admissible(v) && Parsed(n.kids) && RegularOpt(n.e.dep, NORMAL)
    requires n.e.prompt.Some? ==> RegularOpt(n.e.prompt.value.cond, NORMAL)
    ensures Switched(Preorder(Finalize(n, [], modules).0.kids),
                     Switches(n.kids, Enclosing(n.e, v) != No, modules, v), v)
  {
    var n' := Finalize(n, [], modules).0;
    FinalizePreorder(n, [], modules);
    SinglePreorder(n, modules);
    SinglePreorder(n', modules);
    var below := Preorder(Plain(HandDownAll(ParentDep(n.e), n.kids, modules), modules));
    assert Finalize(n, [], modules).1 == [];
    assert [n.e] + Preorder(n'.kids) == [n.e] + below;
    assert Preorder(n'.kids) == ([n.e] + Preorder(n'.kids))[1..] && below == ([n.e] + below)[1..];
    PlainSwitched(ParentDep(n.e), n.kids, modules, v);
  }

  /** No condition exceeds the one handed down from above, and no prompt is visible against it, at any depth. */
  ghost predicate Bounded(fs: seq<Node>, d: Option<Expr>, v: Valuation)
    decreases Count(fs)
  {
    fs != [] ==>
      && Level(EvalOpt(fs[0].e.dep, v)) <= Level(EvalOpt(d, v))
      && (fs[0].e.prompt.Some? && EvalOpt(fs[0].e.prompt.value.cond, v) != No ==> EvalOpt(fs[0].e.dep, v) != No)
      && Bounded(fs[0].kids, ParentDep(fs[0].e), v) && Bounded(fs[1..], d, v)
  }

  /** Handing conditions down through a whole tree leaves nothing visible whose enclosing menus and ifs are not. */
  lemma {:induction false} PlainBounded(d: Option<Expr>, fs: seq<Node>, modules: Symbol, v: Valuation)
    requires Admissible(v) && RegularOpt(d, NORMAL) && Parsed(fs)
    ensures Bounded(Plain(HandDownAll(d, fs, modules), modules), d, v)
    decreases Count(fs)
  {
    if fs != [] {
      var e := HandDown(d, fs[0].e, modules);
      HandDownMeaning(d, fs[0].e, modules, v);
      PlainBounded(ParentDep(e), fs[0].kids, modules, v);
      PlainBounded(d, fs[1..], modules, v);
      var all := HandDownAll(d, fs, modules);
      assert all[0] == Node(e, fs[0].kids) && all[1..] == HandDownAll(d, fs[1..], modules);
      assert Plain(all, modules)[1..] == Plain(all[1..], modules);
    }
  }
}
