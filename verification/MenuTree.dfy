/**
  menu_finalize of menu.c and the tree walk of conf_write of confdata.c on the linked menu tree. The
  contracts compare the links before and after with the trees of Menus; ghost arguments name the trees.
 */
module MenuTrees {
  import opened Exprs
  import opened Menus
  import opened MenuLinks
  import opened Selects

  lemma Unfold(l: Links, fs: seq<Node>, par: Link, i: nat)
    requires Sized(l) && Seg(l, Some(i), fs, None, par)
    ensures fs != [] && fs == [fs[0]] + fs[1..] && fs[0].e.id == i
    ensures i < |l.entries| && l.entries[i] == fs[0].e && l.parent[i] == par
    ensures Seg(l, l.list[i], fs[0].kids, None, Some(i)) && Seg(l, l.next[i], fs[1..], None, par)
    ensures Ids(fs) == {i} + Ids(fs[0].kids) + Ids(fs[1..])
  {
  }

  /** A loop steps over node n, which changes in its own fields only, from the part todo to the part done. */
  lemma Advance(before: Links, after: Links, head: Link, done: seq<Node>, n: Node, rest: seq<Node>, par: Link,
                todoPar: Link)
    requires Sized(before) && Sized(after) && n.e.id < |before.entries| && OnlyOn(before, after, {n.e.id})
    requires n.e.id !in Ids(done) && n.e.id !in Ids(n.kids) && n.e.id !in Ids(rest)
    requires Seg(before, head, done, Some(n.e.id), par)
    requires Seg(before, before.list[n.e.id], n.kids, None, Some(n.e.id))
    requires Seg(before, before.next[n.e.id], rest, None, todoPar)
    requires after.entries[n.e.id] == n.e && after.parent[n.e.id] == par
    requires after.list[n.e.id] == before.list[n.e.id] && after.next[n.e.id] == before.next[n.e.id]
    ensures Seg(after, head, done + [n], after.next[n.e.id], par)
    ensures Seg(after, after.next[n.e.id], rest, None, todoPar)
  {
    var i := n.e.id;
    SegBeside(before, after, head, done, Some(i), par, i);
    SegBeside(before, after, before.list[i], n.kids, None, Some(i), i);
    SegBeside(before, after, before.next[i], rest, None, todoPar, i);
    SegSingle(after, Some(i), n, after.next[i], par);
    SegConcat(after, head, done, Some(i), [n], after.next[i], par);
  }

  lemma OnlyOnTrans(a: Links, b: Links, c: Links, m: set<nat>, k: set<nat>)
    requires Sized(a) && Sized(b) && Sized(c) && OnlyOn(a, b, m) && OnlyOn(b, c, k) && k <= m
    ensures OnlyOn(a, c, m)
  {
  }

  class MenuTree {
    const modules: Symbol
    var l: Links
    var syms: Symbols

    constructor (l: Links, syms: Symbols, modules: Symbol)
      requires Sized(l)
      ensures this.l == l && this.syms == syms && this.modules == modules
    {
      this.l := l;
      this.syms := syms;
      this.modules := modules;
    }

    /** A loop over the children of p: done is behind it, todo starts at menu. */
    ghost predicate Between(p: nat, done: seq<Node>, menu: Link, todo: seq<Node>)
      reads this`l
    {
      && Sized(l) && p < |l.entries|
      && Seg(l, l.list[p], done, menu, Some(p)) && Seg(l, menu, todo, None, Some(p))
      && Separate(p, done, todo)
    }

    ghost predicate Separate(p: nat, done: seq<Node>, todo: seq<Node>) {
      && p !in Ids(done) && p !in Ids(todo) && Ids(done) !! Ids(todo) && Distinct(done) && Distinct(todo)
    }

    /** The first loop of menu_finalize: conditions are handed down to the children of p. */
    method HandDownList(p: nat, ghost kids: seq<Node>)
      requires Sized(l) && p < |l.entries| && Between(p, [], l.list[p], kids)
      modifies this
      ensures Sized(l) && OnlyOn(old(l), l, Ids(kids))
      ensures Between(p, [], l.list[p], HandDownAll(ParentDep(l.entries[p]), kids, modules))
      ensures syms == Run(old(syms), TreatedAll(HandDownAll(ParentDep(l.entries[p]), kids, modules)), modules)
    {
      var d := ParentDep(l.entries[p]);
      var menu: Link := l.list[p];
      ghost var done, todo := [], kids;
      while menu.Some?
        invariant Between(p, done, menu, todo)
        invariant OnlyOn(old(l), l, Ids(kids))
        invariant HandDownAll(d, kids, modules) == done + HandDownAll(d, todo, modules)
        invariant Run(syms, TreatedAll(HandDownAll(d, todo, modules)), modules)
                  == Run(old(syms), TreatedAll(HandDownAll(d, kids, modules)), modules)
        invariant Ids(done) + Ids(todo) == Ids(kids)
        decreases |todo|
      {
        ghost var before, done0, todo0 := l, done, todo;
        menu, done, todo := HandDownOne(p, d, menu.value, done, todo);
        OnlyOnTrans(old(l), before, l, Ids(kids), Ids(todo0));
        HandDownSnoc(d, done0, todo0);
        TreatedFirst(HandDownAll(d, todo0, modules));
      }
      SegEnd(l, menu, todo, Some(p));
      assert done + [] == done;
    }

    lemma HandDownSnoc(d: Option<Expr>, done: seq<Node>, todo: seq<Node>)
      requires todo != []
      ensures done + HandDownAll(d, todo, modules)
              == (done + [Node(HandDown(d, todo[0].e, modules), todo[0].kids)]) + HandDownAll(d, todo[1..], modules)
    {
    }

    lemma TreatedFirst(fs: seq<Node>)
      requires fs != []
      ensures TreatedAll(fs) != [] && TreatedAll(fs)[0] == Treated(fs[0].e)
      ensures TreatedAll(fs)[1..] == TreatedAll(fs[1..])
    {
    }

    /** The loop over the properties of the symbol of a node, which now has the entry e. */
    method TreatProps(e: Entry)
      modifies this`syms
      ensures syms == Treat(old(syms), e, modules)
    {
      if e.sym.None? {
        return;
      }
      var sym, k := e.sym.value, 0;
      while k < |PropsOf(syms, sym.id)|
        invariant k <= |PropsOf(syms, sym.id)| == |PropsOf(old(syms), sym.id)|
        invariant TreatFrom(syms, e, sym, k, modules) == Treat(old(syms), e, modules)
      {
        var q := PropsOf(syms, sym.id)[k];
        if q.menu == Some(e.id) {
          q := Conditioned(e, sym, q, modules);
          var p := q.p;
          syms := syms.(props := syms.props[sym.id := syms.props[sym.id][k := q]]);
          if p.Select? {
            var dep := AllocOr(Look(syms.revDep, p.target), AllocAnd(Some(Atom(sym)), p.cond));
            syms := syms.(revDep := Put(syms.revDep, p.target, dep));
          } else if p.Imply? {
            var dep := AllocOr(Look(syms.implied, p.target), AllocAnd(Some(Atom(sym)), p.cond));
            syms := syms.(implied := Put(syms.implied, p.target, dep));
          }
        }
        k := k + 1;
      }
    }

    method HandDownOne(p: nat, d: Option<Expr>, i: nat, ghost done: seq<Node>, ghost todo: seq<Node>)
      returns (menu: Link, ghost done': seq<Node>, ghost todo': seq<Node>)
      requires Between(p, done, Some(i), todo)
      modifies this
      ensures todo != [] && todo' == todo[1..] && done' == done + [Node(HandDown(d, todo[0].e, modules), todo[0].kids)]
      ensures Between(p, done', menu, todo') && Ids(done') + Ids(todo') == Ids(done) + Ids(todo)
      ensures OnlyOn(old(l), l, Ids(todo))
      ensures syms == Treat(old(syms), HandDown(d, todo[0].e, modules), modules)
    {
      Unfold(l, todo, Some(p), i);
      ghost var n, before := Node(HandDown(d, todo[0].e, modules), todo[0].kids), l;
      l := l.(entries := l.entries[i := HandDown(d, l.entries[i], modules)]);
      Advance(before, l, l.list[p], done, n, todo[1..], Some(p), Some(p));
      TreatProps(l.entries[i]);
      menu := l.next[i];
      done', todo' := done + [n], todo[1..];
      ReplacedIds(p, done, todo, n);
    }

    lemma ReplacedIds(p: nat, done: seq<Node>, todo: seq<Node>, n: Node)
      requires todo != [] && n.kids == todo[0].kids && n.e.id == todo[0].e.id && Separate(p, done, todo)
      ensures Separate(p, done + [n], todo[1..]) && Ids(done + [n]) + Ids(todo[1..]) == Ids(done) + Ids(todo)
    {
      IdsConcat(done, [n]);
      IdsSingle(n);
    }
 
    // -------------------------------------------------------- moving nodes up

    /** The inner loop of the flattening: the children ks of i are given the parent p. */
    method Reparent(i: nat, p: nat, ghost ks: seq<Node>) returns (last: nat)
      requires Sized(l) && i < |l.entries| && ks != [] && Seg(l, l.list[i], ks, None, Some(i)) && Distinct(ks)
      modifies this`l
      ensures Sized(l) && OnlyParents(old(l), l, Ids(ks))
      ensures Seg(l, l.list[i], ks, None, Some(p)) && last == ks[|ks| - 1].e.id < |l.entries|
    {
      SegEnd(l, l.list[i], ks, Some(i));
      last := l.list[i].value;
      ghost var done, todo := [], ks;
      while true
        invariant Sized(l) && OnlyParents(old(l), l, Ids(ks))
        invariant Seg(l, l.list[i], done, Some(last), Some(p)) && Seg(l, Some(last), todo, None, Some(i))
        invariant done + todo == ks
        decreases |todo|
      {
        ghost var before, done0, todo0 := l, done, todo;
        done, todo := ReparentOne(i, p, last, done, todo, ks);
        OnlyOnTrans(old(l), before, l, Ids(ks), {last});
        ReparentStep(done0, todo0, ks);
        SegEnd(l, l.next[last], todo, Some(i));
        if l.next[last].None? {
          return;
        }
        last := l.next[last].value;
      }
    }

    lemma ReparentStep(done: seq<Node>, todo: seq<Node>, ks: seq<Node>)
      requires done + todo == ks && todo != []
      ensures (done + [todo[0]]) + todo[1..] == ks
      ensures todo[1..] == [] ==> done + [todo[0]] == ks && ks[|ks| - 1] == todo[0]
    {
    }

    /** Only parent links of the nodes in m have changed. */
    ghost predicate OnlyParents(a: Links, b: Links, m: set<nat>)
      requires Sized(a) && Sized(b)
    {
      OnlyOn(a, b, m) && b.list == a.list && b.next == a.next && b.entries == a.entries
    }

    method ReparentOne(i: nat, p: nat, m: nat, ghost done: seq<Node>, ghost todo: seq<Node>, ghost ks: seq<Node>)
      returns (ghost done': seq<Node>, ghost todo': seq<Node>)
      requires Sized(l) && i < |l.entries| && Seg(l, l.list[i], done, Some(m), Some(p))
      requires Seg(l, Some(m), todo, None, Some(i))
      requires done + todo == ks && Distinct(ks)
      modifies this`l
      ensures Sized(l) && m < |l.entries| == |old(l).entries|
      ensures todo != [] && done' == done + [todo[0]] && todo' == todo[1..] && todo[0].e.id == m
      ensures OnlyParents(old(l), l, {m}) && m in Ids(ks)
      ensures Seg(l, l.list[i], done', l.next[m], Some(p)) && Seg(l, l.next[m], todo', None, Some(i))
    {
      ghost var before := l;
      Unfold(l, todo, Some(i), m);
      IdsConcat(done, todo);
      l := l.(parent := l.parent[m := Some(p)]);
      Advance(before, l, l.list[i], done, todo[0], todo[1..], Some(p), Some(i));
      done', todo' := done + [todo[0]], todo[1..];
    }

    /** The last loop of menu_finalize: children of nodes without text move up behind their parent. */
    method FlattenList(p: nat, ghost kids: seq<Node>)
      requires Sized(l) && p < |l.entries| && Between(p, [], l.list[p], kids)
      modifies this`l
      ensures Sized(l) && OnlyOn(old(l), l, Ids(kids))
      ensures Between(p, [], l.list[p], Flatten(kids))
    {
      var menu: Link := l.list[p];
      ghost var done, todo := [], kids;
      while menu.Some?
        invariant Between(p, done, menu, todo)
        invariant OnlyOn(old(l), l, Ids(kids))
        invariant Flatten(kids) == done + Flatten(todo)
        invariant Ids(done) + Ids(todo) == Ids(kids)
        decreases Count(todo)
      {
        ghost var before, done0, todo0 := l, done, todo;
        menu, done, todo := FlattenOne(p, menu.value, done, todo);
        OnlyOnTrans(old(l), before, l, Ids(kids), Ids(todo0));
      }
      SegEnd(l, menu, todo, Some(p));
      assert done + [] == done;
    }

    method FlattenOne(p: nat, i: nat, ghost done: seq<Node>, ghost todo: seq<Node>)
      returns (menu: Link, ghost done': seq<Node>, ghost todo': seq<Node>)
      requires Between(p, done, Some(i), todo)
      modifies this`l
      ensures Between(p, done', menu, todo') && Ids(done') + Ids(todo') == Ids(done) + Ids(todo)
      ensures done + Flatten(todo) == done' + Flatten(todo') && Count(todo') < Count(todo)
      ensures OnlyOn(old(l), l, Ids(todo))
    {
      Unfold(l, todo, Some(p), i);
      SegEnd(l, l.list[i], todo[0].kids, Some(i));
      if l.list[i].Some? && !HasText(l.entries[i]) {
        menu, done', todo' := FlattenMove(p, i, done, todo);
      } else {
        Skipped(l, p, i, done, todo);
        FlattenSkips(done, todo);
        menu, done', todo' := l.next[i], done + [todo[0]], todo[1..];
      }
    }

    lemma FlattenSkips(done: seq<Node>, todo: seq<Node>)
      requires todo != [] && (todo[0].kids == [] || HasText(todo[0].e))
      ensures done + Flatten(todo) == (done + [todo[0]]) + Flatten(todo[1..]) && Count(todo[1..]) < Count(todo)
    {
      assert Flatten(todo) == [todo[0]] + Flatten(todo[1..]);
      Reassociate(done, [todo[0]], Flatten(todo[1..]));
    }

    method FlattenMove(p: nat, i: nat, ghost done: seq<Node>, ghost todo: seq<Node>)
      returns (menu: Link, ghost done': seq<Node>, ghost todo': seq<Node>)
      requires Between(p, done, Some(i), todo) && todo != [] && todo[0].kids != [] && !HasText(todo[0].e)
      modifies this`l
      ensures Between(p, done', menu, todo') && Ids(done') + Ids(todo') == Ids(done) + Ids(todo)
      ensures done + Flatten(todo) == done' + Flatten(todo') && Count(todo') < Count(todo)
      ensures OnlyOn(old(l), l, Ids(todo))
    {
      MoveUp(p, i, done, todo);
      MovedUp(p, done, todo);
      menu, done', todo' := l.next[i], done + [Node(todo[0].e, [])], todo[0].kids + todo[1..];
    }

    lemma Skipped(l: Links, p: nat, i: nat, done: seq<Node>, todo: seq<Node>)
      requires Sized(l) && p < |l.entries| && Separate(p, done, todo)
      requires Seg(l, l.list[p], done, Some(i), Some(p)) && Seg(l, Some(i), todo, None, Some(p))
      ensures todo != [] && i < |l.entries| && Separate(p, done + [todo[0]], todo[1..])
      ensures Ids(done + [todo[0]]) + Ids(todo[1..]) == Ids(done) + Ids(todo)
      ensures Seg(l, l.list[p], done + [todo[0]], l.next[i], Some(p)) && Seg(l, l.next[i], todo[1..], None, Some(p))
    {
      Unfold(l, todo, Some(p), i);
      SegSingle(l, Some(i), todo[0], l.next[i], Some(p));
      SegConcat(l, l.list[p], done, Some(i), [todo[0]], l.next[i], Some(p));
      IdsConcat(done, [todo[0]]);
      IdsSingle(todo[0]);
    }

    lemma MovedUp(p: nat, done: seq<Node>, todo: seq<Node>)
      requires todo != [] && todo[0].kids != [] && !HasText(todo[0].e) && Separate(p, done, todo)
      ensures var done', todo' := done + [Node(todo[0].e, [])], todo[0].kids + todo[1..];
              && Separate(p, done', todo') && Ids(done') + Ids(todo') == Ids(done) + Ids(todo)
              && done + Flatten(todo) == done' + Flatten(todo') && Count(todo') < Count(todo)
    {
      var n := Node(todo[0].e, []);
      MovedUpIds(p, done, todo, n);
      CountConcat(todo[0].kids, todo[1..]);
      assert Flatten(todo) == [n] + Flatten(todo[0].kids + todo[1..]);
      Reassociate(done, [n], Flatten(todo[0].kids + todo[1..]));
    }

    lemma MovedUpIds(p: nat, done: seq<Node>, todo: seq<Node>, n: Node)
      requires todo != [] && n.kids == [] && n.e == todo[0].e && Separate(p, done, todo)
      ensures Separate(p, done + [n], todo[0].kids + todo[1..])
      ensures Ids(done + [n]) + Ids(todo[0].kids + todo[1..]) == Ids(done) + Ids(todo)
    {
      IdsConcat(todo[0].kids, todo[1..]);
      IdsConcat(done, [n]);
      IdsSingle(n);
    }

    /** Relinking the children of i behind i. */
    method MoveUp(p: nat, i: nat, ghost done: seq<Node>, ghost todo: seq<Node>)
      requires Between(p, done, Some(i), todo) && todo != [] && todo[0].kids != []
      modifies this`l
      ensures Sized(l) && p < |l.entries| == |old(l).entries| && i < |l.entries| && OnlyOn(old(l), l, Ids(todo))
      ensures Seg(l, l.list[p], done + [Node(todo[0].e, [])], l.next[i], Some(p))
      ensures Seg(l, l.next[i], todo[0].kids + todo[1..], None, Some(p))
    {
      Unfold(l, todo, Some(p), i);
      ghost var ks, rest, l0 := todo[0].kids, todo[1..], l;
      var last := Reparent(i, p, ks);
      ghost var l1 := l;
      SegElsewhere(l0, l1, l0.list[p], done, Some(i), Some(p), Ids(ks));
      SegElsewhere(l0, l1, l0.next[i], rest, None, Some(p), Ids(ks));
      LinkUp(p, i, last, done, ks, rest);
      OnlyOnTrans(l0, l1, l, Ids(todo), Ids(ks) + {i});
      SegSingle(l, Some(i), Node(todo[0].e, []), l.next[i], Some(p));
      SegConcat(l, l.list[p], done, Some(i), [Node(todo[0].e, [])], l.next[i], Some(p));
    }

    /**
      The three assignments after the inner loop: the children of i, the last of them last, go between i and
      its successor.
     */
    method LinkUp(p: nat, i: nat, last: nat, ghost done: seq<Node>, ghost ks: seq<Node>, ghost rest: seq<Node>)
      requires Sized(l) && p < |l.entries| && i < |l.entries| && last < |l.entries|
      requires Seg(l, l.list[p], done, Some(i), Some(p)) && Seg(l, l.list[i], ks, None, Some(p))
      requires Seg(l, l.next[i], rest, None, Some(p))
      requires ks != [] && last == ks[|ks| - 1].e.id && Distinct(ks)
      requires Ids(ks) !! Ids(rest) && Ids(ks) !! Ids(done) && i !in Ids(ks)
      requires i !in Ids(done) && i !in Ids(rest) && p != i && p !in Ids(ks)
      modifies this`l
      ensures Sized(l) && OnlyOn(old(l), l, Ids(ks) + {i})
      ensures Seg(l, l.list[p], done, Some(i), Some(p)) && Seg(l, l.next[i], ks + rest, None, Some(p))
      ensures l.list[i] == None && l.entries[i] == old(l).entries[i] && l.parent[i] == old(l).parent[i]
    {
      ghost var l1 := l;
      l := l.(next := l.next[last := l.next[i]]);
      Joined(l1, l, ks, last, l1.list[i], l1.next[i], rest, p);
      SegBeside(l1, l, l1.list[p], done, Some(i), Some(p), last);
      ghost var l2 := l;
      LinkFirst(p, i, done, ks, rest);
      OnlyOnTrans(l1, l2, l, Ids(ks) + {i}, {i});
    }

    /** The last two of them: the joined list becomes the successors of i. */
    method LinkFirst(p: nat, i: nat, ghost done: seq<Node>, ghost ks: seq<Node>, ghost rest: seq<Node>)
      requires Sized(l) && p < |l.entries| && i < |l.entries| && p != i
      requires Seg(l, l.list[p], done, Some(i), Some(p)) && Seg(l, l.list[i], ks + rest, None, Some(p))
      requires i !in Ids(done) && i !in Ids(ks) && i !in Ids(rest)
      modifies this`l
      ensures Sized(l) && OnlyOn(old(l), l, {i})
      ensures Seg(l, l.list[p], done, Some(i), Some(p)) && Seg(l, l.next[i], ks + rest, None, Some(p))
      ensures l.list[i] == None && l.entries[i] == old(l).entries[i] && l.parent[i] == old(l).parent[i]
    {
      ghost var l2 := l;
      l := l.(next := l.next[i := l.list[i]], list := l.list[i := None]);
      IdsConcat(ks, rest);
      SegBeside(l2, l, l2.list[p], done, Some(i), Some(p), i);
      SegBeside(l2, l, l2.list[i], ks + rest, None, Some(p), i);
    }

    lemma Joined(before: Links, after: Links, ks: seq<Node>, last: nat, head: Link, next: Link, rest: seq<Node>, p: nat)
      requires Sized(before) && ks != [] && last == ks[|ks| - 1].e.id && Distinct(ks) && Ids(ks) !! Ids(rest)
      requires Seg(before, head, ks, None, Some(p)) && Seg(before, next, rest, None, Some(p))
      requires last < |before.entries| && after == before.(next := before.next[last := next])
      ensures Seg(after, head, ks + rest, None, Some(p)) && last in Ids(ks)
    {
      var a, n := ks[..|ks| - 1], ks[|ks| - 1];
      assert a + [n] == ks;
      LastIn(a, n);
      SegRetail(before, head, a, n, None, Some(p), next);
      SegBeside(before, after, next, rest, None, Some(p), last);
      SegConcat(after, head, ks, next, rest, None, Some(p));
    }

    lemma LastIn(a: seq<Node>, n: Node)
      ensures n.e.id in Ids(a + [n])
    {
      IdsConcat(a, [n]);
      IdsSingle(n);
    }

    // ------------------------------------------------------- the whole function

    /** menu_finalize of p, the first of the siblings [n] + rest under par. */
    method MenuFinalize(p: nat, ghost n: Node, ghost rest: seq<Node>, ghost par: Link)
      returns (ghost n': Node, ghost rest': seq<Node>)
      requires Sized(l) && Seg(l, Some(p), [n] + rest, None, par) && Distinct([n] + rest)
      modifies this
      ensures (n', rest') == Finalize(n, rest, modules)
      ensures Sized(l) && OnlyOn(old(l), l, Ids([n] + rest))
      ensures Seg(l, Some(p), [n'] + rest', None, par)
      ensures syms == Run(old(syms), Events(n, rest, modules), modules)
      decreases 1 + Count(n.kids) + Count(rest), 0, 1
    {
      Unfold(l, [n] + rest, par, p);
      assert ([n] + rest)[1..] == rest;
      SegEnd(l, l.list[p], n.kids, Some(p));
      ghost var r := Finalize(n, rest, modules);
      n', rest' := r.0, r.1;
      if l.list[p].Some? {
        FinalizeKids(p, n, rest, par);
      } else if l.entries[p].sym.Some? {
        FinalizeSubmenu(p, n, rest, par);
      }
    }

    lemma Refold(a: Links, b: Links, n: Node, rest: seq<Node>, par: Link, m: set<nat>)
      requires Sized(a) && Sized(b) && OnlyOn(a, b, m) && n.e.id < |a.entries|
      requires n.e.id !in m && m !! Ids(rest)
      requires a.entries[n.e.id] == n.e && a.parent[n.e.id] == par && Seg(a, a.next[n.e.id], rest, None, par)
      requires Seg(b, b.list[n.e.id], n.kids, None, Some(n.e.id))
      ensures Seg(b, Some(n.e.id), [n] + rest, None, par)
    {
      SegElsewhere(a, b, a.next[n.e.id], rest, None, par, m);
      assert ([n] + rest)[1..] == rest;
    }

    /** The case of a node that has children. */
    method FinalizeKids(p: nat, ghost n: Node, ghost rest: seq<Node>, ghost par: Link)
      requires Sized(l) && n.kids != [] && Seg(l, Some(p), [n] + rest, None, par) && Distinct([n] + rest)
      modifies this
      ensures Sized(l) && OnlyOn(old(l), l, Ids([n] + rest))
      ensures Seg(l, Some(p), [Finalize(n, rest, modules).0] + rest, None, par)
      ensures syms == Run(old(syms), Events(n, rest, modules), modules)
      decreases 1 + Count(n.kids) + Count(rest), 0, 0
    {
      Unfold(l, [n] + rest, par, p);
      assert ([n] + rest)[1..] == rest;
      ghost var l0, d := l, ParentDep(n.e);
      HandDownList(p, n.kids);
      ghost var l1, kids := l, HandDownAll(d, n.kids, modules);
      HandDownIds(d, n.kids, modules);
      FinalizeList(p, kids);
      RunConcat(old(syms), TreatedAll(kids), EventsAll(kids, modules), modules);
      FinalizeAllIds(kids, modules);
      ghost var l2 := l;
      FlattenList(p, FinalizeAll(kids, modules));
      KidsDone(l0, l1, l2, l, n, Finalize(n, rest, modules).0, rest, par);
    }

    /** The three loops change nothing but what is below n. */
    lemma KidsDone(l0: Links, l1: Links, l2: Links, l3: Links, n: Node, n': Node, rest: seq<Node>, par: Link)
      requires Sized(l0) && Sized(l1) && Sized(l2) && Sized(l3) && n'.e == n.e && n.e.id < |l0.entries|
      requires OnlyOn(l0, l1, Ids(n.kids)) && OnlyOn(l1, l2, Ids(n.kids)) && OnlyOn(l2, l3, Ids(n.kids))
      requires n.e.id !in Ids(n.kids) && Ids(n.kids) !! Ids(rest)
      requires l0.entries[n.e.id] == n.e && l0.parent[n.e.id] == par && Seg(l0, l0.next[n.e.id], rest, None, par)
      requires Seg(l3, l3.list[n.e.id], n'.kids, None, Some(n.e.id))
      ensures OnlyOn(l0, l3, Ids([n] + rest)) && Seg(l3, Some(n.e.id), [n'] + rest, None, par)
    {
      OnlyOnTrans(l0, l1, l2, Ids(n.kids), Ids(n.kids));
      OnlyOnTrans(l0, l2, l3, Ids(n.kids), Ids(n.kids));
      Refold(l0, l3, n', rest, par, Ids(n.kids));
      IdsFirst(n, rest);
      OnlyOnTrans(l0, l0, l3, Ids([n] + rest), Ids(n.kids));
    }

    /** The loop that finalizes the children of p. */
    method FinalizeList(p: nat, ghost kids: seq<Node>)
      requires Sized(l) && p < |l.entries| && Between(p, [], l.list[p], kids)
      modifies this
      ensures Sized(l) && OnlyOn(old(l), l, Ids(kids))
      ensures Between(p, [], l.list[p], FinalizeAll(kids, modules))
      ensures syms == Run(old(syms), EventsAll(kids, modules), modules)
      decreases Count(kids), 1, 0
    {
      var menu: Link := l.list[p];
      ghost var done, todo := [], kids;
      while menu.Some?
        invariant Between(p, done, menu, todo) && Count(todo) <= Count(kids)
        invariant OnlyOn(old(l), l, Ids(kids))
        invariant FinalizeAll(kids, modules) == done + FinalizeAll(todo, modules)
        invariant Run(syms, EventsAll(todo, modules), modules) == Run(old(syms), EventsAll(kids, modules), modules)
        invariant Ids(done) + Ids(todo) == Ids(kids)
        decreases Count(todo)
      {
        ghost var before, done0, todo0 := l, done, todo;
        menu, done, todo := FinalizeOne(p, menu.value, done, todo);
        OnlyOnTrans(old(l), before, l, Ids(kids), Ids(todo0));
      }
      SegEnd(l, menu, todo, Some(p));
      assert done + [] == done;
    }

    method FinalizeOne(p: nat, i: nat, ghost done: seq<Node>, ghost todo: seq<Node>)
      returns (menu: Link, ghost done': seq<Node>, ghost todo': seq<Node>)
      requires Between(p, done, Some(i), todo)
      modifies this
      ensures Between(p, done', menu, todo') && Ids(done') + Ids(todo') == Ids(done) + Ids(todo)
      ensures done + FinalizeAll(todo, modules) == done' + FinalizeAll(todo', modules) && Count(todo') < Count(todo)
      ensures OnlyOn(old(l), l, Ids(todo))
      ensures Run(syms, EventsAll(todo', modules), modules) == Run(old(syms), EventsAll(todo, modules), modules)
      decreases Count(todo), 0, 2
    {
      Unfold(l, todo, Some(p), i);
      ghost var before := l;
      FinalizeIds(todo[0], todo[1..], modules);
      assert Count(todo) == 1 + Count(todo[0].kids) + Count(todo[1..]);
      ghost var n, rest := MenuFinalize(i, todo[0], todo[1..], Some(p));
      SegElsewhere(before, l, before.list[p], done, Some(i), Some(p), Ids(todo));
      Finalized(p, i, done, n, rest);
      FinalizeSnoc(done, todo);
      RunConcat(old(syms), Events(todo[0], todo[1..], modules), EventsAll(rest, modules), modules);
      menu, done', todo' := l.next[i], done + [n], rest;
    }

    lemma Finalized(p: nat, i: nat, done: seq<Node>, n: Node, rest: seq<Node>)
      requires Between(p, done, Some(i), [n] + rest)
      ensures i < |l.entries| && Between(p, done + [n], l.next[i], rest)
      ensures Ids(done + [n]) + Ids(rest) == Ids(done) + Ids([n] + rest)
    {
      var now := [n] + rest;
      assert now[0] == n && now[1..] == rest;
      Skipped(l, p, i, done, now);
    }

    lemma FinalizeSnoc(done: seq<Node>, todo: seq<Node>)
      requires todo != []
      ensures var r := Finalize(todo[0], todo[1..], modules);
              done + FinalizeAll(todo, modules)
                        == (done + [r.0]) + FinalizeAll(r.1, modules) && Count(r.1) < Count(todo)
    {
      var r := Finalize(todo[0], todo[1..], modules);
      assert FinalizeAll(todo, modules) == [r.0] + FinalizeAll(r.1, modules);
      Reassociate(done, [r.0], FinalizeAll(r.1, modules));
    }

    /** The loop that collects a submenu: ms has been collected for p, todo starts at menu. */
    ghost predicate Collecting(p: nat, ms: seq<Node>, menu: Link, todo: seq<Node>, par: Link)
      reads this`l
    {
      && Sized(l) && p < |l.entries|
      && Seg(l, l.next[p], ms, menu, Some(p)) && Seg(l, menu, todo, None, par)
      && Separate(p, ms, todo)
    }

    /** The case of a symbol without children. */
    method FinalizeSubmenu(p: nat, ghost n: Node, ghost rest: seq<Node>, ghost par: Link)
      requires Sized(l) && n.kids == [] && n.e.sym.Some?
      requires Seg(l, Some(p), [n] + rest, None, par) && Distinct([n] + rest)
      modifies this
      ensures Sized(l) && OnlyOn(old(l), l, Ids([n] + rest))
      ensures Seg(l, Some(p), [Finalize(n, rest, modules).0] + Finalize(n, rest, modules).1, None, par)
      ensures syms == Run(old(syms), Events(n, rest, modules), modules)
      decreases 1 + Count(n.kids) + Count(rest), 0, 0
    {
      Unfold(l, [n] + rest, par, p);
      assert ([n] + rest)[1..] == rest;
      ghost var l0 := l;
      AbsorbIds(n.e, rest, modules);
      ghost var ms, todo := Absorb(n.e, rest, modules).0, Absorb(n.e, rest, modules).1;
      CollectSubmenu(p, rest, par);
      syms := Direct(syms, l.entries[p]);
      Directs(old(syms), AbsorbEvents(n.e, rest, modules), n.e);
      ghost var l1 := l;
      FlattenList(p, ms);
      OnlyOnTrans(l0, l1, l, Ids([n] + rest), Ids(ms));
      Refold(l1, l, Node(n.e, Flatten(ms)), todo, par, Ids(ms));
    }

    lemma Directs(y: Symbols, es: seq<Event>, e: Entry)
      ensures Run(y, es + [Directed(e)], modules) == Direct(Run(y, es, modules), e)
    {
      RunConcat(y, es, [Directed(e)], modules);
      assert [Directed(e)][1..] == [];
    }

    /** Collecting the submenu of p and hanging it below p. */
    method CollectSubmenu(p: nat, ghost rest: seq<Node>, ghost par: Link)
      requires Sized(l) && p < |l.entries| && Collecting(p, [], l.next[p], rest, par)
      requires l.entries[p].sym.Some? && l.list[p] == None
      modifies this
      ensures Sized(l) && OnlyOn(old(l), l, {p} + Ids(rest))
      ensures l.entries[p] == old(l).entries[p] && l.parent[p] == old(l).parent[p]
      ensures var r := Absorb(old(l).entries[p], rest, modules);
              Seg(l, l.list[p], r.0, None, Some(p)) && Seg(l, l.next[p], r.1, None, par)
      ensures syms == Run(old(syms), AbsorbEvents(old(l).entries[p], rest, modules), modules)
      decreases Count(rest), 2, 0
    {
      ghost var l0 := l;
      var last, ms, todo, menu := Collect(p, rest, par);
      ghost var l1 := l;
      if last.Some? {
        HangBelow(p, last.value, ms, todo, menu, par);
      }
      OnlyOnTrans(l0, l1, l, {p} + Ids(rest), {p} + Ids(ms));
    }

    /** menu is the first node of todo, or NULL. */
    ghost predicate AtHead(menu: Link, todo: seq<Node>)
      requires Sized(l)
      reads this`l
    {
      match menu
      case None => todo == []
      case Some(i) => todo != [] && i < |l.entries| && l.entries[i] == todo[0].e
    }

    /** The loop over the items that follow p; last is the last one collected. */
    method Collect(p: nat, ghost rest: seq<Node>, ghost par: Link)
      returns (last: Link, ghost ms: seq<Node>, ghost todo: seq<Node>, ghost end: Link)
      requires Sized(l) && p < |l.entries| && Collecting(p, [], l.next[p], rest, par) && l.entries[p].sym.Some?
      modifies this
      ensures Collecting(p, ms, end, todo, par) && OnlyOn(old(l), l, Ids(rest)) && Ids(ms) <= Ids(rest)
      ensures ms == Absorb(old(l).entries[p], rest, modules).0 && todo == Absorb(old(l).entries[p], rest, modules).1
      ensures last == if ms == [] then None else Some(ms[|ms| - 1].e.id)
      ensures syms == Run(old(syms), AbsorbEvents(old(l).entries[p], rest, modules), modules)
      decreases Count(rest), 1, 0
    {
      var e := l.entries[p];
      var menu: Link := l.next[p];
      last, ms, todo := None, [], rest;
      SegEnd(l, menu, todo, par);
      while menu.Some? && Absorbs(e, l.entries[menu.value])
        invariant Progress(p, e, rest, ms, menu, todo, par, last)
        invariant Run(syms, AbsorbEvents(e, todo, modules), modules)
                  == Run(old(syms), AbsorbEvents(e, rest, modules), modules)
        invariant OnlyOn(old(l), l, Ids(rest))
        decreases Count(todo)
      {
        ghost var before := l;
        last := menu;
        menu, ms, todo := CollectStep(p, e, menu.value, rest, ms, todo, par);
        OnlyOnTrans(old(l), before, l, Ids(rest), Ids(rest));
      }
      end := menu;
      AbsorbDone(e, rest, ms, todo);
    }

    /** The invariant of the loop. */
    ghost predicate Progress(p: nat, e: Entry, rest: seq<Node>, ms: seq<Node>, menu: Link, todo: seq<Node>, par: Link,
                             last: Link)
      requires e.sym.Some?
      reads this`l
    {
      && Collecting(p, ms, menu, todo, par) && AtHead(menu, todo) && Count(todo) <= Count(rest)
      && AbsorbedSoFar(e, rest, ms, todo) && Ids(ms) + Ids(todo) == Ids(rest)
      && last == if ms == [] then None else Some(ms[|ms| - 1].e.id)
    }

    method CollectStep(p: nat, e: Entry, i: nat, ghost rest: seq<Node>, ghost ms: seq<Node>, ghost todo: seq<Node>,
                       ghost par: Link)
      returns (menu: Link, ghost ms': seq<Node>, ghost todo': seq<Node>)
      requires e.sym.Some? && exists last :: Progress(p, e, rest, ms, Some(i), todo, par, last)
      requires i < |l.entries| && Absorbs(e, l.entries[i])
      modifies this
      ensures Progress(p, e, rest, ms', menu, todo', par, Some(i)) && Count(todo') < Count(todo)
      ensures Sized(old(l)) && OnlyOn(old(l), l, Ids(rest))
      ensures Run(syms, AbsorbEvents(e, todo', modules), modules)
                == Run(old(syms), AbsorbEvents(e, todo, modules), modules)
      decreases Count(rest), 0, 4
    {
      AbsorbSnoc(e, rest, ms, todo);
      menu, ms', todo' := CollectOne(p, i, ms, todo, par);
      RunConcat(old(syms), Events(todo[0], todo[1..], modules), AbsorbEvents(e, todo', modules), modules);
      OnlyOnTrans(old(l), old(l), l, Ids(rest), Ids(todo));
    }

    lemma AbsorbDone(e: Entry, rest: seq<Node>, ms: seq<Node>, todo: seq<Node>)
      requires e.sym.Some? && AbsorbedSoFar(e, rest, ms, todo) && (todo == [] || !Absorbs(e, todo[0].e))
      ensures ms == Absorb(e, rest, modules).0 && todo == Absorb(e, rest, modules).1
    {
    }

    /** What is collected and what is left of todo make up the submenu. */
    ghost predicate AbsorbedSoFar(e: Entry, rest: seq<Node>, ms: seq<Node>, todo: seq<Node>)
      requires e.sym.Some?
    {
      && Absorb(e, rest, modules).0 == ms + Absorb(e, todo, modules).0
      && Absorb(e, rest, modules).1 == Absorb(e, todo, modules).1
    }

    lemma AbsorbSnoc(e: Entry, rest: seq<Node>, ms: seq<Node>, todo: seq<Node>)
      requires e.sym.Some? && todo != [] && Absorbs(e, todo[0].e) && AbsorbedSoFar(e, rest, ms, todo)
      ensures var r := Finalize(todo[0], todo[1..], modules); AbsorbedSoFar(e, rest, ms + [r.0], r.1)
    {
    }

    method CollectOne(p: nat, i: nat, ghost ms: seq<Node>, ghost todo: seq<Node>, ghost par: Link)
      returns (menu: Link, ghost ms': seq<Node>, ghost todo': seq<Node>)
      requires Collecting(p, ms, Some(i), todo, par)
      modifies this
      ensures todo != [] && var r := Finalize(todo[0], todo[1..], modules); ms' == ms + [r.0] && todo' == r.1
      ensures Collecting(p, ms', menu, todo', par) && Ids(ms') + Ids(todo') == Ids(ms) + Ids(todo)
      ensures OnlyOn(old(l), l, Ids(todo)) && Count(todo') < Count(todo) && ms'[|ms'| - 1].e.id == i
      ensures AtHead(menu, todo')
      ensures syms == Run(old(syms), Events(todo[0], todo[1..], modules), modules)
      decreases Count(todo), 0, 3
    {
      ghost var n, rest := FinalizeItem(p, i, ms, todo, par);
      SmallerLeft(todo, n, rest);
      ghost var mid := l;
      menu := Adopt(p, i, ms, n, rest, par);
      OnlyOnTrans(old(l), mid, l, Ids(todo), {i});
      ms', todo' := ms + [n], rest;
    }

    method FinalizeItem(p: nat, i: nat, ghost ms: seq<Node>, ghost todo: seq<Node>, ghost par: Link)
      returns (ghost n: Node, ghost rest: seq<Node>)
      requires Collecting(p, ms, Some(i), todo, par)
      modifies this
      ensures todo != [] && todo[0].e.id == i && (n, rest) == Finalize(todo[0], todo[1..], modules) && i in Ids(todo)
      ensures Sized(l) && p < |l.entries| && OnlyOn(old(l), l, Ids(todo)) && Ids([n] + rest) == Ids(todo)
      ensures Seg(l, l.next[p], ms, Some(i), Some(p))
      ensures Seg(l, Some(i), [n] + rest, None, par) && Separate(p, ms, [n] + rest)
      ensures syms == Run(old(syms), Events(todo[0], todo[1..], modules), modules)
      decreases Count(todo), 0, 2
    {
      Unfold(l, todo, par, i);
      ghost var before := l;
      FinalizeIds(todo[0], todo[1..], modules);
      n, rest := MenuFinalize(i, todo[0], todo[1..], par);
      SegElsewhere(before, l, before.next[p], ms, Some(i), Some(p), Ids(todo));
    }

    lemma SmallerLeft(todo: seq<Node>, n: Node, rest: seq<Node>)
      requires todo != [] && (n, rest) == Finalize(todo[0], todo[1..], modules)
      ensures Count(rest) < Count(todo)
    {
      assert Count(todo) == 1 + Count(todo[0].kids) + Count(todo[1..]);
    }

    /** The finalized item n, with i as its index, becomes one of those collected for p. */
    method Adopt(p: nat, i: nat, ghost ms: seq<Node>, ghost n: Node, ghost rest: seq<Node>, ghost par: Link)
      returns (menu: Link)
      requires Sized(l) && p < |l.entries| && Seg(l, l.next[p], ms, Some(i), Some(p))
      requires Seg(l, Some(i), [n] + rest, None, par) && Separate(p, ms, [n] + rest)
      modifies this`l
      ensures n.e.id == i && Collecting(p, ms + [n], menu, rest, par) && OnlyOn(old(l), l, {i})
      ensures Ids(ms + [n]) + Ids(rest) == Ids(ms) + Ids([n] + rest)
      ensures AtHead(menu, rest)
    {
      Collected(p, i, ms, n, rest, par);
      ghost var mid := l;
      l := l.(parent := l.parent[i := Some(p)]);
      Advance(mid, l, l.next[p], ms, n, rest, Some(p), par);
      menu := l.next[i];
      SegEnd(l, menu, rest, par);
    }

    lemma Collected(p: nat, i: nat, ms: seq<Node>, n: Node, rest: seq<Node>, par: Link)
      requires Sized(l) && p < |l.entries| && Seg(l, Some(i), [n] + rest, None, par) && Separate(p, ms, [n] + rest)
      ensures n.e.id == i && i < |l.entries| && l.entries[i] == n.e
      ensures Seg(l, l.list[i], n.kids, None, Some(i)) && Seg(l, l.next[i], rest, None, par)
      ensures i !in Ids(ms) && i !in Ids(n.kids) && i !in Ids(rest) && Separate(p, ms + [n], rest)
      ensures Ids(ms + [n]) + Ids(rest) == Ids(ms) + Ids([n] + rest)
    {
      var now := [n] + rest;
      assert now[0] == n && now[1..] == rest;
      Unfold(l, now, par, i);
      IdsConcat(ms, [n]);
      IdsSingle(n);
    }

    /** The three assignments that turn the collected run ms, which ends with last, into the children of p. */
    method HangBelow(p: nat, last: nat, ghost ms: seq<Node>, ghost todo: seq<Node>, ghost menu: Link, ghost par: Link)
      requires ms != [] && last == ms[|ms| - 1].e.id && Collecting(p, ms, menu, todo, par)
      modifies this`l
      ensures Sized(l) && OnlyOn(old(l), l, {p} + Ids(ms))
      ensures l.entries[p] == old(l).entries[p] && l.parent[p] == old(l).parent[p]
      ensures Seg(l, l.list[p], ms, None, Some(p)) && Seg(l, l.next[p], todo, None, par)
    {
      ghost var l0, a, m := l, ms[..|ms| - 1], ms[|ms| - 1];
      assert a + [m] == ms;
      SegRetail(l, l.next[p], a, m, menu, Some(p), None);
      IdsConcat(a, [m]);
      IdsSingle(m);
      l := l.(list := l.list[p := l.next[p]]);
      l := l.(next := l.next[p := l.next[last]]);
      l := l.(next := l.next[last := None]);
      Hung(l0, l, p, last, ms, todo, menu, par);
    }

    lemma Hung(a: Links, b: Links, p: nat, last: nat, ms: seq<Node>, todo: seq<Node>, menu: Link, par: Link)
      requires Sized(a) && p < |a.entries| && last < |a.entries| && p != last && a.next[last] == menu && last in Ids(ms)
      requires b == a.(list := a.list[p := a.next[p]], next := a.next[p := menu][last := None])
      requires Seg(a.(next := a.next[last := None]), a.next[p], ms, None, Some(p))
      requires Seg(a, menu, todo, None, par) && Separate(p, ms, todo)
      ensures Sized(b) && OnlyOn(a, b, {p} + Ids(ms)) && b.entries[p] == a.entries[p] && b.parent[p] == a.parent[p]
      ensures Seg(b, b.list[p], ms, None, Some(p)) && Seg(b, b.next[p], todo, None, par)
    {
      SegBeside(a.(next := a.next[last := None]), b, a.next[p], ms, None, Some(p), p);
      SegElsewhere(a, b, menu, todo, None, par, {p, last});
    }
  }
}
