/** The menu tree as struct menu links it, by next, list and parent. */
module MenuLinks {
  import opened Exprs
  import opened Menus

  type Link = Option<nat>

  /** The linked representation: entry i is the node with id i. */
  datatype Links = Links(entries: seq<Entry>, next: seq<Link>, list: seq<Link>, parent: seq<Link>)

  predicate Sized(l: Links) {
    |l.entries| == |l.next| == |l.list| == |l.parent|
  }

  /** Starting at head, l links the forest fs under par; the node after its last one is tail. */
  predicate Seg(l: Links, head: Link, fs: seq<Node>, tail: Link, par: Link)
    requires Sized(l)
    decreases Count(fs)
  {
    if fs == [] then head == tail
    else
      var i := fs[0].e.id;
      && head == Some(i) && i < |l.entries| && l.entries[i] == fs[0].e && l.parent[i] == par
      && Seg(l, l.list[i], fs[0].kids, None, Some(i))
      && Seg(l, l.next[i], fs[1..], tail, par)
  }

  lemma SegEnd(l: Links, head: Link, fs: seq<Node>, par: Link)
    requires Sized(l) && Seg(l, head, fs, None, par)
    ensures head.None? <==> fs == []
    ensures fs != [] ==> head == Some(fs[0].e.id) && fs[0].e.id < |l.entries| && l.parent[fs[0].e.id] == par
  {
  }

  function Ids(fs: seq<Node>): set<nat>
    decreases Count(fs)
  {
    if fs == [] then {} else {fs[0].e.id} + Ids(fs[0].kids) + Ids(fs[1..])
  }

  /** No node occurs twice. */
  predicate Distinct(fs: seq<Node>)
    decreases Count(fs)
  {
    fs != [] ==>
      && fs[0].e.id !in Ids(fs[0].kids) && fs[0].e.id !in Ids(fs[1..]) && Ids(fs[0].kids) !! Ids(fs[1..])
      && Distinct(fs[0].kids) && Distinct(fs[1..])
  }

  lemma {:induction false} IdsConcat(a: seq<Node>, b: seq<Node>)
    ensures Ids(a + b) == Ids(a) + Ids(b)
    ensures Distinct(a + b) <==> Distinct(a) && Distinct(b) && Ids(a) !! Ids(b)
    decreases Count(a)
  {
    if a == [] {
      assert a + b == b;
    } else {
      assert (a + b)[1..] == a[1..] + b;
      IdsConcat(a[1..], b);
    }
  }

  lemma IdsSingle(n: Node)
    ensures Ids([n]) == {n.e.id} + Ids(n.kids)
    ensures Distinct([n]) <==> n.e.id !in Ids(n.kids) && Distinct(n.kids)
  {
    assert [n][1..] == [];
  }

  /** l' agrees with l on node x. */
  ghost predicate SameAt(l: Links, l': Links, x: nat)
    requires Sized(l) && Sized(l') && x < |l.entries| == |l'.entries|
  {
    && l'.entries[x] == l.entries[x] && l'.next[x] == l.next[x]
    && l'.list[x] == l.list[x] && l'.parent[x] == l.parent[x]
  }

  /** l' agrees with l on the nodes in m. */
  ghost predicate SameOn(l: Links, l': Links, m: set<nat>)
    requires Sized(l) && Sized(l')
  {
    && |l.entries| == |l'.entries|
    && forall x :: x in m && x < |l.entries| ==> SameAt(l, l', x)
  }

  /** Nothing but the nodes in m has changed. */
  ghost predicate OnlyOn(l: Links, l': Links, m: set<nat>)
    requires Sized(l) && Sized(l')
  {
    && |l.entries| == |l'.entries|
    && forall x :: 0 <= x < |l.entries| && x !in m ==> SameAt(l, l', x)
  }

  lemma {:induction false} SegFrame(l: Links, l': Links, head: Link, fs: seq<Node>, tail: Link, par: Link)
    requires Sized(l) && Sized(l') && Seg(l, head, fs, tail, par) && SameOn(l, l', Ids(fs))
    ensures Seg(l', head, fs, tail, par)
    decreases Count(fs)
  {
    if fs != [] {
      var i := fs[0].e.id;
      assert i in Ids(fs);
      assert Ids(fs[0].kids) <= Ids(fs) && Ids(fs[1..]) <= Ids(fs);
      SegFrame(l, l', l.list[i], fs[0].kids, None, Some(i));
      SegFrame(l, l', l.next[i], fs[1..], tail, par);
    }
  }

  /** A change elsewhere leaves a segment as it is. */
  lemma SegElsewhere(l: Links, l': Links, head: Link, fs: seq<Node>, tail: Link, par: Link, m: set<nat>)
    requires Sized(l) && Sized(l') && Seg(l, head, fs, tail, par) && OnlyOn(l, l', m)
    requires forall x :: x in Ids(fs) ==> x !in m
    ensures Seg(l', head, fs, tail, par)
  {
    SegFrame(l, l', head, fs, tail, par);
  }

  /** The special case of a change of one node. */
  lemma SegBeside(l: Links, l': Links, head: Link, fs: seq<Node>, tail: Link, par: Link, i: nat)
    requires Sized(l) && Sized(l') && Seg(l, head, fs, tail, par) && OnlyOn(l, l', {i}) && i !in Ids(fs)
    ensures Seg(l', head, fs, tail, par)
  {
    SegFrame(l, l', head, fs, tail, par);
  }

  lemma {:induction false} SegConcat(l: Links, head: Link, a: seq<Node>, mid: Link, b: seq<Node>, tail: Link, par: Link)
    requires Sized(l) && Seg(l, head, a, mid, par) && Seg(l, mid, b, tail, par)
    ensures Seg(l, head, a + b, tail, par)
    decreases Count(a)
  {
    if a == [] {
      assert a + b == b;
    } else {
      assert (a + b)[1..] == a[1..] + b;
      SegConcat(l, l.next[a[0].e.id], a[1..], mid, b, tail, par);
    }
  }

  lemma SegSingle(l: Links, head: Link, n: Node, tail: Link, par: Link)
    requires Sized(l)
    ensures Seg(l, head, [n], tail, par) <==>
              (var i := n.e.id;
               && head == Some(i) && i < |l.entries| && l.entries[i] == n.e && l.parent[i] == par
               && Seg(l, l.list[i], n.kids, None, Some(i)) && l.next[i] == tail)
  {
    assert [n][1..] == [];
  }

  lemma {:induction false} SegSplit(l: Links, head: Link, a: seq<Node>, b: seq<Node>, tail: Link, par: Link)
    returns (mid: Link)
    requires Sized(l) && Seg(l, head, a + b, tail, par)
    ensures Seg(l, head, a, mid, par) && Seg(l, mid, b, tail, par)
    decreases Count(a)
  {
    if a == [] {
      assert a + b == b;
      mid := head;
    } else {
      assert (a + b)[1..] == a[1..] + b;
      mid := SegSplit(l, l.next[a[0].e.id], a[1..], b, tail, par);
    }
  }

  /** Redirecting the link after the last node of a segment. */
  lemma SegRetail(l: Links, head: Link, a: seq<Node>, n: Node, tail: Link, par: Link, tail': Link)
    requires Sized(l) && Seg(l, head, a + [n], tail, par) && Distinct(a + [n])
    ensures n.e.id < |l.entries| && l.next[n.e.id] == tail
    ensures Seg(l.(next := l.next[n.e.id := tail']), head, a + [n], tail', par)
  {
    var i := n.e.id;
    var mid := SegSplit(l, head, a, [n], tail, par);
    SegSingle(l, mid, n, tail, par);
    IdsConcat(a, [n]);
    IdsSingle(n);
    var l' := l.(next := l.next[i := tail']);
    SegBeside(l, l', head, a, mid, par, i);
    SegBeside(l, l', l.list[i], n.kids, None, Some(i), i);
    SegSingle(l', mid, n, tail', par);
    SegConcat(l', head, a, mid, [n], tail', par);
  }

  // ------------------------------------------- menu_finalize moves nodes, only

  lemma {:induction false} HandDownIds(d: Option<Expr>, fs: seq<Node>, modules: Symbol)
    ensures Ids(HandDownAll(d, fs, modules)) == Ids(fs)
    ensures Distinct(HandDownAll(d, fs, modules)) <==> Distinct(fs)
  {
    if fs != [] {
      HandDownIds(d, fs[1..], modules);
      assert HandDownAll(d, fs, modules)[1..] == HandDownAll(d, fs[1..], modules);
    }
  }

  lemma {:induction false} FlattenIds(fs: seq<Node>)
    requires Distinct(fs)
    ensures Ids(Flatten(fs)) == Ids(fs) && Distinct(Flatten(fs))
    decreases Count(fs)
  {
    if fs != [] {
      if fs[0].kids != [] && !HasText(fs[0].e) {
        CountConcat(fs[0].kids, fs[1..]);
        IdsConcat(fs[0].kids, fs[1..]);
        FlattenIds(fs[0].kids + fs[1..]);
        assert Flatten(fs)[1..] == Flatten(fs[0].kids + fs[1..]);
      } else {
        FlattenIds(fs[1..]);
        assert Flatten(fs)[1..] == Flatten(fs[1..]);
      }
    }
  }

  lemma {:induction false} FinalizeIds(n: Node, rest: seq<Node>, modules: Symbol)
    requires Distinct([n] + rest)
    ensures var (n', rest') := Finalize(n, rest, modules);
            Ids([n'] + rest') == Ids([n] + rest) && Distinct([n'] + rest')
    decreases 1 + Count(n.kids) + Count(rest), 0
  {
    var (n', rest') := Finalize(n, rest, modules);
    assert ([n] + rest)[1..] == rest && ([n'] + rest')[1..] == rest';
    if n.kids != [] {
      var kids := HandDownAll(ParentDep(n.e), n.kids, modules);
      HandDownIds(ParentDep(n.e), n.kids, modules);
      FinalizeAllIds(kids, modules);
      FlattenIds(FinalizeAll(kids, modules));
    } else if n.e.sym.Some? {
      AbsorbIds(n.e, rest, modules);
      FlattenIds(Absorb(n.e, rest, modules).0);
    }
  }

  lemma {:induction false} FinalizeAllIds(fs: seq<Node>, modules: Symbol)
    requires Distinct(fs)
    ensures Ids(FinalizeAll(fs, modules)) == Ids(fs) && Distinct(FinalizeAll(fs, modules))
    decreases Count(fs), 1
  {
    if fs != [] {
      var (n, rest) := Finalize(fs[0], fs[1..], modules);
      assert [fs[0]] + fs[1..] == fs;
      FinalizeIds(fs[0], fs[1..], modules);
      assert ([n] + rest)[1..] == rest;
      FinalizeAllIds(rest, modules);
      assert FinalizeAll(fs, modules)[1..] == FinalizeAll(rest, modules);
    }
  }

  lemma IdsFirst(n: Node, rest: seq<Node>)
    ensures Ids([n] + rest) == {n.e.id} + Ids(n.kids) + Ids(rest)
    ensures Distinct([n] + rest) <==> (n.e.id !in Ids(n.kids) && n.e.id !in Ids(rest) && Ids(n.kids) !! Ids(rest)
                                       && Distinct(n.kids) && Distinct(rest))
  {
    assert ([n] + rest)[1..] == rest;
  }

  lemma AbsorbedIds(m: Node, rest: seq<Node>, ms: seq<Node>, rest': seq<Node>)
    requires Distinct([m] + rest)
    requires Ids(ms) + Ids(rest') == Ids(rest) && Distinct(ms) && Distinct(rest') && Ids(ms) !! Ids(rest')
    ensures Ids([m] + ms) + Ids(rest') == Ids([m] + rest) && Distinct([m] + ms) && Ids([m] + ms) !! Ids(rest')
  {
    IdsFirst(m, rest);
    IdsFirst(m, ms);
  }

  lemma {:induction false} AbsorbIds(p: Entry, rest: seq<Node>, modules: Symbol)
    requires p.sym.Some? && Distinct(rest)
    ensures var (ms, rest') := Absorb(p, rest, modules);
            Ids(ms) + Ids(rest') == Ids(rest) && Distinct(ms) && Distinct(rest') && Ids(ms) !! Ids(rest')
    decreases Count(rest), 1
  {
    if rest != [] && Absorbs(p, rest[0].e) {
      var (m, rest1) := Finalize(rest[0], rest[1..], modules);
      assert [rest[0]] + rest[1..] == rest;
      FinalizeIds(rest[0], rest[1..], modules);
      IdsFirst(m, rest1);
      AbsorbIds(p, rest1, modules);
      var (ms, rest2) := Absorb(p, rest1, modules);
      AbsorbedIds(m, rest1, ms, rest2);
    }
  }
}
