/** The walk over all menu nodes in conf_write and conf_write_defconfig of confdata.c. */
module MenuWalks {
  import opened Exprs
  import opened Menus
  import opened MenuLinks

  /** Where a walk is: below node id, which is followed by after, and so on outwards to the root. */
  datatype Context = Top | Below(id: nat, after: seq<Node>, outer: Context)

  function Here(c: Context, root: nat): nat {
    if c.Top? then root else c.id
  }

  predicate InContext(l: Links, root: nat, c: Context)
    requires Sized(l)
    decreases c
  {
    match c
    case Top => root < |l.entries| && l.parent[root] == None && l.next[root] == None
    case Below(i, after, outer) =>
      && i < |l.entries| && l.parent[i] == Some(Here(outer, root))
      && Seg(l, l.next[i], after, None, Some(Here(outer, root)))
      && InContext(l, root, outer)
  }

  /** What comes after the current list. */
  function Ahead(c: Context): seq<Entry> {
    match c
    case Top => []
    case Below(_, after, outer) => Preorder(after) + Ahead(outer)
  }

  function Depth(c: Context): nat {
    if c.Top? then 0 else 1 + Depth(c.outer)
  }

  /** The nodes still to be visited, menu being the first of fs. */
  function Remaining(fs: seq<Node>, c: Context): seq<Entry> {
    Preorder(fs) + Ahead(c)
  }

  /** menu is where the walk is, or NULL at its end. */
  ghost predicate At(l: Links, root: nat, menu: Link, fs: seq<Node>, c: Context) {
    && Sized(l) && InContext(l, root, c) && Seg(l, menu, fs, None, Some(Here(c, root)))
    && (menu.Some? <==> fs != []) && (menu.None? ==> c.Top?)
  }

  /** The loop, without a stack: it visits the descendants of the root, each once, in preorder. */
  method Walk(l: Links, root: nat, ghost kids: seq<Node>) returns (visited: seq<Entry>)
    requires Sized(l) && root < |l.entries| && l.parent[root] == None && l.next[root] == None
    requires Seg(l, l.list[root], kids, None, Some(root))
    ensures visited == Preorder(kids)
  {
    visited := [];
    SegEnd(l, l.list[root], kids, Some(root));
    var menu: Link := l.list[root];
    ghost var fs, c := kids, Top;
    while menu.Some?
      invariant At(l, root, menu, fs, c)
      invariant Preorder(kids) == visited + Remaining(fs, c)
      decreases |Remaining(fs, c)|
    {
      var m := menu.value;
      menu, fs, c := Next(l, root, m, fs, c);
      Reassociate(visited, [l.entries[m]], Remaining(fs, c));
      visited := visited + [l.entries[m]];
    }
  }

  /** The body of the loop after a visit of m. */
  method Next(l: Links, root: nat, m: nat, ghost fs: seq<Node>, ghost c: Context)
    returns (menu: Link, ghost fs': seq<Node>, ghost c': Context)
    requires At(l, root, Some(m), fs, c)
    ensures At(l, root, menu, fs', c')
    ensures m < |l.entries| && [l.entries[m]] + Remaining(fs', c') == Remaining(fs, c)
  {
    AtHead(l, root, m, fs, c);
    if l.list[m].Some? {
      Down(l, root, m, fs, c);
      menu, fs', c' := l.list[m], fs[0].kids, Below(m, fs[1..], c);
    } else if l.next[m].Some? {
      menu, fs', c' := l.next[m], fs[1..], c;
    } else {
      menu, fs', c' := Climb(l, root, m, c);
    }
  }

  /** At m: its entry, its children and its successors. */
  lemma AtHead(l: Links, root: nat, m: nat, fs: seq<Node>, c: Context)
    requires At(l, root, Some(m), fs, c)
    ensures fs != [] && m < |l.entries| && fs[0].e == l.entries[m] && l.parent[m] == Some(Here(c, root))
    ensures Seg(l, l.list[m], fs[0].kids, None, Some(m)) && Seg(l, l.next[m], fs[1..], None, Some(Here(c, root)))
    ensures l.list[m].Some? <==> fs[0].kids != []
    ensures l.next[m].Some? <==> fs[1..] != []
    ensures Remaining(fs, c) == [fs[0].e] + (Preorder(fs[0].kids) + (Preorder(fs[1..]) + Ahead(c)))
    ensures fs[0].kids == [] ==> Remaining(fs, c) == [fs[0].e] + (Preorder(fs[1..]) + Ahead(c))
    ensures fs[0].kids == [] && fs[1..] == [] ==> Remaining(fs, c) == [fs[0].e] + Ahead(c)
  {
    UnfoldRemaining(fs, c);
    SegEnd(l, l.list[m], fs[0].kids, Some(m));
    SegEnd(l, l.next[m], fs[1..], Some(Here(c, root)));
    assert [] + (Preorder(fs[1..]) + Ahead(c)) == Preorder(fs[1..]) + Ahead(c);
    assert [] + Ahead(c) == Ahead(c);
  }

  lemma Down(l: Links, root: nat, m: nat, fs: seq<Node>, c: Context)
    requires At(l, root, Some(m), fs, c) && fs != [] && m < |l.entries| && l.list[m].Some? && fs[0].kids != []
    requires l.parent[m] == Some(Here(c, root))
    requires Seg(l, l.list[m], fs[0].kids, None, Some(m)) && Seg(l, l.next[m], fs[1..], None, Some(Here(c, root)))
    ensures At(l, root, l.list[m], fs[0].kids, Below(m, fs[1..], c))
    ensures Remaining(fs[0].kids, Below(m, fs[1..], c)) == Preorder(fs[0].kids) + (Preorder(fs[1..]) + Ahead(c))
  {
  }

  lemma UnfoldRemaining(fs: seq<Node>, c: Context)
    requires fs != []
    ensures Remaining(fs, c) == [fs[0].e] + (Preorder(fs[0].kids) + (Preorder(fs[1..]) + Ahead(c)))
  {
  }

  /** From a node m without children or successor, up to the next node, if there is one. */
  method Climb(l: Links, root: nat, m: nat, ghost c0: Context)
    returns (menu: Link, ghost fs: seq<Node>, ghost c: Context)
    requires Sized(l) && m < |l.entries| && l.parent[m] == Some(Here(c0, root)) && InContext(l, root, c0)
    ensures InContext(l, root, c) && Seg(l, menu, fs, None, Some(Here(c, root)))
    ensures menu.Some? <==> fs != []
    ensures menu.None? ==> c.Top?
    ensures Preorder(fs) + Ahead(c) == Ahead(c0)
  {
    menu, fs, c := l.parent[m], [], c0;
    while menu.Some?
      invariant InContext(l, root, c) && Ahead(c) == Ahead(c0)
      invariant menu == Some(Here(c, root)) || (menu.None? && c.Top?)
      decreases menu.Some?, Depth(c)
    {
      if l.next[menu.value].Some? {
        menu := l.next[menu.value];
        fs, c := c.after, c.outer;
        return;
      }
      menu := l.parent[menu.value];
      if c.Below? { c := c.outer; }
    }
  }
}
