/**
  conf_write_defconfig of confdata.c: the walk over the menu tree, the evaluator and the printer together.
 */
module Defconfigs {
  import opened Tristates
  import opened Exprs
  import opened Configs
  import opened Settings
  import opened Engines
  import opened ConfFiles
  import opened Menus
  import opened MenuLinks
  import opened MenuWalks

  /** The symbols of menu nodes, in order; choices are not written. */
  function SymbolIds(es: seq<Entry>): seq<nat> {
    if es == [] then [] else SymbolId(es[0]) + SymbolIds(es[1..])
  }

  function SymbolId(e: Entry): seq<nat> {
    if e.sym.Some? && !e.isChoice then [e.sym.value.id] else []
  }

  predicate EntryInTable(t: Table, e: Entry) {
    e.sym.Some? ==> e.sym.value.id < |t.decls|
  }

  ghost predicate InTable(t: Table, es: seq<Entry>) {
    forall k :: 0 <= k < |es| ==> EntryInTable(t, es[k])
  }

  lemma {:induction false} IdsInTable(t: Table, es: seq<Entry>)
    requires InTable(t, es)
    ensures forall k :: 0 <= k < |SymbolIds(es)| ==> SymbolIds(es)[k] < |t.decls|
  {
    if es != [] {
      assert EntryInTable(t, es[0]);
      forall k | 0 <= k < |es[1..]| ensures EntryInTable(t, es[1..][k]) {
        assert es[1..][k] == es[k + 1];
      }
      IdsInTable(t, es[1..]);
    }
  }

  /** The text for the nodes ahead. */
  ghost function TextAhead(n: Names, t: Table, s: seq<Result>, es: seq<Entry>, done: set<nat>): string
    requires |s| == |t.decls| == |n.types| && InTable(t, es)
  {
    IdsInTable(t, es);
    PrintAll(n, DefconfigLines(t, s, SymbolIds(es), done))
  }

  /** What a visit of a node adds to the file. */
  function Visit(n: Names, t: Table, s: seq<Result>, e: Entry, done: set<nat>): string
    requires |s| == |t.decls| == |n.types| && EntryInTable(t, e)
  {
    if e.sym.None? || e.isChoice || e.sym.value.id in done then ""
    else PrintAll(n, DefconfigLine(t, s, e.sym.value.id))
  }

  lemma TextStep(n: Names, t: Table, s: seq<Result>, e: Entry, es: seq<Entry>, done: set<nat>)
    requires |s| == |t.decls| == |n.types| && InTable(t, [e] + es)
    ensures EntryInTable(t, e) && InTable(t, es)
    ensures TextAhead(n, t, s, [e] + es, done)
              == Visit(n, t, s, e, done) + TextAhead(n, t, s, es, done + set i | i in SymbolId(e))
  {
    var all, next := [e] + es, done + set i | i in SymbolId(e);
    assert all[0] == e && all[1..] == es;
    assert EntryInTable(t, all[0]);
    forall k | 0 <= k < |es| ensures EntryInTable(t, es[k]) {
      assert all[k + 1] == es[k];
    }
    IdsInTable(t, es);
    if SymbolId(e) == [] {
      assert SymbolIds(all) == SymbolIds(es);
      assert next == done;
    } else {
      var j := e.sym.value.id;
      assert SymbolIds(all)[1..] == SymbolIds(es);
      assert next == done + {j};
      assert SymbolIds(all)[0] == j;
      if j in done {
        assert done + {j} == done;
        assert DefconfigLines(t, s, SymbolIds(all), done) == DefconfigLines(t, s, SymbolIds(all)[1..], done);
      } else {
        PrintConcat(n, DefconfigLine(t, s, j), DefconfigLines(t, s, SymbolIds(es), done + {j}));
      }
    }
  }

  lemma PrintConcat(n: Names, a: seq<Line>, b: seq<Line>)
    requires |a| <= 1
    requires (forall k :: 0 <= k < |a| ==> a[k].i < |n.types|) && forall k :: 0 <= k < |b| ==> b[k].i < |n.types|
    ensures PrintAll(n, a + b) == PrintAll(n, a) + PrintAll(n, b)
  {
    if a == [] {
      assert a + b == b;
    } else {
      assert (a + b)[1..] == b && a[1..] == [];
    }
  }

  /** sym_get_string_default of a symbol that has been evaluated. */
  method GetStringDefault(e: Engine, i: nat) returns (str: string)
    requires e.Ready() && i < |e.t.decls| && e.valid[i] && IsTyped(e.t.decls[i].ty)
    modifies e
    ensures e.Ready() && e.user == old(e.user) && e.goal == old(e.goal)
    ensures str == StringDefault(e.t, e.t.decls[i], e.Meaning(), e.goal)
  {
    var d := e.t.decls[i];
    AcyclicBelow(e.t, e.rank, i);
    TypedSolved(e.t, e.user, e.goal, i);
    e.CalcVisibility(i);
    if IsLogicalType(d.ty) {
      str := LogicalDefault(e, i);
    } else {
      str := TextDefault(e, i);
    }
  }

  method LogicalDefault(e: Engine, i: nat) returns (str: string)
    requires e.Ready() && i < |e.t.decls| && e.valid[i] && IsLogicalType(e.t.decls[i].ty) && DeclBelow(e.t, e.rank, i)
    modifies e
    ensures e.Ready() && e.user == old(e.user) && e.goal == old(e.goal)
    ensures str == StringDefault(e.t, e.t.decls[i], e.Meaning(), e.goal)
  {
    var d := e.t.decls[i];
    TypedSolved(e.t, e.user, e.goal, i);
    var p, c := e.GetDefaultProp(d.props, e.rank[i]);
    var val := No;
    if p.Some? {
      assert PropBelow(e.t, p.value, e.rank, e.rank[i]);
      var x := e.ExprCalcValue(p.value.value, e.rank[i]);
      val := And(x, c);
    }
    val := Or(val, e.state[i].revDep);
    if val == Mod && (e.t.modules == No || d.ty == Boolean) {
      val := Yes;
    }
    if Level(val) < Level(e.state[i].implied) {
      val := e.state[i].implied;
    }
    str := TristateText(val);
  }

  method TextDefault(e: Engine, i: nat) returns (str: string)
    requires e.Ready() && i < |e.t.decls| && !IsLogicalType(e.t.decls[i].ty) && DeclBelow(e.t, e.rank, i)
    modifies e
    ensures e.Ready() && e.user == old(e.user) && e.goal == old(e.goal)
    ensures str == StringDefault(e.t, e.t.decls[i], e.Meaning(), e.goal)
  {
    var p, _ := e.GetDefaultProp(e.t.decls[i].props, e.rank[i]);
    str := "";
    if p.Some? && p.value.value.Atom? {
      assert PropBelow(e.t, p.value, e.rank, e.rank[i]);
      e.CalcValue(p.value.value.sym.id);
      str := e.state[p.value.value.sym.id].curr.text;
    }
  }

  /** What conf_write_symbol prints, sym_get_string_value, is the text of the value that reading the line gives. */
  lemma SavedText(t: Table, user: User, s: seq<Result>, i: nat)
    requires WellFormed(t) && Solution(t, user, s) && i < |s| && IsTyped(t.decls[i].ty)
    ensures StringValue(t, t.decls[i].ty, s[i].curr) == ValueText(t.decls[i].ty, SavedValue(t, s[i], i))
  {
    TypedSolved(t, user, s, i);
  }

  /** A visit in conf_write_defconfig: the symbol is evaluated, tested and printed. */
  method VisitSymbol(e: Engine, n: Names, i: nat) returns (out: string)
    requires e.Ready() && NamesOf(n, e.t) && i < |e.t.decls|
    modifies e
    ensures e.Ready() && e.user == old(e.user) && e.goal == old(e.goal)
    ensures out == PrintAll(n, DefconfigLine(e.t, e.goal, i))
  {
    out := "";
    var r := e.GetValue(i);
    var d := e.t.decls[i];
    if !IsTyped(d.ty) || !r.write || Level(r.visible) <= Level(r.revDep) {
      return;
    }
    var str := GetStringDefault(e, i);
    if StringValue(e.t, d.ty, r.curr) == str {
      return;
    }
    SavedText(e.t, e.user, e.goal, i);
    out := PrintSymbol(n.prefix, d.name, d.ty, StringValue(e.t, d.ty, r.curr));
  }

  /** A visit of a menu node; done stands for the SYMBOL_WRITE flags cleared. */
  method VisitNode(e: Engine, n: Names, x: Entry, done: set<nat>) returns (out: string, done': set<nat>)
    requires e.Ready() && NamesOf(n, e.t) && EntryInTable(e.t, x)
    modifies e
    ensures e.Ready() && e.user == old(e.user) && e.goal == old(e.goal)
    ensures out == Visit(n, e.t, e.goal, x, done) && done' == done + set i | i in SymbolId(x)
  {
    out := "";
    if x.sym.Some? && !x.isChoice && x.sym.value.id !in done {
      out := VisitSymbol(e, n, x.sym.value.id);
    }
    done' := done + set i | i in SymbolId(x);
  }

  lemma StartOfWalk(kids: seq<Node>)
    ensures Remaining(kids, Top) == Preorder(kids)
  {
  }

  /** What is written and what is still ahead make up the file. */
  ghost predicate Writing(n: Names, t: Table, s: seq<Result>, file: string, out: string, es: seq<Entry>,
                          done: set<nat>) {
    |s| == |t.decls| == |n.types| && InTable(t, es) && file == out + TextAhead(n, t, s, es, done)
  }

  lemma WritingStep(n: Names, t: Table, s: seq<Result>, file: string, out: string, e: Entry, es: seq<Entry>,
                    done: set<nat>)
    requires Writing(n, t, s, file, out, [e] + es, done)
    ensures EntryInTable(t, e)
    ensures Writing(n, t, s, file, out + Visit(n, t, s, e, done), es, done + set i | i in SymbolId(e))
  {
    TextStep(n, t, s, e, es, done);
  }

  /**
    conf_write_defconfig. What it writes is given by the values of the one solution and the preorder of
    the tree, whatever has been cached before and on the way.
   */
  method WriteDefconfig(e: Engine, n: Names, l: Links, root: nat, ghost kids: seq<Node>) returns (out: string)
    requires e.Ready() && NamesOf(n, e.t)
    requires Sized(l) && root < |l.entries| && l.parent[root] == None && l.next[root] == None
    requires Seg(l, l.list[root], kids, None, Some(root)) && InTable(e.t, Preorder(kids))
    modifies e
    ensures e.Ready() && e.user == old(e.user) && e.goal == old(e.goal)
    ensures |e.goal| == |e.t.decls| == |n.types| && out == TextAhead(n, e.t, e.goal, Preorder(kids), {})
  {
    ConstantsSolved(e.t, e.user, e.goal);
    e.ClearAllValid();
    ghost var s := e.goal;
    ghost var file := TextAhead(n, e.t, s, Preorder(kids), {});
    out := WriteTree(e, n, l, root, kids, file);
  }

  /** The walk of conf_write_defconfig. */
  method WriteTree(e: Engine, n: Names, l: Links, root: nat, ghost kids: seq<Node>, ghost file: string)
    returns (out: string)
    requires e.Ready() && NamesOf(n, e.t) && Writing(n, e.t, e.goal, file, "", Preorder(kids), {})
    requires Sized(l) && root < |l.entries| && l.parent[root] == None && l.next[root] == None
    requires Seg(l, l.list[root], kids, None, Some(root))
    modifies e
    ensures e.Ready() && e.user == old(e.user) && e.goal == old(e.goal) && out == file
  {
    SegEnd(l, l.list[root], kids, Some(root));
    StartOfWalk(kids);
    var menu: Link := l.list[root];
    var done: set<nat> := {};
    out := "";
    ghost var fs, c := kids, Top;
    while menu.Some?
      invariant e.Ready() && e.user == old(e.user) && e.goal == old(e.goal)
      invariant At(l, root, menu, fs, c) && Writing(n, e.t, e.goal, file, out, Remaining(fs, c), done)
      decreases |Remaining(fs, c)|
    {
      var m := menu.value;
      menu, fs, c := Next(l, root, m, fs, c);
      WritingStep(n, e.t, e.goal, file, out, l.entries[m], Remaining(fs, c), done);
      var line;
      line, done := VisitNode(e, n, l.entries[m], done);
      out := out + line;
    }
    assert Remaining(fs, c) == [];
  }

  /**
    Saving and loading, through the text: what conf_write_defconfig writes is read back by
    conf_read_simple, and the new configuration is the old one exactly when no symbol is forgotten.
   */
  lemma SavedAndLoaded(n: Names, t: Table, user: User, rank: seq<nat>, s: seq<Result>, es: seq<Entry>, s': seq<Result>)
    requires Posed(t, user, rank, s) && ShowsNumbers(t) && NamesOf(n, t) && UserPrintable(t, user)
    requires InTable(t, es) && forall i :: 0 <= i < |s| && Written(t, s, i) ==> i in SymbolIds(es)
    requires Solution(t, ReadText(n, TextAhead(n, t, s, es, {}), seq(|s|, i => None)), s')
    ensures s' == s <==> forall i :: 0 <= i < |s| ==> !Forgotten(t, user, s, i)
  {
    IdsInTable(t, es);
    SaveDefconfig(n, t, user, rank, s, SymbolIds(es), s');
  }
}
