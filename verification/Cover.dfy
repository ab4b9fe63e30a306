/**
  What the search for recursive dependencies misses in the symbols that menu_finalize leaves: every symbol of a
  direct dependency is seen through the property that menu_add_entry gives each definition.
 */
module Covers {
  import opened Tristates
  import opened Exprs
  import opened Dups
  import opened Transforms
  import opened Configs
  import opened Propagation
  import opened Menus
  import opened MenuLinks
  import opened Selects
  import opened Floors
  import Checking

  lemma {:induction false} TransBoolReads(e: Expr, j: nat)
    requires j in ExprReads(e) && j != NO.id
    ensures j in ExprReads(TransBool(e))
  {
    match e
    case Neg(a) => TransBoolReads(a, j);
    case Bin(_, a, b) =>
      if j in ExprReads(a) {
        TransBoolReads(a, j);
      } else {
        TransBoolReads(b, j);
      }
    case _ =>
  }

  /** A symbol of the direct dependency is one of the condition of some definition. */
  lemma {:induction false} DependencyReads(deps: seq<Option<Expr>>, j: nat)
    requires j in OptReads(DirectDependency(deps))
    ensures exists k :: 0 <= k < |deps| && j in OptReads(deps[k])
  {
    var m := |deps| - 1;
    if deps[m].Some? && j in OptReads(deps[m]) {
    } else {
      DependencyReads(deps[..m], j);
      var k :| 0 <= k < m && j in OptReads(deps[..m][k]);
      assert deps[..m][k] == deps[k];
    }
  }

  /** The condition of a node of the finished tree is settled: joining it with nothing leaves it as it is. */
  lemma NodeSettled(n: Node, modules: Symbol, e: Entry)
    requires e in Entries(n, modules)
    ensures Inherit(e.dep, None, modules) == e.dep
  {
    FinalPreorder(n, modules);
    PlainOrigin(ParentDep(n.e), n.kids, modules, e);
    var e0 :| e0 in Preorder(n.kids) && ComesFrom(e, e0, modules);
    var d :| e == HandDown(d, e0, modules);
    var x := AllocAnd(d, TransformOpt(RewriteMOpt(e0.dep, modules)));
    if x.Some? { EliminateDupsSettles(x.value); }
  }

  /** menu_add_entry: at every node of symbol i it has a property that carries nothing but the node's condition. */
  ghost predicate HasSymbolProps(y: Symbols, n: Node, modules: Symbol, i: nat) {
    forall e :: e in Entries(n, modules) && e.sym.Some? && e.sym.value.id == i ==> HasSymbolProp(y, e)
  }

  ghost predicate HasSymbolProp(y: Symbols, e: Entry)
    requires e.sym.Some?
  {
    Located(Some(e.id), Other(None)) in PropsOf(y, e.sym.value.id)
  }

  lemma NodeWalked(d: Decl, y: Symbols, n: Node, modules: Symbol, e: Entry, j: nat)
    requires Distinct(n.kids) && e in Entries(n, modules) && e.sym.Some? && HasSymbolProp(y, e)
    requires Leaves(d, After(y, n, modules), e.sym.value.id)
    requires j in OptReads(e.dep) && j != NO.id
    ensures j in Checking.WalkedFrom(d)
  {
    var i := e.sym.value.id;
    var k :| 0 <= k < |PropsOf(y, i)| && PropsOf(y, i)[k] == Located(Some(e.id), Other(None));
    FinalCondition(y, n, modules, e, k);
    NodeSettled(n, modules, e);
    if Untristate(Some(e.sym.value.ty)) { TransBoolReads(e.dep.value, j); }
    Checking.OptSymbolsAreReads(d.props[k].cond);
    Checking.PropSymbols(d.props, d.props[k]);
  }

  /** Every symbol of the direct dependency is walked, but for the constant n. */
  lemma DirectDependencyWalked(d: Decl, y: Symbols, n: Node, modules: Symbol, i: nat, j: nat)
    requires FromParser(y, n) && n.kids != [] && Childless(n.kids, i) && HasSymbolProps(y, n, modules, i)
    requires Leaves(d, After(y, n, modules), i)
    requires j in OptReads(d.dirDep) && j != NO.id
    ensures j in Checking.WalkedFrom(d)
  {
    var deps := Definitions(n, modules, i);
    DirectIsDependency(y, Events(n, [], modules), modules, i, []);
    assert [] + deps == deps;
    DependencyReads(deps, j);
    var k :| 0 <= k < |deps| && j in OptReads(deps[k]);
    DefinitionsExact(n, modules, i, deps[k]);
    var e :| e in Entries(n, modules) && e.sym.Some? && e.sym.value.id == i && e.dep == deps[k];
    assert HasSymbolProp(y, e);
    NodeWalked(d, y, n, modules, e, j);
  }

  /** So only the bounds of ranges and the symbols of an imply can escape. */
  lemma OnlyBoundsAndImplies(d: Decl, y: Symbols, n: Node, modules: Symbol, i: nat, j: nat)
    requires FromParser(y, n) && n.kids != [] && Childless(n.kids, i) && HasSymbolProps(y, n, modules, i)
    requires Leaves(d, After(y, n, modules), i) && IsTyped(d.ty) && j != NO.id
    ensures Checking.Escapes(d, j) <==>
              j !in Checking.WalkedFrom(d) && (Checking.IsBound(d, j) || j in OptReads(d.implied))
  {
    Checking.EscapesExact(d, j);
    if j in OptReads(d.dirDep) { DirectDependencyWalked(d, y, n, modules, i, j); }
  }
}
