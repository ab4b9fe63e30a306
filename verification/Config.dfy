/**
  What sym_calc_value of symbol.c computes, without its cache: the value of one symbol as a function of
  the values of the others.
 */
module Configs {
  import opened Tristates
  import opened Exprs

  // ------------------------------------------------------------ the symbols

  /** struct property, by the properties this model tells apart. Other stands for the rest. */
  datatype Property =
    | Prompt(cond: Option<Expr>)
    | Default(cond: Option<Expr>, value: Expr)
    | Range(cond: Option<Expr>, lo: nat, hi: nat)
    | Select(cond: Option<Expr>, target: nat)
    | Imply(cond: Option<Expr>, target: nat)
    | Other(cond: Option<Expr>)

  /** The part of struct symbol that the Kconfig files fix. */
  datatype Decl = Decl(
    ty: SymbolType, name: string, isConst: bool, props: seq<Property>,
    dirDep: Option<Expr>, revDep: Option<Expr>, implied: Option<Expr>, auto: bool)

  /** The symbol table, modules_val, and the C library's number conversions. */
  datatype Table = Table(
    decls: seq<Decl>, modules: Tristate,
    number: (string, nat) -> Option<int>, strtoll: (string, nat) -> int, show: (int, SymbolType) -> string)

  /** symbol.curr: tristate value and string value. */
  datatype Value = Value(tri: Tristate, text: string)

  /** What sym_calc_value leaves in a symbol. */
  datatype Result = Result(
    curr: Value, visible: Tristate, dirDep: Tristate, revDep: Tristate, implied: Tristate, write: bool)

  const BLANK := Result(Value(No, ""), No, No, No, No, false)

  /** def[S_DEF_USER], None without SYMBOL_DEF_USER. */
  type User = seq<Option<Value>>

  /** The value of a symbol without type; the three constants have fixed ones. */
  function UntypedValue(t: Table, i: nat): Value
    requires i < |t.decls|
  {
    Value(if i == MOD.id then Mod else if i == YES.id then Yes else No, t.decls[i].name)
  }

  /** s is an entry of the table. */
  predicate Known(t: Table, s: Symbol) {
    s.id < |t.decls| && t.decls[s.id].ty == s.ty && t.decls[s.id].isConst == s.isConst
  }

  predicate IsTyped(ty: SymbolType) {
    ty != Unknown && ty != Foreign
  }

  /** sym_get_string_value, given the current value of the symbol. */
  function StringValue(t: Table, ty: SymbolType, c: Value): string {
    if ty == Boolean || ty == Trivalued then
      match c.tri
      case No => "n"
      case Mod => if t.modules == No then "n" else "m"
      case Yes => "y"
    else c.text
  }

  /** The values s of all symbols as expressions read them. */
  function ValuationOf(t: Table, s: seq<Result>): Valuation
    requires |s| == |t.decls|
  {
    Valuation(
      (x: Symbol) => if Known(t, x) then s[x.id].curr.tri else No,
      (x: Symbol) => if Known(t, x) then StringValue(t, x.ty, s[x.id].curr) else TristateText(No),
      t.number)
  }

  // ---------------------------------------------------------- one symbol

  /** sym_get_type for a symbol that is not a choice value. */
  function EffectiveType(t: Table, ty: SymbolType): SymbolType {
    if ty == Trivalued && t.modules == No then Boolean else ty
  }

  /** m counts as y where only two values exist. */
  function Promote(t: Table, ty: SymbolType, x: Tristate): Tristate {
    if x == Mod && EffectiveType(t, ty) == Boolean then Yes else x
  }

  function PromptValue(props: seq<Property>, v: Valuation): Tristate {
    if props == [] then No
    else if props[0].Prompt? then Or(EvalOpt(props[0].cond, v), PromptValue(props[1..], v))
    else PromptValue(props[1..], v)
  }

  /** sym_get_default_prop. */
  function FirstDefault(props: seq<Property>, v: Valuation): (r: Option<Property>)
    ensures r.Some? ==> r.value.Default? && r.value in props && EvalOpt(r.value.cond, v) != No
  {
    if props == [] then None
    else if props[0].Default? && EvalOpt(props[0].cond, v) != No then Some(props[0])
    else FirstDefault(props[1..], v)
  }

  /** sym_get_range_prop. */
  function FirstRange(props: seq<Property>, v: Valuation): (r: Option<Property>)
    ensures r.Some? ==> r.value.Range? && r.value in props && EvalOpt(r.value.cond, v) != No
  {
    if props == [] then None
    else if props[0].Range? && EvalOpt(props[0].cond, v) != No then Some(props[0])
    else FirstRange(props[1..], v)
  }

  function VisibleOf(t: Table, d: Decl, v: Valuation): Tristate {
    var x := PromptValue(d.props, v);
    if x == Mod && (d.ty != Trivalued || t.modules == No) then Yes else x
  }

  function DirDepOf(t: Table, d: Decl, v: Valuation): Tristate {
    Promote(t, d.ty, EvalOpt(d.dirDep, v))
  }

  function RevDepOf(t: Table, d: Decl, v: Valuation): Tristate {
    if d.revDep.None? then No else Promote(t, d.ty, Eval(d.revDep.value, v))
  }

  function ImpliedOf(t: Table, d: Decl, v: Valuation): Tristate {
    if d.implied.None? || DirDepOf(t, d, v) == No then No else Promote(t, d.ty, Eval(d.implied.value, v))
  }

  /** The default of a bool or tristate symbol, limited by the default's condition. */
  function DefaultTri(d: Decl, v: Valuation): Tristate {
    match FirstDefault(d.props, v)
    case None => No
    case Some(p) => And(Eval(p.value, v), EvalOpt(p.cond, v))
  }

  /** The value of a bool or tristate symbol. */
  function TriOf(t: Table, d: Decl, user: Option<Value>, v: Valuation): Tristate {
    var visible := VisibleOf(t, d, v);
    var start :=
      if visible != No && user.Some? then And(user.value.tri, visible)
      else Or(DefaultTri(d, v), ImpliedOf(t, d, v));
    var x := Or(start, RevDepOf(t, d, v));
    if x == Mod && (EffectiveType(t, d.ty) == Boolean || ImpliedOf(t, d, v) == Yes) then Yes else x
  }

  /** The symbol a string default refers to, prop_get_symbol. */
  function DefaultSource(d: Decl, v: Valuation): Option<nat> {
    match FirstDefault(d.props, v)
    case None => None
    case Some(p) => if p.value.Atom? then Some(p.value.sym.id) else None
  }

  function BaseOf(ty: SymbolType): nat {
    if ty == Hexadecimal then 16 else 10
  }

  /** sym_get_range_val. */
  function RangeValue(t: Table, i: nat, text: string, base: nat): int
    requires i < |t.decls|
  {
    var ty := t.decls[i].ty;
    t.strtoll(text, if ty == Integer then 10 else if ty == Hexadecimal then 16 else base)
  }

  /** sym_validate_range on the value text of a symbol of type ty. */
  function ClampToRange(t: Table, ty: SymbolType, text: string, lo: int, hi: int): string {
    var x := t.strtoll(text, BaseOf(ty));
    if x < lo then t.show(lo, ty) else if x > hi then t.show(hi, ty) else text
  }

  /** The value of a string, int or hex symbol. */
  function TextOf(t: Table, d: Decl, user: Option<Value>, v: Valuation, s: seq<Result>): string
    requires |s| == |t.decls|
  {
    if VisibleOf(t, d, v) != No && user.Some? then user.value.text
    else
      match DefaultSource(d, v)
      case None => ""
      case Some(j) => if j < |s| then s[j].curr.text else ""
  }

  function Validated(t: Table, d: Decl, text: string, v: Valuation, s: seq<Result>): string
    requires |s| == |t.decls|
  {
    if d.ty != Integer && d.ty != Hexadecimal then text
    else
      match FirstRange(d.props, v)
      case None => text
      case Some(p) =>
        if p.lo < |s| && p.hi < |s| then
          ClampToRange(t, d.ty, text, RangeValue(t, p.lo, s[p.lo].curr.text, BaseOf(d.ty)),
                       RangeValue(t, p.hi, s[p.hi].curr.text, BaseOf(d.ty)))
        else text
  }

  function CurrOf(t: Table, d: Decl, user: Option<Value>, v: Valuation, s: seq<Result>): Value
    requires |s| == |t.decls|
  {
    if d.ty == Boolean || d.ty == Trivalued then Value(TriOf(t, d, user, v), "n")
    else Value(No, Validated(t, d, TextOf(t, d, user, v, s), v, s))
  }

  /** SYMBOL_WRITE. */
  function WriteOf(t: Table, d: Decl, user: Option<Value>, v: Valuation): bool {
    && !d.auto
    && (|| VisibleOf(t, d, v) != No
        || (if d.ty == Boolean || d.ty == Trivalued
            then RevDepOf(t, d, v) != No || DefaultTri(d, v) != No || ImpliedOf(t, d, v) != No
            else DefaultSource(d, v).Some?))
  }

  /** The uncached value of symbol i where the other symbols have the results s. */
  function Calc(t: Table, user: User, i: nat, s: seq<Result>): Result
    requires i < |t.decls| == |s| == |user|
  {
    var d, v := t.decls[i], ValuationOf(t, s);
    if !IsTyped(d.ty) then BLANK.(curr := UntypedValue(t, i))
    else
      Result(CurrOf(t, d, user[i], v, s), VisibleOf(t, d, v), DirDepOf(t, d, v), RevDepOf(t, d, v),
             ImpliedOf(t, d, v), WriteOf(t, d, user[i], v))
  }

  /** Symbol i has the value its definition gives it. */
  ghost predicate SolvedAt(t: Table, user: User, s: seq<Result>, i: nat)
    requires i < |t.decls| == |s| == |user|
  {
    s[i] == Calc(t, user, i, s)
  }

  /** Every symbol has the value its definition gives it: the recursive definition, with no cache. */
  ghost predicate Solution(t: Table, user: User, s: seq<Result>) {
    && |s| == |t.decls| == |user|
    && forall i :: 0 <= i < |s| ==> SolvedAt(t, user, s, i)
  }

  // ------------------------------------------------------- the read graph

  function ExprReads(e: Expr): set<nat> {
    match e
    case Atom(s) => {s.id}
    case Compare(_, a, b) => {a.id, b.id}
    case Neg(a) => ExprReads(a)
    case Bin(_, a, b) => ExprReads(a) + ExprReads(b)
  }

  function OptReads(e: Option<Expr>): set<nat> {
    if e.None? then {} else ExprReads(e.value)
  }

  function PropReads(p: Property): set<nat> {
    match p
    case Prompt(c) => OptReads(c)
    case Default(c, e) => OptReads(c) + ExprReads(e)
    case Range(c, lo, hi) => OptReads(c) + {lo, hi}
    case Select(_, _) => {}
    case Imply(_, _) => {}
    case Other(_) => {}
  }

  /** The symbols the evaluator may read for a symbol declared d. */
  function Reads(d: Decl): set<nat> {
    if !IsTyped(d.ty) then {}
    else
      (set p, i | p in d.props && i in PropReads(p) :: i) +
      OptReads(d.dirDep) + OptReads(d.revDep) + OptReads(d.implied)
  }

  /** e's symbols are entries of t. */
  predicate ExprKnown(t: Table, e: Expr) {
    match e
    case Atom(s) => Known(t, s)
    case Compare(_, a, b) => Known(t, a) && Known(t, b)
    case Neg(a) => ExprKnown(t, a)
    case Bin(_, a, b) => ExprKnown(t, a) && ExprKnown(t, b)
  }

  predicate OptKnown(t: Table, e: Option<Expr>) {
    e.Some? ==> ExprKnown(t, e.value)
  }

  predicate PropKnown(t: Table, p: Property) {
    && OptKnown(t, p.cond)
    && (p.Default? ==> ExprKnown(t, p.value))
    && (p.Range? ==> p.lo < |t.decls| && p.hi < |t.decls|)
  }

  predicate DeclKnown(t: Table, d: Decl) {
    && (forall p :: p in d.props ==> PropKnown(t, p))
    && OptKnown(t, d.dirDep) && OptKnown(t, d.revDep) && OptKnown(t, d.implied)
  }

  predicate EntryKnown(t: Table, i: nat)
    requires i < |t.decls|
  {
    DeclKnown(t, t.decls[i])
  }

  /** The three constants come first, expressions only mention entries, and y, m and n are no numbers. */
  ghost predicate WellFormed(t: Table) {
    && |t.decls| >= 3
    && (forall i :: 0 <= i < 3 ==> t.decls[i].ty == Unknown && t.decls[i].isConst)
    && t.decls[0].name == "n" && t.decls[1].name == "m" && t.decls[2].name == "y"
    && (forall i :: 0 <= i < |t.decls| ==> EntryKnown(t, i))
    && t.number("n", 0) == None && t.number("m", 0) == None && t.number("y", 0) == None
  }

  /** A constant symbol. */
  function Constant(name: string): Decl {
    Decl(Unknown, name, true, [], None, None, None, false)
  }

  /** Symbol i only reads symbols of lower rank. */
  ghost predicate LowerReads(t: Table, rank: seq<nat>, i: nat)
    requires i < |rank| == |t.decls|
  {
    forall j :: j in Reads(t.decls[i]) ==> j < |rank| && rank[j] < rank[i]
  }

  /** The read graph has no cycle: rank goes down along every read. */
  ghost predicate Acyclic(t: Table, rank: seq<nat>) {
    && |rank| == |t.decls|
    && forall i :: 0 <= i < |rank| ==> LowerReads(t, rank, i)
  }

  // The same facts without sets, as the evaluator uses them: what an expression reads is an entry of
  // rank below bound.

  predicate SymbolBelow(t: Table, x: Symbol, rank: seq<nat>, bound: nat) {
    Known(t, x) && x.id < |rank| && rank[x.id] < bound
  }

  predicate ExprBelow(t: Table, e: Expr, rank: seq<nat>, bound: nat) {
    match e
    case Atom(x) => SymbolBelow(t, x, rank, bound)
    case Compare(_, a, b) => SymbolBelow(t, a, rank, bound) && SymbolBelow(t, b, rank, bound)
    case Neg(a) => ExprBelow(t, a, rank, bound)
    case Bin(_, a, b) => ExprBelow(t, a, rank, bound) && ExprBelow(t, b, rank, bound)
  }

  predicate OptBelow(t: Table, e: Option<Expr>, rank: seq<nat>, bound: nat) {
    e.Some? ==> ExprBelow(t, e.value, rank, bound)
  }

  predicate PropBelow(t: Table, p: Property, rank: seq<nat>, bound: nat) {
    match p
    case Prompt(c) => OptBelow(t, c, rank, bound)
    case Default(c, e) => OptBelow(t, c, rank, bound) && ExprBelow(t, e, rank, bound)
    case Range(c, lo, hi) =>
      OptBelow(t, c, rank, bound) && lo < |rank| && rank[lo] < bound && hi < |rank| && rank[hi] < bound
    case Select(_, _) => true
    case Imply(_, _) => true
    case Other(_) => true
  }

  ghost predicate PropsBelow(t: Table, props: seq<Property>, rank: seq<nat>, bound: nat) {
    forall p :: p in props ==> PropBelow(t, p, rank, bound)
  }

  ghost predicate DeclBelow(t: Table, rank: seq<nat>, i: nat)
    requires i < |t.decls| == |rank|
  {
    var d := t.decls[i];
    && PropsBelow(t, d.props, rank, rank[i]) && OptBelow(t, d.dirDep, rank, rank[i])
    && OptBelow(t, d.revDep, rank, rank[i]) && OptBelow(t, d.implied, rank, rank[i])
  }

  lemma {:induction false} ReadsBelow(t: Table, e: Expr, rank: seq<nat>, bound: nat)
    requires ExprKnown(t, e) && |rank| == |t.decls| && forall j :: j in ExprReads(e) ==> j < |rank| && rank[j] < bound
    ensures ExprBelow(t, e, rank, bound)
  {
    match e
    case Neg(a) =>
      assert ExprReads(a) == ExprReads(e) && ExprKnown(t, a);
      ReadsBelow(t, a, rank, bound);
    case Bin(_, a, b) =>
      assert ExprReads(a) <= ExprReads(e) && ExprReads(b) <= ExprReads(e) && ExprKnown(t, a) && ExprKnown(t, b);
      ReadsBelow(t, a, rank, bound);
      ReadsBelow(t, b, rank, bound);
    case _ =>
  }

  lemma OptReadsBelow(t: Table, e: Option<Expr>, rank: seq<nat>, bound: nat)
    requires OptKnown(t, e) && |rank| == |t.decls| && forall j :: j in OptReads(e) ==> j < |rank| && rank[j] < bound
    ensures OptBelow(t, e, rank, bound)
  {
    if e.Some? {
      assert OptReads(e) == ExprReads(e.value);
      ReadsBelow(t, e.value, rank, bound);
    }
  }

  lemma AcyclicBelow(t: Table, rank: seq<nat>, i: nat)
    requires WellFormed(t) && Acyclic(t, rank) && i < |rank| && IsTyped(t.decls[i].ty)
    ensures DeclBelow(t, rank, i)
  {
    var d := t.decls[i];
    assert EntryKnown(t, i) && LowerReads(t, rank, i);
    assert forall j :: j in Reads(d) ==> j < |rank| && rank[j] < rank[i];
    forall p | p in d.props ensures PropBelow(t, p, rank, rank[i]) {
      assert PropKnown(t, p);
      assert forall j :: j in PropReads(p) ==> j in Reads(d);
      if p.Prompt? || p.Default? || p.Range? { OptReadsBelow(t, p.cond, rank, rank[i]); }
      if p.Default? { ReadsBelow(t, p.value, rank, rank[i]); }
      if p.Range? { assert p.lo in PropReads(p) && p.hi in PropReads(p); }
    }
    OptReadsBelow(t, d.dirDep, rank, rank[i]);
    OptReadsBelow(t, d.revDep, rank, rank[i]);
    OptReadsBelow(t, d.implied, rank, rank[i]);
  }

  lemma RelateReads(t: Table, rel: Relation, a: Symbol, b: Symbol, s: seq<Result>, s': seq<Result>)
    requires |s| == |s'| == |t.decls| && Known(t, a) && Known(t, b)
    requires s[a.id].curr == s'[a.id].curr && s[b.id].curr == s'[b.id].curr
    ensures Relate(ValuationOf(t, s), rel, a, b) == Relate(ValuationOf(t, s'), rel, a, b)
  {
    assert ValuationOf(t, s).text(a) == ValuationOf(t, s').text(a);
    assert ValuationOf(t, s).text(b) == ValuationOf(t, s').text(b);
  }

  // --------------------------------------------- existence and uniqueness

  ghost predicate AgreeOn(ids: set<nat>, s: seq<Result>, s': seq<Result>) {
    |s| == |s'| && forall j :: j in ids && j < |s| ==> s[j].curr == s'[j].curr
  }

  lemma {:induction false} EvalReads(t: Table, e: Expr, s: seq<Result>, s': seq<Result>)
    requires |s| == |t.decls| && AgreeOn(ExprReads(e), s, s')
    ensures Eval(e, ValuationOf(t, s)) == Eval(e, ValuationOf(t, s'))
  {
    match e
    case Neg(a) => EvalReads(t, a, s, s');
    case Bin(_, a, b) =>
      EvalReads(t, a, s, s');
      EvalReads(t, b, s, s');
    case Compare(_, a, b) =>
      assert ValuationOf(t, s).text(a) == ValuationOf(t, s').text(a);
      assert ValuationOf(t, s).text(b) == ValuationOf(t, s').text(b);
    case Atom(_) =>
  }

  lemma EvalOptReads(t: Table, e: Option<Expr>, s: seq<Result>, s': seq<Result>)
    requires |s| == |t.decls| && AgreeOn(OptReads(e), s, s')
    ensures EvalOpt(e, ValuationOf(t, s)) == EvalOpt(e, ValuationOf(t, s'))
  {
    if e.Some? { EvalReads(t, e.value, s, s'); }
  }

  lemma {:induction false} PropsRead(t: Table, props: seq<Property>, s: seq<Result>, s': seq<Result>)
    requires |s| == |t.decls| && AgreeOn(set p, i | p in props && i in PropReads(p) :: i, s, s')
    ensures var v, v' := ValuationOf(t, s), ValuationOf(t, s');
            && PromptValue(props, v) == PromptValue(props, v')
            && FirstDefault(props, v) == FirstDefault(props, v')
            && FirstRange(props, v) == FirstRange(props, v')
  {
    if props != [] {
      assert forall i :: i in PropReads(props[0]) ==> props[0] in props;
      assert AgreeOn(PropReads(props[0]), s, s');
      if props[0].Prompt? || props[0].Default? || props[0].Range? { EvalOptReads(t, props[0].cond, s, s'); }
      assert forall p :: p in props[1..] ==> p in props;
      PropsRead(t, props[1..], s, s');
    }
  }

  lemma DependenciesRead(t: Table, d: Decl, s: seq<Result>, s': seq<Result>)
    requires |s| == |t.decls| && IsTyped(d.ty) && AgreeOn(Reads(d), s, s')
    ensures var v, v' := ValuationOf(t, s), ValuationOf(t, s');
            && VisibleOf(t, d, v) == VisibleOf(t, d, v') && DirDepOf(t, d, v) == DirDepOf(t, d, v')
            && RevDepOf(t, d, v) == RevDepOf(t, d, v') && ImpliedOf(t, d, v) == ImpliedOf(t, d, v')
  {
    PropsRead(t, d.props, s, s');
    EvalOptReads(t, d.dirDep, s, s');
    EvalOptReads(t, d.revDep, s, s');
    EvalOptReads(t, d.implied, s, s');
  }

  lemma DefaultReads(t: Table, d: Decl, s: seq<Result>, s': seq<Result>)
    requires |s| == |t.decls| && IsTyped(d.ty) && AgreeOn(Reads(d), s, s')
    ensures var v, v' := ValuationOf(t, s), ValuationOf(t, s');
            && DefaultTri(d, v) == DefaultTri(d, v') && DefaultSource(d, v) == DefaultSource(d, v')
            && (DefaultSource(d, v).Some? ==> DefaultSource(d, v).value in Reads(d))
  {
    PropsRead(t, d.props, s, s');
    var f := FirstDefault(d.props, ValuationOf(t, s));
    if f.Some? {
      assert forall i :: i in PropReads(f.value) ==> i in Reads(d);
      EvalOptReads(t, f.value.cond, s, s');
      EvalReads(t, f.value.value, s, s');
    }
  }

  lemma RangeReads(t: Table, d: Decl, text: string, s: seq<Result>, s': seq<Result>)
    requires |s| == |t.decls| && IsTyped(d.ty) && AgreeOn(Reads(d), s, s')
    ensures Validated(t, d, text, ValuationOf(t, s), s) == Validated(t, d, text, ValuationOf(t, s'), s')
  {
    PropsRead(t, d.props, s, s');
    var r := FirstRange(d.props, ValuationOf(t, s));
    if r.Some? {
      assert r.value.lo in PropReads(r.value) && r.value.hi in PropReads(r.value);
      assert r.value.lo in Reads(d) && r.value.hi in Reads(d);
    }
  }

  lemma DeclReads(t: Table, d: Decl, user: Option<Value>, s: seq<Result>, s': seq<Result>)
    requires |s| == |t.decls| && IsTyped(d.ty) && AgreeOn(Reads(d), s, s')
    ensures var v, v' := ValuationOf(t, s), ValuationOf(t, s');
            && VisibleOf(t, d, v) == VisibleOf(t, d, v') && DirDepOf(t, d, v) == DirDepOf(t, d, v')
            && RevDepOf(t, d, v) == RevDepOf(t, d, v') && ImpliedOf(t, d, v) == ImpliedOf(t, d, v')
            && DefaultTri(d, v) == DefaultTri(d, v') && DefaultSource(d, v) == DefaultSource(d, v')
            && CurrOf(t, d, user, v, s) == CurrOf(t, d, user, v', s')
  {
    DependenciesRead(t, d, s, s');
    DefaultReads(t, d, s, s');
    RangeReads(t, d, TextOf(t, d, user, ValuationOf(t, s), s), s, s');
  }

  /** A symbol's value depends only on the symbols it reads. */
  lemma CalcReads(t: Table, user: User, i: nat, s: seq<Result>, s': seq<Result>)
    requires i < |t.decls| == |s| == |user| && AgreeOn(Reads(t.decls[i]), s, s')
    ensures Calc(t, user, i, s) == Calc(t, user, i, s')
  {
    if IsTyped(t.decls[i].ty) { DeclReads(t, t.decls[i], user[i], s, s'); }
  }

  /** An acyclic table has at most one solution. */
  lemma {:induction false} SolutionUnique(t: Table, user: User, rank: seq<nat>, s: seq<Result>, s': seq<Result>)
    requires Acyclic(t, rank) && Solution(t, user, s) && Solution(t, user, s')
    ensures s == s'
  {
    forall i | 0 <= i < |s| ensures s[i] == s'[i] { SolutionUniqueAt(t, user, rank, s, s', i); }
  }

  lemma {:induction false} SolutionUniqueAt(t: Table, user: User, rank: seq<nat>, s: seq<Result>, s': seq<Result>,
                                            i: nat)
    requires Acyclic(t, rank) && Solution(t, user, s) && Solution(t, user, s') && i < |s|
    ensures s[i] == s'[i]
    decreases rank[i]
  {
    assert LowerReads(t, rank, i);
    forall j | j in Reads(t.decls[i]) ensures s[j].curr == s'[j].curr {
      SolutionUniqueAt(t, user, rank, s, s', j);
    }
    CalcReads(t, user, i, s, s');
    assert SolvedAt(t, user, s, i) && SolvedAt(t, user, s', i);
  }

  /** k rounds of evaluating every symbol from the previous round. */
  ghost function Rounds(t: Table, user: User, k: nat): (s: seq<Result>)
    requires |user| == |t.decls|
    ensures |s| == |t.decls|
  {
    if k == 0 then seq(|t.decls|, i => BLANK)
    else
      var p := Rounds(t, user, k - 1);
      seq(|t.decls|, i requires 0 <= i < |t.decls| => Calc(t, user, i, p))
  }

  lemma RoundsAt(t: Table, user: User, k: nat, i: nat)
    requires |user| == |t.decls| && i < |t.decls| && k > 0
    ensures Rounds(t, user, k)[i] == Calc(t, user, i, Rounds(t, user, k - 1))
  {
  }

  /** From round k on, symbol i no longer changes. */
  ghost predicate SettledAfter(t: Table, user: User, k: nat, i: nat) {
    |user| == |t.decls| && i < |t.decls| && Rounds(t, user, k)[i] == Rounds(t, user, k + 1)[i]
  }

  lemma RoundsStep(t: Table, user: User, k: nat, i: nat)
    requires |user| == |t.decls| && i < |t.decls| && k > 0
    requires forall j :: j in Reads(t.decls[i]) ==> SettledAfter(t, user, k - 1, j)
    ensures SettledAfter(t, user, k, i)
  {
    RoundsAt(t, user, k, i);
    RoundsAt(t, user, k + 1, i);
    var p, q := Rounds(t, user, k - 1), Rounds(t, user, k);
    forall j | j in Reads(t.decls[i]) ensures j < |p| && p[j].curr == q[j].curr {
      assert SettledAfter(t, user, k - 1, j);
    }
    CalcReads(t, user, i, p, q);
  }

  /** Before round k all symbols of a rank below k have settled. */
  ghost predicate SettledBelow(t: Table, user: User, rank: seq<nat>, k: nat) {
    forall i :: 0 <= i < |rank| && rank[i] < k ==> SettledAfter(t, user, k, i)
  }

  lemma NextSettles(t: Table, user: User, rank: seq<nat>, k: nat, i: nat)
    requires Acyclic(t, rank) && |user| == |t.decls| && i < |rank| && rank[i] < k
    requires SettledBelow(t, user, rank, k - 1)
    ensures SettledAfter(t, user, k, i)
  {
    assert LowerReads(t, rank, i);
    RoundsStep(t, user, k, i);
  }

  lemma {:induction false} RoundsSettle(t: Table, user: User, rank: seq<nat>, k: nat)
    requires Acyclic(t, rank) && |user| == |t.decls|
    ensures SettledBelow(t, user, rank, k)
  {
    if k > 0 {
      RoundsSettle(t, user, rank, k - 1);
      forall i | 0 <= i < |rank| && rank[i] < k ensures SettledAfter(t, user, k, i) {
        NextSettles(t, user, rank, k, i);
      }
    }
  }

  function MaxRank(rank: seq<nat>): (m: nat)
    ensures forall i :: 0 <= i < |rank| ==> rank[i] <= m
  {
    if rank == [] then 0
    else
      var m := MaxRank(rank[1..]);
      assert forall i :: 1 <= i < |rank| ==> rank[i] == rank[1..][i - 1];
      if rank[0] > m then rank[0] else m
  }

  /** An acyclic table has a solution. */
  lemma SolutionExists(t: Table, user: User, rank: seq<nat>)
    requires Acyclic(t, rank) && |user| == |t.decls|
    ensures exists s :: Solution(t, user, s)
  {
    var k := MaxRank(rank) + 1;
    var s := Rounds(t, user, k);
    RoundsSettle(t, user, rank, k);
    forall i | 0 <= i < |s| ensures SolvedAt(t, user, s, i) {
      assert SettledAfter(t, user, k, i);
      RoundsAt(t, user, k + 1, i);
    }
    assert Solution(t, user, s);
  }

  lemma ConstantsSolved(t: Table, user: User, s: seq<Result>)
    requires WellFormed(t) && Solution(t, user, s)
    ensures forall i :: 0 <= i < 3 ==> s[i] == BLANK.(curr := UntypedValue(t, i))
  {
    assert SolvedAt(t, user, s, 0) && SolvedAt(t, user, s, 1) && SolvedAt(t, user, s, 2);
  }

  lemma UntypedSolved(t: Table, user: User, s: seq<Result>, i: nat)
    requires Solution(t, user, s) && i < |s| && !IsTyped(t.decls[i].ty)
    ensures s[i] == BLANK.(curr := UntypedValue(t, i))
  {
    assert SolvedAt(t, user, s, i);
  }

  lemma TypedSolved(t: Table, user: User, s: seq<Result>, i: nat)
    requires Solution(t, user, s) && i < |s| && IsTyped(t.decls[i].ty)
    ensures var d, v := t.decls[i], ValuationOf(t, s);
            s[i] == Result(CurrOf(t, d, user[i], v, s), VisibleOf(t, d, v), DirDepOf(t, d, v), RevDepOf(t, d, v),
                           ImpliedOf(t, d, v), WriteOf(t, d, user[i], v))
  {
    assert SolvedAt(t, user, s, i);
  }

  /** s is the solution of a well-formed acyclic table. */
  ghost predicate Posed(t: Table, user: User, rank: seq<nat>, s: seq<Result>) {
    WellFormed(t) && Acyclic(t, rank) && Solution(t, user, s)
  }

  // -------------------------------------------- what every solution satisfies

  /** The solution is an admissible valuation: the premise of the simplifier's theorems holds. */
  lemma SolutionAdmissible(t: Table, user: User, s: seq<Result>)
    requires WellFormed(t) && Solution(t, user, s)
    ensures Admissible(ValuationOf(t, s))
  {
    var v := ValuationOf(t, s);
    forall x: Symbol | IsLogical(x)
      ensures (x.ty == Boolean ==> v.tri(x) != Mod) && v.text(x) == TristateText(v.tri(x))
    {
      if Known(t, x) {
        assert SolvedAt(t, user, s, x.id);
      }
    }
    assert SolvedAt(t, user, s, 0) && SolvedAt(t, user, s, 1) && SolvedAt(t, user, s, 2);
  }

  /** The visibility from prompts is the highest of their conditions. */
  lemma {:induction false} PromptIsMaximum(props: seq<Property>, v: Valuation)
    ensures forall k :: 0 <= k < |props| && props[k].Prompt? ==>
              Level(EvalOpt(props[k].cond, v)) <= Level(PromptValue(props, v))
    ensures PromptValue(props, v) != No ==>
              exists k :: 0 <= k < |props| && props[k].Prompt? && EvalOpt(props[k].cond, v) == PromptValue(props, v)
  {
    if props != [] {
      PromptIsMaximum(props[1..], v);
      assert forall k :: 1 <= k < |props| ==> props[k] == props[1..][k - 1];
      if PromptValue(props[1..], v) != No {
        var k :| 0 <= k < |props[1..]| && props[1..][k].Prompt?
                 && EvalOpt(props[1..][k].cond, v) == PromptValue(props[1..], v);
        assert props[k + 1] == props[1..][k];
      }
    }
  }

  /** p is the property at k, and it and none before it is of the kind sought and applies. */
  ghost predicate IsFirst(props: seq<Property>, v: Valuation, k: nat, wanted: Property -> bool) {
    && k < |props| && wanted(props[k]) && EvalOpt(props[k].cond, v) != No
    && forall j :: 0 <= j < k && wanted(props[j]) ==> EvalOpt(props[j].cond, v) == No
  }

  /** The default that counts is the first one whose condition is not n. */
  lemma {:induction false} DefaultIsFirst(props: seq<Property>, v: Valuation, k: nat)
    requires IsFirst(props, v, k, (p: Property) => p.Default?)
    ensures FirstDefault(props, v) == Some(props[k])
  {
    if k > 0 {
      assert forall j :: 1 <= j < |props| ==> props[j] == props[1..][j - 1];
      assert props[0].Default? ==> EvalOpt(props[0].cond, v) == No;
      DefaultIsFirst(props[1..], v, k - 1);
    }
  }

  /** So is the range. */
  lemma {:induction false} RangeIsFirst(props: seq<Property>, v: Valuation, k: nat)
    requires IsFirst(props, v, k, (p: Property) => p.Range?)
    ensures FirstRange(props, v) == Some(props[k])
  {
    if k > 0 {
      assert forall j :: 1 <= j < |props| ==> props[j] == props[1..][j - 1];
      assert props[0].Range? ==> EvalOpt(props[0].cond, v) == No;
      RangeIsFirst(props[1..], v, k - 1);
    }
  }

  /** An int or hex symbol whose range applies has a value within it, if the bounds printed read back as themselves. */
  lemma RangeRespected(t: Table, user: User, s: seq<Result>, i: nat, p: Property, lo: int, hi: int)
    requires Solution(t, user, s) && i < |s| && (t.decls[i].ty == Integer || t.decls[i].ty == Hexadecimal)
    requires FirstRange(t.decls[i].props, ValuationOf(t, s)) == Some(p) && p.lo < |s| && p.hi < |s|
    requires lo == RangeValue(t, p.lo, s[p.lo].curr.text, BaseOf(t.decls[i].ty))
    requires hi == RangeValue(t, p.hi, s[p.hi].curr.text, BaseOf(t.decls[i].ty))
    requires forall n :: n == lo || n == hi ==> t.strtoll(t.show(n, t.decls[i].ty), BaseOf(t.decls[i].ty)) == n
    ensures lo <= hi ==> lo <= t.strtoll(s[i].curr.text, BaseOf(t.decls[i].ty)) <= hi
  {
    TypedSolved(t, user, s, i);
  }
}
