/**
  expr_print and expr_compare_type of expr.c, and the expression grammar of zconf.y: the parentheses that are
  printed suffice to read the expression back.
 */
module ExprPrint {
  import opened Tristates
  import opened Exprs

  /** What the lexer makes of the text; names stand for the symbols they are looked up as. */
  datatype Token = Name(sym: Symbol) | Rel(rel: Relation) | Bang | Infix(op: Op) | Open | Close

  // -------------------------------------------------------------- printing

  /** enum expr_type, as far as expressions have it; NoType is E_NONE. */
  datatype ExprType =
    | NoType | OrType | AndType | NotType | EqualType | UnequalType | OrderType(rel: Relation) | SymbolType

  function TypeOf(e: Expr): ExprType {
    match e
    case Atom(_) => SymbolType
    case Compare(rel, _, _) => if rel == Eq then EqualType else if rel == Ne then UnequalType else OrderType(rel)
    case Neg(_) => NotType
    case Bin(op, _, _) => OpType(op)
  }

  function OpType(op: Op): ExprType {
    if op == AndOp then AndType else OrType
  }

  /** How tightly a type binds, in the order in which the cases of expr_compare_type fall through. */
  function Tightness(t: ExprType): nat {
    match t
    case NoType => 0
    case OrType => 1
    case AndType => 2
    case NotType => 3
    case EqualType => 4
    case UnequalType => 4
    case OrderType(_) => 5
    case SymbolType => 6
  }

  /** expr_compare_type(t1, t2) > 0: t2 inside t1 needs parentheses. */
  predicate Looser(t1: ExprType, t2: ExprType) {
    t1 != t2 && !t1.SymbolType? && !t1.NoType? && Tightness(t2) < Tightness(t1)
  }

  /** expr_print inside an expression of type prev. */
  function Print(e: Expr, prev: ExprType): (r: seq<Token>)
    ensures |r| >= 1
    decreases e, 1
  {
    if Looser(prev, TypeOf(e)) then [Open] + PrintBare(e) + [Close] else PrintBare(e)
  }

  function PrintBare(e: Expr): (r: seq<Token>)
    ensures |r| >= 1
    decreases e, 0
  {
    match e
    case Atom(s) => [Name(s)]
    case Compare(rel, a, b) => [Name(a), Rel(rel), Name(b)]
    case Neg(a) => [Bang] + Print(a, NotType)
    case Bin(op, a, b) => Print(a, OpType(op)) + [Infix(op)] + Print(b, OpType(op))
  }

  /** How many operands need parentheses: an || below &&, and an && or || below !. */
  function Groups(e: Expr): nat {
    match e
    case Neg(a) => (if a.Bin? then 1 else 0) + Groups(a)
    case Bin(op, a, b) =>
      (if op == AndOp && IsOp(a, OrOp) then 1 else 0) + (if op == AndOp && IsOp(b, OrOp) then 1 else 0)
      + Groups(a) + Groups(b)
    case _ => 0
  }

  function Opens(ts: seq<Token>): nat {
    if ts == [] then 0 else (if ts[0] == Open then 1 else 0) + Opens(ts[1..])
  }

  lemma {:induction false} OpensConcat(a: seq<Token>, b: seq<Token>)
    ensures Opens(a + b) == Opens(a) + Opens(b)
  {
    if a == [] {
      assert a + b == b;
    } else {
      assert (a + b)[1..] == a[1..] + b;
      OpensConcat(a[1..], b);
    }
  }

  lemma OpensOne(x: Token)
    ensures Opens([x]) == if x == Open then 1 else 0
  {
    assert [x][1..] == [];
  }

  lemma OpensAround(l: seq<Token>, x: Token, r: seq<Token>)
    ensures Opens(l + [x] + r) == Opens(l) + (if x == Open then 1 else 0) + Opens(r)
  {
    OpensOne(x);
    OpensConcat(l + [x], r);
    OpensConcat(l, [x]);
  }

  lemma OpensPrint(e: Expr, prev: ExprType)
    requires prev == NotType || prev == AndType || prev == OrType
    ensures Opens(Print(e, prev)) == Opens(PrintBare(e))
            + if e.Bin? && (prev == NotType || (prev == AndType && e.op == OrOp)) then 1 else 0
  {
    OpensOne(Open);
    OpensOne(Close);
    OpensConcat([Open] + PrintBare(e), [Close]);
    OpensConcat([Open], PrintBare(e));
  }

  /** No more parentheses are printed than these operands need. */
  lemma {:induction false} ParenthesesPrinted(e: Expr)
    ensures Opens(Print(e, NoType)) == Opens(PrintBare(e)) == Groups(e)
  {
    match e
    case Neg(a) =>
      ParenthesesPrinted(a);
      OpensAround([], Bang, Print(a, NotType));
      OpensPrint(a, NotType);
    case Bin(op, a, b) =>
      ParenthesesPrinted(a);
      ParenthesesPrinted(b);
      OpensAround(Print(a, OpType(op)), Infix(op), Print(b, OpType(op)));
      OpensPrint(a, OpType(op));
      OpensPrint(b, OpType(op));
    case Compare(rel, a, b) =>
      OpensOne(Name(a));
      OpensOne(Name(b));
      OpensAround([Name(a)], Rel(rel), [Name(b)]);
    case Atom(s) => OpensOne(Name(s));
  }

  // --------------------------------------------------------------- parsing

  type Parse = Option<(Expr, seq<Token>)>

  /** A symbol, a comparison of symbols, an expression in parentheses, or the negation of one of these. */
  function ParseUnary(ts: seq<Token>): (r: Parse)
    ensures r.Some? ==> |r.value.1| < |ts|
    decreases |ts|, 0
  {
    if ts == [] then None
    else
      match ts[0]
      case Bang =>
        (match ParseUnary(ts[1..])
         case None => None
         case Some((e, rest)) => Some((Neg(e), rest)))
      case Open =>
        (match ParseChain(OrOp, ts[1..])
         case None => None
         case Some((e, rest)) => if rest != [] && rest[0] == Close then Some((e, rest[1..])) else None)
      case Name(a) =>
        if |ts| == 1 || !ts[1].Rel? then Some((Atom(a), ts[1..]))
        else if |ts| > 2 && ts[2].Name? then Some((Compare(ts[1].rel, a, ts[2].sym), ts[3..]))
        else None
      case _ => None
  }

  /** An operand of op: && binds tighter than ||. */
  function ParseOperand(op: Op, ts: seq<Token>): (r: Parse)
    ensures r.Some? ==> |r.value.1| < |ts|
    decreases |ts|, if op == AndOp then 1 else 4
  {
    if op == AndOp then ParseUnary(ts) else ParseChain(AndOp, ts)
  }

  /** Operands joined by op, to the left. */
  function ParseChain(op: Op, ts: seq<Token>): (r: Parse)
    ensures r.Some? ==> |r.value.1| < |ts|
    decreases |ts|, if op == AndOp then 3 else 6
  {
    match ParseOperand(op, ts)
    case None => None
    case Some((e, rest)) => ParseMore(op, e, rest)
  }

  /** The rest of a chain after its part e. */
  function ParseMore(op: Op, e: Expr, ts: seq<Token>): (r: Parse)
    ensures r.Some? ==> |r.value.1| <= |ts|
    decreases |ts|, if op == AndOp then 2 else 5
  {
    if ts == [] || ts[0] != Infix(op) then Some((e, ts))
    else
      match ParseOperand(op, ts[1..])
      case None => None
      case Some((x, rest)) => ParseMore(op, Bin(op, e, x), rest)
  }

  // ---------------------------------------------------- what is read back

  /** e with every chain of one operator joined to the left. */
  function Leftward(e: Expr): Expr
    decreases e, 1
  {
    match e
    case Neg(a) => Neg(Leftward(a))
    case Bin(op, a, b) => Attach(op, Leftward(a), b)
    case _ => e
  }

  /** The operands of b, joined one by one to x. */
  function Attach(op: Op, x: Expr, b: Expr): Expr
    decreases b, 2
  {
    if IsOp(b, op) then Attach(op, Attach(op, x, b.l), b.r) else Bin(op, x, Leftward(b))
  }

  lemma {:induction false} LeftwardSound(e: Expr, v: Valuation)
    ensures Eval(Leftward(e), v) == Eval(e, v)
    decreases e, 1
  {
    match e
    case Neg(a) => LeftwardSound(a, v);
    case Bin(op, a, b) =>
      LeftwardSound(a, v);
      AttachSound(op, Leftward(a), b, v);
    case _ =>
  }

  lemma {:induction false} AttachSound(op: Op, x: Expr, b: Expr, v: Valuation)
    ensures Eval(Attach(op, x, b), v) == Apply(op, Eval(x, v), Eval(b, v))
    decreases b, 2
  {
    if IsOp(b, op) {
      AttachSound(op, x, b.l, v);
      AttachSound(op, Attach(op, x, b.l), b.r, v);
    } else {
      LeftwardSound(b, v);
    }
  }

  /** After a symbol no relation may follow. */
  predicate Ends(rest: seq<Token>) {
    rest == [] || !rest[0].Rel?
  }

  /** An operand of && or !, printed, is read back as a unit. */
  lemma {:induction false} UnaryReads(e: Expr, prev: ExprType, rest: seq<Token>)
    requires prev == NotType || (prev == AndType && !IsOp(e, AndOp))
    requires Ends(rest)
    ensures ParseUnary(Print(e, prev) + rest) == Some((Leftward(e), rest))
    decreases |Print(e, prev)|, 0
  {
    var ts := Print(e, prev) + rest;
    match e
    case Atom(s) =>
      assert ts[1..] == rest;
    case Compare(rel, a, b) =>
      assert Print(e, prev) == [Name(a), Rel(rel), Name(b)];
      assert ts[3..] == rest;
    case Neg(a) =>
      assert Print(e, prev) == [Bang] + Print(a, NotType);
      UnaryReads(a, NotType, rest);
      assert ts[1..] == Print(a, NotType) + rest;
    case Bin(op, a, b) =>
      assert Print(e, prev) == [Open] + PrintBare(e) + [Close];
      var inner := [Close] + rest;
      BareReads(e, inner);
      assert ts[1..] == PrintBare(e) + inner;
      assert inner[1..] == rest;
  }

  /** Inside parentheses, or at the top. */
  lemma {:induction false} BareReads(e: Expr, rest: seq<Token>)
    requires Ends(rest) && (rest == [] || !rest[0].Infix?)
    ensures ParseChain(OrOp, PrintBare(e) + rest) == Some((Leftward(e), rest))
    decreases |PrintBare(e)|, 5
  {
    assert Print(e, OrType) == PrintBare(e);
    ChainReads(OrOp, e, rest);
  }

  /** What may follow an operand of op in a chain. */
  predicate Follows(op: Op, rest: seq<Token>) {
    Ends(rest) && (op == OrOp && rest != [] ==> rest[0] != Infix(AndOp))
  }

  /** The beginning of a chain is read up to the end of e. */
  lemma {:induction false} ChainReads(op: Op, e: Expr, rest: seq<Token>)
    requires Follows(op, rest)
    ensures ParseChain(op, Print(e, OpType(op)) + rest) == ParseMore(op, Leftward(e), rest)
    decreases |Print(e, OpType(op))|, if op == AndOp then 2 else 4
  {
    if IsOp(e, op) {
      assert Print(e, OpType(op)) == Print(e.l, OpType(op)) + [Infix(op)] + Print(e.r, OpType(op));
      var tail := [Infix(op)] + (Print(e.r, OpType(op)) + rest);
      ChainReads(op, e.l, tail);
      MoreReads(op, Leftward(e.l), e.r, rest);
      assert Print(e, OpType(op)) + rest == Print(e.l, OpType(op)) + tail;
    } else {
      OperandReads(op, e, rest);
    }
  }

  /** A printed operand of op. */
  lemma {:induction false} OperandReads(op: Op, e: Expr, rest: seq<Token>)
    requires Follows(op, rest) && !IsOp(e, op)
    ensures ParseOperand(op, Print(e, OpType(op)) + rest) == Some((Leftward(e), rest))
    decreases |Print(e, OpType(op))|, if op == AndOp then 1 else 3
  {
    if op == AndOp {
      UnaryReads(e, AndType, rest);
    } else {
      assert Print(e, OrType) == Print(e, AndType);
      ChainReads(AndOp, e, rest);
    }
  }

  /** The chain goes on with op and e. */
  lemma {:induction false} MoreReads(op: Op, x: Expr, e: Expr, rest: seq<Token>)
    requires Follows(op, rest)
    ensures ParseMore(op, x, [Infix(op)] + (Print(e, OpType(op)) + rest)) == ParseMore(op, Attach(op, x, e), rest)
    decreases |Print(e, OpType(op))|, 6
  {
    var ts := [Infix(op)] + (Print(e, OpType(op)) + rest);
    if IsOp(e, op) {
      assert Print(e, OpType(op)) == Print(e.l, OpType(op)) + [Infix(op)] + Print(e.r, OpType(op));
      var tail := [Infix(op)] + (Print(e.r, OpType(op)) + rest);
      assert ts == [Infix(op)] + (Print(e.l, OpType(op)) + tail);
      MoreReads(op, x, e.l, tail);
      MoreReads(op, Attach(op, x, e.l), e.r, rest);
    } else {
      OperandReads(op, e, rest);
      assert ts[1..] == Print(e, OpType(op)) + rest;
    }
  }

  /** The printed expression, read back, is the expression with its chains joined to the left; its value is the same. */
  lemma PrintedIsRead(e: Expr, v: Valuation)
    ensures ParseChain(OrOp, Print(e, NoType)) == Some((Leftward(e), []))
    ensures Eval(Leftward(e), v) == Eval(e, v)
  {
    BareReads(e, []);
    assert PrintBare(e) + [] == Print(e, NoType);
    LeftwardSound(e, v);
  }

  /** What is read back prints the same. */
  lemma {:induction false} LeftwardPrints(e: Expr)
    ensures TypeOf(Leftward(e)) == TypeOf(e) && PrintBare(Leftward(e)) == PrintBare(e)
    decreases e, 1
  {
    match e
    case Neg(a) => LeftwardPrints(a);
    case Bin(op, a, b) =>
      LeftwardPrints(a);
      AttachPrints(op, Leftward(a), b);
    case _ =>
  }

  lemma {:induction false} AttachPrints(op: Op, x: Expr, b: Expr)
    ensures IsOp(Attach(op, x, b), op)
    ensures PrintBare(Attach(op, x, b)) == Print(x, OpType(op)) + [Infix(op)] + Print(b, OpType(op))
    decreases b, 2
  {
    if IsOp(b, op) {
      AttachPrints(op, x, b.l);
      AttachPrints(op, Attach(op, x, b.l), b.r);
    } else {
      LeftwardPrints(b);
    }
  }
}
