/**
  When expr_eq of expr.c equates two expressions: exactly which operands have to recur, and how often, at
  every level.
 */
module Chains {
  import opened Tristates
  import opened Exprs
  import opened ElimEq

  /** An expression up to the order and grouping of the operands of each level. */
  datatype Nest = Leaf(e: Expr) | Negated(arg: Nest) | Group(op: Op, members: multiset<Nest>)

  function NestOf(e: Expr): Nest
    decreases e, 1
  {
    match e
    case Neg(a) => Negated(NestOf(a))
    case Bin(op, _, _) => Group(op, Members(op, e))
    case _ => Leaf(e)
  }

  /** The operands of e at level op. */
  function Members(op: Op, e: Expr): multiset<Nest>
    decreases e, if IsOp(e, op) then 0 else 2
  {
    if IsOp(e, op) then Members(op, e.l) + Members(op, e.r) else multiset{NestOf(e)}
  }

  /** How often x is an operand of e at level op. */
  function Count(op: Op, e: Expr, x: Nest): nat {
    if IsOp(e, op) then Count(op, e.l, x) + Count(op, e.r, x) else if NestOf(e) == x then 1 else 0
  }

  lemma {:induction false} CountMembers(op: Op, e: Expr, x: Nest)
    ensures Members(op, e)[x] == Count(op, e, x)
  {
    if IsOp(e, op) {
      CountMembers(op, e.l, x);
      CountMembers(op, e.r, x);
    }
  }

  predicate IsConstant(e: Expr) {
    e == Atom(YES) || e == Atom(NO)
  }

  /** No y or n is an operand of && or || anywhere in e. */
  predicate Clean(e: Expr) {
    match e
    case Neg(a) => Clean(a)
    case Bin(_, a, b) => !IsConstant(a) && !IsConstant(b) && Clean(a) && Clean(b)
    case _ => true
  }

  /** All operands at level op are clean. They may be constants themselves. */
  predicate CleanChain(op: Op, e: Expr) {
    if IsOp(e, op) then CleanChain(op, e.l) && CleanChain(op, e.r) else Clean(e)
  }

  /** The constant that changes nothing in a chain, and the one that decides it. */
  function One(op: Op): Expr {
    Atom(UnitSymbol(op))
  }

  function Zero(op: Op): Expr {
    Atom(UnitSymbol(Dual(op)))
  }

  function Neutral(op: Op): Nest {
    Leaf(One(op))
  }

  function Absorbing(op: Op): Nest {
    Leaf(Zero(op))
  }

  /** The chain contains the constant that decides it. */
  predicate Decided(op: Op, e: Expr) {
    Count(op, e, Absorbing(op)) > 0
  }

  function Minus(a: nat, b: nat): nat {
    if a < b then 0 else a - b
  }

  /** Both trees branch as before, and their operands stay clean. */
  lemma {:induction false} LevelShape(op: Op, e1: Expr, e2: Expr)
    requires CleanChain(op, e1) && CleanChain(op, e2)
    ensures var (a, b) := EliminateLevel(op, e1, e2);
            && CleanChain(op, a) && CleanChain(op, b)
            && (IsOp(e1, op) <==> IsOp(a, op)) && (IsOp(e2, op) <==> IsOp(b, op))
    decreases Size(e1) + Size(e2)
  {
    if IsOp(e1, op) {
      var (l, y) := EliminateLevel(op, e1.l, e2);
      LevelShape(op, e1.l, e2);
      LevelShape(op, e1.r, y);
    } else if IsOp(e2, op) {
      var (y, l) := EliminateLevel(op, e1, e2.l);
      LevelShape(op, e1, e2.l);
      LevelShape(op, y, e2.r);
    }
  }

  /** What pairing x off leaves in two trees: the surplus of each. */
  predicate Paired(op: Op, x: Nest, e1: Expr, e2: Expr, a: Expr, b: Expr) {
    && Count(op, a, x) == Minus(Count(op, e1, x), Count(op, e2, x))
    && Count(op, b, x) == Minus(Count(op, e2, x), Count(op, e1, x))
  }

  /** x is no constant. */
  predicate IsProper(x: Nest) {
    x != Leaf(Atom(YES)) && x != Leaf(Atom(NO))
  }

  lemma LeavesPaired(op: Op, x: Nest, e1: Expr, e2: Expr)
    requires Clean(e1) && Clean(e2) && !IsOp(e1, op) && !IsOp(e2, op) && IsProper(x)
    ensures Paired(op, x, e1, e2, EliminateLevel(op, e1, e2).0, EliminateLevel(op, e1, e2).1)
    decreases Size(e1) + Size(e2), 4
  {
    CleanEqual(e1, e2);
  }

  lemma SurplusInTwoSteps(l: nat, r: nat, m: nat)
    ensures Minus(l, m) + Minus(r, Minus(m, l)) == Minus(l + r, m)
    ensures Minus(Minus(m, l), r) == Minus(m, l + r)
  {
  }

  lemma CountBin(op: Op, l: Expr, r: Expr, x: Nest)
    ensures Count(op, Bin(op, l, r), x) == Count(op, l, x) + Count(op, r, x)
  {
  }

  lemma PairedLeft(op: Op, x: Nest, e1: Expr, e2: Expr, l: Expr, y: Expr, r: Expr, z: Expr)
    requires IsOp(e1, op) && Paired(op, x, e1.l, e2, l, y) && Paired(op, x, e1.r, y, r, z)
    ensures Paired(op, x, e1, e2, Bin(op, l, r), z)
  {
    CountBin(op, e1.l, e1.r, x);
    CountBin(op, l, r, x);
    SurplusInTwoSteps(Count(op, e1.l, x), Count(op, e1.r, x), Count(op, e2, x));
  }

  lemma PairedRight(op: Op, x: Nest, e1: Expr, e2: Expr, y: Expr, l: Expr, z: Expr, r: Expr)
    requires IsOp(e2, op) && Paired(op, x, e1, e2.l, y, l) && Paired(op, x, y, e2.r, z, r)
    ensures Paired(op, x, e1, e2, z, Bin(op, l, r))
  {
    CountBin(op, e2.l, e2.r, x);
    CountBin(op, l, r, x);
    SurplusInTwoSteps(Count(op, e2.l, x), Count(op, e2.r, x), Count(op, e1, x));
  }

  /** __expr_eliminate_eq pairs off equal operands: what one tree has more often than the other is left over. */
  lemma {:induction false} LevelLeavesSurplus(op: Op, e1: Expr, e2: Expr, x: Nest)
    requires CleanChain(op, e1) && CleanChain(op, e2) && IsProper(x)
    ensures Paired(op, x, e1, e2, EliminateLevel(op, e1, e2).0, EliminateLevel(op, e1, e2).1)
    decreases Size(e1) + Size(e2), if IsOp(e1, op) || IsOp(e2, op) then 1 else 5
  {
    if IsOp(e1, op) {
      var (l, y) := EliminateLevel(op, e1.l, e2);
      var (r, z) := EliminateLevel(op, e1.r, y);
      LevelShape(op, e1.l, e2);
      LevelLeavesSurplus(op, e1.l, e2, x);
      LevelLeavesSurplus(op, e1.r, y, x);
      PairedLeft(op, x, e1, e2, l, y, r, z);
    } else if IsOp(e2, op) {
      var (y, l) := EliminateLevel(op, e1, e2.l);
      var (z, r) := EliminateLevel(op, y, e2.r);
      LevelShape(op, e1, e2.l);
      LevelLeavesSurplus(op, e1, e2.l, x);
      LevelLeavesSurplus(op, y, e2.r, x);
      PairedRight(op, x, e1, e2, y, l, z, r);
    } else {
      LeavesPaired(op, x, e1, e2);
    }
  }

  /** A constant is equal to itself only. */
  lemma ConstantEqual(op: Op, e1: Expr, e2: Expr)
    requires !IsOp(e1, op) && !IsOp(e2, op)
    ensures Count(op, EliminateLevel(op, e1, e2).0, Absorbing(op)) == Count(op, e1, Absorbing(op))
    ensures Count(op, EliminateLevel(op, e1, e2).1, Absorbing(op)) == Count(op, e2, Absorbing(op))
  {
    assert NestOf(e1) == Absorbing(op) <==> e1 == Zero(op);
    assert NestOf(e2) == Absorbing(op) <==> e2 == Zero(op);
  }

  /** The absorbing constant is never paired off. */
  lemma {:induction false} AbsorbingStays(op: Op, e1: Expr, e2: Expr)
    requires CleanChain(op, e1) && CleanChain(op, e2)
    ensures Count(op, EliminateLevel(op, e1, e2).0, Absorbing(op)) == Count(op, e1, Absorbing(op))
    ensures Count(op, EliminateLevel(op, e1, e2).1, Absorbing(op)) == Count(op, e2, Absorbing(op))
    decreases Size(e1) + Size(e2)
  {
    if IsOp(e1, op) {
      var (l, y) := EliminateLevel(op, e1.l, e2);
      LevelShape(op, e1.l, e2);
      AbsorbingStays(op, e1.l, e2);
      AbsorbingStays(op, e1.r, y);
    } else if IsOp(e2, op) {
      var (y, l) := EliminateLevel(op, e1, e2.l);
      LevelShape(op, e1, e2.l);
      AbsorbingStays(op, e1, e2.l);
      AbsorbingStays(op, y, e2.r);
    } else {
      ConstantEqual(op, e1, e2);
    }
  }

  lemma {:induction false} CleanIsNormal(e: Expr)
    requires Clean(e)
    ensures !Reducible(e)
  {
    if e.Bin? {
      CleanIsNormal(e.l);
      CleanIsNormal(e.r);
    }
  }

  /** expr_eliminate_yn makes a chain its absorbing constant, or drops the neutral ones and keeps all else. */
  lemma {:induction false} YnKeepsOthers(op: Op, e: Expr, x: Nest)
    requires CleanChain(op, e)
    ensures var r := EliminateYn(e);
            && CleanChain(op, r)
            && (Decided(op, e) ==> r == Zero(op))
            && (!Decided(op, e) ==> !Decided(op, r) && (r == One(op) || Count(op, r, Neutral(op)) == 0))
            && (!Decided(op, e) && x != Neutral(op) ==> Count(op, r, x) == Count(op, e, x))
  {
    if IsOp(e, op) {
      YnKeepsOthers(op, e.l, x);
      YnKeepsOthers(op, e.r, x);
      var l, r := EliminateYn(e.l), EliminateYn(e.r);
      JoinedYn(op, l, r, x);
      assert EliminateYn(e) == JoinConstants(op, l, r);
    } else {
      CleanIsNormal(e);
      EliminateYnNormal(e);
    }
  }

  /** One join of simplified operands. */
  lemma JoinedYn(op: Op, l: Expr, r: Expr, x: Nest)
    requires CleanChain(op, l) && CleanChain(op, r)
    requires (Decided(op, l) ==> l == Zero(op)) && (Decided(op, r) ==> r == Zero(op))
    requires (l == One(op) || Count(op, l, Neutral(op)) == 0)
    requires (r == One(op) || Count(op, r, Neutral(op)) == 0)
    ensures var j := JoinConstants(op, l, r);
            && CleanChain(op, j)
            && (Decided(op, l) || Decided(op, r) ==> j == Zero(op))
            && (!Decided(op, l) && !Decided(op, r) ==>
                  && !Decided(op, j) && (j == One(op) || Count(op, j, Neutral(op)) == 0)
                  && (x != Neutral(op) ==> Count(op, j, x) == Count(op, l, x) + Count(op, r, x)))
  {
  }

  lemma {:induction false} HasOperand(op: Op, e: Expr) returns (x: Nest)
    ensures Count(op, e, x) > 0
  {
    if IsOp(e, op) {
      x := HasOperand(op, e.l);
    } else {
      x := NestOf(e);
    }
  }

  ghost predicate OnlyNeutral(op: Op, e: Expr) {
    forall x :: x != Neutral(op) ==> Count(op, e, x) == 0
  }

  /** A chain without absorbing constant vanishes exactly if it has no operand but neutral ones. */
  lemma Vanishes(op: Op, e: Expr)
    requires CleanChain(op, e) && !Decided(op, e)
    ensures EliminateYn(e) == One(op) <==> OnlyNeutral(op, e)
  {
    if EliminateYn(e) == One(op) {
      forall x | x != Neutral(op) ensures Count(op, e, x) == 0 {
        YnKeepsOthers(op, e, x);
      }
    } else {
      var y := HasOperand(op, EliminateYn(e));
      YnKeepsOthers(op, e, y);
      assert y != Neutral(op);
    }
  }

  /** The two chains have the same operands equally often, neutral constants aside. */
  ghost predicate SameOperands(op: Op, e1: Expr, e2: Expr) {
    forall x :: x != Neutral(op) ==> Count(op, e1, x) == Count(op, e2, x)
  }

  /**
    expr_eq equates two chains exactly if both contain the absorbing constant, or neither does and they have
    the same operands equally often. Their operands may be chains again, as long as these have no constants.
   */
  lemma ChainsEqual(op: Op, e1: Expr, e2: Expr)
    requires IsOp(e1, op) && IsOp(e2, op) && CleanChain(op, e1) && CleanChain(op, e2)
    ensures ExprEq(e1, e2) <==>
              (Decided(op, e1) && Decided(op, e2)) || (!Decided(op, e1) && !Decided(op, e2) && SameOperands(op, e1, e2))
    decreases Size(e1) + Size(e2), 2
  {
    var (a, b) := EliminateLevel(op, e1, e2);
    LevelShape(op, e1, e2);
    AbsorbingStays(op, e1, e2);
    assert EliminateEq(e1, e2) == (EliminateYn(a), EliminateYn(b));
    YnKeepsOthers(op, a, Absorbing(op));
    YnKeepsOthers(op, b, Absorbing(op));
    if !Decided(op, e1) && !Decided(op, e2) {
      forall x | IsProper(x) ensures Paired(op, x, e1, e2, a, b) {
        LevelLeavesSurplus(op, e1, e2, x);
      }
      UndecidedEqual(op, e1, e2, a, b);
    }
  }

  lemma NothingLeftOf(op: Op, e1: Expr, e2: Expr, a: Expr, b: Expr, x: Nest)
    requires Paired(op, x, e1, e2, a, b)
    ensures Count(op, a, x) == 0 && Count(op, b, x) == 0 <==> Count(op, e1, x) == Count(op, e2, x)
  {
    var m, n := Count(op, e1, x), Count(op, e2, x);
    assert Minus(m, n) == 0 && Minus(n, m) == 0 <==> m == n;
  }

  lemma OneSided(op: Op, e1: Expr, e2: Expr, a: Expr, b: Expr, x: Nest)
    requires Paired(op, x, e1, e2, a, b)
    ensures Count(op, a, x) == 0 || Count(op, b, x) == 0
  {
  }

  ghost predicate AllPaired(op: Op, e1: Expr, e2: Expr, a: Expr, b: Expr) {
    forall x :: IsProper(x) ==> Paired(op, x, e1, e2, a, b)
  }

  /** Nothing is left of two chains exactly if they have the same operands equally often. */
  lemma NothingLeft(op: Op, e1: Expr, e2: Expr, a: Expr, b: Expr)
    requires AllPaired(op, e1, e2, a, b)
    requires !Decided(op, e1) && !Decided(op, e2) && !Decided(op, a) && !Decided(op, b)
    ensures OnlyNeutral(op, a) && OnlyNeutral(op, b) <==> SameOperands(op, e1, e2)
  {
    forall x | x != Neutral(op)
      ensures Count(op, a, x) == 0 && Count(op, b, x) == 0 <==> Count(op, e1, x) == Count(op, e2, x)
    {
      if x != Absorbing(op) {
        assert IsProper(x);
        NothingLeftOf(op, e1, e2, a, b, x);
      }
    }
    if OnlyNeutral(op, a) && OnlyNeutral(op, b) {
      forall x | x != Neutral(op) ensures Count(op, e1, x) == Count(op, e2, x) {
        assert Count(op, a, x) == 0 && Count(op, b, x) == 0;
      }
    }
    if SameOperands(op, e1, e2) {
      forall x | x != Neutral(op) ensures Count(op, a, x) == 0 && Count(op, b, x) == 0 {
        assert Count(op, e1, x) == Count(op, e2, x);
      }
    }
  }

  lemma UndecidedEqual(op: Op, e1: Expr, e2: Expr, a: Expr, b: Expr)
    requires AllPaired(op, e1, e2, a, b) && CleanChain(op, a) && CleanChain(op, b)
    requires !Decided(op, e1) && !Decided(op, e2) && !Decided(op, a) && !Decided(op, b)
    ensures EliminateYn(a).Atom? && EliminateYn(b) == EliminateYn(a) <==> SameOperands(op, e1, e2)
  {
    var c := EliminateYn(a);
    Vanishes(op, a);
    Vanishes(op, b);
    NothingLeft(op, e1, e2, a, b);
    if c.Atom? && EliminateYn(b) == c && c != One(op) {
      assert Count(op, c, Leaf(c)) == 1;
      YnKeepsOthers(op, a, Leaf(c));
      assert IsProper(Leaf(c));
      OneSided(op, e1, e2, a, b, Leaf(c));
      YnKeepsOthers(op, b, Leaf(c));
    }
  }

  /** Every operand of e is one of d as well, at least as often, constants aside. */
  ghost predicate IsContained(op: Op, e: Expr, d: Expr) {
    forall x :: IsProper(x) ==> Count(op, e, x) <= Count(op, d, x)
  }

  /** Eliminating against d makes the chain e neutral exactly if e is contained in d. */
  lemma ContainedVanishes(op: Op, d: Expr, e: Expr)
    requires IsOp(d, op) || IsOp(e, op)
    requires CleanChain(op, d) && CleanChain(op, e) && !Decided(op, e) && !IsOp(d, Dual(op)) && !IsOp(e, Dual(op))
    ensures EliminateEq(d, e).1 == One(op) <==> IsContained(op, e, d)
  {
    var (a, b) := EliminateLevel(op, d, e);
    LevelShape(op, d, e);
    AbsorbingStays(op, d, e);
    forall x | IsProper(x) ensures Paired(op, x, d, e, a, b) {
      LevelLeavesSurplus(op, d, e, x);
    }
    assert EliminateEq(d, e).1 == EliminateYn(b) by { NoOtherLevel(op, d, e); }
    Vanishes(op, b);
    if OnlyNeutral(op, b) {
      forall x | IsProper(x) ensures Count(op, e, x) <= Count(op, d, x) {
        assert Paired(op, x, d, e, a, b) && Count(op, b, x) == 0;
      }
    }
    if IsContained(op, e, d) {
      forall x | x != Neutral(op) ensures Count(op, b, x) == 0 {
        if x != Absorbing(op) { assert IsProper(x) && Paired(op, x, d, e, a, b); }
      }
    }
  }

  /** Pairing off leaves no operator in place of something that was none. */
  lemma {:induction false} StillNoLevel(op: Op, d: Expr, e: Expr)
    ensures var (a, b) := EliminateLevel(op, d, e); (!d.Bin? ==> !a.Bin?) && (!e.Bin? ==> !b.Bin?)
    decreases Size(d) + Size(e)
  {
    if IsOp(d, op) {
      StillNoLevel(op, d.l, e);
      StillNoLevel(op, d.r, EliminateLevel(op, d.l, e).1);
    } else if IsOp(e, op) {
      StillNoLevel(op, d, e.l);
      StillNoLevel(op, EliminateLevel(op, d, e.l).0, e.r);
    }
  }

  lemma NoOtherLevel(op: Op, d: Expr, e: Expr)
    requires (IsOp(d, op) || IsOp(e, op)) && !IsOp(d, Dual(op)) && !IsOp(e, Dual(op))
    requires CleanChain(op, d) && CleanChain(op, e)
    ensures EliminateEq(d, e).1 == EliminateYn(EliminateLevel(op, d, e).1)
  {
    var (a, b) := EliminateLevel(op, d, e);
    LevelShape(op, d, e);
    StillNoLevel(op, d, e);
    if IsOp(d, op) {
      assert IsOp(a, op) && (b.Bin? ==> IsOp(b, op));
    } else {
      assert !d.Bin?;
    }
  }

  /** A clean chain has no constants among its operands. */
  lemma {:induction false} CleanUndecided(op: Op, e: Expr)
    requires Clean(e)
    ensures CleanChain(op, e)
    ensures !IsConstant(e) ==> !Decided(op, e) && Count(op, e, Neutral(op)) == 0
  {
    if IsOp(e, op) {
      CleanUndecided(op, e.l);
      CleanUndecided(op, e.r);
    }
  }

  lemma SameMembers(op: Op, e1: Expr, e2: Expr)
    requires Count(op, e1, Neutral(op)) == Count(op, e2, Neutral(op))
    ensures SameOperands(op, e1, e2) <==> Members(op, e1) == Members(op, e2)
  {
    forall x ensures Members(op, e1)[x] == Count(op, e1, x) && Members(op, e2)[x] == Count(op, e2, x) {
      CountMembers(op, e1, x);
      CountMembers(op, e2, x);
    }
    if SameOperands(op, e1, e2) {
      forall x ensures Members(op, e1)[x] == Members(op, e2)[x] {
        if x != Neutral(op) { assert Count(op, e1, x) == Count(op, e2, x); }
      }
    }
  }

  /**
    On expressions without constant operands expr_eq is equality up to the order and grouping of operands, at
    every level. It is therefore an equivalence there.
   */
  lemma CleanEqual(e1: Expr, e2: Expr)
    requires Clean(e1) && Clean(e2)
    ensures ExprEq(e1, e2) <==> NestOf(e1) == NestOf(e2)
    decreases Size(e1) + Size(e2), 3
  {
    if e1.Neg? && e2.Neg? {
      CleanEqual(e1.arg, e2.arg);
    } else if e1.Bin? && IsOp(e2, e1.op) {
      var op := e1.op;
      CleanUndecided(op, e1);
      CleanUndecided(op, e2);
      ChainsEqual(op, e1, e2);
      SameMembers(op, e1, e2);
    }
  }

  /** Every operand of one chain is an operand of the other, neutral constants aside: the comment's reading. */
  ghost predicate EachInOther(op: Op, e1: Expr, e2: Expr) {
    forall x :: x != Neutral(op) ==> (Count(op, e1, x) > 0 <==> Count(op, e2, x) > 0)
  }

  ghost predicate NoRepeats(op: Op, e: Expr) {
    forall x :: x != Neutral(op) ==> Count(op, e, x) <= 1
  }

  /**
    The comment says that every operand of one chain has to equal some operand of the other. That is what the
    code decides exactly where the common operands occur equally often; among chains without repeated
    operands it always is.
   */
  lemma CommentHolds(op: Op, e1: Expr, e2: Expr)
    requires IsOp(e1, op) && IsOp(e2, op) && CleanChain(op, e1) && CleanChain(op, e2)
    requires !Decided(op, e1) && !Decided(op, e2)
    ensures ExprEq(e1, e2) ==> EachInOther(op, e1, e2)
    ensures EachInOther(op, e1, e2) ==> (ExprEq(e1, e2) <==> SameOperands(op, e1, e2))
    ensures NoRepeats(op, e1) && NoRepeats(op, e2) ==> (ExprEq(e1, e2) <==> EachInOther(op, e1, e2))
  {
    ChainsEqual(op, e1, e2);
    if SameOperands(op, e1, e2) {
      forall x | x != Neutral(op) ensures Count(op, e1, x) > 0 <==> Count(op, e2, x) > 0 {
        assert Count(op, e1, x) == Count(op, e2, x);
      }
    }
    if NoRepeats(op, e1) && NoRepeats(op, e2) && EachInOther(op, e1, e2) {
      forall x | x != Neutral(op) ensures Count(op, e1, x) == Count(op, e2, x) {
        assert Count(op, e1, x) <= 1 && Count(op, e2, x) <= 1;
      }
    }
  }

  /** The failing shape: a && a && b has the operands of a && b, but one of them twice. */
  lemma RepeatedOperandDiffers(a: Symbol, b: Symbol)
    requires a != b && a != YES && a != NO && b != YES && b != NO
    ensures var e1, e2 := Bin(AndOp, Bin(AndOp, Atom(a), Atom(a)), Atom(b)), Bin(AndOp, Atom(a), Atom(b));
            EachInOther(AndOp, e1, e2) && !ExprEq(e1, e2)
  {
    var e1, e2 := Bin(AndOp, Bin(AndOp, Atom(a), Atom(a)), Atom(b)), Bin(AndOp, Atom(a), Atom(b));
    var x, y := Leaf(Atom(a)), Leaf(Atom(b));
    ChainsEqual(AndOp, e1, e2);
    assert Count(AndOp, Atom(a), x) == 1 && Count(AndOp, Atom(b), x) == 0;
    assert Count(AndOp, e1.l, x) == 2 && Count(AndOp, e1, x) == 2 && Count(AndOp, e2, x) == 1;
    assert !SameOperands(AndOp, e1, e2);
    forall z: Nest
      ensures Count(AndOp, e1, z) > 0 <==> z == x || z == y
      ensures Count(AndOp, e2, z) > 0 <==> z == x || z == y
    {
      assert Count(AndOp, e1.l, z) == 2 * Count(AndOp, Atom(a), z);
    }
    assert !Decided(AndOp, e1);
  }

  /**
    Constants inside operands blur the picture: (a || n) && b is equated with a && b, although a || n is not
    with a.
   */
  lemma ConstantsBlur(a: Symbol, b: Symbol)
    requires a != b && a != YES && a != NO && b != YES && b != NO
    ensures var x := Bin(OrOp, Atom(a), Atom(NO));
            !ExprEq(x, Atom(a)) && ExprEq(Bin(AndOp, x, Atom(b)), Bin(AndOp, Atom(a), Atom(b)))
  {
    var x, p, q := Bin(OrOp, Atom(a), Atom(NO)), Atom(a), Atom(b);
    var e2 := Bin(AndOp, p, q);
    assert !ExprEq(x, p) && !ExprEq(x, q) && !ExprEq(q, p) && ExprEq(q, q);
    assert EliminateLevel(AndOp, x, p) == (x, p) && EliminateLevel(AndOp, x, q) == (x, q);
    assert EliminateLevel(AndOp, q, p) == (q, p) && EliminateLevel(AndOp, q, q) == (Atom(YES), Atom(YES));
    assert EliminateLevel(AndOp, x, e2) == (x, e2);
    assert EliminateLevel(AndOp, q, e2) == (Atom(YES), Bin(AndOp, p, Atom(YES)));
    assert EliminateLevel(AndOp, Bin(AndOp, x, q), e2) == (Bin(AndOp, x, Atom(YES)), Bin(AndOp, p, Atom(YES)));
    assert EliminateYn(x) == p && EliminateYn(p) == p;
    assert EliminateYn(Bin(AndOp, x, Atom(YES))) == p && EliminateYn(Bin(AndOp, p, Atom(YES))) == p;
  }
}
