# The Kconfig engine, modelled and proved

`support/kconfig` turns Kconfig files into a menu tree, keeps the values of all symbols consistent, and reads and
writes configurations. This project models its four parts, and the checksum of `mkpimage`, in Dafny and proves what
they promise. `dafny verify dfyconfig.toml` checks everything.

**Expressions** (`Tristate`, `Expr`, `ElimEq`, `Chains`, `Join`, `Dups`, `Transform`, `Submenu`, `ExprPrint`).
Dependencies are expressions over n < m < y with minimum, maximum and 2 - x. Every rewriting keeps the value of the
expression under every *admissible* valuation: bool symbols are never m, and the string value of a bool or tristate
symbol is n, m or y. Where a rewriting is only right under a further condition, that condition is stated as an
if-and-only-if with the failing case beside it. `Regular` collects the conditions on expressions: tristate symbols are
compared with constants only if these are y, m or n, no S_OTHER operand is ordered, and for some results `!` only
stands before atoms. A symbol is *spelled* if its string value is that of its tristate value. Undefined symbols, which
Kconfig accepts in conditions, are n but spell their own name; `Submenu` says what `expr_trans_compare` and the
submenu test make of them. `ExprPrint` reads printed expressions back.

The rewritings are functions on values first. `ExprHeap`, `ExprHeapEq` and `ExprHeapDups` run them in place, on nodes
that are overwritten and through pointers to pointers that alias, and are proved to do what the functions say and to
touch nothing else.

**Values** (`Config`, `Value`, `Engine`, `Settings`, `Choice`). `Config` defines the value of each symbol as a
function of the values it reads, without a cache, and proves that an acyclic table has exactly one solution. `Value`
states what the solution is from the declarations and the user values alone: each value is the lowest one allowed that
is not below its bounds, and texts are those of the user or of a default. `Engine` is the evaluator with its cache: a
symbol is marked valid before its value is final, and still every value handed out is that of the solution. `Settings`
says what changing a value does and which values a minimal configuration may leave out. `Choice` is one bool choice
with its values.

**Dependencies and menus** (`Propagate`, `CheckDeps`, `Menu`, `MenuLinks`, `Select`, `Floor`, `Cover`, `MenuTree`,
`MenuWalk`). Conditions are handed down the tree through the simplifier. The cycle check is the coloured depth-first
search with its stack. The tree is restructured twice: on values (`Menu`) and by relinking `next`, `list` and `parent`
in place (`MenuTree`), which is proved to give the same tree. `Select` is what happens to the symbols on the way:
every property gets its condition, selects and implies build up reverse and implied dependencies, and definitions the
direct ones. `Floor` proves what that means for values: how far a select as written is a floor, and that no symbol is
above n without a reason in the tree.

**Files** (`Escape`, `ConfFile`, `Defconfig`). The printer, the reader, string escaping, the in-place unescaping, and
`savedefconfig` from the walk over the menu to the text and back, and the lines of a full configuration and back.

**Checksum** (`Crc`). The table-driven loop of `mkpimage` against bit-serial division by the generator of section
3.2.9 of IEEE 802.3.

## Where the code differs from what is said or expected of it

- `conf_parse` (zconf.y lines 554-560) gives up if `sym_check_deps` returns a symbol. At the head of a cycle the
  result is reset, so the outermost call always returns NULL: cycles are printed but never counted
  (`Checking.Checker.CheckAll`).
- The cycle check does not look at range bounds or at the symbols of an imply, which the evaluator reads
  (`Checking.MutualImplyIsMissed`). It does not look at direct dependencies either (`Checking.EscapesExact`), but sees
  their symbols through the conditions of the definitions, so nothing else escapes it (`Covers.OnlyBoundsAndImplies`).
  The theorems on the evaluator therefore assume that its own read graph is acyclic; `Checking.CoveredExact` and
  `Checking.CheckedTableIsAcyclic` say when the check establishes that, and `Checking.WalkDecides` when it decides it.
- The comment on `expr_eq` asks every operand of one chain to equal some operand of the other. The code pairs them
  off, so it asks for the same operands equally often, at every level (`Chains.ChainsEqual`, `Chains.CleanEqual`).
  That is what the comment says where no operand is repeated (`Chains.CommentHolds`) and not for a && a && b
  (`Chains.RepeatedOperandDiffers`). Constants inside operands are simplified away only after the pairing
  (`Chains.ConstantsBlur`).
- The comment on `expr_trans_compare` turns `!A` into `A=n`. For spelled operands that is right if and only if A is
  not m (`Submenus.TransCompareNegationExact`). For an undefined A it is wrong (`Submenus.UndefinedNegation`). What it
  answers is exactly the *strict* value, in which !A is y where A is n and n otherwise
  (`Submenus.TransCompareStrict`). The submenu test is right for strict values (`Submenus.SupersetStrict`). For values
  it fails at a prompt under A=n and an item under (S || Q) && !A with A at m (`Submenus.NegatedSuperset`), and at a
  prompt under U and an item under S && U!=n with U undefined (`Submenus.UndefinedSuperset`).
- `expr_trans_bool` runs before the condition of a select is copied into `rev_dep`. A bool symbol at y that selects
  another if A!=n, with A at m, gives it a floor of m instead of y (`Floors.SelectFloor`, `Floors.SoftenedHappens`).
- A symbol defined once without a condition and once with one gets the second condition as its direct dependency,
  because NULL disappears in `expr_alloc_or` (`Propagation.DirectDependencyCovers`). It can be visible and y while its
  direct dependency is n (`Propagation.OverlookedHappens`).
- A default is not limited by the visibility of the prompt. A tristate symbol can therefore show a value that setting
  it to that very value takes away (`Settings.ShownValueKept`, `Settings.CappedHappens`). Writing `.config` and
  reading it back takes it away, too (`Settings.ConfigRoundTrip`).
- A minimal configuration does not restore every tristate configuration: a symbol whose visibility and select floor
  are both m and whose default is y is skipped and changes (`Settings.DefconfigRoundTrip`,
  `Settings.ForgottenHappens`). Apart from symbols that the user cannot change, only a number with an empty range is
  lost (`Settings.UnsteadyExact`).

## Model

| member | source | states |
|---|---|---|
| `Exprs.OppositeIsNegation` | buildroot-2020.08.1/support/kconfig/expr.c:1026-1104 | 2 - v of a comparison is the value of the opposite comparison exactly when the operands can be ordered or the relation is = or != |
| `Exprs.CompareWithConstant` | buildroot-2020.08.1/support/kconfig/expr.c:1049-1104 | comparing a bool or tristate symbol with y, m or n compares the tristate values |
| `Exprs.CompareStringsIsEquality` | buildroot-2020.08.1/support/kconfig/expr.c:1069-1085 | the string comparison answers 0 for equal strings only |
| `Exprs.CompareStringsOrder` | buildroot-2020.08.1/support/kconfig/expr.c:1074-1075 | the string comparison is negative exactly if at the first difference the first string has the lower character or ends there, and positive exactly the other way round |
| `Exprs.NumbersAreCompared` | buildroot-2020.08.1/support/kconfig/expr.c:1006-1023 | two operands that spell numbers, not both strings, are compared as numbers in the base of their types by each of the six relations |
| `Exprs.TextsAreCompared` | buildroot-2020.08.1/support/kconfig/expr.c:1069-1075 | two strings, and operands one of which spells no number, are compared as texts by each of the six relations |
| `Exprs.TristatesAreCompared` | buildroot-2020.08.1/support/kconfig/expr.c:1000-1005 | two bool or tristate symbols are compared as n < m < y by each of the six relations |
| `Exprs.OthersAreNotOrdered` | buildroot-2020.08.1/support/kconfig/expr.c:1076-1082 | an S_OTHER operand next to a number is in no order with it and only tested for equal text |
| `ElimEq.EliminateYnSound` | buildroot-2020.08.1/support/kconfig/expr.c:297-389 | removing constant operands keeps the value |
| `ElimEq.EliminateYnNormal` | buildroot-2020.08.1/support/kconfig/expr.c:297-389 | no reachable constant operand is left; the tree shrinks if it had one and is untouched otherwise |
| `ElimEq.EliminateLevelFactor` | buildroot-2020.08.1/support/kconfig/expr.c:141-191 | one level removes the same conjunct or disjunct from both trees, at every valuation |
| `ElimEq.EliminateEqClamp` | buildroot-2020.08.1/support/kconfig/expr.c:193-239 | at every valuation both old values are the same monotone function (a clamp) of the new values |
| `ElimEq.ExprEqSound` | buildroot-2020.08.1/support/kconfig/expr.c:244-295 | expressions that expr_eq equates have the same value under every admissible valuation |
| `ElimEq.CommonOperandsGo` | buildroot-2020.08.1/support/kconfig/expr.c:193-219 | no operand that expr_eq recognizes is left in both trees |
| `Chains.ChainsEqual` | buildroot-2020.08.1/support/kconfig/expr.c:244-295 | expr_eq equates two chains if and only if both contain the constant that decides them, or neither does and they have the same operands equally often, neutral constants aside; operands may be chains again, without constants inside |
| `Chains.CommentHolds` | buildroot-2020.08.1/support/kconfig/expr.c:244-249 | expr_eq implies what its comment says; the converse holds exactly where common operands occur equally often, so always without repeated operands |
| `Chains.RepeatedOperandDiffers` | buildroot-2020.08.1/support/kconfig/expr.c:244-249 | the failing case: a && a && b has the operands of a && b and is told apart from it |
| `Chains.CleanEqual` | buildroot-2020.08.1/support/kconfig/expr.c:244-295 | on expressions without constant operands expr_eq is equality up to the order and grouping of operands at every level, hence an equivalence |
| `Chains.ConstantsBlur` | buildroot-2020.08.1/support/kconfig/expr.c:193-239 | with constants inside operands it is not: (a or n) && b is equated with a && b, but a or n not with a |
| `Chains.ContainedVanishes` | buildroot-2020.08.1/support/kconfig/expr.c:193-239 | eliminating one chain against another leaves nothing of it if and only if its operands occur in the other at least as often |
| `Join.JoinSound` | buildroot-2020.08.1/support/kconfig/expr.c:420-580 | whatever expr_join_or and expr_join_and return has the value of the pair it replaces |
| `Join.JoinEqNeExact` | buildroot-2020.08.1/support/kconfig/expr.c:532-545 | the rule (a=b) && (a!=c) keeps the value if and only if a does not equal two different constants at once |
| `Join.JoinShape` | buildroot-2020.08.1/support/kconfig/expr.c:420-580 | a joined operand is smaller than the pair and no new level of the same kind |
| `Dups.RunPassSound` | buildroot-2020.08.1/support/kconfig/expr.c:588-642 | one pass over aliased slots keeps the value and the discipline on constants |
| `Dups.RunPassIdle` | buildroot-2020.08.1/support/kconfig/expr.c:588-642 | a pass makes no rewrite if and only if no two operands of any reachable level can be joined, and then changes nothing |
| `Dups.RunPassReducible` | buildroot-2020.08.1/support/kconfig/expr.c:656-678 | every rewrite leaves a constant for expr_eliminate_yn, so the next round starts from a smaller tree |
| `Dups.EliminateDupsCorrect` | buildroot-2020.08.1/support/kconfig/expr.c:644-678 | expr_eliminate_dups keeps the value under every admissible valuation |
| `Dups.EliminateDupsSettles` | buildroot-2020.08.1/support/kconfig/expr.c:644-678 | the result has no joinable pair at any reachable level; settled expressions are fixed points; idempotent |
| `Dups.SettledDistinct` | buildroot-2020.08.1/support/kconfig/expr.c:644-655 | in the result no symbol, comparison or negated symbol occurs twice among the operands of one level |
| `Dups.NothingToJoin` | buildroot-2020.08.1/support/kconfig/expr.c:420-655 | in the result no level outside a negation has two equal literals, a bool symbol next to its negation, or two tests of one symbol that one test says |
| `Dups.FirstGoes` | buildroot-2020.08.1/support/kconfig/expr.c:615-639 | of two joined operands the first becomes the constant and the second takes the result; nothing else changes |
| `Dups.LastStays` | buildroot-2020.08.1/support/kconfig/expr.c:644-655 | of a repeated operand the last occurrence stays |
| `Transforms.TransformSound` | buildroot-2020.08.1/support/kconfig/expr.c:680-841 | expr_transform keeps the value and yields negation normal form |
| `Transforms.TransformNormal` | buildroot-2020.08.1/support/kconfig/expr.c:680-841 | in the result ! only stands before symbols other than y, m and n and no bool symbol is tested for equality with these; expressions like that are exactly the fixed points |
| `Transforms.TransformIdempotent` | buildroot-2020.08.1/support/kconfig/expr.c:680-841 | a second expr_transform changes nothing |
| `Transforms.TransformNeedsOrder` | buildroot-2020.08.1/support/kconfig/expr.c:1076-1080 | with S_OTHER operands the flip of !(a<=b) changes the value |
| `Transforms.TransBoolKeepsVisible` | buildroot-2020.08.1/support/kconfig/expr.c:391-418 | on negation normal forms expr_trans_bool keeps whether the value is n |
| `Transforms.TransBoolNeedsNormalForm` | buildroot-2020.08.1/support/kconfig/expr.c:391-418 | the failing case: !(A!=n) at A=m is an exposed n and becomes m |
| `Transforms.TransBoolExact` | buildroot-2020.08.1/support/kconfig/expr.c:391-418 | expr_trans_bool keeps the value of every expression if and only if it is not exposed, that is, does not hang on tests A!=n of symbols at m; an exposed one becomes m |
| `Transforms.TransBoolVisibleExact` | buildroot-2020.08.1/support/kconfig/expr.c:391-418 | for any expression it keeps whether the value is n if and only if no n is exposed |
| `Transforms.TransformOrder` | buildroot-2020.08.1/support/kconfig/expr.c:680-841 | the symbols an expression is about stay in their order |
| `Submenus.TransCompareSound` | buildroot-2020.08.1/support/kconfig/expr.c:905-977 | expr_trans_compare answers the comparison with y or n wherever the symbols used as conditions are spelled and negated parts are two-valued |
| `Submenus.TransCompareNegationExact` | buildroot-2020.08.1/support/kconfig/expr.c:945-946 | for ! of an expression of spelled symbols the answer is right if and only if the operand is not m |
| `Submenus.DependsOnSymbolSound` | buildroot-2020.08.1/support/kconfig/expr.c:871-897 | expr_depends_symbol means that a non-n value needs a non-n symbol |
| `Submenus.SupersetSound` | buildroot-2020.08.1/support/kconfig/menu.c:463-481 | the superset test: where the item condition is non-n, so is the prompt condition, if the strict reading does not call the item off or the prompt on (so with two-valued negations); undefined symbols are admitted unless one is both used as a condition and compared |
| `Submenus.SubmenuSound` | buildroot-2020.08.1/support/kconfig/menu.c:448-483 | an item moves below a symbol only if a non-n condition of the item needs the symbol or its prompt condition to be non-n, under the same two hypotheses |
| `Submenus.NotContained` | buildroot-2020.08.1/support/kconfig/expr.c:843-869 | an expression that does not contain a symbol has the same value whatever the symbol is |
| `Submenus.ConjunctIsNoticed` | buildroot-2020.08.1/support/kconfig/expr.c:871-897 | a symbol that is an operand of a conjunction is always noticed |
| `Submenus.AtomAnswerExact` | buildroot-2020.08.1/support/kconfig/expr.c:969-970 | the comparison that replaces a symbol is right if and only if the string value is that of the constant exactly when the tristate value is |
| `Submenus.TableAtomExact` | buildroot-2020.08.1/support/kconfig/expr.c:969-970 | at the symbols of an evaluated table, != n is right for bool and tristate symbols, y, m, n and what spells n, and wrong for all others, such as undefined symbols |
| `Submenus.UndefinedNegation` | buildroot-2020.08.1/support/kconfig/expr.c:945-946 | the failing case: !FOO with FOO undefined is y, and its translation is n |
| `Submenus.UndefinedSuperset` | buildroot-2020.08.1/support/kconfig/menu.c:463-481 | the failing case: a prompt under U is taken to hold wherever S && U!=n does, with U undefined |
| `Submenus.TransCompareStrict` | buildroot-2020.08.1/support/kconfig/expr.c:905-977 | against n the answer is exactly the strict value, with !A worth y where A is n and n otherwise, for all expressions of spelled symbols |
| `Submenus.TransCompareExact` | buildroot-2020.08.1/support/kconfig/expr.c:905-977 | so it is the comparison of the value if and only if value and strict value agree on being n |
| `Submenus.SupersetStrict` | buildroot-2020.08.1/support/kconfig/menu.c:463-481 | where the item condition is strictly non-n, so is the prompt condition, whatever the negations |
| `Submenus.NegatedSuperset` | buildroot-2020.08.1/support/kconfig/menu.c:463-481 | the failing case: an item under (S or Q) && !A at m is put below S, whose prompt condition A=n is n |
| `Submenus.TwoValuedFaithful` | buildroot-2020.08.1/support/kconfig/expr.c:945-946 | where no negated part is m the strict reading changes nothing, so the superset test is right there |
| `Submenus.ContainsExact` | buildroot-2020.08.1/support/kconfig/expr.c:843-869 | an expression contains a symbol if and only if the symbol is used or compared in it |
| `Submenus.DependsExact` | buildroot-2020.08.1/support/kconfig/expr.c:871-897 | an expression depends on a symbol if and only if one of its conjuncts is the symbol or the test that it is y, m or not n |
| `Submenus.SupersetOfConjunctions` | buildroot-2020.08.1/support/kconfig/menu.c:463-481 | of conjunctions without constants the prompt condition is found to be a superset if and only if each of its operands is one of the item as well |
| `Submenus.UnconditionalTakesAll` | buildroot-2020.08.1/support/kconfig/menu.c:448-481 | a symbol whose prompt has no condition takes exactly the items that mention it |
| `ExprPrint.PrintedIsRead` | buildroot-2020.08.1/support/kconfig/expr.c:1106-1230 | the parentheses printed suffice: the grammar reads the tokens back as the expression with its chains joined to the left, which has the same value |
| `ExprPrint.LeftwardPrints` | buildroot-2020.08.1/support/kconfig/expr.c:1140-1230 | what is read back prints the same tokens again |
| `ExprPrint.ChainReads` | buildroot-2020.08.1/support/kconfig/zconf.y:504-515 | a printed expression is read up to its end as a chain of its operator |
| `ExprPrint.ParenthesesPrinted` | buildroot-2020.08.1/support/kconfig/expr.c:1140-1230 | exactly the operands that need parentheses get them |
| `ExprHeaps.ExprHeap.EliminateYn` | buildroot-2020.08.1/support/kconfig/expr.c:297-389 | overwriting nodes in place does to the tree what ElimEq.EliminateYn does to the expression, reuses only its own nodes, and leaves all others alone |
| `ExprHeaps.ExprHeap.TransBool` | buildroot-2020.08.1/support/kconfig/expr.c:391-418 | the same for expr_trans_bool |
| `ExprHeaps.ExprHeap.Transform` | buildroot-2020.08.1/support/kconfig/expr.c:680-841 | the same for expr_transform, whose result may be another node and may contain new ones |
| `ExprHeaps.ExprHeap.DeMorgan` | buildroot-2020.08.1/support/kconfig/expr.c:773-792 | pushing a negation inwards turns the node of the operator into the first of the two negations |
| `ExprHeapEq.EliminateLevel` | buildroot-2020.08.1/support/kconfig/expr.c:141-191 | comparing all operands of two trees through slots rewrites exactly these two trees, which stay apart, to what ElimEq.EliminateLevel says |
| `ExprHeapEq.EliminateEq` | buildroot-2020.08.1/support/kconfig/expr.c:193-239 | the same for expr_eliminate_eq |
| `ExprHeapEq.ExprEq` | buildroot-2020.08.1/support/kconfig/expr.c:244-295 | expr_eq answers as ElimEq.ExprEq and leaves every existing node as it was, working on copies |
| `ExprHeapEq.Copy` | buildroot-2020.08.1/support/kconfig/expr.c:65-104 | a copy is the same expression and consists of new nodes only |
| `ExprHeapDups.RowsSplit` | buildroot-2020.08.1/support/kconfig/expr.c:588-606 | walking a level branch by branch is walking its operands one after the other |
| `ExprHeapDups.Dups1` | buildroot-2020.08.1/support/kconfig/expr.c:588-642 | the two recursive walks through struct expr ** places of one tree, each seeing what the other has written, do exactly the pair-by-pair pass and count its rewrites |
| `ExprHeapDups.JoinPlaces` | buildroot-2020.08.1/support/kconfig/expr.c:615-639 | two different places: a constant goes into the first and the joined tree into the second, or nothing changes |
| `ExprHeapDups.JoinNodes` | buildroot-2020.08.1/support/kconfig/expr.c:420-580 | joining reads the two trees without changing them and builds the result from new nodes |
| `ExprHeapDups.DupsWithin` | buildroot-2020.08.1/support/kconfig/expr.c:615-620 | a pass over the tree at a node, both walks starting there, turns it into that of the pass on values, in its own and new nodes |
| `ExprHeapDups.EliminateDups` | buildroot-2020.08.1/support/kconfig/expr.c:656-678 | the loop over passes does in place what Dups.EliminateDups does, leaves all other nodes alone and restores trans_count |
| `Configs.SolutionUnique` | buildroot-2020.08.1/support/kconfig/symbol.c:357-498 | an acyclic table has at most one assignment in which every symbol has the value its definition gives |
| `Configs.SolutionExists` | buildroot-2020.08.1/support/kconfig/symbol.c:357-498 | and at least one |
| `Configs.SolutionAdmissible` | buildroot-2020.08.1/support/kconfig/symbol.c:442-444 | evaluated configurations are admissible: bool symbols are never m, so the theorems on the simplifier apply |
| `Configs.CalcReads` | buildroot-2020.08.1/support/kconfig/symbol.c:209-270 | the value of a symbol depends on the symbols it reads and nothing else |
| `Configs.RangeRespected` | buildroot-2020.08.1/support/kconfig/symbol.c:155-187 | the value of an int or hex symbol lies within the range that applies |
| `Configs.PromptIsMaximum` | buildroot-2020.08.1/support/kconfig/symbol.c:219-234 | the visibility is the highest condition of the prompts |
| `Configs.DefaultIsFirst` | buildroot-2020.08.1/support/kconfig/symbol.c:115-125 | the default that counts is the first one whose condition is not n |
| `Configs.RangeIsFirst` | buildroot-2020.08.1/support/kconfig/symbol.c:127-137 | the range that counts is the first one whose condition is not n |
| `Values.VisibilityExact` | buildroot-2020.08.1/support/kconfig/symbol.c:209-241 | no prompt condition exceeds the visibility, and it is the condition of some prompt, m counting as y for what cannot be m |
| `Values.DependenciesExact` | buildroot-2020.08.1/support/kconfig/symbol.c:242-270 | the three dependencies are worth their expressions, m counting as y for bool symbols; an imply is switched off by a direct dependency of n |
| `Values.UserValueCounts` | buildroot-2020.08.1/support/kconfig/symbol.c:412-444 | the value of a visible symbol set by the user is the lowest it can have that is neither below what the user wants, as far as visible, nor below the reverse dependency |
| `Values.DefaultCounts` | buildroot-2020.08.1/support/kconfig/symbol.c:421-444 | otherwise the first default that applies, limited by its condition, and the imply take the place of the user value |
| `Values.TextCounts` | buildroot-2020.08.1/support/kconfig/symbol.c:446-462 | without a range the value of a string, int or hex symbol is the text of the user if visible, or else that of the symbol the first applicable default names |
| `Values.NumberCounts` | buildroot-2020.08.1/support/kconfig/symbol.c:155-187 | with a range it is that text if the number is in the range, or else the nearest bound, printed |
| `Values.UserTextCounts` | buildroot-2020.08.1/support/kconfig/symbol.c:450-453 | the user text is the value of a visible symbol unless a range applies that the number is not in |
| `Values.UndefinedIsName` | buildroot-2020.08.1/support/kconfig/symbol.c:361-392 | a symbol without type is n, reads as its name and is not written |
| `Values.WriteExact` | buildroot-2020.08.1/support/kconfig/symbol.c:396-489 | SYMBOL_WRITE: visible or not n for bool and tristate, visible or with a default that names a symbol for texts, never for AUTO |
| `Values.NoLineForDefault` | buildroot-2020.08.1/support/kconfig/confdata.c:696-698 | a string or number that shows its default as it stands has no line in a minimal file |
| `Values.LineNeeded` | buildroot-2020.08.1/support/kconfig/confdata.c:688-715 | no line of a minimal file can be left out: each is needed for its value, but for a number whose range makes its default into the value shown |
| `Values.InConfigExact` | buildroot-2020.08.1/support/kconfig/confdata.c:796-810 | .config has a line for exactly the symbols that are visible or not n, or texts with a default that names a symbol, unless AUTO |
| `Engines.Engine.ExprCalcValue` | buildroot-2020.08.1/support/kconfig/expr.c:1026-1104 | memoised evaluation of an expression gives its value under the uncached definition |
| `Engines.Engine.CalcVisibility` | buildroot-2020.08.1/support/kconfig/symbol.c:209-270 | visibility, direct, reverse and implied dependency are those of the uncached definition |
| `Engines.Engine.CalcTyped` | buildroot-2020.08.1/support/kconfig/symbol.c:385-498 | a typed symbol marked valid before it is final ends with its uncached value; entries of its rank and above are untouched |
| `Engines.Engine.CalcValue` | buildroot-2020.08.1/support/kconfig/symbol.c:357-498 | sym_calc_value terminates and leaves the symbol valid with its uncached value, whatever was cached before |
| `Engines.Engine.GetValue` | buildroot-2020.08.1/support/kconfig/symbol.c:357-498 | calls in any order and number give the values of the one solution |
| `Engines.Engine.ClearAllValid` | buildroot-2020.08.1/support/kconfig/symbol.c:500-509 | after clearing, every non-constant symbol is recalculated, and the engine is ready |
| `Engines.Engine.SetTristateValue` | buildroot-2020.08.1/support/kconfig/symbol.c:532-566 | a value other than the one shown is accepted if and only if the next evaluation gives it, it is not above the visibility and no select holds the symbol; the value shown always, and the caches kept for it are right if and only if the symbol is not capped |
| `Settings.AcceptedValueIsReached` | buildroot-2020.08.1/support/kconfig/symbol.c:511-530 | a value that sym_tristate_within_range accepts is the value of the next solution |
| `Settings.LowerUnaffected` | buildroot-2020.08.1/support/kconfig/symbol.c:532-566 | setting a symbol changes no other symbol of the same or lower rank |
| `Settings.ShownValueKept` | buildroot-2020.08.1/support/kconfig/symbol.c:536-565 | setting a symbol to the value it shows leaves the solution as it is if and only if the value is not a default above the visibility |
| `Settings.CappedHappens` | buildroot-2020.08.1/support/kconfig/symbol.c:424-430 | the failing case: prompt at m, default y |
| `Settings.SavedValueSame` | buildroot-2020.08.1/support/kconfig/symbol.c:732-801 | the saved or default value of any symbol reproduces it if and only if it is not forgotten, AUTO symbols and ranges included |
| `Settings.DefconfigRoundTrip` | buildroot-2020.08.1/support/kconfig/confdata.c:667-738 | write a minimal file, read it, evaluate: the same configuration if and only if no symbol is forgotten, for every acyclic table |
| `Settings.NothingForgotten` | buildroot-2020.08.1/support/kconfig/confdata.c:689-716 | invisible symbols are never forgotten; nor, unless AUTO, are bool symbols and unselected texts whose range accepts its bounds |
| `Settings.TidyingKeepsValues` | buildroot-2020.08.1/support/kconfig/confdata.c:448-458 | dropping the user values of invisible symbols after reading changes no value |
| `Settings.DefaultShown` | buildroot-2020.08.1/support/kconfig/symbol.c:732-801 | for bool and tristate symbols sym_get_string_default gives the value of an evaluation without user value |
| `Settings.UnsteadyExact` | buildroot-2020.08.1/support/kconfig/symbol.c:155-187 | where printed bounds read back, validating a value twice changes it if and only if its range is empty |
| `Settings.ForgottenHappens` | buildroot-2020.08.1/support/kconfig/confdata.c:688-694 | the failing case: visibility and select at m, user value m, default y |
| `Settings.RestoredExact` | buildroot-2020.08.1/support/kconfig/symbol.c:357-498 | other user values give the same configuration if and only if each symbol by itself keeps its value |
| `Settings.ConfigRoundTrip` | buildroot-2020.08.1/support/kconfig/confdata.c:740-830 | write .config, read it, evaluate: the same configuration if and only if no symbol is lost |
| `Settings.LostIsCapped` | buildroot-2020.08.1/support/kconfig/symbol.c:412-444 | a bool or tristate symbol that is not AUTO is lost if and only if it is capped |
| `Settings.WithinRangeExact` | buildroot-2020.08.1/support/kconfig/symbol.c:511-530 | the accepted values are exactly those not above the visibility that the next evaluation gives, if no select holds the symbol |
| `Settings.LostIsUnsteady` | buildroot-2020.08.1/support/kconfig/symbol.c:446-462 | a string or number that is not AUTO is lost if and only if it is visible and validation does not leave it as it is |
| `Choices.Choice.CalcChoice` | buildroot-2020.08.1/support/kconfig/symbol.c:304-334 | the selected value is the one picked by the user if it is visible, else the first default that applies and is visible, else the first visible value; the user flag survives if and only if every visible value has been set |
| `Choices.Choice.ChoiceDefault` | buildroot-2020.08.1/support/kconfig/symbol.c:278-302 | the first applicable visible default, else the first visible value |
| `Choices.Choice.Evaluate` | buildroot-2020.08.1/support/kconfig/symbol.c:402-478 | after evaluating choice and values the selected value is y and the others n; the mode is stable if and only if no visible value is new to the user |
| `Choices.Choice.ExactlyOne` | buildroot-2020.08.1/support/kconfig/symbol.c:408-410 | a choice that is on and offers a value has exactly one value at y, a visible one |
| `Choices.Choice.SetYes` | buildroot-2020.08.1/support/kconfig/symbol.c:532-566 | a choice value can be set to y if and only if it is visible or y; the choice and all visible values then count as set by the user |
| `Choices.Choice.Choose` | buildroot-2020.08.1/support/kconfig/symbol.c:547-563 | setting another visible value and evaluating again moves the y to it |
| `Choices.Choice.FallbackIs` | buildroot-2020.08.1/support/kconfig/symbol.c:278-302 | the fallback of a choice is the first default that applies and is visible, or else the first visible value |
| `Propagation.RewriteMMeaning` | buildroot-2020.08.1/support/kconfig/menu.c:81-104 | rewrite_m reads m as m && MODULES |
| `Propagation.InheritMeaning` | buildroot-2020.08.1/support/kconfig/menu.c:348-352 | a child condition is the conjunction of the inherited and its own condition |
| `Propagation.PropertyConditionMeaning` | buildroot-2020.08.1/support/kconfig/menu.c:392-398 | a property is visible at all exactly if the node condition and its own are; for tristate symbols and plain menus it is worth the minimum of the two |
| `Propagation.DirectDependencyMeaning` | buildroot-2020.08.1/support/kconfig/menu.c:496 | dir_dep is the maximum of the conditions of the definitions that have one |
| `Propagation.DirectDependencyCovers` | buildroot-2020.08.1/support/kconfig/menu.c:496 | dir_dep covers every definition if and only if no unconditional definition is overlooked |
| `Propagation.PropertyNeedsDependency` | buildroot-2020.08.1/support/kconfig/menu.c:392-398 | a prompt or default that applies needs a non-n direct dependency |
| `Propagation.ValueNeedsDependency` | buildroot-2020.08.1/support/kconfig/symbol.c:412-444 | a bool or tristate symbol with a non-n value has a non-n direct or reverse dependency |
| `Propagation.PropertyConditionExact` | buildroot-2020.08.1/support/kconfig/menu.c:392-398 | the condition of a property is worth the minimum of the node condition and its own, but m where the symbol is not tristate and the combined condition is exposed; then the minimum is y |
| `Propagation.OverlookedHappens` | buildroot-2020.08.1/support/kconfig/menu.c:496 | the failing case in an evaluated table: the symbol is visible and y while its direct dependency is n |
| `Propagation.VisibilityKept` | buildroot-2020.08.1/support/kconfig/symbol.c:219-235 | the visibility of a symbol that is not tristate is the same with and without expr_trans_bool |
| `Checking.Checker.CheckDeps` | buildroot-2020.08.1/support/kconfig/symbol.c:1312-1344 | one visit keeps the stack a path, reports only cycles, and returns a symbol only while it is on the stack |
| `Checking.Checker.CheckAll` | buildroot-2020.08.1/support/kconfig/symbol.c:1206-1344 | a run over all symbols reports a cycle if and only if there is one, clears every CHECK flag, and never returns a symbol at the top |
| `Checking.Checker.PrintRecursive` | buildroot-2020.08.1/support/kconfig/symbol.c:1128-1204 | the reported part of the stack starts at the symbol that was met again |
| `Checking.CycleHasNoRank` | buildroot-2020.08.1/support/kconfig/symbol.c:1312-1344 | a relation with a cycle has no rank |
| `Checking.CheckedTableIsAcyclic` | buildroot-2020.08.1/support/kconfig/symbol.c:1241-1273 | where no symbol with a type escapes the walk, a run without report makes the evaluator theorems apply |
| `Checking.MutualImplyIsMissed` | buildroot-2020.08.1/support/kconfig/symbol.c:1247-1267 | two symbols that imply each other are a cycle for the evaluator, and both escape the walk |
| `Checking.EscapesExact` | buildroot-2020.08.1/support/kconfig/symbol.c:1241-1273 | what the evaluator reads and the walk does not visit is, among what is not walked, exactly the bounds of ranges and the symbols of imply and of the direct dependency |
| `Checking.CoveredExact` | buildroot-2020.08.1/support/kconfig/symbol.c:1241-1273 | a declaration is covered if and only if those of these symbols that have a type occur in what is walked; constant bounds do no harm |
| `Checking.WalkDecides` | buildroot-2020.08.1/support/kconfig/symbol.c:1241-1273 | where everything read is walked and nothing else is, a run reports no cycle if and only if the read graph has none |
| `Checking.WalkedExact` | buildroot-2020.08.1/support/kconfig/symbol.c:1241-1273 | the walk goes to the symbols of the reverse dependency, of the conditions of properties other than selects, and of default values, and nowhere else |
| `Menus.FinalizePreorder` | buildroot-2020.08.1/support/kconfig/menu.c:296-577 | no node is lost, duplicated or reordered, and conditions are those handed down without restructuring |
| `Menus.FinalizeTexted` | buildroot-2020.08.1/support/kconfig/menu.c:567-576 | afterwards no node below has children without prompt text |
| `Menus.AbsorbMaximal` | buildroot-2020.08.1/support/kconfig/menu.c:454-488 | the submenu is the maximal run of following items that depend on the symbol |
| `Menus.FlattenIdle` | buildroot-2020.08.1/support/kconfig/menu.c:567-576 | where every parent has text nothing moves |
| `Menus.SubmenuCreated` | buildroot-2020.08.1/support/kconfig/menu.c:448-494 | a leaf gets a submenu exactly if the next item belongs there, and leaves no such item behind it |
| `Menus.HandDownMeaning` | buildroot-2020.08.1/support/kconfig/menu.c:348-398 | what a node hands to one child: the minimum of the conditions, and a prompt visible exactly where all conditions hold |
| `Menus.PlainBounded` | buildroot-2020.08.1/support/kconfig/menu.c:303-425 | in the whole tree nothing is visible whose enclosing menus and ifs are not |
| `Menus.ChildCondition` | buildroot-2020.08.1/support/kconfig/menu.c:331-352 | a child condition is worth the minimum of its own and what encloses it: the choice symbol, the prompt condition, or the condition of the node |
| `Menus.FinalizeSwitched` | buildroot-2020.08.1/support/kconfig/menu.c:296-425 | in the finished tree a node is on if and only if its own condition and those of all menus, ifs and choices around it hold, and so is its prompt |
| `Menus.AbsorbedReachable` | buildroot-2020.08.1/support/kconfig/menu.c:448-488 | an item of a submenu is visible only where the symbol is not n or its prompt condition holds |
| `Menus.NextItemAbsorbed` | buildroot-2020.08.1/support/kconfig/menu.c:454-483 | the item after a symbol starts its submenu if the symbol is one of its conjuncts, and only if it mentions the symbol |
| `Selects.EveryNodeOnce` | buildroot-2020.08.1/support/kconfig/menu.c:343-414 | the loop over properties runs for every node below the root, as often as the node is in the finished tree, with its final condition |
| `Selects.FinalCondition` | buildroot-2020.08.1/support/kconfig/menu.c:367-398 | every property written at a node ends up with the combined condition of that node and its own |
| `Selects.PromptsAgree` | buildroot-2020.08.1/support/kconfig/menu.c:354-365 | the prompt of a node and the prompt in the list of its symbol stay the same property |
| `Selects.DependencyIsMaximum` | buildroot-2020.08.1/support/kconfig/menu.c:404-412 | rev_dep (implied) of a symbol is worth the maximum, over all selects (implies) of it in the finished tree, of the minimum of the selecting symbol and the final condition |
| `Selects.DirectIsDependency` | buildroot-2020.08.1/support/kconfig/menu.c:496 | dir_dep is the or of the conditions of the definitions in the order of the walk |
| `Floors.DefinitionsExact` | buildroot-2020.08.1/support/kconfig/menu.c:496 | these conditions are exactly those of the nodes of the symbol in the finished tree |
| `Floors.PromiseKept` | buildroot-2020.08.1/support/kconfig/menu.c:392-412 | the dependency reaches what a select promises as written if and only if that select is not softened or another select of the symbol is at y and not softened |
| `Floors.SelectFloor` | buildroot-2020.08.1/support/kconfig/menu.c:404-412 | a selected symbol has at least its reverse dependency, and this is at least the minimum of selector, node condition and select condition if and only if the symbol is bool, the select is not softened, or another one is at y and not softened |
| `Floors.ImplyFloor` | buildroot-2020.08.1/support/kconfig/symbol.c:432-435 | the same for imply where the user has no say and the direct dependency is non-n; otherwise imply does nothing |
| `Floors.SoftenedHappens` | buildroot-2020.08.1/support/kconfig/menu.c:396-407 | the failing case: a bool symbol at y selects another if A!=n, and A at m makes the floor m |
| `Floors.BecomesFinalized` | buildroot-2020.08.1/support/kconfig/menu.c:343-414 | what menu_finalize leaves in a symbol satisfies the premises of the theorems on direct dependencies |
| `Floors.ValueHasReason` | buildroot-2020.08.1/support/kconfig/symbol.c:412-444 | a bool or tristate symbol above n has a node whose condition is non-n, or a select in the tree whose symbol, node and condition are non-n |
| `Covers.DirectDependencyWalked` | buildroot-2020.08.1/support/kconfig/menu.c:47-63 | every symbol of a direct dependency, but for the constant n, is walked through the property that each definition has |
| `Covers.OnlyBoundsAndImplies` | buildroot-2020.08.1/support/kconfig/symbol.c:1241-1273 | in what menu_finalize leaves, exactly range bounds and symbols of an imply that occur nowhere else escape the walk |
| `MenuTrees.MenuTree.MenuFinalize` | buildroot-2020.08.1/support/kconfig/menu.c:296-577 | relinking next, list and parent in place yields the restructured tree with consistent parent links and touches no other node; the properties and dependencies of the symbols go through exactly the events of Selects.Events |
| `MenuTrees.MenuTree.HandDownList` | buildroot-2020.08.1/support/kconfig/menu.c:343-414 | the loop that hands conditions to the children and treats the properties of their symbols |
| `MenuTrees.MenuTree.CollectSubmenu` | buildroot-2020.08.1/support/kconfig/menu.c:452-494 | collecting the run and hanging it below the symbol |
| `MenuTrees.MenuTree.FlattenList` | buildroot-2020.08.1/support/kconfig/menu.c:498-577 | splicing the children of textless nodes behind them while the list is walked |
| `MenuTrees.MenuTree.TreatProps` | buildroot-2020.08.1/support/kconfig/menu.c:354-413 | the loop over the properties of a node does to the symbols what Selects.Treat says |
| `MenuWalks.Walk` | buildroot-2020.08.1/support/kconfig/confdata.c:792-825 | the list/next/parent walk terminates and visits the descendants of the root, each once, in preorder |
| `Escaping.UnescapeEscape` | buildroot-2020.08.1/support/kconfig/symbol.c:962-1003 | unescaping inverts escaping for every string, whatever follows the closing quote |
| `Escaping.EscapedSize` | buildroot-2020.08.1/support/kconfig/symbol.c:962-980 | the size computed first is that of the escaped string with its terminator |
| `Escaping.EscapeInto` | buildroot-2020.08.1/support/kconfig/symbol.c:981-1003 | the buffer is filled exactly with the escaped string |
| `Escaping.UnescapeInPlace` | buildroot-2020.08.1/support/kconfig/confdata.c:161-172 | the memmove loop accepts what Unescape accepts and leaves its result in the buffer |
| `Escaping.EscapedCharacters` | buildroot-2020.08.1/support/kconfig/symbol.c:962-1003 | quotes and backslashes are escaped and no other characters |
| `Escaping.UnescapedCharacters` | buildroot-2020.08.1/support/kconfig/confdata.c:160-174 | a backslash stands for the character after it, the first other quote ends the string, and without one there is none |
| `ConfFiles.ReadSimple` | buildroot-2020.08.1/support/kconfig/confdata.c:312-401 | the line loop reads what the lines say one by one |
| `ConfFiles.ReadPrinted` | buildroot-2020.08.1/support/kconfig/confdata.c:487-507 | a printed line is read back as the value printed |
| `ConfFiles.ReadPrintAll` | buildroot-2020.08.1/support/kconfig/confdata.c:312-401 | a list of printed lines is read back as the assignments in order |
| `ConfFiles.DefconfigReadsBack` | buildroot-2020.08.1/support/kconfig/confdata.c:667-738 | reading the text of a minimal file gives the saved user values if and only if every symbol to be written has a menu node |
| `ConfFiles.SaveDefconfig` | buildroot-2020.08.1/support/kconfig/confdata.c:667-738 | the whole trip through text: the same configuration if and only if no symbol is forgotten |
| `ConfFiles.ReadPrintDistinct` | buildroot-2020.08.1/support/kconfig/confdata.c:312-401 | printed lines of distinct symbols, read back, give each its value and no value to any other |
| `ConfFiles.SaveConfig` | buildroot-2020.08.1/support/kconfig/confdata.c:740-830 | the same through the lines of the file |
| `ConfFiles.ValidIntExact` | buildroot-2020.08.1/support/kconfig/symbol.c:598-610 | an int is a number in decimal, with or without a minus sign, and nothing else |
| `ConfFiles.ValidHexExact` | buildroot-2020.08.1/support/kconfig/symbol.c:611-619 | a hex number is at least one hexadecimal digit of either case, with or without 0x, and nothing else |
| `ConfFiles.AssignmentIsRead` | buildroot-2020.08.1/support/kconfig/confdata.c:347-373 | an assignment line, whatever its end, sets its symbol to the value its text stands for by its type, and to nothing otherwise |
| `ConfFiles.UnsetIsRead` | buildroot-2020.08.1/support/kconfig/confdata.c:315-346 | a line saying that a bool or tristate symbol is not set makes it n, whatever follows |
| `ConfFiles.NothingElseIsRead` | buildroot-2020.08.1/support/kconfig/confdata.c:312-401 | no line of any other form sets anything |
| `ConfFiles.LineByLine` | buildroot-2020.08.1/support/kconfig/confdata.c:312-401 | each line sets what it says and leaves everything else |
| `ConfFiles.LastLineCounts` | buildroot-2020.08.1/support/kconfig/confdata.c:312-401 | the last line of a symbol counts |
| `ConfFiles.PrintedForms` | buildroot-2020.08.1/support/kconfig/confdata.c:487-507 | the form of a line by type and value |
| `ConfFiles.DefconfigOrder` | buildroot-2020.08.1/support/kconfig/confdata.c:680-738 | each symbol has at most one line, in the order of its first menu node |
| `Defconfigs.GetStringDefault` | buildroot-2020.08.1/support/kconfig/symbol.c:732-801 | the default looked up through the cache is that of the solution |
| `Defconfigs.WriteDefconfig` | buildroot-2020.08.1/support/kconfig/confdata.c:667-738 | walk, evaluator and printer together write the lines given by the solution and the preorder of the tree, each symbol once |
| `Defconfigs.SavedAndLoaded` | buildroot-2020.08.1/support/kconfig/confdata.c:667-738 | that text, read back and evaluated, gives the old configuration if and only if no symbol is forgotten |
| `Defconfigs.SavedText` | buildroot-2020.08.1/support/kconfig/confdata.c:628-647 | the text printed is that of the saved value |
| `CrcRegister.SerialConcat` | buildroot-2020.08.1/package/mkpimage/mkpimage.c:150-158 | a message can be divided in two pieces |
| `CrcRegister.ByteByRemainder` | buildroot-2020.08.1/package/mkpimage/mkpimage.c:154-155 | eight bit-serial steps are one shift by a byte and one remainder |
| `CrcTable.TableCorrect` | buildroot-2020.08.1/package/mkpimage/mkpimage.c:104-148 | all 256 table entries are the remainders of their index |
| `CrcTable.ByteByTable` | buildroot-2020.08.1/package/mkpimage/mkpimage.c:154-155 | one turn of the loop divides one byte |
| `CrcTable.Crc32` | buildroot-2020.08.1/package/mkpimage/mkpimage.c:150-158 | for every buffer and start value the table-driven loop equals bit-serial division by 0x04c11db7 |

## Left out

- Choices.Choice.Evaluate: one bool choice whose values have no defaults, selects or implies of their own (the code
  warns against such defaults); the conditions of prompts and defaults come from outside. Tristate choices are not
  modelled, and neither `Config` nor `Engine` contains choices.
- The choice parts of `menu_finalize`: types of choice values, the extra condition of bool values in a tristate
  choice, SYMBOL_CHOICEVAL, and the E_LIST of a choice. A choice node is told apart only where it hands down its
  symbol as the condition of its children and where a minimal configuration skips it. The reverse dependency of lines
  600-604 is part of `Choices.Choice.CalcMode`.
- ConfFiles.SaveDefconfig: assumes of the C library that `sprintf` prints numbers that `sym_string_valid` accepts
  (`ConfFiles.ShowsNumbers`).
- ConfFiles.SaveConfig: for the lines of symbols; the headings and menu titles that `conf_write` puts between them are
  not part of the text.

- ConfFiles.ReadPrintAll: string values hold no newline, and a number is printed only if `sym_string_valid` accepts
  it.
- ConfFiles.ReadSimple: the choice bookkeeping after each line is left out. It reads into empty user values; a symbol
  that is set twice and the change counter are not reported, and a last line "#" without newline is read like any
  other comment.
- Defconfigs.WriteDefconfig: SYMBOL_WRITE is cleared in a set beside the engine, so that the engine's own flags stay
  those of the evaluation.
- Engines.Engine.CalcValue: `modules_val` does not change during a run; SYMBOL_CHANGED, MENU_CHANGED and the warning
  on unmet dependencies have no effect on values and are not kept.
- Engines.Engine.SetTristateValue: only for bool and tristate symbols, the only ones its callers pass.
- ExprHeaps.ExprHeap.EliminateYn: nodes are indices into a growing list of cells, and freeing a node is not modelled.
- `rewrite_m`, `expr_trans_compare` and `expr_alloc_and` build or return trees and are modelled on values only.
- ExprPrint.PrintedIsRead: on tokens; spaces, quoting and the width of lines are left out, and so are E_LIST and
  E_RANGE.
- Propagation.RewriteMMeaning: `modules` is a parameter, since the MODULES symbol is fixed while menus are finalized.
- Menus.FinalizePreorder: of the properties of a symbol the tree carries the prompt of the node; all properties are in
  the lists of `Selects.Symbols`, and `Selects.PromptsAgree` keeps the two the same. Warnings and `sym_check_prop` are
  left out.
- Floors.SelectFloor: for symbols that are neither choices nor choice values, whose dependencies `menu_finalize`
  extends further.
- Chains.ChainsEqual: for chains whose operands contain no y or n as an operand inside; `Chains.ConstantsBlur` shows
  that otherwise it need not hold, and what holds for all expressions is `ElimEq.ExprEqSound`.
- MenuTrees.MenuTree.MenuFinalize: the choice parts above are not part of it. Menus are indices into arrays of links
  instead of pointers.
- CrcTable.Table: the 256 constants are grouped in rows, and an entry is found by row and column instead of by one
  index.
- Number parsing and printing (`strtoll`, `sprintf`) are parameters of the table; a 64-bit overflow is up to them.
- E_RANGE and E_LIST expressions and the help texts.
- Retyping of S_OTHER symbols while reading `auto.conf`, `conf_split_config`, the autoconf header and the tristate
  file.
- The front ends, the Kconfig lexer and parser, opening and renaming files, environment variables, `sym_re_search`,
  random configurations and the fixed-size name buffers.
- The image header, argument parsing and file reading of `mkpimage`.
