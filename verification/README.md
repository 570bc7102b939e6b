# Verified models of cvc5's context-dependent map, evaluation-order check, proof rules and enum parser

This project models four parts of cvc5 in Dafny and proves what they are for.

**The context-dependent hash map** (`src/context/cdhashmap.h` on top of
`src/context/context.{h,cpp}`). A map whose contents roll back when scopes are popped.
Each entry is an object with its own save records and sits in a circular doubly linked
list. `SaveChain.dfy` describes one element and its records as a value,
`ReferenceStack.dfy` proves that the whole map behaves like a stack of ordered maps, and
`CDHashMap.dfy` is the imperative part: classes `Context`, `Element` and `CDHashMap` with
the source's pointers, updated in place, proved to compute the value-level operations.
The classes never look at history: `born`, `ring` and the `m` arguments are ghost.
`CDHashMaps.Execute` puts the two together: a run of operations on the heap shows what the
reference stack shows.

**The node-id determinism check** (`contrib/tidy-checks/NodeIdDeterminismCheck.cpp`).
`EvaluationOrder.dfy` gives C++ expression trees all the evaluations that ISO/IEC
14882:2017 permits and observes the calls that assign node ids. `NodeIdCheck.dfy` is the
check itself, `Determinism.dfy` characterises determinism by races, and
`CheckVerdict.dfy` says exactly when silence, a report and the braces fix-it are right.

**The proof calculus** (`include/cvc5/cvc5_proof_rule.h` and the checkers in
`src/theory`). `BooleanRules.dfy` and `ProofSoundness.dfy` hold the Boolean rules with
ASSUME and SCOPE and the soundness of whole proof trees; `ChainResolution.dfy` reduces the
chain rules to the basic ones; `RuleFamilies.dfy` says what the rules of one connective amount
to together; `BitVectorRules.dfy`, `PowersOfTwo.dfy`,
`MonomialSign.dfy`, `AbsComparison.dfy` and `RegExpRules.dfy` hold the rules that need
number theory, real arithmetic and regular languages.

**The enum parser** (`src/api/parseenums.py`), line by line on real text:
`PythonText.dfy` has the string operations, `EnumParser.dfy` the class with its state,
`EnumBlocks.dfy` what it ignores. `CppText.dfy` is the other side, what C++ sees of the same
lines once comments and conditional groups are out, and which enumerators that is.
`EnumAgreement.dfy` says when the two agree line by line, `EnumPieces.dfy` when a list has
one enumerator on each line, `EnumValues.dfy` when the enum that is recorded is the one of
C++, and `EnumLoss.dfy` is an enum where it is not. `EnumFile.dfy` has whole headers: what has
been recorded stays, and enums are added in order.

## Where the code and its description differ

- The range test at `NodeIdDeterminismCheck.cpp:147` is meant for assignments, but Clang
  enumerates `<` and `>` between `=` and `+=`. `CheckVerdict.SilenceIsRightIff` shows that
  these two operators, and a first argument of `mkNode` that makes a call itself, are all
  that the check misses; `CheckVerdict.BlindSpots` gives one expression for each.
- In the other direction, the check also reports operators that C++17 sequences, as the
  overloaded comma: `CheckVerdict.FlaggedNode` lists them and `CheckVerdict.NeedlessReport`
  gives one.
- The description of CHAIN_M_RESOLUTION removes the first occurrence of a pivot and lets
  every intermediate clause be any with the same set of literals; the checker removes all
  occurrences, and reads only as many premises as there are pivots. Neither accepts all
  that the other does (`ChainResolution.CheckerEliminatesMore` and
  `ChainResolution.DocumentedKeepsMore`), and both reduce to the basic rules. The checker
  meets its description when no literal of a premise and no pivot is itself a disjunction,
  every further premise has its pivot at most once, and no clause before the last is empty
  (`ChainResolution.CheckerIsDocumented`). In the other direction, with flat premises and
  pivots, a documented conclusion has all literals of the computed clause, and is refused
  exactly when it has a literal more or is a disjunction of one literal
  (`ChainResolution.RefusedIff`).
- BV_POLY_NORM_EQ is described with one factor and one difference on each side. A
  bit-vector product may have more factors and the checker looks at the first two only:
  `BitVectorRules.SoundIffTwoFactors` says that it is sound exactly with two.
- ARITH_MULT_SIGN states that the sign is the parity of the `<` facts, with the variables of
  even exponent given as non-zero, which the checker only asserts. Where assertions are
  off, that parity is right exactly when an even number of `<` facts is on variables of
  even exponent (`MonomialSign.ParityIff`, and `MonomialSign.ParityFails` for `x < 0` and
  `x*x`); what the checker concludes is always what the facts entail
  (`MonomialSign.ConcludesWhatIsEntailed`).
- The side condition of ARITH_POW2_LOWER_BOUND could also admit `k = 0`, and nothing else
  (`PowersOfTwo.LowerBoundIff`).
- `parseenums.py` does not read C++ comments: to it a token that opens a comment or a macro
  block counts inside a comment, too, text beside a comment is lost, and a line comment
  that holds the end of a block comment hides it. It reads one enumerator from a line and
  does not strip a name without a value; an explicit zero is no value to it
  (`if not value`), and neither is one behind the parentheses, as in `EVALUE(NONE) = 0,`;
  `int` reads `010` as ten and C++ as eight (`EnumValues.OctalMisread`).
  `EnumAgreement.InStepIff` and `EnumValues.ReadsAsCppIff` say exactly when none of this
  matters, and `EnumLoss.LostEnumerator` is an enum where it does.

## Model

| member | source | states |
|---|---|---|
| SaveChain.NewCellWellSaved | src/context/cdhashmap.h:190-217 | an inserted element has at most one record although its constructor sets the data twice, and versions exactly at level 0 and at the inserting level |
| SaveChain.SetCellKeepsChain | src/context/context.cpp:140-169 | a write keeps one record per scope with strictly ascending levels, and adds a version in the top scope and nowhere else |
| SaveChain.PopCellRemovesAtBirth | src/context/cdhashmap.h:133-174 | the removal branch is taken exactly at the pop of the inserting scope; every other pop gives back the data of the level below and leaves all lower levels as they were |
| SaveChain.BornAtTop | src/context/cdhashmap.h:196-203 | an element inserted in the top scope has one record, the one with the null map, at level 0 |
| SaveChain.RestoredIsPop | src/context/context.cpp:171-215 | restoring from the latest record is what a pop asks of an element, and it removes the element exactly when the popped scope inserted it |
| ReferenceStack.PushRefines | src/context/context.cpp:64-74 | a push duplicates the top of the stack of maps |
| ReferenceStack.PopRefines | src/context/context.cpp:76-114 | a pop drops the top of the stack of maps and leaves every lower level unchanged |
| ReferenceStack.AddRefines | src/context/cdhashmap.h:330-342 | inserting a missing key adds it to the top map, at its end, and to no other |
| ReferenceStack.SetRefines | src/context/cdhashmap.h:221-225 | writing a present key changes the top map at that key only and keeps its place |
| ReferenceStack.StepRefines | src/context/cdhashmap.h:298-342 | every operation, `clear` included, acts on the save chains as it does on a plain stack of maps |
| ReferenceStack.StepKeepsInv | src/context/cdhashmap.h:133-225 | every operation keeps well-formed save chains, distinct keys and insertion levels that never decrease along the list |
| ReferenceStack.RunRefines | src/context/cdhashmap.h:133-342 | over every run of push, pop, insert, `operator[]`, assignment and clear on the save chains, the visible maps at all levels equal those of the reference stack; `CDHashMaps.Execute` states it of the classes |
| ReferenceStack.WritesVanish | src/context/cdhashmap.h:133-174 | whatever is written or inserted above level 0 is gone after the next pop, down to the save records |
| ReferenceStack.PopUndoesScope | src/context/context.cpp:64-114 | absent `clear`, a pop gives back the very state of the matching push: elements, order, data and records |
| ReferenceStack.PopToRefines | src/context/context.cpp:116-120 | popping to a level cuts the stack of maps back to that level |
| ReferenceStack.LevelIsPrefix | src/context/cdhashmap.h:205-216 | the keys that a level shows are a prefix of the list, in order of first insertion |
| ReferenceStack.RefStepIs | src/context/cdhashmap.h:298-342 | in the reference, writing changes the entry of a present key in place and puts a missing one last, on top only; push duplicates, pop drops and clear empties all levels |
| CDHashMaps.Context.constructor | src/context/context.cpp:24-30 | a context starts with one scope and empty lists |
| CDHashMaps.Context.AddToChain | src/context/context.h:720-730 | an object becomes the first of a scope's list, the others stay in order behind it and no other list changes |
| CDHashMaps.Context.RestoreOne | src/context/context.cpp:340-343 | after every single restore ring and table are well formed and agree, and the ring is the one before the first restore without the elements put aside so far |
| CDHashMaps.Context.RestoreChain | src/context/context.cpp:335-343 | whatever order the list has, every object in it goes back one version, once, the others stay, and exactly those that the popped scope inserted are removed and put aside |
| CDHashMaps.Context.CollectGarbage | src/context/context.cpp:345-348 | the delayed deletion takes the removed elements out of the bottom scope's list and nothing else |
| CDHashMaps.Context.DestroyScope | src/context/context.cpp:335-349 | whatever order the list has, table, ring, data, records and the lists of the other scopes come out the same: those of the popped value |
| CDHashMaps.Context.Pop | src/context/context.cpp:76-114 | a pop of a valid map leaves a valid map whose contents are the popped ones and whose list is a prefix of the old list |
| CDHashMaps.Context.PopTo | src/context/context.cpp:116-120 | the loop pops down to the level, or does nothing when it is not below the current one |
| CDHashMaps.Context.Push | src/context/context.cpp:64-74 | a push keeps the map valid and changes nothing but the level |
| CDHashMaps.Relinked | src/context/cdhashmap.h:147-160 | the two pointer writes at the neighbours leave a ring of the other elements, be the removed one first, last or in between |
| CDHashMaps.Appended | src/context/cdhashmap.h:205-216 | linking between the last element and the first extends the ring at its end |
| CDHashMaps.AfterDismantling | src/context/context.cpp:335-349 | the elements that stay, their records and the remaining lists are those of the popped state |
| CDHashMaps.Element.constructor | src/context/cdhashmap.h:190-217 | the new element is linked last, has the value of a fresh insertion and is the first in the bottom and in the top scope's list |
| CDHashMaps.Element.Update | src/context/context.cpp:140-169 | one record of level, map pointer and data is pushed and the object moves to the top scope |
| CDHashMaps.Element.Set | src/context/cdhashmap.h:221-225 | the first write in a scope saves and makes the object the first of that scope's list, later ones only change the data |
| CDHashMaps.Element.LeaveHead | src/context/cdhashmap.h:147-158 | `d_first` moves on exactly when the element is the first, to the next one or to null when it was the only one |
| CDHashMaps.Element.JoinNeighbours | src/context/cdhashmap.h:159-160 | the two pointer writes leave a ring of the other elements |
| CDHashMaps.Element.Unlink | src/context/cdhashmap.h:147-160 | the ring without the element is well formed and `d_first` is its first element, or null when it was the only one |
| CDHashMaps.Element.Restore | src/context/cdhashmap.h:133-174 | a record without a map takes the element out of table and ring and puts it aside; any other gives the data back; an element being destroyed is left alone |
| CDHashMaps.Element.RestoreAndContinue | src/context/context.cpp:171-215 | the element goes back one version, and table and ring still agree |
| CDHashMaps.Element.Destroy | src/context/context.cpp:217-250 | an element without a map or without records, as `clear` and the delayed deletion leave them, is taken out of every scope that it has a version in |
| CDHashMaps.CDHashMap.Clear | src/context/cdhashmap.h:298-309 | clearing empties table, ring and every scope's list, so that no later pop can bring an entry back |
| CDHashMaps.CDHashMap.Index | src/context/cdhashmap.h:320-328 | the element of the key, which a missing key gets with default data at the end of the list; every other element was there before |
| CDHashMaps.CDHashMap.Insert | src/context/cdhashmap.h:330-342 | inserts a new element or overwrites in the top scope, keeps all others in place and says which of the two it did |
| CDHashMaps.CDHashMap.Assign | src/context/cdhashmap.h:221-239 | `m[k] = v` is an insertion of the default followed by a write; an element that was not in the list before is new |
| CDHashMaps.CDHashMap.Find | src/context/cdhashmap.h:388-400 | finds the entry that the reference stack shows on top, and nothing when there is none |
| CDHashMaps.CDHashMap.Walk | src/context/cdhashmap.h:373-386 | the walk terminates and meets each visible entry once, in order of first insertion |
| CDHashMaps.CDHashMap.Size | src/context/cdhashmap.h:313-317 | the size of the table is the number of visible entries |
| CDHashMaps.Perform | src/context/cdhashmap.h:298-342 | each operation on the heap keeps the map valid, computes the step on the save chains and adds new elements only |
| CDHashMaps.Execute | src/context/cdhashmap.h:133-342 | after every run of operations on the heap, the visible maps at all levels are those of the reference stack |
| NodeIdCheck.HasMultiple | contrib/tidy-checks/NodeIdDeterminismCheck.cpp:72-81 | the counter with its early exit decides whether two expressions or more contain an id-assigning call |
| NodeIdCheck.FoundSitesCount | contrib/tidy-checks/NodeIdDeterminismCheck.cpp:202-211 | on a tree the set of found calls is as large as the number of expressions with a call |
| NodeIdCheck.VerifySequencing | contrib/tidy-checks/NodeIdDeterminismCheck.cpp:202-217 | the set of calls decides the same question as the counter |
| NodeIdCheck.CheckOperator | contrib/tidy-checks/NodeIdDeterminismCheck.cpp:145-160 | an overloaded operator is reported exactly when two of its arguments have a call and it is none of `=`, `<`, `>`, the compound assignments that do not shift, `<<` and `>>` |
| NodeIdCheck.CheckBinary | contrib/tidy-checks/NodeIdDeterminismCheck.cpp:172-182 | a built-in operator is reported exactly when both sides have a call and it is an unsequenced one or a pointer to member |
| NodeIdCheck.HasCallIff | contrib/tidy-checks/NodeIdDeterminismCheck.cpp:185-200 | the search finds something exactly when some part of the expression calls one of the listed functions by name |
| NodeIdCheck.Check | contrib/tidy-checks/NodeIdDeterminismCheck.cpp:83-183 | a node is reported exactly when two of the expressions examined for its kind have a call, of a `mkNode` with more than two arguments only from the second argument on, and only there with the fix-it |
| Determinism.OneTrace | contrib/tidy-checks/NodeIdDeterminismCheck.cpp:83-183 | without a race every two permitted evaluations have the same trace |
| Determinism.TwoTraces | contrib/tidy-checks/NodeIdDeterminismCheck.cpp:83-183 | a race anywhere in the tree yields two permitted evaluations with different traces |
| Determinism.DeterministicIffRaceFree | contrib/tidy-checks/NodeIdDeterminismCheck.cpp:83-183 | all permitted evaluations agree exactly when no node has calls in two children that C++17 leaves unordered |
| Determinism.MergeIff | contrib/tidy-checks/NodeIdDeterminismCheck.cpp:172-182 | operands that overlap can be interleaved in every way that keeps the order of each, and in no other |
| Determinism.OverloadedAssignment | contrib/tidy-checks/NodeIdDeterminismCheck.cpp:145-158 | an overloaded assignment evaluates its right operand before the left |
| Determinism.CallComesLast | contrib/tidy-checks/NodeIdDeterminismCheck.cpp:202-217 | a call assigns its id after everything inside it |
| CheckVerdict.BlindNode | contrib/tidy-checks/NodeIdDeterminismCheck.cpp:94-156 | a node races without being reported exactly when it is an overloaded `<` or `>` with calls on both sides, or a `mkNode` with one in argument 0 and one among the others |
| CheckVerdict.SilenceIsRightIff | contrib/tidy-checks/NodeIdDeterminismCheck.cpp:83-217 | where the check is silent, the expression is deterministic exactly when no node is of those two kinds |
| CheckVerdict.BlindSpots | contrib/tidy-checks/NodeIdDeterminismCheck.cpp:96-156 | one expression of each kind about which the check says nothing and whose calls can come in two orders |
| CheckVerdict.FlaggedNode | contrib/tidy-checks/NodeIdDeterminismCheck.cpp:141-182 | a reported node races exactly when it is not one of the operators that C++17 sequences and the check does not exempt |
| CheckVerdict.NeedlessIff | contrib/tidy-checks/NodeIdDeterminismCheck.cpp:145-182 | a node that does not race is reported exactly when it is one of these operators with calls in two operands |
| CheckVerdict.ReportsAreReal | contrib/tidy-checks/NodeIdDeterminismCheck.cpp:141-217 | a report at any other node means two permitted evaluations of the whole tree with different traces |
| CheckVerdict.Fix | contrib/tidy-checks/NodeIdDeterminismCheck.cpp:113-131 | the fix-it's loop wraps the node arguments in one braced list |
| CheckVerdict.NeedlessReport | contrib/tidy-checks/NodeIdDeterminismCheck.cpp:145-160 | a deterministic expression with an overloaded comma that is reported |
| CheckVerdict.FixedIsQuietIff | contrib/tidy-checks/NodeIdDeterminismCheck.cpp:94-138 | the fixed call is reported again exactly when its first argument makes a call |
| CheckVerdict.FixedTrace | contrib/tidy-checks/NodeIdDeterminismCheck.cpp:113-131 | the fixed call evaluates its callee and its node arguments from left to right without a gap, and its first argument before or after all of them |
| CheckVerdict.FixRemovesOrders | contrib/tidy-checks/NodeIdDeterminismCheck.cpp:113-131 | every trace of a fixed call, whatever its first argument, is one that the original call permitted |
| BooleanRules.ComputeChainM | src/theory/booleans/proof_checker.cpp:326-381 | the checker's loop computes the clause that is left after eliminating every pivot in turn |
| BooleanRules.AddExcept | src/theory/booleans/proof_checker.cpp:372-379 | the inner loop adds the literals other than the pivot, in order |
| ProofSoundness.ChainMHolds | src/theory/booleans/proof_checker.cpp:324-381 | the chain keeps a true clause true whether a pivot is absent, single or repeated |
| ProofSoundness.ClauseRuleSound | src/theory/booleans/proof_checker.cpp:88-413 | resolution, factoring, reordering and both chains conclude only what their premises entail |
| ProofSoundness.CnfRuleSound | src/theory/booleans/proof_checker.cpp:686-940 | every clause of the Tseitin rules is valid |
| ProofSoundness.ElimRuleSound | src/theory/booleans/proof_checker.cpp:420-684 | the rules that take connectives apart or put them together conclude only what their premises entail |
| ProofSoundness.Sound | src/proof/proof_node_algorithm.cpp:84-135 | for every proof tree, a valuation that makes the free assumptions true makes the conclusion true |
| ProofSoundness.ClosedProofIsValid | include/cvc5/cvc5_proof_rule.h:108-129 | a proof without free assumptions concludes a valid formula |
| ProofSoundness.FreeIff | src/proof/proof_node_algorithm.cpp:84-135 | an assumption is free exactly when some branch ends in it that no SCOPE with it crosses |
| ProofSoundness.Discharged | include/cvc5/cvc5_proof_rule.h:108-129 | SCOPE over all free assumptions gives a closed proof of the implication, or of the negation when false was concluded |
| RuleFamilies.AppliesIff | src/theory/booleans/proof_checker.cpp:461-684 | an elimination rule applies to exactly the premises of its shape, with an index exactly below the number of children |
| RuleFamilies.TakenApart | src/theory/booleans/proof_checker.cpp:461-684 | the conclusions of all rules for a formula, or a negated one, hold together exactly when the formula does |
| RuleFamilies.AndElimIntro | src/theory/booleans/proof_checker.cpp:461-481 | introducing the eliminated children in order gives the conjunction back |
| RuleFamilies.ContradictsChild | src/theory/booleans/proof_checker.cpp:482-497 | the conclusion of NOT_OR_ELIM for an index, and the literal of NOT_AND at it, contradict the child at that index |
| RuleFamilies.EquivalencesExclude | src/theory/booleans/proof_checker.cpp:498-576 | the clauses for implications and equivalences are those that NOT_AND gives for the case they exclude, literal by literal |
| RuleFamilies.ExclusiveOrsExclude | src/theory/booleans/proof_checker.cpp:577-621 | so are those for exclusive disjunctions |
| RuleFamilies.ConditionalsExclude | src/theory/booleans/proof_checker.cpp:622-667 | and those for conditionals |
| RuleFamilies.ScopeUndone | src/theory/booleans/proof_checker.cpp:420-460 | modus ponens, or a contradiction when false was concluded, gives back what SCOPE has put under assumptions |
| RuleFamilies.ClauseIff | src/theory/booleans/proof_checker.cpp:686-940 | a clause is given for exactly the formulas of its connective, with an index exactly below the number of children |
| RuleFamilies.ClausesDefine | src/theory/booleans/proof_checker.cpp:686-940 | the Tseitin clauses of a connective, with the formula taken to be some truth value, hold together exactly when that is its value |
| RuleFamilies.TwinResolves | src/theory/booleans/proof_checker.cpp:686-940 | resolved with the formula or its negation, each clause gives the conclusion of the elimination rule for the same part and index |
| RuleFamilies.ThirdClauses | src/theory/booleans/proof_checker.cpp:895-940 | the third clauses of a conditional, resolved with it, are those of an exclusive disjunction of its branches |
| ChainResolution.ChainResolutionIsIterated | include/cvc5/cvc5_proof_rule.h:532-554 | what CHAIN_RESOLUTION accepts is binary resolution of its premises one after the other |
| ChainResolution.ChainConcludes | src/theory/booleans/proof_checker.cpp:194-296 | CHAIN_RESOLUTION concludes what resolving on the first occurrences of the pivots leaves, for any number of links, and is refused exactly when some pivot does not occur |
| ChainResolution.ResolveIs | src/theory/booleans/proof_checker.cpp:88-136 | RESOLUTION takes the first occurrence of each pivot out and puts the second clause behind the first; a unit clause may itself be a disjunction |
| ChainResolution.FactoringIs | src/theory/booleans/proof_checker.cpp:137-164 | FACTORING keeps the first of repeated literals and is refused without repeats |
| ChainResolution.ReorderingIff | src/theory/booleans/proof_checker.cpp:165-193 | REORDERING accepts exactly the nodes with the same literals |
| ChainResolution.Prepare | include/cvc5/cvc5_proof_rule.h:583-609 | from a clause in any order and multiplicity, factoring and reordering give a node from which one resolution removes the pivot entirely |
| ChainResolution.Link | include/cvc5/cvc5_proof_rule.h:583-609 | one link of the chain can be derived with resolution, factoring and reordering |
| ChainResolution.LinkFromEmpty | src/theory/booleans/proof_checker.cpp:370-379 | a link from the empty clause can be derived as well |
| ChainResolution.ChainMIsDerivable | src/theory/booleans/proof_checker.cpp:297-413 | every conclusion that the checker of CHAIN_M_RESOLUTION accepts has a derivation from its premises with RESOLUTION, FACTORING and REORDERING alone |
| ChainResolution.DocumentedIsDerivable | include/cvc5/cvc5_proof_rule.h:583-609 | so has every conclusion of the documented rule, for every choice of set-equal intermediate clauses |
| ChainResolution.CheckerEliminatesMore | src/theory/booleans/proof_checker.cpp:370-379 | premises and a conclusion that the checker accepts and no choice of the documented rule reaches |
| ChainResolution.DocumentedKeepsMore | include/cvc5/cvc5_proof_rule.h:583-609 | premises and a conclusion of the documented rule that the checker refuses |
| ChainResolution.CheckerIsDocumented | src/theory/booleans/proof_checker.cpp:297-413 | from flat premises on flat pivots, each at most once in its premise, and with no empty clause before the last, every conclusion that the checker accepts is one of the documented rule |
| ChainResolution.RefusedIff | src/theory/booleans/proof_checker.cpp:382-413 | from flat premises on flat pivots, a documented conclusion has all literals of the computed clause, and the checker refuses it exactly when it has one more or is a disjunction of one literal |
| BitVectorRules.OddCancels | src/theory/bv/proof_checker.cpp:107-119 | an odd factor cancels modulo every power of two |
| BitVectorRules.CancelsIffOdd | include/cvc5/cvc5_proof_rule.h:1411-1423 | at every width the two equalities are equivalent for all bit-vectors exactly when both scaling factors are odd |
| BitVectorRules.TwoFactorsSound | src/theory/bv/proof_checker.cpp:74-131 | with two factors on each side the checked conclusion follows from the premise |
| BitVectorRules.SoundIffTwoFactors | src/theory/bv/proof_checker.cpp:91-106 | over all premises with given numbers of factors the rule is sound exactly when each product has two |
| BitVectorRules.ConcludesWhatCancels | src/theory/bv/proof_checker.cpp:74-131 | from a pair of scaled differences the rule concludes the equivalence of the two equalities exactly when the factors cancel, and nothing else |
| PowersOfTwo.Init | include/cvc5/cvc5_proof_rule.h:2177-2191 | `pow2` is positive exactly on the non-negatives, even exactly off zero, and zero exactly on the negatives |
| PowersOfTwo.Monotone | include/cvc5/cvc5_proof_rule.h:2193-2205 | `pow2(x) < pow2(y)` exactly when `y` is non-negative and `x < y` |
| PowersOfTwo.DivZero | include/cvc5/cvc5_proof_rule.h:2206-2218 | `t div pow2(t)` is zero for every non-negative `t` |
| PowersOfTwo.LowerBoundIff | include/cvc5/cvc5_proof_rule.h:2219-2231 | `pow2(t) > k*t + k*k` for all `t >= k` exactly when `k >= 7` or `k = 0` |
| MonomialSign.CollectFactors | src/theory/arith/nl/ext/proof_checker.cpp:65-78 | the first loop finds the runs of equal factors and the exponent of each variable |
| MonomialSign.RunsExpand | src/theory/arith/nl/ext/proof_checker.cpp:65-78 | the runs, each repeated as often as it occurs in a row, are the monomial, and neighbours differ |
| MonomialSign.CollectSigns | src/theory/arith/nl/ext/proof_checker.cpp:79-105 | the second loop accepts exactly the facts that follow the variables in order, and keeps the sign of each |
| MonomialSign.ConcludesIff | src/theory/arith/nl/ext/proof_checker.cpp:48-134 | a sign is concluded exactly when the facts are about the runs in their order and the first fact about each variable of odd exponent gives its sign |
| MonomialSign.MultiplySigns | src/theory/arith/nl/ext/proof_checker.cpp:106-120 | the third loop's product is the same in whatever order the variables are visited |
| MonomialSign.SignByParity | include/cvc5/cvc5_proof_rule.h:2115-2134 | a product of non-zero factors is negative exactly when an odd number of variables of odd exponent are |
| MonomialSign.Sound | src/theory/arith/nl/ext/proof_checker.cpp:48-134 | whatever ARITH_MULT_SIGN concludes holds for all reals that meet the facts |
| MonomialSign.ConcludesWhatIsEntailed | include/cvc5/cvc5_proof_rule.h:2115-2134 | it concludes a sign exactly when the facts determine it |
| MonomialSign.ParityIff | include/cvc5/cvc5_proof_rule.h:2125-2131 | what is accepted, without repeated facts, has the sign of the parity of the `<` facts exactly when an even number of them is on variables of even exponent |
| MonomialSign.ParityFails | src/theory/arith/nl/ext/proof_checker.cpp:106-120 | for `x < 0` and `x*x` the parity is odd and the conclusion is `>` |
| MonomialSign.DocumentedParity | include/cvc5/cvc5_proof_rule.h:2125-2131 | with just the even exponents given as non-zero, as documented, a sign is concluded and it is that parity |
| AbsComparison.Check | src/theory/arith/nl/ext/proof_checker.cpp:168-258 | the checker's loop accepts and concludes what the rule's conditions on kinds, guards and constants say |
| AbsComparison.FactorsIff | src/theory/arith/nl/ext/proof_checker.cpp:172-254 | the premises that are accepted, by shape, guard and constants, with the two factors that each contributes |
| AbsComparison.ConcludesIff | src/theory/arith/nl/ext/proof_checker.cpp:168-258 | for any list of factors compared strictly, tied or tied with a guard: the rule concludes exactly when the comparison of its first premise lifts to the products, and it compares the products of these factors |
| AbsComparison.LiftsIff | include/cvc5/cvc5_proof_rule.h:1989-2010 | for any number of factors, a strict comparison of the products follows exactly when some factor is compared strictly and every tie is guarded |
| AbsComparison.Sound | src/theory/arith/nl/ext/proof_checker.cpp:168-258 | whatever ARITH_MULT_ABS_COMPARISON concludes holds for all reals that meet its premises |
| RegExpRules.FixedLengthIsSound | src/theory/strings/regexp_entail.cpp:760-807 | every string of the expression has the length that is read off |
| RegExpRules.FixedLengthIff | src/theory/strings/regexp_entail.cpp:760-807 | for literals, characters, ranges, unions and concatenations a length is read off exactly when all strings have it |
| RegExpRules.SeparatesIffByCharacters | include/cvc5/cvc5_proof_rule.h:4114-4127 | membership of concatenations in the star splits into components exactly when each character of each string of the expression is itself in the expression |
| RegExpRules.ConcatStarChar | src/theory/strings/sequences_rewriter.cpp:1466-1492 | the guard of the rewrite, a fixed length of one, is enough for that |
| RegExpRules.ConcatSplit | src/theory/strings/sequences_rewriter.cpp:1494-1525 | membership in a concatenation is a split of the string at some position |
| RegExpRules.SigmaDecides | src/theory/strings/sequences_rewriter.cpp:1494-1525 | membership in a concatenation of `re.allchar` and its stars, in any order, is an equation or a bound on the length |
| RegExpRules.SigmaIff | src/theory/strings/sequences_rewriter.cpp:1494-1525 | the rewrite applies exactly to concatenations of `re.allchar` and its stars, counts the former and asks for a bound if there is one of the latter |
| RegExpRules.SigmaStar | src/theory/strings/sequences_rewriter.cpp:1526-1548 | membership in the star of `n` characters is divisibility of the length by `n` |
| PythonText.NumeralReadsBack | src/api/parseenums.py:176-181 | `int` reads back every decimal numeral, negative ones too |
| PythonText.SplitTwo | src/api/parseenums.py:173-177 | splitting at a character that occurs once gives the two sides |
| EnumParsers.EnumParser.constructor | src/api/parseenums.py:74-87 | the initial state: no block, no enum, value -1 |
| EnumParsers.EnumParser.IgnoreBlock | src/api/parseenums.py:117-151 | the loop over the tokens takes the first that applies, and the new state and the verdict are those of the block automaton |
| EnumParsers.EnumParser.AddEnumeratorLine | src/api/parseenums.py:173-196 | the enumerator is recorded under its name with its value and the raw comment, or an error is raised exactly when the text or the comment is malformed or there is no enum |
| EnumParsers.EnumParser.ParseCleanLine | src/api/parseenums.py:165-205 | what a line outside blocks does, in the order of the source's tests |
| EnumParsers.EnumParser.ParseLine | src/api/parseenums.py:155-163 | comments are cut, blank and ignored lines change nothing else |
| EnumParsers.EnumParser.Parse | src/api/parseenums.py:153-205 | the loop stops with an error exactly when some line raises one |
| EnumBlocks.NestedIsIgnored | src/api/parseenums.py:117-151 | a properly nested block is ignored as a whole and gives `endtoken` and its stack back; only the recorded comment changes |
| EnumBlocks.PassedOverIffNested | src/api/parseenums.py:117-151 | the lines that are passed over without leaving or closing a block are exactly the properly nested ones |
| EnumBlocks.RecordsComment | src/api/parseenums.py:120-151 | a comment over several lines is ignored and recorded as it stands, line by line |
| EnumBlocks.IgnoresGroup | src/api/parseenums.py:127-151 | a disabled block leaves no trace, and one for C enums none inside an enum |
| EnumBlocks.RunKeepsStack | src/api/parseenums.py:133-149 | in every reachable state the stack is empty unless a block is open |
| EnumAgreement.InStepIff | src/api/parseenums.py:117-151 | the parser ignores exactly the lines on which C++ sees nothing, with the same comments and groups open after each, if and only if the tokens of every line fit |
| EnumAgreement.CodeBesideComment | src/api/parseenums.py:127-137 | a line with code and a comment, on either side of it, never fits |
| EnumAgreement.TokenInsideComment | src/api/parseenums.py:127-137 | inside a comment, a token that opens a comment or a macro block without its end never fits |
| EnumPieces.AsManyMeansOneEach | src/api/parseenums.py:171-173 | when each line starts with an enumerator and C++ has no more of them than lines, each line declares exactly one |
| EnumValues.ReadsInner | src/api/parseenums.py:173-186 | name and value come back from between the parentheses; a name without a value comes back unstripped |
| EnumValues.ReadsEntry | src/api/parseenums.py:155-196 | a line that declares one enumerator, indented or not and with or without a comma, is read as its name, its value and the latest comment, where a name without a value between the parentheses is not stripped; it is rejected exactly when `int` cannot read that value or the comment is not delimited |
| EnumValues.RunsEnum | src/api/parseenums.py:153-205 | an enum none of whose body's lines that are read holds `};` is accepted exactly when each of these lines is, and its enumerators are recorded in order; the parser is then ready for the next enum, unless a block is still open, which hides the end of the enum |
| EnumValues.AcceptsIff | src/api/parseenums.py:153-205 | an enum of C++ with fitting tokens and one enumerator on each line is accepted exactly when every enumerator has a delimited comment before it and `int` reads every value between parentheses |
| EnumValues.ValuesAgreeIff | src/api/parseenums.py:187-190 | the parser counts as C++ does exactly when C++ has the value that `int` reads between the parentheses and, where there is none or it is zero, the one that comes next |
| EnumValues.OctalMisread | src/api/parseenums.py:180-181 | `010` is ten to the parser and eight to C++ |
| EnumValues.RecordsAsCppIff | src/api/parseenums.py:117-205 | for every enum that parser and C++ both accept, with fitting tokens on all lines: the parser records the C++ enumerators in order with their values, and is ready for the next enum, if and only if each line of code has one enumerator whose name is not padded, and the values fit |
| EnumValues.ReadsAsCppIff | src/api/parseenums.py:117-205 | for every text of an enum that parser and C++ both accept: the parser stays in step with C++ over all lines and records the C++ enumerators in order with their values, if and only if the tokens of all lines fit, each line of code has one enumerator whose name is not padded, and C++ has every value that `int` reads or, without one or with zero, the next one |
| EnumLoss.LostEnumerator | src/api/parseenums.py:117-151 | an enum that both accept, with a comment behind an enumerator: C++ has two enumerators, 0 and 1, and the parser records the second with 0 |
| EnumFiles.RunGrows | src/api/parseenums.py:153-205 | over every accepted text, all namespaces and enums but the last stay as they are, and what is new comes behind them |
| EnumFiles.AddsEnum | src/api/parseenums.py:165-205 | an accepted enum leaves all namespaces and enums before it unchanged and adds one of its name at the end of the last namespace |
| EnumFiles.RunsFile | src/api/parseenums.py:153-205 | a text of any number of enums records all of them, in order, each as its own text gives it, behind those that were there |
| EnumFiles.RunsHeader | src/api/parseenums.py:74-205 | from the initial state, a namespace line and enums give that one namespace with these enums in order |
| EnumFiles.NamespaceLine | src/api/parseenums.py:202-206 | a namespace line adds a namespace without enums behind the others |
| EnumFiles.FillNext | src/api/parseenums.py:187-196 | a new enumerator goes to the end of the order and a repeated one keeps its place, both with the new value and comment, and all others keep theirs |
| EnumFiles.CleanComment | src/api/parseenums.py:155-160 | surrounding white space goes, and a line comment, but not the space before it |
| EnumFiles.ReadsValue | src/api/parseenums.py:176-181 | the name stands before `=` and the number between `=` and a comma |
| EnumFiles.ReadsName | src/api/parseenums.py:182-186 | without `=` there is no value; the name is stripped before a comma and not otherwise |
| EnumFiles.RefusesValue | src/api/parseenums.py:176-181 | a second `=`, or text that `int` does not read, is an error |
| EnumFiles.ParenthesesAre | src/api/parseenums.py:173 | the text from the first opening parenthesis to the first closing one, which may be missing |

## Left out

- Context: one hash map per context; other context-dependent objects, notification objects and the context's memory manager are not modelled, nor is the map's own entry in the bottom scope's list (the map itself is never saved).
- Context scopes: the intrusive lists of a scope are sequences, and an element's save records are values in a sequence; a record keeps the element's place in the list of the scope it moved out of. Freeing of records and of deleted elements is not modelled.
- CDHashMaps.Context.AddToChain: a scope's list is a sequence, so the previous pointer of the old head is not represented.
- CDHashMaps.Element.Destroy: an element that still has its map pointer and records, which no code of the map destroys.
- CDHashMaps.CDHashMap: hashing, buckets and the null placeholder that `insert` puts in the table before it constructs the element.
- CDHashMaps.CDHashMap.Clear: elements are visited in any order, as in an unordered map, but the ring's own pointers of a deleted element are left unspecified.
- CDHashMaps.CDHashMap.constructor: a map is created when no element of an earlier one is still linked; the destructor is `clear`.
- CDHashMaps.Context.Pop: popping below level 0, which the source asserts against, is a precondition; `m` names the one map of the context.
- NodeIdCheck.Check: the syntax tree is given; matching, source locations, re-lexing of argument text and the loading of the list of functions are not modelled. The arity of `<`, `>` and assignments is two operands.
- EvaluationOrder: the branches of `&&`, `||` and `?:` come from an oracle, the same for both evaluations that are compared. Clang's enumeration of operators is not part of the repository and is written out. Default arguments, temporaries and exceptions are not modelled.
- BooleanRules: debug assertions on the number of premises and arguments are refusals, as are a chain without pivots and one with more pivots than further premises, for which the source has no defined result. `Or` nodes have two children or more, as node construction guarantees.
- ProofSoundness.Sound: proofs are trees; sharing of sub-proofs only saves work. SCOPE does not require that its arguments occur as assumptions, and the checker does not either.
- Proof rules for equality, arrays, datatypes, quantifiers, Skolem terms, transcendental and floating-point functions, SAT certificates, and the rules that call a rewriter are not modelled; ARITH_MULT_TANGENT, ARITH_MULT_POS and ARITH_MULT_NEG would only add easy members.
- PowersOfTwo: the rules have no checker in the source, so the rule statements and the semantics of `pow2` are what is modelled; the choice of lemmas in the solver is not.
- MonomialSign.Check: assertions are taken as switched off, so that a variable of even exponent may be given with a sign and a repeated variable keeps its first fact. Factors are opaque.
- AbsComparison.Sound: integers are treated as reals, and the conversion between the two sorts is not modelled.
- RegExpRules: intersection and complement are in the semantics; ranges, unions and concatenations follow the length computation of the source. Loops, options and non-constant string literals have no fixed length in the source either and are left out.
- PythonText.ParseInt: underscores between digits and digits outside ASCII, which Python accepts, are refused; white space is space, tab, line feed, carriage return, vertical tab and form feed.
- EnumParsers.EnumParser.AddEnumeratorLine: the comment is recorded as it stands, and nothing is said of the state after an error, with which the program ends.
- EnumParsers.EnumParser: files are sequences of lines; the clean-up of a comment's text is left out, so that the recorded documentation is the raw comment. Namespaces and enums are values, which leaves out aliasing of the current enum.
- EnumValues.ReadsAsCppIff: the lines before and behind the enumerators are `enum ENUM(name)`, `{` and `};` on lines of their own, as in the headers; what stands between them is arbitrary text.
- CppText: an initializer that is not a decimal or octal literal has the value that a parameter gives it; those with parentheses, commas, braces or `=` are not covered. String and character literals, line splicing and macros other than EVALUE are not modelled. Which conditions of conditional groups hold is a parameter.
