# pawnlint: what its analyses guarantee

pawnlint is a static analyser for the Pawn language. This project models the algorithms behind its
rules and proves what a rule may rely on: the control-flow graph and the two dataflow analyses that
run on it, recursion and effects across functions, preprocessor state, macro expansion, and the
matchers and bookkeeping around diagnostics.

The loops, queues, stacks and maps of the Go code stay imperative here, as classes and methods. Each
is proved against a statement that does not mention how it works: concrete runs, paths, reachability,
an order in the source text, or a count.

| files | subject |
|---|---|
| `Cfg`, `CfgRuns`, `CfgCoverage` | the block graph of a function as it is built and as it is mended; a small-step machine for statements; the mended graph is exactly the graph of what runs |
| `CfgAgreement`, `CfgVisits`, `CfgBuilder`, `CfgLimits` | where the two graphs differ; which nodes are looked at and what makes a function uncertain; the builder, and exactly when its answers are right; three bodies for which the built graph misses something |
| `Dataflow`, `FlowGraph`, `Graphs` | the worklist argument shared by both analyses; block graphs; paths, reachability and cycles |
| `AliasSemantics`, `Aliases` | must-equal alias analysis, exact against concrete stores |
| `ConstEval`, `ValueSemantics`, `Values` | constant evaluation and constant propagation; exactly when its answers are right in every concrete run |
| `CallGraph` | recursive components by Tarjan's algorithm |
| `Effects` | reads, writes, mutated parameters and completeness across calls |
| `Defines`, `Conditionals`, `ConditionalStates` | the incremental set of defined names; three-valued `#if` labels; labelling a whole file while its labels are being read |
| `MacroExpand` | arguments, substitution and recursive expansion |
| `Glob`, `Fixes`, `Baselines`, `References`, `Suppressions` | glob matching, edits, baselines, reference resolution, suppression comments |
| `RequirementCycles`, `IncludeCycles`, `Strings` | cycle finders and the order of strings |

How the parts fit together. `CfgBuilder.Builder.Build` proves that the imperative builder makes
exactly the graph that `Cfg.Layout` describes in its view `Built`, and says exactly when a function is
uncertain. `CfgRuns` runs the same trees on a machine with continuations that knows nothing about
blocks. The view `Mended` of `Cfg.Layout` repairs the places where the code loses or invents control
flow, and `CfgCoverage.RunsIffShown` proves for every tree that it reaches a statement exactly if some
run executes it: each step of a run follows it, and each of its edges is taken by a run.
`CfgAgreement` compares the two views. Where switches have their clauses directly, they differ only
in the edges that repeat do loops whose body has no block of its own, so that
`Builder.SoundIffBridged` can say exactly when the analyser reports nothing unreachable that runs, and
`ReachableRuns` that what it reports reachable does run. `Builder.Graph` hands the finished graph to
the alias and constant analyses in the form they require.

Where the code does not keep what it promises, there is an input that shows it and the exact condition
under which it does. Only for the propagation loop to end is the condition sufficient and not exact.

* A do loop may repeat a conditional region, which has no block, so the edge from the condition to the
  body is missing. A statement that runs may then be reported unreachable (`CfgLimits.RegionBodyMisleads`)
  and falling off the end may go unforeseen (`RegionBodyFallsOff`). Where switches have their clauses
  directly, the first happens exactly if for some such loop the condition is marked and the first block of
  the region is not, and the second exactly if no exit is marked and some exit can be reached from the
  first block of the region of a loop whose condition is marked.
* Clauses inside a conditional region of a switch get no blocks (`CfgLimits.RegionClauseMisleads`,
  `RegionClauseFallsOff`). For every body, these included, statements and falling off the end are
  foreseen exactly if the mended graph shows none that is not.
* A constant initialised with a local is evaluated again under the current value of that local
  (`LocalInitialiserMisleads`). Every answer about every function is right exactly if no constant
  depends on the values of locals, for which it is enough that no initialiser mentions one. Without
  that, there is a function on which the propagation loop has nothing to stop at (`NothingToStopAt`).
* The greedy wildcard matcher is right about every pattern exactly for strings that contain no `*`, and
  so is the table for paths. Whatever they accept does match.
* Expansions of function-like macros are not rescanned together with what follows them
  (`FunctionLikeNotFixed`). A complete expansion changes its input exactly if some piece of it starts a
  call, so expanding again changes something exactly if a function-like name of the first result stands
  before an opening parenthesis (`CallsLeft`).
* A macro that is met inside its own expansion is given up, even where it came in with an argument, as in
  `ID(ID(1))` with `#define ID(x) x` (`NestedCallGivesUp`). For every table an expansion in full that is
  not too long is found exactly if no macro is met that way, which cannot happen without function-like
  macros (`ObjectsNeverMeet`).

What a run is. The statement machine takes either way at the condition of an `if`, also where that is a
constant, because the builder does too; the conditions of loops go only the way they are known to go, and
a switch may choose any clause. That a statement runs means that some such run executes it.

Assumptions about inputs are stated as preconditions or in the data: parse trees, tokens, resolved
names, constant conditions, the mapping of arguments to parameters, and the direct effects of each
function are given. Names, symbols, blocks, files and declarations are numbers. A hash is taken to be
injective.

## Model

| member | source | states |
|---|---|---|
| CfgBuilder.Builder.Build | internal/controlflow/model.go:256-277 | the built edges, statement blocks and exit blocks are exactly those of the layout of the tree when the function is certain; it is uncertain exactly if the body is missing or broken, some compiled part is damaged or unclear, a break, continue, goto or label is malformed, two labels share a name, or a goto has no label; marked blocks are exactly those reached from the entry |
| CfgBuilder.Builder.BuildNode | internal/controlflow/model.go:308-325 | building a node adds exactly the edges, blocks, pending jumps and labels of its layout and returns exactly the blocks control leaves it from |
| CfgBuilder.Builder.BuildStatement | internal/controlflow/model.go:326-410 | the same for every kind of statement: its own block, edges from all incoming blocks, and the parts its kind asks for |
| CfgBuilder.Builder.BuildWhile | internal/controlflow/model.go:339-351 | a loop is left only through its after block; a false condition keeps the body unconnected and a true one removes the exit edge |
| CfgBuilder.Builder.BuildDoWhile | internal/controlflow/model.go:352-369 | the condition has its own block; the repeat edge goes to the block of the body exactly if the body owns one |
| CfgBuilder.Builder.BuildSwitch | internal/controlflow/model.go:421-438 | every clause starts at the switch and ends at the after block, which the switch also reaches directly exactly if it has no default clause |
| CfgBuilder.Builder.BuildSequence | internal/controlflow/model.go:413-419 | each node starts where the one before it ends |
| CfgBuilder.Builder.Connect | internal/controlflow/model.go:289-300 | adds the edge once per kind and keeps successor and predecessor lists in agreement |
| CfgBuilder.Builder.RecordLabel | internal/controlflow/model.go:385-393 | the first label of a name takes it; an empty or repeated name makes the function uncertain |
| CfgBuilder.Builder.ResolveGotos | internal/controlflow/model.go:267-274 | draws a jump for every goto whose label exists and marks the function uncertain exactly if some label does not |
| CfgBuilder.Builder.MarkReachable | internal/controlflow/model.go:456-470 | the queue loop ends and marks exactly the blocks reached from the entry |
| CfgBuilder.BlocksIn | internal/controlflow/model.go:279-287 | every block made for a tree belongs to a node of that tree |
| CfgBuilder.OwnBlockOnly | internal/controlflow/model.go:363-364 | looking up a loop body finds the body's own block and no other |
| CfgBuilder.DrawnAreJumps | internal/controlflow/model.go:267-274 | with one block to a label name, the jumps drawn are all the jumps that can be taken |
| CfgBuilder.Builder.UncertainIffDoubtful | internal/controlflow/model.go:256-275 | a function is uncertain exactly if it has no body or is broken, or a way through active nodes leads to damaged or unclear code, a jump to nowhere, a label without a name, a name of two labels, or a goto without a label |
| CfgBuilder.Builder.BlockIffVisited | internal/controlflow/model.go:308-325 | a node has a block exactly if a way through active nodes, and from switches only into their clauses, leads to it and it is a statement of its own |
| CfgVisits.UncertainIff | internal/controlflow/model.go:308-411 | what makes the layout uncertain is read off the tree: breaks need a loop or switch on the way to them, continues a loop |
| CfgVisits.BlocksAreOwned | internal/controlflow/model.go:279-287 | blocks are numbered without gaps to reuse, so that each belongs to one node at most |
| CfgBuilder.Builder.UnreachableIff | internal/controlflow/model.go:187-193 | a node is reported unreachable exactly if the function is certain and the node has a block that the built graph does not reach from the entry |
| CfgBuilder.Builder.NoBlockIsReachable | internal/controlflow/model.go:191-192 | a node that the layout gives no block, as inside a region of a switch, is never reported unreachable |
| CfgBuilder.Builder.UncertainAnswers | internal/controlflow/model.go:187-227 | in an uncertain function every node is reported reachable and the end can be fallen off |
| CfgBuilder.Builder.NoFallThroughIff | internal/controlflow/model.go:217-227 | CanFallThrough says no exactly if the function is certain and the built graph reaches none of its exits |
| CfgBuilder.Builder.SoundIff | internal/controlflow/model.go:187-193 | for every body, no statement that runs is reported unreachable exactly if the function is uncertain or the built graph misses no statement that the mended graph shows |
| CfgBuilder.Builder.CompleteIff | internal/controlflow/model.go:187-193 | for every body, every statement with a block that is reported reachable is executed by some run exactly if the mended graph shows each of them that the built graph does not miss |
| CfgBuilder.Builder.ForeseenIff | internal/controlflow/model.go:217-227 | for every body, a run that falls off its end is foreseen by CanFallThrough exactly if the function is uncertain or the built graph reaches an exit wherever the mended graph does |
| CfgBuilder.Builder.SoundIffBridged | internal/controlflow/model.go:352-369 | where switches have their clauses directly, no statement that runs is reported unreachable exactly if every do loop over a body without a block of its own has the beginning of that body marked whenever its condition is |
| CfgBuilder.Builder.ReachableRuns | internal/controlflow/model.go:187-193 | where switches have their clauses directly, every statement of a certain function that is reported reachable is executed by some run |
| CfgBuilder.Builder.FallsThroughIff | internal/controlflow/model.go:217-227 | where switches have their clauses directly, some run of a certain function falls off its end exactly if CanFallThrough says so or an exit can be reached from the first block of a missed do loop body whose condition is marked |
| CfgBuilder.Builder.Graph | internal/controlflow/model.go:26-31 | the finished graph has agreeing successor and predecessor lists and nothing leads to its entry |
| CfgRuns.StepFollows | internal/controlflow/model.go:308-411 | every step of the statement machine on any tree stays on its block or follows one edge of the mended graph |
| CfgRuns.RunFollowsGraph | internal/controlflow/model.go:308-470 | every configuration of every run of any tree stands on a block that the mended graph reaches from the entry |
| CfgRuns.FindStands | internal/controlflow/model.go:377-393 | a goto continues at the block first recorded for its label, with the surroundings of the label |
| CfgRuns.BreakStands | internal/controlflow/model.go:394-400 | a break continues at the after block of the nearest loop or switch |
| CfgRuns.ContinueStands | internal/controlflow/model.go:401-407 | a continue continues at the nearest loop, through any switch |
| CfgCoverage.RunsIffShown | internal/controlflow/model.go:308-470 | for every tree, the mended graph reaches a block of a statement exactly if some run executes the statement |
| CfgCoverage.FallsOffIffShown | internal/controlflow/model.go:217-227 | for every tree, some run falls off the end exactly if the mended graph reaches a block from which control leaves the tree |
| CfgCoverage.Covers | internal/controlflow/model.go:308-411 | runs follow every edge of a piece of tree, and leave it from each of its exits, once they come to it |
| CfgAgreement.Agrees | internal/controlflow/model.go:308-438 | without trouble and with direct clauses, the built piece is part of the mended one, which has only the repeat edges of do loops more |
| CfgAgreement.GapsDecide | internal/controlflow/model.go:352-369 | the mended graph reaches what the built graph reaches, and nothing else exactly if the missing repeat edges stay inside what is reached |
| CfgAgreement.RepairedIsMended | internal/controlflow/model.go:352-369 | with direct clauses and without trouble, the mended graph reaches exactly what the built graph reaches once the missing repeat edges are added |
| CfgLimits.RegionBodyMisleads | internal/controlflow/model.go:363-365 | a do loop whose body is a conditional region, entered by a goto, runs a statement the built graph does not reach |
| CfgLimits.RegionClauseMisleads | internal/controlflow/model.go:421-438 | a clause inside a conditional region in a switch gets no block, so the graph misses the label it jumps to |
| CfgLimits.RegionBodyFallsOff | internal/controlflow/model.go:363-365 | an endless do loop over a conditional region, entered by a goto, is left by a break the built graph does not reach, so a run falls off the end unforeseen |
| CfgLimits.RegionClauseFallsOff | internal/controlflow/model.go:421-438 | a run that jumps out of a clause inside a conditional region falls off the end, whose only exit the built graph does not reach |
| Dataflow.RelaxKeepsVisit | internal/controlflow/aliases.go:204-216 | recomputing the join at a successor keeps the invariant of the worklist loop, which both analyses share |
| Dataflow.ChangeShrinksClaims | internal/controlflow/aliases.go:208-215 | a changed entry state claims strictly less, so the worklist loop ends |
| Dataflow.EmptyQueueIsClosed | internal/controlflow/aliases.go:188-218 | with the queue empty, exactly the reachable blocks have states, and each but the entry claims exactly what all its predecessors pass on |
| Aliases.AliasFlow.PropagateAliases | internal/controlflow/aliases.go:188-218 | exactly the reachable blocks get a partition, and two symbols share a class on entry exactly if replaying the events of every path from the entry relates them |
| Aliases.AliasFlow.Aliased | internal/controlflow/aliases.go:53-75 | two symbols are reported aliased at an offset exactly if they are the same or equal there in every concrete run that gets there |
| Aliases.AliasFlow.Aliases | internal/controlflow/aliases.go:20-51 | the symbols listed are exactly those equal to the symbol in every concrete run that gets there |
| Aliases.ApplyAliasEvents | internal/controlflow/aliases.go:220-243 | relabelling in place computes the replayed relation up to the offset and keeps labels canonical |
| Aliases.BeforeMeans | internal/controlflow/aliases.go:220-226 | the events replayed for a query end before the first that lies behind the offset |
| Aliases.DetachAlias | internal/controlflow/aliases.go:245-265 | the symbol ends alone in its class, all other classes stay, and every label is again the smallest symbol of its class |
| Aliases.IntersectAliasStates | internal/controlflow/aliases.go:284-301 | the result is canonical and relates exactly the pairs both sides relate |
| Aliases.JoinedPredecessorAliases | internal/controlflow/aliases.go:267-282 | the join over available predecessors relates exactly the pairs all of them relate |
| Aliases.CanonicalIsUnique | internal/controlflow/aliases.go:319-329 | canonical states are equal as maps exactly if they are equal as partitions |
| Aliases.ExactInsideBlock | internal/controlflow/aliases.go:72-74 | replaying part of a block on the exact entry partition is exact for that point of the block |
| AliasSemantics.ReplayIsTraceable | internal/controlflow/aliases.go:220-243 | each pair after a list of events goes back to one pair before it, so replaying distributes over the join |
| AliasSemantics.RelatedIffAlwaysEqual | internal/controlflow/aliases.go:188-243 | related on every path is the same as equal in every concrete run, where an event copies its source or gives its target any value |
| ConstEval.Evaluator.Evaluate | internal/semantic/eval.go:36-108 | the evaluator terminates on every table of constants, also cyclic ones, restores its set of constants being visited, and gives the value that EvaluationEquations and the lemmas on operators determine |
| ConstEval.CycleCheckLosesNothing | internal/semantic/eval.go:78-105 | a value is found exactly if plain unfolding of initialisers without any cycle check would find it |
| ConstEval.EvalInCell | internal/semantic/eval.go:36-108 | every value returned fits a 32-bit cell |
| ConstEval.ArithmeticWraps | internal/semantic/eval.go:152-211 | sum, difference and product are those of 32-bit two's complement words |
| ConstEval.DivisionTruncates | internal/semantic/eval.go:160-169 | quotient and remainder round toward zero, and the smallest cell divided by minus one wraps to itself |
| ConstEval.ShiftsMoveBits | internal/semantic/eval.go:170-182 | the three shifts multiply or divide the word or the signed value by the power of two |
| ConstEval.BitwiseIsBitByBit | internal/semantic/eval.go:183-188 | at every position the bit of and is the conjunction, that of or the disjunction, and that of xor the difference of the bits of the operands |
| ConstEval.BitIsDigit | internal/semantic/eval.go:183-188 | the bit at a position is the parity of the quotient by that power of two, for negative values too |
| ConstEval.RelationsDecide | internal/semantic/eval.go:188-203 | each comparison and logical operator is 1 exactly if its relation holds and 0 otherwise |
| ConstEval.UnaryMeans | internal/semantic/eval.go:45-61 | minus is the two's complement of the word, `!` is 1 exactly for 0, and `~` flips every bit |
| ConstEval.EvaluationEquations | internal/semantic/eval.go:36-108 | the value of every kind of expression from the values of its parts; a constant with an initialiser has the value of the initialiser, although one is evaluated while the other is being visited |
| ConstEval.BinaryInCell | internal/semantic/eval.go:152-211 | an operation on cells has no value exactly for unknown operators, division by zero and shift counts outside the word |
| ValuePropagation.ValueTables.PropagateValues | internal/controlflow/values.go:234-266 | where constants are independent of locals the worklist ends; exactly the reachable blocks get values, each but the entry those that all its predecessors agree on |
| ValuePropagation.TableIsSound | internal/controlflow/values.go:234-266 | the values of a block hold in every concrete run along every path from the entry to it |
| ValuePropagation.RightIffIndependent | internal/controlflow/model.go:160-178 | for given constants and tracked symbols, every answer about every function is the only value the expression can have there, exactly if no constant evaluates differently when values of locals are known |
| ValuePropagation.ValueTables.ValueAt | internal/controlflow/model.go:160-178 | evaluates an expression first alone and then, in a block that has values, under those known at the offset; this is the answer that RightIffIndependent is about |
| ValuePropagation.ApplyValueEvents | internal/controlflow/values.go:290-310 | what is known after the events up to the offset is where a trace of them ends: each event changes its own symbol only, to unknown, to zero, or to the value its expression has there, if any |
| ValueSemantics.LastEventDecides | internal/controlflow/values.go:290-310 | after a list of events a symbol is known exactly as its last event says: not at all after an invalidation, as zero after a declaration without initialiser, and otherwise with the value of the expression under what was known there, if it has one |
| ValueSemantics.TraceIsApplied | internal/controlflow/values.go:290-310 | there is only one trace of a list of events |
| ValuePropagation.BeforeMeans | internal/controlflow/values.go:290-294 | the events applied for a query end before the first that lies behind the offset |
| ValuePropagation.AnswerIsEvaluation | internal/controlflow/model.go:160-178 | a query is answered by the value that needs nothing known, if there is one or the block was never reached, and otherwise by the value under what the trace up to the offset ends with |
| ValuePropagation.JoinedPredecessorValues | internal/controlflow/values.go:268-288 | keeps exactly the values all available predecessors agree on |
| ValuePropagation.LocalInitialiserMisleads | internal/semantic/eval.go:78-105 | in `new a = f(); new const c = a; a = 2;` the constant is given the value 2, which it need not have |
| ValuePropagation.NothingToStopAt | internal/controlflow/values.go:234-266 | in `new a = 1; again: new const c = a; a = 2; new x = c; a = 3 - x; goto again;` no table meets the equations the loop stops at, because each state at the label calls for the other one |
| ValueSemantics.AvoidingIsIndependent | internal/semantic/eval.go:78-105 | constants whose initialisers mention no local are independent of locals |
| ValueSemantics.EvaluationMonotone | internal/semantic/eval.go:36-108 | knowing more values never changes a value already found, when constants are independent of locals |
| ValueSemantics.EventsAreSound | internal/controlflow/values.go:290-310 | values kept through the events of a block agree with every concrete run of those events |
| CallGraphs.RecursiveSearch.FindRecursiveComponents | pkg/project/callgraph.go:607-666 | the search ends; two functions share a component exactly if each reaches the other by at least one call, components are disjoint, and both lists are sorted |
| CallGraphs.RecursiveSearch.Connect | pkg/project/callgraph.go:618-656 | a visit keeps every low link a position that its function reaches and closes exactly the components it leaves |
| CallGraphs.NoEscape | pkg/project/callgraph.go:637-650 | no call leads from a closing component to a function that is still open below it on the stack |
| CallGraphs.CloseConnected | pkg/project/callgraph.go:637-655 | popping down to the root records exactly the functions that reach each other with it |
| CallGraphs.RecursiveSearch.SelfCalls | pkg/project/callgraph.go:668-677 | a function calls itself exactly if some call leads from it to itself |
| CallGraphs.IndexOutgoing | pkg/project/callgraph.go:436-440 | each function is given exactly the indices of its own calls, in the order of the calls and none twice |
| Effects.EffectAnalysis.BuildFunctionEffects | pkg/project/effects.go:51-116 | the worklist ends; a function is complete exactly if everything it reaches is complete by itself and every mutated argument can be followed, and then its reads, writes and mutated parameters are the least ones and it is pure exactly if there are none and nothing it reaches is impure |
| Effects.MergeFunctionEffects | pkg/project/effects.go:365-395 | one merge absorbs every call of the function and claims nothing without reason |
| Effects.MapMutatedArguments | pkg/project/effects.go:397-427 | every parameter the callee mutates becomes a mutated parameter, a written global or nothing, or makes the caller incomplete |
| Effects.IndexCallers | pkg/project/effects.go:85-98 | every function is listed with all its callers |
| Effects.FixpointIsExact | pkg/project/effects.go:99-111 | any state with nothing left to merge is the exact one, so the order of the queue does not matter |
| Effects.PureMeans | pkg/project/effects.go:365-395 | a function is pure exactly if everything about it is known and neither it nor anything it calls is impure by itself, reads or writes a global, or mutates a parameter |
| Effects.MutationPasses | pkg/project/effects.go:397-427 | a mutated parameter makes the caller mutate the parameter or write the global it passes on, and leaves the caller incomplete if the argument is missing or lost |
| Defines.DefineCursor.KnownDefinesAt | internal/source/walk/conditional.go:392-395 | whatever offsets were asked before, forwards or backwards, the answer is the sorted list of exactly the names known at the offset |
| Defines.DefineCursor.ContainsAt | internal/source/walk/conditional.go:247-250 | a name is contained exactly if it is known at the offset |
| Defines.DefineCursor.Advance | internal/source/walk/conditional.go:252-285 | after moving to any offset the values are those read off the source from scratch: the last directive about a name since the snapshot in force decides, or else the snapshot |
| Defines.AllTaken | internal/source/walk/conditional.go:252-285 | taking directives and snapshots in merged order up to an offset gives what the source says there |
| Defines.LastSpeaker | internal/source/walk/conditional.go:269-282 | the fold over directives is decided by the last one about the name |
| Defines.LastDirectiveDecides | internal/source/walk/conditional.go:252-285 | the last active directive about a name before the offset and the end of input decides whether the name is known, unless a snapshot was taken in between |
| Defines.LastSnapshotDecides | internal/source/walk/conditional.go:252-285 | without such a directive since, the last snapshot decides, and without a snapshot the names given |
| Defines.DefineValues.Add | internal/source/walk/conditional.go:302-315 | the name is added to the set and nothing else changes, whether it was removed from the base, already there or new |
| Defines.DefineValues.Remove | internal/source/walk/conditional.go:317-327 | the name is removed from the set and nothing else changes |
| Defines.DefineValues.View | internal/source/walk/conditional.go:329-360 | the remembered or freshly merged list is strictly sorted and has exactly the names in force |
| Defines.InsertSorted | internal/source/walk/conditional.go:367-372 | inserts the name at its place and keeps the list strictly sorted |
| Defines.RemoveSorted | internal/source/walk/conditional.go:374-382 | removes the name if it is there and keeps the list strictly sorted |
| Conditionals.KnownValueIsTrue | internal/source/walk/conditional.go:91-154 | a condition known from some of the names keeps its value whatever else is defined |
| Conditionals.DirectiveValue | internal/source/walk/conditional.go:91-154 | evaluation computes the value under the names known at the offset, as ValueEquations and the lemmas on operators determine it, and changes nothing but the position of the cursor |
| Conditionals.ValueEquations | internal/source/walk/conditional.go:91-154 | the value of every kind of condition from the values of its parts, and `defined` from the known names and whether they are complete |
| Conditionals.SignsMean | internal/source/walk/conditional.go:127-143 | `!` is 1 exactly for 0, plus keeps its operand, and minus is the two's complement of a 64-bit word |
| Conditionals.RelationsDecide64 | internal/source/walk/conditional.go:184-199 | each comparison and logical operator is 1 exactly if its relation holds and 0 otherwise |
| Conditionals.ArithmeticWraps64 | internal/source/walk/conditional.go:158-163 | sum, difference and product are those of 64-bit two's complement words |
| Conditionals.DivisionTruncates64 | internal/source/walk/conditional.go:164-173 | quotient and remainder round toward zero, and the smallest word divided by minus one wraps to itself |
| Conditionals.BitwiseIsBitByBit64 | internal/source/walk/conditional.go:178-183 | and, or and xor combine the operands bit by bit at every position |
| Conditionals.ShiftsMoveBits64 | internal/source/walk/conditional.go:174-177 | counts are unsigned: from 64 on and below zero a left shift gives 0 and a right shift the sign; other counts multiply the word or divide the signed value by the power of two |
| Conditionals.NoValueIff | internal/source/walk/conditional.go:156-202 | an operation has no value exactly for unknown operators and division by zero |
| ConditionalStates.IndexConditionalStates | internal/source/walk/conditional.go:53-89 | labels all branches with one cursor that reads the labels being written; for every region the result is exact for the defines that are active under the final labels |
| ConditionalStates.ActiveIffTaken | internal/source/walk/conditional.go:402-414 | under the final labels a directive counts exactly if it is not in shared code and every branch around it is taken whatever the tests without a value come out as |
| ConditionalStates.ReadyToTest | internal/source/walk/conditional.go:402-414 | when a test is looked at, every directive before it is already active or not for good, although inner regions have no labels yet |
| ConditionalStates.LabelBranch | internal/source/walk/conditional.go:57-87 | a branch gets the label that the reach of its region and the value of its test call for, and labels given before stay right |
| Conditionals.LabelsAreExact | internal/source/walk/conditional.go:53-89 | a branch is inactive exactly if no outcome of the unknown tests takes it, and active exactly if every outcome does |
| Defines.DefineCursor.Reread | internal/source/walk/conditional.go:248-285 | a cursor stays right when labels change that concern no directive it has passed |
| Conditionals.LabelsHold | internal/source/walk/conditional.go:53-89 | for any larger set of names the branch compiled is not labelled inactive, and a branch labelled active is the one compiled |
| Conditionals.OneActive | internal/source/walk/conditional.go:53-89 | at most one branch of a region is active |
| MacroExpand.Expander.ExpandPieces | internal/preprocess/expand.go:486-550 | expansion ends for every table of macros; if it stays complete the result is the expansion in full and no macro was met inside its own expansion; it stays complete whenever that is so and the expansion is not too long; and it changes its input exactly if some piece starts a call |
| MacroExpand.ExpandIdentifier | internal/preprocess/expand.go:45-63 | the text is that of the expansion in full; an object-like macro with such an expansion has none only if that is too long or a macro is met inside its own expansion |
| MacroExpand.PieceArguments | internal/preprocess/expand.go:552-578 | finds the first closing parenthesis on the level of the call and splits exactly at the commas on that level |
| MacroExpand.ArgumentsMean | internal/preprocess/expand.go:552-578 | a call ends at the first closing parenthesis on its level, its arguments joined by commas are what is between the parentheses, and nothing between them is no argument |
| MacroExpand.DepthIsBalance | internal/preprocess/expand.go:553-570 | the level is the number of opened less the number of closed brackets of all three sorts |
| MacroExpand.SplitRejoins | internal/preprocess/expand.go:552-578 | arguments joined by commas give back exactly the tokens between the parentheses |
| MacroExpand.ArgumentsHaveNoComma | internal/preprocess/expand.go:571-574 | no argument contains a comma on its own outer level |
| MacroExpand.Substitute | internal/preprocess/expand.go:439-484 | succeeds exactly if the body has no hash and no doubled percent sign; then each body piece gives the argument of the last parameter that it names or whose position it states after a percent sign, and otherwise itself, and the pieces follow each other in the order of the body, glued where they touch |
| MacroExpand.ParameterIndexMeans | internal/preprocess/expand.go:440-444 | the parameter found is the last that the text names or states as a decimal position, and none is found exactly if there is none |
| MacroExpand.SubstitutedInStages | internal/preprocess/expand.go:445-465 | the substitution of a body comes about piece by piece, each stage adding what one piece gives |
| MacroExpand.ArgumentsInPlace | internal/preprocess/expand.go:439-466 | with `SUB(x,y)` standing for `x-y`, the call `SUB(1,3)` is replaced by `1-3` |
| MacroExpand.ReplacementMeans | internal/preprocess/expand.go:508-541 | a call is replaced by its body with its arguments in it, and by nothing exactly if the arguments do not end or are too few or too many, or the body cannot be substituted |
| MacroExpand.FullEquations | internal/preprocess/expand.go:486-550 | only identifiers that are defined, the function-like ones before an opening parenthesis, give way to the expansion of their replacement; every other piece stays |
| MacroExpand.SubstitutionKeepsText | internal/preprocess/expand.go:439-484 | whatever pieces are glued together, the text is that of the body with the arguments in it |
| MacroExpand.FullIsNormal | internal/preprocess/expand.go:486-550 | a complete expansion contains no identifier that names an object-like macro |
| MacroExpand.CallsLeft | internal/preprocess/expand.go:486-550 | what starts a call in an expansion is a function-like name before an opening parenthesis |
| MacroExpand.FullIsFixed | internal/preprocess/expand.go:486-550 | an expansion of which no piece starts a call is not changed by expanding it again |
| MacroExpand.ObjectsAreFixed | internal/preprocess/expand.go:486-550 | without function-like macros, expanding a complete expansion again changes nothing |
| MacroExpand.FunctionLikeNotFixed | internal/preprocess/expand.go:486-550 | with `A()` standing for `B` and `B(x)` for `x`, expanding `A()(1)` gives `B(1)`, and expanding that gives `1` |
| MacroExpand.CallReplacedByItself | internal/preprocess/expand.go:486-550 | with `M()` standing for `F` and `F(x)` for `M()(x)`, the expansion in full of `F(1)` is `F(1)` although it is a call |
| MacroExpand.NestedCallGivesUp | internal/preprocess/expand.go:501-513 | with `ID(x)` standing for `x`, expanding `ID(ID(1))` ends incomplete although the expansion in full is `1` |
| MacroExpand.FullRewrites | internal/preprocess/expand.go:486-550 | a complete expansion is reached from the input by replacing one macro call at a time, and by none exactly if no piece starts a call |
| MacroExpand.MoreNesting | internal/preprocess/expand.go:18-19 | the nesting limit decides whether there is an expansion, not what it is |
| MacroExpand.ObjectsNeverMeet | internal/preprocess/expand.go:501-507 | without function-like macros, what can be expanded in full meets no macro inside its own expansion, so disabling them loses nothing |
| Glob.WildcardMatch | internal/project/glob.go:46-74 | the pointer loop ends and answers what the greedy strategy answers |
| Glob.GreedyIsSound | internal/project/glob.go:46-74 | whatever the matcher accepts does match, also strings with stars in them |
| Glob.GreedyIsExact | internal/project/glob.go:46-74 | for strings without a star, one backtrack point is enough to find every match |
| Glob.ExactIffNoStar | internal/project/glob.go:46-74 | the matcher agrees with the meaning of every pattern exactly if the string has no star |
| Glob.MatchesIsFromStart | internal/project/glob.go:46-74 | matching by recursion is the same as assigning text to the characters of the pattern |
| Glob.MatchSegments | internal/project/glob.go:20-37 | the table filled from the end answers whether the pattern spans the path, a double star taking any number of segments |
| Glob.SpansIsAssignment | internal/project/glob.go:20-37 | the pattern spans a path exactly if its segments can be assigned consecutive stretches of the path, any to `**` and one matching segment to each other |
| Glob.SegmentsRejoin | internal/project/glob.go:15-18 | segments hold no separator, and joined by slashes they are the string with every separator written as a slash |
| Glob.MatchGlob | internal/project/glob.go:5-13 | whatever path is accepted, the pattern means it; for paths without a star the answer is the meaning of the pattern; the empty pattern matches nothing |
| Glob.PathExactIffNoStar | internal/project/glob.go:20-44 | the table agrees with the meaning of every pattern exactly if no segment of the path has a star |
| Fixes.ValidateEdits | internal/fix/fix.go:75-102 | edits are accepted exactly if all are in bounds and every two distinct ones start apart and do not overlap; the result is the same set from left to right |
| Fixes.ApartMeans | internal/fix/fix.go:75-102 | two edits go together exactly if neither starts where the other does or inside what the other replaces |
| Fixes.Splice | internal/fix/fix.go:56-65 | splicing from right to left gives the text one pass from left to right would write |
| Fixes.LengthOfRewritten | internal/fix/fix.go:56-65 | the length changes by exactly the replacements minus the stretches they replace |
| Fixes.Build | internal/fix/fix.go:30-73 | a plan is refused exactly if a source is missing or the edits of some file clash; otherwise it changes exactly the files whose text changes, to the outcome of the set of their edits |
| Fixes.OutcomeIsUnique | internal/fix/fix.go:30-73 | the set of edits decides the outcome, so the order of diagnostics does not matter |
| Baselines.Generate | internal/baseline/baseline.go:95-105 | holds every fingerprint of the run once, and which those are depends only on how many diagnostics share a base |
| Baselines.Apply | internal/baseline/baseline.go:107-133 | keeps in input order exactly the diagnostics whose fingerprint is not in the baseline, and counts the entries found again |
| Baselines.SelectedInOrder | internal/baseline/baseline.go:107-133 | what is returned are the kept diagnostics, with and without a fingerprint, each once and in the order of the input |
| Baselines.CountingLaw | internal/baseline/baseline.go:95-133 | what applying the baseline of one run to another returns contains of each base exactly the excess over the first run, and all diagnostics without a fingerprint in their order |
| Baselines.StaleLaw | internal/baseline/baseline.go:132 | the stale count is the excess of the first run over the second, summed over all bases |
| Baselines.ApplyGenerated | internal/baseline/baseline.go:95-133 | generating from one run and applying to another gives these counts, whatever the order in which either run is counted |
| Baselines.FingerprintDiagnostics | internal/baseline/baseline.go:199-223 | the fingerprint of a diagnostic counts those with its base before it in the order |
| RequirementCycles.NativeRequirementCycle | internal/api/user.go:241-279 | the list is non-empty exactly if the requirements between known natives are cyclic, and then it is a closed chain of requirements |
| RequirementCycles.RequirementSearch.Visit | internal/api/user.go:244-269 | a visit without a cycle finishes the native after everything it requires and restores the stack |
| Graphs.OrderedIsAcyclic | internal/api/user.go:266-268 | vertices finished after everything they lead to lie on no cycle |
| IncludeCycles.BuildIncludeCycles | pkg/project/cycles.go:28-73 | every reported cycle is a closed chain of includes with distinct sources that its owner reaches, no two have the same key, and every unit whose reachable includes are cyclic has a cycle among those reported, as far as keys tell |
| IncludeCycles.NoRotationTwice | pkg/project/cycles.go:53-58 | no two reported cycles are rotations of each other |
| IncludeCycles.IncludeSearch.Visit | pkg/project/cycles.go:35-66 | a visit restores the chain and either finishes files after everything they include or reports a cycle the root reaches |
| IncludeCycles.IncludeCycleKey | pkg/project/cycles.go:75-92 | the key is the least of the joined rotations |
| IncludeCycles.KeyOfRotation | pkg/project/cycles.go:75-92 | the key does not depend on the edge the cycle starts with |
| IncludeCycles.SameKeyIsRotation | pkg/project/cycles.go:75-92 | where texts tell includes apart, cycles with the same key differ only in the edge they start with |
| IncludeCycles.WellNamedTellsApart | pkg/project/cycles.go:75-92 | files with different names, none with a colon, an angle bracket or a zero in it, are told apart by the texts of the includes between them |
| Strings.LessMeans | pkg/project/cycles.go:75-92 | a text is less than another exactly if it is a proper beginning of it or has the smaller character at the first difference |
| IncludeCycles.OwnCycleReported | pkg/project/cycles.go:28-73 | where texts tell includes apart, every unit whose includes are cyclic has a cycle that it reaches among those reported |
| References.ReferenceIndex.AddReference | pkg/project/declarations.go:365-398 | the maps always say exactly what the history of additions says |
| References.ReferenceIndex.IndexMeans | pkg/project/declarations.go:365-398 | a node is resolved to a declaration exactly if that is the only one ever added for it, and ambiguous exactly if several were |
| References.ReferenceIndex.RecordedOnce | pkg/project/declarations.go:393 | each pair of declaration and node is recorded exactly once |
| References.StatusMeans | pkg/project/declarations.go:365-398 | the outcome depends on what was added and not on order or repetition |
| Suppressions.BlockSuppresses | pkg/lint/suppress/matcher.go:36-76 | a diagnostic is suppressed exactly if a suppression of its rule or of all rules is open at its line; exactly the directives that opened those are marked, and the answer is the same without marks |
| Suppressions.LeftOpenMeans | pkg/lint/suppress/matcher.go:44-61 | the stack keeps exactly the openings behind which there are never more closings than openings |
| Suppressions.EventsMean | pkg/lint/suppress/matcher.go:43-61 | a disable opens and an enable closes, a next-line directive does neither; the suppression of all rules once if the directive is about all, that of a rule as often as it is named |
| Suppressions.MatchesMeans | pkg/lint/suppress/parser.go:32-42 | a directive is about a rule exactly if it is about all rules or names it |
| Suppressions.IsSuppressed | pkg/lint/suppress/matcher.go:18-34 | the first next-line directive that fits decides and is the only one marked; otherwise the open suppressions decide |
| Suppressions.SortedLines | pkg/lint/suppress/matcher.go:39-42 | in a sorted list the directives that count are those not behind the line |

## Left out

- CfgBuilder.Builder.SoundIff: for clauses inside conditional regions the condition compares what two graphs reach; the local form of SoundIffBridged needs clauses that are children of their switch, because only then are blocks numbered alike.
- CfgBuilder.Builder.ReachableRuns: not claimed for clauses inside conditional regions, where a default clause in a region leaves an edge in the built graph that no run takes.
- CfgBuilder.Builder.BuildDoWhile: the override that puts the condition into its own block for lookups is not modelled.
- CfgBuilder.Builder.Build: blocks are numbers and edge lists are sequences instead of pointers into a shared heap, so aliasing between slices of blocks is not captured. The search for the block of a nested expression is not modelled.
- ValuePropagation.ValueTables.PropagateValues: asks for constants that are independent of locals, without which the loop need not end (NothingToStopAt), though it may, as where a dependent constant has the same value whatever its locals are; that a constant with an initialiser is assigned nothing else, and that enum values and builtins are cells, are stated of the input.
- Aliases.AliasFlow.Aliases: gives the symbols as a set; the source lists them by name and place.
- ConstEval.Evaluator.Evaluate: tokens are given as parsed numbers, and expressions the evaluator gives up on are one case; the resolver hook is not modelled.
- CallGraphs.RecursiveSearch.FindRecursiveComponents: functions are numbers in declaration order, so sorting by file and offset is sorting by number.
- Effects.MapMutatedArguments: what an argument refers to is given per call; the loop over a set that a self-call extends reads the entries present when it starts. Effect sets of incomplete functions depend on the order of the queue and are only bounded.
- Effects.EffectAnalysis.BuildFunctionEffects: direct effects of each function are inputs; the sorted public lists are not modelled.
- Defines.DefineValues.View: lists are values here, so that the slice behind a returned list is not changed later is not modelled.
- ConditionalStates.IndexConditionalStates: names of directives and the branches around each are given; labels are computed before the end of input is known, as in the source, and its effect on them is not modelled. Tree states are not modelled.
- MacroExpand.Expander.ExpandPieces: origins, line ends and rendering are not modelled; whether two texts glue into one token is a table. For results of exactly one token more than the limit it is left open whether expansion stays complete, which depends on whether anything follows the last token. Expansion of the top-level token stream and of directives is not modelled.
- MacroExpand.FullIsFixed: that no piece starts a call is sufficient for the same outcome, not necessary (CallReplacedByItself); what is exact is whether expanding again replaces something.
- Glob.MatchGlob: the pattern is already trimmed.
- Fixes.Build: the plan is a map, so the order of changes by path, and which of several clashes is named, are not modelled. Writing files and showing differences are not part of this model.
- Baselines.Generate: the order in which diagnostics are counted is any order of their positions, of which the stable sort gives one; building the text a fingerprint is made from, and sorting entries, are not modelled.
- IncludeCycles.BuildIncludeCycles: the final sort by key is not modelled; that the texts of includes tell them apart is a condition of OwnCycleReported, met where files are named as WellNamedTellsApart asks.
- RequirementCycles.NativeRequirementCycle: the requirements of a native are tried in the order given, of which the sorted order is one.
- References.ReferenceIndex.AddReference: a node number includes its file, so the two-level maps are one level here.
- Suppressions.IsSuppressed: reading directives from comments is not modelled.
- Line tables, the compact twins of the tree algorithms, discovery, configuration, external rules and output formats would only add easy members or depend on code that is not shown.
- Parsing, lexing, file access, locks and caches are outside the model.
