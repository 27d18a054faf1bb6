# Models of LLVM's analyses, verified

This project models ten algorithms of an LLVM source tree in Dafny and proves what they are for.

| module files | source | main result |
|---|---|---|
| Digraph, TarjanWalk, SCCTables, EdgeRemoval, SCCRepair, RepairOutcome, LazyCallGraph | lib/Analysis/LazyCallGraph.cpp | the resumable post-order walk returns exactly the reachable strongly connected components, callees first; removing an edge inside one repairs components, leaf list and parent links |
| BrainFLanguage, BrainFCode, BrainFEmission, BrainFSimulation, BrainFPreservation, BrainFBuilder, BrainF, BrainFText | examples/BrainF/BrainF.cpp | the compiler accepts exactly the balanced programs and preserves their meaning, down to the characters of the text, for runs that end and runs that do not |
| PassInitialization | include/llvm/PassSupport.h | once-only initialization under every interleaving: safety, order, that runs end under every fair schedule exactly if nothing asked for leads to a dependency cycle, and that they initialize just what is needed |
| Dominance, DominanceFrontier | lib/Analysis/DominanceFrontier.cpp | the iterative walk computes the path-based dominance frontiers |
| CFGAnalysis | lib/Analysis/CFG.cpp | back edges, and bounded reachability: the answer is exact but for a search that comes to its limit |
| FloatArithmetic, MassDistribution | lib/Analysis/BlockFrequencyInfoImpl.cpp | 64-bit products and quotients with their error bounds; normalization and distribution that conserve mass |
| AliasSets | lib/Analysis/AliasSetTracker.cpp | alias sets are the connected components of the may-alias graph, and which of them are must-alias sets |
| BasicAlias | lib/Analysis/BasicAliasAnalysis.cpp | address decomposition, and answers for two GEPs that are exact for simple indices |
| DigitStrings, ConstantFolding, VectorCasts | lib/Analysis/ConstantFolding.cpp | loads from nested constants and vector casts, in both byte orders |
| CostModel | lib/Analysis/CostModel.cpp | what the reduction matchers accept, and what it computes |

Arithmetic holds the facts about powers of two, words and bit operations that the others share; Wrappers holds the
option type.

The objects of the sources that change their fields are classes with those fields.  Each method is proved against
value-level predicates and functions, and the lemmas about those carry the argument.  A long source function is cut
into several methods, each naming the lines it stands for.

Readings chosen:

* Nodes, SCCs, blocks, alias sets and values are numbers; the fields of the source's node and SCC objects are maps in
  the graph object that owns them.  A removed callee slot is taken out of the list instead of being set to null.
* BrainF: the tape is memory between the two ends of the array, the head an address; a step of the machine is one
  instruction.  The direct interpreter works on the commands of the text before any coalescing, and agrees with one
  that reads the text character by character.
* PassSupport: one atomic step is a compare-and-swap, a read or a write of a flag, a call or return, or a registration;
  memory is sequentially consistent.  A dependency is what the once-only body calls before it registers.
* AliasSetTracker: the alias analysis is any answer that is symmetric and for which locations that must alias are
  interchangeable; a pointer is always added with the same size and tag.  Type tags are taken not to matter for that:
  a record updated with a different tag has no tag any more, and an analysis of types may then say more aliases of it
  than of either tag; sets could become larger than the components.
* BasicAliasAnalysis: pointers and indices have 64 bits; an address is any word, and an access does not wrap around.
* ConstantFolding: sizes, field offsets and strides come with the constants, as the data layout gives them.
* CostModel: operators are any functions on any type of lanes; an undefined lane may hold anything.

Where code and documentation differ the code is modelled:

* include/llvm/Analysis/LazyCallGraph.h:318-319 promises that all parent links are updated.  Links from SCCs outside
  the old component to SCCs split off are not; `RepairOutcome.ExactAfterRemoval` says exactly when that matters, and
  `RepairOutcome.LinkMissing` is a graph of three nodes where it does.  Lines 316-317 call the kept SCC the parent of
  any new one: it leads to all of them and is entered where it calls, but need not call each itself;
  `RepairOutcome.RootNotParent`.
* BasicAliasAnalysis: with a constant difference the size of the lower access is not looked at, so that an access
  longer than the way around the address space meets the other; `BasicAlias.ConstantAnswerExact` and, for two literal
  accesses, `BasicAlias.ConstantAnswerWrong`.
* CostModel: the shuffles of the last pairwise level may take their lanes from a wider or narrower vector;
  `CostModel.PairwiseAllLanes` has the exact condition, `CostModel.TwoOfFourAccepted` a program that is accepted
  although it adds two lanes of four.
* CostModel: the mask of a level is written with as many elements as the level has leaves, whatever length the shuffle
  has (CostModel.cpp:122-127).  It is written behind its end exactly if the matcher reaches a level that is too wide;
  `CostModel.MatchPairwiseReduction` and, for one program, `CostModel.ShortMasksOverrun`.
* PassSupport: initialization ends exactly if nothing that is asked for leads to a cycle of dependencies
  (`PassInitialization.EndsExactly`).  A group whose default pass is not declared as the default is such a cycle;
  `PassInitialization.DefaultMustBeDeclared` and, for a program of two passes, `PassInitialization.UndeclaredNeverEnds`.

## Model

| member | source | states |
|---|---|---|
| LazyCallGraphs.LazyCallGraph.constructor | lib/Analysis/LazyCallGraph.cpp:100-131 | A fresh graph has visited nothing and formed no SCC; the invariant of the walk holds. |
| SCCTables.InsertKeeps | lib/Analysis/LazyCallGraph.cpp:159-163 | A node without an SCC enters one, numbered -1: it moves there and nothing else changes, and numbers, node lists and the SCC map still agree with one another, every list holding each member once. |
| SCCTables.ListedExact | lib/Analysis/LazyCallGraph.cpp:159-163 | The list of an SCC has exactly its members and as many entries as it has members. |
| LazyCallGraphs.LazyCallGraph.ConnectToChildren | lib/Analysis/LazyCallGraph.cpp:594-605 | The SCC becomes a parent of exactly the other SCCs its nodes call, and is a leaf exactly if there are none. |
| LazyCallGraphs.LazyCallGraph.FormSCC | lib/Analysis/LazyCallGraph.cpp:580-612 | The root and what lies above it on the stack, and nothing else, become a new SCC, listed from the top of the stack down with the root last; parent sets and leaf list are brought up to date exactly. |
| LazyCallGraphs.LazyCallGraph.ScanEdges | lib/Analysis/LazyCallGraph.cpp:638-663 | Descending through unvisited callees keeps the invariant of the walk, visits only what the entries reach, and ends at a node all of whose edges have been looked at. |
| LazyCallGraphs.LazyCallGraph.PickNode | lib/Analysis/LazyCallGraph.cpp:615-632 | The walk is taken up at the saved node or restarted at an unvisited entry; none is left exactly when every entry node is in an SCC. |
| LazyCallGraphs.LazyCallGraph.FormFound | lib/Analysis/LazyCallGraph.cpp:665-667 | At a root one SCC is formed whose members were in none before; all SCCs stay maximal, the leaf list and the parent sets exact. |
| LazyCallGraphs.LazyCallGraph.GetNextSCCInPostOrder | lib/Analysis/LazyCallGraph.cpp:614-681 | Every call keeps the whole state valid and forms exactly one new SCC with all its nodes, or reports the end, when all entry nodes are placed; exact parent sets stay exact; every SCC lists each of its members once. |
| LazyCallGraphs.LazyCallGraph.PostOrderSCCs | include/llvm/Analysis/LazyCallGraph.h:406-409 | The whole run: the SCCs returned are the maximal ones, each once; their nodes are exactly those reachable from the entries, each listed once; what an SCC reaches was returned no later. |
| TarjanWalk.AdvanceKeeps | lib/Analysis/LazyCallGraph.cpp:657-662 | Taking over the low link of a visited callee, or passing one that is done with, keeps the Tarjan invariant, also when a resumed node looks at an edge again. |
| TarjanWalk.PopKeeps | lib/Analysis/LazyCallGraph.cpp:669-679 | A node whose low link lies below its number goes on the pending stack and the walk stays valid one node further down. |
| TarjanWalk.PathReaches | lib/Analysis/LazyCallGraph.cpp:640-655 | A node on the path reaches everything numbered after it that is still active. |
| TarjanWalk.ReachesTop | lib/Analysis/LazyCallGraph.cpp:640-655 | Everything visited and not done with reaches the node being visited. |
| TarjanWalk.ComponentIsSCC | lib/Analysis/LazyCallGraph.cpp:665-667 | When low link and number agree after the last edge, root and stack tail are a maximal strongly connected component. |
| TarjanWalk.ComponentClosed | lib/Analysis/LazyCallGraph.cpp:665-667 | No edge leaves the new component except into those formed before. |
| TarjanWalk.LeftBehind | lib/Analysis/LazyCallGraph.cpp:586-591 | What stays on the stacks after an SCC is formed was visited before its root, so popping by number takes the component and no more. |
| SCCTables.PostOrderedMore | lib/Analysis/LazyCallGraph.cpp:614-681 | Appending the new SCC keeps the list in post-order. |
| SCCTables.ReachedFromEntries | lib/Analysis/LazyCallGraph.cpp:614-625 | At the end the nodes in SCCs are exactly those that some entry node reaches. |
| SCCTables.CallsOld | lib/Analysis/LazyCallGraph.cpp:594-605 | Forming an SCC changes nothing about the calls between the others. |
| LazyCallGraphs.LazyCallGraph.RemoveEdgeInternal | lib/Analysis/LazyCallGraph.cpp:91-98 | Exactly the given edge disappears from the graph. |
| LazyCallGraphs.LazyCallGraph.ResetNodes | lib/Analysis/LazyCallGraph.cpp:470-477 | The SCC is emptied: its nodes are unvisited and in no SCC, all others as before. |
| LazyCallGraphs.LazyCallGraph.RepairScan | lib/Analysis/LazyCallGraph.cpp:390-433 | The edge loop of the repair walk keeps its invariant up to a node of the kept SCC or the last edge. |
| LazyCallGraphs.LazyCallGraph.DropStacks | lib/Analysis/LazyCallGraph.cpp:396-403 | Meeting the kept SCC puts the current node and both stacks into it; that is right because all of them reach the callee. |
| LazyCallGraphs.LazyCallGraph.FormSplit | lib/Analysis/LazyCallGraph.cpp:435-436 | A root of the repair walk gives a new SCC, listed behind those it reaches. |
| LazyCallGraphs.LazyCallGraph.InternalDFS | lib/Analysis/LazyCallGraph.cpp:377-454 | A whole repair walk places every node it visits, in the kept SCC or in new ones, and keeps the repair invariant. |
| LazyCallGraphs.LazyCallGraph.RunRepair | lib/Analysis/LazyCallGraph.cpp:489-499 | After the walks every node of the old component is placed again. |
| LazyCallGraphs.LazyCallGraph.Reconnect | lib/Analysis/LazyCallGraph.cpp:501-525 | The kept SCC is entered where it calls, and is taken off the leaf list exactly if something was split off and it is no leaf; the others stay in their order. |
| LazyCallGraphs.LazyCallGraph.RemoveIntraSCCEdge | lib/Analysis/LazyCallGraph.cpp:456-529 | The nodes that still reach the callee stay; the others form the returned SCCs, maximal, distinct, callees first; all SCCs of the graph are right again and list each member once, the leaf list is exact everywhere and without repetitions, outgoing parent links of the old component's nodes are exact, the kept SCC leads to every new one, and a walk under way goes on undisturbed. |
| EdgeRemoval.RemainingIsSCC | lib/Analysis/LazyCallGraph.cpp:481-487 | The members that still reach the target of the removed edge are strongly connected and maximal. |
| EdgeRemoval.SCCElsewhere | lib/Analysis/LazyCallGraph.cpp:456-460 | Removing an edge inside one component leaves every other component one. |
| EdgeRemoval.ReachAround | lib/Analysis/LazyCallGraph.cpp:456-460 | Whatever is reached without passing the source of the edge is still reached. |
| RepairOutcome.KeptMembers | lib/Analysis/LazyCallGraph.cpp:396-403 | A member of the old component stays exactly if it still reaches the callee. |
| RepairOutcome.RepairSplitOff | lib/Analysis/LazyCallGraph.cpp:377-454 | The repair distributes the component as promised: kept nodes, new SCCs, and their order. |
| RepairOutcome.OutcomeLeaves | lib/Analysis/LazyCallGraph.cpp:521-525 | After the repair the leaf list holds exactly the SCCs without outgoing calls. |
| RepairOutcome.SplitNoLeaf | lib/Analysis/LazyCallGraph.cpp:512-520 | If something was split off, the kept SCC leads to it and is no leaf, as the source asserts. |
| RepairOutcome.RepairRelinked | lib/Analysis/LazyCallGraph.cpp:501-511 | Outgoing parent links of the kept and the new SCCs are exact, those of all others unchanged. |
| RepairOutcome.WalkGoesOn | lib/Analysis/LazyCallGraph.cpp:456-529 | A postponed post-order walk is still a valid Tarjan walk on the graph without the edge. |
| RepairOutcome.ExactAfterRemoval | include/llvm/Analysis/LazyCallGraph.h:318-319 | All parent links are right after the removal if and only if no SCC outside calls a node that was split off; the header's promise fails exactly then. |
| RepairOutcome.NotExactIfCalled | lib/Analysis/LazyCallGraph.cpp:501-511 | Such a call leaves a parent link missing. |
| RepairOutcome.LinkMissing | lib/Analysis/LazyCallGraph.cpp:456-529 | Three nodes, one edge removed: everything that the repair promises holds, and yet the outside SCC is missing at the new SCC it calls and still entered at the kept one, which it no longer calls. |
| RepairOutcome.KeptIsRoot | include/llvm/Analysis/LazyCallGraph.h:316-317 | The callee, which stays in the kept SCC, reaches every node that has been split off. |
| RepairOutcome.RootNotParent | include/llvm/Analysis/LazyCallGraph.h:316-317 | Three nodes in a cycle, one call removed: one of the two new SCCs is not called by the kept one, so being its root does not mean being a parent of each. |
| BrainFLanguage.SplitUnique | examples/BrainF/BrainF.cpp:184-467 | A text tells in one way only where a list of commands ends. |
| BrainFLanguage.ProgramUnique | examples/BrainF/BrainF.cpp:184-467 | A text is the text of at most one program. |
| BrainFLanguage.TextBalanced | examples/BrainF/BrainF.cpp:417-466 | The symbols of a program have balanced brackets. |
| BrainFCompiler.BrainF.Parse | examples/BrainF/BrainF.cpp:40-50 | Compilation succeeds exactly for balanced texts, reports an extra bracket exactly if some prefix closes one too many and a missing one exactly if brackets are only left open, emits the code of that very program with runs of moves joined as far as they go, and every phi has exactly one entry per predecessor. |
| BrainFCompiler.BrainF.Header | examples/BrainF/BrainF.cpp:52-182 | The fixed blocks and the code in front of the program. |
| BrainFCompiler.BrainF.ReadSymbols | examples/BrainF/BrainF.cpp:311-414 | Lexing with one symbol of lookahead: a run of changes or moves is coalesced to its net value, and no symbol is lost, reordered or read twice. |
| BrainFCompiler.BrainF.TakeRun | examples/BrainF/BrainF.cpp:329-371 | A change or move joins the current run, starts one, or ends another as the next symbol. |
| BrainFCompiler.BrainF.EmitSymbol | examples/BrainF/BrainF.cpp:196-309 | One symbol extends the emitted code by exactly the operation of its run. |
| BrainFBuilder.LoopStarts | examples/BrainF/BrainF.cpp:283-299 | After the test block with its phi node and the body block have been made, both are empty and open, every phi still has one entry per predecessor, and no other block has changed. |
| BrainFCompiler.BrainF.EndLoop | examples/BrainF/BrainF.cpp:423-455 | The second entry of the phi, the loop test, and a block with a phi of one entry to go on in. |
| BrainFCompiler.BrainF.EmitLoop | examples/BrainF/BrainF.cpp:283-303 | A whole loop is emitted as one operation of the code around it. |
| BrainFCompiler.BrainF.ReadLoop | examples/BrainF/BrainF.cpp:184-467 | Reading to the end or to the closing bracket emits the code of what was read; an extra or missing bracket is reported exactly when there is one. |
| BrainFCompiler.BracketsSettled | examples/BrainF/BrainF.cpp:417-466 | The outcome of reading decides whether the text is balanced, closes too much, or is left open, both ways. |
| BrainFBuilder.JumpInBuilt | examples/BrainF/BrainF.cpp:426-432 | Ending a block with a jump and adding its phi entry keeps one entry per predecessor everywhere. |
| BrainFBuilder.AppendedBuilt | examples/BrainF/BrainF.cpp:196-281 | Instructions without a terminator change no edge of the graph. |
| BrainFBuilder.GrownLoop | examples/BrainF/BrainF.cpp:283-303 | A finished loop keeps the graph built and counts as one operation. |
| BrainFEmission.EmittedStill | examples/BrainF/BrainF.cpp:184-467 | What has been emitted stays emitted whatever is added later. |
| BrainFEmission.EmittedBoth | examples/BrainF/BrainF.cpp:194-309 | The code of two lists in a row is the code of their concatenation. |
| BrainFEmission.LoopUnrolled | examples/BrainF/BrainF.cpp:423-455 | Going back to the test of a loop leaves the loop and all behind it to be done. |
| BrainFSimulation.ReadKeepsStep | examples/BrainF/BrainF.cpp:201-215 | The three instructions of a read do what the command does. |
| BrainFSimulation.WriteKeepsStep | examples/BrainF/BrainF.cpp:217-235 | Load, extension and putchar write the signed value of the cell. |
| BrainFSimulation.ChangeKeepsStep | examples/BrainF/BrainF.cpp:269-281 | Adding the net value once has the effect of the whole run, modulo 256. |
| BrainFSimulation.MoveKeepsStep | examples/BrainF/BrainF.cpp:237-267 | Moving by the net value puts the head where the run puts it, and the check branches away exactly when it is off the tape then. |
| BrainFSimulation.LoopKeepsStep | examples/BrainF/BrainF.cpp:423-455 | The test enters the body or leaves the loop as the cell says, the phi giving the head. |
| BrainFSimulation.EndKeepsStep | examples/BrainF/BrainF.cpp:460-461 | At the end of the program the machine frees and returns with the same results. |
| BrainFPreservation.KeepStep | examples/BrainF/BrainF.cpp:184-467 | From agreeing states machine and interpreter go on agreeing for ever, unless a run of moves ends off the tape. |
| BrainFPreservation.Preserves | examples/BrainF/BrainF.cpp:40-50 | The compiled program keeps step with the direct interpreter beyond any point, from the very start, for every input, unless a run of moves ends off the tape. |
| BrainFPreservation.NeverFaults | examples/BrainF/BrainF.cpp:244-265 | With array bounds checked no run ever touches memory outside the tape. |
| BrainFPreservation.HaltingPreserved | examples/BrainF/BrainF.cpp:40-50 | A program all of whose runs of moves end on the tape, and which comes to its end, ends in the compiled form with the same output, input left and tape, and the register of the last head holds the address where the interpreter has its head. |
| BrainFPreservation.ReturnJustified | examples/BrainF/BrainF.cpp:40-50 | If the compiled program returns, so does the interpreter with the same output, tape and head, or the head was reported off the tape. |
| BrainFPreservation.OutputPreserved | examples/BrainF/BrainF.cpp:40-50 | Even of a program that never ends all output appears, and nothing else, if its runs of moves end on the tape. |
| BrainFText.CharacterIsCommand | examples/BrainF/BrainF.cpp:10-23 | Each symbol does in the text what its command does in the interpreter, as the table of commands has it (255 at the end of the input, cells wrapping), and any other character does nothing. |
| BrainFText.LoopCloses | examples/BrainF/BrainF.cpp:22-23 | The bracket that closes a loop is the first place at which all brackets are closed, whatever comments there are. |
| BrainFText.TextInterpreted | examples/BrainF/BrainF.cpp:10-23 | Whatever has been read of a text character by character is what the interpreter has done. |
| BrainFText.CommandsRead | examples/BrainF/BrainF.cpp:10-23 | Whatever the interpreter has done is found when the text is read character by character. |
| BrainFText.TextOutputPreserved | examples/BrainF/BrainF.cpp:40-50 | The compiled program writes what its text says to write, character by character, and nothing else, even if it never ends. |
| BrainFText.TextHaltingPreserved | examples/BrainF/BrainF.cpp:40-50 | When the text has been read to its end, the compiled program returns with the same output, input left, tape and head. |
| PassInitialization.StepKeeps | include/llvm/PassSupport.h:36-54 | Every atomic step of every thread keeps the invariant of flags, activations and registered passes. |
| PassInitialization.Calls | include/llvm/PassSupport.h:79-86 | The body calls exactly what its declaration names: the dependencies, the group of a member that is not its default, the default of a group. |
| PassInitialization.Run | include/llvm/PassSupport.h:36-54 | The invariant holds in every state of every interleaving of any number of threads. |
| PassInitialization.RunsOnce | include/llvm/PassSupport.h:38-44 | A once-only body runs in at most one activation over all threads, and only while its flag is 1. |
| PassInitialization.FlagsNeverFall | include/llvm/PassSupport.h:37-52 | Flags never go down, so a started body is never started again. |
| PassInitialization.StartsOnce | include/llvm/PassSupport.h:37-44 | Over a whole schedule of any threads the body of a pass is started at most once. |
| PassInitialization.ReturnedRegistered | include/llvm/PassSupport.h:46-53 | Whoever has returned from an initialization finds the pass and all it depends on registered and the flag at 2. |
| PassInitialization.RegisteredOnceInOrder | include/llvm/PassSupport.h:79-95 | In every run each pass is registered at most once, after every dependency it declares; a member that is not the default after its group, and a group after its default. |
| PassInitialization.NestedInTurn | include/llvm/PassSupport.h:79-86 | An activation has called the declared initializations in their order, the group first, each after the one before was complete. |
| PassInitialization.OnlyNeeded | include/llvm/PassSupport.h:79-86 | In every run nothing is started or registered but what is asked for or declared, directly or not, by something that is. |
| PassInitialization.OwnerOf | include/llvm/PassSupport.h:47-52 | Behind every spinning thread stands a thread that runs the body it waits for. |
| PassInitialization.NoDeadlock | include/llvm/PassSupport.h:36-54 | As long as some thread has work, some thread can make progress, if the threads only have to do with passes that do not depend on each other in a cycle. |
| PassInitialization.StepProgress | include/llvm/PassSupport.h:36-54 | Each step that is not a spin starts a body or reduces the finite work that is left. |
| PassInitialization.RunsToEnd | include/llvm/PassSupport.h:36-54 | From every reachable state whose threads only have to do with such passes some schedule brings all threads to rest. |
| PassInitialization.FairRunEnds | include/llvm/PassSupport.h:36-54 | The same from every reachable state: fairness is enough, spinning threads cannot keep the others from ending. |
| PassInitialization.FairSchedulesEnd | include/llvm/PassSupport.h:36-54 | If nothing that is asked for leads to a cycle, every schedule that takes each thread again and again brings them all to rest. |
| PassInitialization.EndsExactly | include/llvm/PassSupport.h:36-54 | From the start some schedule brings every thread to rest if and only if nothing that is asked for leads to a cycle of dependencies. |
| PassInitialization.UndeclaredNeverEnds | include/llvm/PassSupport.h:187-201 | A group and its undeclared default pass, one thread asking for the group: no schedule brings the thread to rest. |
| PassInitialization.EndsRegistered | include/llvm/PassSupport.h:36-54 | A thread at rest has all it was asked to initialize registered. |
| PassInitialization.EndsWithNeeded | include/llvm/PassSupport.h:79-95 | When every thread is at rest, exactly that is registered. |
| PassInitialization.CycleNeverRegistered | include/llvm/PassSupport.h:82-85 | What lies on a cycle of dependencies is never registered. |
| PassInitialization.DefaultMustBeDeclared | include/llvm/PassSupport.h:187-201 | A group whose default pass is not declared as the default is never initialized, since the two wait for each other. |
| DominanceFrontiers.LocalInFrontier | lib/Analysis/DominanceFrontier.cpp:65-71 | A successor that a block does not immediately dominate is in its frontier. |
| DominanceFrontiers.FrontierFromChild | lib/Analysis/DominanceFrontier.cpp:98-103 | What comes up from a child is in the frontier of the parent. |
| DominanceFrontiers.FrontierSplits | lib/Analysis/DominanceFrontier.cpp:74-75 | Every member of a frontier is local or comes up from a child. |
| DominanceFrontiers.VisitKeeps | lib/Analysis/DominanceFrontier.cpp:61-87 | The first visit of a block keeps the invariant of the walk. |
| DominanceFrontiers.LeaveKeeps | lib/Analysis/DominanceFrontier.cpp:89-105 | Leaving a block completes its frontier and hands on to the parent what it should get. |
| DominanceFrontiers.WalkEnds | lib/Analysis/DominanceFrontier.cpp:91-96 | When the walk is back at its start every frontier below is exact, all other entries untouched. |
| DominanceFrontiers.DominanceFrontier.EnterLocal | lib/Analysis/DominanceFrontier.cpp:65-71 | Exactly the local part of the frontier is entered. |
| DominanceFrontiers.DominanceFrontier.MergeUp | lib/Analysis/DominanceFrontier.cpp:98-103 | Exactly what the parent does not strictly dominate is added to its frontier. |
| DominanceFrontiers.DominanceFrontier.Calculate | lib/Analysis/DominanceFrontier.cpp:39-110 | For every block of the subtree the computed set is exactly the path-based dominance frontier; nothing else changes; the loop ends. |
| Dominance.ProperlyDominates | include/llvm/Support/GenericDomTree.h:182-192 | The walk up the dominator tree answers strict dominance, defined by paths, exactly. |
| Dominance.ChildTowards | include/llvm/Support/GenericDomTree.h:188-191 | On the way from a block down to one it strictly dominates lies a child of it in the tree. |
| Dominance.DominatesPredecessor | lib/Analysis/DominanceFrontier.cpp:66-71 | What strictly dominates a block dominates its reachable predecessors. |
| CFGAnalysis.FindFunctionBackedges | lib/Analysis/CFG.cpp:27-66 | Every reported edge closes a cycle; the reachable graph without the reported edges is ranked downwards, and an edge is reported exactly if it does not lead down in that ranking; no place among the successors is reported twice. |
| CFGAnalysis.OrderedAcyclic | lib/Analysis/CFG.cpp:27-66 | Such a ranking leaves no cycle. |
| CFGAnalysis.LookedBack | lib/Analysis/CFG.cpp:52-54 | A successor on the stack gives a back edge that lies on a cycle. |
| CFGAnalysis.LevelUp | lib/Analysis/CFG.cpp:61-64 | When a block is left, every back edge to it comes from it or from a block left before. |
| CFGAnalysis.GetOutermostLoop | lib/Analysis/CFG.cpp:112-119 | The outermost loop around a block, if it is in any. |
| CFGAnalysis.LoopContainsBoth | lib/Analysis/CFG.cpp:122-127 | True exactly if one outermost loop holds both blocks. |
| CFGAnalysis.GetExitBlocks | lib/Analysis/CFG.cpp:163-163 | The blocks outside a loop that an edge from inside leads to. |
| CFGAnalysis.ReachesEarly | lib/Analysis/CFG.cpp:146-151 | The three early answers are right, and otherwise stop block and loop are not shared. |
| CFGAnalysis.SearchFails | lib/Analysis/CFG.cpp:167-171 | When the work list is empty the stop block is unreachable, although loops were jumped over. |
| CFGAnalysis.IsPotentiallyReachableInner | lib/Analysis/CFG.cpp:129-172 | Yes if and only if some block of the work list reaches the stop block or the steps of the search, which jump from a loop to its exits, lead to 32 blocks or more; with or without dominators and loops. |
| CFGAnalysis.IsPotentiallyReachable | lib/Analysis/CFG.cpp:174-184 | Between two blocks the answer is yes if and only if there is a path or the steps of the search lead to 32 blocks or more. |
| CFGAnalysis.IsPotentiallyReachableInstruction | lib/Analysis/CFG.cpp:186-236 | Between instructions the answer is yes if and only if control can go from one to the other, the search would come to 32 blocks or more, or the question is about another block than the entry block from there, which is not looked into. |
| FloatArithmetic.AddWithCarry | lib/Analysis/BlockFrequencyInfoImpl.cpp:289-293 | Adding a shifted partial product to two digits is exact, the carry included. |
| FloatArithmetic.Product | lib/Analysis/BlockFrequencyInfoImpl.cpp:281-295 | The two digits are the exact product. |
| FloatArithmetic.Multiply64 | lib/Analysis/BlockFrequencyInfoImpl.cpp:279-308 | The result is the product rounded half up to 64 digits, with no more digits dropped than necessary; exact if it fits. |
| FloatArithmetic.NextDigit | lib/Analysis/BlockFrequencyInfoImpl.cpp:258-268 | One step of long division, with the overflow of the shifted remainder. |
| FloatArithmetic.LongDivide | lib/Analysis/BlockFrequencyInfoImpl.cpp:251-268 | The digits are those of the quotient; it ends with 64 digits or no remainder. |
| FloatArithmetic.RoundQuotient | lib/Analysis/BlockFrequencyInfoImpl.cpp:270-276 | The quotient is rounded twice with the same remainder: by nothing, two units, or one on overflow. |
| FloatArithmetic.DivisionClose | lib/Analysis/BlockFrequencyInfoImpl.cpp:270-276 | Rounded that way the quotient is within three halves of a unit, and exact without remainder. |
| FloatArithmetic.RoundedAsDivided | lib/Analysis/BlockFrequencyInfoImpl.cpp:270-276 | What the digits of the odd part of the divisor are rounded to is determined by the quotient by the divisor itself and its remainder. |
| FloatArithmetic.RemainderNeedsDigits | lib/Analysis/BlockFrequencyInfoImpl.cpp:255-268 | A remainder behind 64 digits means the true quotient needs more digits. |
| FloatArithmetic.Divide64 | lib/Analysis/BlockFrequencyInfoImpl.cpp:228-277 | For all nonzero inputs the result is within three halves of a unit of the quotient, has 64 digits unless it is exact, and equals the quotient whenever 64 digits can hold it; it is the whole part of the quotient, or two units more, or the next power of two, as the doubled rounding of the remainder has it. |
| FloatArithmetic.Scale | lib/Support/BranchProbability.cpp:28-65 | Multiplying by a fraction in 32-bit digits is the exact floor, saturated. |
| FloatArithmetic.ScaleAtMost | lib/Support/BranchProbability.cpp:28-65 | A probability takes no more than there is, and everything at probability one. |
| MassDistribution.CombineWeightsBySorting | lib/Analysis/BlockFrequencyInfoImpl.cpp:428-448 | In-place compaction after sorting leaves one entry per target with all that it gets, by rising targets. |
| MassDistribution.CombineWeightsByHashing | lib/Analysis/BlockFrequencyInfoImpl.cpp:449-465 | So does collecting in a hash table, in any order; weights with different targets are left as they are. |
| MassDistribution.CombineWeights | lib/Analysis/BlockFrequencyInfoImpl.cpp:466-474 | Either way is taken by size, with the same meaning; up to 128 weights end up by rising targets. |
| MassDistribution.SameCombination | lib/Analysis/BlockFrequencyInfoImpl.cpp:428-465 | Whichever way is taken, the combined entries are the same. |
| MassDistribution.CombinedSum | lib/Analysis/BlockFrequencyInfoImpl.cpp:417-465 | Combining loses no weight. |
| MassDistribution.Distribution.Add | lib/Analysis/BlockFrequencyInfoImpl.cpp:396-415 | A weight is appended, the total kept exact, and overflow noticed exactly when it happens. |
| MassDistribution.ScaleWeights | lib/Analysis/BlockFrequencyInfoImpl.cpp:512-526 | Scaled weights are at least 1 and their sum fits into 32 bits. |
| MassDistribution.Distribution.Normalize | lib/Analysis/BlockFrequencyInfoImpl.cpp:482-528 | One entry per target, each at least 1, the total their sum and within 32 bits; a single entry becomes 1; otherwise all amounts are cut by the power of two that leaves 31 bits of the sum, rounded to the nearest, or by nothing if the sum fits. |
| MassDistribution.ScaledNearest | lib/Analysis/BlockFrequencyInfoImpl.cpp:475-481 | An amount is rounded to the nearest number of units, halves upwards, and is at least one. |
| MassDistribution.DitheringDistributer.TakeMass | lib/Analysis/BlockFrequencyInfoImpl.cpp:385-394 | A share is the exact floor of its part of what is left, and taken from it; the last weight empties it. |
| MassDistribution.LoopMasses.DistributeMass | lib/Analysis/BlockFrequencyInfoImpl.cpp:662-708 | The portions are those of dithering, sum exactly to the mass, and each is fair; the back edge grows by those of the back edges, the exits by the pairs of target and portion of the exit edges in their order, each block by those of the local edges to it, all saturating; unless something saturates, all together grow by the mass. |
| MassDistribution.NothingLost | lib/Analysis/BlockFrequencyInfoImpl.cpp:687-707 | Unless something is cut off, what blocks, back edge and exits have more than before is exactly what was to distribute. |
| MassDistribution.LocalPortion | lib/Analysis/BlockFrequencyInfoImpl.cpp:692-697 | With one weight per target, a block is given exactly the portion of its weight. |
| MassDistribution.PortionsConserve | lib/Analysis/BlockFrequencyInfoImpl.cpp:385-394 | Whatever is rounded off, all of the mass is taken. |
| MassDistribution.PortionsFair | lib/Analysis/BlockFrequencyInfoImpl.cpp:385-394 | Portion i is less than one unit below its exact share and at most i units above it. |
| AliasSets.SetsAreComponents | lib/Analysis/AliasSetTracker.cpp:266-289 | Two pointers are in the same live set if and only if a chain of possible aliases connects them. |
| AliasSets.MergeKeeps | lib/Analysis/AliasSetTracker.cpp:30-79 | Merging two sets that a new pointer may alias keeps the invariant. |
| AliasSets.HeadsApart | lib/Analysis/AliasSetTracker.cpp:39-56 | Heads of two must-alias sets never may alias, so a merged set always becomes a may-alias set. |
| AliasSets.JoinKeeps | lib/Analysis/AliasSetTracker.cpp:94-123 | A pointer joining the one set it may alias keeps the invariant, the head standing for a must-alias set. |
| AliasSets.AloneKeeps | lib/Analysis/AliasSetTracker.cpp:284-288 | A pointer that aliases no set gets one of its own. |
| AliasSets.CollapseKeeps | include/llvm/Analysis/AliasSetTracker.h:242-246 | Collapsing forwarding chains changes no set. |
| AliasSets.AliasSetTracker.GetForwardedTarget | include/llvm/Analysis/AliasSetTracker.h:238-248 | The final set of a chain of forwards, every other target unchanged. |
| AliasSets.AliasSetTracker.AliasesPointer | lib/Analysis/AliasSetTracker.cpp:142-168 | True exactly if the location may alias some pointer of the set, although a must-alias set looks at one record only. |
| AliasSets.AliasSetTracker.MergeSetIn | lib/Analysis/AliasSetTracker.cpp:30-79 | The other set's pointers are appended and it forwards here. |
| AliasSets.AliasSetTracker.FindAliasSetForPointer | lib/Analysis/AliasSetTracker.cpp:217-232 | All sets the pointer may alias are merged into the first of them, their pointers in order, the others forwarding to it; it becomes a may-alias set exactly if it was one or another was merged; none is found exactly if there was none; all other sets are as before. |
| AliasSets.AliasSetTracker.AddPointer | lib/Analysis/AliasSetTracker.cpp:94-123 | A new pointer is placed at the end of the set and the whole invariant kept; the set is a may-alias set exactly if it was one or its head does not must-alias the pointer, and otherwise the record of the head is updated. |
| AliasSets.AliasSetTracker.GetAliasSetForPointer | lib/Analysis/AliasSetTracker.cpp:266-289 | After any sequence of additions the sets are the components; the returned set is live and holds the pointer; a set is new exactly when no other may alias, and is then a must-alias set; a set that is joined stays a must-alias set exactly if it was one, no other was merged into it, and its head must alias the pointer; a known pointer changes nothing. |
| AliasSets.UnifiedJoined | lib/Analysis/AliasSetTracker.cpp:278-282 | Merging and adding together give a must-alias set exactly in that case, with the pointers of all merged sets in order and the new one last. |
| AliasSets.UpdateCovers | include/llvm/Analysis/AliasSetTracker.h:59-69 | An updated record has the larger of the sizes, and a tag as long as all were the same. |
| BasicAlias.LinearExact | lib/Analysis/BasicAliasAnalysis.cpp:206-272 | The linear form of an index has its value under every valuation, modulo 2^64. |
| BasicAlias.LinearStops | lib/Analysis/BasicAliasAnalysis.cpp:206-272 | All operations that can be looked through are: what is left of an index is no sum, product, shift, or `or` with clear bits, unless six have been taken off. |
| BasicAlias.AtomFound | lib/Analysis/BasicAliasAnalysis.cpp:206-272 | Of at most six such operations on an atom only the atom is left. |
| BasicAlias.AddVariable | lib/Analysis/BasicAliasAnalysis.cpp:388-412 | Merging a scaled variable keeps the sum, one entry per variable, and no zero scale. |
| BasicAlias.AddIndices | lib/Analysis/BasicAliasAnalysis.cpp:346-413 | All indices of a GEP are accounted for exactly. |
| BasicAlias.DecomposeGEPExpression | lib/Analysis/BasicAliasAnalysis.cpp:289-422 | Base, offset and variables give the address under every valuation; the search gives up exactly at six steps, otherwise at the underlying object. |
| BasicAlias.SubtractEntry | lib/Analysis/BasicAliasAnalysis.cpp:1385-1410 | One entry is taken off, in place, by erasing or as a new negative one. |
| BasicAlias.GetIndexDifference | lib/Analysis/BasicAliasAnalysis.cpp:1378-1412 | The symbolic difference has the value of the difference, with one entry per variable and no zero scales. |
| BasicAlias.DifferenceOfAddresses | lib/Analysis/BasicAliasAnalysis.cpp:962-965 | The subtracted decompositions give the true distance of the addresses modulo 2^64. |
| BasicAlias.LowestBitDivides | lib/Analysis/BasicAliasAnalysis.cpp:1042-1045 | The bit trick isolates the largest power of two that divides the number. |
| BasicAlias.ModuloOf | lib/Analysis/BasicAliasAnalysis.cpp:1041-1050 | The modulus divides every value of the variable part; the mask is the remainder. |
| BasicAlias.ModuloDisjoint | lib/Analysis/BasicAliasAnalysis.cpp:1050-1053 | When the modulo test says no, accesses that do not wrap are disjoint. |
| BasicAlias.ModuloTestExact | lib/Analysis/BasicAliasAnalysis.cpp:1041-1053 | For free variables the modulo test says no if and only if no values of the variables let the accesses meet. |
| BasicAlias.MultipleReached | lib/Analysis/BasicAliasAnalysis.cpp:1041-1050 | Every multiple of the modulus is the value of the variables for some valuation. |
| BasicAlias.ConstantDisjoint | lib/Analysis/BasicAliasAnalysis.cpp:1015-1036 | When the constant test says no and no access is too long, the accesses are disjoint. |
| BasicAlias.ConstantAnswerExact | lib/Analysis/BasicAliasAnalysis.cpp:1015-1036 | That answer is right at all addresses if and only if no access reaches around the address space to the other, or one is empty. |
| BasicAlias.ConstantTestExact | lib/Analysis/BasicAliasAnalysis.cpp:1015-1036 | With no access too long the constant test says no if and only if the accesses cannot meet. |
| BasicAlias.ConstantAnswerWrong | lib/Analysis/BasicAliasAnalysis.cpp:1015-1036 | Two literal accesses that meet although the test says no. |
| BasicAlias.PartialOverlaps | lib/Analysis/BasicAliasAnalysis.cpp:1016-1033 | A constant distance below the size of the other access is an overlap. |
| BasicAlias.AliasFromDifference | lib/Analysis/BasicAliasAnalysis.cpp:1002-1054 | Which answer is given when, and that must-alias and no-alias answers are right for all valuations and addresses. |
| BasicAlias.AliasGEPs | lib/Analysis/BasicAliasAnalysis.cpp:937-1054 | For two GEPs on one object the answer is that of the tests on their true distance; must-alias means equal addresses, no-alias disjoint accesses up to the exception above.  For indices of at most six operations on an atom it is exact: must-alias if and only if the addresses are equal under every valuation, no-alias if and only if no valuation lets the accesses meet, up to the same exception. |
| BasicAlias.SomewhereApart | lib/Analysis/BasicAliasAnalysis.cpp:1002-1011 | Free variables left in the difference make the addresses differ somewhere. |
| BasicAlias.NeighboursApart | lib/Analysis/BasicAliasAnalysis.cpp:225-229 | A[i+1] and A[i]: both indices are simple, and accesses within the elements never meet, so that the answer is no alias. |
| ConstantFolding.ReadInt | lib/Analysis/ConstantFolding.cpp:286-296 | The bytes of an integer are written in the order of the target, no more than asked for. |
| ConstantFolding.ReadStruct | lib/Analysis/ConstantFolding.cpp:315-350 | The fields are read from the one that contains the offset, padding left zero. |
| ConstantFolding.ReadArray | lib/Analysis/ConstantFolding.cpp:352-379 | The elements are read from the one that contains the offset. |
| ConstantFolding.ReadDataFromGlobal | lib/Analysis/ConstantFolding.cpp:270-391 | The zeroed buffer receives exactly the slice of the memory image, and nothing outside it changes; supported constants are always read, parts without bytes among them. |
| ConstantFolding.OrByte | lib/Analysis/ConstantFolding.cpp:457-469 | Shifting by a byte leaves room, so or-ing the next byte adds it, within the width. |
| ConstantFolding.Reassemble | lib/Analysis/ConstantFolding.cpp:456-469 | The reassembled integer is the number the bytes stand for, cut to its width. |
| ConstantFolding.LoadInteger | lib/Analysis/ConstantFolding.cpp:427-471 | A folded load is the number its bytes of the image stand for, and where an integer of that width stands in the initializer it is that integer; undefined exactly behind the end; supported loads are folded. |
| ConstantFolding.LeafLoaded | lib/Analysis/ConstantFolding.cpp:427-471 | Loading a leaf of any nesting at its own offset gives its value, in both byte orders. |
| ConstantFolding.LowByte | lib/Analysis/ConstantFolding.cpp:289-295 | The low byte of an integer is the first of its image on a little-endian target, the last one on a big-endian target. |
| DigitStrings.SplitOfJoin | lib/Analysis/ConstantFolding.cpp:456-469 | Splitting a joined number gives the digits back, in both orders. |
| DigitStrings.JoinOfSplit | lib/Analysis/ConstantFolding.cpp:286-296 | Joining the digits of a number gives it back, in both orders. |
| DigitStrings.LowDigit | lib/Analysis/ConstantFolding.cpp:289-295 | The lowest digit comes first in little-endian order, last in big-endian order. |
| VectorCasts.FoldToInteger | lib/Analysis/ConstantFolding.cpp:84-97 | Shifting and or-ing the elements gives the number they stand for; no bit is lost or met. |
| VectorCasts.MixIn | lib/Analysis/ConstantFolding.cpp:174-193 | A piece shifted to its place is or-ed in without meeting another. |
| VectorCasts.FoldToWider | lib/Analysis/ConstantFolding.cpp:167-196 | The wider elements are the joined groups; an element that is no integer constant makes the fold fail. |
| VectorCasts.FoldToNarrower | lib/Analysis/ConstantFolding.cpp:198-220 | The narrower elements are the digits of the wide ones, under the same condition. |
| VectorCasts.NarrowedWidened | lib/Analysis/ConstantFolding.cpp:164-221 | Casting to wider elements and back is the identity. |
| VectorCasts.WidenedNarrowed | lib/Analysis/ConstantFolding.cpp:164-221 | Casting to narrower elements and back is the identity. |
| VectorCasts.WidenedSameNumber | lib/Analysis/ConstantFolding.cpp:84-97 | Widening keeps the number that the integer fold computes. |
| VectorCasts.RecutBack | lib/Analysis/ConstantFolding.cpp:164-221 | Cutting the number into other elements and back is the identity for all shapes of equal width. |
| VectorCasts.FoldBitCast | lib/Analysis/ConstantFolding.cpp:53-221 | Whichever branch is taken, splats included, the result is the constant as one number, cut into the elements of the new type. |
| VectorCasts.OnesStay | lib/Analysis/ConstantFolding.cpp:57-58 | The all-ones shortcut agrees with the general fold. |
| VectorCasts.ZerosStay | lib/Analysis/ConstantFolding.cpp:55-56 | The zero shortcut agrees with the general fold. |
| CostModel.MatchPairwiseShuffleMask | lib/Analysis/CostModel.cpp:112-133 | A mask is accepted exactly if it is the even or odd mask of the level; writing behind its end is told apart. |
| CostModel.NextLevelOperand | lib/Analysis/CostModel.cpp:148-187 | The value both operands take their lanes from, if there is one. |
| CostModel.PairLevelExact | lib/Analysis/CostModel.cpp:148-207 | A level is matched exactly if one operand takes the even lanes of a value and the other its odd lanes, in either order, or on the first level is that value itself. |
| CostModel.MatchPairwiseReductionAtLevel | lib/Analysis/CostModel.cpp:135-214 | Accepted exactly if the levels form a pairwise tree with one operator; a mask is written behind its end exactly if a level that is reached has more leaves than its shuffles have elements. |
| CostModel.MatchPairwiseReduction | lib/Analysis/CostModel.cpp:216-263 | Accepted exactly for lane 0 of a power-of-two vector on top of such a tree, written out of bounds exactly for one on top of a level that is too wide. |
| CostModel.PowersOfTwo | lib/Analysis/CostModel.cpp:234-236 | The widths that are accepted are exactly the powers of two. |
| CostModel.ShortMasksOverrun | lib/Analysis/CostModel.cpp:122-127 | A program on which a mask of one element is written at its second place. |
| CostModel.LevelLane | lib/Analysis/CostModel.cpp:199-207 | A level combines neighbouring lanes, in either order of operands. |
| CostModel.TreeFolds | lib/Analysis/CostModel.cpp:135-214 | The first lanes of a tree fold to what its leaves fold to: lanes of the bottom in their order, and lanes of other values where the bottom has none. |
| CostModel.FoldPairs | lib/Analysis/CostModel.cpp:229-247 | Folding neighbours first changes nothing for an associative operator. |
| CostModel.PairwiseComputes | lib/Analysis/CostModel.cpp:216-263 | The first lane of the root is the operator folded over as many lanes as the root is wide: the bottom from its first lane on, exactly all of it if it is as wide, and lanes of other values behind it if it is narrower. |
| CostModel.PairwiseAllLanes | lib/Analysis/CostModel.cpp:216-263 | It is the fold over all lanes of the bottom, whatever the bottom is, if and only if the bottom is as wide as the root, which the matcher does not check. |
| CostModel.TwoOfFourAccepted | lib/Analysis/CostModel.cpp:216-263 | A sum of two lanes of a vector of four is accepted, and is not the sum of its lanes. |
| CostModel.ShuffleAndOther | lib/Analysis/CostModel.cpp:265-277 | The shuffle among the operands, and the other one. |
| CostModel.SplitLevelExact | lib/Analysis/CostModel.cpp:265-277 | A level is matched exactly if an operand that is a shuffle moves the upper half of the other operand down, on either side; of two shuffles the left one has to. |
| CostModel.MatchVectorSplittingReduction | lib/Analysis/CostModel.cpp:279-353 | Accepted exactly for lane 0 of a power-of-two vector on top of a tree of splitting levels with one operator. |
| CostModel.FoldHalves | lib/Analysis/CostModel.cpp:302-313 | Combining halves lane by lane changes nothing for an associative and commutative operator. |
| CostModel.SplittingComputes | lib/Analysis/CostModel.cpp:279-353 | The first lane of the root is the operator folded over all lanes of the bottom vector. |

## Left out

LazyCallGraph:

- LazyCallGraphs.LazyCallGraph.constructor: nodes are scanned for callees when they are first materialised; here the whole graph and its entry nodes are given.
- insertIncomingEdge, removeInterSCCEdge, insertOutgoingIntraSCCEdge and isDescendantOf; moving a graph and updating back pointers.
- LazyCallGraphs.LazyCallGraph.RemoveIntraSCCEdge: parent links from SCCs outside the old component are only said to be unchanged, because the code does not redistribute them; see RepairOutcome.ExactAfterRemoval.

BrainF:

- Addresses that wrap around the address space, failure of malloc, and coalesced runs of 2^31 symbols or more.
- BrainFPreservation.Preserves: a run of moves that leaves the tape and comes back counts as staying on it, since the compiled code moves once; nothing is claimed after a run has ended off the tape.
- The text of the messages, the names of values, and just-in-time execution.

PassSupport:

- Weaker memory orders, the fences and the annotations for race detectors; the storage of the pass registry; RegisterPass objects.

DominanceFrontier:

- DominanceFrontiers.DominanceFrontier.Calculate: starts with no frontier for the blocks of the subtree, as every caller in the source does.
- Printing, the incremental updates of the header, and frontiers of post-dominators.

CFG:

- GetSuccessorNumber, isCriticalEdge.
- CFGAnalysis.IsPotentiallyReachableInstruction: from the entry block the code answers yes without looking, also for blocks that the entry does not reach.

BlockFrequencyInfoImpl:

- FloatArithmetic.Divide64: rounds twice with one remainder, so the bound is three halves of a unit rather than one half.
- MassDistribution.Distribution.Normalize: the exact sum of the weights is below 2^64; with the overflow flag set the shift of 33 has no spare digit.
- Printing and parsing of floats, loop scales and unwrapping, the choice of what is added to a distribution, reserved keys of the hash table.

AliasSetTracker:

- Reference counts and the removal of sets, access types, volatile accesses, unknown instructions, callbacks.
- AliasSets.AliasSetTracker.AliasesPointer: sets hold no unknown instructions, so none are looked at.
- AliasSets.AliasSetTracker.MergeSetIn: merges pointers and kinds only, there being no access types, unknown instructions and reference counts.
- AliasSets.AliasSetTracker.GetAliasSetForPointer: a known pointer that comes back with a larger size or another tag is not covered; the code does not merge sets again then.

BasicAliasAnalysis:

- BasicAlias.LinearExact: sign and zero extensions of an index are not among the forms.
- BasicAlias.DecomposeGEPExpression: SimplifyInstruction and a missing data layout.
- BasicAlias.AliasGEPs: bases that only may alias, and a second pointer that is no GEP.
- Pointers narrower than 64 bits, the no-wrap facts of GEPs.
- The recursion of aliasCheck over selects and phis, caching, type-based answers, escape analysis.

ConstantFolding:

- IsConstantOffsetFromGlobal: the global and the offset are given.
- Loads of other than integers, which the code maps to integer loads and casts.
- ConstantFolding.ReadDataFromGlobal: integers whose width is not that of their storage, such as i24, are not among the well-formed constants; a constant that has no bytes at all is not read on its own.
- VectorCasts.FoldBitCast: one element count divides the other; floating-point elements, which the code first casts to integers of their width, and casts of constant expressions are left to the IR.
- Folding of calls, comparisons and other instructions.

CostModel:

- The costs themselves and the target queries.
