# Verified models of the compiler's SSA passes and of its two libraries

The compiler in this repository translates through an SSA intermediate representation, parses with the ANTLR runtime in
`deps/antlr4-runtime` and prints with fmt in `deps/fmt`. This project models the parts of the three that carry the most
state and branching, and proves what they are for. `dafny verify dfyconfig.toml` checks all of it.

Code that updates objects is modelled by classes with the same fields, and each method is proved against a function or a
relation on values; what the source promises is proved about those. Code made of expressions is modelled by functions.

| files | what they model |
|---|---|
| SsaProgram, PhiCopies, PhiElimination, CriticalEdges, SsaDestruction | the IR and what running it means; leaving SSA form: critical edges, the scheduling of parallel copies, removal of phis |
| Dominance, DominanceTree | the data-flow solver instantiated for dominators, immediate dominators, dominance frontiers |
| TokenRewriter, RewriterMeaning, RewriterTheorems, RewriterCoverage, RewriterMerges, RewriterRendering, TokenStreamRewriter | the token rewriter: the two reduction passes as functions, what an edit script means, what every script is reduced to or fails with, and the class that reduces in place and renders |
| TokenWindow, CharWindow | the unbuffered token and character streams, against streams that keep everything |
| CommonTokenStream | the lazy stream that filters one channel |
| ParseTree, Parser | parse-tree building with ordinary and left-recursive rules |
| ErrorStrategy | the default error strategy |
| FormatString, FormatLaws, FormatCompiler | fmt's format strings: runtime scanner, what they mean part by part, and compiler |
| OutputBuffer | fmt's chunked buffers with their flush policies |
| Basics, Powers, Decimals, FastDivision, DigitPairs, IsoWeek, ChronoText, TextStyle | fmt's arithmetic: divisions by multiplication, trailing zeros, decimal digits, ISO weeks, years and fractions of a second, packed styles |

## How things are represented

- Tokens, phis, blocks and instructions are values; pointers to blocks and tree nodes are positions in the list that owns
  them. `size_t` and 32/64-bit arithmetic is modelled modulo its width where it can wrap.
- The ATN's lookahead sets, the token source (a finite sequence ending in one EOF), the formatted text of an argument, and
  what an IR instruction other than MOV and phi computes and does to memory are parameters.
- Exceptions are results (`Err`, `Failed`, a flag). Where the order of a `std::set` or an unordered container decides what
  the code does next, the model picks any element, so the results hold for every order.
- Ghost fields and logs (`behindKnown`, `startKnown`, `outer`, `log`, `notified`, `entered`) record what a run has done so
  that statements about runs can be made; no executable result depends on them.

## What the proofs found

- Leaving SSA form evaluates a block's exit condition after the copies that were put in front of it. That is harmless only
  because critical edges were split before (`PhiElimination.ConditionKept`), and so is writing the phi results of both
  successors on the way to one (`PhiElimination.SiblingUnusable`).
- The note at `src/backend/ir/analysis/dominance.hpp:82` says a frontier holds blocks that are not dominated; the code
  computes those not *strictly* dominated, so a loop header is in its own frontier, as phi placement needs. The entrance is
  skipped: if it had predecessors it would be missing from every frontier.
- The rewriter's header (`deps/antlr4-runtime/TokenStreamRewriter.h:262-265`) says `I.2 R.2-2` wipes the insert; the code
  joins it with the replacement text (`RewriterRendering.InsertJoinsReplacement`).
- The internal check for two operations at one index can throw, after deletes were merged
  (`RewriterRendering.MergeCanDuplicate`): exactly when a merged range starts at an insert that is queued before the last
  delete of the range and after every range covering its token, with no later insert at that token
  (`RewriterMerges.ReduceExactly`, which says the same of the other two errors).
- Merging deletes can also put a range around an insert that the header's rules refuse there. It is then printed only when
  rendering starts inside the range or, after everything else, when it stands at the last token
  (`RewriterRendering.RenderMerged`, `TokenStreamRewriter.Rewriter.GetWholeText`), and not any more when the text is asked
  for again (`RewriterRendering.ReduceTwice`).
- An empty token list loses inserts. Reporting an insert inside a range builds a message that itself reads a token out of
  bounds; the model only says that an error is raised.
- `UnbufferedTokenStream::seek` to an index not buffered yet lands one token short (`TokenWindow.UnbufferedTokenStream.Seek`
  says exactly when, `TokenWindow.SeekFallsShort` is an instance). `UnbufferedCharStream` takes a U+FFFF in the input for
  the end (`CharWindow.BlindAfterSentinel`, `CharWindow.StuckBeforeEnd`).
- `CommonTokenStream::LB` beyond the first token of the channel hands out some token near the end of the buffer, which
  `CommonTokenStream.Stream.LB` names; `CommonTokenStream.LookBackWraps` is an instance. A seek to the largest index goes to
  the last buffered token, hidden or not (`CommonTokenStream.Stream.Seek`).
- fmt's format compiler accepts a lone `}` and swallows the character after it (`FormatCompiler.LoneBraceCompiles`).
- fmt's 64-bit division by 1000 is one too large on the largest values that end in 999 (`FastDivision.DivideBy1000Exact`,
  `FastDivision.ThousandthTooLarge`). The 64-bit trailing-zero removal loses value if the quotient by 10^8 does not fit 32
  bits (`FastDivision.LostInCast`).
- fmt's ISO weeks follow the first-Thursday rule for every year, except that no negative year has a week 53
  (`IsoWeek.FirstThursdayRule`, `IsoWeek.NegativeYear`).

## Model

| member | source | states |
|---|---|---|
| `SsaDestruction.Function.Destruct` | src/backend/ir/transform/ssa/destruct.hpp:29-228 | Main result. Leaving SSA form: afterwards no block has a phi, and for every meaning of the instructions, every initial store, value and world, the function returns that value in that world exactly when it did before |
| `SsaDestruction.Function.SplitCriticalEdges` | src/backend/ir/transform/ssa/destruct.hpp:39-72 | Afterwards no edge is critical, the function is still in SSA form and means the same; it reports a change exactly when some edge was critical |
| `SsaDestruction.Function.FindCritical` | src/backend/ir/transform/ssa/destruct.hpp:40-57 | Counting predecessors and successors finds exactly the critical edges, each once |
| `SsaDestruction.Function.SplitOne` | src/backend/ir/transform/ssa/destruct.hpp:59-70 | The in-place update of blocks, exit targets and phi sources is the edge split that the lemmas of module CriticalEdges are about |
| `SsaDestruction.Function.Collect` | src/backend/ir/transform/ssa/destruct.hpp:148-160 | Pass 1 collects exactly one copy per phi of each successor, and the location and use tables it starts from |
| `SsaProgram.ArgOf` | src/backend/ir/inst.cpp:42-49 | A phi's value for a predecessor is that of the first pair naming it |
| `SsaProgram.FoldKeepsMeaning` | src/backend/ir/transform/optim/constant_fold.hpp:224-231 | Folding a branch on a constant into a jump keeps the meaning: running takes a branch as the IR's interpreter does |
| `SsaDestruction.InitialCopies` | src/backend/ir/transform/ssa/destruct.hpp:162-167 | Pass 2 starts with exactly the copies whose results nobody reads |
| `SsaDestruction.ReleaseAll` | src/backend/ir/transform/ssa/destruct.hpp:181-189 | After a source's value has moved, the copy into that source becomes ready, and the scheduler's invariant is restored |
| `SsaDestruction.Function.EmitReady` | src/backend/ir/transform/ssa/destruct.hpp:175-190 | Emitting ready copies keeps the invariant and uses up the worklist, whatever order the sets are walked in |
| `SsaDestruction.Function.BreakCycle` | src/backend/ir/transform/ssa/destruct.hpp:192-201 | With only cycles left, saving one result in a fresh temporary keeps the invariant and makes one copy ready |
| `SsaDestruction.Function.ScheduleCopy` | src/backend/ir/transform/ssa/destruct.hpp:142-203 | The moves appended to a block have the effect of the parallel copy that its successors' phis ask for; nothing else changes |
| `SsaDestruction.Function.ReplacePhi` | src/backend/ir/transform/ssa/destruct.hpp:130-140 | Copies in every block and no phis any more; without critical edges that means the same; it reports a change exactly when there were phis |
| `PhiCopies.EmitSettles` | src/backend/ir/transform/ssa/destruct.hpp:175-190 | Emitting a copy overwrites nothing that is still needed: every source's value can still be found where the location table says |
| `PhiCopies.ReleaseSettles` | src/backend/ir/transform/ssa/destruct.hpp:181-189 | A copy into a place whose value has moved on may be made next |
| `PhiCopies.BreakKeeps` | src/backend/ir/transform/ssa/destruct.hpp:192-201 | When nothing is ready, the result of any waiting copy still holds its own value, so saving it in a temporary is right |
| `PhiCopies.StartHolds` | src/backend/ir/transform/ssa/destruct.hpp:143-171 | The invariant holds after the first two passes |
| `PhiCopies.EndImplements` | src/backend/ir/transform/ssa/destruct.hpp:173-203 | When nothing is left, every result holds its source's initial value and nothing but results and fresh temporaries has changed |
| `PhiElimination.CopiesParallel` | src/backend/ir/transform/ssa/destruct.hpp:148-160 | In SSA form the copies asked for have distinct results that are left values |
| `PhiElimination.MovesExec` | src/backend/ir/transform/ssa/destruct.hpp:179-180 | Running the moves gives each variable the value of the one that the symbolic tracking names |
| `PhiElimination.SiblingUnusable` | src/backend/ir/transform/ssa/destruct.hpp:205-211 | A phi result of another successor, overwritten on the way, cannot be used in the successor that is entered |
| `PhiElimination.EdgeSimulates` | src/backend/ir/transform/ssa/destruct.hpp:205-211 | For everything usable in the entered block, the moves leave what entering through its phis gives |
| `PhiElimination.ConditionKept` | src/backend/ir/transform/ssa/destruct.hpp:179-180 | The exit's condition is read after the copies, and they do not change it where it decides anything |
| `PhiElimination.RunAlike` | src/backend/ir/transform/ssa/destruct.hpp:130-140 | After every number of steps the two runs are at the same block, with the same values wherever they can be used |
| `PhiElimination.EliminationKeepsMeaning` | src/backend/ir/transform/ssa/destruct.hpp:130-140 | Main result. Without critical edges, replacing phis by copies keeps the meaning of the function |
| `CriticalEdges.SplitEdges` | src/backend/ir/transform/ssa/destruct.hpp:59-64 | Which edges the split function has |
| `CriticalEdges.SplitKeepsSsa` | src/backend/ir/transform/ssa/destruct.hpp:59-70 | Splitting an edge keeps SSA form: single assignment, an argument per predecessor, uses dominated by definitions |
| `CriticalEdges.SplitCritical` | src/backend/ir/transform/ssa/destruct.hpp:59-70 | The split edge is no longer critical and no other edge has become critical |
| `CriticalEdges.SplitRun` | src/backend/ir/transform/ssa/destruct.hpp:59-70 | Every run of the function is matched by a run of the split one that is at least as long |
| `CriticalEdges.SplitKeepsMeaning` | src/backend/ir/transform/ssa/destruct.hpp:39-72 | Splitting an edge keeps the meaning of the function |
| `Dominance.DataFlow.constructor` | src/backend/ir/analysis/dataflow/framework.hpp:123-188 | Main result. The round-robin solver ends, with the dominators of each block, as paths define them, in its set; the set is the universe exactly for blocks that cannot be reached |
| `Dominance.DataFlow.Solve` | src/backend/ir/analysis/dataflow/framework.hpp:152-187 | Rounds are repeated until none changes anything, which happens because every change makes the sets smaller |
| `Dominance.DataFlow.Round` | src/backend/ir/analysis/dataflow/framework.hpp:155-186 | One round keeps every set above the dominators; it changes nothing exactly when all equations hold |
| `Dominance.DataFlow.Meet` | src/backend/ir/analysis/dataflow/framework.hpp:159-177 | The meet over the predecessors, with the empty set at the entrance |
| `Dominance.TransferAbove` | src/backend/ir/analysis/dataflow/dominance.hpp:18-26 | The transfer function never loses a dominator and keeps the universe for unreachable blocks |
| `Dominance.SolvedIsDominance` | src/backend/ir/analysis/dataflow/dominance.hpp:18-26 | Any solution of the equations above the dominators is exactly domination |
| `DominanceTree.Chain` | src/backend/ir/analysis/dominance.hpp:32-37 | Of two dominators of a reachable block, one dominates the other |
| `DominanceTree.FewerDominators` | src/backend/ir/analysis/dominance.hpp:32-37 | A strict dominator has strictly fewer dominators |
| `DominanceTree.LargestIsIdom` | src/backend/ir/analysis/dominance.hpp:30-37 | The strict dominator with the largest set is the immediate dominator |
| `DominanceTree.FindIdom` | src/backend/ir/analysis/dominance.hpp:48-55 | The loop over a block's dominators finds the immediate one, and none for the entrance, in whatever order it walks the set |
| `DominanceTree.BuildTree` | src/backend/ir/analysis/dominance.hpp:41-60 | The tree is built exactly when every block is reachable, and then holds every immediate dominator and every block once among the children of its own |
| `DominanceTree.ListChildren` | src/backend/ir/analysis/dominance.hpp:57-59 | The loop over the map lists every block once, under its immediate dominator, in whatever order the map is walked |
| `DominanceTree.DominanceFrontier.RunUp` | src/backend/ir/analysis/dominance.hpp:90-97 | Running from a predecessor up to the immediate dominator visits exactly the blocks that dominate the predecessor and do not strictly dominate the join |
| `DominanceTree.DominanceFrontier.constructor` | src/backend/ir/analysis/dominance.hpp:83-99 | Main result. The frontier sets are exact: a block is in them exactly where some predecessor of it is dominated and it is not strictly dominated, the entrance excepted, and nothing else is |
| `DominanceTree.Analyse` | src/backend/ir/transform/ssa/construct.hpp:67-72 | The analyses in the order SSA construction runs them: they succeed exactly on functions without dead blocks, and then give the tree with its children and the exact frontiers |
| `TokenStreamRewriter.Rewriter.InsertBefore` | deps/antlr4-runtime/TokenStreamRewriter.cpp:155-160 | Queues one insert, in the named queue only |
| `TokenStreamRewriter.Rewriter.InsertAfter` | deps/antlr4-runtime/TokenStreamRewriter.cpp:138-141 | Queues an insert at the next index; SIZE_MAX wraps to 0 |
| `TokenStreamRewriter.Rewriter.Replace` | deps/antlr4-runtime/TokenStreamRewriter.cpp:178-187 | Accepts exactly the ranges inside the token list, and otherwise changes nothing |
| `TokenStreamRewriter.Rewriter.Delete` | deps/antlr4-runtime/TokenStreamRewriter.cpp:209-212 | A delete is a replace by nothing |
| `TokenStreamRewriter.Rewriter.AbsorbInserts` | deps/antlr4-runtime/TokenStreamRewriter.cpp:324-339 | The loop over earlier inserts is the function Absorb |
| `TokenStreamRewriter.Rewriter.DropReplaces` | deps/antlr4-runtime/TokenStreamRewriter.cpp:340-352 | The loop over earlier replaces is the function Drop, errors and merges included |
| `TokenStreamRewriter.Rewriter.CombineInserts` | deps/antlr4-runtime/TokenStreamRewriter.cpp:373-385 | The loop over earlier inserts at the same index is the function Combine |
| `TokenStreamRewriter.Rewriter.PrependToReplaces` | deps/antlr4-runtime/TokenStreamRewriter.cpp:386-398 | The loop that hands the insert to an earlier replace is the function Prepend, errors included |
| `TokenStreamRewriter.Rewriter.BuildIndexMap` | deps/antlr4-runtime/TokenStreamRewriter.cpp:401-412 | The index map, or an error when two operations are left at one index |
| `TokenStreamRewriter.Rewriter.ReduceToSingleOperationPerIndex` | deps/antlr4-runtime/TokenStreamRewriter.cpp:313-413 | The in-place reduction leaves the queue of the function Reduce and returns its map or its error |
| `TokenStreamRewriter.Rewriter.WalkTokens` | deps/antlr4-runtime/TokenStreamRewriter.cpp:283-296 | The walk over the tokens, consuming the map, is the function Walk |
| `TokenStreamRewriter.Rewriter.RestTexts` | deps/antlr4-runtime/TokenStreamRewriter.cpp:298-308 | What is left is emitted in some order of the hash map |
| `TokenStreamRewriter.Rewriter.GetText` | deps/antlr4-runtime/TokenStreamRewriter.cpp:259-311 | The text of an interval: plain tokens without operations, an error of the reduction, or the walk and what is left at the end |
| `TokenStreamRewriter.Rewriter.GetWholeText` | deps/antlr4-runtime/TokenStreamRewriter.cpp:251-311 | Main result. The whole text fails exactly when the reduction does. Of every script that reduces: token by token what the queue between the passes shows, then the inserts past the end and those stranded at the last token; on a clean script its meaning token by token, then the inserts past the end, latest first |
| `TokenStreamRewriter.ReduceKeepsMeaning` | deps/antlr4-runtime/TokenStreamRewriter.cpp:313-413 | Main result. Reducing a clean script keeps its meaning on every interval, so a second getText gives the same text |
| `RewriterMeaning.DropMeaning` | deps/antlr4-runtime/TokenStreamRewriter.cpp:340-352 | Meeting the earlier replaces merges nothing and fails nowhere exactly when each is disjoint from the new one or contained in it |
| `RewriterMeaning.SweepMeaning` | deps/antlr4-runtime/TokenStreamRewriter.cpp:317-353 | The first pass runs without merge or error exactly on scripts without clashes, and what it leaves |
| `RewriterMeaning.SweptCover` | deps/antlr4-runtime/TokenStreamRewriter.cpp:340-347 | After it, the replace covering a token is the last one of the script that does |
| `RewriterMeaning.TakenOver` | deps/antlr4-runtime/TokenStreamRewriter.cpp:373-385 | The text an insert takes over is all earlier inserts at its token, latest first, unless one of them was handed to a replace |
| `RewriterMeaning.GatherMeaning` | deps/antlr4-runtime/TokenStreamRewriter.cpp:367-399 | The second pass, on every queue that covers no token twice: it fails exactly when some insert comes late inside a replaced range, and what it leaves otherwise |
| `RewriterTheorems.FinalSeparated` | deps/antlr4-runtime/TokenStreamRewriter.cpp:401-412 | What both passes leave has at most one operation at every index |
| `RewriterTheorems.IndexMapMeaning` | deps/antlr4-runtime/TokenStreamRewriter.cpp:401-412 | The map is built without an error exactly when no two queued operations share an index, and then holds exactly the queued operations |
| `RewriterTheorems.ReduceSeparated` | deps/antlr4-runtime/TokenStreamRewriter.cpp:313-413 | Reducing a reduced queue changes nothing |
| `RewriterTheorems.ReduceClean` | deps/antlr4-runtime/TokenStreamRewriter.cpp:313-413 | Main result. A script reduces without error and merge exactly when it is clean; the one-per-index check cannot fail without a merge; and reducing again changes nothing |
| `RewriterTheorems.MergesKept` | deps/antlr4-runtime/TokenStreamRewriter.cpp:353-359 | Once deletes were merged, the count shows it, whatever the later steps do |
| `RewriterCoverage.WalkReplacesKeeps` | deps/antlr4-runtime/TokenStreamRewriter.cpp:317-365 | Through any chain of merges the first pass keeps the ranges of the replaces walked disjoint, and the set of replaced tokens |
| `RewriterCoverage.ReduceCoverage` | deps/antlr4-runtime/TokenStreamRewriter.cpp:317-398 | Main result. Whenever the reduction returns, the surviving replaces are pairwise disjoint and replace exactly the tokens that the script replaced |
| `RewriterMerges.HullMeets` | deps/antlr4-runtime/TokenStreamRewriter.cpp:340-359 | While a replace grows by merging deletes, it meets the next range exactly as the range written in the script does |
| `RewriterMerges.DropZones` | deps/antlr4-runtime/TokenStreamRewriter.cpp:340-359 | A replace meeting the earlier ones: an error exactly when it straddles one and texts are at stake, and the range that merging leaves otherwise |
| `RewriterMerges.MergeMeaning` | deps/antlr4-runtime/TokenStreamRewriter.cpp:317-365 | The first pass on every script, in terms of its ranges: when it fails, which ranges merge, and that an insert stays queued exactly when no later range of the script covers its token |
| `RewriterMerges.GatheredIndices` | deps/antlr4-runtime/TokenStreamRewriter.cpp:367-412 | After the second pass two operations share an index exactly when a replace starts where an insert stands before it and none after it |
| `RewriterMerges.ReduceExactly` | deps/antlr4-runtime/TokenStreamRewriter.cpp:313-413 | Main result. For every script, which of the three errors the reduction raises and when, by conditions on the ranges, inserts and texts of the script, and what it leaves when it raises none |
| `RewriterMerges.DuplicateIndexExactly` | deps/antlr4-runtime/TokenStreamRewriter.cpp:401-412 | The one-operation-per-index check fails exactly when both passes return and in the queue between them some replace starts where an insert stands before it and none after it |
| `RewriterRendering.WalkMeaning` | deps/antlr4-runtime/TokenStreamRewriter.cpp:283-296 | From any token that is not skipped on, the walk writes what the queue between the passes shows there |
| `RewriterRendering.WalkLeftOver` | deps/antlr4-runtime/TokenStreamRewriter.cpp:298-308 | What the walk leaves in the map: exactly what lies outside the interval, and what it skips because it is inside a replaced range |
| `RewriterRendering.RenderMerged` | deps/antlr4-runtime/TokenStreamRewriter.cpp:259-311 | Main result. For every script that reduces, merged deletes included, and every interval: what the walk writes at every token and exactly which operations it leaves over |
| `RewriterRendering.ReduceTwice` | deps/antlr4-runtime/TokenStreamRewriter.cpp:313-413 | Main result. Reducing again changes nothing exactly when no insert is stranded inside a range that merging has put around it |
| `RewriterRendering.RenderMeaning` | deps/antlr4-runtime/TokenStreamRewriter.cpp:259-311 | Main result. For every clean script and every interval, walk and map together give the meaning, nothing is skipped, and what is left past the end are the inserts there |
| `RewriterRendering.SimpleMeaning` | deps/antlr4-runtime/TokenStreamRewriter.h:222-272 | With disjoint ranges and no insert inside one, a token shows its inserts, latest first, then the replacement or its own text, and nothing where an earlier-starting range covers it |
| `RewriterRendering.MergeCanDuplicate` | deps/antlr4-runtime/TokenStreamRewriter.cpp:353-359 | A script of three operations that ReduceExactly finds to fail the one-operation-per-index check |
| `RewriterRendering.MergeCanStrand` | deps/antlr4-runtime/TokenStreamRewriter.cpp:353-359 | An insert inside a delete is refused, but accepted and skipped by the walk when one more delete merges with the first |
| `RewriterRendering.InsertJoinsReplacement` | deps/antlr4-runtime/TokenStreamRewriter.h:262-265 | An insert followed by a replace of just its token is joined with the replacement, not dropped |
| `TokenWindow.UnbufferedTokenStream.Add` | deps/antlr4-runtime/UnbufferedTokenStream.cpp:140-148 | Each token is stamped with its position in the source |
| `TokenWindow.UnbufferedTokenStream.Fill` | deps/antlr4-runtime/UnbufferedTokenStream.cpp:127-138 | Fetches n more tokens, or up to EOF |
| `TokenWindow.UnbufferedTokenStream.Sync` | deps/antlr4-runtime/UnbufferedTokenStream.cpp:114-120 | Exactly how far the source is read |
| `TokenWindow.UnbufferedTokenStream.LT` | deps/antlr4-runtime/UnbufferedTokenStream.cpp:42-60 | LT(k), k >= 1, is the source's token k - 1 past the cursor, or EOF, and nothing is read beyond it; LT(-1) is the one before it, while that is known |
| `TokenWindow.UnbufferedTokenStream.Consume` | deps/antlr4-runtime/UnbufferedTokenStream.cpp:87-107 | One token on, refused exactly at EOF, which changes nothing; a marked window is kept, an unmarked one that has been read to its end is dropped, and one token ahead is read |
| `TokenWindow.UnbufferedTokenStream.Mark` | deps/antlr4-runtime/UnbufferedTokenStream.cpp:157-166 | Markers count down from -1; the first one fixes where the kept window starts |
| `TokenWindow.UnbufferedTokenStream.Release` | deps/antlr4-runtime/UnbufferedTokenStream.cpp:168-186 | Only the latest marker can be released, and refusing another changes nothing; releasing the outermost drops what is behind the cursor |
| `TokenWindow.UnbufferedTokenStream.Seek` | deps/antlr4-runtime/UnbufferedTokenStream.cpp:193-222 | Where every seek lands and how far it reads; it reaches the index asked for exactly when that is buffered already, or at or past the end of the source; a refused seek changes nothing |
| `TokenWindow.SeekFallsShort` | deps/antlr4-runtime/UnbufferedTokenStream.cpp:193-222 | On a fresh stream of three tokens or more a seek to token 2 lands on token 1 |
| `TokenWindow.Perform` | deps/antlr4-runtime/UnbufferedTokenStream.cpp:42-222 | Each operation of the window does what it does on a stream that keeps every token |
| `TokenWindow.Run` | deps/antlr4-runtime/UnbufferedTokenStream.cpp:42-222 | Main result. Over every legal run of consume, lookahead, nested marks and seeks, the windowed stream shows exactly what a stream that keeps everything shows, tokens being values |
| `CharWindow.UnbufferedCharStream.Fill` | deps/antlr4-runtime/UnbufferedCharStream.cpp:52-73 | Reads n more units, fewer only after U+FFFF |
| `CharWindow.UnbufferedCharStream.LA` | deps/antlr4-runtime/UnbufferedCharStream.cpp:83-106 | The character k - 1 past the cursor, EOF beyond what is read or past the end; looking back, the character there while it is buffered, and an error before that |
| `CharWindow.UnbufferedCharStream.Consume` | deps/antlr4-runtime/UnbufferedCharStream.cpp:22-43 | One character on, refused exactly at the end of the input and behind a U+FFFF that the window still ends with |
| `CharWindow.UnbufferedCharStream.Mark` | deps/antlr4-runtime/UnbufferedCharStream.cpp:108-116 | As for tokens |
| `CharWindow.UnbufferedCharStream.Release` | deps/antlr4-runtime/UnbufferedCharStream.cpp:118-130 | As for tokens |
| `CharWindow.UnbufferedCharStream.Seek` | deps/antlr4-runtime/UnbufferedCharStream.cpp:136-163 | Where every seek lands, clipped to what is read, and which error every other seek gets |
| `CharWindow.UnbufferedCharStream.GetText` | deps/antlr4-runtime/UnbufferedCharStream.cpp:177-200 | The units of every interval inside the window, and which error every other interval gets |
| `CharWindow.ANTLRInputStream.Consume` | deps/antlr4-runtime/ANTLRInputStream.cpp:75-84 | One character on, refused at the end |
| `CharWindow.ANTLRInputStream.LA` | deps/antlr4-runtime/ANTLRInputStream.cpp:86-104 | The character at an offset from the cursor, EOF outside the data |
| `CharWindow.ANTLRInputStream.Seek` | deps/antlr4-runtime/ANTLRInputStream.cpp:126-136 | Back to any index, forward to the index or the end |
| `CharWindow.ANTLRInputStream.GetText` | deps/antlr4-runtime/ANTLRInputStream.cpp:138-161 | The text of an interval, cut at the end; for an interval that ends before it starts the count wraps and everything from its start on is given |
| `CharWindow.PerformWindowed` | deps/antlr4-runtime/UnbufferedCharStream.cpp:22-200 | Each operation of the window shows what the input shows there |
| `CharWindow.PerformLoaded` | deps/antlr4-runtime/ANTLRInputStream.cpp:75-161 | Each operation of the loaded stream shows the same |
| `CharWindow.Run` | deps/antlr4-runtime/UnbufferedCharStream.cpp:22-200 | Main result. On every input without U+FFFF and over every legal run, both streams show what the input itself shows to a cursor that remembers how far it has read |
| `CharWindow.BlindAfterSentinel` | deps/antlr4-runtime/UnbufferedCharStream.cpp:54-56 | Where that ends: after a U+FFFF the windowed stream sees EOF although the loaded one sees the rest |
| `CharWindow.StuckBeforeEnd` | deps/antlr4-runtime/UnbufferedCharStream.cpp:136-163 | And a final U+FFFF makes the end unreachable again after seeking back |
| `CommonTokenStream.Stream.Fetch` | deps/antlr4-runtime/BufferedTokenStream.cpp:91-112 | Pulls n tokens, or up to EOF, each stamped with its index |
| `CommonTokenStream.Stream.Sync` | deps/antlr4-runtime/BufferedTokenStream.cpp:77-89 | True exactly when token i then exists, and how much is buffered; for the largest size_t always true, and nothing is fetched |
| `CommonTokenStream.Stream.NextTokenOnChannel` | deps/antlr4-runtime/BufferedTokenStream.cpp:243-259 | The next token of the channel or EOF, fetching no further; EOF for an index past the end, and for the largest size_t the last token buffered so far |
| `CommonTokenStream.Stream.PreviousTokenOnChannel` | deps/antlr4-runtime/BufferedTokenStream.cpp:261-279 | The previous token of the channel, -1 if there is none, and what a wrapped-around index gives |
| `CommonTokenStream.Stream.LazyInit` | deps/antlr4-runtime/BufferedTokenStream.cpp:171-181 | The cursor starts at the first token of the channel |
| `CommonTokenStream.Stream.Consume` | deps/antlr4-runtime/BufferedTokenStream.cpp:51-75 | Refused exactly at the end of the filtered list, and otherwise one step in it, fetching no further |
| `CommonTokenStream.Stream.Seek` | deps/antlr4-runtime/BufferedTokenStream.cpp:42-45 | To the first token of the channel from an index on; for the largest size_t to the last token buffered so far, hidden or not |
| `CommonTokenStream.Stream.Next` | deps/antlr4-runtime/CommonTokenStream.cpp:52-59 | One turn of the loop of LT: the next filtered token, or EOF again, fetching no further |
| `CommonTokenStream.Stream.LT` | deps/antlr4-runtime/CommonTokenStream.cpp:43-63 | LT(k) is the k-th remaining filtered token, EOF past their end, and nothing beyond it is fetched |
| `CommonTokenStream.Stream.LB` | deps/antlr4-runtime/CommonTokenStream.cpp:23-41 | LT(-k) is the k-th previous filtered token while there is one; none when k exceeds the index; between the two, the token that the walk with its wrapped-around index arrives at |
| `CommonTokenStream.LookBackWraps` | deps/antlr4-runtime/CommonTokenStream.cpp:23-41 | Looking back twice from the second of two visible tokens hands out that token itself |
| `CommonTokenStream.BackStep` | deps/antlr4-runtime/CommonTokenStream.cpp:29-35 | One step of that walk, in the list and beyond its start |
| `CommonTokenStream.Perform` | deps/antlr4-runtime/CommonTokenStream.cpp:19-63 | Each operation does what it does on the filtered list |
| `CommonTokenStream.Run` | deps/antlr4-runtime/CommonTokenStream.cpp:19-63 | Main result. Over every legal run the lazy stream shows exactly what a cursor in the filtered list shows |
| `ParseTree.StepYield` | deps/antlr4-runtime/Parser.cpp:320-460 | Every step keeps the leaves in order and adds exactly the token of the step at the end |
| `ParseTree.StepPolish` | deps/antlr4-runtime/Parser.cpp:320-460 | Every step completes exactly the node or context it should, each context with the state it is left with and the number of its children |
| `ParseTree.AllPolishReads` | deps/antlr4-runtime/Parser.cpp:320-460 | What is written down of completed nodes and contexts determines the trees' shapes, states included |
| `ParseTree.OpenKeeps` | deps/antlr4-runtime/Parser.cpp:356-419 | Entering a rule: an ordinary one is listed by its parent at once, a left-recursive one stays detached |
| `ParseTree.AddKidKeeps` | deps/antlr4-runtime/Parser.cpp:320-354 | Adding a finished subtree to the innermost rule |
| `ParseTree.CloseKeeps` | deps/antlr4-runtime/Parser.cpp:368-382 | Leaving a rule; a left-recursive one is listed by its parent only now |
| `ParseTree.PushKeeps` | deps/antlr4-runtime/Parser.cpp:421-436 | Wrapping a left-recursive rule's context in a new one |
| `Parser.Parser.CreateContext` | deps/antlr4-runtime/Parser.cpp:356-366 | A new context as a generated rule function makes it, not in the tree yet |
| `Parser.Parser.EnterRule` | deps/antlr4-runtime/Parser.cpp:356-366 | One step of the model, with the state it sets |
| `Parser.Parser.ExitRule` | deps/antlr4-runtime/Parser.cpp:368-382 | One step of the model; the state is the invoking one again |
| `Parser.Parser.EnterRecursionRule` | deps/antlr4-runtime/Parser.cpp:411-419 | One step of the model, with the precedence pushed |
| `Parser.Parser.PushNewRecursionContext` | deps/antlr4-runtime/Parser.cpp:421-436 | One step of the model: the wrapped context gets the new parent and the new invoking state |
| `Parser.Parser.UnrollRecursionContexts` | deps/antlr4-runtime/Parser.cpp:438-460 | One step of the model, with the precedence popped |
| `Parser.Parser.Consume` | deps/antlr4-runtime/Parser.cpp:320-346 | The current token becomes a leaf, an error node while recovering; EOF is not passed |
| `Parser.Parser.AddMissing` | deps/antlr4-runtime/Parser.cpp:133-139 | A conjured token becomes an error node |
| `Parser.Advance` | deps/antlr4-runtime/Parser.cpp:320-460 | One command of a well-bracketed run, keeping the leaves plus the tokens to come, and what is complete plus what the commands still complete |
| `Parser.ProgressAdvances` | deps/antlr4-runtime/Parser.cpp:320-460 | One command completes what is told from the commands alone: which rules are open, their states and how many children they have |
| `Parser.Run` | deps/antlr4-runtime/Parser.cpp:320-460 | Main result. After every well-bracketed run the trees are spelled out by the nodes, every child's parent is the node that lists it, their leaves are exactly the tokens added, in order, and their shapes, with the invoking state of every context, are those that the commands determine |
| `ErrorStrategy.Strategy.Report` | deps/antlr4-runtime/DefaultErrorStrategy.cpp:57-74 | One gate for all reports: silent exactly while recovering, otherwise one notification and recovery mode |
| `ErrorStrategy.Strategy.ReportMatch` | deps/antlr4-runtime/DefaultErrorStrategy.cpp:48-55 | A match ends recovery and forgets the last error's index |
| `ErrorStrategy.Strategy.ConsumeUntil` | deps/antlr4-runtime/DefaultErrorStrategy.cpp:325-331 | Stops at the first token that is in the set or EOF |
| `ErrorStrategy.Strategy.Recover` | deps/antlr4-runtime/DefaultErrorStrategy.cpp:76-90 | Where recovery stops, and that a second recovery from the same state and index consumes a token first |
| `ErrorStrategy.Strategy.SingleTokenDeletion` | deps/antlr4-runtime/DefaultErrorStrategy.cpp:230-242 | Deletes the current token exactly when the next is expected, and then recovery is over; otherwise nothing changes |
| `ErrorStrategy.Strategy.RecoverInline` | deps/antlr4-runtime/DefaultErrorStrategy.cpp:194-211 | Deletion, insertion or mismatch, by the two lookahead sets; a mismatch changes nothing |
| `ErrorStrategy.Strategy.Match` | deps/antlr4-runtime/Parser.cpp:125-142 | A matching token ends recovery and is passed; otherwise inline recovery, with what it reports, where it stops and whether it stays in recovery mode; a mismatch changes nothing |
| `ErrorStrategy.Strategy.Sync` | deps/antlr4-runtime/DefaultErrorStrategy.cpp:92-133 | When sync deletes, skips or throws, what it reports and where the cursor is then; where it does nothing or throws, nothing at all changes |
| `ErrorStrategy.Perform` | deps/antlr4-runtime/DefaultErrorStrategy.cpp:35-242 | Every command takes cursor, recovery mode, last error and history to exactly where Step says |
| `ErrorStrategy.Run` | deps/antlr4-runtime/DefaultErrorStrategy.cpp:35-90 | Main result. Every run goes as Step says; the listeners hear of every error, except that between two matches or resets they hear of the first only; and recovery entered twice from the same state at the same place with no match between makes progress |
| `FormatString.ParseNonnegativeInt` | deps/fmt/base.h:1282-1303 | The number the digits denote if there are at most ten of them and it fits an int, otherwise the error value, although the digits are added up modulo 2^32 |
| `FormatString.IndexSaturates` | deps/fmt/base.h:1322-1326 | For a numeral without a leading zero that is saturation at INT_MAX |
| `FormatString.ParseArgId` | deps/fmt/base.h:1318-1344 | An index and its end, a name, or an error |
| `FormatString.NameStarts` | deps/fmt/base.h:1314-1316 | A name starts with a letter or an underscore |
| `FormatString.Handler.OnAutoId` | deps/fmt/base.h:850-860 | Automatic numbering, refused after an explicit index |
| `FormatString.Handler.OnIndex` | deps/fmt/base.h:862-871 | Explicit numbering, refused after an automatic one |
| `FormatString.Handler.ParseReplacementField` | deps/fmt/base.h:1569-1613 | One field: what it writes, where the scan goes on, and when it is an error |
| `FormatString.Format` | deps/fmt/base.h:1616-1634 | The scan that copies text in runs computes the meaning that the format string has character by character |
| `FormatLaws.SpelledMeans` | deps/fmt/base.h:1569-1634 | Main result. A format string that spells texts with doubled braces, {} and {N} formats to the texts with the arguments in order and by number in place, and fails exactly when arguments are missing or the two numberings are mixed |
| `FormatLaws.AcceptedExactly` | deps/fmt/base.h:1569-1634 | Main result. Exactly those strings are accepted |
| `FormatCompiler.ParseText` | deps/fmt/compile.h:262-268 | The end of a run of plain text |
| `FormatCompiler.FormatCompiled` | deps/fmt/compile.h:490-520 | Formatting through the compiler gives what the scanner gives, text or error, whenever the scanner accepts the string or its braces are paired |
| `FormatCompiler.TextMeaning` | deps/fmt/compile.h:438-447 | A run of text means itself |
| `FormatCompiler.FieldAgrees` | deps/fmt/compile.h:384-411 | From a '{' on, compiler and scanner agree |
| `FormatCompiler.CompiledMeansScanned` | deps/fmt/compile.h:380-464 | Main result. For every format string and argument list: the scanner accepts it exactly when the compiler does and every '}' in the text is doubled, and then the tree renders the scanner's text; with paired braces both fail on the same strings |
| `FormatCompiler.LoneBraceCompiles` | deps/fmt/compile.h:433-437 | The compiler looks at one '}' only and swallows the character after it |
| `OutputBuffer.Buffer.Limit` | deps/fmt/base.h:1840-1859 | How many of the next characters still go out, and the count of all |
| `OutputBuffer.Buffer.FlushIterator` | deps/fmt/base.h:1873-1879 | Everything so far, or its part within the limit, is in the sink |
| `OutputBuffer.Buffer.FlushPointer` | deps/fmt/base.h:1914-1921 | The output pointer moves past what was written directly; the rest goes to a scratch area |
| `OutputBuffer.Buffer.Grow` | deps/fmt/base.h:1869-1871 | Makes room in each of the flush policies |
| `OutputBuffer.Buffer.PushBack` | deps/fmt/base.h:1804-1807 | One more character, whatever the policy |
| `OutputBuffer.Buffer.AppendChunk` | deps/fmt/base.h:1812-1828 | Every turn of the append loop makes progress |
| `OutputBuffer.Buffer.Append` | deps/fmt/base.h:1811-1829 | The whole range is appended, chunk by chunk |
| `OutputBuffer.Buffer.Out` | deps/fmt/base.h:1894-1897 | Everything appended is out, cut at the limit, and memory past the cut is untouched |
| `OutputBuffer.Produce` | deps/fmt/base.h:1800-2010 | Main result. Any sequence of writes gives the concatenation, cut at the limit, not one character beyond it, and counts are the true total |
| `FastDivision.DivideBy100` | deps/fmt/format-inl.h:275-278 | Exact for every 32-bit value |
| `FastDivision.DivideBy1000Exact` | deps/fmt/format-inl.h:280-283 | Exact exactly when 152 n < 2^71 or n does not end in 999; otherwise one too large |
| `FastDivision.ThousandthTooLarge` | deps/fmt/format-inl.h:280-283 | The quotient of 15534100272597517999 is one too large |
| `FastDivision.CheckDivisibilityAndDivideByPow10` | deps/fmt/format-inl.h:241-262 | Quotient and divisibility from one product, up to ten times the divisor |
| `FastDivision.SmallDivisionByPow10` | deps/fmt/format-inl.h:266-272 | Exact up to ten times the divisor |
| `FastDivision.Umul128Exact` | deps/fmt/format.h:1465-1491 | The portable 64 x 64 product has no lost carry |
| `FastDivision.Umul192Lower128Exact` | deps/fmt/format-inl.h:214-218 | The 64 x 128 product modulo 2^128 |
| `FastDivision.Test100In32` | deps/fmt/format-inl.h:1176-1178 | The rotated product is small exactly on multiples of 100, and then it is the quotient |
| `FastDivision.Test10In32` | deps/fmt/format-inl.h:1181-1183 | The same for 10 |
| `FastDivision.Test100In64` | deps/fmt/format-inl.h:1210-1212 | The same in 64 bits |
| `FastDivision.Test10In64` | deps/fmt/format-inl.h:1215-1217 | The same for 10 in 64 bits |
| `FastDivision.RemoveTrailingZeros32` | deps/fmt/format-inl.h:1169-1187 | All trailing zeros go, their number is added, and the value times the power is the old value |
| `FastDivision.RemoveTrailingZeros64` | deps/fmt/format-inl.h:1190-1222 | The same in 64 bits, exactly when the cast of the quotient by 10^8 loses nothing; otherwise what is left of the quotient |
| `FastDivision.LostInCast` | deps/fmt/format-inl.h:1190-1222 | The value of (2^32 + 1) 10^8 is lost in the cast: it comes out as 10^8 |
| `DigitPairs.HundredsExact` | deps/fmt/format.h:1284-1292 | The wrapping 64-bit product with the correction for large values divides every 32-bit value by 100 exactly |
| `DigitPairs.PairIndexClose` | deps/fmt/format.h:1083-1086 | The seven bits after the point are those of the remainder, up to an error that can carry into them |
| `DigitPairs.TwoDigitsExact` | deps/fmt/format.h:1083-1097 | Main result. In spite of that error the table gives the two digits of the remainder, because remainders that could be missed stand in it twice |
| `IsoWeek.LongYear` | deps/fmt/chrono.h:1102-1111 | The computed year has 53 weeks exactly when it is not negative and starts or ends on a Thursday |
| `IsoWeek.FirstThursdayRule` | deps/fmt/chrono.h:1101-1129 | Main result. For every integer year and every day: year and week are those of the week's Thursday, exactly unless that is week 53 of a negative year |
| `IsoWeek.WrongWeek` | deps/fmt/chrono.h:1101-1129 | In the exceptional case the code says week 52 of that year or week 1 of the next |
| `IsoWeek.IsoDateRoundTrip` | deps/fmt/chrono.h:1101-1129 | Main result. The ISO year, week and weekday name the day they were computed from, with the same exception |
| `IsoWeek.NegativeYear` | deps/fmt/chrono.h:1101-1129 | In year -2, day 361 is in week 53; the code says week 1 of year -1 |
| `Decimals.DigitTable` | deps/fmt/format.h:1259-1306 | The digits are the ten of the table |
| `Decimals.PaddedReads` | deps/fmt/format.h:1279-1308 | The last digits written of a number, read back, are the number modulo the power of ten |
| `Decimals.ReadsPadded` | deps/fmt/format.h:1279-1308 | Every text of digits is what writing its number gives |
| `Decimals.DecimalReads` | deps/fmt/format.h:1279-1308 | The decimal form denotes the number, and only 0 starts with a zero |
| `ChronoText.CountDigits` | deps/fmt/format.h:1104-1117 | The number of decimal digits |
| `ChronoText.FormatDecimal` | deps/fmt/format.h:1279-1308 | Fills exactly the digits of the value in place, for 32-bit values by multiplication, and returns their start; read back they denote the value |
| `ChronoText.WriteFractionalSeconds` | deps/fmt/chrono.h:967-1012 | Main result. A point and exactly the digits asked for, denoting the fraction rounded down, over leading zeros, truncation and padding |
| `ChronoText.Truncated` | deps/fmt/chrono.h:1000-1005 | When digits are dropped, what is left fills the places exactly |
| `ChronoText.Extended` | deps/fmt/chrono.h:1006-1010 | When digits are missing, zeros follow |
| `ChronoText.WriteYear` | deps/fmt/chrono.h:1151-1166 | Sign, padding and digits of a year, for each padding; read back they denote its absolute value |
| `ChronoText.WriteShortYear` | deps/fmt/chrono.h:1318-1322 | Two digits that denote the year's absolute value modulo 100 |
| `ChronoText.WriteCentury` | deps/fmt/chrono.h:1328-1344 | Sign and century, at least two characters, denoting the absolute value's hundreds |
| `ChronoText.CenturyThenShortYear` | deps/fmt/chrono.h:1091-1099 | Main result. For every year %C followed by %y is %Y, which denotes the year |
| `TextStyle.AdditionTest` | deps/fmt/color.h:264-298 | The carries of one 64-bit addition report exactly the conflicts in foreground and background |
| `TextStyle.OrAssign` | deps/fmt/color.h:293-298 | The operator fails exactly on a conflict and otherwise keeps the packing invariant |
| `TextStyle.PackFields` | deps/fmt/color.h:210-262 | Packing keeps colours and emphasis apart |
| `TextStyle.OrRefinesCombine` | deps/fmt/color.h:264-298 | Main result. On packed styles the word operation is the combination of the styles, with an error exactly when a terminal colour meets any colour |
| `TextStyle.ChainRefines` | deps/fmt/color.h:293-303 | Main result. Over every chain of combinations the word stays the packed combined style, and an error comes exactly when two styles of the chain clash |

## Left out

- SSA destruction: replacing SSA values by temporaries before it, dead blocks and dead temporaries around it, and renaming
  multiply assigned temporaries to variables afterwards (`src/backend/ir/transform/ssa/destruct.hpp:87-128`).
- SsaDestruction.Function.ReplacePhi: copies are made block by block in index order, not along the dominator tree; with
  dead blocks gone both visit every block once, and the copies of a block do not depend on the others.
- SsaDestruction.Function.Collect: constants are compared by value alone, as the map's order does, without their types.
- Dominance.DataFlow.Solve: the solver is instantiated for dominators only; liveness, and with it the pruning of phis, is
  not modelled. SSA construction and renaming, optimizations, register allocation and the RISC-V back end are not.
- Other compiler code (option handling, code generation from the syntax tree, the interpreter and its memory) is not modelled.
- Rewriter: rollback and deleteProgram; the order of inserts at several different indices past the end, which is that of a
  hash map (`TokenStreamRewriter.Rewriter.RestTexts` allows any); printing of merged deletes, which is only counted.
- TokenStreamRewriter.Rewriter.GetText: an interval that starts inside a replaced range prints the raw tokens there, as the
  code does; its meaning is given from the interval's start on.
- TokenWindow.UnbufferedTokenStream.Consume: that `_lastToken` points to a token destroyed when the window is flushed is not
  modelled, tokens being values; neither are getText nor the cast of a token's index to int.
- TokenWindow.Run: seeks stay between the outermost mark and what was reached, as the documentation asks; LT(0) and
  lookback beyond -1 are in LT's contract only.
- CharWindow.UnbufferedCharStream.GetText: the code points; encoding them as UTF-8 and rejecting invalid ones is not part
  of this model.
- CommonTokenStream.Run: runs look back only as far as the filtered list goes and do not seek to the largest size_t; the
  contracts of LB and Seek cover the rest.
- BufferedTokenStream's getTokens, getHiddenTokens, getText and fill are not modelled; nor are marks, which do nothing there.
- Parser.Run: tree building is on and there are no listeners; start and stop tokens, relabelled alternatives (enterOuterAlt)
  and the flag for a matched EOF are not modelled.
- ErrorStrategy.Strategy.Recover: the cast of the index to int is not modelled. lastErrorStates is never cleared, as in the
  code. Message texts and the computation of lookahead sets from the ATN are left out.
- FormatString.Format: format specs and named arguments end a scan as not modelled, in both implementations at the same
  place; the automatic counter is unbounded, where the code's int would overflow after 2^31 fields.
- FormatCompiler.Compile: templates instantiated at compile time are functions evaluated on the string.
- OutputBuffer.Buffer.Append: buffers over containers and the unlimited pointer buffer are left out, and so is writing to a
  limited pointer buffer after out() was called on it.
- FastDivision.RemoveTrailingZeros64: a quotient by 10^8 that the cast turns into 0 is excluded, as by the code's assertion.
  The shortest-decimal algorithm around these functions, with its table of powers, is left out.
- ChronoText.CountDigits: the table-driven digit counts of some platforms are not modelled, the portable loop is.
- ChronoText.WriteFractionalSeconds: floating-point durations and the conversion of a duration to its sub-second count are
  left out; the count is a parameter. Localized output is left out.
- TextStyle.OrAssign: escape sequences for styles are left out.
