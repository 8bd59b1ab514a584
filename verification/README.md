# Verified models of the repository's algorithmic tools

Six tools of the repository hold self-contained algorithms. This project models them in Dafny and
proves what they are for, on every input, every key order and every interleaving.

- **Dependency sorting and cycle finding** (`Digraph`, `Topsort`, `FindCycles`, `TopsortProperties`,
  `RadUtil`). The worklist sort never computes a depth, yet its first-in-first-out order is the
  concatenation of the dependency levels. Both sorts succeed exactly on acyclic input and fail with
  the same leftover dictionaries; the cycle finder run on the leftover yields every simple cycle of
  the input exactly once up to rotation, although it skips start nodes that it has visited. A
  dictionary's keys come in an arbitrary order (`Topsort.Keys`).
- **The test runner's worker pool** (`WorkerPool`, `RunVerdict`). The main thread, the workers and
  the interrupt are a transition system over two queues; a run is any sequence of enabled steps.
- **Configuration paths** (`Introspection`, `RepeatedPaths`). The recursive gathering over the graph of
  types records exactly the simple walks from its root, each once; two walks may still carry the same
  labels to the same type.
- **The mini-shell** (`ShellParse`, `ShellReading`, `ShellGrammar`, `ShellRun`, `ShellLists`,
  `ShellStandard`). What an accepted token list stands for, which pipelines the parser can build, what
  running one does, and exactly when that is what the POSIX.1-2017 Shell Command Language prescribes in
  sections 2.9.2 and 2.9.3.
- **Unified diffs** (`PatchText`, `TrailingWhitespace`, `CheckStyle`). A parser and a printer, and an
  in-place clean-up of line objects that the source view and the target view share. The values are in
  the first two modules, the objects with their fields in the third.
- **Combinatorics and binary words** (`Permutations`, `BinaryWords`).

`Sequences` and `Wrappers` hold what several modules share. `hide` statements keep a proof from
unfolding what it does not need.

Where code and documentation disagree, the model follows the code:

- The remark beside the raise of the sorts says that every leftover element has a child. What holds is
  that every leftover element has an unfinished *parent* (`TopsortProperties.TopsortRaises`). The
  remark is true exactly when no element without children can be reached from a cycle
  (`TopsortProperties.LeftoverHasChildrenIff`).
- `Gather` is followed by a clean-up that is meant to keep unique entries but works on a copy. Entries
  that are gathered twice stay in the output: `RepeatedPaths.RepeatedIff` says when one gathering has
  any, `RepeatedPaths.RootsRepeatIff` when those from all roots together have, and
  `RepeatedPaths.RegisteredTwice` covers the pair of types that the program registers twice.
- The mini-shell leaves an and/or list at the first short circuit; behind a pipe sign it looks past a
  directory change to the next command and ignores a redirected input; behind a directory change its
  redirections still open files in the directory where it was started. None of this is what sections
  2.9.2 and 2.9.3 prescribe; `ShellStandard.RunIsPosixIff` and `ShellStandard.AlwaysPosixIff` say when
  the outcome is the same.
- The clean-up of trailing-whitespace changes may change the source view too, since context lines
  belong to both views; `TrailingWhitespace.SourceViewUnchangedIff` says when.

## Model

| member | source | states |
|---|---|---|
| Digraph.LevelIsDepth | bindings/python/topsort.py:203-224 | the elements placed in round k are exactly those whose longest chain of predecessors has length k |
| Digraph.SettledIsAcyclicPart | bindings/python/topsort.py:226-229 | when nothing more can be placed, what has been placed is exactly what no cycle reaches |
| Digraph.LongPathHasCycle | bindings/python/topsort.py:108-111 | a chain longer than the number of elements runs round a cycle |
| Digraph.CountIntoIs | bindings/python/topsort.py:86-87 | the count of an element is the number of pairs into it from unfinished parents |
| Digraph.CountIntoStep | bindings/python/topsort.py:97-103 | finishing one parent lowers each count by the number of pairs from that parent, duplicates included |
| Topsort.BuildTables | bindings/python/topsort.py:77-90 | the two dictionaries count the parents and list the children of every mentioned element, one entry per pair |
| Topsort.Parentless | bindings/python/topsort.py:93 | the elements without parents, each once, in an arbitrary order |
| Topsort.TakeOut | bindings/python/topsort.py:97-106 | after an element is taken out the counts are those of the pairs from unfinished parents, and the children whose count reached zero are exactly the newly free ones, in the order of its last pairs for them |
| Topsort.ChildIsPending | bindings/python/topsort.py:100-103 | a child whose count is lowered is still a key of the dictionary and not yet in the answer |
| Topsort.Topsort | bindings/python/topsort.py:61-112 | the answer is the concatenation of the levels, each permuted, in first-in-first-out order: elements without parents first, then by the place of the last-placed parent and its last pair; it returns iff the pairs are acyclic; otherwise the leftover counts and children are those of the elements that a cycle reaches |
| Topsort.QueueGrows | bindings/python/topsort.py:97-106 | finishing one element and appending what it frees keeps the first-in-first-out order |
| Topsort.NextLevel | bindings/python/topsort.py:92-106 | the growing answer keeps to the levels: finished levels, then the one being worked through, then elements of the next only |
| Topsort.TopsortLevelsCore | bindings/python/topsort.py:174-232 | level k lists exactly the elements of depth k, also before an error; it ends normally iff the graph is acyclic, else with the same leftover |
| Topsort.TopsortLevels | bindings/python/topsort.py:157-172 | the same for a list of pairs |
| TopsortProperties.LevelOrderIsTopological | bindings/python/topsort.py:92-106 | the sorted elements are those that no cycle reaches, each once, every parent before its child, and longest-chain depth never goes down |
| TopsortProperties.TopsortReturns | bindings/python/topsort.py:112 | on return every mentioned element is listed exactly once, parents first |
| TopsortProperties.TopsortRaises | bindings/python/topsort.py:108-111 | on an error the leftover is what the answer lacks, it contains a cycle, and each leftover element has a leftover parent and a positive count |
| TopsortProperties.LeftoverTables | bindings/python/topsort.py:108-111 | each leftover count is the number of pairs from leftover parents, and each leftover parent has the children of its pairs, one for each, in list order |
| TopsortProperties.LeftoverHasChildrenIff | bindings/python/topsort.py:109-110 | the remark beside the raise, that everything left has a child, holds iff no element that is never a parent can be reached from a cycle |
| TopsortProperties.LeftoverWithoutChild | bindings/python/topsort.py:109-110 | an input on which it does not hold |
| TopsortProperties.SortsAgree | bindings/python/topsort.py:92-112 | worklist order and levels are the same up to permutation within a level; both sorts fail together with equal leftover dictionaries |
| TopsortProperties.LevelsAreDepths | bindings/python/topsort.py:203-232 | membership in level k is longest-chain depth k, and membership in no level is being reachable from a cycle |
| TopsortProperties.LevelsAreDisjoint | bindings/python/topsort.py:203-224 | no element is yielded twice |
| TopsortProperties.LeftoverKeepsCycles | bindings/python/topsort.py:111 | the leftover children have exactly the simple cycles of the original pairs |
| TopsortProperties.LeftoverCyclesAreAll | bindings/python/topsort.py:235-245 | after a failed sort the cycle finder on the leftover yields at least one cycle, only cycles of the pairs, and each simple cycle of the pairs exactly once up to rotation |
| TopsortProperties.FoundOnce | bindings/python/topsort.py:370-378 | every simple cycle is represented by exactly one yield |
| RadUtil.IsRotated | bindings/python/rad_util.py:735-775 | true iff one sequence is a rotation of the other |
| RadUtil.RotationSymmetric | bindings/python/rad_util.py:735-736 | being a rotation is symmetric |
| RadUtil.RotationTransitive | bindings/python/rad_util.py:735-736 | being a rotation is transitive |
| RadUtil.RotationReflexive | bindings/python/rad_util.py:735-736 | every sequence is a rotation of itself |
| FindCycles.IsDuplicate | bindings/python/topsort.py:371-375 | true iff some cycle found so far is a rotation of this one |
| FindCycles.FollowChild | bindings/python/topsort.py:362-385 | a child on the path leads to a found cycle, any other child to a longer repetition-free path on the stack |
| FindCycles.FollowChildren | bindings/python/topsort.py:355-385 | every child of the end of the path is handled, the cycles stay genuine and pairwise not rotations, and exactly the children off the path become visited |
| FindCycles.SearchFrom | bindings/python/topsort.py:351-385 | the stack holds repetition-free paths from the start throughout (loop invariant); the search ends; then every simple cycle through the start or through a newly visited element has been found |
| FindCycles.ExpandLowersWork | bindings/python/topsort.py:352-383 | replacing a popped path by all its extensions lowers an explicit measure of the stack |
| FindCycles.AllPathsExpanded | bindings/python/topsort.py:351-385 | with an empty stack every repetition-free path from the start has been popped |
| FindCycles.CycleAtEnd | bindings/python/topsort.py:367-378 | a cycle that such a path first meets at its end has been found |
| FindCycles.FindCycles | bindings/python/topsort.py:235-385 | the yields are simple cycles, no two are rotations of each other, and every simple cycle is a rotation of one of them, for every key order and despite the skipped starts |
| WorkerPool.StepKeepsInv | test.py:965-1033 | every step of every thread keeps: each dispatched job in exactly one place, sentinels counted and behind all jobs, jobs' contents faithful |
| WorkerPool.RunInv | test.py:1399-1402 | the invariant holds in every state of every interleaving |
| WorkerPool.NoWorkerLeavesEarly | test.py:972-973 | once a worker has exited, no job is left in the input queue |
| WorkerPool.NoDeadlock | test.py:1667-1690 | until the main thread is done, some thread can take a step, so none of the main thread's gets or joins waits for ever |
| WorkerPool.RunsAreFinite | test.py:965-1033 | the length of every interleaving is bounded by the numbers of tests and workers |
| WorkerPool.StuckOnlyWhenDone | test.py:1828-1829 | a run that cannot be continued, other than by the interrupt, is over |
| WorkerPool.OneSentinelAWorker | test.py:965-973 | along every interleaving a worker has taken one sentinel if it has stopped or is about to, and none otherwise |
| WorkerPool.SentBackOrCollected | test.py:982-1033 | a job is put into the output queue at most once, and is then still there or collected |
| WorkerPool.TakenInOrder | test.py:965-966 | in every state the input queue holds the jobs from some number on, in the order of the test list, and sentinels only behind them |
| WorkerPool.CollectedInOrder | test.py:1682-1690 | the jobs are collected in the order in which they were put into the output queue |
| WorkerPool.BrokenIffInterrupted | test.py:979-983 | in a finished run a job is marked as broken off iff the exit flag was up at some moment before any worker had looked at it |
| WorkerPool.RunEnd | test.py:1667-1690 | at the end both queues are empty, every worker has exited after taking exactly one sentinel, and every job was sent back exactly once and collected exactly once, processed |
| WorkerPool.OutputEmpty | test.py:1689-1690 | when as many jobs were got as were dispatched, none is left in the output queue |
| RunVerdict.CollectResults | test.py:1682-1718 | the counters and name lists of the collected jobs, by verdict, in the order they come |
| RunVerdict.TallyOf | test.py:1694-1718 | which jobs each counter counts and each list names, in arrival order: skipped ones whatever their code, and of the others 0 passed, 1 failed, 2 valgrind, any other code crashed |
| RunVerdict.CountersAddUp | test.py:1849-1850 | passed, failed, crashed, valgrind errors, skipped and interrupted add up to the total in every finished run |
| RunVerdict.SuccessIff | test.py:1913-1916 | the exit status is 0 iff nothing was interrupted and every test was skipped or returned 0 |
| RunVerdict.InterruptFails | test.py:1913-1916 | an interrupt that comes before some test is looked at makes that job interrupted and the exit status 1 |
| RunVerdict.TallyIsScheduleIndependent | test.py:1682-1718 | without an interruption counters and name lists, up to order, are fixed by the tests and their return codes |
| RunVerdict.StringLeqIs | test.py:1854-1860 | the order of the name lists is that of dictionaries |
| RunVerdict.AscendingUnique | test.py:1854-1860 | a sorted list of names is determined by the names |
| RunVerdict.SchedulesReportTheSame | test.py:1849-1860 | two uninterrupted runs report the same counters, sorted name lists and exit status |
| Introspection.StaticInformation.RecordAggregationInfo | utils/print-introspected-doxygen.cc:1056-1076 | two names with types add the pair, else the first name without one is noted; the registry stays closed |
| Introspection.LinksIn | utils/print-introspected-doxygen.cc:1195-1268 | following pointers, containers, children and aggregations never leaves the registered types |
| Introspection.LinksListed | utils/print-introspected-doxygen.cc:1194-1268 | the links of a type are what its attributes give (pointers except those to Object, containers), then its registered children, then its aggregations, each in order and each once |
| Introspection.LinkIff | utils/print-introspected-doxygen.cc:1194-1268 | a link with this segment and target is among them iff an attribute, a registered child or an aggregation gives it |
| Introspection.WalksExact | utils/print-introspected-doxygen.cc:1186-1269 | the walks the gathering takes are exactly the simple walks that avoid the stack |
| Introspection.WalksOnce | utils/print-introspected-doxygen.cc:1186-1269 | and it takes each of them once |
| Introspection.WalksInOrder | utils/print-introspected-doxygen.cc:1186-1269 | and it takes them in the order of the links, a walk before its continuations |
| Introspection.OutputsStep | utils/print-introspected-doxygen.cc:1214-1218 | following one more link, with its name and type pushed, records what the walks through that link contribute |
| Introspection.RenderFront | utils/print-introspected-doxygen.cc:1091-1102 | a path is rendered as its segments in order, a slash in front of each |
| Introspection.StaticInformation.GetCurrentPath | utils/print-introspected-doxygen.cc:1091-1102 | the names on the path, each behind a slash |
| Introspection.StaticInformation.RecordOutput | utils/print-introspected-doxygen.cc:1105-1110 | the type is appended with the current path |
| Introspection.StaticInformation.HasAlreadyBeenProcessed | utils/print-introspected-doxygen.cc:1113-1125 | true iff the type is on the stack |
| Introspection.PathsListed | utils/print-introspected-doxygen.cc:1128-1142 | the paths given for a type are those of its entries, one for each, in order |
| Introspection.StaticInformation.Get | utils/print-introspected-doxygen.cc:1128-1142 | the recorded paths of one type, in order |
| Introspection.StaticInformation.Follow | utils/print-introspected-doxygen.cc:1214-1218 | path and stack are restored after a link has been followed |
| Introspection.StaticInformation.FollowAttributes | utils/print-introspected-doxygen.cc:1194-1233 | pointers, except those to Object, and containers are followed in order |
| Introspection.StaticInformation.FollowChildren | utils/print-introspected-doxygen.cc:1234-1246 | every registered child is followed in order |
| Introspection.StaticInformation.FollowAggregates | utils/print-introspected-doxygen.cc:1247-1268 | every aggregation the type takes part in is followed to its other end |
| Introspection.StaticInformation.DoGather | utils/print-introspected-doxygen.cc:1186-1269 | appends the end and label path of every simple walk that avoids the stack, restores path and stack, and terminates |
| Introspection.StaticInformation.Gather | utils/print-introspected-doxygen.cc:1176-1182 | the same from an empty stack; the output is left as gathered |
| Introspection.GatheredPaths | utils/print-introspected-doxygen.cc:1185-1269 | a type is given exactly the label paths of the routes from the root to it: types without repetition, each linked to the next by an attribute, a child or an aggregation |
| RepeatedPaths.RepeatedLinkRepeats | utils/print-introspected-doxygen.cc:1159-1182 | a type that lists the same link twice, on a simple walk that has not met its target, gives the output a repeated entry, which the clean-up leaves there |
| RepeatedPaths.SegmentFixesLink | utils/print-introspected-doxygen.cc:1213-1263 | where names can be told apart, a path segment stands for one link of its type |
| RepeatedPaths.RenderOnce | utils/print-introspected-doxygen.cc:1091-1102 | a rendered path can be read back in one way only |
| RepeatedPaths.RepeatedIff | utils/print-introspected-doxygen.cc:1159-1269 | where names can be told apart, one gathering repeats an entry iff there is such a link |
| RepeatedPaths.GatherRoots | utils/print-introspected-doxygen.cc:1313-1317 | gathering from every root in turn records what each of them records, in order |
| RepeatedPaths.RootsRepeatIff | utils/print-introspected-doxygen.cc:1313-1317 | where names can be told apart, the record of all roots repeats an entry iff one gathering does or two of them reach the same type under the same labels |
| RepeatedPaths.RegisteredTwice | utils/print-introspected-doxygen.cc:1292-1294 | when a pair of types is registered twice, every root with a simple walk to one of them that has not met the other records a path twice |
| ShellParse.Pipeline.Parse | waf-tools/shellcmd.py:121-201 | the loop computes the pipeline the token list stands for, or fails where an assertion does |
| ShellReading.ParsedIsReading | waf-tools/shellcmd.py:121-201 | a token list is accepted iff it can be read operand by operand, and the pipeline is that reading: the arguments of a command are its words in order, its streams are what stands behind the signs, wherever they stand, and the last assignment to a name counts |
| ShellParse.Pipeline.CommitCommand | waf-tools/shellcmd.py:101-104 | the current command moves to the end of the pipeline; without one it fails |
| ShellGrammar.AcceptKeepsOk | waf-tools/shellcmd.py:136-199 | every token keeps the pipeline an alternation and the current command well-formed |
| ShellGrammar.ParsedIsWellFormed | waf-tools/shellcmd.py:121-201 | an accepted token list gives an alternation from operand to operand, where a command is piped iff a pipe sign follows and a directory change is last or followed by an and |
| ShellGrammar.CanonicalTokensParse | waf-tools/shellcmd.py:121-201 | parsing the canonical tokens of a well-formed pipeline returns it |
| ShellGrammar.ParsedIffWellFormed | waf-tools/shellcmd.py:121-201 | a pipeline is the parse of some token list iff it is well-formed |
| ShellGrammar.EnvMatchIff | waf-tools/shellcmd.py:24 | a token is an assignment iff it is a name of letters, digits and underscores, an equals sign and a value without blanks, a newline apart |
| ShellGrammar.EnvMatchStable | waf-tools/shellcmd.py:24 | writing a matched assignment out again matches with the same name and value |
| ShellRun.ExecPipedCommands | waf-tools/shellcmd.py:203-212 | the status of a group is the exit code of its last command, whatever the others return |
| ShellRun.CloseFiles | waf-tools/shellcmd.py:301-304 | exactly the opened files are closed, the null device never |
| ShellRun.LaunchCommand | waf-tools/shellcmd.py:242-291 | the process gets the redirections, each with the file opened under its name, the environment and the directory its command calls for, and every file opened for it is accounted for |
| ShellRun.FinishGroup | waf-tools/shellcmd.py:312-319 | after a group every file opened so far is closed, each once |
| ShellRun.Run | waf-tools/shellcmd.py:214-346 | the run refines the recursive evaluation group by group: same commands launched, same result; at every return all opened files are closed exactly once |
| ShellRun.ItemsShape | waf-tools/shellcmd.py:161-168 | a command writes to a pipe iff it is joined to the next one |
| ShellStandard.PipesConnect | waf-tools/shellcmd.py:242-243 | pipe input comes only from the process launched just before, and that one has a piped output |
| ShellRun.JoinPathIs | waf-tools/shellcmd.py:231 | an absolute directory replaces the current one; any other is put behind it |
| ShellStandard.LaunchedAt | waf-tools/shellcmd.py:225-291 | each process is launched in the join of all directory changes before it, while its redirections open files in the directory where the interpreter was started |
| ShellLists.MatchesPosixIff | waf-tools/shellcmd.py:312-346 | for given statuses a list is run as section 2.9.3 prescribes iff all operators from the short circuit on are of one kind |
| ShellLists.RunsUpToTheCut | waf-tools/shellcmd.py:312-346 | the groups that are run are the first ones, up to the short circuit, and the result is the status of the last of them |
| ShellStandard.RunIsRunList | waf-tools/shellcmd.py:214-346 | a run launches the commands of the first pipelines, up to the short circuit, and no others; its result is the status of the last of these pipelines |
| ShellStandard.PipedIntoAt | waf-tools/shellcmd.py:225-243 | a command reads from a pipe iff a pipe sign stands before it or before the directory changes in front of it |
| ShellStandard.RunIsPosixIff | waf-tools/shellcmd.py:214-346 | the commands run, their arguments, streams and directories and the result are those of sections 2.9.2 and 2.9.3 iff from the operator that ends the run on all list operators are of one kind, those behind directory changes included, and up to there no directory change and no command with redirected input stands behind a pipe sign, and every redirection names the same file in the current directory as in the interpreter's own |
| ShellStandard.AlwaysPosixIff | waf-tools/shellcmd.py:214-346 | they are whatever the exit codes iff from the first command on all list operators are of one kind and the other conditions hold for the whole pipeline |
| ShellStandard.MixedListDiffers | waf-tools/shellcmd.py:312-346 | tokens for which the run is not the standard's: two commands joined by an and, a third by an or, the first of which fails |
| ShellStandard.ChangeInListDiffers | waf-tools/shellcmd.py:225-231 | so it is when a directory change stands between an or and an and, and the command before them succeeds |
| ShellStandard.ChangeInPipeDiffers | waf-tools/shellcmd.py:225-243 | and when a directory change stands behind a pipe sign, whatever the exit codes |
| ShellStandard.InputBehindPipeDiffers | waf-tools/shellcmd.py:242-250 | or a command whose input is redirected |
| ShellStandard.FileBehindChangeDiffers | waf-tools/shellcmd.py:231-268 | and when a redirection behind a directory change names another file there |
| PatchText.ValueOfDecimal | utils/check-style.py:292-293 | reading a written number gives the number |
| PatchText.ReadIsOk | utils/check-style.py:360-398 | no text that is read contains a newline or could have been read as a file name line |
| PatchText.ReadIff | utils/check-style.py:361-366 | which lines read as file name and content lines, in terms of their signs |
| PatchText.ReadHeaderIff | utils/check-style.py:363 | a line reads as a chunk header with two positions iff it has four numbers between the signs; any text may follow |
| PatchText.ParseFailsIff | utils/check-style.py:368-402 | reading fails iff some line matches no pattern, or names a target or begins a chunk before the first source name, or is a content line before the first header |
| PatchText.LastHeaderTakes | utils/check-style.py:368-402 | content lines go to the chunk of the last header, also behind the file name lines of a further patch |
| PatchText.ReadContent | utils/check-style.py:204-217 | a written content line reads as itself |
| PatchText.ReadHeader | utils/check-style.py:286-293 | a written chunk header gives back both positions, whatever its counts |
| PatchText.HeaderShowsCounts | utils/check-style.py:286-293 | a written header shows the positions and the actual numbers of source and target lines |
| PatchText.WrittenRead | utils/check-style.py:348-357 | reading the lines of a printable patch set rebuilds it |
| PatchText.SplitJoined | utils/check-style.py:368 | splitting a written file gives back its lines |
| PatchText.RoundTripIff | utils/check-style.py:348-403 | writing and parsing returns an equal patch set iff no text has a newline, no removed text starts with "-- " and no added text with "++ " |
| PatchText.WriteAfterParseIsStable | utils/check-style.py:348-403 | writing what was parsed and parsing it again changes nothing |
| TrailingWhitespace.ViewLengths | utils/check-style.py:274-285 | the header counts are the lengths of the two views |
| TrailingWhitespace.PairRestores | utils/check-style.py:406-418 | the target line gets back the blank or tab that its source line, as the earlier pairs have left it, has more, and otherwise stays as it was |
| TrailingWhitespace.ViewsExact | utils/check-style.py:254-273 | the source view shows removed and context lines, the target view added and context lines |
| TrailingWhitespace.PairEffect | utils/check-style.py:412-418 | a target line is compared as it was at first with its source line as the earlier pairs have left it |
| TrailingWhitespace.AtMostOneBlank | utils/check-style.py:405-421 | count, order and kinds of lines stay, and each target line grows by at most one blank |
| TrailingWhitespace.SelfPairedUnchanged | utils/check-style.py:412-418 | a context line paired with itself never changes |
| TrailingWhitespace.SourceViewUnchangedIff | utils/check-style.py:412-418 | the source view stays iff no context line is paired with a source line that is the same but for a blank at its end |
| TrailingWhitespace.SourceViewUnchanged | utils/check-style.py:412-418 | in particular it stays when no context line is paired with another source line |
| TrailingWhitespace.SourceViewCanChange | utils/check-style.py:412-418 | a chunk whose source view changes |
| TrailingWhitespace.CleanedExact | utils/check-style.py:405-421 | the whole clean-up pair by pair: chunks behind the first with fewer target than source lines stay, the others are restored pair by pair, and all other lines stay |
| TrailingWhitespace.CleanedKeepsShape | utils/check-style.py:405-421 | patches, chunks and positions stay |
| TrailingWhitespace.CleaningOver | utils/check-style.py:412-421 | the early return leaves exactly the chunks behind the first short target untouched |
| TrailingWhitespace.CleanedAtMostOneBlank | utils/check-style.py:405-421 | over the whole patch set only target lines of chunks that are reached change, each by one blank at its end |
| TrailingWhitespace.CleanedSourceViewIff | utils/check-style.py:405-421 | all source views stay iff the condition holds for every chunk that is reached |
| CheckStyle.PatchChunkLine.Write | utils/check-style.py:204-217 | the sign for the kind and the text; an unset line fails |
| CheckStyle.PatchChunk.AddLine | utils/check-style.py:247-253 | the chunk reads as before with the line added at its end |
| CheckStyle.PatchChunk.Src | utils/check-style.py:254-263 | the source view, context lines being the same objects as in the target view |
| CheckStyle.PatchChunk.Dst | utils/check-style.py:264-273 | the target view |
| CheckStyle.PatchChunk.Write | utils/check-style.py:286-295 | the header with the counts recomputed, then the lines |
| CheckStyle.Patch.AddChunk | utils/check-style.py:313-319 | the patch reads as before with the chunk added at its end |
| CheckStyle.Patch.Write | utils/check-style.py:348-357 | the two file name lines, then the chunks |
| CheckStyle.TakeLine | utils/check-style.py:368-402 | one line changes the patch objects as it changes the patch set they stand for; a new patch does not end the current chunk |
| CheckStyle.ParsePatchset | utils/check-style.py:359-403 | fresh objects that read as the parsed patch set, no line shared between chunks, or a failure on the same inputs |
| CheckStyle.ComparePair | utils/check-style.py:414-418 | one comparison on the objects, source and target line possibly being shared |
| CheckStyle.CleanChunk | utils/check-style.py:410-420 | the line objects of the chunk read as cleaned; it is given up iff the target is too short |
| CheckStyle.RemoveTrailingWhitespaceChanges | utils/check-style.py:405-421 | the patch objects read as the cleaned patch set, with the early return |
| Permutations.Permute | bindings/python/rad_util.py:293-326 | the loops build the insertions of the first item into every permutation of the rest |
| Permutations.ExactlyTheArrangements | bindings/python/rad_util.py:293-326 | a list is among the results iff it is an arrangement of the input |
| Permutations.PermutationCount | bindings/python/rad_util.py:293-326 | there are n! results |
| Permutations.DistinctIff | bindings/python/rad_util.py:293-326 | the results are pairwise different iff the items are |
| BinaryWords.Int2Bin | bindings/python/rad_util.py:74-105 | a word of the width with the value, or an error iff the value needs more bits |
| BinaryWords.WordBit | bindings/python/rad_util.py:108-130 | the characters of a word are the bits of its value, the highest first |
| BinaryWords.WordUnique | bindings/python/rad_util.py:108-130 | a word is determined by its width and its value |
| BinaryWords.NibblesValue | bindings/python/rad_util.py:91-96 | mapping hexadecimal digits to four bits each keeps the value |
| BinaryWords.Increment | bindings/python/rad_util.py:649-659 | the ripple adds one, and carries out exactly when the word wraps to zero |
| BinaryWords.BinaryRange | bindings/python/rad_util.py:632-660 | for every positive width it ends with 2^bits words, the k-th being the word with value k |
| BinaryWords.GrayBit | bindings/python/rad_util.py:612-615 | each bit of the code is the exclusive or of the number's bit and the next higher one |
| BinaryWords.GrayNeighbours | bindings/python/rad_util.py:612-615 | the codes of neighbouring numbers differ in exactly one bit |
| BinaryWords.GrayWrapsAround | bindings/python/rad_util.py:612-615 | so do the last and the first code of every width |
| BinaryWords.GrayIsPermutation | bindings/python/rad_util.py:612-615 | below every power of two each value is the code of exactly one number |

## Left out

- Generators return the sequence of all their yields. A caller that changes a yielded list between two
  yields (the cycle finder keeps the lists it has yielded) or the dictionaries is not modelled.
- Topsort.TopsortLevelsCore: dictionaries that are not the parent counts and children lists of one
  graph are excluded by a precondition, because the source then fails on a missing key or goes wrong.
- RadUtil.IsRotated: two empty sequences are excluded by a precondition, because the source fails on
  them.
- BinaryWords.Int2Bin: negative integers and width 0 are excluded; the source mishandles both.
- WorkerPool: the fields of a job are values, not an object with setters. Each job is held by one thread
  at a time, so sharing is not observable. A test's return code is a parameter; an exception in a
  worker is not modelled, nor are reports, elapsed times, option parsing and process launch.
- ShellParse.Pipeline: the command being filled is a value in the class's field; no one else refers to
  it. Splitting a string into tokens is left to the caller. Blanks are the ASCII ones.
- ShellRun.Run: exit codes are a parameter and files are numbers. A pipeline that ends in a directory
  change, or one that names no directory, is excluded by a precondition, because the source fails on
  it. Failures to open a file or to launch a process, verbose printing and the abbreviated command are
  not modelled.
- ShellStandard.RunIsPosixIff: the standard's side starts from the nodes of the pipeline. Splitting into
  tokens and quoting are not part of it, so a word that the parser takes for a command counts as one
  even where a shell rejects the text (two operators in a row), and the order in which the redirections
  of one command were written is not known: joining the error output to the output counts as written
  last. A directory change is taken to succeed and to join its operand to the current directory, as the
  interpreter takes it to; a command has one exit code wherever it is run; and which file a path names
  (a parameter) does not change during the run.
- RepeatedPaths.RepeatedIff: names are required to be distinct and not to contain what the rendering
  itself puts between and around them, because otherwise different walks may render alike by chance;
  `RepeatedPaths.RepeatedLinkRepeats` needs no such condition.
- Introspection: the type registry is a finite labelled graph and the child relation is an arbitrary
  one; the class library behind it is not part of this model. The search for a type by name is a
  parameter; printing and the clean-up of a copy of the output are left out.
- CheckStyle: the patterns are tests on character sequences. Running an indenter or a patch program,
  temporary files and version control hooks are left out. The ghost fields and ghost parameters tie
  objects to the values they stand for and have no counterpart in the source.
- RunVerdict: sorting the name lists is described by its result.
- Simulation scripts, example programs, Python binding glue and build rules: they call libraries whose
  source is not part of this model, or would add only easy members.
- The rest of the utility module (fractions, formatting, polygon areas, small list helpers): easy, or a
  matter of floating point.
