# Verified model of libfsm's automaton pipeline

libfsm turns an NFA with epsilon transitions into a minimal DFA: epsilons are removed in place, subset
construction builds a DFA, unreachable and dead states are trimmed away, equivalent states are found by
partition refinement, and the quotient is built. This project models that pipeline as imperative Dafny, array
by array and list by list, and proves it against short specifications: the same language, the same end IDs,
the coarsest equivalence, the fewest states. Beside the pipeline it covers the table-filling minimiser that
libfsm checks itself against, two searches over DFAs (required characters, match generation), the data
structures underneath (edge sets, interned state sets, the array queue, counting sort, sort and dedup), and the
linear congruential shuffle of the fuzzing tools.

Main results:

* `Pipeline.CompileNfa`: from any NFA with a start state, the whole pipeline yields a DFA with the same language
  and as few states as any DFA with the same outcomes can have. The end IDs it reports are given exactly, for every
  input. They are the NFA's own unless the NFA has an end ID on a state that is no end but takes part in epsilon
  removal; `Epsilons.RemovedIdsExact` and `Epsilons.RemovedIdsFromStart` give the conditions and
  `Epsilons.StrayLeaks` an NFA that breaks them.
* `Minimise.BuildMinimisedMapping`: whatever the unset label sets of states without an edge set hold, only
  states that no suffix tells apart by acceptance or by end IDs get the same number, and all of them do that the
  unset label sets do not tell apart either. So exactly the equivalent states are merged if no state without an
  edge set has a twin, that is, another end with the same end IDs from which no end can be reached
  (`Minimality.TwinsExactly`). Otherwise some content keeps twins apart: `Twins.TwinsCost` shows it for every
  machine with fewer than four labels, and `Twins.ExampleCost` for a machine of four states.
* `Pipeline.FsmTrimAndMinimise`: in every case no state of the result is unreachable or dead, and there are no more
  states than classes would be left if each state without an edge set had an end ID of its own.
* `Minimality.FsmMinimiseTestOracle`: the table-filling minimiser gives a minimal DFA in every case, and
  `Minimality.OracleCheck` relates the two partitions.
* `Determinise.DeterminiseFree`: the state reached on any input stands for exactly the NFA states reachable on it.
* `DetectRequired.DetectRequiredCharacters`: the result is exactly the set of characters that occur in every
  accepted string. The step limit is reported exactly when it is no more than `Tour.StepCount`, which counts
  events on simple paths and does not mention the search: an edge looked at from the end of a path, or the end of
  a path left, up to the first path after which the accepting paths have no character in common.
* `Generator.FsmGenerateMatches`: the matches are the paths from the entry to an end within the length limit, in the
  order of the walk, each spelled with the symbols chosen, none beyond a match that the callback pruned and none
  after one that halts. `Traces.TracedUnique` shows that this leaves only one list of matches. It is the list wanted
  if every state numbered up to the start lies on a path from the start to an end; exactly then does trimming leave
  the start's number alone (`Generator.EntryExactly`). For other machines the search begins in another state or in
  none; `Generator.StaleStart` is a machine whose one match is not accepted.
* `Lcg.GenPermutationVector`: a permutation for every seed and every length up to 2^31, by the full-period
  theorem for power-of-two moduli, and exactly the one that the generator's sequence from the seed gives.

## Layout

`Automata` and `Nfa` hold the meaning of machines. `Finite`, `Arithmetic`, `Probing`, `Effort` and `Paths` are
shared mathematics, and `Buckets` is the hash table with linear probing that two source files have. `Twins` is about
states without an edge set, `ReverseIndex` is the edge index of trimming, `Tour` counts the steps of the search for
required characters, and `Traces` shows that runs of the generator are determined. Each other module follows one
source file or one of its stages. `Guard` has two predicates that are always true. A definition written `forall b
{:trigger Look(b)} :: Look(b) ==> Body` means just `Body`, but is unfolded only where a proof mentions `Look`; this
keeps large invariants out of proofs that only pass them along.

## Model

| member | source | states |
|---|---|---|
| `Pipeline.CompileNfa` | src/libfsm/determinise.c:337-351 | determinise, trim and minimise any NFA with a start: a minimal DFA with the same language and without unreachable or dead states; its end IDs on every input are exactly those of the ends reached and the strays on the way, and just the NFA's if no stray leaks; the state limit is reported exactly as in determinisation, and an error only when that many distinct sets of states can be reached |
| `Pipeline.FsmDeterminiseWithConfig` | src/libfsm/determinise.c:23-335 | epsilons are removed only if there are any; on success a DFA that accepts the NFA's language, with exactly given end IDs; the limit fails exactly when the NFA has more states than the limit or more than limit + 1 sets can be reached; without a start, an error exactly if there are epsilons, and otherwise the NFA as it is unless it exceeds the limit |
| `Pipeline.FsmTrimAndMinimise` | src/libfsm/minimise.c:74-190 | a DFA without empty edge groups becomes one with the same outcome on every input, for any content of unset label sets; all states of the result are reachable and reach an end; it has no more states than there are classes of kept states, each state without an edge set counted as different; it has the fewest states possible if no state without an edge set has a twin, or the arrays hold nothing |
| `Pipeline.HasEpsilons` | src/libfsm/determinise.c:48-52 | true exactly when some state has an epsilon |
| `Pipeline.AnswersBefore` | src/libfsm/determinise.c:48-52 | a DFA that answers for the NFA without epsilons answers for the NFA with them, and reports exactly the IDs shown by ends and strays |
| `Pipeline.SubsetAnswers` | src/libfsm/determinise.c:100-277 | the subset automaton accepts the NFA's language and reports exactly its end IDs |
| `Epsilons.FsmRemoveEpsilons` | src/libfsm/epsilons.c:121-288 | fails exactly without a start and then changes nothing; otherwise no epsilon remains, every start or label-reachable state has exactly the edges and end flag of its whole closure and exactly the IDs of its ends and of the strays it takes over, and the other states keep their edges; the visited flags are clear |
| `Epsilons.Pass` | src/libfsm/epsilons.c:180-254 | one pass in state order, each state reading states that may be rewritten already, still gives each kept state its original closure |
| `Epsilons.RewriteState` | src/libfsm/epsilons.c:193-246 | one state is rewritten to exactly the edges, end flag and IDs of its closure, stray IDs of lower-numbered members included, and no other state changes |
| `Epsilons.TakeOver` | src/libfsm/epsilons.c:196-245 | one closure member's edges and end flag are taken over whether or not it was rewritten before |
| `Epsilons.MarkStatesReachableByLabel` | src/libfsm/epsilons.c:296-323 | the marks are the start state and exactly the targets of labelled edges |
| `Epsilons.CarryEnd` | src/libfsm/epsilons.c:528-572 | the end IDs of all end states in the closure are carried over and no other state changes |
| `Epsilons.CollectIds` | src/libfsm/epsilons.c:548-558 | exactly the IDs of end states in the set |
| `Epsilons.RemovedStep` | src/libfsm/epsilons.c:121-288 | a kept state has the same labelled steps, closures included, before and after; targets are kept |
| `Epsilons.RemovedAccepts` | src/libfsm/epsilons.c:121-288 | every kept state accepts the same words before and after |
| `Epsilons.RemovedIds` | src/libfsm/epsilons.c:121-288 | no ID is lost, and none is gained unless a stray ID leaks |
| `Epsilons.RemovedIdsShown` | src/libfsm/epsilons.c:528-572 | on every word, a kept state reports exactly the IDs of the closures reached and of the strays they take over |
| `Epsilons.SkippedUnreachable` | src/libfsm/epsilons.c:187-191 | the states the pass skips cannot be reached afterwards |
| `Epsilons.RemovedLanguage` | src/libfsm/epsilons.c:121-288 | the language from the start is preserved |
| `Epsilons.RemovedIdsExact` | src/libfsm/epsilons.c:528-572 | end IDs are preserved from all kept states if and only if IDs on non-end states are harmless |
| `Epsilons.RemovedIdsFromStart` | src/libfsm/epsilons.c:528-572 | the IDs reported from the start are unchanged if and only if every stray taken over on the way is reported in the original, too |
| `Epsilons.StrayLeaks` | src/libfsm/epsilons.c:528-572 | a concrete NFA in which an ID on a state that is no end is reported after the pass |
| `Epsilons.FreeIsRemoved` | src/libfsm/determinise.c:48-52 | an NFA without epsilons already is what the removal would leave |
| `Closure.EpsilonClosure` | src/libfsm/closure.c:130-190 | each closure is exactly the reflexive-transitive closure, and all visited flags are clear again |
| `Closure.EpsilonClosureSingle` | src/libfsm/closure.c:24-128 | one closure, reusing finished ones in the presence of cycles; the others are left alone |
| `Closure.PushSuccessors` | src/libfsm/closure.c:96-106 | pushing unvisited successors never overflows the queue and keeps the search invariant |
| `Closure.WalkEnds` | src/libfsm/closure.c:46-107 | an empty queue means that the closure is complete |
| `Queue.StateQueue.Push` | src/adt/queue.c:44-67 | appends unless full, shifting the contents down when the write end is reached |
| `Queue.StateQueue.Pop` | src/adt/queue.c:69-88 | takes the oldest entry, and fails exactly when empty |
| `Determinise.DeterminiseFree` | src/libfsm/determinise.c:60-277 | terminates with the subset automaton, which has at most 2^n states, or reports the limit exactly when it is exceeded; without a start the NFA is left as it is, and where it fails nothing changes |
| `Determinise.SubsetDfaIsDfa` | src/libfsm/determinise.c:119-280 | the subset automaton is deterministic |
| `Determinise.SubsetStep` | src/libfsm/determinise.c:129-188 | a step leads to the state for exactly the union of the targets, and nowhere when it is empty |
| `Determinise.SubsetRun` | src/libfsm/determinise.c:119-191 | the state reached on any input stands for exactly the NFA states reachable on it |
| `Determinise.ReachSetReaches` | src/libfsm/determinise.c:119-191 | the set semantics agree with runs of the NFA |
| `Determinise.SubsetAccepts` | src/libfsm/determinise.c:236-266 | acceptance is preserved and each end state carries the union of its members' end IDs |
| `Determinise.AllSetsPresent` | src/libfsm/determinise.c:119-191 | every non-empty reachable set has a state |
| `Determinise.NotOverLimit` | src/libfsm/determinise.c:166-169 | no more sets can be reached than the automaton has states |
| `Determinise.IdsExhausted` | src/adt/internedstateset.c:388-428 | running out of IDs takes 2^32 - 2 distinct reachable sets |
| `Determinise.BuildOutputs` | src/libfsm/determinise.c:1351-1375 | every label that leads anywhere has an output whose interned set is the union of the targets |
| `Determinise.Worklist.constructor` | src/libfsm/determinise.c:70-117 | state 0 stands for the start state alone |
| `Determinise.Worklist.FindOrAdd` | src/libfsm/determinise.c:157-177 | the state of a known set is reused, a new set gets a new state on the stack, and the limit stops it only when exceeded |
| `Determinise.Worklist.LinkOutputs` | src/libfsm/determinise.c:137-188 | the edges built for a state are those of its set |
| `Determinise.Worklist.ProcessNext` | src/libfsm/determinise.c:119-191 | one round keeps the invariant, and either adds a set or shortens the stack |
| `Determinise.Worklist.ProcessAll` | src/libfsm/determinise.c:119-191 | the loop terminates with all sets processed |
| `Determinise.BuildStates` | src/libfsm/determinise.c:224-266 | one DFA state per set, with end flag and IDs of the members |
| `Analysis.AnalyzeEnv.PairwiseGrouping` | src/libfsm/determinise.c:898-1054 | for any state set and any prior caches: entries with disjoint label sets, each label's to-set being exactly the union of all members' targets, and every label with a target covered |
| `Analysis.AnalyzeEnv.Reduce` | src/libfsm/determinise.c:974-1037 | the ping-pong reduction ends with one result that stands for all the states |
| `Analysis.AnalyzeEnv.ReducePair` | src/libfsm/determinise.c:1009-1031 | one pair of the buffer is replaced by its result; the trees in the buffer keep disjoint leaves |
| `Analysis.AnalyzeEnv.CombinePair` | src/libfsm/determinise.c:2045-2109 | the result stands for the union of the leaves, from the cache or newly made; the two resolved result IDs differ |
| `Analysis.AnalyzeEnv.CombineResultPairAndCommit` | src/libfsm/determinise.c:2331-2505 | the committed result is right for the union of the two leaf sets |
| `Analysis.AnalyzeEnv.JoinLeft` | src/libfsm/determinise.c:2374-2444 | every label of the left result is covered, with targets of both sides |
| `Analysis.AnalyzeEnv.JoinRight` | src/libfsm/determinise.c:2446-2487 | the labels of the right result that remain complete the union |
| `Analysis.NarrowLabels` | src/libfsm/determinise.c:2378-2429 | labels are narrowed until they agree on which right entry they hit |
| `Analysis.AnalyzeEnv.CacheSingleStateAnalysis` | src/libfsm/determinise.c:1056-1335 | the result cached for a state is right for it alone |
| `Analysis.AnalyzeEnv.SplitGroups` | src/libfsm/determinise.c:1200-1318 | overlapping edge groups are split into disjoint label sets with exactly the state's targets |
| `Analysis.AnalyzeEnv.SplitOnce` | src/libfsm/determinise.c:1201-1310 | one round removes a non-empty label set from the first group that has any |
| `Analysis.CollectGroups` | src/libfsm/determinise.c:1076-1134 | the groups collected denote the state's edges |
| `Analysis.SelectGroups` | src/libfsm/determinise.c:1212-1268 | the chosen labels lie in all chosen groups and in no other |
| `Analysis.ClearGroups` | src/libfsm/determinise.c:1277-1282 | exactly the chosen labels are cleared |
| `Analysis.AnalyzeEnv.SaveToSet` | src/libfsm/determinise.c:1528-1590 | the offset returned holds exactly the list given, and what was stored before stays in place |
| `Analysis.AnalyzeEnv.CommitBufferedResult` | src/libfsm/determinise.c:1629-1690 | the buffered entries become the result of the next ID |
| `Analysis.AnalyzeEnv.ResolveState` | src/libfsm/determinise.c:2053-2064 | a cached single-state result denotes what recomputation would |
| `Analysis.CachePairHit` | src/libfsm/determinise.c:1751-1800 | a hit in the pair cache stands for the union of the two leaf sets |
| `Analysis.SpreadCombine` | src/libfsm/determinise.c:1009-1031 | combining two trees keeps all leaves, and keeps them disjoint |
| `SortDedup.SortAndDedupDstBuf` | src/libfsm/determinise.c:2200-2308 | every path leaves the strictly ascending list of the same elements |
| `SortDedup.SmallInputSortAndDedup` | src/libfsm/determinise.c:2139-2198 | the insertion path for small inputs does, too |
| `SortDedup.Survey` | src/libfsm/determinise.c:2216-2235 | the minimum, the maximum, and whether the buffer is ascending already |
| `SortDedup.Squash` | src/libfsm/determinise.c:2261-2274 | duplicates of a sorted buffer are squashed in place |
| `SortDedup.BitsetSort` | src/libfsm/determinise.c:2281-2306 | the bit set path gives the same list and never needs more than QSORT_CUTOFF/64 + 1 words |
| `SortDedup.SortedOfUnique` | src/libfsm/determinise.c:2200-2308 | there is only one strictly ascending list of given elements, so all paths agree |
| `Interned.Pool.InternSet` | src/adt/internedstateset.c:262-435 | the ID stands for the list; IDs given out before keep theirs; a list is stored only if it is new |
| `Interned.Pool.GetStateSet` | src/adt/internedstateset.c:483-515 | reading an ID back gives the original set |
| `Interned.Pool.GrowHtab` | src/adt/internedstateset.c:206-257 | growing the table keeps every key reachable by probing |
| `Interned.Rehashed` | src/adt/internedstateset.c:206-257 | the new table holds every ID, each reachable from its own hash |
| `Interned.Probe` | src/adt/internedstateset.c:319-363 | probing ends at the list's own bucket or at the first gap |
| `Buckets.SomeGap` | src/adt/internedstateset.c:319-363 | a table with more buckets than entries has a gap on every probe sequence |
| `Buckets.GapMeansNew` | src/adt/internedstateset.c:319-363 | a gap after mismatches only shows the key to be absent |
| `Buckets.InsertInGap` | src/adt/internedstateset.c:388-428 | an entry put in the first gap of its probe sequence can be found, and so can all others |
| `Interned.Pool.Store` | src/adt/internedstateset.c:388-428 | a new list gets the next ID and is entered in the gap |
| `Interned.SameIdSameList` | src/adt/internedstateset.c:262-435 | two IDs are equal exactly when their lists are; boxed singletons never collide with pool IDs |
| `Interned.InternAll` | src/adt/internedstateset.c:262-435 | over any history of calls, inputs get the same ID exactly when they are equal |
| `Probing.SlotIsMasked` | src/adt/internedstateset.c:321-322 | the probe sequence of the model is hash plus probe number, modulo the size |
| `Trim.FsmTrim` | src/libfsm/trim.c:497-602 | for a DFA without empty edge groups: the same outcome on every input, every state reachable, every state with its exact distance to an end; states without an edge set stay such, and no twins arise |
| `Trim.MarkStates` | src/libfsm/trim.c:59-376 | exactly the states that are reachable and reach an end are marked, with exact distances |
| `Trim.WalkFromStart` | src/libfsm/trim.c:115-211 | the edges and ends collected are exactly those of the reachable states |
| `Trim.SeedEnds` | src/libfsm/trim.c:231-268 | the ends get distance 0 and are queued |
| `Trim.WalkFromEnds` | src/libfsm/trim.c:270-364 | the backward search over the reverse edge index gives exact distances |
| `ReverseIndex.SortByTarget` | src/libfsm/trim.c:47-57 | the same edges, sorted by the state they lead to |
| `ReverseIndex.BuildOffsets` | src/libfsm/trim.c:284-311 | the offset table delimits, for every state, exactly the edges that lead to it, and none for states past the last target |
| `Trim.BackStep` | src/libfsm/trim.c:334-363 | one edge into a popped state: an unvisited origin is exactly one further from an end, and a visited one is never improved |
| `Trim.CloserVisited` | src/libfsm/trim.c:321-364 | everything at least as close as the popped state has been visited |
| `Trim.OneFurther` | src/libfsm/trim.c:334-363 | an unvisited origin of an edge is exactly one further away, and a distance already given is final |
| `Trim.AllLiveVisited` | src/libfsm/trim.c:321-364 | no state that reaches an end is missed |
| `Trim.SweepStates` | src/libfsm/state.c:177-290 | kept states of a DFA without empty groups are renumbered in order, with exactly the edges between them |
| `Trim.CompactDistances` | src/libfsm/trim.c:582-602 | the distances follow the new numbers |
| `Trim.SweptRun` | src/libfsm/trim.c:429-449 | runs commute with renumbering |
| `Trim.SweptTrimmed` | src/libfsm/trim.c:497-576 | sweeping keeps outcomes, reachability and distances |
| `Trim.TrimmedTwins` | src/libfsm/state.c:177-290 | twins in the trimmed machine come from twins in the original |
| `Trim.TrimmedNulls` | src/libfsm/state.c:218-234 | states without an edge set keep having none, and where there were no twins there are none |
| `Trim.StrictCarries` | src/libfsm/trim.c:497-576 | kept states that nothing told apart before trimming are not told apart afterwards |
| `Trim.AtLeastCarries` | src/libfsm/minimise.c:94-97 | there are no more classes after trimming than among the kept states |
| `Minimality.FsmMinimise` | src/libfsm/minimise.c:74-190 | for any content of unset label sets, a trimmed DFA becomes a DFA with the same outcomes in which each state stands for a class: only equivalent states are merged, and all that unset label sets do not tell apart; every state is reachable and reaches an end; it is minimal if no state without an edge set has a twin, or the arrays hold nothing |
| `Minimality.QuotientNeeded` | src/libfsm/minimise.c:133-151 | merging makes no state unreachable or dead |
| `Minimality.TwinsExactly` | src/adt/edgeset.c:426-442 | in a trimmed machine, no state without an edge set is equivalent to another state if and only if none has a twin |
| `Twins.TwinsCost` | src/libfsm/minimise.c:1253-1332 | with fewer than four labels, twins always cost a state: for some content of the unset label sets the result is not minimal, and a smaller machine is given |
| `Twins.TwinsKeptApart` | src/libfsm/minimise.c:1311-1314 | with such a content twins are equivalent and still get different numbers |
| `Twins.OwnIsTagged` | src/adt/edgeset.c:433-435 | label sets that are different for each state tell apart exactly what an end ID for each of them would |
| `Twins.ExampleCost` | src/libfsm/minimise.c:1253-1332 | a machine of four states that the code can leave as it is although three are enough |
| `Minimality.QuotientMinimal` | src/libfsm/minimise.c:133-151 | a quotient with as many states as classes is minimal among all DFAs with the same outcomes |
| `Minimality.AtLeastClasses` | src/libfsm/minimise.c:133-151 | any DFA with the same outcomes has at least as many states as there are classes |
| `Minimality.NerodeIsCongruence` | src/libfsm/minimise.c:133-151 | the mapping is a congruence that agrees on end IDs |
| `Minimality.OneState` | src/libfsm/minimise.c:104-112 | a trimmed DFA without labels has one state, so returning it as it is is right |
| `Minimality.FsmMinimiseTestOracle` | src/libfsm/minimise_test_oracle.c:51-389 | the consolidated machine has the same outcomes and is minimal, for every trimmed DFA |
| `Minimality.OracleCheck` | src/libfsm/minimise.c:153-171 | refinement never merges more than table filling and never gives fewer states; without twins, or with unset arrays that hold nothing, both give the same partition and the same count |
| `Minimise.BuildMinimisedMapping` | src/libfsm/minimise.c:252-431 | for any content of unset label sets: the numbers are 0 up to the count, states with the same number are equivalent, and equivalent states get the same number unless unset label sets tell them apart at some step; exactly the equivalent states do if no state without an edge set is equivalent to another, or the arrays hold nothing; with fewer than four labels, states without symbols share a number only if their label sets were found the same |
| `Minimise.CheckEdges` | src/adt/edgeset.c:426-487 | the target of a label, and the labels that lead to its class; for a missing edge set the labels are whatever was there |
| `Minimise.CollectLabels` | src/libfsm/minimise.c:192-249 | exactly the labels used, ascending, each once |
| `Minimise.MinEnv.PopulateInitialEcs` | src/libfsm/minimise.c:483-673 | the first classes are exactly the distance classes, none empty, in descending size, with `done_ec_offset` at the first singleton |
| `Minimise.MinEnv.SplitEcsByEndMetadata` | src/libfsm/minimise.c:732-978 | classes then agree on end flag and end IDs, and only inequivalent states were parted |
| `Minimise.MinEnv.TryPartition` | src/libfsm/minimise.c:1224-1361 | splits off exactly the members whose label set, unset ones included, or target class differs from the first one's |
| `Minimise.MinEnv.UpdateAfterPartition` | src/libfsm/minimise.c:1089-1143 | classes before `done_ec_offset` have at least two members again and later ones exactly one; a restart is asked for exactly when the old class became a singleton |
| `Minimise.MinEnv.UpdateEcLinks` | src/libfsm/minimise.c:1145-1167 | the members' class numbers, and the small flag of the class |
| `Minimise.MinEnv.PartitionStep` | src/libfsm/minimise.c:352-379 | one label: either one class more, or the class is stable on the label and on all labels checked with it |
| `Minimise.MinEnv.SettleSplit` | src/libfsm/minimise.c:362-379 | after a split the links and flags are updated so that the invariant of the refinement holds with one class more |
| `Minimise.MinEnv.RefineByLabels` | src/libfsm/minimise.c:339-384 | skipping labels already checked leaves the class stable on all of them |
| `Minimise.MinEnv.LabelsToTry` | src/libfsm/minimise.c:1169-1222 | the labels gathered for a class cover all that its members use |
| `Minimise.MinEnv.RefineClass` | src/libfsm/minimise.c:318-385 | unless it was split, the class is stable on every byte |
| `Minimise.MinEnv.RefinePass` | src/libfsm/minimise.c:313-387 | a pass without a change leaves every class stable; otherwise there are more classes than before |
| `Minimise.MinEnv.RefineToFixpoint` | src/libfsm/minimise.c:312-388 | terminates with a congruence; only states that words or unset label sets tell apart are apart |
| `Refinement.CongruentEquivalent` | src/libfsm/minimise.c:312-388 | states in one class of a congruence are equivalent |
| `Refinement.StableIsCongruent` | src/libfsm/minimise.c:312-388 | stable classes that agree on ends form a congruence |
| `Refinement.MismatchDistinguishes` | src/libfsm/minimise.c:1290-1332 | states parted by a label are told apart by some word or by what unset label sets hold |
| `Refinement.MatchSettles` | src/libfsm/minimise.c:1253-1315 | when all members match on one label, the class is stable on the whole label set compared, whatever unset label sets hold |
| `Refinement.UnusedSettled` | src/libfsm/minimise.c:1169-1222 | labels no member uses cannot split a class |
| `Refinement.RefinedSplit` | src/libfsm/minimise.c:1224-1361 | splitting a class keeps classes alike in observations, and parts only states that words or unset label sets tell apart |
| `Refinement.TogetherIsFew` | src/libfsm/minimise.c:252-431 | a numbering that merges all it can has no more numbers than any that parts such classes |
| `Refinement.TogetherIsNerode` | src/libfsm/minimise.c:252-431 | where unset label sets make no difference, exactly the equivalent states are merged |
| `Refinement.NerodeMappingUnique` | src/libfsm/minimise.c:153-171 | two mappings that meet the specification have the same classes and the same count |
| `Refinement.NerodeCountBelow` | src/libfsm/minimise.c:153-171 | a numbering that keeps two equivalent states apart has more numbers than the coarsest |
| `Classes.SplittingDone` | src/libfsm/minimise.c:1279-1332 | unlinking members from one list and pushing them on another leaves two lists that partition the class |
| `Classes.ArrangeOrdered` | src/libfsm/minimise.c:1089-1143 | the swaps restore the boundary between classes that can be split and singletons |
| `Classes.ClassCount` | src/libfsm/minimise.c:312-388 | there are never more classes than states, which bounds the passes |
| `InitialClasses.DistanceRealised` | src/libfsm/minimise.c:483-673 | every distance up to the largest occurs, so no class starts out empty |
| `InitialClasses.CountDistances` | src/libfsm/minimise.c:525-572 | the counts per distance, with their maximum and the largest distance, growing the array as needed |
| `InitialClasses.RankDistances` | src/libfsm/minimise.c:574-631 | ranking by two counting sorts numbers the distances by descending count |
| `InitialClasses.AssignedGrouped` | src/libfsm/minimise.c:633-661 | linking every state puts it in the class of its distance |
| `EndMetadata.Probe` | src/libfsm/minimise.c:827-879 | the bucket found is the group of the same metadata, or a gap that shows the metadata to be new |
| `EndMetadata.InsertLeader` | src/libfsm/minimise.c:832-854 | a new group stays reachable by probing, and so do the others |
| `EndMetadata.RoomForLeader` | src/libfsm/minimise.c:827-879 | the table cannot fill up, so probing ends |
| `EndMetadata.KeyedIsRefined` | src/libfsm/minimise.c:732-978 | classes by distance and metadata agree on observations and part inequivalent states only |
| `Oracle.MinimiseTestOracle` | src/libfsm/minimise_test_oracle.c:51-389 | meets the same specification as the refinement algorithm, for every DFA |
| `Oracle.FillTable` | src/libfsm/minimise_test_oracle.c:150-343 | a pair is marked exactly when the two states are not equivalent, the dead state included |
| `Oracle.FillPass` | src/libfsm/minimise_test_oracle.c:270-343 | each pass marks more pairs or leaves the table closed |
| `Oracle.FindMarkedStep` | src/libfsm/minimise_test_oracle.c:311-340 | a marked step proves the pair inequivalent |
| `Oracle.UnmarkedEquivalent` | src/libfsm/minimise_test_oracle.c:270-343 | pairs unmarked in a closed table are equivalent |
| `Oracle.MergeTargets` | src/libfsm/minimise_test_oracle.c:347-364 | each state is merged into an equivalent earlier one if there is any |
| `Oracle.NumberStates` | src/libfsm/minimise_test_oracle.c:366-380 | numbering gives a dense mapping that is constant exactly on equivalent states |
| `Consolidate.FsmConsolidate` | src/libfsm/consolidate.c:69-174 | the quotient for any mapping within range: each state copies the first of its class, end IDs are united |
| `Consolidate.CopyState` | src/libfsm/consolidate.c:121-142 | edges and epsilons are remapped, the end flag is copied |
| `Consolidate.CollectEndIds` | src/libfsm/consolidate.c:244-283 | each state gets the union of its class's end IDs |
| `Consolidate.QuotientIsDfa` | src/libfsm/consolidate.c:69-174 | the quotient of a DFA is a DFA for any mapping |
| `Consolidate.QuotientStep` | src/libfsm/consolidate.c:118-143 | steps commute with a congruence |
| `Consolidate.QuotientRun` | src/libfsm/consolidate.c:69-174 | runs commute with a congruence |
| `Consolidate.QuotientAccepts` | src/libfsm/consolidate.c:69-174 | state `mapping[s]` accepts exactly what `s` accepted, with the same end IDs if classes agree on them |
| `EdgeSets.RunOps` | theft/fuzz_adt_edge_set.c:143-355 | over every sequence of operations, the sorted groups denote the same relation as the naive model |
| `EdgeSets.EdgeSet.FindStatePosition` | src/adt/edgeset.c:196-280 | binary search finds the group, or where it belongs |
| `EdgeSets.EdgeSet.AddBulk` | src/adt/edgeset.c:282-373 | adds exactly the given edges and keeps the groups sorted |
| `EdgeSets.EdgeSet.InsertAt` | src/adt/edgeset.c:341-369 | shifts the tail by one and inserts, growing when full |
| `EdgeSets.EdgeSet.CopyInto` | src/adt/edgeset.c:641-697 | the merge yields the union of both relations |
| `EdgeSets.EdgeSet.Copy` | src/adt/edgeset.c:699-754 | an independent set with the same edges |
| `EdgeSets.EdgeSet.Remove` | src/adt/edgeset.c:757-782 | drops exactly the edges on one symbol |
| `EdgeSets.EdgeSet.RemoveState` | src/adt/edgeset.c:784-815 | drops exactly the edges to one state |
| `EdgeSets.EdgeSet.Compact` | src/adt/edgeset.c:854-980 | the relation under the renumbering, dropped states left out, groups merged and sorted again |
| `EdgeSets.ComputeSlots` | src/adt/edgeset.c:889-940 | two sorts give every kept group a slot, in order of the new destinations |
| `EdgeSets.Condense` | src/adt/edgeset.c:953-971 | gathering groups into their slots gives the remapped relation |
| `EdgeSets.EdgeSet.ReplaceState` | src/adt/edgeset.c:1062-1140 | edges to one state lead to the other, merged with those already there |
| `EdgeSets.EdgeSet.IsEmpty` | src/adt/edgeset.c:1142-1158 | true exactly when there is no edge, even if empty groups remain |
| `EdgeSets.UniqueGroupIter.Next` | src/adt/edgeset.c:1262-1338 | one call yields the next group of the specified sequence, and ends exactly when it is used up |
| `EdgeSets.SharedSymbols` | src/adt/edgeset.c:1225-1260 | the symbols that occur in two groups or more |
| `EdgeSets.YieldsExact` | src/adt/edgeset.c:1225-1338 | unique-mode iteration yields each edge exactly once, flagged unique exactly when its symbol occurs once |
| `EdgeSets.DeterministicYields` | src/adt/edgeset.c:1262-1338 | for a deterministic state, with the shared symbols the code computes, the iteration yields the non-empty groups as they are |
| `PermutationVector.Compute` | include/adt/pv.h:27-95 | a stable sorting permutation |
| `PermutationVector.SortedPermutationIsInverse` | include/adt/pv.h:27-95 | applied to a permutation it gives the inverse |
| `PermutationVector.RankOrder` | include/adt/pv.h:63-82 | final positions follow the order of values, then of offsets |
| `DetectRequired.DetectRequiredCharacters` | src/libfsm/detect_required.c:97-275 | exactly the characters in every accepted string, none if nothing is accepted; misuse exactly without a start; the step limit is reported exactly when it is positive and at most the number of events of the tour, which is itself below a bound; `visited` is restored |
| `DetectRequired.DrEnv.Search` | src/libfsm/detect_required.c:160-251 | the backtracking search terminates with that result, and stops early exactly when the limit is at most the number of events |
| `DetectRequired.DrEnv.Step` | src/libfsm/detect_required.c:160-251 | one round of the loop is exactly one event of the tour, lowers the work left, and stops exactly at the first path after which no character is common |
| `DetectRequired.MoreSteps` | src/libfsm/detect_required.c:160-170 | while the search goes on, all that has happened and what comes next are events of the tour |
| `DetectRequired.SettledSteps` | src/libfsm/detect_required.c:226-231 | at the early stop, exactly the events of the tour have happened |
| `DetectRequired.ExhaustedSteps` | src/libfsm/detect_required.c:160-251 | a search that runs to its end has been through exactly the events of the tour |
| `DetectRequired.EnterSettles` | src/libfsm/detect_required.c:211-231 | when the intersection becomes empty, the path just entered is the first after which no character is common |
| `DetectRequired.PendingIsLater` | src/libfsm/detect_required.c:172-209 | on entering a state, what is still ahead is exactly what comes later in the order of paths |
| `Tour.FirstDecides` | src/libfsm/detect_required.c:226-231 | the first settling path alone decides which events happen |
| `DetectRequired.DrEnv.Follow` | src/libfsm/detect_required.c:172-232 | following an edge keeps the account of paths still to be seen |
| `DetectRequired.DrEnv.Backtrack` | src/libfsm/detect_required.c:234-250 | leaving a state loses no path |
| `DetectRequired.CheckSymbols` | src/libfsm/detect_required.c:58-91 | the only symbol of a group, if it has only one |
| `DetectRequired.NeededIsRequired` | src/libfsm/detect_required.c:97-275 | a character is on every simple accepting path exactly when it is in every accepted string |
| `DetectRequired.CurrentNeeds` | src/libfsm/detect_required.c:196-204 | the counts of the stack tell which characters its path cannot avoid |
| `Paths.EraseLoops` | src/libfsm/detect_required.c:174-176 | any path contains a path without repeated states, with the same ends and only its edges |
| `Paths.AvoidingWord` | src/libfsm/detect_required.c:58-91 | a path that does not need a character is spelled by a word without it |
| `Paths.NextGroup` | src/adt/edgeset.c:1262-1338 | the next group with any symbol |
| `Generator.FsmGenerateMatches` | src/libfsm/gen.c:142-331 | for any DFA without empty edge groups: refused exactly on length 0, or without a start although there are ends; entered at the start's old number, which is no state exactly when it is past the trimmed count; the matches are paths to ends within the limit in the order of the walk, with the symbols chosen, none beyond a pruned match, only the last one halting, and every other such path lies beyond a pruned match or after the halt; all matches are accepted and all paths accounted for in the machine given if every state up to the start lies on a path from the start to an end |
| `Traces.TracedUnique` | src/libfsm/gen.c:232-243 | with symbols not chosen at random, the machine, the limit and the callback determine the list of matches |
| `Generator.EntryExactly` | src/libfsm/gen.c:287-331 | the state entered is the trimmed machine's start if and only if every state up to the start is kept |
| `Generator.StaleStart` | src/libfsm/gen.c:287-331 | a machine that accepts `a` and not the empty word, for which the one match found is the empty word |
| `Generator.SoundCarries` | src/libfsm/gen.c:317-328 | matches of the trimmed machine are accepted by the original, along kept states |
| `Generator.AccountedCarries` | src/libfsm/gen.c:317-328 | trimming loses no path from the start to an end |
| `Generate.GenerateFrom` | src/libfsm/gen.c:232-243 | from any entry state of a trimmed machine: the matches in order, pruned and halted as the callback says; one match per path within the limit unless halted or pruned |
| `Generate.ContinuingMatches` | src/libfsm/gen.c:142-162 | with a callback that always continues, every path has exactly one match |
| `Generate.PruneSame` | src/libfsm/gen.c:626-636 | pruning by the shortest distance to an end loses no match |
| `Generate.EmitSequenced` | src/libfsm/gen.c:453-486 | each match comes before all paths still ahead, and none of these lies beyond a pruned match |
| `Generate.LeftIsLater` | src/libfsm/gen.c:649-658 | other states are taken in order of their numbers, and the state itself last |
| `Generate.GenCtx.Iterate` | src/libfsm/gen.c:333-363 | each step keeps the invariant and lowers the remaining work, so the machine halts |
| `Generate.GenCtx.EnteringStep` | src/libfsm/gen.c:440-451 | entering a state leads to the callback for ends and to the edges otherwise, and no path is lost |
| `Generate.GenCtx.CallMatchCallback` | src/libfsm/gen.c:453-486 | emits exactly one match, which has the callback's answer; the run is over exactly if that is to halt |
| `Generate.GenCtx.StepEdgesStep` | src/libfsm/gen.c:609-684 | takes the next edge, puts self references off, and loses no path |
| `Generate.GenCtx.StepSelfRefStep` | src/libfsm/gen.c:686-706 | follows the self reference that was put off |
| `Generate.GenCtx.LeavingStep` | src/libfsm/gen.c:708-746 | goes back one state and one character, and is done exactly at the bottom |
| `Generate.GenCtx.Append` | src/libfsm/gen.c:412-438 | the buffer grows as needed and keeps its contents |
| `Generate.FirstSymbol` | src/libfsm/gen.c:488-528 | the least graphic symbol, else 0 if it is there, else the least |
| `Generate.RandomSymbol` | src/libfsm/gen.c:530-577 | the printable symbol that the random number selects, else the other one it selects, and 0 only if there is no other |
| `Lcg.GenPermutationVector` | theft/util.c:110-153 | a permutation for every seed and every length up to 2^31: the values below the length in the order in which the generator comes to them from the seed; both loops terminate |
| `Lcg.RestNotDrawn` | theft/util.c:143-150 | once every value below the length has come up, none comes up in the rest of the period |
| `Lcg.FullPeriod` | theft/util.c:123-150 | with multiplier 1 modulo 4 and odd increment, no state modulo a power of two repeats within its period |
| `Lcg.NextIsIterate` | theft/util.c:143-147 | wrapping 32-bit arithmetic and the mask compute the sequence over the integers |
| `Lcg.Modulus` | theft/util.c:132-136 | the least power of two that is no less than the length |
| `Lcg.ModulusTerminates` | theft/util.c:132-136 | the doubling loop terminates if and only if the length is at most 2^31 |

## Where code and comments differ, and other notes

* `determinise.c:166` lets the DFA have one state more than the limit before it gives up; the model does the same.
* A comment on `first_symbol` ranks 0 after symbols that are not graphic; the code at `gen.c:516-524` prefers 0 to
  them.
* `carry_endids` collects IDs from all members of the closure that are ends at the time, and keeps the IDs the
  state had even if it was no end; hence the condition of `Epsilons.RemovedIdsExact`.
* `edgeset.c:433-435` returns for a NULL set before `labels` is cleared, and `minimise.c:1311-1312` compares the array
  all the same. The model takes the states without an edge set and the content of each unset array as parameters,
  and proves its results for all of them. In the pipeline every set exists, since `determinise.c:133` allocates it
  (`edgeset.c:150-186`), so `Pipeline.CompileNfa` needs no condition.
* With arrays that hold the same at every step, states without an edge set are merged like others; the reason twins
  can stay apart is only that the arrays may differ.
* From four labels on, a small class is tried on the labels of its own members only (`minimise.c:1169-1222`), so twins
  that are alone in their class are not compared at all and can end up merged.
* `gen.c:290` reads the start, `gen.c:317` trims, which renumbers the states (`state.c:273-279`), and `gen.c:326`
  enters the number read before. If it is no state any more, the assertion on entering fails; the model has the
  outcome `NoSuchState` for it.
* `end_md_group_leaders` of the oracle has `state_count` entries and group numbers start at 1
  (`minimise_test_oracle.c:119, 138, 249`). When all states are ends with distinct non-empty IDs, the code writes one
  entry past the end. The model's list of leaders grows as needed and does not show this.

## Left out

- Allocation failure, freeing, logging, timers and the debugging dumps and checks.
- Captures and eager outputs, in every stage; end metadata are end IDs only, and only of end states.
- The hash functions: every table is proved for an arbitrary hash. `& mask` on a power-of-two size is `%`.
- End IDs are a set per state; the ID tables of endids.c and the `state_set` implementation are not modelled.
- Label sets and visited marks are Dafny sets and arrays of flags instead of machine words, except in the bit set
  path of sort and dedup.
- The `RESULT_BIT` of an ID is a datatype constructor; the NFA has at most 2^31 states. Minimisation takes fewer
  than 2^31 - 1 states.
- The `to` field of 24 bits that `edge_set_find` and `edge_set_next` return: state numbers are unbounded there.
- Library sorts (`qsort`) are replaced by simple sorts with the same result.
- Pipeline.CompileNfa: a DFA too large to minimise, or a pool without IDs left, is an error in the model; the
  code does not check for either.
- Pipeline.FsmDeterminiseWithConfig: reports a pool without IDs left, where the code would go on with wrapped IDs.
- Determinise.DeterminiseFree: has the same error, which takes as many distinct sets as there are IDs.
- Determinise.BuildOutputs: has the same error.
- Determinise.Worklist.FindOrAdd: the map from sets to states is a Dafny map; probing and growth of such tables
  are proved for the interned sets and for end metadata.
- Analysis.AnalyzeEnv.SaveToSet: the table of to-sets is a Dafny map.
- Analysis.AnalyzeEnv.ResolveState: the cache of single states is a Dafny map.
- Analysis.CachePairHit: the pair cache is a Dafny map.
- Trim.FsmTrim: only the mode that keeps states on a path from the start to an end; every group has a symbol, as
  after determinisation, because the code keeps stale groups of a state whose groups are all empty.
- Trim.SweepStates: every group has a symbol, for the same reason.
- Pipeline.FsmTrimAndMinimise: every group has a symbol, for the same reason.
- Minimise.BuildMinimisedMapping: takes a trimmed DFA with exact distances, which `Trim.FsmTrim` provides.
- Minimise.MinEnv.SplitEcsByEndMetadata: end metadata are end IDs; eager outputs are left out.
- Oracle.MinimiseTestOracle: gives the mapping; `Minimality.FsmMinimiseTestOracle` builds the machine from it.
- Twins.TwinsCost: for machines with fewer than four labels; with more, whether twins are compared depends on the
  sizes of classes as the refinement goes on, and no condition on the input alone is given.
- Generator.FsmGenerateMatches: every group has a symbol, as for trimming; the callback is a function of the matches
  so far, and depth counters and statistics are left out. With symbols chosen at random, each comes from some random
  number; which one is not stated.
- Concatenation, union, complement, intersection, equality, walk, the printers, the regular expression front end, the
  lexer generator and the command-line tools.
