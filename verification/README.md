# A verified model of the indexer's core algorithms

This project models the parts of the repository whose correctness is hard to see by reading, and
proves what they promise. `dafny verify dfyconfig.toml` checks everything; nothing here is compiled
or executed.

- **The Aho-Corasick matcher** of `internal/cbm/ac.c`, in four layers. `PatternWords` is the theory:
  pattern prefixes, the longest suffix that is a prefix of some pattern, failure words, and which ids
  a word reports. `BreadthFirst` numbers the trie words as states and says what the failure pass has
  finished at any moment. `Automata` holds the builder over real arrays (trie insertion, the
  breadth-first pass that overwrites the goto table in place, the shrinking of the tables) and the
  single-text scanner; `Scanners` the two batch scanners. `Matching` states what a scan promises, as
  naive substring search over mapped texts, and `Bits` reads 64-bit masks as sets. `ByteSearch` puts
  building and scanning together, and says in the caller's own bytes what each scanner finds.
- **The parse-coverage pipeline** of `internal/cbm/cbm.c`: `Coverage` (top-most error regions, the
  in-place filters), `Intervals` (the insertion sort and the sweep, in 32-bit arithmetic) and
  `RangeText` (the printed range list and its parser).
- **More of `internal/cbm/cbm.c`**: `Attribution` (calls to innermost definitions), `Brackets` (the
  nesting guard) and `Quarantine` (the set that many threads load once).
- **The explicit-stack walkers** of `internal/cbm/extract_node_stack.h` and their users: `Trees` is
  recursive preorder with pruning, `NodeStacks` the growable stack and the loops over it.
- **The bump allocator** of `internal/cbm/arena.c`: `Arenas`.
- **The test-wave scheduler** of `scripts/run-test-wave.py`: `WaveLogs` (the calls it makes to the
  outside world, and what a log of them says about suites and result lines) and `Waves`.
- **The stub closure** of `scripts/gen-py-stdlib.py`: `Reexports`.
- **Coordination in `src/main.c`**: `Coordination` (the token order of the one-shot CLI and worker
  branches, over a log of the calls made and the answers received) and `Maintenance` (the worker and the observer that may cancel it, over one mutex).
- **The lexical passes** of `scripts/security-network-source-audit.py`: `Masking` and `Scopes`.

Code that changes state is modelled by methods over arrays, fields and loops, each proved against a
specification function or predicate; what the source promises is then proved about the
specification. External calls (`malloc`, `realloc`, processes, clocks, locks, files) are parameters:
a flag, a script of replies, or an arbitrary function. `malloc` is assumed never to hand out more
than `PTRDIFF_MAX` bytes.

## What the proofs found

- An empty pattern is reported only if some symbol of the text starts no pattern, because states of
  depth one never inherit the root's mask (`internal/cbm/ac.c:109-115`). `Matching.AgreesWithNaiveSearch`
  gives the exact condition and `Matching.EmptyPatternMissed` a family of inputs. Non-empty patterns always
  agree with naive search.
- The `output_next` chain never adds an id to the first state's mask, so ids of 64 and above are
  never reported, as `Scanners.WalkChain` shows; the comment at `internal/cbm/ac.c:386` says
  otherwise. The model follows the code.
- The cover sweep computes `covered_to + 1` in 32 bits, which wraps after a definition that ends at
  line 4294967295 (`Coverage.WrapLeavesFlagged`). No file has such a line, because a source's length
  is an `int`. For the lines a file can have, a region with at most 256 pieces of evidence is
  recovered if and only if definitions that start inside it cover all of it
  (`Coverage.RecoveredIffCovered`). With more it is recovered if and only if the first 256 pieces
  cover all of it (`Coverage.RecoveredIffFirstCover`); `Coverage.LateEvidenceLeavesFlagged` is a
  covered region that stays flagged for that reason. `Coverage.IsRecovered` is the exact verdict for
  all 32-bit lines.
- The star re-export loop stops after eight rounds, which need not be enough. How far a name gets in
  a round depends on the dictionary order: a module sees this round's lists of the modules before it
  and the last round's lists of those after it. `Reexports.ClosedIffArrives` is the exact condition
  for every order, cycles included, on the imports and their order alone: the result is the full
  closure if and only if every name offered arrives within eight rounds counted that way. With
  sources listed first that means at most eight star imports (`Reexports.SourceFirstClosed`), and a
  chain of nine stops short (`Reexports.ChainClosed`); with targets listed first one round always
  does (`Reexports.TargetFirstClosed`).
- The arena is sound as long as no size computation overflows, and only then
  (`Arenas.WellPlacedIffSafe`); `Arenas.OverflowOverlaps` gives three requests after which the first
  and the third share their bytes. Copies of existing strings cannot overflow.
- The `finally` block of `scripts/run-test-wave.py:412-427` catches `OSError` and `RuntimeError` only,
  so an interrupt during cleanup ends it. Termination is attempted for every suite still active if and
  only if no attempt before the last ends in another kind of exception (`Waves.Wave.CleanUp`);
  `Waves.MissedByCleanUp` is a run in which one of two suites is left running.
- The comment at `internal/cbm/cbm.c:1152-1155` says that every ordinary return journals a D mark; the
  Perl nesting exit at `internal/cbm/cbm.c:1218-1223` returns without one. The journal is not part of
  this model and no property of it is claimed.

## Model

| member | source | states |
|---|---|---|
| PatternWords.LongestSuffixIsLongest | internal/cbm/ac.c:102-138 | the specification's suffix is in the trie, is a suffix, and every other suffix in the trie is a suffix of it |
| PatternWords.LongestSuffixStep | internal/cbm/ac.c:243-247 | reading a symbol needs only the state: the longest suffix of a longer text is a function of the longest suffix before |
| PatternWords.FailStep | internal/cbm/ac.c:122-132 | both right-hand sides of the failure pass: a child's failure word, and a missing edge, are the entry of the failure state |
| PatternWords.OutputsDepthOne | internal/cbm/ac.c:109-115 | states of depth one report their own ids only, so an empty pattern is not among them |
| PatternWords.OutputsDeep | internal/cbm/ac.c:123-124 | below depth one, or-ing in the failure state's mask gives exactly the ids of all suffixes |
| PatternWords.SuffixesAreOccurrences | internal/cbm/ac.c:236-249 | a pattern is a contiguous infix of a text exactly when it is a suffix of some non-empty prefix |
| BreadthFirst.ShapeGrow | internal/cbm/ac.c:81-83 | creating a missing child keeps the bijection between states and pattern prefixes |
| BreadthFirst.StateCount | internal/cbm/ac.c:72-99 | the number of states is the number of distinct prefixes of the mapped patterns |
| BreadthFirst.FailRowFilled | internal/cbm/ac.c:117-123 | the pass only ever reads a finished row: the failure state of the popped state is shallower, and done |
| BreadthFirst.EdgeStep | internal/cbm/ac.c:119-132 | one table entry: what is written is the longest-suffix transition, the child's failure link is right, it was not queued before, and the queue stays in depth order |
| BreadthFirst.MaskStep | internal/cbm/ac.c:124-128 | or-ing the failure state's mask completes the child's mask, and its next link points to a shallower state |
| BreadthFirst.QueueFits | internal/cbm/ac.c:58-60 | every state but the root is queued at most once, so the flat queue never overruns |
| BreadthFirst.AllFilled | internal/cbm/ac.c:117-134 | when the queue is empty, every row is filled and every state has been visited |
| BreadthFirst.FullInRange | internal/cbm/ac.c:131-131 | a filled entry is a state number, never -1 |
| BreadthFirst.ScanStep | internal/cbm/ac.c:244-245 | one lookup in the filled table moves from the longest suffix of a prefix to that of the next prefix |
| Automata.Automaton.Alloc | internal/cbm/ac.c:190-210 | the blank tables describe the trie of no pattern |
| Automata.Automaton.InsertPatterns | internal/cbm/ac.c:76-90 | after the loop the tables are the trie of all patterns with each pattern's id on its node, within the rows reserved |
| Automata.Automaton.CloseRoot | internal/cbm/ac.c:92-97 | the root row is complete: missing entries loop back |
| Automata.Automaton.StartPass | internal/cbm/ac.c:106-115 | the failure pass starts with the root's children queued and linked to the root |
| Automata.Automaton.Inspect | internal/cbm/ac.c:119-131 | what the popped state's row and its failure row say about one symbol |
| Automata.Automaton.VisitChild | internal/cbm/ac.c:122-129 | linking, merging and queueing a child keeps the loop invariant of the pass |
| Automata.Automaton.CopyEntry | internal/cbm/ac.c:130-132 | copying the failure row's entry over a missing one keeps it too |
| Automata.Automaton.BuildFailure | internal/cbm/ac.c:102-138 | from the trie tables, the pass leaves every row and every mask final |
| Automata.Automaton.Shrink | internal/cbm/ac.c:141-163 | whichever of the reallocations succeed, the automaton stays valid over the same trie |
| Automata.Automaton.Build | internal/cbm/ac.c:176-218 | null exactly for no pattern; otherwise a valid automaton of the patterns, read through the caller's map or the identity, with one state per distinct prefix |
| Automata.Automaton.ScanBitmask | internal/cbm/ac.c:236-249 | the bits of the result are exactly the ids that naive search finds in the mapped text |
| Automata.Automaton.Step | internal/cbm/ac.c:243-247 | after any prefix, the state denotes the longest suffix of it that is a pattern prefix |
| Matching.SeenIsSearch | internal/cbm/ac.c:236-249 | for every pattern set, text and id below 64: reported exactly when it matches |
| Matching.AgreesWithNaiveSearch | internal/cbm/ac.c:109-115 | the scan agrees with naive search if and only if the pattern is non-empty or some symbol of the text starts no pattern |
| Matching.EmptyPatternMissed | internal/cbm/ac.c:109-115 | the empty text, and every text of one symbol that starts a pattern, miss an empty pattern |
| Matching.BatchSeenAgrees | internal/cbm/ac.c:386-406 | the batch scanner's ids are among the single-text scanner's, and all of them for non-empty patterns |
| Matching.BatchContents | internal/cbm/ac.c:374-409 | the full output holds exactly the pairs of a name and an id the scan of that name meets, none twice, with names in order |
| Matching.EmittedInOrder | internal/cbm/ac.c:374-408 | the ids of a name are listed in the order in which they are first met, and in increasing order where they are met together |
| Matching.BatchIsSearch | internal/cbm/ac.c:367-410 | so each pair is a true match and every match of a non-empty pattern is there |
| ByteSearch.FindPatterns | internal/cbm/ac.c:176-249 | building and scanning: bit `p` is set if and only if pattern `p` stands somewhere in the text, byte by byte or through the caller's map; for an empty pattern, if and only if some position begins like no pattern |
| ByteSearch.FindInNames | internal/cbm/ac.c:367-410 | the pairs listed are matches in the bytes of the names, none twice, names in order, and all of them unless the buffer is full |
| ByteSearch.FindInFile | internal/cbm/ac.c:272-289 | the bits are the patterns that stand in what the file's data, with its two lengths, decompresses to |
| ByteSearch.FindInFiles | internal/cbm/ac.c:298-349 | each record holds exactly the patterns of its file, files in order, and every file with a match has one unless the buffer is full |
| Scanners.DrainMask | internal/cbm/ac.c:390-398 | a mask's ids are appended in increasing order, as far as the buffer reaches, and marked as seen |
| Scanners.WalkChain | internal/cbm/ac.c:386-406 | the walk along the next links ends and finds nothing beyond the first state's mask |
| Scanners.ScanName | internal/cbm/ac.c:374-408 | one name appends its pairs in order of first meeting |
| Scanners.ScanBatch | internal/cbm/ac.c:367-410 | the buffer is the full output cut at its capacity |
| Scanners.ScanLz4Bitmask | internal/cbm/ac.c:272-289 | the scan of the decompressed contents, or nothing for a bad entry |
| Scanners.ScanLz4Batch | internal/cbm/ac.c:298-349 | the first `max_matches` non-zero single-file scans, in order, whatever the decompressor |
| Bits.Members | internal/cbm/ac.c:391-397 | draining a mask by its lowest bit meets exactly the bits that are set |
| Bits.HasIsTested | internal/cbm/ac.c:28-28 | membership in a mask is what testing the bit says |
| Bits.PopLowest | internal/cbm/ac.c:392-397 | the lowest set bit leaves the mask and is the least member |
| Coverage.CollectErrorRegions | internal/cbm/cbm.c:823-839 | the accumulator gains the line ranges of the top-most regions in preorder, cut at 64 |
| Coverage.TopMostExact | internal/cbm/cbm.c:823-839 | the list is exactly the failures that have nothing but error-flagged, sound nodes above them, each once, in preorder |
| Coverage.TopMostComplete | internal/cbm/cbm.c:830-837 | every error or missing node of the trees lies in a top-most region of the same trees, on the list before its cut at 64, or in an end-of-file terminator miss among them |
| Coverage.CollectedComplete | internal/cbm/cbm.c:823-839 | with at most 64 top-most regions, the line range that accounts for it is among those collected |
| Coverage.TopMostSound | internal/cbm/cbm.c:830-834 | whatever is reported is such a node of the tree |
| Coverage.RegionIsRecovered | internal/cbm/cbm.c:850-893 | true exactly when the first 256 pieces of evidence cover every line, barring the 32-bit wrap |
| Coverage.RecoveredMeansCovered | internal/cbm/cbm.c:841-849 | for all 32-bit lines: a recovered region has every line in a non-container definition that starts inside it; the converse needs at most 256 of them and no evidence that reaches the largest line ahead of another piece |
| Coverage.RecoveredIffCovered | internal/cbm/cbm.c:841-893 | for the lines of a file and at most 256 pieces of evidence: recovered if and only if covered |
| Coverage.EvidenceInOrder | internal/cbm/cbm.c:856-868 | evidence is gathered in the order of the definitions, and which definitions give which lines |
| Coverage.RecoveredIffFirstCover | internal/cbm/cbm.c:850-893 | for the lines of a file, without any bound: recovered if and only if the first 256 pieces of evidence cover every line |
| Coverage.LateEvidenceLeavesFlagged | internal/cbm/cbm.c:851-868 | a covered region of a file that stays flagged, because its 257th piece of evidence is not looked at |
| Coverage.WrapLeavesFlagged | internal/cbm/cbm.c:883-891 | a covered region that the wrapping sweep would leave flagged, with a last line no file has |
| Coverage.InsertInto | internal/cbm/cbm.c:871-882 | one round of the two-array insertion sort inserts the pair into the sorted ones |
| Coverage.SubtractRecovered | internal/cbm/cbm.c:1027-1037 | the in-place filter keeps exactly the unrecovered regions, in order |
| Coverage.RemainingContents | internal/cbm/cbm.c:1027-1037 | a region remains if and only if it was there and is not recovered |
| Sequences.FilterSelects | internal/cbm/cbm.c:1027-1037 | a filter keeps exactly the elements that satisfy it, in their order |
| Coverage.SubtractMacroInvocations | internal/cbm/cbm.c:1100-1132 | the in-place filter drops exactly the macro calls inside a callable |
| Intervals.SortIsSortedPermutation | internal/cbm/cbm.c:870-882 | the sort orders by start and keeps the multiset of intervals |
| Intervals.SweepIsCover | internal/cbm/cbm.c:883-892 | the wrapping sweep accepts exactly covers in which nothing follows an interval ending at the largest line |
| Intervals.SweepWrapped | internal/cbm/cbm.c:883-892 | the sweep that starts wrapped, for a region at line 0 |
| Intervals.MaxBeforeEndSorted | internal/cbm/cbm.c:884-890 | the wrap condition on the sorted list, told on the list as gathered |
| RangeText.ParsePrint | internal/cbm/cbm.c:1134-1150 | parsing the printed list gives back the same pairs, for any list of 32-bit values |
| RangeText.ErrorRangesStr | internal/cbm/cbm.c:1135-1150 | the buffer holds the printed list and its terminator, and no write passes its end |
| RangeText.Snprintf | internal/cbm/cbm.c:1146-1147 | `snprintf` at an offset: the text cut to the room, a terminator, the full length as the result, and nothing before the offset changed |
| RangeText.ChunkLength | internal/cbm/cbm.c:1139-1147 | a range with its comma has at most 22 characters, so 24 bytes never truncate it |
| RangeText.ParseCoverage | internal/cbm/cbm.c:1612-1629 | the whole pipeline: collect, subtract twice, print |
| RangeText.ReportedSound | internal/cbm/cbm.c:1612-1629 | a region is printed if and only if it was collected, is not recovered and is not a benign macro call |
| RangeText.ReportedExact | internal/cbm/cbm.c:1612-1629 | what is reported are the one-based lines of those among the first 64 top-most regions, by their places in the tree, that are not recovered and not macro calls inside a body, in preorder |
| RangeText.ReportedRoot | internal/cbm/cbm.c:1612-1617 | a tree without error reports nothing, and one that is all error at most the lines of its root |
| RangeText.PrintExample | internal/cbm/cbm.c:1135-1150 | what the text of two ranges looks like |
| Brackets.DepthIsLargestBalance | internal/cbm/cbm.c:753-766 | a counter that never goes below zero is the largest balance of any stretch ending here |
| Brackets.NestingExceeds | internal/cbm/cbm.c:753-766 | true exactly when some stretch ending in an opener has more than `cap` more openers than closers |
| Brackets.TooDeepAnywhere | internal/cbm/cbm.c:747-766 | for a cap of zero or more: exactly when some substring at all does |
| Quarantine.EntryReads | internal/cbm/cbm.c:631-648 | a line is a path, a tab and a phase; a bare path or an empty phase means crash; trailing line ends do not matter |
| Quarantine.EntrySkips | internal/cbm/cbm.c:635-651 | an empty line and a line with an empty path name nothing |
| Quarantine.LoadTable | internal/cbm/cbm.c:615-677 | the lines become the table of the specification |
| Quarantine.TableOfLines | internal/cbm/cbm.c:638-673 | a path is in the set exactly when some line names it, with the phase of the last such line |
| Quarantine.InvRun | internal/cbm/cbm.c:679-698 | the once-init invariant over every run of any number of calls |
| Quarantine.LoadedOnce | internal/cbm/cbm.c:683-697 | the file is loaded at most once and nobody consults the set before |
| Quarantine.AnswersAgree | internal/cbm/cbm.c:697-697 | every answer ever given is membership in the one loaded set |
| Quarantine.AnswersAreTheFile | internal/cbm/cbm.c:615-697 | every answer is yes if and only if some line of the file, as it was at the one moment when it was read, names the path |
| Quarantine.NeverStuck | internal/cbm/cbm.c:688-696 | while a call is unfinished, some call can make progress |
| Attribution.FindInnermost | internal/cbm/cbm.c:1543-1560 | the first definition of the smallest span around the line, or none exactly when no definition is around it |
| Attribution.InnermostIsNested | internal/cbm/cbm.c:1510-1518 | where spans nest, it lies within every other one around the line |
| Attribution.MarkCall | internal/cbm/cbm.c:1564-1593 | one call marks its definition with exactly what it contributes |
| Attribution.Attribute | internal/cbm/cbm.c:1538-1604 | after both loops every definition carries the totals over the calls attributed to it |
| Attribution.TotalMeans | internal/cbm/cbm.c:1573-1593 | the flags say that such a call exists and the counters how many there are |
| Attribution.FinishedMeans | internal/cbm/cbm.c:1538-1604 | the final flags and counters of a definition, in terms of the calls attributed to it and of which tables could be allocated |
| Attribution.TotalIgnoresOrder | internal/cbm/cbm.c:1538-1593 | the order of the calls does not matter |
| Attribution.CalleeSplits | internal/cbm/cbm.c:465-499 | a callee is read as chain, dot and short name, and only the whole chain decides whether it is a self-call |
| Trees.AddressesExact | internal/cbm/extract_env_accesses.c:146-167 | preorder visits exactly the positions with no pruned position above them |
| Trees.AddressesOnce | internal/cbm/extract_channels.c:379-385 | and no position twice |
| Trees.WalkAtAddresses | internal/cbm/extract_channels.c:379-385 | the k-th node visited is the node at the k-th position |
| Trees.PendingPush | internal/cbm/extract_node_stack.h:54-65 | pushing children back to front leaves them first in line, in source order |
| NodeStacks.NodeStack.Push | internal/cbm/extract_node_stack.h:33-47 | the node goes on top across any growth; it is dropped exactly when the stack is full and this attempt to grow it is refused |
| NodeStacks.NodeStack.Pop | internal/cbm/extract_node_stack.h:50-52 | takes the top node |
| NodeStacks.NodeStack.ReverseFrom | internal/cbm/extract_node_stack.h:75-83 | the segment above the base is reversed in place |
| NodeStacks.NodeStack.PushChildren | internal/cbm/extract_node_stack.h:66-84 | the cursor push leaves the children reversed on top |
| NodeStacks.NodeStack.PushChildrenByIndex | internal/cbm/extract_channels.c:563-566 | so does the index push |
| NodeStacks.WalkByCursor | internal/cbm/extract_env_accesses.c:141-168 | the loop ends, having visited the pruned preorder; under allocation failure a subsequence of it |
| NodeStacks.WalkByIndex | internal/cbm/extract_channels.c:547-568 | the other idiom visits the same sequence |
| NodeStacks.ScanConstants | internal/cbm/extract_channels.c:102-133 | the table is the first 256 bindings in preorder |
| NodeStacks.ScanConstantsByIndex | internal/cbm/extract_channels.c:136-169 | the same table with the other push |
| NodeStacks.ResolveIdentifier | internal/cbm/extract_channels.c:172-182 | the first binding of a name, or none exactly when there is none |
| NodeStacks.ResolveConstant | internal/cbm/extract_channels.c:102-182 | scanning and resolving together: the value bound by the first node in preorder that binds the name, if fewer than 256 bindings come before it, and otherwise none |
| Arenas.InBoundsIffSafe | internal/cbm/arena.c:35-55 | a granted request lies within its block if and only if its arithmetic did not overflow |
| Arenas.OverflowIsGranted | internal/cbm/arena.c:40-50 | an overflowing request is never refused, so asking that no request overflows is the same as asking it of the granted ones |
| Arenas.AllocExact | internal/cbm/arena.c:16-55 | what a request gets when nothing overflows: the next bytes of the newest block if they suffice, else the start of a new one of twice the size or as large as it takes, and nothing if and only if that is refused or the table is full |
| Arenas.OverflowExact | internal/cbm/arena.c:40-53 | and what it gets when something does |
| Arenas.NothingRefused | internal/cbm/arena.c:16-55 | with a willing `malloc`, no request is refused over any run of up to 2^61 bytes |
| Arenas.RunKeepsApart | internal/cbm/arena.c:35-55 | over every run of requests that do not overflow the places are in bounds, at multiples of eight and pairwise disjoint |
| Arenas.WellPlacedIffSafe | internal/cbm/arena.c:35-55 | and over no other run |
| Arenas.RunOnlyAdds | internal/cbm/arena.c:16-33 | no place handed out is moved or dropped later, nor is its block |
| Arenas.OverflowOverlaps | internal/cbm/arena.c:40-53 | three requests of which the first and last get the same bytes |
| Arenas.ReservedIsAmortised | internal/cbm/arena.c:16-33 | the memory reserved stays below max(64 KiB + 1, four times what was handed out), and blocks are logarithmic in it |
| Arenas.TableNeverFull | internal/cbm/arena.c:16-19 | at most 47 blocks are ever obtained, so the limit of 256 is never met |
| Arenas.Arena.constructor | internal/cbm/arena.c:7-14 | one default block, or none if it is refused |
| Arenas.Arena.GrowBlocks | internal/cbm/arena.c:16-33 | a doubled, or large enough, block is added if and only if the table has room and `malloc` grants it, or nothing changes |
| Arenas.Arena.Reserve | internal/cbm/arena.c:35-55 | the method refines the allocation function the lemmas are about |
| Arenas.Arena.Strndup | internal/cbm/arena.c:68-78 | the copy is the prefix and a terminator, never out of bounds, and every other place keeps its bytes |
| Arenas.Arena.Destroy | internal/cbm/arena.c:102-107 | nothing can be had from the arena afterwards |
| WaveLogs.ToldStart | scripts/run-test-wave.py:369-382 | starting a suite while a slot is free keeps the tables a true account of the calls made, and at most `jobs` processes live at any moment |
| WaveLogs.ToldQuiet | scripts/run-test-wave.py:384-409 | so does every call that starts nothing |
| WaveLogs.LiveMeans | scripts/run-test-wave.py:367-411 | a suite is live when a process of it was started and has not been seen to be over since |
| WaveLogs.HungNeverPasses | scripts/run-test-wave.py:311-342 | a suite that no poll finds exited never gets a line with code zero, nor with any code but 124 and 98 |
| WaveLogs.PassedMeansClean | scripts/run-test-wave.py:326-332 | a line with code zero means that a poll of that suite saw exit code zero and its log held a summary afterwards |
| Waves.SuiteNameExamples | scripts/run-test-wave.py:24-24 | what is a suite name and what is not |
| Waves.Wave.Places | scripts/run-test-wave.py:83-84 | pending, active and recorded share no suite, pairwise, which rests on the uniqueness check |
| Waves.PutDuplicateForgets | scripts/run-test-wave.py:382-382 | without that check a second start of a suite forgets the first one |
| Waves.Wave.FillSlots | scripts/run-test-wave.py:368-382 | slots are filled up to the limit and the three places still partition the list |
| Waves.Wave.StartNext | scripts/run-test-wave.py:369-382 | the suite taken is active with its own timeout, or has its one failure line |
| Waves.Wave.Handle | scripts/run-test-wave.py:386-409 | a polled suite is over exactly when its process exited or its deadline passed; a hung one gets code 124 |
| Waves.Wave.EndHung | scripts/run-test-wave.py:391-409 | a suite found running after its time gets its line only after its process tree was terminated, and then leaves the table |
| Waves.Wave.RecordResult | scripts/run-test-wave.py:311-342 | one result line with the return code its cause demands |
| Waves.Wave.RecordStartFailure | scripts/run-test-wave.py:345-356 | a suite that does not start gets its one line, code 98 |
| Waves.Wave.Poll | scripts/run-test-wave.py:384-409 | a pass over the active table keeps the partition and, without progress, the last deadline is still ahead |
| Waves.Wave.Loop | scripts/run-test-wave.py:367-411 | the loop ends under any behaviour of the processes, with nothing pending or active unless a call raised an exception |
| Waves.Wave.CleanUp | scripts/run-test-wave.py:412-427 | termination is attempted for every suite still active if and only if no attempt before the last ends in an exception other than the two kinds the loop catches |
| Waves.MissedByCleanUp | scripts/run-test-wave.py:412-427 | a run in which such an exception leaves the second of two suites running |
| Waves.RunWave | scripts/run-test-wave.py:359-427 | over the log of calls: suites start in list order, at most `jobs` processes are live at any moment, every line tells what was seen of its suite's process, and no suite has two; the run ends normally if and only if no call raised anything, then with one line per suite and no process left; and however it ends, the suites still active were tried in cleanup |
| Reexports.Registry.ResolveReexports | scripts/gen-py-stdlib.py:252-291 | the loop with its early exit computes eight rounds |
| Reexports.Stable | scripts/gen-py-stdlib.py:257-260 | stopping when nothing changed loses nothing |
| Reexports.OwnStubsStay | scripts/gen-py-stdlib.py:268-291 | no module's own entry is displaced |
| Reexports.RoundsReach | scripts/gen-py-stdlib.py:262-291 | after k rounds every name within k star edges has arrived |
| Reexports.RoundsSound | scripts/gen-py-stdlib.py:271-291 | every entry is the module's own, or a copy from a module reachable over star edges: the same short name under the module's own, and a class with the same methods and bases, or a function owned by the module |
| Reexports.CopiesAreFresh | scripts/gen-py-stdlib.py:269-291 | no name is copied into a module that has it already |
| Reexports.FirstOfferWins | scripts/gen-py-stdlib.py:263-291 | what a module's turn adds is a copy of the first entry of its name in the first star target that has it |
| Reexports.NamesAreOffered | scripts/gen-py-stdlib.py:269-291 | no name is added that no reachable module defines |
| Reexports.ShortDistancesSuffice | scripts/gen-py-stdlib.py:259-259 | if all star distances are at most eight, the result is the full closure |
| Reexports.ClosedIffSettled | scripts/gen-py-stdlib.py:257-260 | the loop's stopping test is the right one: a round changes nothing if and only if the closure is full |
| Reexports.RoundExact | scripts/gen-py-stdlib.py:262-291 | after a round a module has its own names and those it saw when its turn came, in this round's or the last round's lists |
| Reexports.RoundsExact | scripts/gen-py-stdlib.py:259-291 | for every dictionary order, k rounds bring in exactly the names that arrive within k rounds |
| Reexports.ClosedIffArrives | scripts/gen-py-stdlib.py:257-291 | for every dictionary order, cycles included: the full closure if and only if every offered name arrives within the rounds made, a condition on the imports alone |
| Reexports.SourceFirstExact | scripts/gen-py-stdlib.py:262-291 | the special case of modules listed sources first: k rounds bring exactly the names within k edges |
| Reexports.SourceFirstClosed | scripts/gen-py-stdlib.py:259-291 | the special case of modules listed sources first: the full closure if and only if every offered name is within eight edges |
| Reexports.TargetFirstClosed | scripts/gen-py-stdlib.py:259-291 | the special case of modules listed targets first: one round gives the full closure, at any distance |
| Reexports.ChainClosed | scripts/gen-py-stdlib.py:254-260 | a chain of star imports is closed if and only if it is at most eight long |
| Reexports.CollectAllStubs | scripts/gen-py-stdlib.py:201-249 | the worklist ends, and a module is parsed if and only if it is listed, or it has a file and is reached from a listed one over the star targets parsed |
| Coordination.TransitionImpliesLease | src/main.c:2514-2553 | at every moment the transition implies the cohort lease, and the observer its context and the lease |
| Coordination.HeldMeans | src/main.c:2463-2544 | a token is held when some call handed it out and none since has taken it back, by the answers received |
| Coordination.LeaseGoesLast | src/main.c:2594-2600 | the lease is asked back only when everything else but its manager and the endpoint has been taken back, then the manager, then the endpoint goes |
| Coordination.ContextOutlivesObserver | src/main.c:175-190 | the context goes only after the observer that borrows it was stopped |
| Coordination.AdmittedByIdentity | src/main.c:2486-2492 | a one-shot command asks for admission only after its executable and build were identified |
| Coordination.CommandRunsAdmitted | src/main.c:2542-2587 | the command runs holding every token, after the outside world has answered seal, presence and begin-work well, in that order, and has contained a worker |
| Coordination.CommandRunsOnce | src/main.c:2587-2587 | and it runs once |
| Coordination.EndedEarly | src/daemon/frontend.c:100-140 | whenever the observer ends the process, what was done by then is a first part of a disciplined run |
| Coordination.Branch.Close | src/main.c:1309-1377 | a close loop returns only when the handle is consumed, and gives up the process only at its deadline |
| Coordination.Branch.AcquireTransition | src/main.c:1291-1307 | comes back without an answer only at the deadline, and the transition is held exactly when one was made |
| Coordination.Branch.Work | src/main.c:2531-2588 | once admitted, the command runs if and only if no later answer refuses it |
| Coordination.Branch.CleanUp | src/main.c:2590-2605 | everything is given back, the observer before its context and the lease only when its manager and the endpoint alone are left, or the process stops while it still holds something |
| Coordination.Branch.Run | src/main.c:2456-2766 | over the log of calls and answers: every call is made under the discipline, the command runs if and only if no answer refuses it, an ordinary return holds nothing and an exit on the spot something, and the exit code is determined by the answers |
| Coordination.ReturnMeans | src/main.c:2587-2606 | an ordinary return reports the command's status if it ran with a status of zero or more and no call to give something back complained, and 1 otherwise |
| Coordination.ExitMeans | src/main.c:1309-1377 | an exit on the spot reports 0 if and only if a worker handed over its answer, and happens only then or when containing, stopping the observer or giving back in time fails |
| Maintenance.InvRun | src/main.c:127-190 | mutual exclusion, the life of the server and the context, and the flag's history, over every interleaving |
| Maintenance.CancelTouchesLiveServer | src/main.c:154-164 | a cancel that reaches a server finds it alive, in a context that outlives the observer |
| Maintenance.FlagIsExact | src/main.c:159-163 | between stores the flag is set if and only if at some turn a cancel found the server bound and the server had something to cancel |
| Maintenance.FlagIsSticky | src/main.c:161-161 | once set it stays set |
| Maintenance.VerdictIsFinal | src/main.c:812-819 | what the worker reads after unbinding never changes again |
| Maintenance.AskedIsSettled | src/main.c:818-819 | the worker reads the flag only once no cancel can take effect any more |
| Maintenance.VerdictIsHistory | src/main.c:812-819 | what the worker learns is whether a cancel took effect in the whole run |
| Maintenance.NeverStuck | src/main.c:127-190 | no deadlock: until the worker is done, some thread's step brings its end nearer |
| Masking.MaskMeans | scripts/security-network-source-audit.py:52-113 | the text is cut into comments, literals and code characters, and what lies in a comment or literal becomes a space, newlines excepted |
| Masking.TokenUnique | scripts/security-network-source-audit.py:61-113 | where a comment or literal ends, told without scanning: at its line's end, at the first closing mark, at the first quote with an even number of backslashes before it |
| Masking.MaskNonCode | scripts/security-network-source-audit.py:52-113 | the loop keeps exactly the characters the recursive lexer calls code, and every newline |
| Masking.Masked | scripts/security-network-source-audit.py:52-53 | length and newline positions are kept |
| Masking.CodeNeverOpens | scripts/security-network-source-audit.py:61-77 | no character kept as code begins a comment or a literal |
| Masking.FixedIffClean | scripts/security-network-source-audit.py:61-79 | masking leaves a text alone if and only if it holds no quote and no comment opener |
| Masking.MaskingTwice | scripts/security-network-source-audit.py:52-113 | masking is idempotent |
| Scopes.FunctionRanges | scripts/security-network-source-audit.py:149-166 | exactly the top-level balanced brace blocks with a function header, in order and disjoint |
| Scopes.ScopeFor | scripts/security-network-source-audit.py:169-173 | the one range around a position, or none exactly when there is none |
| Scopes.ScopeIsTheFunction | scripts/security-network-source-audit.py:149-173 | a position lies in at most one function, and that one is listed |

## Left out

- LZ4 decompression, the thread-local buffer and its allocation: the decompressor is an arbitrary function.
- Allocation failure in `internal/cbm/ac.c`, except for the four shrinking reallocations.
- tree-sitter: nodes are finite trees with the flags, rows, kinds and texts the walkers read.
- The lexical test for a macro call (`internal/cbm/cbm.c:1046-1092`): a parameter of the subtraction.
- The rules that turn a node into a constant, a channel or an environment key, and `is_env_var_name`: parameters, they would only add easy members.
- The tables of scanning and allocating names, and the text scan for a receiver's identifier: parameters of the attribution.
- Parameter counting from a signature text: documented as approximate in the source.
- Definition lines of 2147483648 and above in call attribution: the source casts them to `int`, and a file's length is an `int`.
- Attribution.Attribute: counters are unbounded, because a file has fewer calls than an `int` can count.
- The name-before-body search on masked text: a parameter that gives each position its header name, if any.
- RangeText.ErrorRangesStr: the buffer allocation always succeeds; in the source a refused one reports no range list.
- Line splitting by `fgets` in the quarantine file: the model starts from the lines it delivers, and copies always succeed.
- Arena statistics, `cbm_arena_sprintf` and the arena's `strdup`, which is `strndup` of the whole string.
- Test barriers, log files and printing in the test-wave scheduler; process trees are ended by one abstract call that may fail.
- Reexports.CollectAllStubs: does not say in which order the modules are listed; what is proved about the closure holds for every order.
- The search for stub files on disk: a partial map from module names to parsed modules.
- Coordination.Branch.Run: has no step in which the observer thread or a worker's watchdog ends the process with `_Exit`, which may happen at any moment; the log is then a first part of one of these runs (`Coordination.EndedEarly`), and the exit code is the observer's.
- Messages, logging, parsing of arguments and the daemon client branches of `src/main.c`.
- The answer file and the log of a worker: handing a result over is one abstract call that may fail.
- Project lock leases taken while a command runs: they belong to the command, which is one abstract call.
- The index journal and its D marks.
