# PageRank map-reduce: the integer and string core

This project models the parts of the three PageRank programs and of their
output checker that have nothing to do with floating point.

**What is modelled.**

- The edge-list input grammar, and the hand-written `split` shared by all four sources.
- The read loop. It builds the edge list, the out-degree table and `websize`.
- How each variant turns the edge list into the reverse-link index `incoming`, which maps a page to the sources of the edges into it:
  - **`mr-pr-mpi.cpp`**: a map-reduce hand-rolled on MPI point-to-point messages. One mapper routes `(destination, source)` pairs through a 32-bit hash to `num_reduce` reducers, then sends each reducer the end-of-stream word -1. The reducers group the values by key. The coordinator receives every group and appends it to the list of its page.
  - **`mr-pr-mpi-base.cpp`**: built on the MapReduce-MPI library.
    - Every rank reads the whole file.
    - Map task `r` emits one slice of the edge list.
    - The library collates the pairs by key, and `collect` re-emits each group.
    - After `gather(1)`, `collect_incoming` on rank 0 stores each group's buffer and word count.
    - Keys and values travel as raw bytes.
  - **`mr-pr-cpp.cpp`**: built on a header-only C++ map-reduce library. A data source yields the parsed list for any key, the map operator swaps each pair it is given, and the reduce operator copies each key's values into one list. The source declares the `job` type over these and never runs it.
- The checker's result-line grammar and its scan over two result files.

**How it is organised.** Each concern is a module:

- **Text**: `split` and join, decimal digits, canonical numerals.
- **Graph**: edges, and the reference definitions `Incoming`, `Outgoing`, `Websize` and `IncomingIndex`.
- **Groups**: tables of groups, their delivery in any order, their merge, and grouping key/value pairs by key.
- **EdgeList**: the edge-line grammar and the parse loop the three programs share.
- **MpiMapReduce**, **BaseMapReduce** and **CppMapReduce**: one module per variant.
- **Checker**: the output checker.

**How the outside world is represented.**

- MPI channels are sequences of messages from one sender to one receiver.
- The order in which the coordinator receives groups from different reducers (`MPI_ANY_SOURCE`) is any sequence that lists every group of the merged reducer tables exactly once (`Groups.Enumerates`).
- The libraries' grouping step is any table that groups the emitted pairs by key, with each group's values in some order (`Groups.Collates`). Properties that depend on it are therefore stated up to order, as multisets.
- Files are sequences of lines, and `None` stands for a file that cannot be opened.
- `std::stoi` failing on an id above 2^31-1 is a third parse outcome, `Overflow`, beside `Ok` and `Invalid`.
- The checker's `fabs(stod(v1) - stod(v2)) > 1e-4` is a parameter `differ`.

**Behaviours of the code the model keeps.**

- **Separator.** The input pattern accepts any whitespace character between the ids (`\s`); `split` cuts only at spaces. The model's parse reads the ids the pattern matched (see Findings and "## Left out").
- **Unreadable input in the base variant.** `mr-pr-mpi-base.cpp` only reports a file it cannot open and carries on with no edges and `websize` 0.
- **Duplicate edges.** With repeated edges a source is stored in `incoming[d]` once per edge. The model states the index as exact lists, or as multisets where a library decides the order.
- **End of stream.** The mapper ends each reducer's stream with the word -1, and the reducer reads keys back as signed `int`.

## Model

| member | source | states |
|---|---|---|
| Text.Find | mr-pr-mpi.cpp:35 | `find` returns the first index at or after `from` that holds the separator, and `npos` exactly when none does |
| Text.SplitString | mr-pr-mpi.cpp:32-42 | the `find`/`substr` loop produces exactly the reference split: the pieces between consecutive separators |
| Text.SplitCount | mr-pr-mpi-base.cpp:28-38 | `split` yields one more piece than the separator occurs |
| Text.SplitPiecesAvoidSeparator | mr-pr-cpp.cpp:10-20 | no piece contains the separator |
| Text.JoinSplit | correctness_checker.cpp:11-21 | joining the pieces with the separator gives back the input |
| Text.SplitJoin | mr-pr-mpi.cpp:32-42 | separator-free pieces survive a join followed by a split |
| Text.DecimalRoundTrip | mr-pr-mpi.cpp:49 | every printed id is a canonical numeral of the grammar and denotes the id |
| Text.CanonicalRoundTrip | mr-pr-mpi.cpp:49 | printing the value of a canonical numeral gives the numeral back |
| Text.LeadingValueOfNumeral | mr-pr-mpi.cpp:58-59 | `stoi` on a digit string reads all of it |
| EdgeList.EdgeLineShape | mr-pr-mpi.cpp:49 | the edge grammar is unambiguous: a line is accepted iff it splits validly where its leading digits end |
| EdgeList.ParseLine | mr-pr-mpi-base.cpp:160-172 | the parsed edge's ids print back as the text before and after the separator |
| EdgeList.FormatEdgeParses | mr-pr-cpp.cpp:83 | every edge written as `src dst` is accepted and parses back to itself |
| EdgeList.ParseLineFormats | mr-pr-cpp.cpp:83-95 | an accepted line whose separator is a space is exactly the rendering of its edge |
| EdgeList.ParseLineAsWritten | mr-pr-mpi.cpp:57-59 | reading `link[0]` and `link[1]` after `split` goes past the end of the vector exactly when the line holds no space |
| EdgeList.ParseLineAsWrittenOnSpace | mr-pr-mpi.cpp:52-59 | on a space-separated accepted line, the `split`/`stoi` reading gives the grammar's edge |
| EdgeList.TabSeparatedLineHasOneField | mr-pr-mpi.cpp:49-59 | "0\t1" passes the pattern, yet `split` leaves it one field |
| EdgeList.ParseEdges | mr-pr-cpp.cpp:85-97 | a successful read has one edge per line; a failed one names the line of the file where the run stops |
| EdgeList.ParseEdgesOk | mr-pr-cpp.cpp:85-97 | the read succeeds iff every line is accepted and in `stoi` range, and then edge `i` is line `i`'s edge |
| EdgeList.ParseEdgesError | mr-pr-cpp.cpp:85-94 | a failed read names the 1-based line where the run stops: the first bad line, with all earlier lines good. `Invalid` is a pattern failure, whose number the program prints; `Overflow` is a `stoi` failure, which ends the program with an uncaught exception and prints no number |
| EdgeList.ParseEdgesOnSpaces | mr-pr-cpp.cpp:91-94 | when every line of an accepted file holds a space, reading `link[0]` and `link[1]` with `split` and `stoi` gives exactly the parsed edges |
| EdgeList.FirstBadLine | mr-pr-mpi-base.cpp:163-167 | a bad line after only good ones is the one reported, with its kind |
| Graph.PairsFlatten | mr-pr-mpi.cpp:236-238 | reading the hyperlink vector two entries at a time recovers the edges |
| Graph.IncomingMembers | mr-pr-mpi.cpp:128 | `s` is in page `d`'s reference list iff there is an edge from `s` to `d` |
| Graph.IncomingOfNonDestination | mr-pr-mpi.cpp:128 | a page no edge points to has an empty incoming list |
| Graph.IncomingDistinct | mr-pr-mpi.cpp:128 | without repeated edges no incoming list names a source twice |
| Graph.IncomingTotalIsEdgeCount | mr-pr-mpi.cpp:128 | over all pages the reference lists hold exactly one entry per edge |
| Graph.WebsizeIsMaxPlusOne | mr-pr-mpi.cpp:244-245 | `websize` exceeds every id and is 1 or one more than an id that occurs |
| Graph.CountStep | mr-pr-mpi.cpp:236-243 | one iteration of the counting loop keeps the largest id and every out-degree exact for the edges seen |
| Graph.IncomingFitsWebsize | mr-pr-mpi.cpp:263 | without repeated edges no page has more incoming sources than `websize` |
| Groups.EnumerationLength | mr-pr-mpi.cpp:264 | a delivery of every group of a table, each once, has as many messages as the table has keys |
| Groups.EnumeratedGroup | mr-pr-mpi.cpp:270-272 | appending the groups of such a delivery, in any order, reproduces the table key by key |
| Groups.MergeSize | mr-pr-mpi.cpp:323-324 | merging tables with disjoint keys loses no key: the merge is as large as the sum of their sizes |
| Groups.MergeKeeps | mr-pr-mpi.cpp:326-329 | a key held by one of several key-disjoint tables keeps that table's group in the merge |
| Groups.MergeOnlyFrom | mr-pr-mpi.cpp:326-329 | every key of the merge comes from one of the tables |
| Groups.CollatedGroups | mr-pr-mpi-base.cpp:192-193 | grouping key/value pairs by key and delivering the groups in any order gathers, per key, the key's values up to order |
| Groups.GroupsForDistinct | mr-pr-mpi.cpp:270-272 | appending a delivery without repeated keys gives each key exactly its table group, and nothing to other keys |
| Groups.ReverseLinkKeys | mr-pr-mpi-base.cpp:117-118 | the keys of the swapped pairs are exactly the pages some edge points to |
| Groups.ValuesOfReverseLinks | mr-pr-cpp.cpp:52-54 | the values keyed `d` among the swapped pairs are the sources of the edges into `d`, in edge order |
| Groups.ReverseLinksAppend | mr-pr-mpi-base.cpp:117-118 | swapping the pairs of consecutive slices is swapping the pairs of their concatenation |
| MpiMapReduce.ParseHlfile | mr-pr-mpi.cpp:45-62 | the hyperlink vector holds, line by line, the source then the destination, all within `stoi` range; otherwise the first bad line is reported, with its kind |
| MpiMapReduce.CountLinks | mr-pr-mpi.cpp:235-246 | rank 0's pass gives `websize` = largest id + 1, and `num_outgoing[s]` = the number of edges from `s`, 0 for non-sources |
| MpiMapReduce.HashValues | mr-pr-mpi.cpp:66-71 | the 32-bit wrapping mix on sample inputs (0 to 0, 1, 2 and 5 to fixed words) |
| MpiMapReduce.ReducerCount | mr-pr-mpi.cpp:215-219 | a run needs at least three processes; then there are `size - 2 >= 1` reducers |
| MpiMapReduce.Route | mr-pr-mpi.cpp:85 | a destination's owner `hash(d) % num_reduce + 2` is a reducer rank, between 2 and `num_reduce + 1` |
| MpiMapReduce.RouteExamples | mr-pr-mpi.cpp:66-85 | with three reducers, pages 0, 1 and 5 go to ranks 2, 3 and 4 |
| MpiMapReduce.ChannelAppend | mr-pr-mpi.cpp:85-91 | point-to-point order: a receiver sees the first send phase's messages before the second's |
| MpiMapReduce.RunMapTask | mr-pr-mpi.cpp:79-94 | the mapper sends one `(destination, source)` message per edge, in edge order, to its owner, then one -1 to each of ranks `2..num_reduce+1` |
| MpiMapReduce.Signed | mr-pr-mpi.cpp:104-109 | a word read back as `int` keeps its value below 2^31 and is negative exactly above |
| MpiMapReduce.RunReducer | mr-pr-mpi.cpp:106-112 | a reducer finishes iff some message reads as -1 |
| MpiMapReduce.FirstEnd | mr-pr-mpi.cpp:106-108 | the position of the first message that reads as -1: none before it does, and it does if within the channel |
| MpiMapReduce.AbsorbIsGroupOf | mr-pr-mpi.cpp:109-110 | the reducer's appending loop builds the reference grouping of its messages by key |
| MpiMapReduce.AbsorbGroups | mr-pr-mpi.cpp:109-110 | appending values under non-negative keys keys the table by exactly the keys seen, each with its values in arrival order |
| MpiMapReduce.ReducerGroupsMessages | mr-pr-mpi.cpp:106-112 | data, then -1, then anything: the reducer ends with the grouping of the data alone |
| MpiMapReduce.ReducerWithoutData | mr-pr-mpi.cpp:106-112 | a reducer whose first message is -1 ends with an empty table |
| MpiMapReduce.SentinelCollision | mr-pr-mpi.cpp:104-112 | a key of 2^31 or more is skipped, and 0xFFFFFFFF ends the stream early, losing the data after it |
| MpiMapReduce.DataChannel | mr-pr-mpi.cpp:81-87 | the data loop's messages to a rank are the edges routed to it, in edge order |
| MpiMapReduce.StopChannel | mr-pr-mpi.cpp:89-92 | the stop loop sends each reducer exactly one -1 and nothing to other ranks |
| MpiMapReduce.MapperOutputUnique | mr-pr-mpi.cpp:79-94 | the mapper's output is determined by the edges and the reducer count |
| MpiMapReduce.MapperChannel | mr-pr-mpi.cpp:79-94 | a reducer receives exactly its routed data messages followed by one -1 |
| MpiMapReduce.RoutedValues | mr-pr-mpi.cpp:85 | the values a reducer receives for `d` are the sources of all edges into `d` if it owns `d`, else none |
| MpiMapReduce.OwnedByOneReducer | mr-pr-mpi.cpp:85 | a page held by one reducer is held by no other |
| MpiMapReduce.ReducerFinishes | mr-pr-mpi.cpp:102-115 | every reducer terminates, holding the grouping of the data routed to it |
| MpiMapReduce.ReducerTable | mr-pr-mpi.cpp:102-115 | reducer `r` holds page `d` iff it owns `d` and some edge points to `d`, and then it holds `d`'s incoming sources in edge order |
| MpiMapReduce.ReducersFinish | mr-pr-mpi.cpp:102-115 | every one of the `num_reduce` reducers receives its stop word |
| MpiMapReduce.ReducerTablesDisjoint | mr-pr-mpi.cpp:326-329 | different reducers send groups for different pages |
| MpiMapReduce.MergedReducerTables | mr-pr-mpi.cpp:326-329 | together the reducers hold exactly the pages some edge points to, each with its incoming list |
| MpiMapReduce.MergedFromDestination | mr-pr-mpi.cpp:323-329 | every page some reducer sends is pointed to by an edge, and its group is that page's incoming list |
| MpiMapReduce.DestinationMerged | mr-pr-mpi.cpp:323-329 | every page some edge points to is sent by some reducer |
| MpiMapReduce.GroupCountIsMergedSize | mr-pr-mpi.cpp:323-324 | the summed `num_send` equals the number of groups the reducers send |
| MpiMapReduce.DestinationsBelowWebsize | mr-pr-mpi.cpp:271 | every page a group is sent for is a valid index of `incoming` |
| MpiMapReduce.Deposit | mr-pr-mpi.cpp:270-272 | after appending the received groups, `incoming[d]` is the concatenation, in arrival order, of the groups for `d` |
| MpiMapReduce.Collate | mr-pr-mpi.cpp:264-273 | receiving `num_recv` groups completes iff that many arrive, and then `incoming` holds the appended groups |
| MpiMapReduce.CollateAsWritten | mr-pr-mpi.cpp:263-266 | with a `websize`-word buffer the loop aborts iff some received group is longer, naming the first; otherwise it behaves as `Collate` |
| MpiMapReduce.FirstOversize | mr-pr-mpi.cpp:264-266 | the receive loop gets past every group before the first one longer than its buffer, and stops at that one |
| MpiMapReduce.PipelineBuildsIncomingIndex | mr-pr-mpi.cpp:256-273 | in every run, whatever the arrival order, every reducer finishes, the coordinator expects exactly as many groups as arrive, and `incoming` is the reference index |
| MpiMapReduce.CollateGathers | mr-pr-mpi.cpp:264-273 | any delivery of the incoming lists of the pointed-to pages collates into the reference index |
| MpiMapReduce.ArrivalsGather | mr-pr-mpi.cpp:264-273 | the groups that arrive name pages below `websize`, and for each page they append to its incoming list |
| MpiMapReduce.DistinctEdgesFitBuffer | mr-pr-mpi.cpp:263-266 | without repeated edges the program as written builds the reference index |
| MpiMapReduce.OversizeGroupAborts | mr-pr-mpi.cpp:263-266 | a page with more incoming links than `websize` makes the program as written abort, whatever the arrival order |
| MpiMapReduce.OversizeGroupArrives | mr-pr-mpi.cpp:263-266 | a page with more incoming links than `websize` brings a group longer than the buffer, whatever the arrival order |
| MpiMapReduce.RepeatedEdgeExceedsWebsize | mr-pr-mpi.cpp:263-266 | the input "0 1" three times has `websize` 2 but a group of three |
| BaseMapReduce.ReadStep | mr-pr-mpi-base.cpp:163-180 | each accepted line appends its edge, adds one to its source's out-degree and keeps the largest id |
| BaseMapReduce.ReadInput | mr-pr-mpi-base.cpp:156-184 | an unopenable file gives no edges and `websize` 0. Otherwise the read succeeds iff every line is good, and then yields the edges, `websize` = largest id + 1 and exact out-degrees. Otherwise it reports the first bad line |
| BaseMapReduce.EmptyFileHasOnePage | mr-pr-mpi-base.cpp:162-181 | an empty file parses to no edges and one page |
| BaseMapReduce.DecodeEncodeWord | mr-pr-mpi-base.cpp:117-128 | a `uint32_t` passed as its four bytes reads back unchanged |
| BaseMapReduce.EncodeDecodeWord | mr-pr-mpi-base.cpp:128 | four bytes are the encoding of the word they hold |
| BaseMapReduce.DecodeEncodeWords | mr-pr-mpi-base.cpp:129-130 | a word buffer read back as `valuebytes / 4` words is unchanged |
| BaseMapReduce.EncodeDecodeWords | mr-pr-mpi-base.cpp:136 | a buffer of whole words is the encoding of what it holds |
| BaseMapReduce.FileRead | mr-pr-mpi-base.cpp:113-120 | every map task emits `h / size` pairs |
| BaseMapReduce.FileReadContents | mr-pr-mpi-base.cpp:116-118 | task `r` emits, in order, `(second, first)` of each index of its slice |
| BaseMapReduce.SlicesDisjoint | mr-pr-mpi-base.cpp:116 | different tasks read different indices |
| BaseMapReduce.SlicesCover | mr-pr-mpi-base.cpp:116 | an index is read by some task iff it is below `size * (h / size)` |
| BaseMapReduce.MapTasksPrefix | mr-pr-mpi-base.cpp:191 | tasks `0..n-1` together emit the swapped pairs of the first `n * (h / size)` edges |
| BaseMapReduce.MapPhaseEmits | mr-pr-mpi-base.cpp:191 | the map phase emits the swapped pairs of all but the last `h mod size` edges |
| BaseMapReduce.MapPhaseDropsTail | mr-pr-mpi-base.cpp:116 | with two ranks and one edge nothing is emitted |
| BaseMapReduce.FileReadBalanced | mr-pr-mpi-base.cpp:116 | with the remainder given to the last task, its slice is longer by `h mod size` |
| BaseMapReduce.MapPhaseBalancedEmitsAll | mr-pr-mpi-base.cpp:191 | with that correction the map phase emits the swapped pair of every edge |
| BaseMapReduce.MapTasksBalancedPrefix | mr-pr-mpi-base.cpp:116 | the corrected split changes only the last task: the tasks before it emit what they emit as written |
| BaseMapReduce.CollectKeepsGroup | mr-pr-mpi-base.cpp:134-137 | `collect` passes a group's multivalue on whole |
| BaseMapReduce.EmptyIndex | mr-pr-mpi-base.cpp:203-206 | the cleared arrays have `websize` slots, each with count 0 |
| BaseMapReduce.CollectIncoming | mr-pr-mpi-base.cpp:122-132 | off rank 0 nothing changes. On rank 0 the page named by the key gets the value's words, its count is `valuebytes / 4`, every other page is untouched, and the pair is re-emitted |
| BaseMapReduce.CollectAll | mr-pr-mpi-base.cpp:209 | the pass over the gathered pairs keeps both arrays `websize` long with counts matching buffers |
| BaseMapReduce.CollectAllOffRoot | mr-pr-mpi-base.cpp:125-126 | off rank 0 the whole pass changes nothing |
| BaseMapReduce.CollectAllGroups | mr-pr-mpi-base.cpp:209 | on rank 0, groups with distinct keys leave each page with exactly the words of its group, or none |
| BaseMapReduce.GatherBuildsIncoming | mr-pr-mpi-base.cpp:191-209 | whatever grouping and gather order the library uses, page `d` ends with the sources of the edges into `d`, up to order |
| BaseMapReduce.JobBuildsPrefixIndex | mr-pr-mpi-base.cpp:191-209 | the job as written indexes only the first `h - h mod size` edges |
| BaseMapReduce.BalancedJobBuildsIndex | mr-pr-mpi-base.cpp:191-209 | with the corrected split, every page gets the sources of all edges into it, up to order |
| CppMapReduce.ParseHlfile | mr-pr-cpp.cpp:79-99 | one `(source, destination)` pair per line in file order iff every line is good; otherwise the first bad line is reported and no partial list survives |
| CppMapReduce.MapOperator | mr-pr-cpp.cpp:50-55 | the map call emits `(second, first)` once per input pair, in order |
| CppMapReduce.ReduceOperator | mr-pr-cpp.cpp:61-68 | the reduce call emits exactly one `(key, pages)`, with `pages` the values in iterator order |
| CppMapReduce.MapInputIsFile | mr-pr-cpp.cpp:32-40 | `setup_key` succeeds with the file name, and `get_data` succeeds with the whole parsed list, one pair per line |
| CppMapReduce.MapOutputIsReverseLinks | mr-pr-cpp.cpp:52-54 | the map call's output is the swapped pair of every edge |
| CppMapReduce.JobGroupsIncoming | mr-pr-cpp.cpp:71-76 | taking the map output to be the map operator applied once to the whole list, whatever grouping and result order the library uses, the reduce results for `d` are the sources of the edges into `d`, up to order |
| Checker.ResultLineShape | correctness_checker.cpp:35 | the result grammar is unambiguous: a line is accepted iff it has the result shape where its label ends |
| Checker.ResultLabel | correctness_checker.cpp:35 | an accepted line's label is a canonical id or `s` |
| Checker.ResultValue | correctness_checker.cpp:35 | an accepted line's number matches the number grammar |
| Checker.Gaps | correctness_checker.cpp:35 | the characters around `=` are whitespace |
| Checker.FormatResultParses | correctness_checker.cpp:35 | every line `label = value` is accepted and reads back as its label and value |
| Checker.ResultLineFormats | correctness_checker.cpp:35 | an accepted line with spaces around `=` is exactly the rendering of its label and value |
| Checker.BarExponentAccepted | correctness_checker.cpp:35 | the exponent's sign bracket also admits `\|`: "0 = 1e\|5" is accepted |
| Checker.NoSpaceInNumber | correctness_checker.cpp:42 | a number contains no space |
| Checker.SplitFormatted | correctness_checker.cpp:42-43 | a written result line splits at spaces into label, `=` and value |
| Checker.ValueFieldOnSpaces | correctness_checker.cpp:42-43 | on space-separated lines `split(line, ' ')[2]` is the grammar's number |
| Checker.TabSeparatedResultHasOneField | correctness_checker.cpp:35-43 | "0\t=\t1" is accepted, yet `split` leaves it one field, so field 2 does not exist |
| Checker.FirstMalformed | correctness_checker.cpp:38-41 | the pairs before the reported one are readable, and the reported one is not |
| Checker.CompareFiles | correctness_checker.cpp:30-57 | an unopenable file ends the comparison; otherwise the verdict is the reference scan's, including the mismatches reported before an abort |
| Checker.ScanLines | correctness_checker.cpp:37-51 | the loop returns the reference verdict: the first unreadable pair aborts with its line number and the mismatching lines already reported before it; otherwise the scan passes with all the mismatching lines |
| Checker.MalformedStaysFirst | correctness_checker.cpp:38-41 | a bad pair after good ones stays the first bad pair however far the scan runs |
| Checker.MismatchMembers | correctness_checker.cpp:44-49 | a line number is reported iff that line's values differ |
| Checker.MismatchesIncrease | correctness_checker.cpp:44-50 | mismatches are reported in increasing line order, each once |
| Checker.SurplusIgnored | correctness_checker.cpp:37 | lines beyond the end of the shorter file, in either argument, do not change the verdict |
| Checker.SamePrefixSameMismatches | correctness_checker.cpp:44-49 | the mismatches reported among the first `m` readable pairs depend only on those lines |
| Checker.SamePrefixSameScan | correctness_checker.cpp:37-50 | the scan of the first `n` pairs depends only on those lines |
| Checker.PassedDespiteMismatch | correctness_checker.cpp:44-53 | a mismatch is reported, and the check still passes |
| Checker.MismatchBeforeAbort | correctness_checker.cpp:37-50 | a mismatch on line 1 is reported before line 2's grammar failure aborts the run: the verdict is an abort at line 2 carrying line 1 |
| Checker.ScanAbortAtSecond | correctness_checker.cpp:37-50 | a readable pair followed by an unreadable one aborts at line 2, having reported line 1 iff its values differ |
| Checker.ScanOnePair | correctness_checker.cpp:37-53 | files of one readable pair each pass, reporting line 1 iff its values differ |
| Checker.ReadFormatted | correctness_checker.cpp:35 | a written result line reads back as its value |

## Left out

- The three PageRank solvers (`run_pgrank`, `run`), the result output (`setprecision(12)`, the `s = ` checksum line) and `std::stod` are left out: they are floating-point numerics and file output. The checker's tolerance test is the parameter `differ`.
- MPI transport is not modelled as such. The point-to-point channels are message sequences. The `MPI_Bcast` of `websize`/`hlinksize` and the `MPI_Reduce` of `num_send` are values passed along. Blocking stands for a missing message, as in `RunReducer` and `Collate`.
- `MPI_Abort`, `exit(1)` and the usage and `-o` argument checks are not modelled beyond the error outcomes of the parse and of `ReducerCount`: they are process control.
- MapReduce-MPI's `collate` and `gather` and the C++ library's `job` plumbing are foreign code. They are represented by the `Collates` and `Enumerates` relations. A library producing a different grouping is out of scope.
- Timing (`nanos`, `std::chrono`, `MPI_Wtime`, and the tag 10/11 start and end messages) is left out: it is clock I/O.
- The `new[]`/`memset` of `incoming` in `mr-pr-mpi-base.cpp` is represented only by `EmptyIndex`. The pointer array is a sequence of byte buffers.
- The regular-expression engine is not modelled. Each grammar is a predicate over the characters.
- `IsSpace` assumes the C locale's `\s` set.
- `websize` and `hlinksize` are unbounded integers. The `websize++` overflow of an `int` at id 2^31-1 is not modelled, and neither is `i < hlinksize` comparing `unsigned` with `int`.
- `std::getline` splitting the file into lines is a given: files are sequences of lines. A missing final newline is not distinguished.
- The interaction of `MPI_Abort` on rank 0 with the mapper is not modelled: both ranks parse the same file, and `ParseHlfile` reports the same line either way.
- Checker.CompareFiles: the model reads each value with the grammar (`ResultValue`), which is the corrected reading; the code's `split(line, ' ')[2]` is `ValueField` (see Findings).
- EdgeList.ParseEdges: reads every accepted line with `ParseLine`, the ids around the matched whitespace, which is the corrected reading. On an accepted line with no space, such as "0\t1", the code reads `link[1]` past the end of the vector, which is undefined behaviour; the model yields the edge instead. `ParseLineAsWritten` models the code's reading, and `ParseEdgesOnSpaces` shows the two agree whenever every line holds a space (see Findings).
- EdgeList.ParseEdgesOk: inherits the corrected reading from `ParseEdges`. It claims success for accepted lines separated by a tab or another non-space whitespace character, where the code's behaviour is undefined.
- MpiMapReduce.ParseHlfile: inherits the corrected reading from `ParseEdges`. On "0\t1" the code's `link[1]` at mr-pr-mpi.cpp:59 is out of range.
- CppMapReduce.ParseHlfile: inherits the corrected reading from `ParseEdges`. On "0\t1" the code's `link[1]` at mr-pr-cpp.cpp:94 is out of range. The order in which `make_pair`'s two `stoi` calls run is unspecified in C++; the model reports the line as `Overflow` whichever id is too large.
- BaseMapReduce.ReadStep: appends the `ParseLine` edge, the corrected reading. On "0\t1" the code's `link[1]` is out of range.
- BaseMapReduce.ReadInput: inherits the corrected reading from `ReadStep`.
- CppMapReduce.JobGroupsIncoming: assumes the map operator runs once, on the whole list `get_data` yields. mr-pr-cpp.cpp declares the `job` type but never runs a job, and `setup_key` always returns `true`, so nothing in the source bounds the number of map calls. The lemma states the index a single-call job would build.
- MpiMapReduce.PipelineBuildsIncomingIndex: stated for the corrected coordinator (`Collate`, whose buffer always fits). The program as written matches it without repeated edges (`DistinctEdgesFitBuffer`) and aborts otherwise (`OversizeGroupAborts`).

## Findings

| source | as written | input that shows it | evidently intended | confidence | as-written member | corrected member |
|---|---|---|---|---|---|---|
| mr-pr-mpi.cpp:49-59 | the pattern accepts any whitespace between the ids, but `split(line, ' ')` cuts only at spaces and `link[1]` is then read | the line "0\t1" | read the two ids on either side of the matched whitespace | not executed | EdgeList.ParseLineAsWritten, EdgeList.TabSeparatedLineHasOneField | EdgeList.ParseLine, EdgeList.FormatEdgeParses |
| mr-pr-mpi.cpp:263-266 | each group is received into a buffer of `websize` words, but a page can have more incoming links than that | the input "0 1" three times: `websize` 2, page 1's group has 3 words | a buffer as large as the group, so that every group is received | not executed | MpiMapReduce.CollateAsWritten, MpiMapReduce.RepeatedEdgeExceedsWebsize, MpiMapReduce.OversizeGroupAborts | MpiMapReduce.Collate, MpiMapReduce.PipelineBuildsIncomingIndex |
| mr-pr-mpi-base.cpp:116 | task `r` maps `[r*(h/size), (r+1)*(h/size))`, so the last `h mod size` edges are never mapped | two ranks and the single edge "0 1": no pair is emitted | the last task also takes the remainder | not executed | BaseMapReduce.MapPhase, BaseMapReduce.MapPhaseDropsTail, BaseMapReduce.JobBuildsPrefixIndex | BaseMapReduce.MapPhaseBalanced, BaseMapReduce.MapPhaseBalancedEmitsAll, BaseMapReduce.BalancedJobBuildsIndex |
| correctness_checker.cpp:35-43 | the pattern accepts any whitespace around `=`, but the value is read as `split(line, ' ')[2]` | the line "0\t=\t1" in both files | read the number the pattern matched | not executed | Checker.ValueField, Checker.TabSeparatedResultHasOneField | Checker.ResultValue, Checker.FormatResultParses |
