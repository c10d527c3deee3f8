# A verified model of the network set-up and its tools

This project models, in Dafny 4.11, the algorithms of an ns-3 based simulator that can be read in
full in its repository, and proves what they promise.

* **ECMP routing** (`Net`, `Bfs`, `Topology`, `Setup`, `Metrics`, `Addressing`, `Delivery`, `Runs`).
  A search per host fills `nextHop`, from which forwarding tables are built; a link failure rebuilds
  both. `Net` defines walks, shortest distances and next hops without mentioning the search. The
  methods of `TopologyState` are proved against those definitions for every order in which the
  pointer-ordered C++ maps may be walked. `Delivery` follows packets through the port numbers in
  the tables, and `Runs` covers every sequence of link failures.
* **Worker pool of `test.py`** (`WorkerPool`, `Interrupts`). The main thread, N workers and an
  interrupt as interleaved steps over two queues: no deadlock, termination, every job collected once,
  exit code, order of the queues, and what becomes of each job when the interrupt comes.
* **Path gathering** (`Gather`, `GatherRepeats`). The recursion over a type graph with cycles, against
  simple paths; and when its output repeats an entry, told from the type graph.
* **Dependency rounds** (`DependencyOrder`). The layered topological sort, against longest chains.
* **Style fixer** (`StyleText`, `StyleFixer`, `FixedText`). The guarded one-pass rewriter, against
  idempotence, and against what it must leave of each line.
* **Small cores**: the chunked sender (`LargeTransfer`), online variance (`Welford`), Jain's index
  (`Fairness`) and window queries (`Grid`).
* **Shared**: fixed-width integers (`Words`) and sequences without repetitions and selections in order (`Sequences`).

Code that updates state in place is modelled by classes and methods with loops, each tied to a
specification about which the lemmas reason. An arbitrary map order or an outside event is a
nondeterministic choice. Fixed-width integers wrap where the source's do.

## Where the code and its words differ

* `Uniquefy` (utils/print-introspected-doxygen.cc:408-429) says that the container is modified in
  place, but takes it by value, so `Gather` leaves repeated entries in `m_output`.
  `GatherRepeats.RepeatsIff` says exactly when there are any: some simple path from the root ends at a
  type with an aggregation recorded twice, or with a child that is also aggregated, towards a type the
  path has not visited. `GatherRepeats.RepeatsExample` is a registry where it happens.
* `get_ranges` (utils/grid.py:147-163) selects the ranges of a window, but goes wrong in four ways:
  its search misses a range that others, inside it, hide (`Grid.NestedExample`); it returns none when both ends of the window fall between ranges and some range lies within
  (`Grid.GapExample`); it returns a range too many when one end falls between two ranges
  (`Grid.TooManyExample`); and it loses a range when an end of the window lies in several ranges, if
  only at an end point they share, and the halving stops at the wrong one (`Grid.SharedEndExample`).
  `Grid.NotFoundIff` says exactly when the search finds nothing; for lists without ranges inside
  others `Grid.ExactIff` says exactly when the result is the overlapping ranges, and
  `Grid.NoneLostIff` when none of them is lost.
* `get_events` (utils/grid.py:244-253) returns one event after the window unless an event falls on
  its end (`Grid.OneExtraIff`), and loses events at the time of an end of the window exactly when the
  halving stops short of the outermost of them (`Grid.NoneMissedIff`, `Grid.SameTimeExample`).
* `dependency_order` never ends by itself on a map with a cycle (`DependencyOrder.CycleExample`) or a
  missing library (`DependencyOrder.MissingExample`); `DependencyOrder.FinishesIff` says exactly when
  it does.
* `TakeDownLink` does not clear the delay matrices: the entry of a node that was cut off keeps its
  old value. After a call an entry belongs to the links left exactly when its node can still be
  reached (`Runs.FreshIffReachable`, `Runs.StaleExample`), and over a run it belongs to the last state
  in which its node was reached (`Runs.EntryLastSeen`). The matrices `pairRtt` and `pairBdp` and
  the maxima `maxRtt` and `maxBdp` are computed at set-up only, never after a failure.
* The guards of check-style-clang-format.py are there to leave the lines between them alone, but the
  file is read with universal newlines and written whole. If anything in it is fixed, a guarded-off
  line with a carriage return is rewritten too: `StyleFixer.BytesKeptIff` says exactly when such a
  line keeps its bytes, and `StyleFixer.GuardedLineExample` is a file where one does not.

## Model

| member | source | states |
|---|---|---|
| Topology.TopologyState.CalculateRoute | scratch/topology.h:46-86 | for any neighbour order the search ends; the column of the host grows by every equal-cost next hop exactly once; delay, serialization time and bottleneck of each reachable node are measured along one shortest walk; all other entries are kept |
| Topology.TopologyState.VisitNeighbours | scratch/topology.h:60-78 | the inner loop keeps the search invariant whatever order the neighbours come in, skipping links that are down |
| Bfs.DistancesDone | scratch/topology.h:46-79 | when the queue is used up the labels are exactly the lengths of shortest up-link walks with only switches inside, and are absent exactly for unreachable nodes |
| Bfs.HopsDone | scratch/topology.h:46-79 | the recorded next hops of a node are exactly the expanded nodes one link closer, each once |
| Topology.TopologyState.CalculateRoutes | scratch/topology.h:88-94 | each host's column is appended to correctly whatever `nextHop` held; columns of switches are untouched |
| Topology.FreshRouted | scratch/topology.h:88-94 | started from an empty `nextHop`, the result is every equal-cost next hop once and nothing else |
| Topology.TopologyState.SetRoutingEntries | scratch/topology.h:96-116 | the row of an address grows by the port numbers of exactly that node's next hops for the destinations with that address, merged where several share it |
| Topology.RowMeaning | scratch/topology.h:96-116 | a port is in the row of an address exactly when it leads to a next hop towards some host with that address |
| Topology.OwnAddressIff | scratch/topology.h:16-23 | a host shares its address with no other exactly when no other host's id agrees with its own modulo 2^24, hence always among 2^24 nodes |
| Topology.TopologyState.TakeDownLink | scratch/topology.h:118-139 | a call on an absent or down link changes neither links, next hops nor tables; otherwise both directions go down, no other link or attribute changes, and next hops and tables are those of the remaining links |
| Net.DistMonotone | scratch/topology.h:46-79 | removing links never brings a node closer |
| Net.DistSymmetric | scratch/topology.h:46-79 | over symmetric links the hop distance is the same from either end |
| Delivery.HopIffReachable | scratch/topology.h:46-79 | a node has a next hop towards a host exactly when it is another node the host reaches |
| Delivery.SendsIffHop | scratch/topology.h:96-116 | the ports in the row of a host with an address of its own lead to exactly the equal-cost next hops |
| Delivery.PacketDelivered | scratch/topology.h:46-116 | whichever port each node picks, a packet for a host with an address of its own crosses only up links, is relayed only by switches, visits no node twice, can always go on, and arrives after exactly the hop distance |
| Delivery.NoRowIff | scratch/topology.h:96-116 | the row of such a host is empty exactly at the host itself and at nodes it does not reach |
| Delivery.StoredIff | scratch/topology.h:46-116 | `nextHop[n][h]` holds exactly the equal-cost next hops of n, and the row of h's address in n's table exactly one port for each |
| Runs.SetupThenFail | scratch/network_setup.h:301-305 | set-up followed by any sequence of calls of `TakeDownLink` is a run in the sense of the results below, delay matrices included |
| Runs.RunKeeps | scratch/topology.h:118-139 | in every state of every run of link failures the links are well formed and next hops and tables are those of the links still up |
| Runs.RunFewer | scratch/topology.h:118-139 | over a run links only disappear, and interfaces keep index, delay and rate |
| Runs.DistancesNeverDecrease | scratch/topology.h:118-139 | over a run no distance decreases and nothing becomes reachable again |
| Runs.NoDownLinkUsed | scratch/topology.h:118-139 | after a failure neither direction of the link is ever a next hop again |
| Runs.RunMatchesFresh | scratch/topology.h:118-139 | any state of a run has, up to order within a row, the next hops and tables of a fresh computation on the same links, whether addresses repeat or not |
| Runs.RunDelivers | scratch/topology.h:46-139 | in every state of every run each packet for a reachable host with an address of its own is delivered loop-free in its hop distance |
| Runs.RunSymmetric | scratch/topology.h:118-139 | in every state of every run distances are symmetric |
| Runs.FreshIffReachable | scratch/topology.h:79-139 | after the matrices are recorded over old ones an entry is measured along a shortest walk on the current links exactly when its node is reachable, and is the old entry otherwise |
| Runs.EntryFrozen | scratch/topology.h:79-139 | an entry whose node is cut off by a call has, in every later state, the value it had before that call |
| Runs.EntryMeans | scratch/topology.h:66-139 | in every state of every run the matrices hold, for each node a host reaches, the delay and serialization sums of one shortest walk modulo 2^64 and its slowest rate |
| Runs.EntryLastSeen | scratch/topology.h:79-139 | in every state of every run an entry is measured along a shortest walk on the links of the last state in which its node was reached, and is zero if it never was |
| Runs.StaleExample | scratch/topology.h:118-139 | two hosts on one link: when it goes down its delay stays recorded between hosts that no longer reach each other |
| Metrics.PathMetricMeaning | scratch/topology.h:66-71 | the labels carried along a walk are its delay sum and serialization sum modulo 2^64 and the rate of its slowest link |
| Metrics.TxTimeExact | scratch/topology.h:68-70 | the serialization time is the payload's bits times 10^9 divided by the rate, rounded down, while that product fits 64 bits |
| Metrics.ComputeBdpAndRtt | scratch/topology.h:141-162 | for every pair of hosts the round trip is twice the delay plus the serialization and the product is that times the rate over 8e9, modulo 2^64; both maxima are exact |
| Metrics.RttMeaning | scratch/topology.h:141-162 | a recorded round trip is twice the delay plus the serialization of one shortest walk modulo 2^64, and at most hops times (2 * greatest link delay + greatest serialization time) |
| Metrics.BdpExact | scratch/topology.h:155 | unless the product exceeds 64 bits, the bandwidth-delay product is floor(rtt * rate / 8e9) |
| Metrics.SetupRtt | scratch/topology.h:141-162 | at set-up every pair's round trip obeys that bound with its hop distance; self pairs and unreachable pairs contribute nothing |
| Setup.BuildLinks | scratch/network_setup.h:152-211 | exactly the file's links are up, symmetric, with the last line's delay and rate at both ends, and with one plus the number of earlier link ends at the node as interface index |
| Setup.SetupRouting | scratch/network_setup.h:301-305 | set-up in the source's order ends with next hops and tables that match the links, recorded shortest-walk measures, and exact maxima |
| Setup.BuildPeers | scratch/network_setup.h:314-336 | every entry of node i has local number 65000 + i and the constant flags; there is exactly one for each neighbour on an up link, with that one's number and address, and no other |
| Setup.PeersMirrored | scratch/network_setup.h:314-336 | a peering configured at one end is configured once at the other with the two numbers swapped |
| Addressing.RoundTrip | scratch/topology.h:16-23 | decoding a node's address gives the low 16 bits of its id |
| Addressing.RoundTripExactIff | scratch/topology.h:16-23 | and the id itself exactly when that is below 2^16 |
| Addressing.CollisionIff | scratch/topology.h:16-19 | two nodes share an address, and a /24 prefix, exactly when their ids agree modulo 2^24 |
| Addressing.InElevenIff | scratch/topology.h:16-19 | an address is in 11.0.0.0/8 exactly when the id modulo 2^24 is below 2^16 |
| Addressing.DottedForm | scratch/topology.h:16-19 | an address is the four bytes 11 + id / 2^16, id / 2^8, id and 1, each modulo 2^8 |
| WorkerPool.StepInv | test.py:1075-1159 | every step of any thread, or an interrupt, keeps the pool's invariant: FIFO order of jobs before pills, each dispatched job in one place, pills matched by exits, counters matching what was collected |
| WorkerPool.RunInv | test.py:1075-1159 | so it holds in every state of every interleaving |
| WorkerPool.MeasureDecreases | test.py:1075-1159 | a non-negative measure falls at every step |
| WorkerPool.RunBound | test.py:1612-1950 | no interleaving has more than 7 steps a job, 3 a worker and one interrupt |
| WorkerPool.NeverStuck | test.py:1926-1950 | with a worker, or without jobs, some thread can always move until main has finished |
| WorkerPool.StuckIff | test.py:1612-1615 | a deadlock is reachable exactly when there are jobs and no worker |
| WorkerPool.PillsComeLast | test.py:1076-1083 | a worker takes a pill only when every job was dispatched and none is waiting |
| WorkerPool.NothingLost | test.py:2108-2109 | when all workers have exited each job is a result, waiting or collected, exactly once |
| WorkerPool.RunFinishes | test.py:1949-2109 | an interleaving that can go no further has finished with each job collected exactly once |
| WorkerPool.FinalAccount | test.py:1941-1985 | passed, failed, crashed, valgrind, skipped and interrupted add up to the jobs dispatched, and the runner returns 0 exactly when all were passed or skipped |
| WorkerPool.ExitCodeMeaning | test.py:2218-2221 | without an interrupt it returns 0 exactly when every job that is not skipped returns 0 |
| WorkerPool.CountsDetermined | test.py:1951-1985 | without an interrupt each counter is the number of jobs with that outcome, whatever the interleaving |
| WorkerPool.CountersMean | test.py:1951-1985 | then passed, failed and valgrind are the numbers of unskipped jobs that return 0, 1 and 2, and crashed the rest |
| Interrupts.NothingBegins | test.py:1089-1092 | after an interrupt a job runs at a worker only if it ran there when the interrupt came |
| Interrupts.InterruptAccount | test.py:1075-1159 | when main finishes after an interrupt, each job that had not begun is collected as handed back, each that was running with its own return code, and each result that was there unchanged |
| Interrupts.FirstInFirstOut | test.py:1075-1159 | in every interleaving the workers take the jobs in order of dispatch and then pills, and main collects results in the order they were reported |
| Gather.EdgesListed | utils/print-introspected-doxygen.cc:456-530 | the steps from a type are its pointers to other than Object and its containers, with `/[i]`, in order of the attributes; then its children and then its aggregations, with `$` and the name |
| Gather.StaticInformation.GetCurrentPath | utils/print-introspected-doxygen.cc:360-370 | the string is the labels one after the other, each behind a slash |
| Gather.StaticInformation.DoGather | utils/print-introspected-doxygen.cc:447-531 | ends on any finite type graph, restores the path and the ancestor stack, and appends the specified entries |
| Gather.Uniquefy | utils/print-introspected-doxygen.cc:423-429 | the copy ends in ascending order of type and string, with the same members and none twice |
| Gather.StaticInformation.Gather | utils/print-introspected-doxygen.cc:439-445 | the output is as gathered, since what becomes of the copy is dropped |
| Gather.EnumeratedIff | utils/print-introspected-doxygen.cc:447-531 | the recursion meets an edge sequence exactly when it visits no type twice |
| Gather.EnumeratedOnce | utils/print-introspected-doxygen.cc:447-531 | and meets it once, parallel edges counting separately |
| Gather.EnumeratedInOrder | utils/print-introspected-doxygen.cc:447-531 | in preorder: a path before its extensions, and these in the order of the edges |
| Gather.GatheredPaths | utils/print-introspected-doxygen.cc:447-531 | the output lists, for each simple path from the root exactly once and in preorder, its end and its labels, each behind a slash |
| Gather.OneEntryPerSimplePath | utils/print-introspected-doxygen.cc:447-531 | the output lists, for each simple path from the root exactly once, its end and its rendered labels |
| Gather.StaticInformation.Get | utils/print-introspected-doxygen.cc:393-406 | the strings of the entries for the type, in their order and each as often as it is there |
| Gather.GetListsSimplePaths | utils/print-introspected-doxygen.cc:393-406 | `Get` returns exactly the renderings of the simple paths that end at the type |
| GatherRepeats.RepeatsArePaths | utils/print-introspected-doxygen.cc:439-531 | in any registry an entry is repeated exactly when two simple paths end at the same type with the same rendering |
| GatherRepeats.RepeatsIff | utils/print-introspected-doxygen.cc:439-531 | when names tell types and attributes apart, an entry is repeated exactly when some simple path from the root ends at a type whose aggregation with a type not on the path is recorded twice, or that has such a type both as a child and aggregated |
| GatherRepeats.RenderInjective | utils/print-introspected-doxygen.cc:360-370 | different sequences of labels are rendered as different strings |
| GatherRepeats.SameTag | utils/print-introspected-doxygen.cc:447-531 | two steps from a type with the same label lead to the same type and come from such a doubling |
| GatherRepeats.RepeatsExample | utils/print-introspected-doxygen.cc:423-445 | a registry on which `Gather` leaves a repeated entry |
| DependencyOrder.ModulesThatCanBeLoaded | bindings/python/ns__init__.py:432-443 | the pending libraries all of whose dependencies are loaded, in order |
| DependencyOrder.Loader.DependencyOrder | bindings/python/ns__init__.py:445-460 | after r calls step j holds exactly the libraries whose longest chain has j links, and it stops at the first r that leaves nothing pending |
| DependencyOrder.SortToDependencies | bindings/python/ns__init__.py:462-467 | the flattened result is a permutation of the libraries with every dependency before its dependents, ordered by round and within a round as the libraries are listed |
| DependencyOrder.GroundedIffChains | bindings/python/ns__init__.py:432-460 | what the rounds test is that all dependency chains are short and stay within the listed libraries |
| DependencyOrder.RankIsLongestChain | bindings/python/ns__init__.py:445-460 | a library's step number is the length of its longest dependency chain |
| DependencyOrder.FinishesIff | bindings/python/ns__init__.py:445-460 | the recursion ends, and then within one round per library, exactly when no chain meets a cycle or a missing library |
| DependencyOrder.CycleExample | bindings/python/ns__init__.py:445-460 | two libraries that depend on each other are pending after any number of rounds |
| DependencyOrder.MissingExample | bindings/python/ns__init__.py:445-460 | so is a library that depends on one not listed |
| DependencyOrder.StallsIff | bindings/python/ns__init__.py:432-460 | a round loads nothing exactly when every pending library has an unloaded dependency |
| DependencyOrder.StalledForever | bindings/python/ns__init__.py:445-460 | and then no later round loads anything |
| DependencyOrder.StallMeansCycle | bindings/python/ns__init__.py:445-460 | on a closed map such a round means a dependency cycle among the pending libraries |
| StyleFixer.CheckManuallyFile | utils/check-style-clang-format.py:505-567 | check, verbose and fix mode return the same verdict, and only fix mode writes, the specified lines |
| FixedText.WhitespaceFix | utils/check-style-clang-format.py:621-640 | the white-space fix keeps a line up to its last character that is not white space, and ends it with one newline |
| FixedText.WhitespacePassesIff | utils/check-style-clang-format.py:621-640 | a line passes exactly when its newline follows no white space |
| FixedText.TabsFix | utils/check-style-clang-format.py:654-686 | the tab fix puts every other character into the column that tab stops four columns apart had given it, blanks in between, and keeps the line end |
| FixedText.LinesRead | utils/check-style-clang-format.py:529-530 | reading turns the terminator of each line into a newline and changes nothing else; only the last line may have none |
| FixedText.ReturnsWhole | utils/check-style-clang-format.py:529-530 | a carriage return and newline are one terminator |
| FixedText.FileWhitespaceFixed | utils/check-style-clang-format.py:528-565 | on disk, every line that is fixed is the old one with its trailing white space, terminator included, replaced by one newline |
| FixedText.FileTabsFixed | utils/check-style-clang-format.py:528-565 | on disk, every line that is fixed keeps its characters in their columns and gets a newline for its terminator |
| StyleFixer.FixIdempotent | utils/check-style-clang-format.py:505-567 | after fixing a file it is compliant and a second fix changes nothing, for either check, with or without guards |
| StyleFixer.CompliantIff | utils/check-style-clang-format.py:531-556 | a file passes exactly when every line that is a guard or not behind an off guard does |
| StyleFixer.SecondPassEnabled | utils/check-style-clang-format.py:533-546 | in every file the switch of a second pass is on, and a line looked at, only where that was so in the first, even though a fixed line can become a guard |
| StyleFixer.SecondPassChecksLess | utils/check-style-clang-format.py:533-546 | a line that the first pass leaves alone is left alone by a second |
| StyleFixer.FixedWhere | utils/check-style-clang-format.py:531-556 | among the lines as read, exactly the guards and those not behind an off guard are fixed; the others come out unchanged |
| StyleFixer.FileFixedWhere | utils/check-style-clang-format.py:528-565 | what fix mode leaves of each line of the file on disk, terminator included |
| StyleFixer.BytesKeptIff | utils/check-style-clang-format.py:528-565 | a guarded-off line keeps its bytes exactly when the file is compliant or the line and its terminator hold no carriage return |
| StyleFixer.GuardedLineExample | utils/check-style-clang-format.py:528-565 | a tab outside the guards makes a line between them lose its carriage return |
| StyleFixer.BothFixesInOneRun | utils/check-style-clang-format.py:345-367 | fixing white space and then tabs leaves a file that passes both checks |
| StyleFixer.NewGuardExample | utils/check-style-clang-format.py:654-686 | expanding a tab can turn a comment into a guard |
| StyleFixer.FixKeepsGuard | utils/check-style-clang-format.py:621-686 | neither fix turns a guard into something else |
| StyleText.WriteThenRead | utils/check-style-clang-format.py:528-565 | lines written and read back are the same lines |
| StyleText.RawLinesAll | utils/check-style-clang-format.py:528-530 | the lines on disk, terminators included, are together the whole file |
| StyleText.ReadLinesRaw | utils/check-style-clang-format.py:529-530 | the lines read are the lines on disk with their terminators translated |
| StyleText.CharacterKeepsColumn | utils/check-style-clang-format.py:678 | expanding the tabs of a line leaves every other character in the column tab stops had put it in |
| LargeTransfer.Sender.WriteUntilBufferFull | examples/tcp/tcp-large-transfer.cc:221-243 | against any socket that does not take nothing for ever the call ends, offers at each step as much as buffer, rest and space allow, extends the stream with the right letters, never beyond the total, and closes exactly when all is accepted |
| LargeTransfer.Sender.RunFlow | examples/tcp/tcp-large-transfer.cc:207-243 | under every schedule of callbacks the accepted bytes are a prefix of the letters a to z over and over, at most 2000000 of them |
| LargeTransfer.SliceContinues | examples/tcp/tcp-large-transfer.cc:224-231 | the buffer slice at the stream position modulo the write size continues the stream |
| LargeTransfer.SeamlessIff | examples/tcp/tcp-large-transfer.cc:52-56 | which works exactly for write sizes that are multiples of 26 |
| Welford.Log | utils/bench-scheduler.cc:331-386 | the loop ends with mean and squared deviation of each field, and variances that are not negative |
| Welford.AccumulateOk | utils/bench-scheduler.cc:358-362 | one ACCUMULATE turns the mean and squared deviation of k samples into those of k + 1, also from the first sample |
| Fairness.PrintFairness | examples/tcp/dctcp-example.cc:183-252 | average and index of the three groups and the two aggregate rates, in arithmetic modulo 2^64 |
| Fairness.ReportMeaning | examples/tcp/dctcp-example.cc:187-197 | with each counter below 2^32 / n nothing wraps: the index is missing exactly when all counters are zero, and otherwise the exact quotient, between 1/n and 1, and 1 exactly for equal flows |
| Fairness.Cauchy | examples/tcp/dctcp-example.cc:191-197 | the numerator never exceeds the denominator, with equality exactly for equal counters |
| Fairness.IndexRange | examples/tcp/dctcp-example.cc:191-197 | unless all counters are zero the index lies between 1/n and 1 and is 1 exactly for equal flows |
| Grid.TimelineDataRange.Search | utils/grid.py:113-131 | on any list the loop is the search specified, and an index it returns is that of a range with the key |
| Grid.FoundHit | utils/grid.py:113-131 | when no range lies inside another the search returns -1 exactly when no range contains the key, and otherwise the one of those that do that the halving comes to first |
| Grid.NotFoundIff | utils/grid.py:113-131 | on any list sorted by start it returns -1 exactly when every range it probes that starts no later than the key ends before it |
| Grid.NestedExample | utils/grid.py:113-131 | a key inside a range is not found behind ranges that lie inside that one |
| Grid.TimelineDataRange.GetRanges | utils/grid.py:147-163 | the ranges between those found for both ends; and exactly the overlapping ranges, in order and each once, whenever the condition of `Grid.ExactIff` holds |
| Grid.ExactIff | utils/grid.py:147-181 | when no range lies inside another, that slice is exactly the overlapping ranges if and only if a start outside all ranges lies before the first, an end outside all ranges after the last, and an end of the window in several ranges hits the outermost; or both ends are outside and no range lies between them |
| Grid.NoneLostIff | utils/grid.py:147-181 | and no overlapping range is lost if and only if an end of the window in several ranges hits the outermost; or both ends are outside and no range lies between them |
| Grid.DisjointExact | utils/grid.py:147-181 | for ranges that do not touch, a window with both ends in ranges gives exactly the overlapping ranges |
| Grid.GapExample | utils/grid.py:147-163 | a range inside the window is not returned |
| Grid.TooManyExample | utils/grid.py:147-163 | a range outside the window is returned |
| Grid.SharedEndExample | utils/grid.py:147-163 | of two ranges that share the end of the window the second is not returned |
| Grid.TimelineEvent.GetEvents | utils/grid.py:244-253 | the events between the positions found for both ends, the second included; and those of the window, in order and each once, then at most the next one, whenever the condition of `Grid.NoneMissedIff` holds |
| Grid.NoneMissedIff | utils/grid.py:244-253 | no event of the window is lost if and only if a start shared by several events hits the first of them and a shared end the last |
| Grid.OneExtraIff | utils/grid.py:244-253 | besides the window at most one event is returned, the next one: exactly when no event falls on the end of the window and one follows |
| Grid.SameTimeExample | utils/grid.py:244-253 | of two events at the time asked for only one is returned |

## Left out

- Parsing of input files, tracing, devices, channels, queue pairs, congestion control, BGP sessions and the bridge from BGP to the forwarding tables (src/bgp, src/point-to-point): out of scope.
- Forwarding tables are modelled as src/point-to-point/model/switch-node.cc:181-190 and rdma-hw.cc:407-418 keep them: `AddTableEntry` appends to the row of an address and `ClearTable` empties the table. The port is picked from the row by a hash of the packet (switch-node.cc:65-92, rdma-hw.cc:96-103), for which the model takes any port of the row; the second copy that RdmaEcmpRouting keeps is left out.
- Kind of node: a node is a host or a switch, and its id is its index in the container, as the set-up code creates them. Interface index 0 is taken to be the loopback device.
- Topology.TopologyState.CalculateRoute: requires non-zero rates on up links, which the source divides by, and does not model that `operator[]` leaves empty rows, or default entries of the delay matrices, for keys that were only looked up; no lookup can tell.
- Topology.TopologyState.SetRoutingEntries: node ids are 32-bit numbers, as `Node::GetId` returns them, so at most 2^32 nodes; delivery is proved for hosts with an address of their own, which `Topology.OwnAddressIff` makes precise.
- Runs.RunMatchesFresh: compares rows as multisets, since the order within a row is that of the search.
- Setup.BuildPeers: the addresses of the nodes are given as data.
- WorkerPool.StepInv: running a job is one step that returns a result fixed per job; a job that never returns, and the printed and XML reports, are not modelled.
- DependencyOrder.Loader.DependencyOrder: the interpreter's recursion limit is a parameter, and exceeding it is reported as an outcome.
- Gather.StaticInformation.DoGather: the type registry, its checkers and `IsChildOf` are given as data; types are ordered by their position.
- GatherRepeats.RepeatsIff: for registries in which type names differ, the attribute names of each type differ, no name holds a slash, and no attribute is called `[i]` or starts with `$`; `GatherRepeats.RepeatsArePaths` covers the others.
- StyleFixer.CheckManuallyFile: messages, and the include-prefix check, which depends on the files present; clang-format and directory walking.
- LargeTransfer.Sender.WriteUntilBufferFull: a socket whose `Send` returns 0 for ever, on which the loop does not end; any finite number of such calls is covered.
- Welford.Log: real arithmetic in place of doubles; the square roots and the printing.
- Fairness.PrintFairness: real arithmetic in place of doubles; a division by zero is reported as a missing index. Per-flow throughput lines and output formats are left out.
- Grid.ExactIff: for lists in which some range lies inside another, where the overlapping ranges need not be neighbours; drawing, sorting and the bounds of whole timelines.
