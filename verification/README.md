# Verified models of the Protolib examples, trpr, hcat and ting

This project models, in Dafny, the algorithmic core of a set of network tools: the E-CDS relay selection
drivers of Protolib (`graphRider`, `graphExample`), its path counter (`graphXMLExample`), the trace plotter
`trpr`, its histogram helper `hcat` (the same histogram is used by `timerTest`), and the two-way ping `ting`.
Code that changes state is modelled by classes, methods and loops over the same state; each of them is proved
against a specification function or relation, and lemmas state what that specification means.

| file | what it models |
|---|---|
| `Mesh.dfy`, `ManetGraph.dfy` | connectivity graphs: as values with an election order, and as mutable nodes with flags and adjacency queues |
| `RelayRule.dfy`, `RelaySetTheorem.dfy` | when a node elects itself relay, and why the relays form a connected dominating set (E-CDS, Appendix A of RFC 6621) |
| `RelaySelection.dfy`, `ExampleSelection.dfy` | the two `CalculateFullECDS` loops over visited flags, work queue and relay list |
| `EpochColoring.dfy`, `EpochReader.dfy` | graphRider's main loop: node ids and links read from the input, and the colours of an epoch |
| `RangeGraph.dfy` | incremental connectivity from node positions |
| `PathCounter.dfy` | backtracking count of simple paths |
| `Histogram.dfy` | the self-rescaling histogram |
| `LossTracker.dfy` | the sliding bitmap of received sequence numbers |
| `LineReader.dfy` | buffered line reading with push-back on a timeout |
| `FlowRate.dfy` | flow summaries and windowed RATE accounting |
| `TingSession.dfy`, `TingReport.dfy` | ting's unicast session machine and its report codec |

What the proofs establish, in short:

- **Relay selection.** Over any finite symmetric graph, any priorities, any starting flags and any iteration order,
  graphRider's relays are connected within every component and cover exactly the nodes whose component is not small.
- **graphExample's variant** elects a subset of them, without the *suppressed* nodes: those that beat their neighbours,
  are beaten two hops away, and find all their neighbours in the path search. A suppressed node is *weak* if its greatest
  neighbour declines too. Without weak nodes, a condition on each node and its neighbourhood, the example's set is
  connected and dominating (`ElectedTopsSuffice`). In general it is if and only if no node outside the small components
  is *stranded* (declined, and elected neighbours all suppressed; its greatest neighbour is then weak) and no weak node
  *severs* two relays. Suppressed nodes are never adjacent and never uncovered themselves. Both ways of failing occur:
  `KiteIsNotDominated` with five nodes, `BridgeIsNotConnected` with six.
- **The red nodes.** The comment "orphans and orphan pairs" in graphRider's main loop holds but for pairs in which a
  node is linked to itself ("link a,a" is accepted input): such a node counts itself as a neighbour and becomes a relay
  (`SelfLinkedPairHasRelay`).
- **Node ids** stay distinct and below the running index exactly until a node gets the id 2^32 - 1; then the index wraps
  and a later node can get an id that is taken (`WrappedIndexCollides`). Until then the graph built while reading is
  exactly the network read.
- **Path counting.** The depth limit of `CalculatePaths` is 20 and so is its array. The program exits only if some trail
  is longer, which may lead away from the destination (`ChainExits` has no path at all); when none is, a path of 20
  links is written past the end of the array, and only then (`LineOverruns` has an input of 21 nodes).
- **Loss tracking.** The flag set for a packet is the one of its sequence number exactly near the window, or after a
  far jump to a number whose remainder modulo 64 is below 32; after a presumed outage it never is. As long as all packets
  are of that kind, a packet counts as a duplicate exactly when one with its number was received inside the window; the
  first packet of another kind always breaks this (`JudgesRightIffTame`), and `FarJumpMisleads` shows both mistakes.
  `wrap_count` and `duplicate_count` are not initialised before the first packet, so both are proved relative to the value
  found there. `LossFraction` expects the right number of packets exactly when no wrap was counted and the packets span
  at most half the sequence space, since a wrap enters twice (`WrapCountsTwice`).
- **Line reading** loses bytes exactly when a chunk starts with a byte that is not text (the chunk is skipped whole);
  an unterminated last line is not delivered (`SkippedLineIsLost`, `UnterminatedLineIsLost`).
- **ting** stores a termination callback in the sessions it initiates, and calls it after every timeout, not only after
  the last as the comment beside the call says; the program's callback stops it. So a session of the program sends at most
  5 HAIL and REQUEST messages, and one timeout ends it. Without a callback, which sessions opened by a peer start with, the
  retry and round limits give 24 for an initiator and 18 for an answerer. All these limits are reached; 2^32 replies
  would exceed them because the round counter wraps, which in time would need all replies within one timer interval. Of an
  IPv6 report address the receiver gets the host, but neither the port nor the success of the call, because that case of
  the decoder runs on into its error case.

## Model

| member | source | states |
|---|---|---|
| RelaySelection.CalculateFullECDS | unpacked/protolib/examples/graphRider.cpp:344-534 | the returned list, count, status flags and leftover visited flags are those of the election run in iteration order from arbitrary starting flags; node by node a relay is one whose greatest neighbour does not reach all others by greater nodes in the local mesh; and the relays form a connected dominating set |
| RelaySelection.RiderDecision | unpacked/protolib/examples/graphRider.cpp:354-531 | one node becomes relay exactly if it has two neighbours and beats them all, or one is not reached from the greatest in the local mesh past the stale flags; its status and all flags afterwards |
| RelayRules.RiderRule | unpacked/protolib/examples/graphRider.cpp:354-531 | a node is elected if and only if it has two neighbours or more and, when one of them is above it, some neighbour is not reached from the greatest by a walk over links with an end next to the node, through greater nodes, past the flags that are still set |
| RelayRules.FoundIffReached | unpacked/protolib/examples/graphRider.cpp:454-508 | the path search finds exactly the nodes reached by such a walk, for any stale flags |
| RelayRules.FlagsRule | unpacked/protolib/examples/graphRider.cpp:373-508 | the flags a decision leaves: the neighbours' are cleared, and those of the nodes reached are set if a neighbour is greater |
| RelayRules.RingElection | unpacked/protolib/examples/graphRider.cpp:476-481 | in a ring of four the smallest node declines, by the detour over the opposite one, if and only if that one has no stale flag |
| RelayRules.LongRingElects | unpacked/protolib/examples/graphRider.cpp:476-481 | in a ring of five it is elected over any flags, since the link opposite to it may not be used |
| RelayRules.PriorityElects | unpacked/protolib/examples/graphRider.cpp:401-406 | with the greatest priority it is elected in the ring of four too |
| RelaySelection.RunHasMeaning | unpacked/protolib/examples/graphRider.cpp:344-534 | every decision and all flags of a run, in terms of walks in the local mesh |
| RelaySelection.ScanNbrs | unpacked/protolib/examples/graphRider.cpp:373-441 | finds the greatest neighbour in the election order, clears exactly the neighbours' flags, and tells whether the node beats them all |
| RelaySelection.PathSearch | unpacked/protolib/examples/graphRider.cpp:454-508 | the worklist search ends and has flagged, besides the stale flags, exactly the nodes that a trail through greater nodes reaches |
| RelaySelection.Expand | unpacked/protolib/examples/graphRider.cpp:471-508 | one dequeued node is expanded: the search invariant is kept and the queue shrinks unless a new node was flagged |
| RelaySelection.FollowLink | unpacked/protolib/examples/graphRider.cpp:477-506 | a link is followed exactly if one of its ends is next to the node served and it leads to another, unvisited node, which is queued exactly if greater |
| RelaySelection.FindUnvisited | unpacked/protolib/examples/graphRider.cpp:510-521 | true exactly if some neighbour's flag is not set |
| RelaySelection.SearchDecision | unpacked/protolib/examples/graphRider.cpp:454-531 | after the path search the node is relay exactly if a neighbour stayed unvisited |
| RelaySelection.RunIsElection | unpacked/protolib/examples/graphRider.cpp:344-534 | the relay list of a run, whatever flags it started from, is an outcome of the election rule |
| RelaySetTheorem.RelaysConnected | unpacked/protolib/examples/graphRider.cpp:354-534 | two relays of one component are joined by a walk of relays only, for any priorities and flags |
| RelaySetTheorem.ShrinkToRelays | unpacked/protolib/examples/graphRider.cpp:354-534 | when every non-relay is bypassed, non-relays can be taken out of the allowed nodes in increasing order without disconnecting relays |
| RelaySetTheorem.Detour | unpacked/protolib/examples/graphRider.cpp:454-521 | two neighbours of the least non-relay that is bypassed are joined without it |
| RelaySetTheorem.ElectedIsSpanned | unpacked/protolib/examples/graphRider.cpp:454-521 | every node that graphRider declines is bypassed by its path search, whatever flags it started from |
| RelaySetTheorem.TopNbrIsRelay | unpacked/protolib/examples/graphRider.cpp:373-521 | the greatest neighbour of a declining node with two or more neighbours is itself a relay |
| RelaySetTheorem.CoveredUnlessOrphan | unpacked/protolib/examples/graphRider.cpp:362-532 | a node is a relay or next to one if and only if it is no orphan and in no orphan pair |
| RelaySetTheorem.OrphanIffSmallComponent | unpacked/protolib/examples/graphRider.cpp:873 | orphans and orphan pairs are exactly the components of one node, or of two without self links |
| RelaySetTheorem.SelfLinkedPairHasRelay | unpacked/protolib/examples/graphRider.cpp:873 | a component of two nodes, one linked to itself, whose nodes are not left over |
| RelaySetTheorem.RelaysFormCDS | unpacked/protolib/examples/graphRider.cpp:344-534 | every election outcome is a connected dominating set of all but the small components |
| RelayRules.ExampleWithinRider | unpacked/protolib/examples/graphExample.cpp:601-711 | a node elected with the 2-hop test and cleared flags is also elected by the 1-hop test over any stale flags |
| RelayRules.FlagsOutOfReach | unpacked/protolib/examples/graphExample.cpp:601-700 | flags outside the 2-hop neighbourhood never influence a path search |
| RelayRules.ExampleRule | unpacked/protolib/examples/graphExample.cpp:581-711 | graphExample elects a node if and only if it has two neighbours or more and, when a node within two links is above it, some neighbour is not reached from the greatest by such a walk over clean flags |
| RelaySetTheorem.ExampleRelaysAreRiderRelays | unpacked/protolib/examples/graphExample.cpp:572-721 | graphExample's relays are among graphRider's for every initial flag assignment |
| RelaySetTheorem.SuppressedApart | unpacked/protolib/examples/graphExample.cpp:601-660 | no two adjacent nodes are both suppressed by the 2-hop test |
| RelaySetTheorem.SuppressedIsCovered | unpacked/protolib/examples/graphExample.cpp:601-711 | a suppressed node always has an elected neighbour |
| RelaySetTheorem.UncoveredIffStranded | unpacked/protolib/examples/graphExample.cpp:601-711 | outside small components a node is left without a relay if and only if it declines and every neighbour that graphRider would elect is suppressed |
| RelaySetTheorem.LeafIsNotStranded | unpacked/protolib/examples/graphExample.cpp:586-594 | a leaf is covered unless its neighbour is linked to itself |
| RelaySetTheorem.StrandedAtWeak | unpacked/protolib/examples/graphExample.cpp:601-711 | the greatest neighbour of a stranded node is weak |
| RelaySetTheorem.DeclinedIsBypassed | unpacked/protolib/examples/graphExample.cpp:601-711 | every node graphExample declines is bypassed, unless it is weak and severs elected nodes |
| RelaySetTheorem.ConnectedIffNotSevered | unpacked/protolib/examples/graphExample.cpp:601-711 | graphExample's relays are connected within components if and only if no weak node of the graph stands between elected nodes that are not joined otherwise |
| RelaySetTheorem.ExampleIsCDSIff | unpacked/protolib/examples/graphExample.cpp:572-721 | graphExample elects a connected dominating set if and only if the graph has no stranded node and no weak node that severs elected nodes |
| RelaySetTheorem.ElectedTopsSuffice | unpacked/protolib/examples/graphExample.cpp:572-721 | it does whenever the greatest neighbour of every suppressed node is elected |
| RelaySetTheorem.NoneSuppressedIsCDS | unpacked/protolib/examples/graphExample.cpp:572-721 | with no suppressed node the set is connected and dominating |
| RelaySetTheorem.BridgeIsNotConnected | unpacked/protolib/examples/graphExample.cpp:601-711 | a six-node graph on which graphExample's two relays cover every node but are not joined by relays |
| RelaySetTheorem.KiteIsNotDominated | unpacked/protolib/examples/graphExample.cpp:601-711 | a five-node graph on which graphExample elects one node and leaves another, no orphan, without a relay |
| ExampleSelection.CalculateExampleECDS | unpacked/protolib/examples/graphExample.cpp:572-721 | list, count and status flags are exactly the nodes the rule elects, whatever the flags and the iteration order |
| ExampleSelection.ExampleDecision | unpacked/protolib/examples/graphExample.cpp:581-716 | one node's decision: two neighbours, and either unbeaten within two hops or a neighbour unreachable through greater nodes |
| ExampleSelection.ScanTwoHop | unpacked/protolib/examples/graphExample.cpp:596-660 | finds the greatest neighbour, clears the flags of the whole 2-hop neighbourhood, and tells whether the node beats all of it |
| ExampleSelection.ScanSecondHop | unpacked/protolib/examples/graphExample.cpp:630-650 | the other neighbours of a neighbour are cleared and compared, but for the node itself and its own neighbours |
| ExampleSelection.ExampleListMembers | unpacked/protolib/examples/graphExample.cpp:581-720 | membership in the relay list does not depend on the iteration order |
| EpochColoring.ColorEpoch | unpacked/protolib/examples/graphRider.cpp:820-883 | blue nodes are exactly the relays, red ones exactly the small components and the disconnected list, green ones the rest |
| EpochColoring.ColorRelay | unpacked/protolib/examples/graphRider.cpp:850-871 | one relay and its neighbours leave the disconnected list and get their colours |
| EpochColoring.UncoveredIsSmall | unpacked/protolib/examples/graphRider.cpp:844-882 | the nodes no relay of the list covers are exactly those of small components |
| EpochColoring.NextEpoch | unpacked/protolib/examples/graphRider.cpp:821-884 | one turn of the main loop: the colours are right for the graph read, which is the network read while ids are fresh |
| EpochReaders.GraphRider.ReadNextEpoch | unpacked/protolib/examples/graphRider.cpp:208-341 | lines are applied in order up to the next wait, an error of the input or of the reader, or the end; the returned and the next start time; the graph stays a valid input of relay selection and mirrors the network while ids are fresh |
| EpochReaders.GraphRider.SetLink | unpacked/protolib/examples/graphRider.cpp:310-337 | a link or unlink line changes the graph between the two ids as it changes the network between the two names |
| EpochReaders.GraphRider.InsertNode | unpacked/protolib/examples/graphRider.cpp:249-296 | a known name changes nothing, a new one gets its number unless taken, otherwise the running index |
| EpochReaders.NewNodeId | unpacked/protolib/examples/graphRider.cpp:256-285 | a new node gets the number in its name if no node has it, else the running index, and the index moves beyond it, short of a wrap |
| EpochReaders.AddNodeKeepsFresh | unpacked/protolib/examples/graphRider.cpp:251-285 | ids stay distinct and below the index if and only if the name is known or its id is not 2^32 - 1 |
| EpochReaders.RunKeepsInvariant | unpacked/protolib/examples/graphRider.cpp:208-341 | every run keeps links symmetric, and ids fresh until some node has the last id |
| EpochReaders.ReachableIdsDistinct | unpacked/protolib/examples/graphRider.cpp:251-337 | in every reachable state links are symmetric, and ids are distinct and below the index if and only if no node has the id 2^32 - 1 |
| EpochReaders.WrappedIndexCollides | unpacked/protolib/examples/graphRider.cpp:265-281 | an input of three nodes after which two of them share an id |
| EpochReaders.GraphRider.SnapshotIsNetwork | unpacked/protolib/examples/graphRider.cpp:287-337 | while ids are fresh, relay selection runs on exactly the nodes and links read |
| ManetGraphs.ManetGraph.Connect | unpacked/protolib/src/manet/manetGraph.cpp:842-884 | a duplex link is added in both directions and no other link changes |
| ManetGraphs.ManetGraph.Disconnect | unpacked/protolib/src/common/protoGraph.cpp:889-894 | a duplex link is removed in both directions and no other link changes |
| ManetGraphs.ManetGraph.InsertNode | unpacked/protolib/src/manet/manetGraph.cpp:713-750 | a new node joins without links |
| ManetGraphs.ManetGraph.Snapshot | unpacked/protolib/examples/graphRider.cpp:381-406 | the comparison of priorities and ids is the election order of the mesh, whose links are those of the queues |
| ManetGraphs.ElectionOrder | unpacked/protolib/examples/graphRider.cpp:381-406 | the order is by the priority set, or the number of adjacencies less the multiples of 256 in it, and by id between equals |
| RangeGraphs.UpdateGraphFromSpace | unpacked/protolib/examples/graphExample.cpp:464-569 | from any symmetric graph, the result links two distinct nodes if and only if their distance is at most 300, stays symmetric, and keeps a self link only where nothing is out of range |
| RangeGraphs.UpdateNode | unpacked/protolib/examples/graphExample.cpp:470-567 | one node's turn gives it exactly the wanted links and changes no link between other nodes |
| RangeGraphs.DropFormer | unpacked/protolib/examples/graphExample.cpp:549-563 | exactly the links to the former neighbours left on the list are removed |
| RangeGraphs.MetInRange | unpacked/protolib/examples/graphExample.cpp:505-547 | stopping at the first node beyond the range misses no node within it |
| PathCounter.CountPaths | unpacked/protolib/examples/graphXMLExample.cpp:758-801 | gets through if and only if no trail goes deeper than the limit and no path ends beyond the array; then it returns the number of simple paths, adds them to the array by length and restores every visited flag |
| PathCounter.TooDeepIsHeight | unpacked/protolib/examples/graphXMLExample.cpp:763-797 | the recursion reaches exactly as deep as the longest trail: links into unvisited nodes, no repeats, nothing after the destination |
| PathCounter.CountNbr | unpacked/protolib/examples/graphXMLExample.cpp:781-797 | one round of the loop adds the paths through one neighbour |
| PathCounter.PathsAreSimple | unpacked/protolib/examples/graphXMLExample.cpp:758-801 | the enumerated paths are exactly the simple paths that avoid visited nodes |
| PathCounter.HeightBound | unpacked/protolib/examples/graphXMLExample.cpp:763 | the recursion is never deeper than the number of unvisited nodes |
| PathCounter.CalculatePaths | unpacked/protolib/examples/graphXMLExample.cpp:723-757 | counts if and only if no trail is deeper than 20 and no path has 20 links; exits only for the one and overruns its array only for the other |
| PathCounter.LineOverruns | unpacked/protolib/examples/graphXMLExample.cpp:748-751 | a line of 21 nodes, no trail of which is too deep, whose one path is written past the end of the array |
| PathCounter.ChainExits | unpacked/protolib/examples/graphXMLExample.cpp:763 | a chain of 22 nodes beside the destination: there is no path, and the program exits |
| PathCounter.SmallGraphsFit | unpacked/protolib/examples/graphXMLExample.cpp:748-750 | graphs of up to twenty nodes have no trail too deep and no path too long |
| Histograms.Histogram.Tally | unpacked/TRPR/hcat.cpp:130-209 | the range becomes the one that reaches the value, count and sum grow by exactly what was tallied, and every bin keeps its place |
| Histograms.TallyAll | unpacked/TRPR/hcat.cpp:481-538 | after any input, into empty or preset bins, count and sum have grown by exactly the input's and the range holds every value |
| Histograms.Histogram.TallyOutside | unpacked/TRPR/hcat.cpp:144-192 | a value outside the range rebins the histogram to a range that holds it, without losing a count |
| Histograms.Histogram.Rebin | unpacked/TRPR/hcat.cpp:144-192 | the new bins over the wider range hold the same count and sum, each mean in its bin |
| Histograms.ScaledIndex | unpacked/TRPR/hcat.cpp:144-207 | scaling before raising, as the rebinning loop does, gives the index that tallying gives |
| Histograms.MeansOrdered | unpacked/TRPR/hcat.cpp:271-295 | non-empty bins are ordered by mean, strictly unless the range is one point |
| Histograms.NothingBeyond | unpacked/TRPR/hcat.cpp:284-285 | once a mean is beyond the range no later bin is inside it, so the early break is sound |
| Histograms.Histogram.Count | unpacked/TRPR/hcat.cpp:226-241 | the sum of all bin counts |
| Histograms.Histogram.CountInRange | unpacked/TRPR/hcat.cpp:271-295 | with its early break, the count of all bins whose mean is in range |
| Histograms.Histogram.PercentageInRange | unpacked/TRPR/hcat.cpp:243-269 | the same count by a full scan, as a percentage; undefined exactly when nothing was counted |
| Histograms.Histogram.Percentile | unpacked/TRPR/hcat.cpp:298-318 | the first bin edge up to which more than n*q - 1/2 of the n values lie; undefined exactly when the goal is too negative to convert |
| Histograms.PercentileReachesGoal | unpacked/TRPR/hcat.cpp:298-318 | the count up to the percentile reaches the rounded goal and every earlier bin falls short of it |
| Histograms.PercentileSplits | unpacked/TRPR/hcat.cpp:298-318 | of n values, the percentile for q is the first bin edge up to which more than n*q - 1/2 lie: the lower end if that is negative, the upper one if n do not exceed it |
| Histograms.MedianOfThree | unpacked/TRPR/hcat.cpp:298-318 | of the values 0, 5 and 10 in three bins the median is 5 |
| Histograms.PercentileMonotone | unpacked/TRPR/hcat.cpp:298-318 | percentiles grow with the fraction asked for |
| Histograms.UpToEdge | unpacked/TRPR/hcat.cpp:306-313 | up to the edge of a bin lie exactly that bin and the earlier ones |
| Histograms.IndexVsEdge | unpacked/TRPR/hcat.cpp:306-313 | a value is at most the edge of a bin if and only if its own bin is not a later one |
| Histograms.LinearIsPower | unpacked/protolib/examples/timerTest.cpp:194 | linearity 1.0 meets everything assumed of the power function |
| LossTracking.SeqDeltaIsCircular | unpacked/TRPR/trpr.cpp:744-751 | congruent to the difference, within half the space, zero only on equality, antisymmetric also at the tie |
| LossTracking.LossTracker3.Update | unpacked/TRPR/trpr.cpp:786-858 | bitmap, offset, newest packet and counters move as the tests on sequence numbers say (up to 0x3fffffff behind the bitmap is ignored, farther behind is an outage, 2016 or more ahead clears it), which is exactly as the abstract window does; times and result |
| LossTracking.ObserveMoves | unpacked/TRPR/trpr.cpp:801-858 | the abstract step on absolute positions is, for every packet, what the code does to its 32-bit offset, its flags and its counters |
| LossTracking.LossTracker3.IsDuplicate | unpacked/TRPR/trpr.cpp:778-783 | near the window, true if and only if a packet of that sequence number is recorded in it; after a faithful run, if and only if one was received inside the window |
| LossTracking.DuplicateIffReceived | unpacked/TRPR/trpr.cpp:786-858 | after any run of tame packets, without outages and with far jumps only to numbers with remainder below 32, a packet counts as a duplicate if and only if its number was received inside the window |
| LossTracking.JudgesRightIffTame | unpacked/TRPR/trpr.cpp:786-858 | one packet more keeps this true of every next packet if and only if it is tame |
| LossTracking.FaithfulRunRecords | unpacked/TRPR/trpr.cpp:786-858 | over such runs the flags inside the window are exactly the packets received |
| LossTracking.FarJumpMisleads | unpacked/TRPR/trpr.cpp:836-846 | after packets 0 and 2080, a repeat of 2080 is not counted and 2048, never received, counts as a duplicate |
| LossTracking.LossTracker3.Reset | unpacked/TRPR/trpr.cpp:729-735 | counting starts anew at the newest packet and the bitmap stays |
| LossTracking.LossTracker3.LossFraction | unpacked/TRPR/trpr.cpp:872-879 | the share of the expected packets that were not counted; undefined before the first packet |
| LossTracking.ExpectedIffNoWrap | unpacked/TRPR/trpr.cpp:874-875 | the number expected is that of the positions from first to newest if and only if no wrap was counted and they span at most half the sequence space |
| LossTracking.WrapCountsTwice | unpacked/TRPR/trpr.cpp:874-875 | after the two packets 2^32 - 1 and 0, more than 2^32 are expected |
| LossTracking.LossIsMissing | unpacked/TRPR/trpr.cpp:872-879 | over a clean run without a wrap, expected less counted is the number of positions missing, less those recorded from before the first packet |
| LossTracking.LossTracker3.Shift | unpacked/TRPR/trpr.cpp:824-844 | the bitmap moves with its offset, or is cleared when the jump is too far |
| LossTracking.MarkedIsPosition | unpacked/TRPR/trpr.cpp:836-846 | the flag set stands for the packet's sequence number if and only if it is near, or jumped far with a remainder modulo 64 below 32 |
| LossTracking.DuplicateIffFlagged | unpacked/TRPR/trpr.cpp:845-858 | a packet near the window finds its flag set if and only if its sequence number was recorded in the window |
| LossTracking.ObserveSound | unpacked/TRPR/trpr.cpp:786-858 | every packet keeps the window aligned, and the newest packet within a word of its end |
| LossTracking.WrapsCounted | unpacked/TRPR/trpr.cpp:816-820 | the wrap counter moves exactly with the cycles of the newest position |
| LossTracking.CleanRunRecords | unpacked/TRPR/trpr.cpp:786-858 | over a run without far jumps or outages, the recorded positions are exactly the accepted packets, and the counters count new ones, repeats and wraps |
| LineReading.FastReader.Read | unpacked/TRPR/trpr.cpp:4102-4191 | bytes delivered and bytes still pending are together the bytes pending before, for every result |
| LineReading.FastReader.Readline | unpacked/TRPR/trpr.cpp:4197-4252 | a line is the bytes up to the next terminator; on a timeout everything is pending again; the end of the file, an error and an overlong line are told apart |
| LineReading.FastReader.PushBack | unpacked/TRPR/trpr.cpp:4222-4241 | the partial line is pending again, but for what does not fit the save buffer |
| LineReading.ReadAllLines | unpacked/TRPR/trpr.cpp:4197-4252 | for every schedule of chunks and timeouts the lines read are those of the whole text, if they fit and nothing breaks |
| LineReading.LostIffSkipped | unpacked/TRPR/trpr.cpp:4141-4176 | the text delivered is the whole file if and only if no chunk starts with a byte that is not text |
| LineReading.SkippedLineIsLost | unpacked/TRPR/trpr.cpp:4163-4167 | a file whose only line is not read because it starts with such a byte |
| LineReading.UnterminatedLineIsLost | unpacked/TRPR/trpr.cpp:4246-4247 | a file whose only line is not delivered because nothing ends it |
| FlowRates.CauchySchwarz | unpacked/TRPR/trpr.cpp:1177-1203 | the square of the weighted sum is at most the sum of squares times the weight |
| FlowRates.SummaryBounds | unpacked/TRPR/trpr.cpp:1197-1203 | after any non-empty run of positive weights the mean lies within the bounds and the variance is not negative |
| FlowRates.Flow.UpdateSummary | unpacked/TRPR/trpr.cpp:1177-1196 | the running sums, minimum and maximum are those of all samples so far |
| FlowRates.Flow.SummaryAverage | unpacked/TRPR/trpr.cpp:1197 | the weighted mean of all samples, between minimum and maximum; not a number exactly without samples |
| FlowRates.Flow.SummaryVariance | unpacked/TRPR/trpr.cpp:1198-1203 | the weighted variance of all samples, never negative; not a number exactly without samples |
| FlowRates.Flow.PlotWindow | unpacked/TRPR/trpr.cpp:4347-4384 | closing a window moves the pending bytes into the plotted total |
| FlowRates.Flow.PlotGap | unpacked/TRPR/trpr.cpp:4423 | the empty windows of a gap keep the balance |
| FlowRates.UpdateWindowPlot | unpacked/TRPR/trpr.cpp:4255-4451 | every flow stays balanced over the closed window and the counted gap, with nothing pending and no byte lost |
| FlowRates.RateMonitor.OnEvent | unpacked/TRPR/trpr.cpp:2690-3133 | exactly the matching flows gain the bytes; a flow is added for every matching pattern, with these bytes, unless a matching flow was discovered before; the windows plotted are exactly those the boundaries move by, the fewest that hold the event; every flow stays balanced |
| FlowRates.RateMonitor.ProcessTrace | unpacked/TRPR/trpr.cpp:2573-3133 | over a whole trace the bytes of all flows grow by what its events hand out, and every flow stays balanced: kilobits plotted and pending are those of all bytes added, and its weight is the windows elapsed since it joined |
| FlowRates.EventLaw | unpacked/TRPR/trpr.cpp:2741-3127 | flows keep their place, the listed ones gain the packet's bytes, and new ones with these bytes are added exactly if no listed flow was discovered earlier |
| FlowRates.BytesConserved | unpacked/TRPR/trpr.cpp:2573-3133 | over any trace the bytes of all flows together grow by the size of every packet times the flows it matches or creates |
| FlowRates.WindowsTile | unpacked/TRPR/trpr.cpp:2690-3133 | the windows plotted over any trace and the open one tile the time since the first event |
| FlowRates.StepsCover | unpacked/TRPR/trpr.cpp:4393-4400 | the number of windows counted is the least that reaches the time |
| FlowRates.RateMonitor.CreditListed | unpacked/TRPR/trpr.cpp:2745-2827 | the packet is added to every listed flow it matches; tells whether a discovered one matched |
| FlowRates.RateMonitor.AdvanceWindow | unpacked/TRPR/trpr.cpp:3129-3133 | the boundaries move by the fewest windows that hold the time |
| FlowRates.RateMonitor.Finish | unpacked/TRPR/trpr.cpp:3155-3173 | at the end of the input, whatever its last time, every byte of every flow has been plotted and the weight counts the last window and the gap after it |
| FlowRates.AverageIsOverallRate | unpacked/TRPR/trpr.cpp:3445 | once all is plotted, the average times the time since the flow joined is all its kilobits |
| TingSessions.TingSession.Initiate | unpacked/protolib/examples/ting.cpp:1460-1493 | starts a session only when idle; the state, counters, timer and stored callback afterwards |
| TingSessions.TingSession.HandleHail | unpacked/protolib/examples/ting.cpp:910-935 | an idle session connects without requests of its own; a failed answer resets it |
| TingSessions.TingSession.HandleReply | unpacked/protolib/examples/ting.cpp:937-973 | a matching reply starts the next round while rounds remain |
| TingSessions.TingSession.OnSessionTimeout | unpacked/protolib/examples/ting.cpp:1208-1247 | a timeout resends while retries remain, else the session is idle; either way a stored callback is called |
| TingSessions.RunKeepsBound | unpacked/protolib/examples/ting.cpp:910-1247 | in every run messages sent are bounded by the opening, the rounds started and the retries used |
| TingSessions.SendsHaveCauses | unpacked/protolib/examples/ting.cpp:910-1247 | in every run each message sent after the first comes from a round or a timeout |
| TingSessions.SendBound | unpacked/protolib/examples/ting.cpp:910-1247 | at most 5 HAIL and REQUEST messages with a callback (4 for an answerer), 24 without one (18), under every interleaving with fewer than 2^32 replies |
| TingSessions.OneTimeout | unpacked/protolib/examples/ting.cpp:1239-1243 | with a callback the first timeout stops the program |
| TingSessions.SessionEnds | unpacked/protolib/examples/ting.cpp:910-1247 | a session ends, or the program, with the first timeout if there is a callback, otherwise with the 21st (16th for an answerer) at the latest |
| TingSessions.LimitIsReached | unpacked/protolib/examples/ting.cpp:910-1247 | for every kind of session a run that sends as many messages as the limit allows |
| TingSessions.WrapBreaksLimit | unpacked/protolib/examples/ting.cpp:956 | without a callback, an untimed run of 2^32 replies that sends one message more |
| TingReports.TingMessage.AppendReport | unpacked/protolib/examples/ting.cpp:775-794 | appends exactly one encoded report, whose 32-bit fields are the numbers given if they fit and congruent to them otherwise, or refuses for lack of room and changes nothing |
| TingReports.TingMessage.WriteReport | unpacked/protolib/examples/ting.cpp:783-788 | the setters write the wire format of the report and nothing before it |
| TingReports.TingMessage.GetNextReport | unpacked/protolib/examples/ting.cpp:169-178 | on any message, moves behind the report held and succeeds exactly if a whole report is left there |
| TingReports.TingMessage.ReadReports | unpacked/protolib/examples/ting.cpp:1082-1088 | the receiver's loop yields every field of the reports appended, in order, but for port and success of an IPv6 address, and stops |
| TingReports.TingMessage.Continues | unpacked/protolib/examples/ting.cpp:821-838 | after any number of reports the iteration finds the next one appended, and stops behind the last |
| TingReports.WireLayout | unpacked/protolib/examples/ting.cpp:225-304 | a report byte by byte: 7 or 10 words, round id, port, host, and five numbers with the most significant byte first |
| TingReports.DecodeEncode | unpacked/protolib/examples/ting.cpp:840-886 | the getters undo the setters at any place of a buffer, except for port and success of an IPv6 address |
| TingReports.HostRoundTrips | unpacked/protolib/examples/ting.cpp:870-886 | the host always survives; success is reported if and only if it is IPv4, and the port survives if and only if it is IPv4 or zero |

## Left out

- Iteration order: interfaces come in the order of a list, any order; the repository sorts them by key.
- Multiple interfaces per node: both graph drivers create one, so a node and its interface are the same here.
- Memory allocation failures and the error returns they cause.
- Parsing of text lines with sscanf, printing, plotting and all other output; input lines arrive parsed.
- Floating point: times, distances, rates and histogram values are reals without rounding.
- The power function of the histogram: any monotone, multiplicative function with an inverse; linearity one is proved to be such.
- Overflow of packet, byte, path and bin counters, which are unbounded here; sequence numbers, node ids and the round counter of ting do wrap.
- Histograms.Histogram.AddValue: a repeated value in a range of one point is put into any bin, because the code divides zero by zero there.
- Histograms.Histogram.InitBins: a preset range must not be reversed.
- Histograms.Histogram.Percentile: at least two bins, as for one bin the code divides zero by zero.
- PathCounter.CalculatePaths: at least two interfaces; when a trail is too deep and a path overruns the array as well, which comes first depends on the order of the adjacency queues and is left open.
- PathCounter.CountPaths: starts from a node that is not visited, as all its calls do.
- FlowRates.Flow.UpdateSummary: does not tally the flow's histogram, whose Tally is modelled on its own, because no RATE result depends on it.
- ManetGraphs.ManetGraph.InsertNode: a second node with an id that is taken, which only the wrapped index produces; the code then keeps two interfaces with one key.
- FlowRates.RateMonitor.OnEvent: RATE mode with a positive window and without duplicate discarding; how a packet matches a flow is a parameter.
- LossTracking.LossTracker3.Update: the flag of a packet is numbered by its index modulo 32, the bit that a 32-bit shift selects.
- LineReading.FastReader.Read: Seek and the copies of this reader in other programs are not modelled; what select and fread yield is a schedule of events.
- TingSessions.TingSession.HandleHail: round-trip times, backoff and observations are left out, as are multicast sessions; the machine has no clock.
- TingReports.TingMessage.AppendReport: the round-trip time is given as the integer the code stores; message headers and flags are left out.
- The trackers LossTracker and LossTracker2, and the other plot modes of trpr.
- graphXMLExample's own relay selection, whose ids are sums of characters and not distinct.
- Dijkstra, priority queues, ProtoTree, the internals of ProtoSpace, packet building, sockets, timers and the other Protolib classes.
