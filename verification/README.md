# Verification model of Goroscope

Goroscope records the goroutines of a running Go program, keeps their history in an analysis engine and shows it;
its web client can export what it shows as an animated GIF. This project models the three parts of it that carry
the most state and arithmetic, and proves what they are for.

**The animated-GIF encoder.** A variable-width LZW compressor over a direct-addressed table, a bit packer, sub-blocks,
a growable byte buffer, median-cut quantisation and a memoised nearest-colour lookup. The repository has no decoder:
`GifDecoder` is the decoder of Appendix F of GIF89a, `GifReader` a parser of its block layouts (sections 15 to 20, 22, 23,
26 and 27), and the encoder is proved to be undone by them, bit by bit and file by file. The one place
where the encoder differs from what a decoder expects, the width of the end code, is described exactly: when it is lost,
as a condition on the number of codes written, carried to the whole file, and a stream that loses it.

**The analysis engine.** `Engine` is the mutable object behind the lock, one method to a locked operation. Its fields
are tied to the pure step functions of `EngineCore`, `EngineLive`, `EngineDelta` and `EngineExport`, and what the
engine promises is proved of those over all runs: every field of a record is what the goroutine's first, last or
deciding event says (`EngineRecords`), the timeline is the meaning of the event log, retention keeps the
most recent suffix, the live path gives what loading a capture gives, an export loads back, deltas bring a client up
to date, and clean caches are right. Where a delta falls short or a cache goes stale the exact condition is proved,
operation by operation, with a run that ends there (`EngineExamples`, `RequestExample`). `XBuilder` and `StreamBuilder`
read the same trace transitions into a capture and into an engine, and end in the same state, which `TraceRecords`
reads off the trace. `EngineCoverage` states the timeline in terms of single events.

**Graph, interval and tree algorithms.** Two cycle detectors that agree, canonical cycle keys, deadlock hints, the
sweep line, the difference-array heatmap, request groups by breadth-first search, and the call tree of the flamegraph,
each against an independent definition: walks, instants, brute-force counts, chains of parents, lists of paths. Which
cycle a search closes depends on the order of the edges; `DeadlockOrders` says exactly when every order gives a hint.

Times are natural numbers of nanoseconds with 0 for Go's zero time; ids are integers with 0 for none; Go maps are
walked in an arbitrary order (`Collections.Pick`) and `sort.Slice` is a sort that may reorder ties
(`Collections.SortSlice`). A locked section is one step.

## Where the code and its comments differ

The model follows the code.

- `internal/analysis/engine.go:95-98` says the contention cache is marked whenever segments change and the groups
  cache whenever labels or stacks change. A stack snapshot can lengthen a derived segment without marking the former,
  and new parents can change the groups without marking the latter.
- `internal/analysis/engine.go:719-723` says a delta holds the goroutines that changed since a revision, and that
  revision 0 gives a full snapshot. Snapshots, parents and labels change a goroutine without stamping it, so deltas do
  not carry them, and a goroutine known only from a stack snapshot is missing even from revision 0.
- `internal/analysis/graph.go:131-132` speaks of the cycles of the graph. The code considers one cycle per start node,
  the first its search closes, so a self edge or a running goroutine's cycle can hide a deadlock, and whether it does
  depends on the order of the edges.
- `web/src/gif/encoder.ts:2-10` speaks of a GIF89a encoder without qualification. When the last data code would have
  filled the table to a power of two, the end code goes out one bit narrower than Appendix F reads it; if no padding bit
  follows, a reader does not meet it.

## Model

| member | source | states |
|---|---|---|
| `GifLzwRoundTrip.PixelsRoundTrip` | web/src/gif/encoder.ts:229-274 | For every non-empty index stream, an Appendix F decoder that asks for any number of leading pixels gets exactly those, whatever bits follow the codes: across codes used before they are defined and any number of full-table clears |
| `GifLzwRoundTrip.EncodeDecodes` | web/src/gif/encoder.ts:246-271 | The decoder run on the data codes emitted so far holds the encoder's table one entry behind, and its pixels plus the pending prefix are the stream so far |
| `GifLzwRoundTrip.ReadsEmitted` | web/src/gif/encoder.ts:233-241 | The code emitted has the width the decoder is about to read, and stands for the pending prefix there even when its entry is still open |
| `GifLzwRoundTrip.ExtendDecodes` | web/src/gif/encoder.ts:246-271 | One more index keeps encoder and decoder in step: prefix found, new entry, table-full clear |
| `GifLzwRoundTrip.WidthsAgree` | web/src/gif/encoder.ts:257-266 | Growing when the next free code passes 2^width is growing when a table one entry behind fills 2^width; the table is never full below width 12 |
| `GifLzwRoundTrip.DataDecodes` | web/src/gif/encoder.ts:244-273 | The last data code adds exactly the pending prefix, and decides by one table entry which width the decoder expects next |
| `GifLzwRoundTrip.EndCodeRead` | web/src/gif/encoder.ts:273-275 | A decoder that reads on after the last pixel meets the end code if and only if that code is not a bit too narrow or a padding bit follows it |
| `GifLzwRoundTrip.PaddedCode` | web/src/gif/encoder.ts:273-275 | A code read one bit too wide has its value if and only if a zero padding bit is there to be read |
| `GifLzwEndCode.LostIff` | web/src/gif/encoder.ts:257-275 | At the code size the encoder is called with, the end code is too narrow and unpadded if and only if the table holds 512, 1024 or 2048 strings when the last code goes out and the tables filled before it number 1, 2 or 3 modulo 8 |
| `GifLzwEndCode.EndCodeLost` | web/src/gif/encoder.ts:273-275 | A stream of 4093 pixels over 256 colours, one full table and 255 codes: every pixel comes back and the end code is not met |
| `GifLzw.ExtendSound` | web/src/gif/encoder.ts:246-271 | Every step keeps the roots at the front of the table, the table short of full, the width the least that holds it and at most 12, and the prefix a string of the table |
| `GifLzw.CodesDistinct` | web/src/gif/encoder.ts:246-271 | After any stream no two codes stand for one string, and all of a string but its last index has a code too |
| `GifLzw.StartSound` | web/src/gif/encoder.ts:223-244 | The table after a reset: the single-index strings, the clear and end codes, the least width |
| `GifBits.BitPacker.Emit` | web/src/gif/encoder.ts:233-241 | Codes go out least bit first; fewer than eight bits stay pending and the buffer stays below two to that many |
| `GifBits.BitPacker.Flush` | web/src/gif/encoder.ts:275 | The last partial byte is the pending bits, zeros on top, and no byte is added when none are pending |
| `GifBits.OrIsAdd` | web/src/gif/encoder.ts:234 | On 32-bit words whose low bits are the pending ones, or-ing a shifted code in is adding it, and no bit is lost |
| `GifCompress.TableAdd` | web/src/gif/encoder.ts:219-221 | The direct-addressed table after one assignment holds the old strings and the extended one, and nothing else |
| `GifCompress.CompressOne` | web/src/gif/encoder.ts:246-271 | The loop body, on the table array, width, next code, prefix and packer, takes the step of the abstract encoder |
| `GifCompress.CompressToPacker` | web/src/gif/encoder.ts:212-275 | The bits emitted are the clear code, the data codes and the end code of the abstract encoder, each at its width |
| `GifCompress.LzwCompress` | web/src/gif/encoder.ts:212-287 | The bytes returned de-block to bits from which every leading run of the pixels can be read, and end with the terminator |
| `GifCompress.ImageDataReads` | web/src/gif/encoder.ts:277-287 | Image data inside a longer stream ends where it ends, holds exactly the compressed bits, and any leading pixels come back from it |
| `GifCompress.ImageDataEnds` | web/src/gif/encoder.ts:273-286 | For the bytes as blocked and padded: the end code is met if and only if it is not too narrow or the bits do not fill their last byte |
| `GifCompress.BlocksDeblock` | web/src/gif/encoder.ts:277-285 | Sub-blocks of 1 to 255 bytes and a terminator give the bytes back and leave what follows |
| `GifCompress.ToBlocks` | web/src/gif/encoder.ts:277-286 | The packing loop writes exactly those sub-blocks |
| `GifByteWriter.ByteWriter.Ensure` | web/src/gif/encoder.ts:34-40 | Growing the buffer keeps what has been written and makes room for what is asked |
| `GifByteWriter.ByteWriter.Byte` | web/src/gif/encoder.ts:42-45 | One byte, modulo 256, after what was there |
| `GifByteWriter.ByteWriter.LE16` | web/src/gif/encoder.ts:47-51 | Two bytes, low one first |
| `GifByteWriter.ByteWriter.Bytes` | web/src/gif/encoder.ts:53-58 | All the bytes, in order |
| `GifByteWriter.ByteWriter.AsciiText` | web/src/gif/encoder.ts:60-65 | The low bytes of the characters, in order |
| `GifByteWriter.ByteWriter.Finish` | web/src/gif/encoder.ts:67-69 | Exactly what was written, without the spare room |
| `GifPalette.CollectColors` | web/src/gif/encoder.ts:122-135 | Exactly the colours on even rows and columns of any frame, each once |
| `GifMedianCut.WidestBox` | web/src/gif/encoder.ts:82-99 | The first box and channel, in scan order, whose spread no other exceeds |
| `GifMedianCut.CutWidest` | web/src/gif/encoder.ts:103-106 | The box becomes two non-empty halves of the same colours, the first at most one larger, every colour of it not above any of the second along the channel |
| `GifMedianCut.CutPartition` | web/src/gif/encoder.ts:106 | A cut keeps the boxes a partition of the colours into non-empty boxes |
| `GifMedianCut.MeanWithin` | web/src/gif/encoder.ts:109-114 | A box's average lies within the box, channel by channel, after rounding |
| `GifMedianCut.BoxMean` | web/src/gif/encoder.ts:109-114 | The rounded average of every channel |
| `GifMedianCut.RoundedNearest` | web/src/gif/encoder.ts:113 | The average is a nearest whole number, halves going up |
| `GifMedianCut.FlatBoxesAreFew` | web/src/gif/encoder.ts:101 | Stopping early means every box is one colour: without repeats there are as many boxes as colours |
| `GifMedianCut.MedianCut` | web/src/gif/encoder.ts:74-115 | No colours give black, few are kept as they are, many become the averages of a partition into at most the allowed number of boxes, exactly that number when no colour repeats |
| `GifQuantize.NearestIndex` | web/src/gif/encoder.ts:157-164 | The first of the closest palette entries |
| `GifQuantize.ExactWhenPresent` | web/src/gif/encoder.ts:157-164 | A colour that is in the palette is represented by itself |
| `GifQuantize.DistancePerChannel` | web/src/gif/encoder.ts:157-164 | The distance minimised is the sum over the channels of the squared differences |
| `GifQuantize.BuildPaletteAndMap` | web/src/gif/encoder.ts:141-169 | The memo is right wherever it is defined and covers every sampled colour; at most 256 sampled colours are all in the palette |
| `GifQuantize.QuantizeFrame` | web/src/gif/encoder.ts:172-203 | Every pixel goes to a closest palette entry, remembered or not, and the memo stays right |
| `GifFile.FileReadsBack` | web/src/gif/encoder.ts:307-357 | Parsing the bytes of a file by the block layouts of GIF89a gives the screen, the palette, the loop count and every frame's control, place, indices and whether its end code is met |
| `GifFile.EndsUnlessLost` | web/src/gif/encoder.ts:333-351 | An image of a full frame is followed by its end code exactly when the compressor does not lose it |
| `GifFile.ReadFrame` | web/src/gif/encoder.ts:331-351 | One frame's control block, descriptor and image data parse to that frame, no index transparent, and leave the rest |
| `GifFile.ReadHead` | web/src/gif/encoder.ts:311-322 | Signature, screen descriptor and global table parse to the size, eight bits a colour, background 0, aspect 0 and the palette |
| `GifFile.ReadControl` | web/src/gif/encoder.ts:336-341 | A control block parses to its delay, disposal 2, no user input and no transparent index |
| `GifFile.ReadLoop` | web/src/gif/encoder.ts:324-329 | The application extension parses to a loop count of 0, for ever |
| `GifEncoder.EncodeAnimatedGif` | web/src/gif/encoder.ts:299-358 | No frames, no file; otherwise the file reads back as the frames, every pixel shown in a closest palette colour, none transparent, each frame restored to the background after its delay, each image followed by its end code if and only if the compressor does not lose it; every sampled colour is kept when there are at most 256 |
| `GifEncoder.EncodeFrame` | web/src/gif/encoder.ts:333-351 | One frame appends exactly its blocks, for indices that depict its pixels |
| `GifEncoder.SampledPixelsExact` | web/src/gif/encoder.ts:299-358 | In such a file a pixel of a sampled colour is shown with exactly the red, green and blue bytes given for it |
| `GifEncoder.SizeSurvives` | web/src/gif/encoder.ts:315-316 | Width, height and delays come back if and only if they fit sixteen bits |
| `CycleSearch.FindCycleSound` | internal/analysis/graph.go:189-215 | A non-empty answer is a simple cycle whose consecutive and closing edges exist, ahead of or on the path searched |
| `CycleSearch.FindCycleComplete` | internal/analysis/graph.go:189-215 | An empty answer means that every walk from the node is simple and never meets the path |
| `CycleSearch.FindCycleExact` | internal/analysis/graph.go:189-215 | From a fresh path the answer is non-empty if and only if a cycle can be reached |
| `CycleSearch.FindCycleFrom` | internal/analysis/graph.go:189-215 | The recursion over the marks and the path computes that answer, restores the marks when it finds nothing, and ends |
| `CycleSearch.FinishedReachNoCycle` | internal/cli/watch.go:309-320 | Nodes the marking search has finished with cannot reach a cycle |
| `CycleSearch.Search.Dfs` | internal/cli/watch.go:306-321 | True only with a walk that returns to itself; otherwise everything visited and off the stack is finished |
| `CycleSearch.HasDeadlockCycle` | internal/cli/watch.go:298-331 | True if and only if a cycle can be reached from a listed node |
| `CycleSearch.DetectorsAgree` | internal/cli/watch.go:298-331 | On one graph and one list of nodes the marking search and the path search answer alike |
| `CycleKeys.CycleKey` | internal/analysis/graph.go:217-238 | The key is the rotation that starts with the least id, written out |
| `CycleKeys.SameKeyIffRotation` | internal/analysis/graph.go:217-238 | Simple cycles have one key if and only if they are rotations of each other |
| `CycleKeys.DecimalWritesOut` | internal/analysis/graph.go:217-238 | Ids are written in decimal: read most significant digit first the text has the id's value, without leading zeros, after a sign where there is one |
| `CycleKeys.WrittenOneWay` | internal/analysis/graph.go:217-238 | No other text does |
| `Deadlock.BuildAdjacency` | internal/analysis/graph.go:139-144 | Successor lists by source node, edges to nobody left out where the code leaves them out |
| `Deadlock.AdjacencyMeans` | internal/analysis/graph.go:139-144 | An edge of the graph is an edge of the list |
| `Deadlock.HasDeadlock` | internal/cli/watch.go:298-331 | On an edge list, true if and only if a listed goroutine reaches a cycle |
| `Deadlock.LastRecordDecides` | internal/analysis/graph.go:134-137 | A goroutine counts as blocked if and only if the last record of its id is waiting, blocked or in a system call |
| `Deadlock.FindDeadlockHints` | internal/analysis/graph.go:133-177 | Every hint is what the search from some node returns, a simple cycle of two or more blocked goroutines; no two are rotations, every such cycle a search returns has its hint, and there are hints if and only if a search returns one |
| `Deadlock.CyclesFound` | internal/analysis/graph.go:133-177 | With no self edges and all endpoints blocked a search returns a cycle worth a hint if and only if the graph has a cycle |
| `DeadlockOrders.TrappedHinted` | internal/analysis/graph.go:133-177 | There is a hint whenever some goroutine reaches a cycle and every simple cycle it reaches is of two or more goroutines, all blocked |
| `DeadlockOrders.HiddenInSomeOrder` | internal/analysis/graph.go:133-177 | If there is no such goroutine the edges can be put in an order that leaves every deadlock without a hint |
| `DeadlockOrders.HintedInEveryOrder` | internal/analysis/graph.go:133-177 | There are hints whatever the order of the edges if and only if there is such a goroutine |
| `DeadlockOrders.SelfEdgeHidesDeadlock` | internal/analysis/graph.go:133-215 | Edges from 1 to itself, 1 to 2 and 2 to 1, both blocked: a deadlock, and the hints returned are empty |
| `Deadlock.DeriveCurrentContentionEdges` | internal/analysis/graph.go:34-63 | Both directions of every pair of blocked goroutines on one resource, and nothing else |
| `Deadlock.ContentionHints` | internal/analysis/graph.go:34-63 | On those edges, with distinct non-zero ids, some search returns a cycle worth a hint if and only if two blocked goroutines share a resource |
| `Contention.PeakConcurrent` | internal/analysis/contention.go:171-200 | The greatest running level; for segments that start before they end, the greatest number under way at one instant |
| `Contention.LevelIsConcurrent` | internal/analysis/contention.go:171-200 | Starts up to an instant less ends up to it are the segments under way then |
| `Contention.StartsOnly` | internal/analysis/contention.go:182-188 | Ends sort before starts of the same instant, so after a start its instant only adds |
| `Contention.SweepExact` | internal/analysis/contention.go:182-199 | The peak over the sorted ticks is the peak over all instants |
| `Heatmap.ComputeResourceContention` | internal/analysis/contention.go:134-164 | One entry for each resource with a segment: peak, count, total and average of its segments |
| `Heatmap.GroupCounts` | internal/analysis/contention.go:135-143 | A resource's group holds the bounds of exactly its segments, as often as they occur; the heatmap leaves out those that do not end after they start |
| `Heatmap.ContentionHeatmap` | internal/analysis/contention.go:37-121 | Empty without a positive resolution or a proper segment; otherwise bins over the whole span, every row counting its resource's segments bin by bin, rows by falling number of segments and then by name, the first of them kept under a limit |
| `Heatmap.Row` | internal/analysis/contention.go:94-117 | Every entry of a difference-array row is the number of segments that overlap its half-open bin |
| `Heatmap.BinsOfSegment` | internal/analysis/contention.go:96-99 | The bins from first to last are exactly those a segment overlaps |
| `Heatmap.ClampsNeverFire` | internal/analysis/contention.go:100-105 | No segment of the span falls outside the bins |
| `Heatmap.PeakWithinRow` | internal/analysis/contention.go:94-117 | Some bin of the row counts at least the peak of the sweep line |
| `StateMachine.Apply` | internal/analysis/state_machine.go:18-72 | The record built field by field is the specified next record |
| `StateMachine.WaitContinuesIffUnchanged` | internal/analysis/state_machine.go:37-71 | A wait is continued if and only if nothing a segment records changes |
| `EngineRecords.LastEventDecides` | internal/analysis/state_machine.go:74-99 | A lifecycle event decides its goroutine's state, reason and liveness alone, whatever came before it |
| `EngineRecords.FirstMeansLog` | internal/analysis/engine.go:872-874 | Over lifecycle events with real times in order by goroutine, a record's creation and birth are the time of its goroutine's first event |
| `EngineRecords.LastMeansLog` | internal/analysis/state_machine.go:18-72 | Over such events a record's state, reason, liveness and last seen time are those of its goroutine's last event |
| `EngineRecords.ResourceMeansLog` | internal/analysis/state_machine.go:37-71 | A wait keeps the resource last named since the goroutine's events began to say the same |
| `EngineRecords.ResourceFromLog` | internal/analysis/state_machine.go:37-71 | A record has a resource only from such an event |
| `EngineRecords.DeathMeansLog` | internal/analysis/engine.go:875-877 | The time of death is that of the first event that ends the goroutine |
| `EngineRecords.NoDeath` | internal/analysis/engine.go:875-877 | The time of death is 0 while no event ended the goroutine |
| `EngineRecords.ParentMeansLog` | internal/analysis/engine.go:866-871 | The parent is that of the first creation that names one, and 0 while none does |
| `EngineRecords.LabelsMeanLog` | internal/analysis/state_machine.go:30-35 | A label is there if and only if some event carried it, with the value of the last that did |
| `EngineTimeline.RecordsFollowLog` | internal/analysis/engine.go:849-891 | A goroutine's record depends on that goroutine's events alone |
| `EngineTimeline.RunFits` | internal/analysis/engine.go:926-956 | In every state reached by lifecycle events with real times in order by goroutine, an open segment shows its goroutine's condition and nothing closed lies beyond it |
| `EngineTimeline.RunCovered` | internal/analysis/engine.go:926-956 | At every instant since a goroutine was first seen one segment shows the record of its events up to then, none for an untracked state |
| `EngineTimeline.TimelineMeansLog` | internal/analysis/engine.go:386-415 | For any log of lifecycle events with real times in order by goroutine: at each instant between first and last event exactly one timeline segment covers the goroutine, showing state, reason and resource after its last event so far, none if that state is done; at other instants none |
| `EngineCoverage.CoveredUnlessEnded` | internal/analysis/engine.go:386-415 | Between a goroutine's first and last event exactly one timeline segment covers it if and only if its last event so far did not end it; the segment shows the state and reason that event says and the resource last named since the events began to agree |
| `EngineCoverage.NotCoveredBefore` | internal/analysis/engine.go:386-415 | Before its first event no segment covers it |
| `EngineTimeline.WaitTimeIsSegment` | internal/analysis/state_machine.go:37-71 | A waiting goroutine's wait time is its last seen time less its open segment's start; any other has wait time 0 and no reason or resource |
| `EngineTimeline.RetentionKeepsRecent` | internal/analysis/engine.go:783-801 | With a cap the records and open segments are those without, and the closed segments a suffix of the full log of at most max and a tenth, whole as long as it fits |
| `EngineLive.Commute` | internal/analysis/engine.go:893-924 | A snapshot of a goroutine already seen commutes with any later event |
| `EngineLive.AttachNew` | internal/analysis/engine.go:893-924 | A goroutine first seen in a stack is created, born and last seen then, alive and in no state |
| `EngineLive.AttachKnown` | internal/analysis/engine.go:893-924 | A known one takes the stack and is seen no earlier than it; nothing else changes |
| `EngineLive.LiveEqualsBatch` | internal/analysis/engine.go:195-240 | Each event with its stack as they come gives the engine that all events and then all stacks give |
| `EngineDelta.SyncExact` | internal/analysis/engine.go:724-753 | After any events, stacks, parents and labels a client of an earlier revision, overwritten by the delta since it, holds the current goroutines if and only if it already held each goroutine without an event since as it is now |
| `EngineDelta.DeltaMeans` | internal/analysis/engine.go:724-753 | The delta holds exactly the goroutines with an event since, additions those without one before |
| `EngineDelta.DeltaSync` | internal/analysis/engine.go:724-753 | Over events alone a client of any earlier revision ends up right; additions are new to it and updates are not |
| `EngineDelta.FromZeroExact` | internal/analysis/engine.go:724-753 | Revision 0 gets everything, all of it as additions, if and only if every goroutine has had an event |
| `EngineDelta.ParentsMissed` | internal/analysis/engine.go:282-295 | After new parents an up-to-date client stays right if and only if no known goroutine without a parent is given one |
| `EngineDelta.LabelsMissed` | internal/analysis/engine.go:300-319 | After label overrides it stays right if and only if every known goroutine already has the labels it is given |
| `EngineDelta.SnapshotMissed` | internal/analysis/engine.go:893-924 | After a stack snapshot it stays right if and only if the goroutine is known with that very stack and was seen no earlier |
| `EngineDelta.SnapshotNeverSent` | internal/analysis/engine.go:724-753 | A goroutine first seen in a stack snapshot is in no delta, not even that from revision 0 |
| `EngineDelta.ParentNeverSent` | internal/analysis/engine.go:282-295 | Goroutine 2 is created, then its parent 1 becomes known: the client that had the creation never learns of the parent |
| `EngineExamples.UnsentGoroutine` | internal/analysis/engine.go:724-753 | On the engine itself: after a snapshot for a goroutine not seen yet, which the engine then knows, the delta from revision 0 is empty |
| `EngineExport.ExportedEvents` | internal/analysis/engine.go:631-660 | A goroutine is exported as its creation by its parent, at its creation time or else when last seen, and its state, reason and resource when last seen |
| `EngineExport.TwoEventsRebuild` | internal/analysis/engine.go:638-665 | A creation and a state event rebuild a record but for its labels |
| `EngineExport.ExportThenLoad` | internal/analysis/engine.go:617-717 | Loading an export gives back every goroutine, and no other: id, parent, state, reason, resource, creation and last seen time, labels |
| `EngineExport.RunsLive` | internal/analysis/engine.go:849-891 | Runs of lifecycle events lead to records that survive the round trip |
| `EngineExport.RunExportsBack` | internal/analysis/engine.go:617-717 | After any run of lifecycle events in order an export loads back into the same goroutines |
| `EngineExport.MergeParentsMeans` | internal/analysis/engine.go:282-295 | Exactly the known goroutines without a parent take the one given, and nothing else changes |
| `EngineExport.MergeLabelsMeans` | internal/analysis/engine.go:300-319 | A known goroutine keeps its labels but for those overridden, and nothing else changes |
| `EngineCaches.MeasuresAllPermute` | internal/analysis/contention.go:134-164 | Contention metrics do not depend on the order of the segments |
| `EngineCaches.CoherentMeasures` | internal/analysis/engine.go:512-543 | A coherent cache measures the timeline however it is listed |
| `EngineCaches.SnapshotStaleIffOvertakes` | internal/analysis/engine.go:893-924 | A snapshot leaves a coherent contention cache coherent if and only if it does not lengthen an open segment that waits for a resource |
| `EngineExamples.StaleContention` | internal/analysis/engine.go:512-543 | A wait for a mutex, metrics fetched, then a later stack: the contention cache is clean and does not measure the timeline |
| `RequestCaches.ParentsStaleIff` | internal/analysis/engine.go:282-295 | After new parents the cached groups are still a possible result if and only if no served goroutine became the parent of one neither labelled nor served, and no two stack groups' roots ended up on one cycle of parents |
| `RequestExample.TangledGroupsStale` | internal/analysis/engine.go:282-295 | Groups 2, 3 and 1, possible before 3 becomes the parent of 1, are not possible after it, though nobody was recruited |
| `Engine.Engine.constructor` | internal/analysis/engine.go:135-152 | An empty engine, both caches to be computed |
| `Engine.Engine.Reset` | internal/analysis/engine.go:825-841 | Everything dropped but the version, which goes up; both caches to be recomputed |
| `Engine.Engine.UpdateSegments` | internal/analysis/engine.go:926-956 | The open and closed segments after an event are those of the specified switch |
| `Engine.Engine.TrimClosedSegments` | internal/analysis/engine.go:783-801 | Over the cap by more than a tenth, the most recent max segments stay |
| `Engine.Engine.Process` | internal/analysis/engine.go:849-877 | The stored record: the state machine's, with creator, birth, death and liveness filled in |
| `Engine.Engine.ApplyEvent` | internal/analysis/engine.go:849-891 | The state and the stamps take the specified step; both caches stay coherent |
| `Engine.Engine.ApplyEvents` | internal/analysis/engine.go:843-847 | The run of the events one by one; both caches stay coherent |
| `Engine.Engine.AppendToHistory` | internal/analysis/engine.go:806-823 | The snapshot goes to the end of its goroutine's history, the oldest beyond the cap go, and the count stays the number kept |
| `Engine.AppendedMeans` | internal/analysis/engine.go:806-823 | A snapshot ends its goroutine's history, after the latest of it that the cap leaves; other histories stay |
| `StackHistory.KeepLastMeans` | internal/analysis/engine.go:806-823 | What a cap drops is the oldest, and only what is beyond it |
| `Engine.Engine.ApplyStackSnapshot` | internal/analysis/engine.go:893-924 | The record and the history take the specified step, nothing is stamped; a clean contention cache survives if and only if no open wait is overtaken |
| `Engine.Engine.SetParentIDs` | internal/analysis/engine.go:282-295 | Parents for known goroutines without one, unstamped; clean request groups survive if and only if nobody is recruited and no two groups are tangled |
| `Engine.Engine.SetLabelOverrides` | internal/analysis/engine.go:300-319 | Overrides win over the labels of known goroutines, unstamped; both caches stay coherent |
| `Engine.Engine.SetResourceGraph` | internal/analysis/engine.go:328-335 | The edges are replaced and the contention cache is to be recomputed |
| `Engine.Engine.AddProcessorSegments` | internal/analysis/engine.go:269-277 | The segments go after those there are; no segments change nothing |
| `Engine.Engine.LoadCapture` | internal/analysis/engine.go:195-240 | Whatever was there is replaced by what the capture specifies: events, then stacks, then parents, then labels; histories kept whole whatever the cap; the version counts the reset, the events and the stacks |
| `Engine.Engine.Timeline` | internal/analysis/engine.go:386-415 | Closed and derived segments, each once, goroutine by goroutine, by start and for one start by end |
| `Engine.Engine.GetResourceContention` | internal/analysis/engine.go:512-543 | Fresh metrics when dirty, the cached ones otherwise; from a coherent state always metrics of the current timeline |
| `Engine.Engine.GroupByRequest` | internal/analysis/requests.go:32-51 | Fresh groups when dirty, the cached ones otherwise; from a coherent state always the groups of some order of the current goroutines, a goroutine being in the label group of v exactly when v is the value of the first of its request labels that has one and no stack group has taken that key |
| `Engine.Engine.DeltaSince` | internal/analysis/engine.go:724-753 | The specified additions and updates, each once, in order of id |
| `Engine.Engine.ExportCapture` | internal/analysis/engine.go:617-717 | An export in time order with exactly the creation and state events of the records, and every history |
| `EngineListing.SortedIsExport` | internal/analysis/engine.go:669-677 | Sorting by time and then number puts a goroutine's creation before its state and leaves its events its only ones |
| `Requests.RequestLabelMeans` | internal/analysis/requests.go:156-163 | The label of a goroutine is the first non-empty value among http.request_id, request_id and trace_id |
| `Requests.GroupByLabel` | internal/analysis/requests.go:56-76 | One group for each such value, holding exactly the goroutines whose label it is |
| `Requests.RootMeans` | internal/analysis/requests.go:174-186 | A walk starts from exactly the goroutines without a label whose stack has a frame with one of the three serving names anywhere in its own |
| `Requests.WalkDescendants` | internal/analysis/requests.go:110-126 | Breadth first from a root: exactly what a chain of children avoiding the goroutines already taken leads to, and it ends even on cyclic parents |
| `RequestGroups.FirstRootTakes` | internal/analysis/requests.go:91-126 | A serving goroutine takes exactly the goroutines it is the first root above, in the order of iteration |
| `RequestGroups.BuildRequestGroups` | internal/analysis/requests.go:53-143 | The groups are those of some order of iteration: one for every label, one for every root not taken before, holding what it reaches through goroutines not taken |
| `RequestGroups.LabelGroupsMean` | internal/analysis/requests.go:53-143 | Whatever the order, a goroutine is in the label group of v exactly when v is the value of the first of its request labels that has one and no stack group has taken that key |
| `RequestGroups.StackKeyReads` | internal/analysis/requests.go:100 | The key of a stack group is a prefix and the goroutine's id in decimal |
| `RequestGroups.GroupsDisjoint` | internal/analysis/requests.go:91-126 | No goroutine is in two groups |
| `RequestGroups.GroupedMeans` | internal/analysis/requests.go:53-143 | Every served goroutine is in a group, and whatever is in a group is labelled or served |
| `RequestGroups.LabelledGrouped` | internal/analysis/requests.go:53-143 | A labelled goroutine is in a group if and only if no stack group has its label as key |
| `RequestGroups.GroupsExact` | internal/analysis/requests.go:53-143 | When no label reads like a stack key the groups hold exactly the labelled and the served goroutines |
| `TraceModel.OnlyKeptMeans` | internal/tracebridge/xtrace.go:131-136 | Of the runs exactly those of kept goroutines are exported, each as often as it occurs |
| `TraceModel.RunsAreStretches` | internal/tracebridge/xtrace.go:176-205 | The processor segments are exactly the positive stretches from getting onto a processor to the end of that run |
| `TraceModel.RunsDisjoint` | internal/tracebridge/xtrace.go:176-205 | For times in order, a goroutine's segments have positive length and do not overlap |
| `TraceModel.ScriptIsLive` | internal/tracebridge/stream.go:346-366 | The events and stacks a trace in order gives rise to form a live trace |
| `TraceModel.StreamedEqualsLoaded` | internal/tracebridge/stream.go:220-233 | An engine fed event by event, given the kept parents at the end, holds what loading the trace's capture gives |
| `TraceModel.RelevantMeans` | internal/tracebridge/parsedtrace.go:567-590 | User code is what lies in the workspace, or in a file not below the Go sources, or has no known file and a name outside the runtime, internal and syscall packages |
| `TraceModel.HasUserFrame` | internal/tracebridge/parsedtrace.go:546-590 | True if and only if some frame is user code |
| `TraceModel.PrimaryFunction` | internal/tracebridge/parsedtrace.go:555-590 | The first user frame's function, or else the first frame's |
| `TraceRecords.MapMeans` | internal/tracebridge/xtrace.go:266-279 | Running, runnable and system call states come from exactly those of the trace, blocked from exactly four reasons of a wait, and each of the trace's reasons gives a reason of its own |
| `TraceRecords.StepMeans` | internal/tracebridge/xtrace.go:207-262 | The event of a transition: its goroutine and time, an end, a creation or a state change, the parent of a creation, and the state and reason it says, reason by reason |
| `TraceRecords.KeptMeans` | internal/tracebridge/stream.go:310-314 | A goroutine is kept once one of its transitions has user code on the stack, goroutine 1 from its first |
| `TraceRecords.StreamMeansTrace` | internal/tracebridge/stream.go:260-369 | After a trace in order the engine knows exactly the goroutines kept; each stands in the state and with the reason its last transition gives, state by state and reason by reason, was seen then and created when first kept, and has the parent, function and stack of the transitions that brought them |
| `TraceRecords.ParentsMean` | internal/tracebridge/stream.go:266-271 | The creator recorded for a goroutine is the one under way at its last creation by another |
| `XBuilder.XBuilder.AppendXEvent` | internal/tracebridge/xtrace.go:157-262 | The builder's maps, segments, events and stacks are those of the transitions read |
| `XBuilder.XBuilder.Finish` | internal/tracebridge/xtrace.go:117-151 | The capture holds the events and stacks, and the parents and processor segments of kept goroutines only |
| `StreamBuilder.EmittedAndReleased` | internal/tracebridge/stream.go:235-244 | What was emitted early and what is released at the end are, as a multiset, the runs of the kept goroutines: none twice and none lost |
| `StreamBuilder.StreamBuilder.TrackProcessor` | internal/tracebridge/stream.go:274-308 | A finished run goes to the writer if its goroutine is kept by then, and is held back otherwise |
| `StreamBuilder.StreamBuilder.AppendEvent` | internal/tracebridge/stream.go:260-369 | The writer has had the script of the transitions read, and every run is with the writer or held back |
| `StreamBuilder.StreamBuilder.Finish` | internal/tracebridge/stream.go:220-246 | At the end the writer holds the processor segments of the batch capture and, for a trace in order, the records and timeline of loading it |
| `FlameTree.GetOrCreateChild` | internal/analysis/flamegraph.go:157-166 | The child of that name if there is one, else a new last child |
| `FlameTree.Descend` | internal/analysis/flamegraph.go:77-84 | One frame deeper keeps the tree that of the paths walked so far |
| `FlameTree.ChildAdded` | internal/analysis/flamegraph.go:157-166 | A new child keeps names distinct, one node to a path, and every count |
| `FlameTree.SortChildrenDeep` | internal/analysis/flamegraph.go:169-176 | Siblings at and below the node end up in falling order of count; nothing else changes |
| `FlameTree.BuildFlamegraph` | internal/analysis/flamegraph.go:52-92 | There is a node for exactly the prefixes of selected goroutines' paths, each counting the paths through it, siblings distinct and in falling order; the total is the root's count |
| `FlamePaths.PathsOfAdmitted` | internal/analysis/flamegraph.go:56-60 | Any count over the paths is that count over the goroutines that pass the state filter, all of them without one |
| `FlamePaths.PathMeans` | internal/analysis/flamegraph.go:69-84 | A path is read off all frames, or off the innermost as many as the depth allows |
| `FlamePaths.NamesMean` | internal/analysis/flamegraph.go:77-84 | Inner frames come after outer ones |
| `FlamePaths.NameOf` | internal/analysis/flamegraph.go:79-82 | A frame contributes its name, unless it has none |
| `FlameTree.NodeMinusChildren` | internal/analysis/flamegraph.go:52-92 | A node's count less its children's is the number of paths that end there |
| `FlamePaths.ThroughChildren` | internal/analysis/flamegraph.go:77-84 | The paths through a prefix end there or go on through exactly one of the names below it |
| `FoldedStacks.FoldedStacks` | internal/analysis/flamegraph.go:101-154 | One line for each distinct call path, in byte order, with the number of goroutines whose path reads like it |
| `FoldedStacks.FoldedMatchesTree` | internal/analysis/flamegraph.go:101-154 | The folded count of a path is what its node counts beyond its children if and only if no other path reads the same |
| `FoldedStacks.FoldedMatchesPlainTree` | internal/analysis/flamegraph.go:101-154 | With names free of semicolons the folded counts are the tree's |
| `FoldedStacks.SemicolonsMerge` | internal/analysis/flamegraph.go:123-130 | A name that holds a semicolon reads like two names |
| `FoldedStacks.LinesDiffer` | internal/analysis/flamegraph.go:123-130 | Without semicolons in names different paths read differently |
| `FoldedStacks.Itoa` | internal/analysis/flamegraph.go:179-193 | Digits whose value, read most significant first, is the number, without leading zeros |
| `FoldedStacks.LineOfPath` | internal/analysis/flamegraph.go:123-130 | A line is the root followed by a semicolon and a name for each call |
| `FoldedReading.FoldedReadsBack` | internal/analysis/flamegraph.go:133-153 | Of names without newlines, the text reads back line by line, a path and after the last space a decimal number, as every path once with its count |
| `Collections.StringLessMeans` | internal/analysis/flamegraph.go:139-143 | The lines' order is that of the first differing byte, a text coming before those it begins |

## Left out

Not modelled:

- HTTP, server-sent events, authentication, pollers, OTLP and Slack senders, files, command lines: input and output.
- The user interfaces other than the GIF encoder.
- The trace reader, regular expressions, JSON and path handling. A trace is a sequence of transition records; the
  workspace, the place of the Go sources and the cleaning of paths are parameters (`TraceModel.Relevance`), and the
  path separator is a slash. A trace timestamp of exactly 0 ns counts as Go's zero time here.
- `parsedTraceBuilder` and the text scanner of `internal/tracebridge/parsedtrace.go`: the third builder of the same
  kind, whose processor slots and filter are those of `XBuilder`; it differs only in taking the parent of a creation
  from the transition itself.
- `filterCaptureToRelevantGoroutines`: only the batch path applies it; the builders are compared before it.
- Sequence numbers and stack ids of emitted events, sessions, subscriptions, `Flush`.
- Insights, grouping by function, scores, sampling, leak candidates, capture diffs, blame chains, resources of a cycle.
- URL, method, duration, state breakdown and the final order of request groups, which are computed from one group.
- `DeriveResourceEdgesFromTimeline` and `buildEdgesFromSnaps`: the detectors are proved over arbitrary edges.
- Fixed widths: Go's int64 and int32 counters and JavaScript's 32-bit shifts of pixel offsets are unbounded here, so a
  canvas of 2^29 pixels or more and counts beyond 2^31 are outside the model. Averages are exact reals.
- Reads of a delta and of the data version as two steps in the streaming handler.

Stated with a limit:

- EngineTimeline.TimelineMeansLog: for lifecycle events with real times in order goroutine by goroutine; other events
  change a record without touching segments, and out-of-order times leave gaps.
- EngineCoverage.CoveredUnlessEnded: under the same condition.
- FoldedReading.FoldedReadsBack: for names without newlines; what the text is for any names is the contract of
  `FoldedStacks.FoldedStacks`.
- EngineExport.ExportThenLoad: stacks in the capture must not be later than the last event of their goroutine, and
  wait time, birth, death and liveness are not part of an exported event.
- EngineDelta.DeltaSync: over runs of events; `EngineDelta.SyncExact` covers the changes that are not stamped.
- Deadlock.CyclesFound: for graphs without self edges whose endpoints are all blocked; `DeadlockOrders` covers the
  others, over all orders of the edges at once.
- RequestGroups.GroupsExact: when no label reads like a stack key; otherwise `RequestGroups.LabelledGrouped` says which
  labelled goroutines lose their group.
- EngineRecords.FirstMeansLog: for lifecycle events with real times in order, like the lemmas beside it.
- TraceRecords.StreamMeansTrace: for traces of real goroutine ids and times in order goroutine by goroutine.
- Engine.Engine.TrimClosedSegments: slices of a sequence stand for shifting the slice's backing array in place.
- GifEncoder.EncodeAnimatedGif: every frame has at least the canvas's pixels; in a shorter buffer the source reads
  JavaScript's undefined, which has no value here. The end code of a frame longer than the canvas, or of a canvas of
  65536 pixels or more in a direction, is left open.
- RequestGroups.BuildRequestGroups: group records are values replaced in a map rather than records shared through it.
