# Auspex: a verified model of its decision logic

Auspex is a desktop control surface for Omegon agents. This project models, in Dafny, the parts of it
that decide something over unbounded data, and proves what they promise for every input and every run:

- **PNG capture reader** (`bytes`, `png_chunks`, `png_filters`, `png_reader`, `png_sample`): chunk layout
  (section 3.2 of RFC 2083), the five row filters reversed in place (section 6 of RFC 2083), flattening to
  pixels. Main results: `PngReader.RoundTrip`, `PngFilters.DecodedBytes`, `PngReader.DecodedExactly`.
- **Capture analyser** (`sequences`, `samples`, `occupancy`, `capture_analysis`, `capture_properties`,
  `capture_gates`): sampled activity of rows and columns, spans, voids, balance and gates, over exact reals.
  Main results: `CaptureGates.GatesByPixels`, `CaptureProperties.MirrorInvariantExactly`,
  `CaptureProperties.VoidGateForcesSpan`.
- **Workflow compiler** (`reachability`, `workflow`, `workflow_compiler`, `workflow_positions`,
  `workflow_messages`): the breadth-first worklist and the first-edge walk over arbitrary, possibly cyclic
  graphs. Main results: `Reachability.ReachableNodes`, `Workflow.WalkSteps`,
  `WorkflowPositions.PlanByPositions`, `WorkflowCompiler.PlanDetermined`.
- **Audit timeline** (`strings`, `audit_ids`, `audit_timeline`, `audit_query`, `audit_snapshots`,
  `audit_filters`): the append-only store with its index of ids, the injectivity of those ids, and the two
  filters over the same entries. Main results: `AuditTimeline.RunProperties`,
  `AuditTimeline.SnapshotKeptInFull`, `AuditSnapshots.SnapshotFound`, `AuditQuery.TextFiltersNest`.
- **HTML entity codec** (`html_entities`, `html_decoding`): six decoding passes against five escaping passes.
  Main results: `HtmlEntities.RoundTripExactly`, `HtmlDecoding.EntitiesDecoded`.
- **Provider inventory** (`providers`): the keyed join of two lists. Main results: `Providers.TailExactly`,
  `Providers.MergeIdempotent`.
- **Armory install planner** (`canonical_lists`, `subsequences`, `armory`, `armory_properties`,
  `armory_contents`): plans whose policy gates account for their contents. Main results:
  `ArmoryContents.PlanFromPackage`, `ArmoryContents.GatesFromPackage`, `ArmoryProperties.GatesMatchContents`,
  `ArmoryProperties.OptionalOnlyAdds`, `ArmoryProperties.PlanReordered`.
- **OCI image references** (`image_references`): reading `name[:tag][@digest]`, against a printer; digests as in
  the Digests section of the OCI Image Format Specification. Main results: `ImageReferences.AcceptedExactly`,
  `ImageReferences.PrintInjective`.

`dafny verify dfyconfig.toml` checks the whole project.

Code that works by changing things step by step (chunk loop, row filters on an array, worklist, walk,
store, merge, planner) is a method or a class proved against a specification; what the specification
promises is proved as lemmas. Steps of a proof often take the function they reason about as a parameter
(`ChunkSource`, `Predictor`, `RowDecoder`, `Key`, a character map), so that they hold for any such function.

## What turned out not to hold as one might expect

- Decoding what was escaped loses text that itself spells `&lt;`, `&gt;`, `&quot;`, `&apos;` or `&#39;`:
  `HtmlEntities.WrittenEntityIsLost`, and exactly then: `HtmlEntities.RoundTripExactly`. A literal `&amp;`
  survives.
- Decoding decodes what it has just decoded: `HtmlDecoding.DecodedTwice`; a written ampersand stays one exactly if
  what follows does not complete an entity: `HtmlDecoding.AmpersandDecodedExactly`.
- Mirroring a capture changes its report for some widths from 240 on: `CaptureProperties.MirrorVariant`; it is
  invariant exactly if the column step divides `width - 1`: `CaptureProperties.MirrorInvariantExactly`.
- A block and a telemetry entry can share an id: `AuditIds.CollisionExample`; exactly when:
  `AuditIds.BlockMeetsTelemetry`. Whichever comes second is then lost: `AuditTimeline.BlockKept`.
- Telemetry entries of different sessions can share an id: `AuditIds.TelemetryCollisionExample`. Two sessions can
  meet exactly if one is the other followed by `:telemetry`, and then by nothing or by a colon and more:
  `AuditIds.SessionsMeetExactly`; the pairs of session and key that do: `AuditIds.TelemetryMeetsTelemetry`. Of two
  such entries the second is lost: `AuditTimeline.TelemetryKept`.
- A transcript that repeats a turn number loses blocks: `AuditTimeline.RepeatedTurnLosesBlock`; a snapshot is kept
  in full exactly if its non-empty turns have distinct numbers and none of its ids is known:
  `AuditTimeline.SnapshotKeptInFull`.
- The store query and the panel filter disagree on needles with a space: `AuditQuery.NeedleWithSpace`; the
  query's entries are all among the panel's exactly for needles without one: `AuditQuery.TextFiltersNest`.
  Both ways they agree exactly if there is nothing to search for: `AuditQuery.TextFiltersAgree`.
  They disagree on session keys that are empty or have outer whitespace: `AuditQuery.SessionFiltersAgree`.
- The capture reader refuses neither every filter type above 4 nor every raster that is cut short:
  `PngFilters.CutRasterPasses`, and for a whole file `PngReader.CutFilePasses`. A row is refused exactly if its
  filter type is above 4 and a stored byte follows: `PngFilters.RowReadExactly`. A raster is read exactly if every
  row's filter byte is there and is supported, or belongs to an empty row, or is the last byte:
  `PngFilters.RasterReadExactly`, `PngFilters.ReadableRows`; the files that are read: `PngReader.DecodedExactly`.
  Encoding what was decoded gives the stored bytes back all the same, for width 0 too:
  `PngFilters.RowRoundTripBack`, `PngFilters.RefilterRaster`.
- The image reader accepts images without a name (`:tag`, `@sha256:...`) and names that end in a colon:
  `ImageReferences.AcceptedExamples`. An accepted image has a name exactly if it does not start with `@` and no tag
  starts at 1: `ImageReferences.NamedExactly`; when the name ends in a colon: `ImageReferences.ColonNameExactly`.

## Model

| member | source | states |
|---|---|---|
| PngChunks.ReadChunks | scripts/analyze-window-capture.py:23-35 | the chunk loop computes the recursive reading of the file: it stops at IEND or at the end, fails on a cut length field or a short IHDR, joins IDAT bodies |
| PngChunks.SerializedChunkAt | scripts/analyze-window-capture.py:26-28 | a chunk written between any bytes is read back at its offset with its length, kind and body, whatever its CRC |
| PngChunks.ParseInner | scripts/analyze-window-capture.py:25-35 | over any run of chunks that are neither IHDR nor IEND the loop keeps the header and collects exactly the IDAT bodies, in order |
| PngChunks.ParseFile | scripts/analyze-window-capture.py:21-35 | every file made of a signature, chunks around an IHDR, an IEND and trailing bytes reads as its header and its IDAT bytes |
| PngChunks.HeaderReadBack | scripts/analyze-window-capture.py:30-31 | a written header gives back width, height, bit depth 8 and colour type |
| PngFilters.ReadRow | scripts/analyze-window-capture.py:48-67 | the in-place loop over a row computes the reconstruction, with the rest of a short row zero and unsupported filters refused |
| PngFilters.FirstNearest | scripts/analyze-window-capture.py:60-63 | the index of the least distance picks the first nearest neighbour, which is the Paeth predictor |
| PngFilters.PredictByte | scripts/analyze-window-capture.py:52-63 | the branch on the filter type computes that type's predictor |
| PngFilters.DecodedBytes | scripts/analyze-window-capture.py:46-66 | every decoded byte of a row in raw numbers: for type 0 the stored byte, 1 plus the byte to the left, 2 plus the one above, 3 plus half their sum, 4 plus the first of the three neighbours nearest to their gradient, modulo 256; zero where nothing is stored |
| PngFilters.ReconstructFiltered | scripts/analyze-window-capture.py:48-66 | for every predictor, reconstructing a filtered row gives the row, prefix by prefix |
| PngFilters.FilterReconstructed | scripts/analyze-window-capture.py:48-66 | for every predictor, filtering a reconstructed row gives the stored bytes |
| PngFilters.RowRoundTrip | scripts/analyze-window-capture.py:48-66 | for every filter type 0 to 4 and every row, decoding what was encoded gives the row |
| PngFilters.RowRoundTripBack | scripts/analyze-window-capture.py:48-66 | for every stride, encoding what was decoded gives the stored row |
| PngFilters.RowReadExactly | scripts/analyze-window-capture.py:48-65 | a row of any stored length is read if and only if it has no stored byte or its filter type is supported |
| PngFilters.ReadRows | scripts/analyze-window-capture.py:40-67 | the loop over rows, each based on the one before, computes the recursive reading of the raster, or its first error |
| PngFilters.UnfilterFilterRows | scripts/analyze-window-capture.py:42-67 | for every choice of a filter type per row, unfiltering a filtered raster gives all the rows |
| PngFilters.FilterUnfilterRows | scripts/analyze-window-capture.py:42-67 | filtering the rows read from a full raster with its own filter types gives the raster back |
| PngFilters.RefilterRaster | scripts/analyze-window-capture.py:39-67 | any raster of at least `height * (stride + 1)` bytes starts with the filtering of the rows read from it |
| PngFilters.SlackIgnored | scripts/analyze-window-capture.py:42-67 | bytes after a full raster change nothing in what is read |
| PngFilters.RasterReadExactly | scripts/analyze-window-capture.py:42-67 | a raster is read if and only if, row by row, the filter byte is there and is supported, or the row is empty, or the byte is the last |
| PngFilters.ReadableRows | scripts/analyze-window-capture.py:42-67 | the same by the positions `y * (stride + 1)` of the filter bytes |
| PngFilters.LongRasterReadExactly | scripts/analyze-window-capture.py:42-67 | a raster that holds all its rows is read if and only if they are empty or all filter types are supported |
| PngFilters.CutRasterPasses | scripts/analyze-window-capture.py:42-67 | at every stride, a raster of one filter byte of any type is read as a row of zeros |
| PngFilters.ReadRowsFrom | scripts/analyze-window-capture.py:42-67 | row y of what is read is decoded from the bytes at `y * (stride + 1)` with row y-1, or zeros, above it |
| PngFilters.RasterRefused | scripts/analyze-window-capture.py:42-65 | a raster is refused for its first row that does not pass, as cut short or with its filter type |
| PngReader.PngPixels | scripts/analyze-window-capture.py:19-69 | the whole reader, with its errors for signature, chunks, format, corrupt stream and raster |
| PngReader.FlattenAt | scripts/analyze-window-capture.py:68 | pixel `y*width+x` is taken from row y at byte `channels*x` |
| PngReader.FlattenShowsRows | scripts/analyze-window-capture.py:68 | the flattened pixels show all the rows and nothing else |
| PngReader.DecodedShape | scripts/analyze-window-capture.py:36-69 | whatever is decoded has `height*width` pixels |
| PngReader.DecodedExactly | scripts/analyze-window-capture.py:19-69 | a file is read if and only if signature, chunks and format are accepted, the stream inflates and its raster passes |
| PngReader.DecodedRows | scripts/analyze-window-capture.py:36-69 | what is decoded shows such rows: red, green and blue of pixel (x, y) are bytes `channels*x` to `channels*x + 2` of row y, with 3 channels for colour type 2 and 4 for 6 |
| PngReader.StreamRefused | scripts/analyze-window-capture.py:36-65 | a stream is refused for its format, as corrupt, or for the first row at fault, in this order |
| PngReader.DecodeRefused | scripts/analyze-window-capture.py:21-35 | before that, a file is refused for its signature or its chunks |
| PngSample.SampleDecoded | scripts/analyze-window-capture.py:19-69 | a file of 85 given bytes, with an ancillary chunk and two data chunks, is read as its two given pixels |
| PngReader.CutFilePasses | scripts/analyze-window-capture.py:19-69 | a file of one pixel whose raster is a single filter byte, of any type, is read as a black pixel |
| PngReader.RasterReadBack | scripts/analyze-window-capture.py:36-69 | a stream that inflates to the filtered raster of an image decodes to that image |
| PngReader.RoundTrip | scripts/analyze-window-capture.py:19-69 | every 8-bit RGB or RGBA image, any filter type per row, any split into IDAT chunks with other chunks around them, any CRCs: the reader returns its width, height and pixels |
| PngReader.WrittenIsRead | scripts/analyze-window-capture.py:19-69 | a plain writer that cuts the compressed raster into IDAT parts at will has the reader for its inverse |
| Occupancy.ComputeLongestFalseRun | scripts/analyze-window-capture.py:77-82 | the loop returns the length of the longest all-false window |
| Occupancy.LongestFalseRunIsLongest | scripts/analyze-window-capture.py:77-82 | some window of that length is all false and no longer one is |
| Occupancy.LongestFalseRunExactly | scripts/analyze-window-capture.py:77-82 | a number is the length of the longest all-false window if and only if it is this one |
| Occupancy.SpanBetween | scripts/analyze-window-capture.py:107-112 | the span is the distance between the first and the last occupied position, both included |
| Occupancy.SpanEmpty | scripts/analyze-window-capture.py:107-112 | the span is zero exactly if nothing is occupied |
| Occupancy.SpanReverse | scripts/analyze-window-capture.py:107-112 | the span of a reversed list is the same |
| Occupancy.VoidAndOccupied | scripts/analyze-window-capture.py:106-113 | the longest void and the occupied positions together are at most the whole |
| Occupancy.VoidAndSpan | scripts/analyze-window-capture.py:106-113 | twice the longest void and the span together are at least the whole |
| Samples.SampleInRange | scripts/analyze-window-capture.py:103-121 | sample k is taken exactly if its position is within the range |
| Samples.StrideSamples | scripts/analyze-window-capture.py:101-121 | a step of extent over target gives every position below twice the target, and from target to under twice target samples from there on |
| CaptureAnalysis.SampleRows | scripts/analyze-window-capture.py:101-105 | the row loop computes the active share of each sampled row, without leaving the image |
| CaptureAnalysis.SampleColumn | scripts/analyze-window-capture.py:119-123 | the inner loop counts the samples of a column and the active ones |
| CaptureAnalysis.SampleColumns | scripts/analyze-window-capture.py:117-124 | the column loop computes the active share of each sampled column |
| Sequences.CountIsSize | scripts/analyze-window-capture.py:94-99 | what is summed up is the number of positions where the test holds |
| CaptureAnalysis.SampleCounts | scripts/analyze-window-capture.py:90-124 | the content is never empty; sample counts equal the extent when it is small and lie in 120..239 (160..319 for rows of a column) otherwise |
| CaptureAnalysis.AnalyzePixels | scripts/analyze-window-capture.py:85-153 | the whole analysis: refused exactly if the dimensions do not match, and never dividing by zero or leaving the image |
| CaptureGates.GatesByPixels | scripts/analyze-window-capture.py:85-141 | the six gates as conditions in whole numbers on how many pixels are bright, dim or cyan in the content and in the sampled rows and columns |
| CaptureGates.RatiosByPixels | scripts/analyze-window-capture.py:142-151 | the eight reported ratios, each the rounded share of such numbers |
| CaptureGates.ViewOf | scripts/analyze-window-capture.py:90-124 | every capture has the titlebar, steps, rows and columns that these conditions speak of |
| CaptureProperties.RatiosInUnit | scripts/analyze-window-capture.py:92-132 | all measures lie in [0, 1]; dark and active share, and void and occupied share, add up to at most 1 |
| CaptureProperties.RoundNearest | scripts/analyze-window-capture.py:144-151 | reported values are the nearest multiple of 0.0001, of two the even one |
| CaptureProperties.ReportInUnit | scripts/analyze-window-capture.py:142-153 | the rounded measures of the report lie in [0, 1] |
| CaptureProperties.VoidGateForcesSpan | scripts/analyze-window-capture.py:106-136 | twice the largest void plus the vertical span is at least 1, so passing the void gate forces a span above 0.10 |
| CaptureProperties.MirrorInvariant | scripts/analyze-window-capture.py:89-153 | if the column step divides `width - 1`, mirrored captures have the same report |
| CaptureProperties.MirrorVariant | scripts/analyze-window-capture.py:116-132 | for every other width, and every height, two mirrored captures with different reports |
| CaptureProperties.MirrorInvariantExactly | scripts/analyze-window-capture.py:89-153 | reports are invariant under mirroring if and only if the column step divides `width - 1` |
| CaptureProperties.NarrowCapturesMirror | scripts/analyze-window-capture.py:116-132 | for widths below 240 they always are |
| CaptureProperties.DecodedIsAnalyzed | scripts/analyze-window-capture.py:69-87 | what the reader decodes is analysed exactly if it has a pixel |
| Reachability.ReachableNodes | src/workflow.rs:397-409 | the worklist, with repeated entries and on any graph, ends and returns exactly the nodes on an edge path from a start; the set is closed under edges |
| Reachability.ReachableIsLeast | src/workflow.rs:397-409 | that set is the least edge-closed set that holds the starts |
| Workflow.WalkSteps | src/workflow.rs:226-260 | the walk ends on every graph; its steps are those of the dispatch walk along first edges from the trigger |
| Workflow.DispatchWalkUnique | src/workflow.rs:233-260 | there is only one dispatch walk, whatever order it is found in |
| Workflow.VisitedMeansTrigger | src/workflow.rs:233-245 | a walk meets a visited node only at the trigger, and then it is stuck anyway |
| Workflow.WalkedBack | src/workflow.rs:233 | the `visited` test stops the loop only when the walk is back at the trigger |
| Workflow.WalkedStuck | src/workflow.rs:234-245 | the shrinking `indexed` map stops the loop exactly where the walk cannot go on |
| Workflow.WalkedOn | src/workflow.rs:234-259 | one turn of the loop extends the walk by a node that is reachable, so the `reachable` test filters nothing |
| Workflow.WalkedIsReachable | src/workflow.rs:226-249 | every walked node is in the worklist's result |
| Workflow.StepsFromWalk | src/workflow.rs:246-258 | every step is an executable or branch node of the walk |
| Workflow.StepsDistinct | src/workflow.rs:233-260 | no two steps have the same node |
| WorkflowPositions.FirstTargetExactly | src/workflow.rs:234-238 | the edge followed is the first in the list that leaves the node; none exactly if no edge does |
| WorkflowPositions.FirstWithRoleAt | src/workflow.rs:217-225 | trigger and output are the first nodes with their roles |
| WorkflowPositions.IndexedAt | src/workflow.rs:227-228 | of nodes with the same id the last is indexed |
| WorkflowPositions.DispatchWalkByPositions | src/workflow.rs:233-260 | the walk by positions of edges and nodes: first edges, different nodes, no outputs, and why it ends |
| WorkflowPositions.StepsByPositions | src/workflow.rs:246-258 | the steps are the executable and branch nodes of the walk, all of them, in order, with id, kind, label and action |
| WorkflowPositions.LabelShown | src/workflow.rs:411-418 | the label, else the name, and the kind if that is no text |
| WorkflowPositions.ActionShown | src/workflow.rs:420-430 | the action for every kind of node |
| WorkflowCompiler.ValidateWorkflow | src/workflow.rs:147-209 | the messages in order; there is no error exactly if every report is clean and no reported unreachable id names a node |
| WorkflowCompiler.FaultsOfClean | src/workflow.rs:147-209 | no message exactly for clean reports |
| WorkflowMessages.FaultsByPosition | src/workflow.rs:153-206 | each reported item has its own message of its own kind, in the order of the reports; unreachable ids only if they name a node, by the label of the first |
| WorkflowMessages.WarningsByPosition | src/workflow.rs:184-188 | each unexpected socket has its own warning, in order |
| WorkflowCompiler.CompileDispatchPlan | src/workflow.rs:211-267 | a plan exactly for clean reports with a trigger and an output, and it is the plan of the dispatch walk |
| WorkflowCompiler.PlanDetermined | src/workflow.rs:217-267 | flows with the same nodes and the same first targets have the same plan |
| WorkflowPositions.PlanByPositions | src/workflow.rs:211-267 | a plan shows the labels of the first trigger and the first output and the steps of that walk |
| WorkflowCompiler.PlanSteps | src/workflow.rs:233-260 | steps have distinct ids, are executable or branch nodes and are reachable from the trigger |
| WorkflowCompiler.ChainPlan | src/workflow.rs:233-267 | a chain trigger, e1 to ek, output compiles to exactly e1 to ek in order |
| WorkflowCompiler.CleanWalkEnd | src/workflow.rs:234-245 | in a clean flow the walk ends at an output, at a node without edges or by meeting itself, never at a missing node |
| WorkflowCompiler.BuildState | src/workflow.rs:269-281 | a plan comes only with a validation without errors; if roles are reported as they are, exactly then |
| AuditIds.BlockIdInjective | auspex-core/src/audit_timeline.rs:225 | block ids tell apart any session strings, turns and indices |
| Strings.DecimalHasNoZeros | auspex-core/src/audit_timeline.rs:225 | numbers are written without leading zeros |
| AuditIds.BlockMeetsTelemetry | auspex-core/src/audit_timeline.rs:225-242 | a block id equals a telemetry id exactly if the telemetry key (with its colon) ends in the block's tail and the rest fits the session |
| AuditIds.CollisionExample | auspex-core/src/audit_timeline.rs:225-242 | such a pair |
| AuditIds.TelemetryKeyInjective | auspex-core/src/audit_timeline.rs:242 | within a session, telemetry ids tell the keys apart |
| AuditIds.TelemetryMeetsTelemetry | auspex-core/src/audit_timeline.rs:242 | two telemetry ids are equal if and only if session and key are, or one session with a colon starts with the other and the marker and the key makes up for the rest |
| AuditIds.SessionsMeetExactly | auspex-core/src/audit_timeline.rs:242 | different sessions can have a telemetry id in common if and only if one, with the marker, starts the other, with a colon |
| AuditIds.TelemetryCollisionExample | auspex-core/src/audit_timeline.rs:242 | such a pair, neither session of which contains the marker |
| AuditTimeline.TelemetryKept | auspex-core/src/audit_timeline.rs:55-62 | of two new telemetry entries both are kept, or, exactly if their sessions and keys meet, the first alone |
| AuditTimeline.BlockKept | auspex-core/src/audit_timeline.rs:37-62 | of a new block and a new telemetry entry both are kept, or, exactly if their ids meet, the one that comes first alone |
| AuditTimeline.AuditTimelineStore.FromLoaded | auspex-core/src/audit_timeline.rs:27-31 | a loaded store keeps its entries and its index agrees with them |
| AuditTimeline.AuditTimelineStore.RebuildSeenIds | auspex-core/src/audit_timeline.rs:107-113 | the rebuilt index is the set of ids of the entries |
| AuditTimeline.AuditTimelineStore.AppendEntry | auspex-core/src/audit_timeline.rs:55-62 | an entry is added exactly if its id is new; index and entries go on agreeing |
| AuditTimeline.AuditTimelineStore.AppendTranscriptSnapshot | auspex-core/src/audit_timeline.rs:37-53 | the result is the growth, which is the number of distinct new ids, also when turn numbers repeat |
| AuditTimeline.AppendKeeps | auspex-core/src/audit_timeline.rs:37-62 | old entries stay a prefix; the ids afterwards are the old ones and the offered ones |
| AuditTimeline.AppendGrowth | auspex-core/src/audit_timeline.rs:37-53 | the store grows by the number of distinct new ids |
| AuditTimeline.AppendTwice | auspex-core/src/audit_timeline.rs:37-53 | offering the same again changes nothing |
| AuditTimeline.AppendStoresFirst | auspex-core/src/audit_timeline.rs:37-62 | the entry stored for an id is the first one offered |
| AuditTimeline.AppendNoDuplicates | auspex-core/src/audit_timeline.rs:37-62 | a store without duplicate ids stays so |
| AuditTimeline.RunIsAppend | auspex-core/src/audit_timeline.rs:37-62 | any run is one append, to its last load or to where it began, of all that was offered since |
| AuditTimeline.BaseIsLastLoad | auspex-core/src/audit_timeline.rs:27-31 | what a run starts from is its last load, or the store if there is none |
| AuditTimeline.PerformAll | auspex-core/src/audit_timeline.rs:27-62 | a store that performs any list of loads and appends holds what the run says, and its index agrees with it |
| AuditTimeline.RunProperties | auspex-core/src/audit_timeline.rs:37-62 | over every run, loads included: prefix, union of ids, growth, first offered stored, and running it all again changes nothing |
| AuditTimeline.RunNoDuplicates | auspex-core/src/audit_timeline.rs:27-62 | over every run: no duplicate ids at the end if and only if what it started from, its last load or the store, has none |
| AuditTimeline.SnapshotKeptInFull | auspex-core/src/audit_timeline.rs:37-53 | any store keeps every block of a snapshot if and only if its non-empty turns have distinct numbers and none of its ids is known |
| AuditTimeline.AppendFresh | auspex-core/src/audit_timeline.rs:55-62 | everything offered is kept if and only if all its ids are new and different |
| AuditTimeline.RepeatedTurnLosesBlock | auspex-core/src/audit_timeline.rs:37-53 | of two turns with the same number and a block each, the second block is lost |
| AuditSnapshots.BlockShown | auspex-core/src/audit_timeline.rs:189-283 | the entry of a block: session, turn, index, id, kind, title and content, for every kind of block |
| AuditSnapshots.SnapshotFound | auspex-core/src/audit_timeline.rs:37-105 | after a snapshot, a query for a turn and a kind finds what it found before and then exactly the blocks of that kind in that turn, in order |
| AuditSnapshots.SnapshotNotFound | auspex-core/src/audit_timeline.rs:37-105 | a query for a turn without blocks finds what it found before |
| AuditSnapshots.TelemetryFound | auspex-core/src/audit_timeline.rs:232-247 | a telemetry entry is found under turn 0 and the kind telemetry and under no other |
| AuditQuery.SelectExactly | auspex-core/src/audit_timeline.rs:93-97 | a selection keeps timeline order, holds only matching entries and all of them |
| AuditFilters.QuerySearches | auspex-core/src/audit_timeline.rs:156-165 | without a space in the needle the query searches title and content |
| AuditFilters.PanelSearches | src/app.rs:7891-7901 | without a line break in the needle the panel searches session, turn number, title and content |
| AuditFilters.PanelLetsThrough | src/app.rs:7867-7904 | each other filter of the panel is blank or names what the entry has |
| Strings.ParseExactly | src/app.rs:7875 | a turn is read exactly from its digits, with zeros and a plus sign allowed before them |
| Strings.LowerExactly | src/app.rs:7891 | exactly the 26 ASCII capitals are mapped, each to its small letter |
| Strings.ContainsExactly | auspex-core/src/audit_timeline.rs:164 | a needle is contained if and only if the text is made of it and what stands around it |
| Strings.TrimCuts | src/app.rs:7868 | trimming cuts off whitespace on both sides, and all of it |
| Strings.TrimBlank | auspex-core/src/armory.rs:635 | nothing is left if and only if the text is all whitespace |
| Strings.TrimFixed | src/app.rs:7868-7869 | nothing is cut off if and only if the text neither starts nor ends with whitespace |
| Strings.WhitespaceExactly | auspex-core/src/agent_packages.rs:124 | whitespace is the 25 characters with the Unicode property White_Space |
| AuditQuery.BlankTextAgrees | src/app.rs:7839-7904 | with blank text the panel selects the entries, in order, that the store query for the same filters selects, and none for an unreadable turn or kind |
| AuditQuery.QueryEntered | auspex-core/src/audit_timeline.rs:118-123 | every query with a non-empty trimmed session can be entered as filters that read back as it |
| AuditQuery.SessionFiltersAgree | src/app.rs:7868-7871 | panel and query compare sessions alike if and only if the session key is not empty and neither starts nor ends with whitespace |
| AuditQuery.TextFiltersNest | auspex-core/src/audit_timeline.rs:156-165 | every entry whose text the query matches is matched by the panel, exactly if the needle has no space |
| AuditQuery.TextFiltersAgree | src/app.rs:7891-7901 | the two text filters agree on every entry if and only if the trimmed text is empty |
| AuditQuery.NeedleInSession | src/app.rs:7891-7901 | for every other text, an entry that the panel finds and the query does not |
| AuditQuery.NeedleWithSpace | src/app.rs:7891-7901 | for every needle with a space, an entry that the query finds and the panel does not |
| AuditQuery.QueryWithinPanel | src/app.rs:7867-7904 | with a needle without space, whatever the query returns the panel accepts |
| HtmlEntities.EscapeIsPerCharacter | src/app.rs:1232-1238 | the five escaping passes amount to one map of characters |
| HtmlEntities.EscapeExcludesMarkup | src/app.rs:1232-1238 | escaped text has no raw `<`, `>`, `"` or `'` |
| HtmlEntities.DecodePass | src/app.rs:1223-1230 | one decoding pass over text escaped from a stage on equals escaping from the next stage on after the pass |
| HtmlEntities.DecodeOfEscape | src/app.rs:1223-1238 | decoding what was escaped is decoding all but `&amp;` |
| HtmlEntities.RoundTripExactly | src/app.rs:1223-1238 | decoding what was escaped gives the text back if and only if it spells none of the five other entities |
| HtmlEntities.WrittenEntityIsLost | src/app.rs:1223-1238 | a text that is not given back |
| HtmlDecoding.EntitiesDecoded | src/app.rs:1223-1230 | any text in which each ampersand starts one of the five entities is decoded entity by entity |
| HtmlDecoding.DecodedUnchangedExactly | src/app.rs:1223-1230 | decoding leaves a text alone if and only if it spells none of the six entities |
| HtmlDecoding.AmpersandDecodedExactly | src/app.rs:1223-1230 | a written ampersand comes out as one and no more, if and only if what follows does not complete an entity |
| HtmlDecoding.DecodedTwice | src/app.rs:1223-1230 | `&amp;lt;` is decoded to `<` |
| HtmlDecoding.EscapedCharacter | src/app.rs:1232-1238 | each character is escaped by itself, with the five spellings |
| Providers.MergedProviderInventory | src/app.rs:661-704 | the two loops compute the keyed join; without settings the runtime list is returned |
| Providers.CommandNameIsFirstWord | src/app.rs:643-659 | the command name of a provider is the first run of ASCII letters and digits in its name, in lower case |
| Providers.AlphanumericExactly | src/app.rs:646-651 | letters and digits are the 62 of ASCII |
| Providers.NoCommandName | src/app.rs:643-675 | a name without letters and digits has none, and is keyed by its trimmed lower-case text |
| Providers.KeyIgnoresCase | src/app.rs:643-675 | names that differ in the case of ASCII letters have the same key |
| Providers.RuntimeKept | src/app.rs:673-693 | runtime entries keep position, name, authentication and model; the settings' method of authentication wins, the settings' model fills in |
| Providers.FindIsFirst | src/app.rs:676-680 | the settings entry joined to a key is the first with that key |
| Providers.TailExactly | src/app.rs:695-701 | a key has exactly one entry in the tail, the first of the settings, if and only if the settings have it and the runtime does not |
| Providers.RestInOrder | src/app.rs:695-701 | the tail keeps settings order |
| Providers.MergeIdempotent | src/app.rs:661-704 | merging the result with the same settings again is the identity |
| CanonicalLists.CanonicalIsCanonical | auspex-core/src/armory.rs:576-579 | sorting and removing repeats gives a strictly sorted list with the same elements |
| CanonicalLists.CanonicalSame | auspex-core/src/armory.rs:576-579 | lists with the same elements have the same canonical form |
| CanonicalLists.LessExactly | auspex-core/src/armory.rs:576-579 | the order is that of the first difference, or of the shorter text |
| Armory.PlanArmoryInstall | auspex-core/src/armory.rs:438-581 | the planner's steps compute the start, the contributions of the dependencies in order, and the end |
| ArmoryContents.PlanFromPackage | auspex-core/src/armory.rs:438-563 | the contents of a plan from the package alone: artifact, plugin, integration and template exactly for their kinds and distributions and with the package's fields, extensions in order |
| ArmoryContents.GatesFromPackage | auspex-core/src/armory.rs:467-575 | the gates from the package alone, one by one and in order, with wording, reason and severity; a pulled package without its gate is excluded |
| Armory.AddDependencies | auspex-core/src/armory.rs:526-563 | the loop adds the contribution of every dependency, in order, and changes nothing else |
| Armory.OperationTextInjective | auspex-core/src/armory.rs:481-570 | the wording tells all gate operations apart |
| Armory.FirstBlankExactly | auspex-core/src/armory.rs:634-641 | no field is reported if and only if none is all whitespace; otherwise it is the first that is |
| Armory.ValidateOverlay | auspex-core/src/armory.rs:625-642 | the first blank required field, if there is one |
| ArmoryContents.BlankField | auspex-core/src/armory.rs:625-642 | the field an overlay is refused for, by its name |
| Armory.AgentPackageFromOverlay | auspex-core/src/armory.rs:645-700 | accepted exactly if no field is blank, the overlay names the package and it is an agent or a profile; every field comes from where the source takes it, secrets of plan and overlay are merged |
| ArmoryProperties.GatesMatchContents | auspex-core/src/armory.rs:458-575 | kind by kind and in order, the gates are exactly those that the plan's extensions, integrations, templates, delegated dependencies, artifact and destructive template call for |
| ArmoryProperties.GateAccounting | auspex-core/src/armory.rs:458-575 | the number of gates, from what the plan holds |
| ArmoryProperties.BlockedExactly | auspex-core/src/armory.rs:513-521 | a gate is blocked exactly if it is the execution of a destructive forge template; all others want approval |
| ArmoryProperties.BlockedIffDestructive | auspex-core/src/armory.rs:458-575 | a plan has a blocked gate if and only if its package is a destructive forge template |
| ArmoryProperties.OptionalOnlyAdds | auspex-core/src/armory.rs:526-580 | optional dependencies leave required secrets and all else alone; the default plan's extensions and gates are a subsequence |
| Subsequences.SubsequencePositions | auspex-core/src/armory.rs:526-563 | an order-preserving sublist is found at increasing positions |
| ArmoryProperties.SecretsExactly | auspex-core/src/armory.rs:526-596 | the secrets of a plan are those its required (or included optional) dependencies declare, and no others |
| ArmoryProperties.SecretsSorted | auspex-core/src/armory.rs:576-579 | secret lists are strictly sorted |
| ArmoryProperties.SecretsIgnoreOrder | auspex-core/src/armory.rs:526-580 | neither order nor repetition of dependencies matters to the secrets |
| ArmoryProperties.PlanReordered | auspex-core/src/armory.rs:526-580 | reordering dependencies only reorders gates and extensions |
| ArmoryProperties.OverlaySecrets | auspex-core/src/armory.rs:667-670 | after the overlay merge required secrets are strictly sorted and exactly those declared or added |
| ArmoryProperties.OverlayOptionalSecrets | auspex-core/src/armory.rs:671-674 | the same for optional secrets |
| ArmoryProperties.OverlayIgnoresOrder | auspex-core/src/armory.rs:667-674 | after the merge, too, order does not matter |
| ImageReferences.AssessOciImageRef | auspex-core/src/agent_packages.rs:107-167 | the assessment of the trimmed image, with errors and warnings in order |
| ImageReferences.TaglessExactly | auspex-core/src/agent_packages.rs:169-176 | no tag is read exactly if the name ends in a colon or every colon has a slash after it |
| ImageReferences.TagRead | auspex-core/src/agent_packages.rs:169-176 | a tag that was written after a name is read |
| ImageReferences.TagWritten | auspex-core/src/agent_packages.rs:169-176 | a tag that is read can be written back after the rest |
| ImageReferences.PrintedIsRead | auspex-core/src/agent_packages.rs:107-167 | a written reference is read without error, with its tag and digest and the kind they imply |
| ImageReferences.PrintedAssessed | auspex-core/src/agent_packages.rs:135-167 | kind, pinning, mutability and the one warning of a written reference, from its tag and digest |
| ImageReferences.ErrorsExactly | auspex-core/src/agent_packages.rs:108-135 | the errors of any image: that it is missing, or whitespace, or an unsupported digest after the first `@` |
| ImageReferences.SupportedDigestExactly | auspex-core/src/agent_packages.rs:178-186 | a supported digest is `sha256:` and 64 digits or letters a to f |
| ImageReferences.PaddedIsRead | auspex-core/src/agent_packages.rs:108 | whitespace around it makes no difference |
| ImageReferences.ReadIsPrinted | auspex-core/src/agent_packages.rs:107-167 | an image read without error is the writing of a well-formed reference with that tag and digest |
| ImageReferences.AcceptedExactly | auspex-core/src/agent_packages.rs:107-167 | an image is accepted if and only if it is the writing of a well-formed reference |
| ImageReferences.RawAcceptedExactly | auspex-core/src/agent_packages.rs:107-167 | an untrimmed image is accepted if and only if it is such a writing with whitespace around it |
| ImageReferences.NamedExactly | auspex-core/src/agent_packages.rs:128-176 | an image is the writing of a reference with a name if and only if it is accepted, does not start with `@` and has no tag starting at 1 |
| ImageReferences.ColonNameExactly | auspex-core/src/agent_packages.rs:128-176 | the name ends in a colon if and only if the part before the digest does or a second colon stands before the tag |
| ImageReferences.AcceptedExamples | auspex-core/src/agent_packages.rs:107-167 | a tag alone, a digest alone and a name ending in a colon are accepted |
| ImageReferences.PrintInjective | auspex-core/src/agent_packages.rs:107-186 | no two well-formed references are written alike |
| ImageReferences.PinnedExactly | auspex-core/src/agent_packages.rs:128-167 | pinned exactly if a supported digest follows the first `@` and there is no whitespace; an accepted image is pinned exactly if it draws no warning |

## Left out

- Floating point: luminance, ratios and `round` are over exact reals (`round` to four places, ties to even), so results that differ only by a binary rounding error are not told apart.
- zlib: inflating is a function parameter that may fail; the round trip asks only that it undoes the given compression of the raster at hand.
- PNG checksums, interlacing and other colour types and bit depths: the reader does not look at the first two and refuses the others.
- The command line and the JSON output of the analyser: input and output only.
- The flow library behind the workflow compiler: its reports are inputs and its roles a function on nodes; `WorkflowCompiler.RolesReported` and `WorkflowCompiler.EdgesReported` state what its reports mean, each as the hypothesis of one result.
- Validation messages and gate reasons: kept as data; of the wording only that of gate operations is modelled, in `Armory.OperationText`.
- UUIDs: node and edge ids are numbers; the shape of their text does not matter to the compiler.
- Saving and loading of workflows and of the audit file, and JSON text: a loaded store is a version and a list of entries.
- The lists of all sessions, of the turns in the chosen session and of the kinds in the chosen turn that a query offers beside its entries, and the session list and texts of the panel: they fill menus and headings, and no choice of entries rests on them.
- Upper-case letters outside ASCII: none is folded by the original either.
- Package fields that the planner only carries along, such as namespaces and registry metadata: no decision depends on them.
- The wording of image errors and warnings: kept as data.
- User interface, rendering, transport, containers, authorization, compatibility, configuration, Kubernetes manifests and release scripts: interface plumbing, or decisions settled by reading one branch.
