# KoldStore, modelled in Dafny

KoldStore moves rows of a PostgreSQL table from the heap ("hot") to immutable Parquet segments ("cold"). Queries then
skip segments, row groups and pages with the help of small summaries, and a catalog protocol publishes and retires
segments while rows keep changing. A wrong skip or a wrong publish changes an answer without any error. This project
models the code that decides what to skip and what to publish, and proves that no answer changes; and, from the other
side, that what can be skipped is skipped and what should be published is.

What is modelled, file by file:

- `Bytes`, `Chars`, `Grouping`: byte and text order, reading text, grouping by key in an ordered map.
- `KeyBounds`: framed composite keys and the bounds of a segment's keys.
- `Compaction`, `CompactionPlan`, `CompactionUnits`: the sweep with union-find that finds overlapping segments, the
  disjointness test, and the greedy planner. `ColdVersions`: resolving the versions of a unit. `CompactionSafety`: a
  planned unit can be rewritten and published without changing a read. `SkipSafety`: when a scan may skip segments.
  `ListedRanges`: why the listed key ranges are true of the segments.
- `MirrorPages`, `Publication`, `PublicationSafety`, `PublicationEffects`, `PublicationProgress`, `PublicationExample`:
  commits, WAL apply, flush page by page, activation, prune, compaction and crashes as a step system over hot rows, queue,
  mirror and segments; every read equals the table in every run, each step does what it is for, and a flush can always be
  run to its end.
- `Terms`, `QueryCnf`, `TsQuery`, `TsQueryMeaning`, `TsQueryParser`, `TsQueryClauses`, `TsVector`, `JsonTerms`,
  `ArrayLiteral`, `ValueSummary`, `TermFilter`, `TermPruning`: term filters for `text[]`, `jsonb` and `tsvector`, from
  the stored text to the exclusion query, and what exactly is excluded.
- `FlushRows`, `SegmentEncoding`, `SegmentBoundaries`, `FlushStream`: the streaming encoder, whose segments are determined
  by the rows, and its keyset paging.
- `SegmentIndex`, `CandidateQuery`, `FlushedIndex`: range pruning by segment and row group, from the index row a flush
  writes to the row groups a scan reads. `RangePrecision`: what such a scan leaves unread. `PagePrune`: page pruning for
  equality.
- `VectorMath`, `VectorSketch`, `SketchCodec`, `Knn`, `KnnPrecision`, `KnnPruning`: nearest-neighbour pruning, and how
  far away a segment must be to be skipped.
- `HexOrder`, `ManifestShards`, `ManifestLayout`, `ManifestProtocol`, `ManifestSafety`, `ManifestStore`,
  `ManifestEffects`: the sharded manifest and its publication to object storage.
- `Jobs`, `JobSafety`, `JobEffects`: flush jobs and their attempt tokens.

Code that works by updating state is modelled as classes and methods with loops, proved against specification
functions. Statements that update catalog rows are steps of a step system, each atomic, with crashes between any two.
Lemmas switch automatic induction off, so that every proof is the one written in its body.

Taken as given, and passed in as parameters or stated as preconditions where they are used:

- The term hash is an arbitrary function, the content hash of manifest shards an injective one. The JSON parser is a
  function of the text, and a number's 64-bit float bits are a function of its numeric value.
- Numbers in `VectorMath`, `VectorSketch`, `Knn` and `KnnPruning` are reals with an exact square root; rounding to
  single precision may move a ball's centre anywhere in range, and rounding a radius up never lowers it but makes it
  infinite beyond the largest number. Single-precision numbers are stored exactly, and a vector has 1 to 16000
  coordinates, all finite.
- Parquet statistics hold of the rows they describe, except the bounds of numeric columns, which are stored as text;
  bounds are only written for a group that has a value. A page's offset index starts at row 0. Lemmas about what is left
  unread say where they need statistics that are exact.
- PostgreSQL prints `tsquery` and `tsvector` values in the form given by `TsQuery.Text` and `TsVector.VectorText`
  (flat chains of one operator, parentheses around weaker operators and around a phrase's right operand, doubled quotes
  and backslashes); jsonb containment is that of section 8.14.3 of the PostgreSQL documentation.
- Mirror sequence numbers are positive, distinct and grow, segment ids and file names do not repeat, one flush or
  compaction holds the table's job lock at a time, and the manifest has one writer at a time.

What can go wrong for a caller, with an input that shows it and the exact condition:

- `PublicationSafety.UnfencedReadExact`: a read that does not wait for the queue can return a deleted row
  (`PublicationExample.StaleReadHappens`).
- `CompactionUnits.SmallIsHalfTarget`: a row target beyond the largest 64-bit integer is read as that integer, and then
  every segment counts as small.

What single functions rely on, stated as an exact condition each, and what establishes it:

- `CandidateQuery.KeptIff`: the closed-range query needs bounds in pairs. A CHECK of the index table demands them, the
  table keeps it under every write (`CandidateQuery.IndexStaysValid`), and the rows a flush writes pass it
  (`FlushedIndex.FlushedPassesChecks`).
- `FlushStream.StreamFlushChunks`: an ordered pass has exactly the rows with an order key, a pass by sequence number those
  with a positive one. The mirror declares the order key NOT NULL and its numbers are positive, so in `Publication` every
  entry has both.
- `CompactionPlan.SharersTogetherIffUnboundedApart`: the sweep does not join segments without bounds. Compaction refuses
  to plan while there are any (`CompactionPlan.BoundedSharersTogether`).
- `PagePrune.MatchingRowReadIff`: pages must reach back to row 0, as Parquet writes them.
- `PublicationSafety.UnfencedPruneExact`: a prune must wait for the queue; the flush takes the fence before it prunes.
- `HexOrder.TextOrderIffConsistent`: comparing hex bounds as text needs one case. KoldStore writes lower case
  (`HexOrder.LowerHexAgrees`); validation alone would accept mixed case.
- `SkipSafety.SkippingKeepsResults`: skipping segments by an updatable column needs keys in one segment only. The scan
  asks the disjointness test first.

## Model

| member | source | states |
|---|---|---|
| KeyBounds.FrameOrder | crates/koldstore-parquet/src/key_bounds.rs:9-13 | framed strings, whatever follows them, are ordered as the plain strings; when these are equal, what follows decides |
| KeyBounds.FramedTupleOrder | crates/koldstore-parquet/src/key_bounds.rs:9-13 | byte order of framed, concatenated components is exactly the lexicographic order of equal-arity tuples of arbitrary byte strings |
| KeyBounds.FramePrefixFree | crates/koldstore-parquet/src/key_bounds.rs:28-36 | no framed string is a prefix of another, so a framed tuple reads in one way |
| KeyBounds.FrameTupleInjective | crates/koldstore-parquet/src/key_bounds.rs:28-36 | two tuples of one arity with the same framed bytes are the same tuple |
| KeyBounds.FrameLayout | crates/koldstore-parquet/src/key_bounds.rs:28-36 | the frame ends in 0x00 0x01; a zero byte inside becomes 0x00 0xFF and every other byte stays |
| KeyBounds.TupleLessExactly | crates/koldstore-parquet/src/key_bounds.rs:9-13 | one tuple is below another exactly when they agree up to some component and it is smaller there |
| KeyBounds.FrameComponent | crates/koldstore-parquet/src/key_bounds.rs:28-36 | the byte loop appends exactly the framed component to the buffer |
| KeyBounds.KeyBoundsBuilder.RowKey | crates/koldstore-parquet/src/key_bounds.rs:98-105 | a row's key is the framed tuple of its key cells; a NULL or unsupported cell is an error |
| KeyBounds.KeyBoundsBuilder.Push | crates/koldstore-parquet/src/key_bounds.rs:106-112 | bounds of the keys so far become bounds of those and one more, and the row is counted |
| KeyBounds.KeyBoundsBuilder.AddBatch | crates/koldstore-parquet/src/key_bounds.rs:86-115 | after a batch the bounds are the least and greatest key of everything added; a missing column or NULL fails |
| KeyBounds.KeyBoundsBuilder.Finish | crates/koldstore-parquet/src/key_bounds.rs:125-130 | bounds are returned exactly when every row of the segment was counted, and they are attained extremes |
| KeyBounds.SharedKeyMeetsExtremes | crates/koldstore-parquet/src/key_bounds.rs:64-130 | a key held by two segments makes their tuple intervals intersect |
| Compaction.SharedKeyMayShare | crates/koldstore-flush/src/compaction.rs:47-61 | if one key lies within the bounds of two segments, they may share keys, by boxes and by tuple interval |
| Compaction.MayShareExactly | crates/koldstore-flush/src/compaction.rs:40-61 | for ranges that are the extremes of two segments' keys the test answers no exactly when one column, or the tuples if both have tuple bounds, separate the keys |
| Compaction.OtherWidthNeverShares | crates/koldstore-flush/src/compaction.rs:47-56 | segments whose keys have different numbers of columns do not share keys |
| Compaction.Find | crates/koldstore-flush/src/compaction.rs:73-79 | path halving ends, returns the root, and changes no node's root |
| Compaction.Unite | crates/koldstore-flush/src/compaction.rs:91-98 | linking two classes makes the smaller root the root of both and leaves the others alone |
| Compaction.Sweep | crates/koldstore-flush/src/compaction.rs:80-100 | although segments leave the active list early, two bounded segments have one root exactly when a chain of sharing pairs joins them |
| Compaction.GroupByRoot | crates/koldstore-flush/src/compaction.rs:101-115 | groups list the nodes of each root in order, groups ordered by first member |
| Compaction.OverlapComponents | crates/koldstore-flush/src/compaction.rs:71-115 | for input sorted by first-column minimum the groups are exactly the connected components of the sharing graph, each ascending, ordered by first member |
| CompactionPlan.ComponentsUnique | crates/koldstore-flush/src/compaction.rs:71-115 | there is only one such grouping |
| CompactionPlan.SeparatedStandAlone | crates/koldstore-flush/src/compaction.rs:71-115 | segments whose keys are separated pairwise are components of their own |
| CompactionPlan.SharersTogetherIffUnboundedApart | crates/koldstore-flush/src/compaction.rs:82-84 | all pairs that may share keys end up together if and only if no segment without bounds stands beside another segment it counts as sharing with |
| CompactionPlan.BoundedSharersTogether | crates/pg_koldstore/src/sql/flush/compact.rs:163-174 | once every listed segment has bounds, as compaction demands before it plans, all pairs that may share keys are in one component |
| CompactionPlan.UnboundedPairSplit | crates/koldstore-flush/src/compaction.rs:82-84 | without that demand two segments without bounds, which may share keys by the test, would be put into different components |
| CompactionPlan.KeysDisjoint | crates/koldstore-flush/src/compaction.rs:122-145 | true only if no two segments may share keys, false only with a pair that may, and unknown only without bounds or past the pair budget |
| CompactionPlan.ApartIffSeparated | crates/koldstore-flush/src/compaction.rs:117-145 | no pair may share keys exactly when every two segments' keys are separated on a column or as tuples |
| CompactionPlan.LeadPairsAtMostAllPairs | crates/koldstore-flush/src/compaction.rs:122-145 | at most n(n-1)/2 pairs are compared, so that budget never runs out |
| CompactionPlan.DisjointMeansOneHolder | crates/koldstore-flush/src/compaction.rs:117-121 | after a true answer every key lies within the bounds of at most one segment |
| CompactionUnits.SmallIsHalfTarget | crates/koldstore-flush/src/compaction.rs:219-222 | the saturating test for a small segment means at most half the target, except exactly at the largest 64-bit target |
| CompactionUnits.PlanCompactionUnits | crates/koldstore-flush/src/compaction.rs:177-231 | the plan comes from one cut of the components into overlaps, runs of small neighbours and segments left alone; runs are closed only when full or interrupted, oversized overlaps are counted |
| CompactionUnits.PlannerSumsFit | crates/koldstore-flush/src/compaction.rs:202-227 | every sum of row counts the planner forms is at most the rows of all segments, so it does not overflow if these fit 64 bits |
| CompactionUnits.PlanComponents | crates/koldstore-flush/src/compaction.rs:187-229 | the loop keeps the plan equal to the units of the cut made so far |
| CompactionUnits.EveryOverlapIsPlanned | crates/koldstore-flush/src/compaction.rs:202-216 | every component of several segments is a unit if its rows fit the cap and oversized otherwise, never both |
| CompactionUnits.SmallRunsAreSafe | crates/koldstore-flush/src/compaction.rs:217-229 | a run has at least two members, each with at most half the target rows (or any number at the largest 64-bit target), pairwise not sharing keys, with at most target and at most cap rows in all |
| CompactionUnits.NoMissedMerge | crates/koldstore-flush/src/compaction.rs:217-229 | two small neighbours that are alone in their components are merged, unless the second would take what the first is merged with over the target or the cap |
| CompactionUnits.LargeSegmentsStay | crates/koldstore-flush/src/compaction.rs:219-222 | a segment that is alone and has more than half the target rows is in no unit |
| CompactionUnits.OverlappingUnitsAreComponents | crates/koldstore-flush/src/compaction.rs:202-216 | a unit's rows are the sum over its members; one marked overlapping is a whole component, and exactly those over the cap are set aside and counted |
| CompactionUnits.PlanUnique | crates/koldstore-flush/src/compaction.rs:177-231 | for row counts that are not negative there is only one plan that meets the planner's contract |
| CompactionUnits.UnitsAreClosed | crates/koldstore-flush/src/compaction.rs:12-17 | a segment that may share keys with a member of a unit is a member too |
| CompactionUnits.UnitsAreApart | crates/koldstore-flush/src/compaction.rs:177-231 | no segment is in two units, so no component is planned twice |
| CompactionUnits.UnitsApartFromOversized | crates/koldstore-flush/src/compaction.rs:177-231 | no segment is both in a unit and in a skipped overlap |
| CompactionUnits.UnitHoldsAllVersions | crates/koldstore-flush/src/compaction.rs:12-17 | a unit holds every segment that can hold a version of one of its keys |
| ColdVersions.RewriteKeepsAnswers | crates/pg_koldstore/src/sql/flush/compact.rs:363-369 | replacing rows by the newest version of each key changes no key's cold answer; delete markers may go when no other segment has their keys |
| ColdVersions.DroppedMarkerResurrects | crates/pg_koldstore/src/sql/flush/compact.rs:363-369 | without that condition dropping a marker brings a deleted row back |
| ColdVersions.ResolveRow | crates/pg_koldstore/src/sql/flush/compact.rs:386-401 | the winner map stays the newest version of every key seen, and every other version is in the history or accounted for as dropped |
| ColdVersions.ResolveVersions | crates/pg_koldstore/src/sql/flush/compact.rs:370-416 | the kept rows are a rewrite of the input; each input row is kept, moved to history or dropped, exactly once, and nothing at or above the retention bound is dropped |
| ColdVersions.DropMarkers | crates/pg_koldstore/src/sql/flush/compact.rs:405-415 | removing the winning delete markers leaves exactly the live winners |
| PublicationSafety.CommitKeeps | README.md:253-254 | a committed insert, update or delete keeps every cold row, mirror entry and collected row true of the new state |
| PublicationSafety.ApplyKeeps | README.md:299-303 | moving the oldest queued change to the mirror under a larger sequence number keeps the invariant |
| PublicationSafety.PageLeaves | crates/koldstore-flush/src/ops.rs:541-626 | a selected mirror row that the next page neither returns nor leaves ahead of the new cursor was already passed |
| PublicationSafety.FetchKeeps | crates/koldstore-flush/src/encode.rs:769-820 | a keyset page may be read at any time, queued changes or not: what it copies is true, and everything selected behind the cursor is collected unless its key has changed since |
| PublicationEffects.PassSteps | crates/koldstore-flush/src/encode.rs:738-820 | a pass starts before the first row; a page collects a copy of each entry it returns and moves the cursor to its last row, and a short one ends the pass |
| PublicationEffects.MirrorRowLayout | crates/koldstore-flush/src/ops.rs:541-626 | the page query sees an entry's sequence number, operation code 1, 2 or 3, framed key and order key |
| PublicationEffects.FetchedWasAsked | crates/koldstore-flush/src/ops.rs:541-626 | in every run, what a pass has fetched is at or below its watermark, of a selected operation and passes its filter |
| PublicationSafety.FinishedPassIsComplete | crates/koldstore-flush/src/encode.rs:815-820 | in every run, once a short page has ended a pass, every mirror entry still selected and not overtaken by a queued change is among the fetched rows in its current version, whatever was applied between the pages |
| PublicationSafety.PassMeetsOldRows | crates/koldstore-flush/src/cleanup.rs:108-110 | however the mirror changes, a pass only meets rows that were in it when the watermark was chosen |
| PublicationSafety.WriteSegmentKeeps | crates/koldstore-flush/src/segment_catalog.rs:56-120 | inserting a pending segment changes no read |
| PublicationSafety.ActivateFlushKeeps | crates/koldstore-flush/src/segment_catalog.rs:306-361 | publishing an attempt's segments, won or lost, changes no read and keeps the invariant |
| PublicationEffects.FlushPublishes | crates/koldstore-flush/src/segment_catalog.rs:306-361 | a won publication makes exactly the attempt's segments active, one that lost the compare-and-set changes none |
| PublicationSafety.PruneRemovesOnlyPublished | crates/koldstore-flush/src/cleanup.rs:78-162 | a mirror entry the cleanup deletes while no change of its key is queued has its exact version in an active segment: number, operation and image |
| PublicationSafety.PrunedKeysReadCold | crates/koldstore-flush/src/cleanup.rs:78-162 | for a pruned key cold storage alone answers what the table holds |
| PublicationSafety.PruneKeeps | crates/koldstore-flush/src/cleanup.rs:78-162 | deleting mirror and hot rows up to the greatest number written, behind the fence, keeps the invariant |
| PublicationEffects.PruneRemovesExactlyWritten | crates/koldstore-flush/src/cleanup.rs:78-162 | the cleanup removes a mirror entry exactly when the pass has written its current version |
| PublicationEffects.PruneEffect | crates/koldstore-flush/src/cleanup.rs:78-162 | after a prune a written key is neither in the mirror nor hot, and every other key and all segments are as they were |
| PublicationSafety.CompactionKeepsAnswers | crates/koldstore-flush/src/segment_catalog.rs:381-443 | a compaction publish leaves every key's cold answer as it was |
| PublicationSafety.CompactionKeeps | crates/koldstore-flush/src/segment_catalog.rs:381-443 | a compaction publish keeps the invariant, whether its compare-and-set wins or loses |
| PublicationEffects.CompactionPublishes | crates/koldstore-flush/src/segment_catalog.rs:381-443 | a publication wins exactly when generation and statuses are the expected ones; then every replaced segment is compacted, every rewritten one active, every history one history and no other touched, and otherwise nothing changes |
| PublicationEffects.CompactionReplaces | crates/koldstore-flush/src/segment_catalog.rs:381-443 | after a win the active segments are the old ones without the replaced and with the rewritten |
| PublicationEffects.CatalogSteps | crates/koldstore-flush/src/segment_catalog.rs:56-120 | writing adds one pending segment, reaping removes one, a crash ends the attempt and nothing else |
| PublicationSafety.StepKeepsInv | README.md:248-254 | every step of every kind keeps the invariant |
| PublicationSafety.ReadsEqualTable | README.md:253-254 | at every point of every run, with crashes anywhere, the merged read of every key is what the table holds |
| PublicationEffects.CommitIsRead | README.md:253-254 | a commit is what the next read of its key returns, and no other key's read changes |
| PublicationEffects.FenceDrains | README.md:299-303 | the fence empties the queue, and then the mirror holds the last change of every key that had one queued |
| PublicationSafety.UnfencedReadExact | README.md:299-303 | a read without the queue is wrong if and only if the key's delete is queued, the mirror has no delete for it and cold storage still shows a row |
| PublicationSafety.FencedReadExact | README.md:299-303 | once the queue holds no change of the key the plain read is right |
| PublicationSafety.UnfencedReadCanBeStale | README.md:296-303 | inserting and deleting again a key that lives only in cold storage makes an unfenced read return the old row |
| PublicationSafety.UnfencedPruneExact | crates/koldstore-flush/src/cleanup.rs:78-162 | a prune that does not wait for the queue gives a wrong read of a key if and only if it removes a hot row that differs from what active cold storage shows for the key, which takes a queued change |
| PublicationSafety.UnfencedPruneLosesUpdate | docs/cases/async-flush-prune-race.md:11-36 | an update committed between publication and such a prune is lost |
| PublicationExample.RowReachesColdStorage | crates/pg_koldstore/src/sql/flush/execute.rs:702-800 | there is a run that commits, applies, fetches, writes, publishes and prunes a row, and cold storage alone then answers for it |
| PublicationProgress.FlushMovesRows | crates/pg_koldstore/src/sql/flush/execute.rs:702-800 | from any reachable state without a flush in progress a flush of any selection can be run to its end; then every selected row without a queued change is in cold storage only, with its value, and every other is where it was |
| PublicationProgress.WholePage | crates/koldstore-flush/src/ops.rs:541-626 | one page with room to spare returns exactly the selected rows, in order |
| PublicationProgress.SeqsStayDistinct | crates/koldstore-flush/src/cleanup.rs:108-110 | every step keeps the mirror's sequence numbers distinct |
| PublicationExample.StaleReadHappens | README.md:296-303 | some run ends in a state where an unfenced read returns a deleted row |
| PublicationExample.LostUpdateHappens | docs/cases/async-flush-prune-race.md:11-36 | some run ends in a state where a prune that did not wait would lose an update |
| PublicationSafety.GenerationGrows | crates/koldstore-flush/src/segment_catalog.rs:306-361 | along a run the manifest generation never goes back and every change raises it, counting a missing row as 0 |
| PublicationSafety.OvertakenPublisherChangesNothing | crates/koldstore-flush/src/segment_catalog.rs:297-361 | a flush or compaction that read the generation and was overtaken by another publication changes no segment and no generation, at any later point of the run |
| PublicationSafety.SameGenerationSameActive | crates/koldstore-flush/src/segment_catalog.rs:306-443 | between two states of a run with the same generation the active segments are the same, rows included |
| PublicationSafety.SegmentsMoveForward | crates/koldstore-flush/src/segment_catalog.rs:381-443 | along a run a segment's rows never change, its status only moves from pending to active or history and from active to compacted, and one that was active is removed only after it was compacted |
| PublicationSafety.MirrorSeqsGrow | crates/koldstore-flush/src/cleanup.rs:108-110 | along a run a mirror entry changes only to a number above all earlier ones, so an older watermark never covers a later change |
| CompactionSafety.PlannedUnitSharesNoKey | crates/koldstore-flush/src/compaction.rs:12-17 | for segments whose bounds cover their rows, no active segment outside a planned unit holds one of its keys |
| CompactionSafety.PlannedCompactionKeepsReads | crates/koldstore-flush/src/segment_catalog.rs:364-443 | over a run: a unit planned in one state and published in a later one under the generation held since changes no read, markers dropped or kept, whether its compare-and-set wins or others have published first |
| SkipSafety.SkippingKeepsResults | crates/pg_koldstore/src/merge_scan/pg/cold.rs:509-520 | once the disjointness test has answered true, skipping segments in which no version passes a filter changes what is found for no key |
| SkipSafety.FindsOne | crates/pg_koldstore/src/merge_scan/pg/cold.rs:509-520 | a filtered scan finds a key's newest version if it is live and passes, and nothing else |
| SkipSafety.SkippedNewerVersionMissed | crates/pg_koldstore/src/merge_scan/pg/cold.rs:509-512 | with a key in two segments, skipping its newest version brings an older one that passes back |
| ListedRanges.TupleBoundsOf | crates/koldstore-flush/src/encode.rs:562-564 | tuple bounds exist exactly when every row has its whole key, and are the extremes of all keys |
| ListedRanges.ListedRangeCovers | crates/pg_koldstore/src/sql/flush/compact.rs:883-897 | the range listed from the key columns' index rows and the tuple bounds covers the key of every row of the segment |
| ListedRanges.ListedRangeExact | crates/pg_koldstore/src/sql/flush/compact.rs:883-897 | with exact statistics and a key in every row there is a listed range, and its ends are values of the keys in every column and keys as tuples |
| ListedRanges.ListedDescribe | crates/pg_koldstore/src/sql/flush/compact.rs:158-226 | so the ranges compaction plans from are true of the active segments |
| ListedRanges.ListedRangesHold | crates/pg_koldstore/src/merge_scan/pg/cold.rs:994-1067 | and so are those the disjointness test looks at |
| Terms.LexemeTermInjective | crates/koldstore-parquet/src/term_filter.rs:58-63 | different lexemes have different terms |
| Terms.JsonPairTermInjective | crates/koldstore-parquet/src/term_filter.rs:281-288 | a pair term determines its key and scalar for keys shorter than the 32-bit length limit |
| Terms.TermLayout | crates/koldstore-parquet/src/term_filter.rs:274-296 | every kind of term is its tag byte and its text; a pair term has the key's length before it, high byte first |
| Terms.Utf8Examples | crates/koldstore-parquet/src/term_filter.rs:51-63 | the UTF-8 bytes of one character of each length |
| QueryCnf.CrossHolds | crates/koldstore-parquet/src/term_filter.rs:240-250 | the product of two clause lists is satisfied exactly when one of them is |
| QueryCnf.CnfEquivalent | crates/koldstore-parquet/src/term_filter.rs:216-256 | a document satisfies the normal form if and only if the tree is true of it, with unknown operands taken as true |
| QueryCnf.CrossProduct | crates/koldstore-parquet/src/term_filter.rs:240-247 | the nested loops compute that product and add no empty clause |
| QueryCnf.Cnf | crates/koldstore-parquet/src/term_filter.rs:216-256 | the result is the node's full normal form with at most 64 clauses, none empty; it is given up if and only if a conjunction or a disjunction's branches so far exceed that budget before an unconstrained branch ends the disjunction |
| QueryCnf.SizeDecides | crates/koldstore-parquet/src/term_filter.rs:216-256 | conjunctions add and disjunctions multiply clauses: a tree of at most 64 by that count is never given up, and one without unknown operands is given up exactly beyond 64 |
| QueryCnf.CnfOfOr | crates/koldstore-parquet/src/term_filter.rs:229-254 | a disjunction's clauses, branch by branch, ending without constraint at an unconstrained branch and giving up exactly at the first branch over budget before one |
| QueryCnf.UnconstrainedBranch | crates/koldstore-parquet/src/term_filter.rs:232-235 | one branch without constraints leaves the disjunction without any |
| TsQuery.MatchHolds | crates/koldstore-parquet/src/term_filter.rs:164-209 | a document that matches a query, with weights, prefixes, negation and phrases measured from the end of one operand to the start of the next, satisfies the tree pruning looks at |
| TsQueryMeaning.TreeIsRelaxed | crates/koldstore-parquet/src/term_filter.rs:148-209 | the tree is true of a document exactly when the query is, reading words by presence alone, phrases as conjunctions, and prefixes and negations as true |
| TsQueryMeaning.WordedMatchIsRelaxed | crates/koldstore-parquet/src/term_filter.rs:148-209 | for words without flags joined by `&` and `|` nothing is lost: a document matches exactly when the relaxed query is true of its lexemes |
| TsQueryMeaning.PhraseMeans | crates/koldstore-parquet/src/term_filter.rs:164-179 | a phrase of two words matches exactly when the second stands the given distance after the first |
| TsQueryMeaning.FlagsMean | crates/koldstore-parquet/src/term_filter.rs:190-208 | a prefix asks for a lexeme that starts with the word, weights for an occurrence of one of them, a negation for no match |
| TsQueryMeaning.ClausesMean | crates/koldstore-parquet/src/term_filter.rs:216-272 | the clauses are satisfied by a document exactly when that relaxed query is true of it; there are none if an empty document would do, some otherwise up to 64 |
| TsQueryParser.WordRead | crates/koldstore-parquet/src/term_filter.rs:190-208 | a printed word with its flags is read back as its lexeme, or as unknown when it is a prefix |
| TsQueryParser.WeightLetters | crates/koldstore-parquet/src/term_filter.rs:190-208 | the weight flags are A to D in either case |
| TsQueryParser.PrintableExactly | crates/koldstore-parquet/src/term_filter.rs:190-208 | every query is printable whose words have no weights but A to D |
| TsQueryParser.PrintedQueryRead | crates/koldstore-parquet/src/term_filter.rs:148-209 | every printed query is read to its end as its own tree, operator precedence and parentheses included |
| TsQueryClauses.ReadQuoted | crates/koldstore-parquet/src/term_filter.rs:65-88 | the token loop returns the unescaped text and the position after it, or fails exactly when the grammar has no token there |
| TsQueryClauses.QueryParser.ParseOr | crates/koldstore-parquet/src/term_filter.rs:148-154 | reads a disjunction as the grammar does and ends where it ends |
| TsQueryClauses.QueryParser.ParseAnd | crates/koldstore-parquet/src/term_filter.rs:156-162 | reads a conjunction as the grammar does and ends where it ends |
| TsQueryClauses.QueryParser.ParsePhrase | crates/koldstore-parquet/src/term_filter.rs:164-179 | reads a phrase chain as the grammar does; an operator without closing bracket fails |
| TsQueryClauses.QueryParser.ParseUnary | crates/koldstore-parquet/src/term_filter.rs:181-209 | reads a negation, group or word as the grammar does |
| TsQueryClauses.TsqueryClauses | crates/koldstore-parquet/src/term_filter.rs:258-272 | for every printed query: a matching document satisfies every clause, a document satisfies them exactly when the relaxed query is true of it, there are 1 to 64 of them and none is empty; there are none exactly when the tree's normal form says nothing or is given up, or the text is no query to its end |
| TsVector.ParseTsvectorLexemes | crates/koldstore-parquet/src/term_filter.rs:90-114 | the loop reads lexemes as the grammar does and fails on anything else |
| TsVector.PrintedVectorRead | crates/koldstore-parquet/src/term_filter.rs:90-114 | every printed vector is read back as its lexemes in order, positions and weights skipped |
| TsVector.VectorExample | crates/koldstore-parquet/src/term_filter.rs:90-114 | a printed vector: quoted lexemes one after another, each with its positions if it has any |
| TsVector.PositionsExample | crates/koldstore-parquet/src/term_filter.rs:90-114 | positions are printed with the weights other than D |
| TsVector.SpelledDocument | crates/koldstore-parquet/src/term_filter.rs:90-114 | an example of entries and the document they spell |
| TsVector.SpelledExactly | crates/koldstore-parquet/src/term_filter.rs:90-114 | the document entries spell has each lexeme with its occurrences, and no other |
| JsonTerms.CollectProbeClauses | crates/koldstore-parquet/src/term_filter.rs:642-664 | pushes one clause per key, key/scalar pair and scalar element at any depth, and fails exactly when a number has no float form |
| JsonTerms.TermsExactly | crates/koldstore-parquet/src/term_filter.rs:322-357 | the terms of a document are those of its keys, key/scalar pairs and scalar elements at any depth and of a scalar at the top, and no others |
| JsonTerms.CanonExactly | crates/koldstore-parquet/src/term_filter.rs:297-319 | every scalar but a number without float has canonical bytes, a letter for its kind and its text or float; two have the same bytes only if they are equal or numbers with one float |
| JsonTerms.ProbeSatisfiedExactly | crates/koldstore-parquet/src/term_filter.rs:629-664 | a document satisfies a probe's clauses exactly when it has all the probe's terms |
| JsonTerms.ContainedTerms | crates/koldstore-parquet/src/term_filter.rs:629-664 | containment at any depth implies that every clause of the probe is hit by a term of the document |
| JsonTerms.ObjectExamples | crates/koldstore-parquet/src/term_filter.rs:629-664 | members are contained in any order, but not from another level of nesting |
| JsonTerms.ArrayExamples | crates/koldstore-parquet/src/term_filter.rs:629-664 | elements are contained in any order and number, not from another level; an array contains its scalars, but not the other way round |
| JsonTerms.JsonbContainsClauses | crates/koldstore-parquet/src/term_filter.rs:629-640 | clauses are given exactly for object and array probes that ask for something, and every containing document satisfies them |
| JsonTerms.KeyExistsHits | crates/koldstore-parquet/src/term_filter.rs:666-683 | a key that exists as object key, array element or top-level string is hit by its clause |
| JsonTerms.KeyClauseExactly | crates/koldstore-parquet/src/term_filter.rs:666-683 | a document hits a key's clause exactly when it has the key, or the string as an element or on its own, at some depth |
| JsonTerms.KeyExamples | crates/koldstore-parquet/src/term_filter.rs:666-683 | a key exists as that of a member, as a string element or as the whole document |
| JsonTerms.JsonbExistsClauses | crates/koldstore-parquet/src/term_filter.rs:668-683 | all keys give one clause each, any key gives a single clause with the terms of all and no others |
| JsonTerms.ExistsClausesSound | crates/koldstore-parquet/src/term_filter.rs:666-683 | a document with all the keys, or with one of them, satisfies the clauses built for that operator |
| ArrayLiteral.TextArrayLiteral | crates/pg_koldstore/src/sql/flush/mirror_fetch.rs:420-450 | the writer's loops produce the quoted literal with its bounds prefix |
| ArrayLiteral.WrittenArrayRead | crates/koldstore-parquet/src/term_filter.rs:359-450 | every written literal, whatever its elements and lower bound, is read back as the array |
| ArrayLiteral.SpacesExactly | crates/koldstore-parquet/src/term_filter.rs:402-441 | white space is exactly the 25 Unicode code points |
| ArrayLiteral.BlanksAroundArray | crates/koldstore-parquet/src/term_filter.rs:379-400 | blanks before and after a literal do not matter |
| ArrayLiteral.PrefixExactly | crates/koldstore-parquet/src/term_filter.rs:359-376 | a bounds prefix is dropped exactly when both bounds are whole numbers |
| ArrayLiteral.BareElementRead | crates/koldstore-parquet/src/term_filter.rs:402-441 | an element without quotes is read as its text without the blanks around it, or as NULL for that word in any case |
| ArrayLiteral.JsonArrayRead | crates/koldstore-parquet/src/term_filter.rs:378-396 | a JSON array is read element by element: null as NULL, a string as its text, anything else as its JSON text |
| ArrayLiteral.ParseTextArray | crates/koldstore-parquet/src/term_filter.rs:379-450 | the reader's loops agree with the grammar for literals and JSON arrays, so a written literal gives its elements |
| ArrayLiteral.ReadElementAt | crates/koldstore-parquet/src/term_filter.rs:402-441 | one element, quoted or bare, is read as the grammar says, NULL included |
| ValueSummary.BitSet | crates/koldstore-sortkey/src/summary.rs:109-113 | setting a bit sets that bit and no other |
| ValueSummary.BitmapSize | crates/koldstore-sortkey/src/summary.rs:100-108 | sixteen bits a row, at least 64 and at most 65536 |
| ValueSummary.ValueSummaryBuilder.InsertHash | crates/koldstore-sortkey/src/summary.rs:74-84 | hashes are collected until the cap, past which nothing is kept |
| ValueSummary.ValueSummaryBuilder.Finish | crates/koldstore-sortkey/src/summary.rs:100-115 | a bitmap of the documented size whose set bits are exactly those of the hashes, or none when empty or overflowed |
| TermFilter.TermFilterBuilder.AddBatch | crates/koldstore-parquet/src/term_filter.rs:475-496 | the hashes stay exactly those of the terms of all values, or the filter is given up for good; a readable batch never gives it up |
| TermFilter.TermFilterBuilder.AddValue | crates/koldstore-parquet/src/term_filter.rs:498-527 | a value adds the hashes of its terms, and fails exactly when it cannot be read |
| TermFilter.TermFilterBuilder.EmitJson | crates/koldstore-parquet/src/term_filter.rs:322-357 | a document adds the hashes of exactly its terms at every depth, and fails exactly when a number has no float form |
| TermFilter.TermFilterBuilder.Finish | crates/koldstore-parquet/src/term_filter.rs:532-541 | a filter exists exactly when complete, covering the stated row count, non-empty and within the cap; its bits are exactly the collected ones |
| TermPruning.RebuildTermFilter | crates/koldstore-parquet/src/term_filter.rs:585-600 | a filter is built only if every batch has the column and every value can be read, and then it covers them all |
| TermPruning.ProbeRowsOf | crates/pg_koldstore/src/merge_scan/pg/cold.rs:584-594 | the probe rows are exactly the hashed terms of the clauses with their clause numbers |
| TermPruning.ExcludedHasNoMatch | crates/koldstore-catalog/src/queries.rs:1146-1176 | if every filter stored for the column covers the values at its path, no value stored at a path the query returns satisfies the clauses, whatever the hash, the bitmap sizes and the number of clauses sent |
| TermPruning.ExcludedExactly | crates/koldstore-catalog/src/queries.rs:1146-1176 | a segment with an exact filter is excluded if and only if it is active, of the table and column, and some pushed clause has terms none of which falls on a set bit |
| TermPruning.ContainsClausesExact | crates/koldstore-parquet/src/term_filter.rs:602-616 | `@>` has clauses exactly for a non-empty probe without NULLs, and an array satisfies them if and only if it contains the probe |
| TermPruning.OverlapClauseExact | crates/koldstore-parquet/src/term_filter.rs:618-627 | `&&` has a clause exactly for a probe with an element that is not NULL, and an array satisfies it if and only if the two overlap |
| TermPruning.SkippedIffExcluded | crates/pg_koldstore/src/merge_scan/pg/cold.rs:655-663 | finding a segment among the excluded paths by the end of its object name skips exactly the segments whose own path was returned |
| TermPruning.EndsWithExactly | crates/pg_koldstore/src/merge_scan/pg/cold.rs:655-663 | an object name matches a path exactly when it is that path in some directory |
| TermPruning.ExcludedHoldsNoMatchingArray | crates/koldstore-parquet/src/term_filter.rs:602-627 | a returned path stores no array matching `@>` or `&&` |
| TermPruning.ExcludedHoldsNoMatchingDocument | crates/koldstore-parquet/src/term_filter.rs:629-683 | a returned path stores no document matching `@>` or one of the key-existence operators |
| TermPruning.ExcludedHoldsNoMatchingVector | crates/koldstore-parquet/src/term_filter.rs:258-272 | a returned path stores no vector matching the query |
| Grouping.GroupBy | crates/koldstore-flush/src/encode.rs:166-170 | the ordered map holds, for each key, exactly the items of that key in their order |
| Grouping.ConcatIsStableGrouping | crates/koldstore-flush/src/encode.rs:160-172 | its groups one after another keep every key's items in order, together, keys ascending |
| FlushRows.GroupRowsByScope | crates/koldstore-flush/src/encode.rs:165-172 | a stable permutation of the rows with each scope contiguous and scopes ascending |
| FlushRows.ScopesAscend | crates/koldstore-flush/src/encode.rs:165-172 | rows without a scope come first, then the scopes in the order of their UTF-8 bytes |
| SegmentEncoding.SegmentEncoder.PushBatch | crates/koldstore-flush/src/encode.rs:546-581 | the pending rows become a row group, no row is lost or reordered, and the segment must close once it reaches the cap |
| SegmentEncoding.SegmentEncoder.FinishSegment | crates/koldstore-flush/src/encode.rs:583-672 | the open segment is written with its scope if it has a row group, and nothing otherwise |
| SegmentEncoding.SegmentEncoder.EnterScope | crates/koldstore-flush/src/encode.rs:781-795 | a row of another scope closes the open segment first, so the next segment holds one scope |
| SegmentEncoding.ChunkScopeIsCell | crates/koldstore-flush/src/encode.rs:174-191 | a written segment of a scoped table carries the text, number or truth value of its rows' scope cell, for a delete marker the recorded scope, and none for NULL, empty or other cells |
| SegmentEncoding.UnscopedChunk | crates/koldstore-flush/src/encode.rs:781-795 | segments of a table without a scope column carry none |
| SegmentEncoding.GroupsAreFull | crates/koldstore-flush/src/encode.rs:546-581 | row groups have exactly the configured size but for a segment's last, which is not empty, and segments stay within the row cap; limits of zero count as one |
| SegmentBoundaries.SegmentsUnique | crates/koldstore-flush/src/encode.rs:738-835 | the same rows under the same limits and split policy give the same segments: boundaries, row groups and scopes |
| SegmentEncoding.SegmentEncoder.AddRow | crates/koldstore-flush/src/encode.rs:779-812 | rows so far plus this one; segments stay within the row cap, hold one scope, are cut only by the policy or a scope change, and only a last row group is short |
| SegmentEncoding.SegmentEncoder.Finish | crates/koldstore-flush/src/encode.rs:822-834 | the written segments concatenated are all rows taken, in order, with their count and greatest sequence number |
| SegmentEncoding.MaxSeqIsMax | crates/koldstore-flush/src/encode.rs:779-780 | the reported watermark is the greatest sequence number, or 0 |
| MirrorPages.PageScanned | crates/koldstore-flush/src/ops.rs:541-626 | while the mirror changes between pages, a keyset page moves the scan past its last row and skips no reachable row that stays; a short page completes the scan |
| MirrorPages.BeforeExactly | crates/koldstore-flush/src/ops.rs:541-626 | pages are ordered by sequence number, or by order key with NULLs last, primary key and sequence number; two rows at different places are in order one way or the other |
| FlushStream.StreamFlushChunks | crates/koldstore-flush/src/encode.rs:738-835 | over a changing mirror the loop ends; the written segments concatenated are rows that were there to fetch, in order, and have every row that stayed if and only if paging can reach it (or they are the rows read beforehand); it fails exactly when a NULL order key turns up |
| FlushStream.PassTakesOnce | crates/koldstore-flush/src/encode.rs:738-835 | no place of the mirror is written twice, and nothing that was not in it |
| FlushStream.PassAscends | crates/koldstore-flush/src/ops.rs:541-626 | the rows of a pass ascend by sequence number, or by order key, primary key and sequence number |
| FlushStream.ReadAllPages | crates/pg_koldstore/src/sql/flush/execute.rs:430-462 | the pass a user-scoped table reads beforehand has every reachable row that stayed, once, in order |
| MirrorPages.NullOnPage | crates/koldstore-flush/src/encode.rs:776-778 | a NULL order key is on a page if and only if it is the first page and the other rows leave room for it |
| FlushStream.NullKeyIsSkipped | crates/koldstore-wal-mirror/src/mirror/shared/schema.rs:173-175 | without the NOT NULL of the order key, a row after a full first page would not be written, without an error |
| SegmentIndex.ExtractColumnIndex | crates/koldstore-parquet/src/footer.rs:241-318 | succeeds exactly when null counts are possible, no all-null group has bounds and a required column is bounded; the arrays repeat the footer and the segment bounds are the groups' extremes when complete |
| SegmentIndex.ExtractedBoundsPaired | crates/koldstore-parquet/src/footer.rs:292-303 | segment bounds, and each group's, are both there or both missing |
| SegmentIndex.ExtractedBoundsCover | crates/koldstore-parquet/src/footer.rs:298-303 | every non-NULL value of the segment lies within the segment bounds, if there are any |
| SegmentIndex.NumericBounds.Add | crates/koldstore-flush/src/encode.rs:312-323 | bounds stay the extremes of the keys seen, and one unreadable value disables them |
| SegmentIndex.NumericBounds.AddBatch | crates/koldstore-flush/src/encode.rs:296-325 | a batch adds the keys of its values, and the bounds are given up exactly for a missing column or a value without a key |
| SegmentIndex.NumericBounds.Finish | crates/koldstore-flush/src/encode.rs:328-334 | both bounds or neither are handed out, covering and attained, and the state starts over |
| SegmentIndex.SelectPackedRowGroups | crates/koldstore-catalog/src/segment_index.rs:53-116 | fails exactly on malformed metadata; otherwise selects, ascending, exactly the groups whose metadata allows a value in the range |
| SegmentIndex.ExtractedDescribesGroup | crates/koldstore-catalog/src/segment_index.rs:63-112 | metadata extracted from truthful statistics holds of its row group, so the selector never rejects it |
| SegmentIndex.GroupWithValueSelected | crates/koldstore-catalog/src/segment_index.rs:44-116 | a group that its metadata describes and that holds a value in the range is selected |
| CandidateQuery.IndexStaysValid | crates/pg_koldstore/sql/koldstore--0.1.0.sql:284-309 | whatever is inserted, replaced, filled in or removed, the index rows keep their checks and one row per segment and column |
| CandidateQuery.WriteEffect | crates/pg_koldstore/sql/koldstore--0.1.0.sql:284-309 | an inserted row takes the place of its predecessor unless its bounds are unpaired or reversed or its arrays uneven; a rebuild fills in only missing summaries; a removal is complete |
| CandidateQuery.KeptIff | crates/koldstore-catalog/src/queries.rs:553-648 | an index row of a segment with a row asked for is kept by its arms if and only if it is not a two-sided range meeting a minimum without a maximum |
| CandidateQuery.AsksExactly | crates/koldstore-catalog/src/queries.rs:553-648 | which rows a query asks for: those between its bounds, both included, or the one value of a point query together with its key's hash |
| CandidateQuery.UnpairedBoundsLoseSegment | crates/pg_koldstore/sql/koldstore--0.1.0.sql:305 | without the CHECK, a minimum and no maximum would make the closed query drop a row that the one-sided queries keep |
| CandidateQuery.SegmentWithRowIsRead | crates/koldstore-catalog/src/queries.rs:795-931 | an active segment with a row asked for is returned; whichever arm returns it, with an index row's arrays or with NULLs, the selector accepts the arrays and keeps the row's group |
| FlushedIndex.KeySummaryState.RowKey | crates/koldstore-parquet/src/value_summary.rs:112-121 | a row's key is its key columns' bytes back to back, if all of them can be used |
| FlushedIndex.KeySummaryState.AddBatch | crates/koldstore-flush/src/encode.rs:234-245 | the hashes stay those of all whole keys, up to the cap; a missing column or unencodable value gives the summary up |
| FlushedIndex.KeySummaryState.Finish | crates/koldstore-flush/src/encode.rs:249-258 | there is a summary exactly when every row has its whole key and the segment is within the cap, and its bits are exactly those of the keys' hashes |
| FlushedIndex.WriteIndexRow | crates/koldstore-flush/src/encode.rs:583-672 | the index row has the extracted arrays, for a numeric column the extremes of its values instead of missing bounds, and the key summary if the column carries it |
| FlushedIndex.FlushedDescribes | crates/koldstore-flush/src/encode.rs:583-672 | that row holds of every row of the segment: bounds, summary and row-group arrays |
| FlushedIndex.FlushedPassesChecks | crates/pg_koldstore/sql/koldstore--0.1.0.sql:305-308 | that row passes the checks of the index table |
| FlushedIndex.RangeScanKeepsRow | crates/koldstore-catalog/src/queries.rs:795-931 | from flush to scan: an active row that a range or point query asks for, by one column or by a whole composite key, is in a returned segment, the arrays returned with it are accepted, and its row group is selected, with or without summary, bounds or index row |
| RangePrecision.SegmentReadExactly | crates/koldstore-catalog/src/queries.rs:795-931 | with exact statistics an active segment with an index row is returned if and only if the range reaches its values, or it has none, and for a point query some key falls on the bit of the one asked for |
| RangePrecision.GroupReadExactly | crates/koldstore-catalog/src/segment_index.rs:44-116 | a row group is read if and only if it has a value and the range reaches its values; one of a numeric column if and only if it has a value |
| RangePrecision.RowBoundsExact | crates/koldstore-flush/src/encode.rs:583-672 | a flushed row has bounds exactly when the column has a value, and they are values of it |
| RangePrecision.SummaryExact | crates/koldstore-flush/src/encode.rs:249-258 | there is a summary exactly when every row has its key and they are 32768 at most; a bit is set exactly when some row's key falls on it |
| RangePrecision.OnlyWanted | crates/koldstore-catalog/src/queries.rs:795-931 | only active segments of the table and scope asked about are returned, each once |
| PagePrune.SelectPages | crates/koldstore-parquet/src/page_prune.rs:149-187 | fails exactly for page spans that do not ascend within the group; otherwise the selectors say of each row of the group, once and in order, whether its page may match |
| PagePrune.RowSelection | crates/koldstore-parquet/src/page_prune.rs:90-201 | the selectors cover the selected groups' rows exactly once in order; nothing is read without values, everything without a usable index |
| PagePrune.MaskAt | crates/koldstore-parquet/src/page_prune.rs:90-201 | a row's place among the selectors is its place after all rows of the groups before |
| PagePrune.MatchingRowReadIff | crates/koldstore-parquet/src/page_prune.rs:154-187 | a row equal to a probe value is read if and only if its group has no usable index or its first page starts at or before the row |
| PagePrune.MatchingRowRead | crates/koldstore-parquet/src/page_prune.rs:203-282 | with pages starting at row 0 every row equal to a probe value is read |
| PagePrune.MatchingRowSelected | crates/koldstore-parquet/src/page_prune.rs:90-201 | the returned selectors read every row equal to a probe value, in whatever group it is |
| PagePrune.RowReadExactly | crates/koldstore-parquet/src/page_prune.rs:203-282 | a row of a page with exact statistics is read if and only if some probe value lies between two values of the page |
| PagePrune.LateFirstPageSkips | crates/koldstore-parquet/src/page_prune.rs:173-187 | a first page at row 1 would skip the matching row 0 |
| PagePrune.Contains | crates/koldstore-parquet/src/page_prune.rs:203-282 | a page is kept exactly when its statistics allow one of the probe values, by the column's type |
| VectorMath.CauchySchwarz | crates/koldstore-parquet/src/vector_sketch.rs:52-76 | the square of an inner product is at most the product of the squared norms |
| VectorMath.Triangle | crates/koldstore-parquet/src/vector_sketch.rs:66-76 | the distance satisfies the triangle inequality |
| VectorMath.CosineIsHalfSquare | crates/koldstore-parquet/src/vector_sketch.rs:3-8 | cosine distance is half the squared distance of the unit vectors |
| VectorSketch.BallBuilder.Add | crates/koldstore-parquet/src/vector_sketch.rs:87-97 | before the centre settles all vectors are kept, afterwards the ball covers every vector added, with the least radius that does |
| VectorSketch.BallBuilder.Settle | crates/koldstore-parquet/src/vector_sketch.rs:100-117 | the centre is the narrowed mean of the sample and the ball covers the sample |
| VectorSketch.VectorSketchBuilder.AddBatch | crates/koldstore-parquet/src/vector_sketch.rs:162-190 | both balls cover exactly the vectors and directions seen, or the sketch is given up for good, and only for a missing column, an unreadable value or a second dimension |
| VectorSketch.VectorSketchBuilder.Finish | crates/koldstore-parquet/src/vector_sketch.rs:194-228 | a sketch exists exactly when all values were readable and there is a vector; its balls and counts describe the segment, each centre is the narrowed mean of the first 1024 vectors and each radius the largest distance rounded up, infinite only if some distance is beyond single precision |
| SketchCodec.SketchRead | crates/koldstore-parquet/src/vector_sketch.rs:194-272 | every stored sketch is decoded unchanged, infinite radii included |
| SketchCodec.DecodeExactly | crates/koldstore-parquet/src/vector_sketch.rs:239-272 | bytes are a sketch exactly when they start with the magic, give a dimension from 1 to 16000 and have the length for it |
| SketchCodec.EncodeSketch | crates/koldstore-parquet/src/vector_sketch.rs:201-217 | the appended bytes are the documented layout |
| SketchCodec.BuiltIsStorable | crates/koldstore-parquet/src/vector_sketch.rs:194-228 | every sketch built from a segment's values can be stored: means and directions stay within single precision, a radius beyond it is stored as infinity |
| SketchCodec.StoreSketch | crates/koldstore-parquet/src/vector_sketch.rs:162-218 | bytes are stored exactly when every value can be read, the vectors have one dimension and there is a vector; what a query decodes from them describes the segment |
| SketchCodec.SomeNumbersFit | crates/koldstore-parquet/src/vector_sketch.rs:220-228 | there are numbers and a four-byte format that meet what the two above assume |
| Knn.BoundsHold | crates/koldstore-parquet/src/vector_sketch.rs:277-301 | every row with a distance lies between its segment's lower and upper bound, for both metrics and for finite and infinite radii |
| KnnPrecision.BallPrecision | crates/koldstore-parquet/src/vector_sketch.rs:281-287 | a ball's bounds are within its diameter, one part in ten thousand of the distances and a millionth of the distance of any vector in it |
| KnnPrecision.RoomForRounding | crates/koldstore-parquet/src/vector_sketch.rs:281-287 | the bounds still hold for a distance that is off by one part in ten thousand and a millionth |
| KnnPrecision.BoundsPrecise | crates/koldstore-parquet/src/vector_sketch.rs:277-301 | for both metrics the bounds of a segment with a finite ball are as close to the distance of any of its rows as the ball is wide |
| Knn.CountHolds | crates/koldstore-parquet/src/vector_sketch.rs:277-301 | the count behind the bounds is the number of rows that have a distance |
| Knn.FindThreshold | crates/koldstore-parquet/src/vector_sketch.rs:331-339 | the threshold is the first upper bound by which enough rows are covered, and missing exactly when there are too few |
| Knn.ThresholdUnique | crates/koldstore-parquet/src/vector_sketch.rs:331-342 | there is only one such threshold |
| KnnPruning.KnnExcluded | crates/koldstore-parquet/src/vector_sketch.rs:310-350 | excludes exactly the segments whose lower bound is above the needed-th smallest upper bound, and none when fewer rows are covered |
| KnnPruning.NearCount | crates/koldstore-parquet/src/vector_sketch.rs:10-11 | at least as many rows lie within a distance as the segments with an upper bound below it count |
| KnnPruning.ExcludedRowNotNearest | crates/koldstore-parquet/src/vector_sketch.rs:303-350 | whatever at most needed - k rows are masked, at least k surviving rows are strictly nearer than any row of an excluded segment, NULL and zero vectors included |
| KnnPruning.SurvivorsAreNearer | crates/koldstore-parquet/src/vector_sketch.rs:303-350 | strictly nearer means a distance that is smaller, or any distance against none |
| KnnPruning.FarSegmentExcluded | crates/koldstore-parquet/src/vector_sketch.rs:303-350 | a segment beyond the reach of enough rows in other segments, by the widths of their balls, is excluded |
| KnnPruning.SkippedSegments | crates/koldstore-parquet/src/vector_sketch.rs:239-350 | from stored bytes to the answer: whatever rows are masked, as many survivors as are still needed are strictly nearer than any row of a skipped segment, and every segment beyond the reach of enough other rows is skipped |
| HexOrder.TextOrderIffConsistent | crates/koldstore-manifest/src/shards.rs:302-344 | comparing hex text over an alphabet agrees with comparing bytes if and only if characters and digit values come in the same order |
| HexOrder.LowerHexAgrees | crates/koldstore-manifest/src/shards.rs:302-344 | lower-case hex text is ordered like its bytes |
| HexOrder.NibbleExactly | crates/koldstore-manifest/src/shards.rs:350-354 | the hex digits of either case and their values |
| HexOrder.MixedCaseDisagrees | crates/koldstore-manifest/src/shards.rs:350-354 | mixed case is accepted and ordered the wrong way round |
| ManifestShards.FolderNameParses | crates/koldstore-manifest/src/paths.rs:74-77 | a folder number is recovered from its zero-padded name |
| ManifestShards.ShardPathsDistinct | crates/koldstore-manifest/src/paths.rs:48-53 | shards of different folders never have the same path |
| ManifestLayout.FolderNameShape | crates/koldstore-manifest/src/paths.rs:74-77 | a folder name is the number in decimal, padded with zeros to three digits |
| ManifestLayout.FolderParsesExactly | crates/koldstore-manifest/src/paths.rs:74-77 | the folder names are exactly the padded names of the positive 32-bit numbers |
| ManifestLayout.ShardPathLayout | crates/koldstore-manifest/src/paths.rs:48-53 | a shard's object is named by its folder and the first 32 characters of its checksum |
| ManifestLayout.FolderOfPathExactly | crates/koldstore-manifest/src/paths.rs:59-72 | a path lies in a folder exactly when it is folder/file or scope/folder/file with plain names |
| ManifestLayout.ValidatedExactly | crates/koldstore-manifest/src/shards.rs:218-348 | a segment is filed under a folder exactly when its groups are consistent and add up to its rows, every column has paired, ordered bounds and possible null counts for each group, and it lies in the folder of its hundred batches |
| ManifestShards.SplitManifest | crates/koldstore-manifest/src/shards.rs:36-96 | succeeds exactly when every segment validates and no folder is over the count limit; one shard per folder in folder order with that folder's segments, a root that refers to them, and the file counts with the last folder's name |
| ManifestLayout.ShardHoldsFolder | crates/koldstore-manifest/src/shards.rs:49-76 | every shard holds exactly its folder's segments in order; its reference counts them and gives their least and greatest sequence numbers, the checksum and the path |
| ManifestLayout.RootOfSplit | crates/koldstore-manifest/src/shards.rs:78-94 | the root is the manifest in layout version 2 without its segments |
| ManifestLayout.EverySegmentIsExported | crates/koldstore-manifest/src/shards.rs:36-76 | every segment is in the shard of its folder |
| ManifestLayout.SplitUnique | crates/koldstore-manifest/src/shards.rs:36-96 | the shards and references of an export are determined by the manifest |
| ManifestShards.MergeManifestShards | crates/koldstore-manifest/src/shards.rs:109-127 | succeeds exactly when root, references and shards agree, and then puts the segments back in shard order |
| ManifestLayout.ShardAcceptedExactly | crates/koldstore-manifest/src/shards.rs:150-216 | a shard is accepted exactly when version, folder, table, namespace, schema version, object name, segment folders, count and sequence range all agree with its reference and root |
| ManifestShards.SplitThenMerge | crates/koldstore-manifest/src/shards.rs:36-127 | what a split produces always merges, into the manifest's segments stably regrouped by folder |
| ManifestSafety.PutShardKeeps | crates/koldstore-manifest/src/io.rs:116-135 | putting a shard, skipping one the previous root has, or failing on foreign content keeps the invariant |
| ManifestSafety.PutRootKeeps | crates/koldstore-manifest/src/io.rs:136-137 | the new root is put only when all its shards are stored |
| ManifestSafety.DeleteShardKeeps | crates/koldstore-manifest/src/io.rs:146-181 | cleanup removes nothing the published root refers to |
| ManifestSafety.LoadShardKeeps | crates/koldstore-manifest/src/io.rs:208-253 | a load that fails an attempt saw a root put since it read its root, and starts over once |
| ManifestSafety.PublishedRootIsWhole | crates/koldstore-manifest/src/io.rs:95-140 | in every reachable state, crashes included, the published root refers only to stored shards with matching content |
| ManifestSafety.LoadReturnsPublished | crates/koldstore-manifest/src/io.rs:208-253 | whatever a load returns is a published manifest with its segments regrouped by folder |
| ManifestSafety.LoadFailsOnlyAfterTwoPuts | crates/koldstore-manifest/src/io.rs:198-234 | a load overlapped by at most one root put does not fail |
| ManifestEffects.LoadIsCurrent | crates/koldstore-manifest/src/io.rs:208-253 | in every run, a load returns the manifest that was the published one at some moment since it started |
| ManifestEffects.UndisturbedLoad | crates/koldstore-manifest/src/io.rs:208-253 | from any reachable state, whatever a writer is in the middle of, an undisturbed load runs to its end and returns the published manifest |
| ManifestEffects.WritePublishes | crates/koldstore-manifest/src/io.rs:104-140 | from any reachable state without a write in progress, a write that meets no foreign object under its names runs until its manifest is published |
| ManifestEffects.PutShardEffect | crates/koldstore-manifest/src/io.rs:116-135 | a put stores its shard under its name unless it is there, and a clash ends the write without changing what is stored |
| ManifestEffects.PutRootEffect | crates/koldstore-manifest/src/io.rs:136-145 | putting the root publishes the export, and cleanup is then for the folders of its shards and of those of the root it replaced |
| ManifestEffects.MissingShardEffect | crates/koldstore-manifest/src/io.rs:198-234 | a load whose next shard is missing or different starts over from the current root once and fails the second time |
| ManifestEffects.CleanupEffect | crates/koldstore-manifest/src/io.rs:146-181 | cleanup deletes only unreferenced objects under the folders it lists and ends only when none is left |
| ManifestEffects.CleanupGoesOn | crates/koldstore-manifest/src/io.rs:146-181 | cleanup can always delete an object or end |
| ManifestStore.ObjectStore.PutImmutable | crates/koldstore-storage/src/publish.rs:132-175 | an object is created if absent, reused if identical, refused if different |
| ManifestStore.WriteManifest | crates/koldstore-manifest/src/io.rs:104-140 | succeeds exactly when the manifest splits and no stored object clashes with a shard; then the store publishes it, nothing unreferenced is left under the folders of the new root and of the one it replaced, and nothing else is deleted; on failure the published root and all it refers to are untouched |
| ManifestStore.RemoveUnreferenced | crates/koldstore-manifest/src/io.rs:146-181 | exactly the unreferenced shards of the listed folders are deleted |
| ManifestStore.LoadManifest | crates/koldstore-manifest/src/io.rs:208-253 | without a root there is no manifest; with one the result is its shards' segments exactly when all are stored with matching checksums and agree with it, and an error otherwise; after a write the load returns that manifest regrouped by folder |
| Jobs.StepKeeps | crates/koldstore-flush/src/table_jobs.rs:152-327 | every statement keeps one active job per table, tokens unique, a pending job without token and a running one under its newest claim |
| Jobs.EnqueueKeeps | crates/koldstore-flush/src/ops.rs:196-237 | enqueueing attaches to the active job or inserts a new one, without a second active job |
| Jobs.ClaimKeeps | crates/koldstore-flush/src/table_jobs.rs:187-212 | a claim under a fresh token keeps the invariant |
| JobSafety.OneActiveFlushJob | crates/koldstore-flush/src/ops.rs:196-237 | in every reachable state a table has at most one pending or running flush job, hence one per table and scope |
| JobSafety.TerminalIsFinal | crates/koldstore-flush/src/table_jobs.rs:251-327 | the row of a completed, cancelled or failed job never changes again |
| JobSafety.WatermarkIsFixed | crates/koldstore-flush/src/table_jobs.rs:187-212 | a watermark once set never changes, through reclaims and later claims |
| JobSafety.OnlyLatestClaimUpdates | crates/koldstore-flush/src/table_jobs.rs:220-327 | a progress or terminal update takes effect only on a running job under the token of its newest claim, and on no other row |
| JobSafety.LostExecutorChangesNothing | crates/koldstore-flush/src/table_jobs.rs:101-120 | an executor that lost its job to a reclaim or another claim changes nothing ever after |
| JobSafety.ProgressWithinTotal | crates/koldstore-flush/src/table_jobs.rs:220-244 | reported progress never exceeds the reported total |
| JobEffects.RequestAdds | crates/koldstore-flush/src/ops.rs:196-237 | a request on an idle table adds a pending job with its scope, watermark and force flag; a bare insert on a busy one does nothing |
| JobEffects.RequestAttaches | crates/koldstore-flush/src/ops.rs:196-237 | a request that finds an active job of its scope attaches to it and can only raise its force flag |
| JobEffects.OtherScopeRefused | crates/koldstore-flush/src/ops.rs:196-237 | a request for another scope of a busy table changes nothing |
| JobEffects.ClaimTakes | crates/koldstore-flush/src/table_jobs.rs:187-212 | a claim makes a pending or running job of the table run under its token with one more attempt, keeping a recorded watermark, and changes nothing else |
| JobEffects.OwnerReports | crates/koldstore-flush/src/table_jobs.rs:220-327 | what the executor of a running job reports is what the row shows, and a report under any other token changes nothing |
| JobEffects.ReclaimEffect | crates/koldstore-flush/src/table_jobs.rs:101-120 | a reclaim makes exactly the running unscoped jobs of the table pending again without token, keeping watermark and counts |
| JobEffects.CancelRequestEffect | crates/koldstore-flush/src/table_jobs.rs:402-510 | a cancel request is recorded for the table, flags its unlocked target jobs and ends the pending ones |
| JobEffects.AlwaysPossible | crates/koldstore-flush/src/table_jobs.rs:152-327 | any statement may be issued at any time, a claim only under a token that was never used |
| JobEffects.ExecutorEndsJob | crates/koldstore-flush/src/table_jobs.rs:187-327 | over a run: a claim that nobody takes over is still held when its executor reports, whatever else happens meanwhile, and the report takes effect under the job's watermark |
| JobEffects.ResumedUnderSameWatermark | crates/koldstore-flush/src/table_jobs.rs:101-212 | over a run: a job left running by a crash is pending after a reclaim, and the next claim takes it up under its first watermark |

## Left out

- Parquet and Arrow encoding, object-store I/O, footer range reads and caches: foreign libraries; finished segments are
  row sequences with truthful statistics.
- SQL text generation: the model is what a statement does to the rows, not its string.
- The merge resolver and the sort key codec: reads and key orders are stated directly.
- Calendar arithmetic, retention, policies, statistics and cache files: they would only add easy members.
- Extraction of sequence bounds per row group in `extract_packed_segment_metadata` and `select_row_groups_after_seq`:
  one comparison per group.
- Purging of terminal jobs after the retention period, and jobs other than flush jobs.
- CompactionUnits.PlanCompactionUnits: row counts are added without wrap-around; `CompactionUnits.PlannerSumsFit` shows
  that none occurs as long as all segments together have fewer than 2^63 rows.
- TermPruning.ExcludedHoldsNoMatchingDocument: the JSON text and the document are tied by the parser parameter; JSON
  syntax itself is not modelled.
- ArrayLiteral.ParseTextArray: the round trip of whole literals is stated for those KoldStore writes; for others, blanks,
  bare elements and JSON arrays are stated one by one.
- Knn.BoundsHold: rounding of single- and double-precision arithmetic is not modelled; the slack only widens the bounds.
- FlushStream.StreamFlushChunks: the page size is positive, and errors of the fetch and write callbacks are not modelled.
- The comparison of the number of rows written with the number counted beforehand: a mismatch ends the attempt, which in
  `Publication` may happen at any time.
- PublicationSafety.ReadsEqualTable: transactions commit one change at a time; one of several changes is a run of such
  steps without a read in between. Snapshot isolation inside a scan is not modelled.
- ManifestStore.LoadManifest: storage errors other than a missing object are not modelled.
- Jobs.StepKeeps: timestamps, the payload beyond its force and reclaimed flags, and row locks other than the set of rows
  a cancel request skips are not modelled.
