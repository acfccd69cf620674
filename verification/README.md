# Verified model of the page-table walker

This project models the architecture-neutral page-table walker: a mutable radix tree kept in raw
table frames and changed one 64-bit word at a time. It models its seven public operations (query,
map, remap, protect, unmap, split, merge), its teardown, the batching cursor with its cached descent,
the queue that coalesces TLB invalidations, the paging geometries, and the x86-64 and RISC-V entry
formats.

The meaning of a page table is one partial function from virtual addresses to physical addresses and
flags, computed by walking memory (`Trie.Xlate`). Every operation is proved against that function,
against the set of live frames, and against the invalidations that have to be emitted.

## How it is layered

- `Basics`, `Power`, `PageSizes`: errors, half-open ranges with a representable end, arithmetic on
  powers of two, the ten leaf sizes.
- `Geometries`, `Blocks`: number of levels, index widths and address widths are symbolic. A valid
  address walks to the same slot as another exactly when both lie in the same aligned block.
- `Entries`: the contract of an entry format, `Lawful`: zero is absent, nothing is a table at level 1,
  tables and leaves of legal addresses read back as what was written, and decoded flags are stable
  under re-encoding. `Words`, `Attributes`, `X86Entries`, `RiscvEntries`, `Formats` and `Instances`
  discharge it on 64-bit vectors for the shipped formats.
- `Memory`: class `Machine` holds the live frames, the allocator's clock and, as ghost state, the
  history of all memory states and invalidations. Reading, writing or freeing a frame requires that it
  is live, so following a pointer to a freed frame and freeing a frame twice are proof failures.
- `Trie`, `TreeEdits`, `Translation`, `Tlb`, `Histories`, `Steps`: the tree that memory represents, how
  changes of leaves show in the translation, what a TLB that is filled by hardware at arbitrary moments
  may hold, and the single mutations that carry a sound state to a sound state.
- `MapWalks`, `Queries`, `Pruning`, `Splitting`, `Teardown`: the effect of each kind of operation.
- `Exactness`, `BlockExactness`: when an operation on one leaf, a split or a merge succeeds, what it answers, which
  error each failing condition gives, and what every query says afterwards. These statements speak of the tree,
  of the addresses of the call and of queries alone, not of the functions that compute the answers.
- `Walker`: class `PageTableWalker`. Its `Valid()` says that memory represents the tree `view`, that
  live frames are those of the tree and those of others, and that only addresses in `dirty` may be
  cached with an outdated translation.
- `FlushQueue`, `Flushes`, `Emissions`, `Descents`, `Cursor`: the queue, which pages it invalidates in which order,
  and class `PageTableCursor`.
- `LeafEdits`, `BlockEdits`, `Plans`: what each call does to the machine, as functions of its state. `QueryStep`
  walks to a mapping; `MapWalk` is the walk that maps one leaf; `RemapStep`, `ProtectStep` and `UnmapStep` change
  one leaf; `SplitStep` and `MergeStep` change a leaf into a table and back; `MapStep` maps a whole range leaf by
  leaf and says which leaves it mapped. Every method is proved equal to its function, and `Lifetimes.OpStep`
  puts them together, invalidations included, to a function of the seven operations.
- `Tilings`, `Requests`, `Extents`, `Segments`, `Runs`, `Answers`, `TakeUp`, `Failures`, `Costs`: requests that take
  many leaves.
  The greedy cut and its optimality, the extents that back a range, what every write of a request shows,
  when a request is taken up and when it succeeds, stated in bytes, what an error means and what it leaves behind,
  how many entries are read.
- `PageTable`: the public `Map`.
- `Tightness`, `RoundTrips`, `Reachability`, `Lifetimes`: theorems about several operations and about
  whole runs.

`NoChange(before, after)` says that no write in between changes the translation; `OneChange` says that
at most one does, so a walk between any two writes sees the old translation everywhere or the new one
everywhere. `Tight` says that no table but the root is empty. Every lemma turns automatic induction off, so
each proof is the one that is written down.

## Results about the code

- A contiguous request whose byte length equals one of the ten leaf sizes is mapped as one leaf or
  refused; smaller leaves are never tried (`src/walker.rs:1475-1496`), although the documentation of
  contiguous mappings allows any legal leaf size (`src/mapping.rs:356-358`). `Requests.TakenUpIff`
  says exactly when such a request is taken up; `Formats.RefusedAtPageBoundary` and
  `Formats.RefusedAsForeignSize` are concrete inputs that are refused.
- RISC-V flags without read, write and execute encode as a table pointer, not as a leaf.
  `RiscvEntries.LeafReadsBack` gives the exact condition and `RiscvEntries.NoAccessReadsAsTable` a concrete
  word; the walker's operations therefore require encodable flags.
- When a table frame cannot be allocated in the middle of a descent, the tables linked before stay in
  the tree, the last of them empty. The translation is unchanged, but the tree is no longer tight.
  `Instances.StrandedTable` is a concrete state: a four-level x86-64 tree with an empty root, an allocator
  that grants one frame and refuses the next, and a map of one page. `Tightness.TightIffNotStranded` gives
  the exact condition: after an attempt to map one leaf a tight tree is tight if and only if the leaf was
  mapped, or something was in its way, or the allocator refuses the first frame it is asked for. All
  statements about whole requests and whole runs lose tightness in that one case and in no other (`Lifetimes.Strands`).
- The comment on cursor errors promises that every error forgets the cached descent
  (`src/walker.rs:879-884`). It does not hold: every failing protect and remap keeps it
  (`src/walker.rs:1327-1347`), and so does a failing map whose leaf does not pass its checks
  (`src/walker.rs:1199-1218`). `Lifetimes.CachedStep` gives the exact condition: after an error nothing is
  cached if and only if nothing was before, or the call was an unmap, or a map whose leaf passed its checks.
  `Lifetimes.AskForNowhere` makes three failing calls, with the empty range, that keep whatever is cached.
  What is kept is still right, as `Lifetimes.CachedRun` shows. (The code has a further path that keeps it, at
  `src/walker.rs:1261`, for an entry of unknown kind; no tree made by the walker has one.)
- The comment on merging promises `NotCoalescable` for any failure (`src/walker.rs:592-594`); the code
  also returns range and alignment errors, `UnsupportedSize` and `NotMapped`. The model follows the code;
  `Instances.MergeOffBoundary` is a range whose merge is refused as misaligned whatever the tree holds.
- A scattered request checks the alignment of its extents and of its length, but not that of its virtual
  address (`src/walker.rs:1133-1172`). A misaligned one is taken up and fails at its first leaf, with nothing
  written (`Answers.MisalignedIsRefused`).
- A scattered request that fails for its shape or its granule leaves memory untouched. One that fails as
  `NotAligned` need not: the allocator may raise that error, or hand out an unsuitable range
  (`src/walker.rs:1520-1522`), after leaves have been mapped. `Failures.NotAlignedMeans` says what the answer
  means, `Failures.NotAlignedUntouchedIff` that memory is untouched if and only if the virtual range is not
  aligned to the granule or the first frame asked for, for the first leaf, is refused, and
  `Witnesses.HalfDoneRequest` is a concrete x86-64 request of two gibibytes whose first leaf stays behind.

## Model

| member | source | states |
|---|---|---|
| Geometries.CanonicalHalves | src/arch/x86_64/entry.rs:314-327 | an address passes the canonical check exactly when it lies in the lowest or the highest half of its width |
| Blocks.SamePathSameBlock | src/walker.rs:1368-1381 | two valid addresses select the same slot at a level exactly when they lie in the same aligned block of that level |
| Blocks.LevelOfSizeIs | src/paging.rs:161-170 | the lowest level found for a size is the only level that supports it |
| Walker.SizeToLevel | src/paging.rs:161-170 | the loop finds the lowest level that supports the size, or none |
| Memory.Machine.AllocTable | src/walker.rs:1517-1526 | a grant of the wrong size or alignment is handed back with the error not aligned, a refusal passes its error on, and in both cases memory stays; otherwise exactly one zeroed frame becomes live |
| Memory.Machine.FlushTlbRangeLocal | src/paging.rs:202-209 | the default range invalidation emits one page invalidation per page with saturating addresses |
| Tlb.MayHoldBoundsTlbs | src/paging.rs:194-216 | whatever hardware fills and drops at any moment, a TLB holds only what the symbolic bound allows |
| Tlb.DirtyAfterSweep | src/paging.rs:202-209 | a page-by-page sweep cleans every address of its range |
| Walker.PageTableWalker.TryNew | src/walker.rs:166-173 | on a machine with any history that leaves nothing cached for the frame granted, a new walker owns one zeroed root frame and nothing else; on failure memory is unchanged |
| Walker.PageTableWalker.Query | src/walker.rs:212-237 | the answer is the leaf on the walk, its exact range and flags, or the documented error; it is that of walking memory, `QueryStep` |
| Queries.QueryMeaning | src/walker.rs:212-237 | a query tells the translation of every address of the range it returns, and fails exactly for invalid or untranslated addresses |
| Queries.QueryConstant | src/walker.rs:212-237 | every address of a returned range is valid and queries to the same mapping |
| Queries.QueryRangesDisjoint | src/walker.rs:212-237 | two returned ranges are the same mapping or disjoint |
| Exactness.AnswerIff | src/walker.rs:212-237 | a query returns a mapping exactly when the address lies in the block of a leaf of the tree and the mapping is that block with the leaf's target and flags |
| Walker.PageTableWalker.ExactLeafSlot | src/walker.rs:239-268 | finds the slot of the leaf that covers exactly the range, or the documented error |
| Queries.ExactLevelIff | src/walker.rs:239-268 | the search succeeds at a level exactly when the range is the block of a leaf there |
| Exactness.HoldsLeafIff | src/walker.rs:239-268 | a range is the block of a leaf exactly when the search finds it, and exactly when a query of its start returns just that range; otherwise the error is out of range or not mapped, as the start is valid or not |
| Walker.PageTableWalker.MapLeafDirectSizedNoFlush | src/walker.rs:313-356 | result and machine state are those of the uncached walk; on success exactly the leaf and the tables leading to it are added |
| MapWalks.MapWalkEffect | src/walker.rs:313-356 | mapping a leaf fails exactly on a conflict or because the allocator has just refused a frame; it changes the translation in one write and only inside its range, and makes the range linear with the given flags; after a refusal tables stay behind exactly if a frame had been granted before |
| Exactness.QueriesAfterMap | src/walker.rs:313-356 | after one leaf has been mapped every query in its range returns that leaf and every other query answers as before |
| Walker.PageTableWalker.FlushLeafRange | src/walker.rs:689-700 | emits what `LeafEmission` lists for the leaf and nothing else; afterwards no address of the range is dirty |
| Emissions.LeafEmissionInPages | src/walker.rs:689-700 | for a range of whole base pages, such as a leaf's: one full invalidation if the policy says so of their number, otherwise exactly one invalidation for each of them, in ascending order |
| Walker.PageTableWalker.Remap | src/walker.rs:360-387 | Ok exactly when the range is the block of a leaf of the tree, the target is below `2^paBits` and a multiple of the range's size; the answer is the range, the target and the flags of the call, and each failing condition has its error; afterwards every query in the range returns the new target with the normalised flags and every other query answers as before; one translation-changing write, followed by the invalidation of the range; an error leaves all as it was |
| Walker.PageTableWalker.RemapNoFlush | src/walker.rs:372-387 | the same conditions, answer, errors and queries afterwards; state and answer are those of `RemapStep`; the range becomes dirty |
| Exactness.RemapMeaning | src/walker.rs:372-387 | success of a remap, its answer and its errors, from the tree and the addresses of the call |
| Walker.PageTableWalker.Protect | src/walker.rs:391-413 | Ok exactly when the range is the block of a leaf; the answer is the range, the target that a query of its start gave before, and the new flags; afterwards every query in the range returns that target with the normalised flags and every other query answers as before; one translation-changing write, followed by the invalidation |
| Walker.PageTableWalker.ProtectNoFlush | src/walker.rs:402-413 | the same condition, answer, errors and queries afterwards; state and answer are those of `ProtectStep`; the range becomes dirty |
| Exactness.ProtectMeaning | src/walker.rs:402-413 | success of a change of flags, its answer and its errors, from the tree and a query of the range's start |
| Exactness.QueriesAfterReplace | src/walker.rs:372-413 | once the leaf of a range has been replaced, exactly the queries of the range have another answer: the new leaf |
| Walker.PageTableWalker.Unmap | src/walker.rs:419-427 | Ok exactly when the range is the block of a leaf; the answer is what a query of its start gave before; afterwards every query in the range finds nothing and every other query answers as before; one translation-changing write, the tables it leaves empty are pruned, and the range is invalidated |
| Walker.PageTableWalker.UnmapNoFlush | src/walker.rs:429-505 | the same condition, answer, errors and queries afterwards; state and answer are those of `UnmapStep`; the range becomes dirty |
| Exactness.UnmapMeaning | src/walker.rs:429-505 | success of an unmap, its answer and its errors, from the tree and a query of the range's start |
| Exactness.QueriesAfterRemove | src/walker.rs:429-505 | once a leaf has been removed and its tables reclaimed, exactly the queries of its range have another answer: not mapped |
| Walker.ReclaimRound | src/walker.rs:482-502 | clearing the entry of an empty table and freeing its frame changes no translation and is one round of the pruning walk |
| Walker.PageTableWalker.ReclaimEmptyTables | src/walker.rs:482-502 | walking up the parent stack frees exactly the empty tables of the walk, never the root, without any change of translation |
| Walker.PageTableWalker.IsTableEmpty | src/walker.rs:1568-1578 | true exactly when no entry of the table is present |
| Pruning.EmptyIffNoChild | src/walker.rs:1568-1578 | a table frame has no present word exactly when its table has no children |
| Pruning.PrunedShape | src/walker.rs:482-502 | reclaiming removes no leaf and only non-root tables of the walk |
| Pruning.PrunedIsTight | src/walker.rs:482-502 | if only the leaf's own table may be empty, reclaiming makes the tree tight |
| Walker.PageTableWalker.SplitAt | src/walker.rs:510-579 | Ok exactly when the range is the block of a leaf larger than a base page and a frame is granted; the pieces are as many as a table has entries and fill the range; afterwards every query in the range returns its piece of the mapping found before and every other query answers as before; no write changes any translation, and an error leaves the tree as it is |
| BlockExactness.SplitMeaning | src/walker.rs:510-579 | success of a split, the size of its pieces and its errors, from the tree and the allocator |
| BlockExactness.QueriesAfterSplit | src/walker.rs:547-563 | after a split exactly the queries of the range have another answer: their piece of the mapping found before |
| Splitting.SplitFinish | src/walker.rs:547-563 | filling the detached frame and swinging the entry to it changes no translation at any write |
| Walker.PageTableWalker.FillWithLeaves | src/walker.rs:547-555 | the new frame holds the pieces of the leaf, none of them visible yet, after exactly one write per piece |
| Splitting.AllPiecesFit | src/walker.rs:549-551 | every piece of a leaf is aligned and below the address limit, so no sub-address overflows or is truncated |
| Walker.PageTableWalker.MergeAt | src/walker.rs:595-686 | Ok exactly when the range is the block of a slot above level 1 that may hold a leaf and is mapped by that leaf already, or by aligned pieces of one mapping of the next smaller size; afterwards every query in the range returns the whole range with the first piece's target and flags and every other query answers as before; no write changes any translation, one frame is freed and the range invalidated exactly if something was rewritten |
| Walker.PageTableWalker.FindMergeSite | src/walker.rs:600-620 | the checks of a merge and the descent to the table of its slot, with the errors of a merge |
| BlockExactness.MergeMeaning | src/walker.rs:595-686 | success of a merge from the tree and from queries of the range |
| BlockExactness.MergeableIff | src/walker.rs:638-669 | a child table is one aligned run of equal leaves exactly when queries of its block answer with pieces of one aligned mapping |
| BlockExactness.QueriesAfterMerge | src/walker.rs:671-682 | after a merge exactly the queries of the range have another answer: one leaf |
| BlockExactness.MergeErrors | src/walker.rs:595-669 | which error each failing condition of a merge gives |
| BlockExactness.LeafRangeErrors | src/walker.rs:1404-1421 | the checks of a range that is to be one leaf and their errors, in order |
| Walker.PageTableWalker.CheckRun | src/walker.rs:638-669 | the child checks succeed exactly on one aligned, contiguous run of leaves with equal flags, and answer what memory says |
| Splitting.MergeInstalls | src/walker.rs:671-682 | installing the merged leaf and freeing the child frame changes no translation |
| Walker.PageTableWalker.DescendToTable | src/walker.rs:609-620 | finds the table at the target level exactly when the walk has one |
| RoundTrips.SplitThenMerge | src/walker.rs:510-686 | after a split of any leaf the merge of the same range succeeds and restores the tree, its leaf and its frames exactly |
| Walker.PageTableWalker.Drop | src/walker.rs:807-819 | dropping returns every table frame and leaves exactly the frames of others |
| Walker.PageTableWalker.DropSubtree | src/walker.rs:1583-1602 | frees each table at and below a position exactly once, no leaf target, and reads only live frames |
| Reachability.FramesAreReachable | src/walker.rs:1583-1602 | in every sound state the walker's live frames are exactly those reachable from the root in memory, each by one path |
| Walker.TargetOfLeaf | src/walker.rs:378-413 | every leaf of every sound state has an aligned target wholly below the address limit and flags that re-encode unchanged |
| Cursor.PageTableCursor.ReusableLevel | src/walker.rs:936-950 | the level of the first differing index of the last and the next address |
| Descents.SameWalkAbove | src/walker.rs:932-950 | down to the first differing index both walks pass the same tables |
| Cursor.PageTableCursor.InvalidateBelow | src/walker.rs:953-958 | forgets exactly the cached tables below the level |
| Cursor.PageTableCursor.DeepestCached | src/walker.rs:1240-1254 | returns the deepest usable cached table of the walk, and the target table itself if that is cached |
| Descents.CacheForNext | src/walker.rs:1237-1238 | after invalidation every cached frame is the table that the next walk reaches |
| Descents.WalkFromTable | src/walker.rs:1240-1283 | a walk that starts at any table it passes does the same as the walk from the root |
| Descents.SameTree | src/walker.rs:1544-1566 | memory determines the tree it represents |
| Cursor.PageTableCursor.DescendCached | src/walker.rs:1236-1283 | the cached descent continues the uncached walk, reads no entry when the table is cached, and keeps the cache sound |
| Cursor.PageTableCursor.MapLeafSizedAtLevel | src/walker.rs:1226-1298 | for every cache state, result, words written, frames allocated and history equal those of the uncached walk; the range is queued; an error forgets the cached descent and leaves the queue alone |
| Cursor.PageTableCursor.MapLeaf | src/walker.rs:1199-1224 | the checks decide which error is returned, with nothing changed and the cached descent kept; otherwise state and result are those of the uncached walk, and an error forgets the cached descent |
| Cursor.PageTableCursor.QueueFlushRange | src/walker.rs:963-1014 | the queue stays disjoint, non-adjacent, page-aligned and within capacity and covers exactly all ranges queued since the last flush; it overflows exactly when it holds 128 ranges and the new range touches none of them |
| FlushQueue.MergingEntry | src/walker.rs:984-1000 | each queued range is either apart from the hull or absorbed by it, and no address is lost |
| FlushQueue.MergingEnds | src/walker.rs:1002-1013 | the merged range can be queued; the queue is too long exactly if nothing was absorbed |
| FlushQueue.OneRange | src/walker.rs:984-1013 | a sound queue that covers one interval is that interval as one range |
| FlushQueue.SortKeeps | src/walker.rs:1039-1040 | sorting before emission orders the ranges and neither loses nor repeats one |
| Flushes.NoPages | src/walker.rs:1033-1035 | a sound queue counts no pages exactly when it is empty |
| Cursor.PageTableCursor.FlushPending | src/walker.rs:1022-1052 | emits nothing, one full invalidation or ascending sweeps as the policy says; afterwards nothing is dirty |
| Emissions.EmissionInPages | src/walker.rs:1022-1052 | one full invalidation after an overflow or if the policy says so of the number of queued pages, otherwise exactly one invalidation for each page of the queued ranges, in ascending order |
| Cursor.PageTableCursor.Finish | src/walker.rs:1059-1062 | finishing and then dropping the cursor emits the pending invalidations once |
| Cursor.PageTableCursor.Unmap | src/walker.rs:1305-1322 | success, answer, errors and queries afterwards as for the direct unmap; the cached descent is forgotten and the range is queued |
| Cursor.PageTableCursor.Protect | src/walker.rs:1326-1334 | success, answer, errors and queries afterwards as for the direct change of flags; the cached descent is unchanged and the range is queued |
| Cursor.PageTableCursor.Remap | src/walker.rs:1338-1347 | success, answer, errors and queries afterwards as for the direct remap; the cached descent is unchanged and the range is queued |
| Requests.BestLeafSize | src/walker.rs:1451-1468 | the loop returns the first size, largest first, that fits both addresses and the remaining length |
| Tilings.BestSizeIs | src/walker.rs:1451-1468 | the chosen size fits and no fitting size is larger; without one nothing fits |
| Tilings.CutExistsIff | src/walker.rs:1110-1130 | a request can be cut greedily exactly when addresses and length are whole base pages |
| Tilings.CutsRefineGreedy | src/walker.rs:1110-1130 | every boundary of the greedy cut is a boundary of every cut into legal leaves |
| Tilings.FewestLeaves | src/walker.rs:1110-1130 | whenever any cut exists the greedy one exists, is refined by it and has at most as many leaves |
| Requests.TakenUpIff | src/walker.rs:1470-1496 | a page-aligned contiguous request passes the one-leaf decision exactly when its length is no leaf size, or one the format has to which both addresses are aligned |
| Requests.ExactIsLeafCheck | src/walker.rs:1470-1496 | the one-leaf decision makes the checks of a single leaf, with the same errors |
| Requests.CheckedLeaf | src/walker.rs:1199-1213 | a range that passes the checks is one block with an aligned, representable target at the level of its size |
| TakeUp.LeafCheckIff | src/walker.rs:1199-1213 | a single leaf passes its checks exactly on the block of a slot that may hold one, for a valid target aligned to it; each failing check has its error |
| Formats.RefusedAtPageBoundary | src/walker.rs:1487-1489 | two mebibytes at a 4 KiB boundary are refused on x86-64 |
| Formats.RefusedAsForeignSize | src/walker.rs:1494 | sixteen kibibytes are refused on x86-64 |
| Cursor.PageTableCursor.MapContiguous | src/walker.rs:1095-1131 | an extent is taken up exactly when its check passes; then its leaves follow the plan of the request, and an error is that of the first planned leaf that fails, with exactly the leaves before it mapped; reads are bounded by the cold tiles |
| Cursor.PageTableCursor.MapPieces | src/walker.rs:1110-1130 | the loop over leaves: each is the next one planned; it ends at the first that fails |
| Cursor.PageTableCursor.MapNext | src/walker.rs:1114-1129 | one more planned leaf: the request goes on with it mapped, or ends there with its error |
| Plans.PlannedAreChosen | src/walker.rs:1110-1130 | the leaves of a complete request are the greedy cut, or all of the fixed size |
| Runs.MappedGrows | src/walker.rs:1110-1130 | one more leaf is added to what shows: one write, over addresses that were untranslated before the request |
| Runs.UnderwayFails | src/walker.rs:1127 | the leaf that fails ends the request with its error and exactly the leaves before it mapped |
| Runs.WritesInOrder | src/walker.rs:1110-1130 | every write of a request shows a whole number of leaves, in order, rising by at most one from write to write |
| Runs.LeafTight | src/walker.rs:1226-1298 | a leaf of a request loses tightness exactly if it is refused a frame after being granted another |
| Answers.NextLeafPasses | src/walker.rs:1110-1130 | a request of whole pages or granules within reach always has a next leaf, and it passes its checks |
| Answers.AnswerIsExact | src/walker.rs:276-311 | in a tight tree a well-formed request succeeds only if no address of its range was translated, says already mapped only if one was, and fails otherwise only because the allocator has just refused a frame |
| Answers.NeverRefused | src/walker.rs:1517-1526 | an allocator that grants every frame is never the reason of an error |
| Answers.TakenUpIsWellFormed | src/walker.rs:1095-1185 | a request that passes its checks, of whole pages and within reach, is well-formed |
| TakeUp.AnswerableIsTakenUp | src/walker.rs:1095-1185 | a request of whole granules, or of whole pages whose length is a leaf size on its own boundary if it is a page size, at valid addresses and with extents that end below the address limit, is taken up and well-formed |
| Costs.ColdPages | src/walker.rs:863-866 | over a run of base pages the descent is cold at most once per finest table used |
| Costs.BasePagesCost | src/walker.rs:863-866 | mapping n base pages reads at most n entries plus one per upper level for each finest table used |
| PageTable.PagesCost | src/walker.rs:863-866 | and so does every successful call of the public map that forces base pages |
| Extents.CheckSegments | src/walker.rs:1156-1172 | the loop accepts exactly the lists whose extents add up to the size and are each a positive multiple of the granule at a multiple of the granule |
| TakeUp.ScatteredTakenUpIff | src/walker.rs:1133-1172 | a scattered request is taken up exactly when its length is a positive multiple of the granule, some level has leaves of the granule, every extent has a positive size and start and size that are multiples of the granule, and the extents add up to the length; otherwise the shape is invalid, or the size unsupported if no level has the granule |
| TakeUp.ContiguousTakenUpIff | src/walker.rs:1075-1108 | a contiguous request is taken up exactly when it is backed by one extent of its own positive length and, if that length is a page size, addresses and alignment admit one leaf of it; each failing condition has its error |
| Extents.TargetInSegment | src/walker.rs:1174-1181 | the concatenation of the extents gives each offset its extent's address |
| Segments.NextInExtent | src/walker.rs:1110-1130 | the next leaf within an extent is the next leaf of the whole request, and maps linearly into that extent |
| Segments.ExactInExtent | src/walker.rs:1101-1108 | an extent whose length decides its leaf gives the leaf that cutting would have chosen |
| Cursor.PageTableCursor.MapScattered | src/walker.rs:1133-1185 | taken up exactly when the checks pass, which `ScatteredTakenUpIff` states in bytes, untouched memory otherwise; then the extents are mapped granule by granule up to the first leaf that fails, whose error is the answer |
| Answers.ScatteredErrors | src/walker.rs:1133-1185 | once taken up, a scattered request ends with no error about its shape or its granule |
| Answers.MisalignedIsRefused | src/walker.rs:1133-1185 | a scattered request whose virtual range is not aligned to the granule fails as misaligned or out of range, with nothing changed |
| Failures.UntouchedIff | src/walker.rs:1095-1185 | a request that fails has written nothing if and only if its first leaf failed, and not for a frame refused after another had been granted |
| Failures.NotAlignedMeans | src/walker.rs:1133-1185 | a scattered request answers not aligned only because its virtual range is not, with nothing changed, or because the allocator has just said so |
| Failures.NotAlignedUntouchedIff | src/walker.rs:1133-1185 | with that answer memory is untouched if and only if the virtual range is not aligned or the first frame asked for is refused |
| PageTable.ScatteredCallErrors | src/walker.rs:1133-1185 | the same for the public call; the two errors about shape and granule always leave the machine as it was |
| Witnesses.HalfDoneRequest | src/walker.rs:1517-1526 | a concrete aligned request that answers not aligned with its first leaf mapped |
| Cursor.PageTableCursor.MapSegments | src/walker.rs:1174-1181 | the loop over extents |
| Cursor.PageTableCursor.Map | src/walker.rs:1070-1093 | dispatch on backing and contiguity: an untouched machine if the shape is refused, otherwise the run of the request; an error forgets the cached descent exactly if the failing leaf had passed its checks, and a queue that was empty does not overflow |
| PageTable.Map | src/walker.rs:276-311 | state, answer, mapped leaves and invalidations are those of `MapCall`: the run of the request and one coalesced invalidation of what it mapped, also after a failure; on success the leaves are the greedy ones or granules; in a tight tree a request that meets the conditions of `Answerable`, stated in bytes, and is refused no frame succeeds if no address of its range is translated and otherwise answers already mapped; reads are bounded |
| PageTable.MapOneLeaf | src/walker.rs:290-305 | the direct path for a request that is one leaf does the same as the run of that request, with one invalidation |
| PageTable.MapThroughCursor | src/walker.rs:308-310 | the cursor path does the same, for every request: finishing the cursor, or dropping it after an error, emits one sweep over the mapped part or one full invalidation |
| PageTable.EmissionOfInterval | src/walker.rs:1022-1052 | flushing a queue that holds one interval emits one sweep of it, or one full invalidation as the policy says |
| PageTable.DoneIsExact | src/walker.rs:276-311 | the answer of a call is exact: success, already mapped, or a refused frame |
| PageTable.CallSucceeds | src/walker.rs:276-311 | with an allocator that refuses nothing, such a call on a tight tree succeeds exactly if no address of its range is translated; afterwards every address translates to its byte of the extents with the new flags, and a scattered call has mapped one leaf for each granule |
| Witnesses.FourPages | src/walker.rs:1133-1153 | sixteen kibibytes backed by one extent of four pages, mapped page by page on x86-64, succeed with four leaves |
| Tightness.ConflictIff | src/walker.rs:326-350 | in a tight tree something is in the way of a leaf exactly when some address of its range is translated |
| Tightness.RefusedIffTranslated | src/walker.rs:313-356 | in a tight tree a leaf is refused as already mapped exactly when some address of its range is translated |
| Tightness.TightAfterMap | src/walker.rs:313-356 | a successful or conflicting map keeps the tree tight |
| Tightness.TightIffNotStranded | src/walker.rs:313-356 | after an attempt to map a leaf a tight tree is tight if and only if the leaf was mapped, or was in conflict, or the first frame asked for is refused |
| Instances.StrandedTable | src/walker.rs:313-356 | a concrete tight tree and allocator with which mapping one page leaves an empty table behind |
| Tightness.TightAfterUnmap | src/walker.rs:415-505 | unmapping keeps the tree tight |
| Tightness.TightAfterSplit | src/walker.rs:510-579 | splitting keeps the tree tight |
| Tightness.TightAfterMerge | src/walker.rs:595-686 | merging keeps the tree tight |
| Tightness.MapThenUnmap | src/walker.rs:313-505 | unmapping what was just mapped in a tight tree returns the mapping and restores the tree, and with it the live frames, exactly |
| Lifetimes.TlbIsCoherent | src/paging.rs:194-216 | in a sound state a TLB filled at arbitrary moments holds only current translations for clean addresses |
| Tlb.UnheldAfterFlush | src/paging.rs:194-200 | a full invalidation leaves nothing cached for a frame that no table uses |
| Lifetimes.Apply | src/walker.rs:160-700 | one public operation: machine state, invalidations and answer are exactly those of `OpStep`, every possible TLB is coherent afterwards, and a tight tree stays tight unless a map strands a table, if and only if |
| Lifetimes.Run | src/walker.rs:160-700 | any sequence of public operations passes through exactly the states, and gives exactly the answers, of `OpStep`, keeps every possible TLB coherent at each of them, and the tree tight unless some map strands a table |
| Lifetimes.CachedRun | src/walker.rs:857-866 | any sequence of maps, unmaps, protects and remaps through a cursor gives the results, frames, words, allocation count and history of operations that walk from the root |
| Lifetimes.CachedStep | src/walker.rs:879-884 | one call through a cursor equals one that walks from the root; after an error nothing is cached if and only if nothing was, or the call was an unmap or a map whose leaf passed its checks |
| Lifetimes.AskForNowhere | src/walker.rs:1327-1347 | three failing calls that keep whatever descent is cached |
| Lifetimes.Lifetime | src/walker.rs:166-819 | creating a table, using it in any way and dropping it leaves memory exactly as before, and a history from which the next table can be made |
| Lifetimes.TwoLifetimes | src/walker.rs:166-819 | two tables one after the other on one machine, with a TLB flush in between |
| Words.WordRoundTrip | src/arch/x86_64/entry.rs:205-207 | an address converted to a word and back is the same address |
| Words.WordShift | src/arch/x86_64/entry.rs:205-207 | dropping the lowest bit of an address word halves the address |
| Words.WordLowBit | src/arch/x86_64/entry.rs:205-207 | the lowest bit of a word is the parity of the number, so each bit stands for its power of two |
| X86Entries.LeafReadsBack | src/arch/x86_64/entry.rs:136-230 | a leaf of every legal address is present, keeps its address, carries the block bit exactly for 2 MiB and 1 GiB, and reads back its flags normalised |
| X86Entries.LeafLayout | src/arch/x86_64/entry.rs:138-147 | for every address, flags and size: bit 0 is set, bit 1 iff writable, bit 2 iff user, bit 7 iff 2 MiB or 1 GiB, bit 8 iff global, bit 63 iff not executable; bits 5, 6, 9-11 and 52-62 are clear |
| X86Entries.LeafAddressLayout | src/arch/x86_64/entry.rs:191-193 | bits 12-51 of a leaf are those of its address |
| X86Entries.LeafCacheLayout | src/arch/x86_64/entry.rs:172-175 | bits 3 and 4 of a leaf are the PAT index of its cache policy |
| X86Entries.TableLayout | src/arch/x86_64/entry.rs:196-202 | a table word holds its address in bits 12-51, has its three lowest bits set and no other |
| X86Entries.DecodeLayout | src/arch/x86_64/entry.rs:151-169 | what each bit of any word means to the walker: presence, role, address, permissions and cache policy |
| X86Entries.TableReadsBack | src/arch/x86_64/entry.rs:196-230 | a table pointer is present, keeps its address and is never a leaf above level 1 |
| X86Entries.X86IsLawful | src/arch/x86_64/entry.rs:187-312 | the x86-64 entry satisfies the walker's laws for four and five levels |
| RiscvEntries.LeafReadsBack | src/arch/riscv64/entry.rs:74-243 | a leaf word is always validly encoded and keeps its address and normalised flags; it is a leaf exactly if some access is granted, else a table pointer, or invalid at level 1 |
| RiscvEntries.LeafLayout | src/arch/riscv64/entry.rs:74-83 | for every address and flags: V and A are set, R iff readable or writable, W, X, U and G as granted, D iff writable; bits 8, 9, 54-60 and 63 are clear |
| RiscvEntries.LeafAddressLayout | src/arch/riscv64/entry.rs:123-125 | bits 10-53 of a leaf are the page number of its address |
| RiscvEntries.LeafCacheLayout | src/arch/riscv64/entry.rs:95-106 | bits 61 and 62 are 1 for write combining and 2 for uncached if the format has memory types, otherwise 0 |
| RiscvEntries.TableLayout | src/arch/riscv64/entry.rs:212-214 | a table word holds the page number in bits 10-53 and V, and no other bit |
| RiscvEntries.DecodeLayout | src/arch/riscv64/entry.rs:142-243 | what each bit of any word means to the walker, and which words are invalid |
| RiscvEntries.TableReadsBack | src/arch/riscv64/entry.rs:212-243 | a table pointer is validly encoded, keeps its address and is a table above level 1 |
| RiscvEntries.RiscvIsLawful | src/arch/riscv64/entry.rs:204-388 | both RISC-V entries satisfy the walker's laws for Sv39, Sv48 and Sv57 |
| RiscvEntries.FlagsForGrantAccess | src/arch/riscv64/entry.rs:44-49 | flags made from a permission set always encode as a leaf |
| RiscvEntries.NoAccessReadsAsTable | src/arch/riscv64/entry.rs:74-243 | a concrete leaf word without access rights reads as a table pointer at level 2 |
| Instances.X86ConfigOk | src/arch/x86_64/entry.rs:187-312 | with an allocator that keeps its contract, the x86-64 formats are configurations the walker is proved for |
| Instances.RiscvConfigOk | src/arch/riscv64/entry.rs:204-388 | and so are the RISC-V formats |
| Instances.SoundStateExists | src/walker.rs:166-173 | the assumptions are consistent: a sound state to start from exists |
| Instances.MergeOffBoundary | src/walker.rs:595-607 | merging two mebibytes at a 4 KiB boundary is refused as misaligned |
| Formats.AddressWidths | src/arch/aarch64/entry.rs:404-611 | the symbolic geometry gives every shipped format its declared address width |
| Formats.ValidAddresses | src/arch/x86_64/entry.rs:290-327 | each of the eleven formats accepts exactly the virtual addresses of the two halves of its width, 39, 48, 52 or 57 bits, and exactly the physical addresses below 2^48, 2^52 or 2^56 |
| Formats.IndexLayout | src/walker.rs:1368-1381 | the slot that an address selects at each level of each format, with the format's shifts and table sizes |
| Formats.Lawful4K | src/arch/x86_64/entry.rs:253-312 | the geometries with 4 KiB pages satisfy the walker's requirements |
| Formats.Lawful16K | src/arch/aarch64/entry.rs:469-537 | the geometries with 16 KiB pages do |
| Formats.Lawful64K | src/arch/aarch64/entry.rs:543-611 | the geometries with 64 KiB pages do |
| Formats.LeafLevels4K | src/arch/riscv64/entry.rs:358-366 | leaf sizes level by level, including 512 GiB leaves for Sv48 and Sv57 only |
| Formats.LeafLevels16K | src/arch/aarch64/entry.rs:489-494 | leaf sizes level by level for 16 KiB pages |
| Formats.LeafLevels64K | src/arch/aarch64/entry.rs:563-568 | leaf sizes level by level for 64 KiB pages |

## Assumptions

- The allocator returns frames that are not live, zeroed and below the address limit, or refuses with
  `OutOfMemory` or `NotAligned`; releasing a live frame of the walker succeeds. What it grants may depend
  on the live frames and on how often it was asked, so the statements hold for every such allocator.
- When a walker is created, no TLB holds anything for its root frame: the machine is new, or its TLB has
  been flushed since the frame was last used.
- Nobody else writes the walker's frames while it owns them.
- Flags passed to an operation encode as a leaf (`Codec.encodable`).
- Address ranges have a representable end, as the range type of the repository has, so a leaf that ends
  at 2^64 is outside the domain.
- The invalidation policy is an arbitrary predicate of the page count.

## Left out

- Control registers, address-space tokens and activation (`src/arch/*/vas.rs`), and the TLB instructions
  themselves (`src/arch/*/tlb.rs`); the contract of invalidation is modelled.
- The AArch64 descriptor bits, which live in a crate that is not part of this model; its six geometries and
  its canonical check are modelled.
- Volatile and raw-pointer access through a mapping (`src/mapping.rs:66-266`), PAT and MAIR installation.
- Adopting an existing tree (`src/walker.rs:185-191`), which would need a description of trees the walker
  did not build; Send and Sync claims.
- Walks in flight that hold a pointer to a freed table, and paging-structure caches: the TLB of the model
  caches leaf translations.
- Conversion of a bare physical address into a backing (`src/mapping.rs:318-323`).
- Accessors, builders and re-exports that only return a field.
- Cursor.PageTableCursor.QueueFlushRange: the two branches for an end that overflows the address type
  (`src/walker.rs:974-981`, `src/walker.rs:986-990`) are proved unreachable for ranges with a representable end
  and are not executed in the model.
- PageTable.Map: entries are decoded into four roles, so a failing `InvalidEntryKind` is modelled in each
  descent but proved not to occur for trees the walker made.
- Machine words are natural numbers in the walker and bit vectors in the entry formats; address arithmetic
  is proved not to overflow instead of wrapping.
