# Suture, modelled in Dafny

Suture is a patch-based version control system with semantic merge drivers and a background daemon that keeps a
repository and a hub in step. This project models its algorithms as they are written and proves what they do, on all
inputs and over all runs. Where the code does not do what its documentation or tests promise, the code is kept, a
lemma gives an input on which it fails, and another says exactly when it succeeds.

| files | what they model |
|---|---|
| `Text`, `DocxScanner`, `DocxBlocks`, `DocxMerge`, `DocxBody`, `DocxRoundTrip`, `DocxShapes`, `DocxText` | the Word driver: block scanner, index-wise merge, printer, and their round trip; blocks and text elements written out |
| `CsvRows`, `CsvMerge`, `CsvHeaders`, `CsvAlgebra`, `CsvLists`, `CsvListLaws` | the CSV driver: duplicate-aware keys, header union, keyed three-way merge, and the algebra of tables and of lists of rows |
| `Properties`, `PropertiesLines`, `PropertiesOrder` | the properties driver: line parser, merge, printed result |
| `LineChanges`, `LcsDiff`, `LinearDiff`, `ChangeMaps`, `LineMerge`, `LineMergeLaws`, `LineConflicts` | line diffs, zero-context hunks, and the line-level three-way merge |
| `OfflineQueue`, `BandwidthLimiter` | the daemon's retry queue and token bucket |
| `PatchGraph`, `PatchImport`, `PatchesSince`, `TopologicalSort`, `PushOrder`, `PushProtocol`, `PushOutcome`, `HubPull`, `PullRuns` | the patch graph, computing what to push, the push protocol, what the hub serves, importing it, and runs of pulls |
| `Bytes`, `HexForm`, `Sorting`, `PushEncoding`, `HubSignature`, `Signing`, `AuditLog` | canonical encodings, hex hashes, and the hash-chained audit log |
| `Calendar`, `SheetsCsv` | civil dates in closed form and by counting; CSV text and a reader for it |
| `Wrappers`, `Numbers`, `Places` | optional and fallible values, the larger and the smaller number, the order of first places in lists |

Loops stay loops and objects with changing fields stay classes; each is proved against a function or a property, and
the laws are lemmas about these. Rust strings are sequences of characters where only characters matter and sequences
of bytes where their encoding is hashed or signed. Times and token counts held in `f64` are reals. The hash is a
parameter; where freedom from collisions matters it is a hypothesis about the strings at hand.

## Where code and promise differ

- Word: the suffix is cut ten characters behind the start of the nine-character `</w:body>`, so each print loses a
  character and a document with too little behind the tag no longer parses (`PrintingLosesText`, `SuffixRunsOut`).
  Text between blocks is dropped. Blocks a side removed at the end come back (`UnchangedSideYields`). The driver's
  header promises to preserve formatting; a change of formatting alone is dropped if theirs made it
  (`BlockYieldsIff`, `FormattingIsDropped`, `BoldIsDropped`).
- CSV: the associativity the tests ask for on one example holds for tables of any widths exactly when no row of the
  base ends in an empty cell (`JoinAssociatesIff`, `MergeAssociatesIff`). With duplicate first cells merged rows are
  numbered anew, and it holds on all lists only for an empty base (`MergeAssociatesWithDuplicatesIff`); rows keep
  their keys exactly when no first cell lost rows on one side and gained rows on the other (`RekeyedIff`).
  A first cell that spells a numbered key loses a row (`CollidingKeys`). Headers are merged by name and cells by
  position; the two agree exactly when columns change only at the end (`MergesByNameIff`, `ColumnInTheMiddle`).
  A clean merge can have rows the writer refuses (`MergedRowsFitIff`, `NewRowIsTooShort`).
- Properties: deleting a key on one side is ignored (`DeletionsAreIgnoredIff`).
- Diff and merge: beyond 2000 lines the diff need not lead to the modified text (`GreedyRelatesIff`), for instance
  when the first two lines change places (`CrossedLinesAreLost`). A clean line merge can drop an edit
  (`OverlappedEditIsDropped`): it carries out all of them exactly when they fit together (`CarriesOutAllIff`). It can
  depend on the order of the sides (`SidesAreNotSymmetric`), but only where they write the same lines and delete
  different numbers of lines (`MergeIsSymmetric`, `MovesAlikeIff`).
- Graph: the ancestor cache does need invalidating, for an id that was asked for before it was added
  (`CacheAfterAdd`). `patches_since` promises what branch tips reach and keeps that, but not always parents first
  (`ParentsFirstIff`, `ChainIsOutOfOrder`). No client imports that list: the hub stores declared parents whatever
  the order and sorts what it serves, so clients keep all links (`SortParentsFirst`, `LinksStayWhole`).
- Pull: a depth of N promises the last N commits. The list is cut behind its parents-first front, so the newest commit
  comes only with all of its history that the client lacks (`CutMissesNewest`).
- Push: `patches_since` starts from all branch tips, not from HEAD. With a detached HEAD on no branch the push
  records as pushed a commit it does not send (`ExcludedHeadIsSkipped`).
- Daemon: a request for more than two seconds' worth of bytes waits for ever (`Limiter.Acquire`); a queue of size zero
  panics (`Queue.Enqueue`); two early returns of the flush lose pushes (`RunFates`).
- Audit log: a change that moves text across field boundaries, touches the signature, rewrites the last entry or cuts
  off the end is not noticed (`FieldBoundariesAreOpen`, `RehashIsCaughtIff`, `PrefixVerifies`).
- Push signatures: a hub checks a signature over a proper beginning of the bytes the client signed, for every request
  (`CheckedIsNotSigned`).
- Patch signatures: the signed bytes do not say where the touches end, so one signature can cover two different patches
  (`TouchCountIsOpen`, `SignedAlikeIff`).
- Dates: the time filter accepts days that a month does not have (`AcceptedIsShownIff`).

## Model

| member | source | states |
|---|---|---|
| DocxScanner.ExtractText | crates/suture-driver-docx/src/lib.rs:92-122 | the loop advancing over `<w:t` elements returns the concatenated contents that a recursive reading of the same text gives, empty elements skipped |
| DocxScanner.NextStepFinds | crates/suture-driver-docx/src/lib.rs:181-289 | one round of the scanner, which jumps to the nearer of the two markers, agrees with reading the text character by character: nothing is left, nothing starts here, or exactly this block stands here with this kind and self-closing flag |
| DocxScanner.MarkersDoNotOverlap | crates/suture-driver-docx/src/lib.rs:181-289 | inside one marker no other marker and no block starts |
| DocxScanner.ExtractBlocks | crates/suture-driver-docx/src/lib.rs:181-289 | the marker-jumping loop returns, for every body, the blocks of the character-wise reading, with their text, kind and tracked-change status |
| DocxShapes.ShapeIff | crates/suture-driver-docx/src/lib.rs:197-289 | a text is one complete block exactly when it is `<w:p/`, `<w:p>`, `<w:p ` or a `<w:tbl` tag up to its first closing text, written out; and what kind, text and tracked-change status are recorded of it |
| DocxShapes.FirstBlock | crates/suture-driver-docx/src/lib.rs:181-289 | for every body: the first such text in it gives the first block, and what follows it gives the others |
| DocxShapes.NoBlock | crates/suture-driver-docx/src/lib.rs:181-289 | a body in which no such text starts has no blocks |
| DocxBlocks.BlocksInRight | crates/suture-driver-docx/src/lib.rs:181-289 | what the scanner finds from a position does not depend on the text before it |
| DocxBlocks.ExtractedAreBlocks | crates/suture-driver-docx/src/lib.rs:181-289 | every extracted piece of XML is one complete block, scanned alone |
| DocxBlocks.BlocksOfPrinted | crates/suture-driver-docx/src/lib.rs:309-322 | scanning the concatenated XML of any complete blocks, with any text behind, returns these blocks and then those of the rest |
| DocxBlocks.NoBlocksIff | crates/suture-driver-docx/src/lib.rs:181-289 | the scanner finds nothing exactly when no block starts at any position |
| DocxBlocks.LastBlock | crates/suture-driver-docx/src/lib.rs:292-306 | the last block ends where the forward scan stopped and no block starts behind that place |
| DocxBlocks.NoSelfOverlap | crates/suture-driver-docx/src/lib.rs:292-306 | a block's XML never overlaps a later copy of itself |
| DocxBlocks.RFindAgreesWithScanner | crates/suture-driver-docx/src/lib.rs:292-306 | searching the last block from the back finds exactly the place where the forward scan met it |
| DocxMerge.MergeBlocks | crates/suture-driver-docx/src/lib.rs:334-401 | no result exactly when some index conflicts (both sides added different text, or all three texts differ and not both sides accepted tracked changes); otherwise one block of ours or theirs per index, up to the longer side |
| DocxMerge.OneBlock | crates/suture-driver-docx/src/lib.rs:357-396 | the merge of three blocks by their texts and by which of the twelve written-out markers they hold: every case of who is taken, and when there is none |
| DocxMerge.IndexByIndex | crates/suture-driver-docx/src/lib.rs:334-401 | the merge of lists conflicts exactly when that of some index does, is otherwise theirs index by index, and takes blocks past the end of a list from the list that has them |
| DocxMerge.VerdictIsSymmetric | crates/suture-driver-docx/src/lib.rs:334-401 | whether a merge conflicts does not depend on the order of the sides |
| DocxMerge.SwapKeepsText | crates/suture-driver-docx/src/lib.rs:334-401 | swapping the sides keeps the text at an index exactly when it is not one where both accepted tracked changes with different text |
| DocxMerge.UnchangedSideYields | crates/suture-driver-docx/src/lib.rs:334-401 | a side that changed nothing never conflicts; every text is the other side's, except that blocks the other removed at the end come back; the lengths agree exactly when none was removed |
| DocxMerge.BlockYieldsIff | crates/suture-driver-docx/src/lib.rs:357-396 | against a side that changed nothing, the whole block is the other side's exactly when it is not one where the other changed only the formatting without accepting tracked changes |
| DocxMerge.FormattingIsDropped | crates/suture-driver-docx/src/lib.rs:386-387 | a block of unchanged text that one side reformatted, without tracked changes in the base: the reformatting is dropped as theirs and kept as ours |
| DocxRoundTrip.BoldIsDropped | crates/suture-driver-docx/src/lib.rs:386-387 | a paragraph, for any plain text, that the other side made bold comes out plain |
| DocxBody.ParsedText | crates/suture-driver-docx/src/lib.rs:139-175 | a text that parses splits at its two tags into prefix, body tag, content without a closing body tag, and a suffix cut ten characters behind the closing tag |
| DocxBody.TrailingOf | crates/suture-driver-docx/src/lib.rs:292-306 | the trailing content is the text behind the place where the forward scan finished the last block, or nothing if that is blank; without blocks it is the body without whitespace at its end |
| DocxBody.TrailingIsClean | crates/suture-driver-docx/src/lib.rs:292-306 | the trailing content holds no block and no closing body tag |
| DocxBody.ScanPrinted | crates/suture-driver-docx/src/lib.rs:309-322 | scanning printed blocks with block-free trailing text gives the blocks back, and the trailing text when a block precedes it |
| DocxBody.RebuildDocumentXml | crates/suture-driver-docx/src/lib.rs:309-322 | the printing loop writes prefix, body tag, every block's XML in order, trailing text, closing tag and suffix |
| DocxRoundTrip.ReparsePrinted | crates/suture-driver-docx/src/lib.rs:139-322 | printing any scanned blocks into a parsed document and parsing again gives the same head and exactly these blocks; the suffix loses its first character, and the parse panics exactly when it has none that can be cut |
| DocxRoundTrip.MergeReparses | crates/suture-driver-docx/src/lib.rs:548-591 | for any three documents that parse, the printed merge parses to exactly the merged blocks in the base's head; the trailing text is the base's exactly when a block precedes it or it does not end in whitespace |
| DocxRoundTrip.PrintingLosesText | crates/suture-driver-docx/src/lib.rs:155-175 | printing the blocks of any document back into it gives a shorter text: the closing tag of nine characters is cut at ten |
| DocxRoundTrip.SuffixRunsOut | crates/suture-driver-docx/src/lib.rs:155-175 | a document with one character behind its closing body tag parses; its own print does not |
| DocxRoundTrip.TextOfRuns | crates/suture-driver-docx/src/lib.rs:92-122 | the extracted text of consecutive runs is their texts in order |
| DocxText.TextOfPieces | crates/suture-driver-docx/src/lib.rs:92-122 | the text of any markup made of text elements with any attributes, empty ones and other markup is the text of the text elements in order; `<w:tab/>` and the like count as empty text elements |
| CsvRows.BuildKeyedRows | crates/suture-driver-csv/src/lib.rs:41-54 | the counting loop gives row i the key of its first cell numbered by the earlier rows with the same first cell, and a later row replaces an earlier one under the same key |
| CsvRows.KeysDistinctIff | crates/suture-driver-csv/src/lib.rs:32-54 | keys collide exactly when a first cell spells the numbered key of another row |
| CsvRows.KeysDistinctWithoutMarker | crates/suture-driver-csv/src/lib.rs:32-54 | no first cell with `__dup` in it: all keys differ |
| CsvRows.CollidingKeys | crates/suture-driver-csv/src/lib.rs:32-54 | first cells `a`, `a`, `a__dup1` collide and a row is lost |
| CsvRows.LookUpReturnsRow | crates/suture-driver-csv/src/lib.rs:41-54 | with distinct keys, looking up the key of row i returns row i |
| CsvMerge.MergeHeaders | crates/suture-driver-csv/src/lib.rs:152-190 | the counting loops keep, going through the headers of base, ours and theirs, each occurrence whose number is below its count on one side |
| CsvMerge.MergedCount | crates/suture-driver-csv/src/lib.rs:174-190 | each header stands in the merged list exactly as often as on the side that has it more often, whatever the base has |
| CsvHeaders.HeadersInSourceOrder | crates/suture-driver-csv/src/lib.rs:174-190 | without duplicates in ours and theirs, headers of the base stand first, then those new in ours, then those new in theirs, each in the order of its own list |
| CsvHeaders.LinedUpIff | crates/suture-driver-csv/src/lib.rs:174-190 | without duplicate headers, the merged list starts with each of the three lists or they with it exactly when columns were added or removed only at the end |
| CsvHeaders.MergesByNameIff | crates/suture-driver-csv/src/lib.rs:174-245 | every cell merged by position is the merge of the cells under the header it ends up under, on all rows, exactly in that case |
| CsvHeaders.ColumnInTheMiddle | crates/suture-driver-csv/src/lib.rs:174-245 | a column put in the middle by ours merges without conflict and its cell ends up under another header |
| CsvHeaders.MergedRowsFitIff | crates/suture-driver-csv/src/lib.rs:214-291 | all merged rows have as many cells as the writer demands exactly when each row that a side added has, and each row kept by both is so wide or padded to be |
| CsvHeaders.NewRowIsTooShort | crates/suture-driver-csv/src/lib.rs:283-291 | a row that theirs added and that is shorter than the merged headers gives a merge that cannot be written |
| CsvMerge.MergeCells | crates/suture-driver-csv/src/lib.rs:229-245 | no row exactly when some column holds three different cells; otherwise a row as wide as the widest, each cell theirs where ours is that of the base and ours elsewhere; short rows read as padded with empty cells |
| CsvMerge.PresentRows | crates/suture-driver-csv/src/lib.rs:216-245 | rows under a key that base, ours and theirs have conflict exactly when ours and theirs differ and some column holds three different cells; otherwise equal rows stay and columns decide |
| CsvMerge.RemovedRows | crates/suture-driver-csv/src/lib.rs:246-280 | a row removed by a side is dropped if the other left or removed it, and is a conflict if the other changed it |
| CsvMerge.OrderKeys | crates/suture-driver-csv/src/lib.rs:202-212 | the key order is the keys of base, ours and theirs, each at its first place |
| CsvMerge.MergeCsv | crates/suture-driver-csv/src/lib.rs:144-281 | the whole loop succeeds exactly when no key conflicts, then lists the merged rows in key order under the merged headers in their order |
| CsvAlgebra.RowCommutes | crates/suture-driver-csv/src/lib.rs:216-280 | swapping the sides of one key's merge changes neither row nor verdict |
| CsvAlgebra.RowAssociates | crates/suture-driver-csv/src/lib.rs:216-280 | merging three rows of a key, of any widths, is associative, conflicts included, unless the base row ends in an empty cell |
| CsvAlgebra.JoinCommutes | crates/suture-driver-csv/src/lib.rs:191-281 | the merge of keyed tables is commutative, conflicts included |
| CsvAlgebra.JoinConflictsIff | crates/suture-driver-csv/src/lib.rs:216-280 | tables conflict exactly when the rows under some key clash, said in terms of their cells |
| CsvAlgebra.JoinIdempotent | crates/suture-driver-csv/src/lib.rs:191-281 | merging a table with itself gives it back, whatever the base |
| CsvAlgebra.BaseIsIdentity | crates/suture-driver-csv/src/lib.rs:191-281 | merging with the base never conflicts, and gives the table back exactly when no changed row is shorter than the base row it replaces |
| CsvAlgebra.JoinAssociates | crates/suture-driver-csv/src/lib.rs:191-281 | for tables of any widths: if no base row ends in an empty cell both bracketings give the same table or both conflict |
| CsvAlgebra.JoinAssociatesIff | crates/suture-driver-csv/src/lib.rs:191-281 | the merge with a base is associative on all tables exactly when no row of the base ends in an empty cell |
| CsvLists.KeyOrderIsComplete | crates/suture-driver-csv/src/lib.rs:202-212 | the key order holds exactly the keys of the three tables |
| CsvLists.MergeRowsLists | crates/suture-driver-csv/src/lib.rs:214-281 | for all tables, the merged row list conflicts exactly when the keyed merge does, and otherwise lists exactly its rows |
| CsvLists.RowsInSourceOrder | crates/suture-driver-csv/src/lib.rs:202-212 | merged rows stand in the order of their keys: those of the base, then those new in ours, then those new in theirs, each in the order of its own list |
| CsvLists.NumberIsJoined | crates/suture-driver-csv/src/lib.rs:214-281 | without the marker in a first cell: which numbered keys a merge without conflict keeps, from how many rows of base, ours and theirs start with the cell |
| CsvLists.RekeyedIff | crates/suture-driver-csv/src/lib.rs:32-54 | without the marker in a first cell, a merged list is keyed to the joined table again exactly when no first cell has fewer rows than the base on one side and more on the other |
| CsvListLaws.MergeIsJoin | crates/suture-driver-csv/src/lib.rs:191-281 | for lists with distinct first cells, merging lists is merging their keyed maps, and the merged first cells are distinct again |
| CsvListLaws.MergeAssociatesIff | crates/suture-driver-csv/src/lib.rs:886-921 | for a base with distinct first cells: the merge is associative on all lists with distinct first cells, conflicts included, exactly when no base row ends in an empty cell |
| CsvListLaws.MergeAssociatesIfRekeyed | crates/suture-driver-csv/src/lib.rs:886-921 | with duplicate first cells: both bracketings conflict alike and list the same rows, if in neither inner merge a first cell lost rows on one side and gained rows on the other and no base row ends in an empty cell |
| CsvListLaws.MergeAssociatesWithDuplicatesIff | crates/suture-driver-csv/src/lib.rs:886-921 | with duplicate first cells the merge with a base is associative on all lists exactly when the base is empty |
| CsvListLaws.MergeCommutes | crates/suture-driver-csv/src/lib.rs:191-281 | swapping the sides gives the same verdict and the same rows under the same keys, for all tables |
| CsvListLaws.MergeIdentities | crates/suture-driver-csv/src/lib.rs:924-960 | first cells distinct or free of the marker: merging a list with itself gives its rows back, and merging it with the base does exactly when no changed row shrank |
| CsvListLaws.TwinBreaksAssociativity | crates/suture-driver-csv/src/lib.rs:32-54 | for every base with rows: two empty lists and the base with a twin of its first row make the bracketings differ |
| CsvListLaws.EmptyEndBreaksLists | crates/suture-driver-csv/src/lib.rs:229-245 | for every base with distinct first cells and every row of it that ends in an empty cell, three lists on which the two bracketings differ |
| OfflineQueue.Queue.Enqueue | crates/suture-daemon/src/lib.rs:275-285 | a full queue drops its oldest entry; a queue of size zero panics |
| OfflineQueue.Queue.Drain | crates/suture-daemon/src/lib.rs:287-289 | takes everything in order and leaves the queue empty |
| OfflineQueue.Queue.Requeue | crates/suture-daemon/src/lib.rs:473-476 | re-enqueuing what a failed flush has left restores exactly these items |
| OfflineQueue.Queue.Flush | crates/suture-daemon/src/lib.rs:447-508 | by the first outcome that is not an acceptance: refused, an HTTP error or a network error leaves exactly the items from there on; an unreadable body or response leaves nothing; without one the queue is empty and the flush succeeds |
| OfflineQueue.RunConserves | crates/suture-daemon/src/lib.rs:275-289 | over any run of offers and flushes, what left the queue in order followed by what is queued is exactly what was offered, and the length stays within the limit |
| OfflineQueue.RunFates | crates/suture-daemon/src/lib.rs:447-508 | a push is lost, evicted or acknowledged in a run exactly when some event does that to it: only a flush whose first failure is an unreadable body or response loses pushes, only offers to a full queue evict |
| OfflineQueue.NothingDisappears | crates/suture-daemon/src/lib.rs:447-508 | without a lossy exit and without an offer to a full queue, acknowledged and queued pushes are all that were offered |
| BandwidthLimiter.Limiter.Refill | crates/suture-daemon/src/lib.rs:326-335 | adds what was earned since the last refill, up to twice the rate |
| BandwidthLimiter.Limiter.Acquire | crates/suture-daemon/src/lib.rs:337-349 | a request of up to twice the rate sleeps at most once and takes its tokens; a larger one never leaves the loop |
| BandwidthLimiter.SleepCoversDeficit | crates/suture-daemon/src/lib.rs:342-347 | one sleep of the computed length, and any oversleeping, refills the deficit up to the capacity |
| BandwidthLimiter.SleptIsGrant | crates/suture-daemon/src/lib.rs:337-349 | a request that slept is one possible grant at the time it woke |
| BandwidthLimiter.TokensStayInRange | crates/suture-daemon/src/lib.rs:311-349 | over any run tokens stay between nothing and twice the rate |
| BandwidthLimiter.GrantedWasEarned | crates/suture-daemon/src/lib.rs:311-349 | what was granted plus what is left was in the bucket or earned since |
| BandwidthLimiter.WindowBound | crates/suture-daemon/src/lib.rs:311-349 | in every window of any run at most twice the rate plus the rate times the length is granted |
| PatchGraph.PatchDag.AddPatch | crates/suture-core/src/dag/graph.rs:131-186 | rejects a known id or an unknown parent, otherwise adds the node under its parents; the untouched ancestor cache stays correct exactly unless the new id was asked for before and has parents |
| PatchGraph.NewGeneration | crates/suture-core/src/dag/graph.rs:157-168 | a new patch is of generation zero exactly without parents, and else of one more than the highest of theirs |
| PatchGraph.PatchDag.Ancestors | crates/suture-core/src/dag/graph.rs:210-241 | returns the cached set or the result of a search; with a correct cache it is exactly the set of ancestors |
| PatchGraph.PatchDag.Lca | crates/suture-core/src/dag/graph.rs:250-295 | with a correct cache returns a common ancestor of highest generation, the smaller id among equals, or none exactly when there is none |
| PatchGraph.Search | crates/suture-core/src/dag/graph.rs:214-236 | the breadth-first loop returns exactly the ancestors |
| PatchGraph.BestCommon | crates/suture-core/src/dag/graph.rs:278-294 | the selection loop returns the candidate of highest generation, the smaller id among equals |
| PatchGraph.LinkedIsAcyclic | crates/suture-core/src/dag/graph.rs:131-186 | a graph built by adding patches has no cycle |
| PatchGraph.AncestorsStay | crates/suture-core/src/dag/graph.rs:205-209 | adding a patch does not change the ancestors of any other id |
| PatchGraph.CacheAfterAdd | crates/suture-core/src/dag/graph.rs:205-209 | after an addition the cache is still correct exactly when it has no entry for the new id or the patch has no parents: the documented claim that no invalidation is needed fails for an id asked for before it is added |
| PatchGraph.LcaIsLowest | crates/suture-core/src/dag/graph.rs:243-295 | no common ancestor descends from the one returned |
| PatchGraph.LcaIsSymmetric | crates/suture-core/src/dag/graph.rs:243-295 | the result does not depend on the order of the two patches |
| PatchImport.ImportPatches | crates/suture-cli/src/remote_proto.rs:344-361 | the loop skips stored patches, links new ones to the declared parents stored by then, stops at the first that cannot be converted, and counts the new ones |
| PatchImport.ImportKeepsSound | crates/suture-cli/src/remote_proto.rs:344-361 | whatever the order of the response: no cycle, every link a declared parent, nothing stored is touched |
| PatchImport.ImportedIds | crates/suture-cli/src/remote_proto.rs:344-361 | afterwards exactly the patches stored before and those listed are stored |
| PatchImport.ImportIsIdempotent | crates/suture-daemon/src/lib.rs:665-689 | importing the same response again changes nothing |
| PatchImport.ImportedNode | crates/suture-cli/src/remote_proto.rs:349-357 | a new patch is linked to exactly those declared parents that were stored or listed before its first entry |
| PatchImport.LinksKeptIff | crates/suture-cli/src/remote_proto.rs:344-361 | no link to a stored declared parent is lost exactly when the response lists parents before children |
| PatchesSince.WalkFromTips | crates/suture-core/src/repository/repo_impl.rs:1060-1089 | the stack loop from all branch tips computes the record map of the step function |
| PatchesSince.WalkIsReached | crates/suture-core/src/repository/repo_impl.rs:1056-1089 | the walk visits exactly what can be reached from a tip without passing a known patch |
| PatchesSince.WalkRecords | crates/suture-core/src/repository/repo_impl.rs:1068-1083 | every record holds the patch's parents that are not known, or has been wiped by a second visit |
| PatchesSince.WipedIff | crates/suture-core/src/repository/repo_impl.rs:1068-1083 | in a history without merges, for any tips, exactly these records are wiped: of a tip with an unknown parent that a tip listed after it reaches |
| PatchesSince.NothingWipedIfListedOnce | crates/suture-core/src/repository/repo_impl.rs:1068-1083 | with merges: nothing is wiped if neither the tips nor the unknown parents of a patch name a patch before one it is reached from |
| TopologicalSort.CountEdges | crates/suture-core/src/repository/repo_impl.rs:1091-1101 | in-degrees and child lists count exactly the recorded edges |
| TopologicalSort.Release | crates/suture-core/src/repository/repo_impl.rs:1113-1127 | emitting a patch lowers the in-degree of its children and releases exactly those whose last parent it was |
| TopologicalSort.SortTopologically | crates/suture-core/src/repository/repo_impl.rs:1091-1129 | the output holds no patch twice, only recorded ones, each behind its recorded parents; a recorded patch is missing only if one of its recorded parents is; those released earlier come first, and of those released together the smaller ids |
| TopologicalSort.OrderIsDetermined | crates/suture-core/src/repository/repo_impl.rs:1091-1129 | any two such lists of the same records are equal: the order in which the hash maps are walked does not show |
| TopologicalSort.NothingLeftOut | crates/suture-core/src/repository/repo_impl.rs:1091-1129 | over records without a cycle nothing is missing |
| PushOrder.ListPatchesSince | crates/suture-core/src/repository/repo_impl.rs:1060-1134 | the whole method: ancestors of the reference, the walk, the sort |
| PushOrder.ListIsReached | crates/suture-core/src/repository/repo_impl.rs:1054-1059 | the list is exactly what can be reached from a branch tip without passing a patch the other side knows |
| PushOrder.ParentsFirstByRecords | crates/suture-core/src/repository/repo_impl.rs:1068-1134 | the list has parents first exactly when no wiped record puts a patch before a listed parent |
| PushOrder.ParentsFirstIff | crates/suture-core/src/repository/repo_impl.rs:1060-1134 | in a history without merges, for any branches: parents come first exactly when each tip that a tip listed after it reaches has only an unknown parent with smaller id and nothing listed to wait for |
| PushOrder.ListedOnceIsInOrder | crates/suture-core/src/repository/repo_impl.rs:1060-1134 | with merges: parents come first if nothing is named before a patch it is reached from |
| PushOrder.ChainIsOutOfOrder | crates/suture-core/src/repository/repo_impl.rs:1060-1134 | a branch on an ancestor of another branch: every list of that history names a patch before its parent |
| HubPull.Reach | crates/suture-hub/src/server.rs:2025-2061 | the stack loop visits exactly the starting patches and their ancestors |
| HubPull.CollectAncestors | crates/suture-hub/src/server.rs:2025-2061 | what the client is taken to have: exactly the histories of those of its branch tips that the hub stores |
| HubPull.Dfs | crates/suture-hub/src/server.rs:2141-2158 | the recursive visit finishes exactly what it newly visits, each patch behind its listed parents |
| HubPull.SortParentsFirst | crates/suture-hub/src/server.rs:2120-2139 | the depth-first sort returns the same patches once each, and over declared parents without a cycle every listed parent before its children |
| HubPull.CollectNewPatches | crates/suture-hub/src/server.rs:2063-2118 | what is served is exactly what is stored and not taken to be at the client, parents first |
| HubPull.Pull | crates/suture-hub/src/server.rs:817-868 | a pull serves everything the client lacks, or the front of that list if cut; every lacking parent of what it serves is served before it |
| HubPull.CutIsServed | crates/suture-hub/src/server.rs:855-857 | this also holds for any front of a response |
| HubPull.CutMissesNewest | crates/suture-hub/src/server.rs:855-857 | a patch of which the client lacks more history than was served is not among what was served |
| HubPull.LeadingParentsKeepLinks | crates/suture-cli/src/remote_proto.rs:344-361 | importing such a response loses no link, whatever the client has stored already |
| PullRuns.PullKeepsInv | crates/suture-cli/src/remote_proto.rs:344-361 | importing a response, or a front of it, made for this client at any earlier time, links what it brings to every declared parent that client or hub had |
| PullRuns.LinksStayWhole | crates/suture-hub/src/server.rs:2025-2158 | over any run of commits, whole and cut pulls and imports that stop halfway, while the hub grows: every declared parent the client has is linked, every one the hub has is there |
| PullRuns.PullCompletes | crates/suture-hub/src/server.rs:817-868 | after any such run, an uncut pull leaves the client with everything the hub has |
| PushProtocol.PushIsList | crates/suture-daemon/src/lib.rs:745-750 | what a push sends is the list the repository computes |
| PushProtocol.PushCoversBranches | crates/suture-daemon/src/lib.rs:745-750 | once a prepared push is delivered, the whole history of every branch is on the hub |
| PushProtocol.HeadCoveredIff | crates/suture-daemon/src/lib.rs:767-769 | the history of HEAD is covered by what is sent and the reference exactly when HEAD itself is |
| PushProtocol.AttachedHeadIsIncluded | crates/suture-daemon/src/lib.rs:767-769 | on a branch, or with an unreadable HEAD, HEAD is always included |
| PushProtocol.StepKeepsInv | crates/suture-daemon/src/lib.rs:721-920 | every step of any number of pushes on their way, commits (214-249), pulls at any time and failures between any two steps keep the invariant, provided HEAD is included when a push is prepared |
| PushProtocol.PrepareByHandKeepsInv | crates/suture-cli/src/cmd/push.rs:53-59 | so does a push by `suture push`, which does not look at the checkpoint |
| PushProtocol.ReferencesStayCovered | crates/suture-daemon/src/lib.rs:721-920 | over every interleaving of pushes, pulls and commits by any processes on a branch, whatever `last_pushed` or the checkpoint names has its whole history on the hub |
| PushProtocol.NeverPushedIsSafe | crates/suture-daemon/src/lib.rs:731-750 | a repository that was never pushed satisfies the invariant |
| PushProtocol.ExcludedHeadIsSkipped | crates/suture-daemon/src/lib.rs:767-769 | from any state where HEAD is neither sent nor on the hub, the next successful push records it as pushed and no push based on that record sends it |
| PushOutcome.WholePushDoes | crates/suture-daemon/src/lib.rs:721-920 | from any state, a push that nothing interrupts adds what it sends to the hub, records HEAD, clears the checkpoint and changes nothing else |
| PushOutcome.StoppedPushIsRepeated | crates/suture-daemon/src/lib.rs:733-769 | what a push leaves that stops behind any of its steps; the next one sends the same patches again, unless it stopped behind recording with no checkpoint written or known |
| PushProtocol.DetachedExampleSkips | crates/suture-daemon/src/lib.rs:767-769 | a checked-out commit on no branch is such a state |
| PushEncoding.CanonicalPushBytes | crates/suture-cli/src/remote_proto.rs:135-174 | the appending loops write the length- and NUL-delimited encoding |
| PushEncoding.CanonicalDecides | crates/suture-cli/src/remote_proto.rs:135-174 | for fields without NUL, two requests have equal bytes exactly when repository, covered patch fields in order, both branch lists and the force flag are equal; touch set, target path, payload, parents and blobs are not covered |
| HubSignature.CheckedPushBytes | crates/suture-protocol/src/lib.rs:185-214 | the loops of the encoder against which a hub checks signatures write repository, patches and branches |
| HubSignature.SignedGoesOn | crates/suture-cli/src/remote_proto.rs:160-172 | for every request, the client signs these bytes followed by the known branches and the force flag |
| HubSignature.CheckedIsNotSigned | crates/suture-hub/src/server.rs:1993 | so for no request are the bytes checked the bytes signed: they are a proper beginning of them |
| HubSignature.SpelledOut | crates/suture-cli/src/remote_proto.rs:135-174 | one request written out byte by byte |
| PushEncoding.NulBreaksDecoding | crates/suture-cli/src/remote_proto.rs:135-174 | for every request and every patch in it: with a NUL in identifier, operation or author, another request has the same bytes |
| PushEncoding.NulInBranchName | crates/suture-cli/src/remote_proto.rs:152-170 | the same for a NUL in the name of a branch, in either list |
| AuditLog.Log.Append | crates/suture-core/src/audit.rs:103-140 | appends one entry linked to the last, with the next number; the log verifies afterwards exactly when it did before; a last line that does not parse blocks appending |
| AuditLog.Log.VerifyChain | crates/suture-core/src/audit.rs:182-194 | counts the entries that parse and returns the first that breaks the chain; none exactly when every entry verifies |
| AuditLog.LinesAreReadOneByOne | crates/suture-core/src/audit.rs:160-176 | a line that does not parse is left out and hides no other, wherever it stands; one that does is read in its place |
| AuditLog.PrefixVerifies | crates/suture-core/src/audit.rs:182-194 | dropping entries from the end leaves a log that verifies |
| AuditLog.AppendedLogVerifies | crates/suture-core/src/audit.rs:103-140 | every log built by appending verifies, numbers its entries from zero and keeps every record in its place |
| AuditLog.PreimageDecides | crates/suture-core/src/audit.rs:50-59 | two entries hash the same bytes exactly when number, previous hash and run-together text are equal |
| AuditLog.SameTipSameLog | crates/suture-core/src/audit.rs:182-194 | two verifying logs with the same last hash have the same length and, entry by entry, the same number, hashes and run-together text, if no two of their entries collide and none hashes to zero |
| AuditLog.EditIsCaughtIff | crates/suture-core/src/audit.rs:3-4 | editing an entry's text in place is caught exactly when the run-together text changes |
| AuditLog.RehashIsCaughtIff | crates/suture-core/src/audit.rs:3-4 | rewriting an entry together with its hash is caught exactly when another entry follows and the content changed |
| AuditLog.FieldBoundariesAreOpen | crates/suture-core/src/audit.rs:50-59 | moving the last byte of the actor to the action leaves every log verifying |
| HexForm.ToHex | crates/suture-common/src/lib.rs:55-63 | the loop prints the 64 lower-case digits of the bytes in order |
| HexForm.DigitsAre | crates/suture-common/src/lib.rs:34-63 | the digits printed and read, as characters: lower case printed, either case read, a plus sign read only in front |
| HexForm.FromHex | crates/suture-common/src/lib.rs:34-51 | rejects every other length and every pair that is not two digits (a plus sign may stand for the first), else returns the bytes spelled |
| HexForm.HexParsesBack | crates/suture-common/src/lib.rs:34-63 | parsing the printed form gives the hash back |
| HexForm.HexInjective | crates/suture-common/src/lib.rs:55-63 | different hashes print differently |
| HexForm.ReprintsIff | crates/suture-common/src/lib.rs:34-63 | a text that parses is the printed form of its hash exactly when it has no capital and no plus sign |
| Signing.HexKeepsOrder | crates/suture-core/src/signing.rs:100 | ordering parents by their hex text is ordering them by their bytes |
| Signing.CanonicalPatchBytes | crates/suture-core/src/signing.rs:64-115 | the sorting and appending loops write the encoding of the patch with both lists in order |
| Signing.OrderIsIgnored | crates/suture-core/src/signing.rs:80-106 | any permutation of the touch set and of the parents gives the same bytes |
| Signing.SignedInOrder | crates/suture-core/src/signing.rs:79-106 | touches and parents are signed in ascending order of their bytes, a prefix first, each as often as it is given |
| Signing.SpelledOut | crates/suture-core/src/signing.rs:74-115 | for all fields, the bytes of a patch with one touch, a path and one parent, and of one with none of these, in the order they are written |
| Signing.SignedBytesDecide | crates/suture-core/src/signing.rs:64-115 | for clean patches with as many touches, equal bytes mean the same patch up to the order of touches and parents, and only then; the number of parents need not be the same beforehand |
| Signing.SignedAlikeIff | crates/suture-core/src/signing.rs:64-115 | two clean patches signed alike are the same up to order exactly when they have as many touches |
| Signing.TouchCountIsOpen | crates/suture-core/src/signing.rs:78-111 | for every operation, touches, author, message and parent: a patch with one touch more and another with one touch less have the same signed bytes |
| Calendar.DateOfDay | desktop-app/src/main.rs:1131-1147 | every day number, negative ones included, has a valid date, and counting days to that date gives the number back |
| Calendar.DayOfDate | desktop-app/src/main.rs:1131-1147 | the closed form returns every valid date from its counted day number |
| Calendar.ConsecutiveDays | desktop-app/src/main.rs:1131-1147 | consecutive days have consecutive dates |
| Calendar.ShownToTheMinute | desktop-app/src/main.rs:1121-1129 | date, hours and minutes shown give the timestamp back to the minute |
| Calendar.CountingIncreases | crates/suture-cli/src/ref_utils.rs:110-145 | later dates have larger day numbers |
| Calendar.ParseDate | crates/suture-cli/src/ref_utils.rs:98-130 | accepted exactly in the three ranges; the counting loops return the day number times 86400 |
| Calendar.ParserReadsShownDate | crates/suture-cli/src/ref_utils.rs:98-130 | for days from 1970 on, the date shown is accepted exactly up to the year 2100 and stands for the same day |
| Calendar.AcceptedIsShownIff | crates/suture-cli/src/ref_utils.rs:98-145 | an accepted date is shown back as written exactly when its month has that day; otherwise it has rolled over into the next month |
| Calendar.FebruaryThirtyFirst | crates/suture-cli/src/ref_utils.rs:104-107 | 31 February 2023 is accepted and stands for 3 March |
| SheetsCsv.ValuesToCsv | crates/suture-connector-gsheets/src/lib.rs:305-318 | fails exactly for the empty grid, otherwise prints the rows in order |
| SheetsCsv.PrintedAsItIsIff | crates/suture-connector-gsheets/src/lib.rs:411-418 | a cell is printed as it is exactly when it holds no comma, quote or line end |
| SheetsCsv.ReadsEscaped | crates/suture-connector-gsheets/src/lib.rs:411-418 | a reader of section 2 of RFC 4180 reads every escaped cell back, commas, quotes and line ends included |
| SheetsCsv.ReadsPrinted | crates/suture-connector-gsheets/src/lib.rs:305-318 | the reader returns the printed grid with each row without cells as a row of one empty cell |
| SheetsCsv.ReadsBackIff | crates/suture-connector-gsheets/src/lib.rs:305-318 | the reader undoes the printer exactly on grids whose rows all have a cell |
| SheetsCsv.PrintsAlikeIff | crates/suture-connector-gsheets/src/lib.rs:305-318 | two grids print alike exactly when they differ only in rows without cells |
| Properties.ParseProperties | crates/suture-driver-example/src/lib.rs:19-56 | the line loop with its pending key and continuation computes the fold of the line step |
| PropertiesLines.ContinuedEntry | crates/suture-driver-example/src/lib.rs:35-48 | for every entry line, with any blanks around key, equals sign and value, any lines that end in a backslash and a last line that does not: the entry whose value is all of these joined, then the entries of the text behind |
| PropertiesLines.EntryBeforeSkipped | crates/suture-driver-example/src/lib.rs:26-33 | a blank or comment line ends the entry before it, continued or not, and gives nothing itself |
| PropertiesLines.EntryBeforeEntry | crates/suture-driver-example/src/lib.rs:35-40 | so does the next entry line, and (`EntryBeforeEnd`) the end of the text |
| PropertiesLines.IgnoredLine | crates/suture-driver-example/src/lib.rs:24-49 | a blank, comment or stray line in front of a text changes nothing |
| PropertiesLines.NoKeyIsIgnored | crates/suture-driver-example/src/lib.rs:35-53 | an entry line with no key, and the lines that continue it, give nothing |
| PropertiesLines.FeedIsNotNeeded | crates/suture-driver-example/src/lib.rs:24-25 | a line end behind the last line changes nothing |
| Properties.ParsedIsWellFormed | crates/suture-driver-example/src/lib.rs:19-56 | every parsed key is trimmed, non-empty, without `=` and no comment; every value is trimmed and on one line |
| Properties.ParsesBackIff | crates/suture-driver-example/src/lib.rs:19-56 | entries printed one per line parse back exactly when each is well formed |
| Properties.MergeProperties | crates/suture-driver-example/src/lib.rs:58-124 | no result exactly when some key changed differently on both sides; otherwise the printed merged entries |
| PropertiesOrder.ConflictingIff | crates/suture-driver-example/src/lib.rs:71-91 | a key conflicts exactly when what base, ours and theirs have for it, absence included, are three different things |
| PropertiesOrder.LastEntryCounts | crates/suture-driver-example/src/lib.rs:63-69 | of several entries with one key the last counts |
| PropertiesOrder.KeysInSourceOrder | crates/suture-driver-example/src/lib.rs:93-121 | merged keys stand in the order of ours, then those new in theirs in the order of theirs |
| Properties.MergedKeysAreTheUnion | crates/suture-driver-example/src/lib.rs:93-121 | the result has every key of either side exactly once and no other |
| Properties.MergedMap | crates/suture-driver-example/src/lib.rs:93-121 | each key has the value chosen for it |
| Properties.MergeParsesBack | crates/suture-driver-example/src/lib.rs:58-124 | for any three files, the merged text parses back to the merged entries, with distinct keys and the chosen values |
| Properties.SidesSwap | crates/suture-driver-example/src/lib.rs:83-121 | swapping the sides gives the same verdict and the same map |
| Properties.DeletionsAreIgnoredIff | crates/suture-driver-example/src/lib.rs:96-110 | a key has the textbook three-way value exactly when it was not deleted on one side only; such a key keeps its base value |
| LineChanges.BuildHunks | crates/suture-cli/src/display.rs:51-103 | the nested loops build one hunk per run of changes, numbered by the lines before it |
| LineChanges.HunksPatch | crates/suture-cli/src/display.rs:51-103 | for any change list the hunks name exactly the lines they remove, turn the old text into the new, and read backwards name the lines added and turn the new text into the old |
| LineChanges.NoHunksIff | crates/suture-cli/src/display.rs:40-45 | no hunk is shown exactly when nothing is marked as changed |
| LineChanges.ReplacementIsShown | crates/suture-cli/src/display.rs:51-103 | how any replaced passage is shown: where it stands in either text, counted from one, the lines removed with a minus, then the lines added with a plus |
| LcsDiff.BuildTable | crates/suture-core/src/engine/merge.rs:59-69 | the table loops fill every cell with the length of the longest common subsequence of the two prefixes |
| LcsDiff.WalkBack | crates/suture-core/src/engine/merge.rs:71-90 | the backward loop finds the changes of the recursive walk, in forward order |
| LcsDiff.CoalesceChanges | crates/suture-core/src/engine/merge.rs:175-208 | the loop joins neighbours of a kind |
| LcsDiff.CoalescingKeepsTexts | crates/suture-core/src/engine/merge.rs:200-208 | coalescing keeps both texts and the number of kept lines |
| LcsDiff.ExactDiffIsBest | crates/suture-core/src/engine/merge.rs:53-92 | the exact diff leads from base to modified, keeps at least as many lines as any other change list that does, joins neighbours, and never puts an insertion before a deletion |
| LinearDiff.MatchLines | crates/suture-core/src/engine/merge.rs:125-137 | the loop pairs each base line with the first equal free line of the other text |
| LinearDiff.FirstIsTaken | crates/suture-core/src/engine/merge.rs:125-137 | every line of the text equal to a line of the base is taken by an earlier line of the base, or that line has it or one before it |
| LinearDiff.DiffLinesLinear | crates/suture-core/src/engine/merge.rs:94-172 | the loops write deletions and insertions between the pairs |
| LinearDiff.GreedyRelatesIff | crates/suture-core/src/engine/merge.rs:94-172 | the diff for large texts starts from the base, and ends in the modified text exactly when every kept line lands on an equal line |
| LinearDiff.UncrossedLands | crates/suture-core/src/engine/merge.rs:94-172 | matches in increasing order land well |
| LinearDiff.CrossedLinesAreLost | crates/suture-core/src/engine/merge.rs:28-51 | for every text of more than 2000 lines whose first two lines differ and changed places, unless the second of them is repeated behind: the diff ends in another text |
| LinearDiff.DiffRelatesIff | crates/suture-core/src/engine/merge.rs:23-51 | a diff leads from base to modified unless a text is large and its matches land badly |
| LinearDiff.DiffShape | crates/suture-core/src/engine/merge.rs:28-208 | every diff alternates kinds, has no empty change and no insertion before a deletion |
| ChangeMaps.BuildChangeMap | crates/suture-core/src/engine/merge.rs:395-452 | the loop records one action per place, an insertion after a deletion joined to it |
| ChangeMaps.InsertionsJoin | crates/suture-core/src/engine/merge.rs:424-446 | insertions one behind the other are one action in their order, and belong to the deletion before them |
| ChangeMaps.MapReplaysDiff | crates/suture-core/src/engine/merge.rs:391-470 | replaying the map of any diff of that shape over its old text gives its new text |
| ChangeMaps.InsertBeforeDeleteIsLost | crates/suture-core/src/engine/merge.rs:414-424 | for an insertion before a deletion the map forgets the insertion: the shape is needed |
| LineMerge.ThreeWayMergeLines | crates/suture-core/src/engine/merge.rs:232-361 | the loop that takes actions out of both maps computes the merge function, with its counts and conflict blocks |
| LineConflicts.MergeResolves | crates/suture-core/src/engine/merge.rs:289-352 | for all maps that write no marker line: resolving every conflict to what stands above the separator gives the merge with our action taken at each disagreement, and to what stands below it theirs |
| LineConflicts.MergedResolves | crates/suture-core/src/engine/merge.rs:232-361 | so for all texts without marker lines |
| LineConflicts.OneLineConflict | crates/suture-core/src/engine/merge.rs:317-325 | for all labels and lines: the whole output when both replace the only line differently |
| LineConflicts.TrailingConflict | crates/suture-core/src/engine/merge.rs:330-352 | and when both append different lines |
| LineMerge.DiffInOrder | crates/suture-core/src/engine/merge.rs:391-452 | the actions of a diff lie in the base one behind the other, and replaying them gives the diff's new text |
| LineMergeLaws.CleanIff | crates/suture-core/src/engine/merge.rs:289-327 | the merge is clean exactly when the sides write the same lines wherever the loop meets an action of both |
| LineMergeLaws.EveryEditIff | crates/suture-core/src/engine/merge.rs:289-327 | a replay carries out every edit exactly when none begins inside lines that another deletes |
| LineMergeLaws.MergeIsReplay | crates/suture-core/src/engine/merge.rs:289-352 | if the sides never disagree the merge is clean and replays both maps together, ours deciding what is deleted |
| LineMergeLaws.SelfMap | crates/suture-core/src/engine/merge.rs:28-51 | a text has no edits against itself |
| LineMergeLaws.CarriesOutAllIff | crates/suture-core/src/engine/merge.rs:289-327 | the loop meets every edit of both sides, equal ones where it meets two, exactly when the edits fit together: equal at a common place, none beginning inside lines another deletes |
| LineMergeLaws.EditsCarriedOutIff | crates/suture-core/src/engine/merge.rs:232-361 | so for the diffs of all texts |
| LineMergeLaws.CompatibleMerge | crates/suture-core/src/engine/merge.rs:219-361 | then the merge is clean and writes the replay of both sides' edits, for diffs that lead to their texts |
| LineMergeLaws.MergeIsSymmetric | crates/suture-core/src/engine/merge.rs:289-352 | swapping the sides keeps both counts, and a clean result whole, overlaps or not, if the loop meets no two edits that write the same lines and delete different numbers of lines |
| LineMergeLaws.MovesAlikeIff | crates/suture-core/src/engine/merge.rs:289-327 | the loop goes through the base the same way for swapped sides exactly when it meets no such edits |
| LineMergeLaws.SidesSwap | crates/suture-core/src/engine/merge.rs:219-361 | so for all texts: swapping the sides keeps counts and clean results if no such edits are met |
| LineMergeLaws.OverlappedEditIsDropped | crates/suture-core/src/engine/merge.rs:289-327 | an edit that begins inside lines the other side deletes is dropped and the merge reports no conflict |
| LineMergeLaws.SidesAreNotSymmetric | crates/suture-core/src/engine/merge.rs:304-314 | inserting a line and replacing by the same line count as one change, and the order of the sides decides the text |

## Left out

- DocxBody.ParsedText: positions are counted in characters, not UTF-8 bytes; a suffix starting with a non-ASCII character, where the byte cut falls inside a character, is modelled as the panic it causes.
- The ZIP container, part lookup and lossy decoding around the Word driver: only the document part's text is modelled, and a parse error carries its kind, not its message.
- CsvMerge.MergeCsv: starts from parsed headers and rows and ends before serialization; the `csv` crate's writer rejects rows whose width differs from the header's, which the model does not show.
- CsvHeaders.MergesByNameIff: for lists without duplicate headers, since a duplicate header does not name one column.
- DocxText.TextOfPieces: markup whose text elements hold no further markup.
- CsvHeaders.HeadersInSourceOrder: for lists without duplicate headers in ours and theirs; how often a duplicate stands is `MergedCount`.
- OfflineQueue.Queue.Enqueue: the time of queuing and the retry count, which nothing reads, are not kept.
- BandwidthLimiter.Limiter.Acquire: reals instead of `f64`, and a bounded number of sleeps instead of an endless loop; rounding is not modelled.
- PatchGraph.PatchDag.AddPatch: child lists, payloads and branch operations of the graph are not kept; a hash is a number compared in byte order.
- PushOrder.ListIsReached: assumes a rank that grows from declared parents to children, which content-addressed ids give.
- PushOrder.ListedOnceIsInOrder: one direction only; the exact condition is proved for histories without merges, and over the walk's records in general.
- HubPull.SortParentsFirst: assumes a rank that grows from declared parents to children, which content-addressed ids give; the order in which the hub's maps and sets iterate is left open, so the list is fixed only up to that order.
- PullRuns.LinksStayWhole: an id fixes the declared parents, as content addressing does; the hub may grow in any way in which a declared parent does not arrive after its child; blobs, signatures, the limits on message size and the second protocol version's extra fields are not modelled.
- PushProtocol.StepKeepsInv: a hub is the set of patches it has; what is pulled is assumed to be a patch whose stored history the hub holds; preparing a push is one step, since a process works on the repository as it opened it, and `suture push` reads HEAD before its request.
- Rebuilding the graph from stored patches when a repository is opened, branch updates after a pull, and the working tree.
- The HTTP exchange, compression, base64, blobs, retries inside the client, signature validity, and all file, SQLite and process calls.
- AuditLog.Log.Append: the clock, I/O errors and lines that are not UTF-8 are not modelled; a line is an entry or one that does not parse.
- AuditLog.SameTipSameLog: assumes that no two entries of the two logs collide and that none hashes to zero.
- Signing.SignedBytesDecide: needs equal numbers of touches, since it is false without (`TouchCountIsOpen`).
- Calendar.ParseDate: starts from the three parsed numbers; trimming, splitting at `-`, decimal parsing and the branch for ` ago` are left out.
- Calendar.DateOfDay: unbounded integers; the source calls it with day numbers far from the ends of 64 bits.
- SheetsCsv.ReadsBackIff: the reader accepts any character but comma, quote, CR and LF in a plain field and LF as the only line end.
- LineChanges.BuildHunks: returns the hunks instead of printing them with colours.
- LinearDiff.MatchLines: the index from lines to positions is a function, and a first matching pass whose result the code does not use is left out.
- LineMergeLaws.MergeIsSymmetric: the converse is proved for the way the loop takes, not for the text it writes, which can be the same by chance.
- LineConflicts.MergedResolves: for texts without lines that look like markers of the merge, since such a line makes the output ambiguous.
- LineMerge.ThreeWayMergeLines: lines are given; splitting files into lines and joining them again is left out.
- Diff output of the drivers, the row diff of the CSV driver, the connectors' clients, fuzzy matching, heuristics on entropy and file types, the terminal and desktop interfaces.
