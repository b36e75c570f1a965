# Verification of the storage engine

A Dafny model of the C storage engine: the append-only file and its recovery scan, the persistent
indexes on top of it, the document layer with its journal and planner, and the value codec.
`dafny verify dfyconfig.toml` checks the whole project. Each module follows one part of the engine;
operations that change state are methods with loops and arrays where the C code has them, tied to
specification functions about which the main theorems are proved.

## What is modelled

- **B+ tree** (`Keys`, `SortedEntries`, `RecordFile`, `TreeModel`, `NodeFacts`, `BPlusTree`, `TreeRead`,
  `TreeVerify`, `TreeCursor`, `TreeRuns`, `BulkLoad`, `Compaction`). A file is a map from offsets to
  records, with committed and pending parts; a handle points at a root. A ghost tree stands for what a
  pointer reaches, and one predicate says routing, depth, key order and how well nodes are filled, from
  not at all to everywhere. Adds and deletes are exactly map updates through every split, merge,
  redistribution and root collapse, and keep whatever fill there is; cursors stream the commit they were
  opened at; the verifier accepts exactly the readable images; compaction packs every level, keeps the
  map, passes the verifier and gives a tree to go on with.
- **File and recovery** (`Wire`, `ScanMachine`, `CommitScan`, `CommitFile`). Bytes. Runs of commits, each
  records, a trailer and metadata; the scan recovers the last whole commit after any cut, never truncates
  an intact guarded commit, and is stable.
- **Journal** (`SlotCodec`, `Journal`, `TornCommits`). The two-slot journal over any number of tree files:
  every write is all or nothing under crashes at any point, torn slot included. `TornCommits` puts the
  bytes of every file beside its records, so that a crash inside a tree commit is part of the runs: the
  torn file is refused, or opened at the commit before.
- **Diff, delta and text log** (`MyersDiff`, `LineDiff`, `Delta`, `TextLog`). The pruned Myers search always
  finds a script with as few edits as any; components spell both texts; applying a created delta gives back its target; every
  version of a log reads back, with a bound on the deltas applied.
- **Index keys** (`KeyEncoding`). The order-preserving encoding over the bits of doubles, dates and strings.
- **Document collection** (`OrderedKeys`, `DocIndex`, `QueryResults`, `DocCursor`). Equality indexes kept in
  step with the documents, the planner whose answer equals the full scan, the stable merge sort, and the
  cursor over the tree's stream whose batches are the find result at opening time, whatever is written
  between them.
- **R-tree** (`SpatialModel`, `QuadraticSplit`, `RTree`, `RTreeRuns`, `Nearest`). Split, underflow repair, box
  search as a multiset, how far the depth limit lets a run go, the array heap and best-first nearest
  neighbours.
- **Text index** (`HashDict`, `TermKeys`, `Postings`, `TextIndex`). The insertion-ordered hash dictionary, block
  chains under byte-ordered keys, and postings that stay the transpose of the documents' terms.
- **Updates** (`ArrayUpdates`, `Update`). Parsing and applying update documents, and the array operators.
- **Codec** (`Codec`, `Decoder`, `Builder`). The streaming builder with patched sizes, the recursive decoder,
  and their round trip.

## How to read the statements

- A key of a B+ tree appears as its rank, a real number; `Keys.CompareIsRankOrder` proves that the C
  comparison of numbers and byte strings is the order of ranks. Both zeros are one number.
- CRC-32, SHA-256, the gram hash and the dictionary hash are arbitrary functions. Where a checksum could
  collide the condition is explicit: `ScanRecovers` says exactly when a torn commit is refused,
  `TearDetected` is the assumption that a torn journal slot does not pass its CRC, and `TearShows` that a
  file torn inside a commit does not end in bytes that pass for a trailer and metadata.
- In `TornCommits` the encoding of a record is any function of the stated length (`enc`).
- Whether the host carries out a write is a parameter of the operation.
- Arithmetic on coordinates and distances is over the reals; text frequencies and lengths are integers.
- The comparison and matching rules of the query layer, `$inc`/`$mul`/`$bit` arithmetic, distances and
  tokenization enter as functions. `QueryResults.Find` and `ArrayUpdates.SortedIsSorted` ask that the
  comparison be a total preorder on the values at hand.

## Findings

- `TextLog.AddVersion`: the length of what is stored is cut to 32 bits (c/textlog.c:360-407). An accepted
  version keeps the log valid if and only if its snapshot or delta is shorter than 2^32 bytes: always for
  a snapshot, and after a version of fewer than 16 bytes exactly for a text shorter than 2^32 - 5.
  `OversizedVersion` shows a longer text accepted and lost.
- `ArrayUpdates.SliceIsWanted`: the limit of `$slice` is cut to 32 bits (c/db_update.c:498-506). The slice
  is the requested one if and only if the limit fits, or what is left of it still reaches every element;
  `SliceEmptied` shows a limit of 2^32 emptying the array.
- `DocIndex.Collection.RewriteOne`: a replace or update that fails after its index removals does not put the
  entries back (c/db.c:2013-2021, c/db.c:2155-2160). The indexes agree afterwards if and only if the write
  succeeded, or was refused before the store and no index applied to the old document. `ClashingRewrite`
  shows two documents and a unique index out of step. An insert that fails in an index after the document
  was stored leaves that index without its entry (`DocIndex.Collection.InsertOne`, `HalfIndexedBreaks`).
- `RTreeRuns.TooHigh`: nothing keeps an R-tree low. A split may leave one child in a node, and ties go to the
  first child (c/rtree.c:482-583), so that equal points at capacity 2 add a level each: the 131st insert
  is committed at height 129, and every insert, removal by id and answered search after it fails
  (c/rtree.c:588, c/rtree.c:859, c/rtree.c:1008). Up to capacity + 128 inserts since the tree was empty
  nothing fails (`RTreeRuns.RunFromCreate`), and a search that has an answer gets it if and only if the
  height is at most 128 (`RTree.SearchTree`).
- `Codec.DateLost`: a DATE is handed out as a double (c/binjson.c:343-349), so 2^53 + 1 comes back as 2^53;
  a date comes back if and only if it is a double (`Codec.DoubleExactly`).
- `NodeFacts.EmptyRangeBreaks`: the verifier accepts a child with an empty range of keys
  (c/bplustree.c:1246-1251), and a merge beside it puts the same separator into a node twice, which the
  verifier refuses. The merged node is in order if and only if the range was not empty
  (`TreeModel.JoinNodes`); no operation leaves such a child.
- The INT of the wire format takes eight bytes (c/binjson.c:164-169, FORMAT.md); README.md:25 of the
  repository says four. The model follows the code.

## Model

| member | source | states |
|---|---|---|
| Keys.CompareIsRankOrder | c/bplustree.c:87-100 | On all keys but NaN the C comparison is the order of real ranks, and equal exactly on equal keys; this justifies keys as ranks in the tree modules. |
| Keys.NaNMatchesEveryNumber | c/bplustree.c:140-142 | NaN compares equal to every number, the reason a NaN key must be refused. |
| SortedEntries.MapOfPut | c/bplustree.c:564-680 | An insert into the ascending entry list is the map update at exactly that key. |
| SortedEntries.MapOfDel | c/bplustree.c:846-904 | A removal from the ascending entry list takes exactly that key out of the map. |
| TreeModel.ReprExtends | c/bplustree.c:1630-1643 | Appending records never changes the tree below an existing pointer, which is what isolates snapshots and cursors. |
| TreeModel.RoutedEntries | c/bplustree.c:1235-1277 | In a tree whose nodes obey routing keys, depth and key ranges, the in-order entries ascend within the bounds. |
| TreeModel.HeightBound | c/bplustree.c:29 | With minimum fill at least one, a tree of height h holds at least 2^h entries, so the depth limit cannot fire on a tree of realistic size. |
| TreeModel.EdgeHeightBound | c/bplustree.c:1242-1245 | With the right edge exempt from the fill, as compaction leaves it, a tree of height h >= 1 still holds at least 2^(h - 1) entries. |
| TreeModel.JoinNodes | c/bplustree.c:783-844 | Two neighbours with the separator pulled down between them are a routed node exactly if the separator lies below the right one, that is, if the first child of the right node had a range of keys that was not empty. |
| NodeFacts.CutTrees | c/bplustree.c:666-675 | Cutting an overfull node at the midpoint gives two routed nodes with enough keys around the separator that moves up. |
| NodeFacts.MergedParent | c/bplustree.c:783-844 | Merging an underfull child with a neighbour leaves a routed parent with one separator fewer and the same entries. |
| NodeFacts.RedistributedParent | c/bplustree.c:788-844 | Redistributing leaves a routed parent with a new separator over two halves with enough keys, and the same entries. |
| NodeFacts.EmptyRangeBreaks | c/bplustree.c:1235-1277 | Two nodes that the verifier accepts side by side, one with an empty range for its first child, join into a node that it refuses. |
| NodeFacts.VersionCut | c/bplustree.c:1734-1749 | A committed version survives cutting the file anywhere above its root record. |
| BPlusTree.UpperBound | c/bplustree.c:110-118 | First index whose key is above the searched one. |
| BPlusTree.LowerBound | c/bplustree.c:119-127 | First index whose key is at or above the searched one. |
| BPlusTree.Bpt.AddNode | c/bplustree.c:564-680 | The recursive insert: replacement or two halves of the node, holding the old entries with the key put, routed and filled, at higher offsets. |
| BPlusTree.Bpt.AddRoot | c/bplustree.c:682-710 | The insert with root split: a valid new version whose entries are the old ones with the key put. |
| BPlusTree.Bpt.Add | c/bplustree.c:717-728 | On any readable tree, however well its nodes are filled: exactly the map update at the key, size up by one only for a new key, the invariant kept with the fill it had, the height up by at most one; a failed add leaves file and handle unchanged; it fails only for a key that cannot be stored, a read-only handle, a height above 128 (which a tree created here needs 2^128 entries for, 2^129 without compaction), or a refused host write. |
| BPlusTree.Bpt.Rebalance | c/bplustree.c:745-844 | An underfull child is merged or redistributed: the parent holds the same entries, its other children unchanged, with at most one separator fewer. |
| BPlusTree.Bpt.DelNode | c/bplustree.c:846-904 | The recursive delete: the entries without the key, and the fill restored below. |
| BPlusTree.Bpt.DeleteRoot | c/bplustree.c:906-932 | The delete with root collapse: a valid new version without the key, one entry fewer. |
| BPlusTree.Bpt.Delete | c/bplustree.c:934-945 | On any readable tree whose children have ranges that are not empty: exactly that key leaves the map; nothing at all changes when it is absent or the operation fails; the invariant is kept with the fill it had, and the height does not grow. |
| BPlusTree.Bpt.Create | c/bplustree.c:1538-1549 | Creating validates the order and leaves an empty valid tree. |
| BPlusTree.Bpt.Open | c/bplustree.c:1580-1614 | A file that ends with the metadata of a version opens as a handle at exactly that version. |
| BPlusTree.Bpt.Rewind | c/bplustree.c:1734-1749 | Rewinding to a commit boundary restores exactly the version committed there. Otherwise it succeeds exactly for the current length, which changes nothing, and for a length behind valid metadata, which cuts the file and takes that state; any other length is refused without a change. |
| TreeRead.Search | c/bplustree.c:949-980 | Found exactly if the key is in the map of the tree, with its value; on any readable image. |
| TreeRead.Collect | c/bplustree.c:989-1021 | The range scan with pruned descent returns exactly the selected entries in order. |
| TreeRead.SelectMeaning | c/bplustree.c:989-1021 | The selection is exactly the entries whose keys lie in the closed range. |
| TreeVerify.Verify | c/bplustree.c:1279-1284 | The verifier accepts exactly the images in which the root stands for a routed tree, of walkable height, with the recorded number of entries; on such images search, range and entries agree by the rows above. |
| TreeVerify.VersionsVerify | c/bplustree.c:1235-1277 | Every version that create, add, delete and compact can reach is readable with the recorded count, and no deeper than the verifier walks unless it holds 2^128 entries or more (2^129 without compaction): with the row above, the verifier accepts it. |
| TreeCursor.Cursor.Open | c/bplustree.c:1103-1120 | An opened cursor has exactly the selected entries of its commit to come; opening fails only on a tree too deep to walk. |
| TreeCursor.Cursor.Next | c/bplustree.c:1127-1163 | Each pull delivers the first entry to come and leaves the others; None exactly at the end. |
| TreeRuns.Perform | c/bplustree.c:717-945 | One operation of a run: the map changes as the operation says if it returned OK, and not otherwise. |
| TreeRuns.SizeIsCount | c/bplustree.c:1752 | The recorded size is the number of keys in the map. |
| TreeRuns.RunFromCreate | c/bplustree.c:717-945 | For every run of adds and deletes from create, with any host answers, the tree holds the map the successful operations build and the verifier accepts it. |
| TreeRuns.RunWithCompaction | c/bplustree.c:1495-1513 | Create, then adds, deletes and compactions in any order, with any host answers: the tree holds the map the successful operations build, the verifier accepts it below 2^128 entries, and no operation is refused for depth before that. |
| TreeRuns.Run | c/bplustree.c:717-945 | The same from any tree whose children have ranges that are not empty, found in a file or created here: the verifier accepts the end exactly if the height is at most 128, and without compaction the height grows by at most one an add. |
| TreeRuns.OpenVerified | c/bplustree.c:1279-1284 | A file that opens and that the verifier accepts, its values readable, gives a handle that the operations work on. |
| TreeRuns.PerformBeside | c/bplustree.c:1058-1163 | A write beside an open cursor changes nothing of what the cursor has to deliver. |
| TreeRuns.StreamUnderWrites | c/bplustree.c:1058-1163 | Pulls and writes interleaved in any order: the cursor streams exactly the selection of the commit it was opened at. |
| BulkLoad.Loader.AddEntry | c/bplustree.c:1406-1435 | Streaming an entry keeps the partial levels well formed and the fed entries in order. |
| BulkLoad.Loader.AddChild | c/bplustree.c:1372-1400 | Handing a finished node up keeps the levels linked: each holds the smallest keys of the level below as separators. |
| BulkLoad.FewerAbove | c/bplustree.c:1439-1456 | A level above two or more nodes has at least two fewer, the reason finishing terminates. |
| BulkLoad.LevelCount | c/bplustree.c:1288-1318 | A packed level over m nodes has ceil(m / order) nodes. |
| BulkLoad.LeavesPacked | c/bplustree.c:1288-1318 | A finished leaf level holds the fed entries in max(1, ceil(N / (order - 1))) leaves, all but the last full. |
| BulkLoad.PackedHeight | c/bplustree.c:1288-1318 | A tree packed on every level, of height h > 0, holds at least 2^h entries, so a packed tree of fewer than 2^129 is no deeper than the verifier walks. |
| BulkLoad.PackedFilled | c/bplustree.c:1242-1245 | What the loader builds is filled everywhere but on its right edge, and its root has two children: the fill that adds and deletes keep. |
| BulkLoad.Loader.Finish | c/bplustree.c:1439-1456 | Terminates with a routed tree of exactly the fed entries: every level above at least two nodes and as small as that allows, every node but the last of a level full, and each separator the smallest key to its right. |
| Compaction.Walk | c/bplustree.c:1473-1493 | The walk feeds exactly the entries of the subtree with their values. |
| Compaction.Compact | c/bplustree.c:1495-1513 | The compacted file holds the same map in a tree packed on every level with smallest-key separators, readable by search and range, ended by its metadata; it fails exactly on a tree too deep to walk. |
| Compaction.CompactAndVerify | c/bplustree.c:1495-1513 | Compaction fails exactly on a tree too deep to walk, and the verifier accepts what it writes for fewer than 2^129 entries. |
| Compaction.CompactAndOpen | c/bplustree.c:1495-1513 | The compacted file opens as a valid handle with the same contents, ready for adds, deletes and compactions; a failure leaves the source as it was. |
| Wire.SizeInPlace | c/bjfile.c:133-179 | The size a record states does not depend on what stands around it. |
| Wire.TornRecord | c/bjfile.c:133-179 | A record cut short is never taken for a whole one. |
| ScanMachine.ScanAll | c/bjfile.c:397-460 | A forward scan over whole commits accepts each of them. |
| ScanMachine.ScanAllThenTorn | c/bjfile.c:397-460 | A scan of whole commits, whole records and a torn end keeps the end of the last whole commit. |
| CommitScan.FindVerifiedCommit | c/bjfile.c:349-395 | The chunked search finds a position exactly if some position from there to the end carries a verifying commit. |
| CommitScan.ScanCommits | c/bjfile.c:397-460 | The scan decides as specified, and whenever it succeeds no position from the last good length on carries a verifying commit. |
| CommitScan.ScanRecovers | c/bjfile.c:397-460 | k protected commits and any proper prefix of the next: the result is the end of commit k, refused exactly if the prefix contains a trailer image that verifies. |
| CommitScan.RecoveryIsStable | c/bjfile.c:397-460 | What recovery leaves is accepted whole by the next scan. |
| CommitScan.IntactCommitNeverTruncated | c/bjfile.c:349-460 | If an intact guarded commit stands past the point where the scan stopped, the file is refused, not truncated. |
| CommitScan.CheckTail | c/bjfile.c:302-341 | The tail check accepts exactly the specified tails and returns their metadata record. |
| CommitScan.TailOfCommit | c/bjfile.c:302-341 | The tail check accepts what a guarded commit wrote, with its metadata. |
| CommitFile.BjFile.Append | c/bjfile.c:84-98 | A record joins the pending bytes and the running checksum. |
| CommitFile.BjFile.AppendProtected | c/bjfile.c:214-236 | Closes a commit with a trailer sealing everything since the last one, and the metadata record. |
| CommitFile.BjFile.CommitPending | c/bjfile.c:104-118 | One host write: all pending bytes reach the host or none does and they stay pending. |
| CommitFile.BjFile.Discard | c/bjfile.c:120-124 | Everything pending is dropped, the checksum state with it. |
| CommitFile.BjFile.CrashInCommit | c/bjfile.c:104-118 | A crash inside the host write of a closed commit: the scan returns the old end, or refuses exactly if the written part contains a verifying trailer image. |
| SlotCodec.DecodeEncode | c/db.c:153-171 | A journal slot reads back as what was written. |
| SlotCodec.WriteSlot | c/db.c:250-269 | Writing one slot changes no byte of the other. |
| SlotCodec.NextSlot | c/db.c:250-269 | Writing the next transaction, torn anywhere, leaves it or its predecessor the newest intact slot; a complete write leaves it. |
| Journal.RecoverBrings | c/db.c:271-296 | Recovery brings every file to the length vector of the newest intact slot, each a commit boundary; recovering again changes nothing. |
| Journal.RecordedAlways | c/db.c:250-296 | Once the journal holds a record, it does in every state that any sequence of whole tree commits, slot writes, torn or not, and recoveries reaches. |
| Journal.AllOrNothing | c/db.c:250-296 | A crash between the tree commits of a write or in its slot write recovers all files as before the write or all as after it. |
| Journal.FirstRecord | c/db.c:205-269 | The first record after the journal was emptied starts that protection. |
| Journal.Collection.CommitJournal | c/db.c:250-269 | Records the current length of every file as the next transaction in the other slot. |
| Journal.Collection.RewindAll | c/db.c:233-246 | Rewinds every file to its recorded boundary. |
| Journal.ChooseReached | c/db.c:284-294 | The slot chosen is the newest of which no file has fallen short. |
| Journal.Collection.RecoverAll | c/db.c:271-296 | Of the slots, newest first, the first that no file is shorter than is taken - the older one when a file lacks what the newer recorded - and if its lengths are boundaries every file goes exactly there; if some file is shorter than every slot it refuses and changes nothing; an empty journal adopts the files as they are. |
| TornCommits.OpenedAtBoundary | c/bplustree.c:1580-1614 | A file torn inside a commit is refused on opening exactly if the tail holds a trailer image that verifies, and otherwise opened at the end of the commit before, with all records of that commit and none behind. |
| TornCommits.CutStands | c/bplustree.c:1734-1749 | A file cut back to a commit boundary is again whole commits, in its bytes as in its records. |
| TornCommits.GuardedAlways | c/db.c:250-296 | In every state that tree commits, tree commits torn anywhere, reopenings, slot writes and recoveries reach, the newest journal record names a commit boundary of every file, in records and in bytes. |
| TornCommits.TornWriteUndone | c/db.c:271-296 | A crash inside a write, some trees committed and any of them torn inside a commit: once the files can be opened, recovery brings back exactly the state before the write. |
| MyersDiff.NextRow | c/diff.c:218-280 | One edit length: a path reaches both ends, or the new row again holds a path on every diagonal that matters despite the pruned limits. |
| MyersDiff.HasLastEdit | c/diff.c:218-250 | A script with edits is one with an edit fewer, an edit, and equal tokens behind it. |
| MyersDiff.NoneFurther | c/diff.c:232-247 | The path extended from the farther neighbour is the furthest on its diagonal: no script with as many edits comes further. |
| MyersDiff.NotInRow | c/diff.c:218-280 | A row on which no path reaches both ends rules out every script with as many edits, the pruned diagonals included. |
| MyersDiff.RowIsShort | c/diff.c:206-217 | Open paths have at most as many edits as both texts have tokens. |
| MyersDiff.FindScript | c/diff.c:206-287 | For token lists of at most 10^9 in total the search always finds a script, so the fallback error is unreachable; no script between the lists adds and removes fewer tokens. |
| LineDiff.TokenizeLines | c/diff.c:55-90 | Cuts a text into its lines, separators included. |
| LineDiff.LinesCounted | c/diff.c:55-90 | A text has only one number of lines, which the limit of the diff refers to. |
| LineDiff.LinesUnique | c/diff.c:55-90 | A text can be cut into its lines in only one way. |
| LineDiff.ChangedIsEdits | c/diff.c:167-200 | The lines that the changes add and remove are as many as the script edits. |
| LineDiff.BuildValues | c/diff.c:167-200 | Turns the linked script around and gives every component its kind and its text, of as many lines as it counts. |
| LineDiff.DiffLines | c/diff.c:206-287 | The diff cannot fail; kept and removed parts spell the old text, kept and added parts the new one; it adds and removes as few lines as any edit script between the lines of both texts, and between equal texts every part is kept. |
| Delta.VarRoundTrip | c/diff.c:932-950 | A LEB128 number below 2^64 reads back as itself wherever it stands. |
| Delta.ApplyDelta | c/diff.c:1016-1052 | Computes the target a delta describes, or rejects the delta, for all byte strings. |
| Delta.TargetSnoc | c/diff.c:1016-1052 | One more instruction adds exactly its bytes to the target. |
| Delta.CreateDelta | c/diff.c:969-1014 | Applying the created delta to its source gives back the target, for any gram hash; it is at most five bytes longer than the target. |
| Delta.ShortTarget | c/diff.c:1016-1052 | Four bytes of instructions can yield fewer than 2^28 bytes each, whatever the source. |
| TextLog.TextLog.Create | c/textlog.c:519-543 | A fresh log or tile. |
| TextLog.TextLog.Reconstruct | c/textlog.c:313-356 | Rebuilds the text of a version with at most diffs_per_snapshot deltas. |
| TextLog.TextLog.GetVersion | c/textlog.c:449-472 | Returns the text that was added as that version; out of range exactly otherwise. |
| TextLog.TextLog.AddVersion | c/textlog.c:409-440 | Accepted exactly if the host writes and the commit, with the length of the data cut to 32 bits, is shorter than 2^32 bytes; a failed add changes nothing. The text becomes the newest version and all others stay, and the log stays valid if and only if what it had to store is shorter than 2^32 bytes; after a version too short for a match, if and only if the text is shorter than 2^32 - 5. |
| TextLog.TextLog.Open | c/textlog.c:590-630 | Reopening after a commit cut short, or written whole but rejected by its checksum, gives the log of the last good commit. |
| TextLog.TextLog.OversizedVersion | c/textlog.c:360-407 | A text of 2^32 - 5 bytes or more is accepted after a version of fewer than 16 bytes, and what is stored does not rebuild it: the 32-bit limit is real. |
| TextLog.CutDelta | c/textlog.c:360-407 | A created delta cut to 32 bits rebuilds its text if and only if nothing was cut off. |
| TextLog.ShortSource | c/textlog.c:360-407 | After a version too short for a match the created delta is shorter than 2^32 if and only if the text is shorter than 2^32 - 5. |
| TextLog.AdoptExactly | c/textlog.c:360-407 | The log with an accepted version holds all versions, the new one included, if and only if what was to be stored fits in 32 bits. |
| TextLog.TextLog.AdoptMeta | c/textlog.c:590-630 | The metadata that ends the last good commit is one of the last two records seen, so the ring of two is enough. |
| KeyEncoding.PutValue | c/db_keyenc.c:9-65 | Appends the encoding of exactly the encodable fields. |
| KeyEncoding.MagnitudeMonotone | c/db_keyenc.c:9-65 | Without the sign, doubles are ordered like their bits (section 5.10 of IEEE 754-2019). |
| KeyEncoding.OrdinalOrder | c/db_keyenc.c:9-65 | The unsigned order of the transformed bits is the numeric order, both zeros being one number. |
| KeyEncoding.CompareOne | c/db_keyenc.c:9-65 | One encoding decides the comparison by the fields and leaves it to what follows exactly when they are equal. |
| KeyEncoding.TupleOrder | c/db_keyenc.c:9-72 | Bytewise order of concatenated encodings is tuple order, whatever follows; encodings are prefix-free. |
| KeyEncoding.PrefixRange | c/db_keyenc.c:74-77 | The range from a value prefix to the prefix closed by 0xff holds exactly the composite keys with that value part. |
| KeyEncoding.CompositeOrder | c/db.c:623-628 | Composite keys are ordered by values, then id, so two documents never share one. |
| DocIndex.BuildKey | c/db.c:623-628 | The composite key of a document, or an error when a field is missing or not encodable. |
| DocIndex.IdsHeld | c/db.c:634-651 | An index holds the ids of exactly the documents, a sparse one of those that have all its fields, each id once. |
| DocIndex.Collection.IdsOfAll | c/db.c:634-651 | While the collection is valid, an index that is not sparse holds the ids of exactly its documents. |
| DocIndex.AcceptsIsTakesIn | c/db.c:605-653 | An index accepts a document exactly if it is sparse and the document lacks a field, or all fields are there and encodable and, in a unique index, no other document has the same values. |
| DocIndex.AgreesAdd | c/db.c:718-774 | An entry added for a document that clashes with no other keeps one entry per document the index applies to. |
| DocIndex.AgreesRemove | c/db.c:776-816 | Removing a document and its entry keeps index and documents in agreement. |
| DocIndex.RangeHolds | c/db.c:664-690 | In an agreeing index the prefix range holds exactly the documents with that value part. |
| DocIndex.CheckUniqueOne | c/db.c:664-690 | A conflict is reported exactly if another document has the same encoded values. |
| DocIndex.FailedRewrite | c/db.c:2013-2021 | With the entry of a document removed, an index agrees with the documents if and only if it never applied to that document. |
| DocIndex.RewriteLeaves | c/db.c:2013-2025 | After a rewrite the indexes agree if and only if it succeeded, or was refused before the store while no index applied to the old document. |
| DocIndex.HalfIndexedBreaks | c/db.c:1507-1524 | A write that fails after the document was stored leaves an index without its entry. |
| DocIndex.Collection.CheckUnique | c/db.c:702-716 | Succeeds exactly if every unique index admits the document. |
| DocIndex.Collection.InsertOne | c/db.c:1507-1524 | Succeeds exactly for a new id that every index takes in; then an index that is not sparse, or whose fields the document has, gains exactly the entry of its key, and a sparse one without them keeps its tree; the state after each failure is given, and the indexes agree exactly if the insert succeeded or was refused before the store. |
| DocIndex.Collection.RewriteOne | c/db.c:1964-2031 | Replaces the document exactly if every index accepts it beside the others; the state after each failure is given, and the indexes agree exactly if the write succeeded, or was refused before the store and no index applied to the old document. |
| DocIndex.ClashingRewrite | c/db.c:1964-2031 | Two documents, one unique index, and a replacement of the second by one with the value of the first: refused, and the second document has lost its entry. |
| DocIndex.TwoInserts | c/db.c:1507-1524 | Two inserts reach the collection of that example. |
| DocIndex.Collection.DeleteOne | c/db.c:1860-1880 | The document and its entries go; all indexes agree. |
| DocIndex.Collection.Plan | c/db.c:952-1004 | The first index whose every field the filter pins; none when the filter has top-level operators. |
| DocIndex.RangeIsCandidates | c/db.c:849-913 | Streaming the prefix range yields exactly the documents with those values, by ascending id. |
| DocIndex.Collection.FindByIndex | c/db.c:849-913 | Exactly the documents with the given values in the index, in key order. |
| DocIndex.MatchIsCandidate | c/db.c:952-1004 | Every document that matches a filter is a candidate of an index the filter pins. |
| DocIndex.Collection.GatherMatches | c/db.c:1425-1503 | The ids of exactly the documents with every value of the filter that meet the rest of it, in the same sequence whether an index or the whole collection is read; it fails exactly if the planned index gets a value that cannot be encoded. |
| QueryResults.FilteredJoins | c/db.c:1425-1503 | The filter keeps what matches and works on the parts of a list separately. |
| QueryResults.ResultsShown | c/db_query.c:771-818 | Result i is the projection of document skip + i; there are as many as the limit allows and the documents give. |
| QueryResults.Collect | c/db_query.c:771-818 | Skip, limit and projection of a list of documents. |
| QueryResults.MergeSort | c/db_query.c:652-667 | The bottom-up merge sort over two arrays yields the same elements, each two different ones in ascending order, or equal and in the order of their positions. |
| QueryResults.PassDoubles | c/db_query.c:652-667 | A pass over sorted runs of a width yields sorted runs of twice the width with the same elements. |
| QueryResults.MergeSorts | c/db_query.c:658-664 | Merging two sorted runs is sorted and keeps their elements. |
| QueryResults.PreorderOrders | c/db_query.c:644-649 | With ties broken by position, a total preorder becomes a strict order, so the sort is stable. |
| QueryResults.Find | c/db.c:1663-1677 | Result i is the projection of document skip + i of an order that holds every document once: ascending under the comparison and equal ones as they came, or, without a sort, as they came. |
| DocCursor.StreamIsListing | c/db.c:1810-1858 | The stream of a tree is the listing of its documents in byte order of the ids, the order in which the find gathers them. |
| DocCursor.BatchCursor.Pull | c/db.c:1795-1808 | One more document looked at: what was handed out and what is to come stay the same together. |
| DocCursor.BatchCursor.NextBatch | c/db.c:1810-1858 | A batch is the next part of the results; it is short only at the end. |
| DocCursor.BatchesUnderWrites | c/db.c:1694-1858 | Batches of any sizes from the tree stream or a candidate list, with adds and deletes on that tree between them: together a prefix of the unsorted find at opening time, and all of it once the cursor is done. |
| DocCursor.Drain | c/db.c:1694-1858 | Batches of any positive sizes end, and concatenate to exactly the results to come. |
| SpatialModel.PruneSafely | c/rtree.c:55-58 | Skipping a box that the query misses skips no point of the query. |
| QuadraticSplit.PickSeeds | c/rtree.c:492-501 | The seeds are a pair whose union has the largest area. |
| QuadraticSplit.Partition | c/rtree.c:482-564 | Every child goes to one of two groups, neither is empty, and each group box covers its group. |
| QuadraticSplit.PickPts | c/rtree.c:482-564 | Both groups together hold the points of the node, as a multiset. |
| RTree.RTree.SplitNode | c/rtree.c:482-564 | An overfull node becomes two saved nodes within capacity that together hold its points. |
| RTree.RTree.InsertNode | c/rtree.c:585-646 | The recursive insert: the node, or two halves of it, with exactly the entry added and boxes covering their points. |
| RTree.RTree.Insert | c/rtree.c:683-693 | Adds exactly one entry and keeps containment, one leaf depth, capacity and size; refused exactly by the host or on a tree higher than 128, and then nothing changes. The height grows by at most one, and not while a lone leaf has room. |
| RTree.RTree.HandleUnderflow | c/rtree.c:712-851 | Borrowing, merging or re-splitting around an underfull child keeps the points, the depth and the capacity, also for capacity 2. |
| RTree.RTree.RemoveNode | c/rtree.c:856-938 | The recursive remove drops exactly one matching entry or reports that there is none. |
| RTree.RTree.Remove | c/rtree.c:958-968 | Exactly one entry with the id goes, none only when there is none (at the given place); up to height 128 only the host can make it fail, above it fails whenever no place is given or an entry lies there; a failure changes nothing and the height never grows. |
| RTree.RTree.Clear | c/rtree.c:982-1002 | Starts over with an empty valid tree. |
| RTree.RTree.Create | c/rtree.c:1539-1559 | Creates an empty valid tree for every capacity of at least 2. |
| RTree.Search | c/rtree.c:1006-1036 | Exactly the stored points in the box, as a multiset; it fails exactly if boxes that meet the query lead more than 128 levels down. |
| RTree.SearchTree | c/rtree.c:1006-1036 | A query that has an answer, or meets every box, is answered exactly if the height is at most 128. |
| RTreeRuns.RunFromCreate | c/rtree.c:683-693 | Any run of inserts, removes, searches and clears from create: every operation has its effect on the stored multiset, and while at most capacity + 128 entries were inserted since the tree was empty only the host can make one fail. |
| RTreeRuns.Pile | c/rtree.c:482-583 | In a tree of capacity 2 every entry on one place beyond the second adds a level. |
| RTreeRuns.TooHigh | c/rtree.c:585-646 | The count is sharp: after capacity + 129 such inserts, the last one committed, every insert, every removal by id and every search around the entries fails. |
| Nearest.KnnHeap.Push | c/rtree.c:1303-1320 | The array stays a heap and gains exactly the item. |
| Nearest.KnnHeap.Pop | c/rtree.c:1322-1336 | A least item is taken out, the array stays a heap of the others. |
| Nearest.SiftUp | c/rtree.c:1311-1320 | The hole moved up until the item fits makes a heap again, of the same items. |
| Nearest.SiftDown | c/rtree.c:1322-1336 | The hole moved down until the last item fits makes a heap again, of the same items. |
| Nearest.QueueFar | c/rtree.c:1356-1429 | Every point the queue stands for is at least as far as its least item. |
| Nearest.EmitStep | c/rtree.c:1356-1429 | Emitting the least queued entry keeps all emitted entries nearer than everything left. |
| Nearest.FindNearest | c/rtree.c:1356-1429 | For any admissible box bound: min(k, size) entries in ascending distance, none left out nearer than an emitted one; the cap on opened nodes that comes from the file length is never reached. |
| HashDict.Table.Find | c/textindex.c:48-57 | Linear probing ends and finds the entry of a key exactly if there is one. |
| HashDict.Table.SlotInsert | c/textindex.c:58-63 | The next entry is indexed beside all earlier ones. |
| HashDict.Table.Reindex | c/textindex.c:67-79 | The rebuilt table indexes every entry. |
| HashDict.Table.Set | c/textindex.c:91-101 | Replaces the value in place or appends the key, in first-seen order. |
| HashDict.Table.Increment | c/textindex.c:102-106 | Counts one more occurrence of a key. |
| HashDict.Table.Remove | c/textindex.c:107-114 | Takes the key out; the entries behind it move up. |
| HashDict.ProbeMisses | c/textindex.c:48-57 | A probe that meets a free slot first proves that the key is in no entry. |
| HashDict.SetAllIsOverride | c/textindex.c:208-219 | Reading one dictionary over another lays its map over the other. |
| TermKeys.HexOrder | c/textindex.c:290-295 | Eight hexadecimal digits keep the order of block numbers. |
| TermKeys.ParseBack | c/textindex.c:304-317 | A block number is read back from its key. |
| TermKeys.RangeIsChain | c/textindex.c:299-302 | Between header and upper bound lie exactly the keys of that term. |
| TermKeys.BytesDiffer | c/textindex.c:248-302 | Different keys of the index tree have different bytes. |
| Postings.SetInLast | c/textindex.c:411-464 | Writing a document into the last block changes the merged postings at that document only. |
| Postings.StartBlock | c/textindex.c:411-464 | So does starting another block with it. |
| Postings.MergedWithout | c/textindex.c:468-558 | Taking a document out of every block takes it out of the merged postings. |
| Postings.NoEntries | c/textindex.c:468-558 | No entry remains in the blocks exactly if the merged postings are empty. |
| Postings.OneTerm | c/textindex.c:411-558 | Work on one chain leaves every other chain as it was and the index whole. |
| Postings.TermsInUse | c/textindex.c:1081-1096 | A term has a header exactly if some document has the term. |
| TextIndex.Inverted.LoadPostings | c/textindex.c:357-402 | The range scan reads exactly the merged postings of a term. |
| TextIndex.Inverted.PostAdd | c/textindex.c:411-464 | The postings of the term change at the document only; refused exactly for a chain past the block limit. |
| TextIndex.Inverted.PostRemove | c/textindex.c:468-558 | The document leaves the postings of the term, and an empty chain goes away whole. |
| TextIndex.Inverted.BumpCorpus | c/textindex.c:620-628 | The stored corpus length becomes the sum of the document lengths, computed when it was missing. |
| TextIndex.Inverted.ScanCorpus | c/textindex.c:590-603 | The cursor sum is the total of the document lengths. |
| TextIndex.Inverted.Add | c/textindex.c:746-812 | Adding or replacing a document: postings stay the exact transpose of the document terms, lengths and corpus length follow. Refused exactly if a term of the old or the new document has a chain past the block limit; then the terms before it have been dealt with, the others and the documents are as they were. |
| TextIndex.Inverted.Remove | c/textindex.c:816-847 | The document leaves terms, lengths and postings; an absent one changes nothing. Refused exactly if one of its terms has a chain past the block limit, with the state given as for an add. |
| TextIndex.Inverted.Clear | c/textindex.c:863-873 | The index is empty and whole; when the host refuses one of the three resets, the trees before it are empty and the others as they were. |
| TextIndex.SameDocumentsSameIndex | c/textindex.c:755-800 | Postings, terms in use and lengths are determined by the documents, so re-adding equals removing and adding. |
| TextIndex.Inverted.QueryAll | c/textindex.c:1100-1155 | Exactly the documents that hold every query term, none twice; none for an empty query. |
| ArrayUpdates.UnionIsUnion | c/db_update.c:282-333 | What was in the array stays in front, every candidate is there, and nothing is added twice or from elsewhere. |
| ArrayUpdates.UnionGrows | c/db_update.c:282-333 | New candidates stand behind the base, each once, in the order in which they first come. |
| ArrayUpdates.AddedSetGrows | c/db_update.c:282-333 | The list of a lone $each, or the operand itself, is added; refused exactly for other keys beside $each, an $each that is no array, or a field that is none. |
| ArrayUpdates.EmitAddedToSet | c/db_update.c:282-333 | $addToSet with one value or $each, refused for other modifiers or a field that is no array. |
| ArrayUpdates.SortInPlace | c/db_update.c:479-496 | The in-place insertion sort of $push computes the sorted list. |
| ArrayUpdates.SortedIsSorted | c/db_update.c:479-496 | Sorted elements are in order and the same as before, whenever the comparison is a total preorder on them. |
| ArrayUpdates.SortedIsStable | c/db_update.c:479-496 | Elements that compare equal keep their order. |
| ArrayUpdates.SliceIsWanted | c/db_update.c:498-506 | The $slice limit is cut to 32 bits: the slice is the requested one if and only if the limit fits or what is left of it still reaches every element. |
| ArrayUpdates.SliceEmptied | c/db_update.c:498-506 | Asked to keep the first 2^32 elements of an array of one, the code keeps none. |
| ArrayUpdates.FormDecides | c/db_update.c:347-389 | A push operand counts as modifiers exactly if every key is a modifier with a proper value and $each is there, and as a plain value exactly if a key that is no modifier comes before any improper value, or there is none; what is read is the last value of each key. |
| ArrayUpdates.PushedMakes | c/db_update.c:391-515 | A plain value goes to the end; the values of $each stand together at the position asked for, from either end and clamped, among the old elements in their order, or everything is sorted; then comes the slice. |
| ArrayUpdates.PushedHolds | c/db_update.c:391-515 | Without a slice a push keeps every element and adds the new ones, and with $sort the array is in order. |
| ArrayUpdates.KeptIsFilter | c/db_update.c:522-591 | Pulling keeps exactly the elements not dropped, as often as they were there. |
| ArrayUpdates.KeptIsLeft | c/db_update.c:522-591 | Pulling leaves the elements at exactly the places that are not dropped, in order, and fails exactly if the test does on some element. |
| Update.KindOfName | c/db_update.c:70-85 | A key is an operator exactly if it is its name. |
| Update.OpsOkIsProper | c/db_update.c:96-167 | The rules for operators spelled out: at most 128 fields, none twice, none the id or dotted, operands of the right shape, and rename destinations that are proper names apart from everything else. |
| Update.FlatIsAsked | c/db_update.c:62-137 | The operators are exactly the fields that the update names under them. |
| Update.ParseUpdate | c/db_update.c:52-171 | Accepts exactly the updates with known operators, proper distinct target fields, operands of the right shape and renames that collide with nothing, at most 128 fields. |
| Update.CheckRenames | c/db_update.c:139-167 | A rename destination is a proper name apart from every other target and destination. |
| Update.OperatorDoes | c/db_update.c:717-826 | An operator fails exactly under its stated condition, and otherwise does to its field what it is for, on a present and on a missing field. |
| Update.AddToSetOnce | c/db_update.c:741-784 | A second $addToSet of the same values changes nothing. |
| Update.PullLeavesNone | c/db_update.c:741-784 | After $pull or $pullAll no element matches, and a second pull changes nothing. |
| Update.MinMaxBounds | c/db_update.c:741-784 | $min and $max give one of the two values, at most, or at least, both. |
| Update.PopUndoesPush | c/db_update.c:741-784 | $pop of the last element undoes the $push of one value. |
| Update.PullAllUndoesAddToSet | c/db_update.c:741-784 | $pullAll of values that were not there before undoes their $addToSet. |
| Update.Scan | c/db_update.c:694-785 | The scan over the document writes every field it keeps, once, and notes what it has met. |
| Update.Trail | c/db_update.c:787-826 | The pass over the operators writes moved fields and fields the document lacks, each once. |
| Update.Apply | c/db_update.c:655-838 | Refused exactly if the update is no proper one or some operator fails on its field. Otherwise keys are distinct and $set leaves the operand, $unset nothing, $setOnInsert the operand only on insert, $inc, $mul and $bit their arithmetic, $min and $max the bound, $addToSet, $push, $pull, $pullAll and $pop the list stated element by element. |
| Update.FailsExactly | c/db_update.c:655-838 | An update fails exactly if one of its operators does on the value of its field. |
| Update.UpdatedDoes | c/db_update.c:655-838 | In a document updated as a whole every operator has done its work on its own field. |
| Update.BecomesOne | c/db_update.c:655-838 | What a field becomes is determined. |
| Update.OthersStay | c/db_update.c:655-838 | _id and every field that is neither targeted nor an active rename's destination stay. |
| Update.RenameMoves | c/db_update.c:655-838 | A renamed field moves over whatever stood at its new name. |
| Codec.ParseEncode | c/binjson.c:292-412 | Decoding an encoded value, wherever it stands, stops at its end and gives the value back, if and only if its integers and pointers are in the safe range and its dates are doubles; a date that is none is rounded to one, and a number out of range is the error. |
| Codec.DoubleExactly | c/binjson.c:343-349 | A date is handed out unchanged if and only if its magnitude has at most 53 significant bits. |
| Codec.DateLost | c/binjson.c:343-349 | The date 2^53 + 1 comes back as 2^53. |
| Codec.SizeOfEncoded | c/binjson.c:422-457 | An encoded value tells its length at any position. |
| Decoder.Reader.DecodeScalar | c/binjson.c:299-365 | Every scalar type, with the bounds checks and number ranges of the decoder, dates rounded to doubles. |
| Decoder.Reader.DecodeMembers | c/binjson.c:375-407 | The members of a container are reported in order, keys before values. |
| Decoder.Reader.DecodeValue | c/binjson.c:292-412 | The recursive decoder over arbitrary bytes: reports exactly the value the grammar reads there, or its error. |
| Builder.ValueBuilder.Put | c/binjson.c:147-152 | A scalar is written where a value may stand; anything else is a sticky error. |
| Builder.ValueBuilder.Key | c/binjson.c:265-277 | A key is written where a key may stand. |
| Builder.ValueBuilder.BeginContainer | c/binjson.c:233-241 | Opens a container with a blank header, up to the depth limit. |
| Builder.ValueBuilder.EndContainer | c/binjson.c:244-258 | Closes the innermost container with its size and count patched in, if kinds match, no key waits and the size fits 32 bits. |
| Builder.Closed | c/binjson.c:244-258 | Patching the header turns the bytes of the open container into the encoding of its value. |
| Builder.ValueBuilder.Data | c/binjson.c:134-138 | Finished bytes exactly when nothing failed and nothing is open: the encodings of the values called out. |
| Builder.FinishedDecodes | c/binjson.c:82-457 | What any finished run leaves, a decoder reads back value by value: size from the header, the same events but for dates that are no doubles, exactly its bytes; every depth the builder accepts the decoder accepts. |

## Left out

- BPlusTree.Bpt.Add: failures of allocation are not modelled, and neither is the case of a value shaped like the marker of an out-of-line value, which the code misreads (c/bplustree.c:380-388); typing of cells excludes it.
- BPlusTree.Bpt.Delete: trees in which a child has an empty range of keys (see Findings); adds cover them.
- BPlusTree.Bpt.Rewind: the read hint cache and automatic flushing are left out; reopening is modelled on bytes (TornCommits.Open).
- RecordFile.Size: the encoded size of a node is exact for number keys; string keys would only change offsets, which the proofs treat as arbitrary increasing numbers.
- Journal.Collection.RecoverAll: the files are B+ trees; R-tree files rewind alike. Transaction numbers stay below 2^64. The journal of the text index (c/textindex.c:657-742) is the same protocol with three files.
- CommitScan.ScanCommits: files with the header of other versions, and files without trailers from older writers.
- MyersDiff.FindScript: the limit of 10^9 lines in total is the one the code relies on. Unified patches and their application (legacy log entries) are left out.
- Delta.CreateDelta: sizes stay below 2^63, as in memory.
- TextLog.TextLog.AddVersion: the log is modelled as records; file bytes are covered by the file modules. Allocation failures are left out.
- KeyEncoding.PutValue: an INT is taken as the double it is read as.
- DocIndex.Collection.GatherMatches: indexes without partial filter and undotted field names; a tree is an ordered map, and host failures inside index writes are left out. Text and geo sources and the filter language itself are not modelled beyond what matching means for equality.
- DocCursor.BatchCursor.NextBatch: the candidates of an indexed find are fixed at open time, as in the code; failing filters and projections are left out.
- RTree.Search: coordinates are reals, so no NaN or infinity; the exact size of a record (at least eight bytes a node, which bounds the search of the nearest), the radius search, the spatial cursor and compaction are left out. Boxes are proved to contain their points, not to be tight: a missing child box is read back zero-filled and enters unions (c/rtree.c:107-126).
- Nearest.FindNearest: that the bound of a box never exceeds the distance to a point in it is a hypothesis; the great-circle bound in c/rtree.c:1344-1354 does not meet it at every latitude.
- HashDict.Table.Find: the table size is any size at least twice the entries, where the code uses powers of two and a mask; values are integers.
- TextIndex.Inverted.Add: stemming, stop words, legacy posting blobs, scoring, and write failures inside an operation, which the journal undoes.
- Update.Apply: documents and operands are decoded values; $inc, $mul and $bit arithmetic is a parameter.
- Codec.ParseEncode: the builder's raw splices.
- Loops that copy between scratch arrays are written as sequence slices where nothing else happens in them.
- Reading and writing of host files, the WebAssembly glue, network services, clients, and regular expressions.
