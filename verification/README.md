# Storage engine model

A Dafny model of a small record database that keeps each database in three files: a data
file of records, an index file of hash tables, and a schema file. The model follows the C
program branch by branch and proves what its storage engine is for.

* **Data file.** `ByteFile` is the file behind a descriptor: bytes and one cursor. A record
  is stored as fragments `[count][field indexes][cells][link]`. A string cell is
  `[loc][size][buffer]` and moves to the end of the file when a value outgrows its buffer; an
  array of longs is a chain of blocks `[count][padding][elements][next]` that shrinks into
  padding and grows at the end of the file. `Layout` says which bytes a cell owns and what
  they say; `TextUpdate`, `LongsBlock`, `LongsUpdate`, `CellUpdate`, `RecordFile`,
  `RecordWrite` and `RecordRead` are the writer and the reader, proved against functions on
  layouts; `FileFormat` says byte for byte what a first write leaves; `LongsProperties` and `RecordStore` prove that what was written reads back and
  that no update disturbs another record.
* **Index file.** `TableModel` is the chained hash table as a value with the map it stands
  for, `HashTable` the same table as linked nodes, `IndexTable` and `IndexFile` its storage
  with back-patched positions and the two readers.
* **Database.** `DatabaseModel`, `DatabaseIndex` and `Database` join the two files: a state
  machine whose steps are insert, delete, overwrite and extend, and the theorem that any run
  of steps refines a map from keys to records. `DatabaseOps` are the program's own
  operations, each proved to make such a step, and `RecordCompare` the comparison that
  decides which fields an update replaces. A single-place update is UPDATE_OLD of the
  program, an extension UPDATE_OLDN.
* **Import.** `RamFile` and `RamImport` are the buffer that collects imported records.
  `RamRead` is the reader that works on a loaded data file, proved against functions on the
  bytes in memory (`RamModel`), which `RamProperties`, `RamLists` and `RamExamples` compare
  with what is read from the file.
* **Beside the engine.** `TreeModel` and `BinaryTree` are the self-adjusting search tree,
  `Sorting` and `SchemaAlign` the comparison and reordering of input fields, `SchemaHeader`
  the schema file, `InputParser` the untyped input.

Reading and writing always succeed, offsets stay in the range of an `off_t`, and strings
hold no NUL. Keys are strings of 7-bit characters or 32-bit numbers, tables have 2 to 503
buckets; these are the ranges in which the hash stays inside the table
(`HighByteHashesBelowZero` shows a string outside them). A float is its 32-bit pattern.

`dafny verify dfyconfig.toml` checks the whole project.

What the proofs showed about the program:

* the index reader loses a number that shares a bucket with an earlier node
  (src/file.c:554-561), although the writer stores it: `IndexTable.RoundTrip` gives the
  exact condition;
* an array whose new length lies between the head block and the chain's total can read back
  wrong: `LongsProperties.ReadsBackExactly` says exactly when, as long as an old element that
  the writer takes for a link (`LongsUpdate.Stale`) is 0; if it is not, the writer goes where
  it points (`LongsUpdate.Lost`) and can cut another array (`LongsUpdate.FollowElement`);
* the rotations of the search tree overwrite child pointers without saving them; they are
  sound because an only child is always a leaf (`TreeModel.Insert`), and for the same reason
  the tree can be half as deep as it has keys (`TreeModel.BoundReached`);
* the schema check compares names and types apart from each other, so it accepts fields with
  wrong types for every schema of more than one type (`SchemaAlign.SoundIff`), and the
  reordering goes wrong exactly when a field's name begins the name of an earlier field
  (`SchemaAlign.AlignedIff`, `LaterFieldLeftEmpty`, `NameGoesToName1`);
* an update of a fragmented record replaces one field of each fragment only, and does not see
  a string cut to a beginning of itself (`RecordCompare.ShorterStringUnseen`); with one array
  at most, `RecordCompare.OneFieldOnly` and `DatabaseOps.FragmentsReached` say exactly when it
  does what it is to do. An update in one place never changes the sign of a zero
  (`DatabaseOps.SingleReached`);
* the in-memory reader takes a moved string's offset for its buffer size, and a byte field,
  two bytes on disk, for one: `RamProperties.InStepIff` and `RecordAgrees` say exactly when
  it agrees with the reader on disk. For a whole record the condition is needed except where
  several errors make up for each other (`RamExamples.MadeUpComesOut`). A moved string is
  almost never in reach (`RamProperties.AfterMove`).

## Model

| member | source | states |
|---|---|---|
| TextUpdate.Update | src/file.c:734-929 | overwriting a string cell: the new value in the inline buffer, in the buffer it was moved to, or in a new one at the end of the file; no byte outside the cell's own buffers changes, and the cursor ends just behind the inline part |
| TextUpdate.LastValueStays | src/file.c:734-929 | over any sequence of updates the cell holds the last value written, its inline length never changes, and the file grows exactly when a value is longer than every earlier one and than the first buffer |
| LongsBlock.FinishSmaller | src/file.c:1742-1812 | a block larger than the whole new array: the new count, the rest of the array, more padding, and a zero that ends the chain only if nothing was placed before this block |
| LongsBlock.RewritePassed | src/file.c:1499-1570 | a block reached after at least as many elements were placed as it holds; if the new array ends inside it and it is linked, its count stays and the cursor stands at the first old element that is left, before the link |
| LongsBlock.RewriteAhead | src/file.c:1571-1646 | a block that holds more elements than were placed before it |
| LongsBlock.IsLastBlock | src/file.c:7141-7180 | the last-block test, exact when the block has no padding, cursor unmoved |
| LongsBlock.Append | src/file.c:1669-1732 | the rest of the array as a new block at the end of the file, its offset stored where the link was read |
| LongsUpdate.Update | src/file.c:1465-1893 | the whole do-while rewrite of an array chain against the block-level specification, also when an old element that is 0 is taken for the link; every byte outside the chain unchanged and the cursor just behind the head's link |
| LongsProperties.RewriteReadsBack | src/file.c:1465-1893 | reading a rewritten chain gives exactly the new array, the head keeps live plus padding, only the head has padding, and the chain stays well-formed |
| LongsProperties.RewriteStays | src/file.c:1465-1893 | the rewritten chain's blocks do not overlap and own only old bytes and appended ones |
| LongsProperties.ReadsBackExactly | src/file.c:1465-1893 | for chains of any length, unless an old element other than 0 is followed as a link: the array reads back if and only if the walk neither ends at a block larger than the whole array after elements were placed before it nor takes an old element for a link |
| LongsProperties.HeadOrTotal | src/file.c:1465-1893 | arrays the head can hold, or not shorter than the chain, meet none of these cases |
| LongsProperties.ThreeBlocksGoStale | src/file.c:1499-1732 | three blocks and four elements for which a 0 is taken for the link: the end of file is stored over it and the array reads back with two elements too many (concrete input) |
| LongsUpdate.FollowElement | src/file.c:1499-1812 | the old element that is taken for the link leads to a longer block of another array: the walk goes on there and ends by rewriting that block |
| LongsProperties.OtherCut | src/file.c:1742-1812 | the other array loses the elements behind the new array's length, and one of the rest may become 0 |
| LongsProperties.OtherArrayLosesElements | src/file.c:1499-1812 | a chain holding 400, overwritten by four elements, cuts the array at 400 from five elements to four with a 0 in it (concrete input) |
| LongsProperties.TwoBlocksExact | src/file.c:1485-1742 | for chains of at most two blocks: the array reads back if and only if it is not longer than a non-empty head and shorter than the second block |
| LongsProperties.MiddleGoesWrong | src/file.c:1485-1742 | an array whose length is between the two blocks reads back wrong (concrete input) |
| LongsProperties.RewriteSame | src/file.c:1465-1893 | rewriting the elements that are there leaves the chain as it is |
| LongsProperties.EndedWords | src/file.c:1499-1646 | every word of the block a longer array ends in: the rest of the array lives, the old words behind it are padding, the first of them 0 if at least as many elements stand before as the block had |
| LongsProperties.OverrunWords | src/file.c:1742-1812 | every word of a block larger than the whole array: the array's length for its count, and a 0 as many words before the end as elements stand before |
| LongsProperties.GrowthIs | src/file.c:1669-1732 | how much an array makes the file grow: a block of the elements past the chain's total, an empty block when a 0 was taken for the link, and nothing otherwise |
| CellUpdate.UpdateFacts | src/file.c:665-1893 | for every field type: an overwritten cell reads as the new value, keeps its inline length, and owns only old or appended bytes |
| CellUpdate.UpdateSame | src/file.c:734-1893 | overwriting a field with the value it has changes nothing |
| CellUpdate.Overwrite | src/file.c:665-1893 | the per-type branches of an in-place update |
| CellUpdate.PutFresh | src/file.c:665-1463 | the per-type branches of a first write, a string with room for twice its length |
| FileFormat.CellBytes | src/file.c:665-1463 | for every field type: a first-written cell is in the file exactly when the bytes there are those of its value, written out without any layout |
| FileFormat.MovedBytes | src/file.c:734-929 | the bytes of a string that was moved, in its place and at the end of the file |
| FileFormat.BlockBytes | src/file.c:1465-1893 | the bytes of a block of an array: count, padding, words, link |
| CellUpdate.ReadCell | src/file.c:5225-5538 | the per-type branches of the reader: the value, and the cursor behind the inline cell |
| CellUpdate.ReadText | src/file.c:5261-5334 | a string read from its current buffer |
| CellUpdate.ReadLongs | src/file.c:5451-5538 | an array read along its chain of blocks |
| Fragment.AssembleActive | src/file.c:637-664 | a record is determined by its active fields and their values |
| Fragment.ReplaceCell | src/file.c:665-5150 | one cell overwritten: the fragment stays well-formed and its parts apart |
| Fragment.FragFrame | src/file.c:5190-6168 | a fragment reads the same after any change outside the bytes it owns |
| RecordFile.PutHeader | src/file.c:637-664 | the count of active fields and one index byte for each; nothing at all when none is active |
| RecordFile.Rewrite | src/file.c:623-5170 | write_file with update 1: the record at its place with the new values and link, all other bytes as before, the cursor behind the link |
| RecordWrite.Append | src/file.c:623-5170 | write_file with update 0: exactly one new fragment at the end of the file; with no active field nothing is written and 14 is returned |
| FileFormat.AppendWrites | src/file.c:623-5170 | write_file with update 0 adds exactly the bytes of the record, given by a reference encoder that knows nothing of cells and fragments |
| FileFormat.SampleFile | src/file.c:623-5170 | the file of one record with a field of every type, byte for byte (concrete input) |
| RecordWrite.RoomInRecord | src/file.c:706-929 | an update of a record just written adds no byte to the file if and only if no string is more than twice as long as it was and no array is longer |
| RecordWrite.FreshFragFacts | src/file.c:734-760 | the fragment laid out for a record reads as the record and owns one contiguous range |
| RecordRead.Read | src/file.c:5190-6168 | read_file returns the record of the fragment at the cursor and stops at its link |
| RecordRead.ReadLink | src/file.c:5173-5184 | the link behind a fragment |
| RecordStore.NonInterference | src/file.c:623-5170 | overwriting one fragment leaves every other fragment in the file as it was, and all of them own disjoint bytes again |
| RecordStore.AppendJoins | src/file.c:623-5170 | an appended fragment joins the others |
| RecordStore.IdempotentRewrite | src/main.c:1473-1498 | rewriting the values just read changes no byte but the link, so the end of file found before is still right |
| TableModel.StrHashRange | src/hash_tbl.c:133-162 | 7-bit strings hash into the table |
| TableModel.StrLoopNoOverflow | src/hash_tbl.c:133-162 | no step of the string loop leaves 32-bit signed range, whatever the bytes |
| TableModel.StrHashBounds | src/hash_tbl.c:133-162 | every string hashes between minus the size and the size, so a negative bucket is the only way out of the table |
| TableModel.HighByteHashesBelowZero | src/hash_tbl.c:133-162 | a byte above 127 can hash below zero (concrete input) |
| TableModel.SetRefines | src/hash_tbl.c:194-295 | set fails exactly on a present key and otherwise adds the pair to the map |
| TableModel.DeleteRefines | src/hash_tbl.c:297-346 | delete removes exactly the key from the map |
| TableModel.EntriesOnce | src/hash_tbl.c:391-447 | the listed entries hold every key of the map once, with its value |
| TableModel.LenRefines | src/hash_tbl.c:449-466 | len is the size of the map |
| TableModel.MergeRefines | src/hash_tbl.c:535-594 | copying in mode 0 merges the two maps whatever the two sizes, the destination's pairs winning |
| HashTable.HashOf | src/hash_tbl.c:133-162 | the bucket of a key |
| TableModel.NumberHashWraps | src/hash_tbl.c:133-162 | the hash of an integer key by steps of 32 bits: 78, and 2837 more for each unit of the key, modulo 2^32 |
| TableModel.WrappingKey | src/hash_tbl.c:146-147 | a key whose bucket the wrap changes (concrete input) |
| TableModel.StringBuckets | src/hash_tbl.c:149-159 | the buckets of two strings and the bucket below zero of a third (concrete inputs) |
| HashTable.HashTable.Get | src/hash_tbl.c:164-192 | the walk of get over linked nodes: the value, or -1 |
| HashTable.HashTable.Search | src/hash_tbl.c:214-290 | the duplicate check of set and the end of the chain |
| HashTable.HashTable.Set | src/hash_tbl.c:194-295 | set on linked nodes is Set on the table value |
| HashTable.HashTable.Delete | src/hash_tbl.c:297-346 | delete relinks the chain and hands out the removed node |
| TableModel.KindStays | src/hash_tbl.c:229-343 | set and delete keep a table's keys of one kind, which the comparisons in the chains rely on |
| HashTable.HashTable.Keys | src/hash_tbl.c:391-447 | every key, bucket by bucket |
| HashTable.HashTable.Len | src/hash_tbl.c:449-466 | the number of nodes |
| HashTable.HashTable.MergeFrom | src/hash_tbl.c:535-594 | copy_ht in mode 0 on linked tables, the source untouched |
| IndexTable.WriteTable | src/hash_tbl.c:55-131 | write_ht appends exactly the bytes of the table |
| IndexTable.ReadTable | src/file.c:411-576 | read_index_file rebuilds the table with each record hung as its branch hangs it |
| IndexTable.ReloadKeeps | src/file.c:411-576 | what comes back of every chain: its entries but the numbers behind another node |
| IndexTable.RoundTrip | src/file.c:411-576 | writing and reading gives the same buckets and chain order if and only if no number stands behind another node, so always for string keys |
| IndexTable.KeptNumbers | src/file.c:554-561 | of a chain of numbers only the first comes back |
| IndexTable.NumbersGetLost | src/file.c:554-561 | the table that two sets of 0 and 503 build can be stored and does not come back as it was (concrete input) |
| IndexFile.WriteHead | src/file.c:163-187 | the count and a zero position for every table |
| IndexFile.WriteBody | src/file.c:189-243 | number and table at the end, the table's position patched into its slot |
| IndexFile.WriteIndex | src/crud.c:311-339 | a truncated file gets head and all bodies, every slot holding its table's position |
| IndexFile.SampleIndex | src/crud.c:311-339 | the index file of two tables, byte for byte (concrete input) |
| IndexFile.ReadNr | src/file.c:245-307 | the i-th table by its position; none exactly when i is out of bound |
| IndexFile.ReadAll | src/file.c:349-410 | all tables in order, the same ones read_index_nr gives, sharing no node |
| IndexFile.AddIndex | src/file.c:6253-6348 | the first n tables stay and k empty ones follow; 0 is refused and changes nothing |
| DatabaseModel.DataAppend | src/crud.c:280-305 | an appended record keeps the data file well-formed and reads as the record |
| DatabaseModel.DataRewrite | src/main.c:1447-1458 | an overwritten fragment keeps the data file well-formed and reads as the new record |
| DatabaseModel.ExtendKeeps | src/main.c:1470-1512 | one more fragment extends exactly one key's list by exactly that record, links still ascending |
| DatabaseModel.ReplaceKeeps | src/main.c:1231-1272 | one fragment replaced changes exactly that element of one key's list |
| DatabaseIndex.SetIndex | src/crud.c:287-306 | set and write back: the index stands for one pair more, or the key was there |
| DatabaseIndex.DeleteIndex | src/main.c:881-968 | delete and write back: the index stands for the other pairs; its size never grows |
| Database.NewDatabase | src/main.c:319-341 | an empty data file and empty tables stand for the empty map |
| Database.LinksAscend | src/main.c:1177-1204 | in every state a fragment's link is the larger offset of the next one, or zero at the last, so the loops that follow links end |
| Database.OwnRecord | src/file.c:5190-6168 | the record read from a fragment has the fragment's active fields and values, and fits the schema |
| Database.ExtendData | src/main.c:1274-1329 | linking before or after writing the new fragment leaves the same fragments |
| Database.InsertStep | src/crud.c:268-309 | a new key's record joins the map |
| Database.DeleteStep | src/main.c:881-968 | a deleted key leaves the map, the data file untouched |
| Database.RewriteStep | src/main.c:1231-1272 | an in-place update changes one fragment of one record |
| Database.ExtendStep | src/main.c:1470-1512 | an update with only new fields adds one fragment to one record |
| Database.StepRefines | src/crud.c:25-89 | every operation keeps the files well-formed and does to the map what it means |
| Database.RunRefines | src/crud.c:25-89 | after any run of operations the two files are well-formed, hold the bytes of the tables, and stand for the map the operations give |
| Database.RunKeeps | src/main.c:953-969 | over any run the number of indexes stays and so does every index behind the first, the schema, and the place of every fragment that was there |
| DatabaseOps.IsNum | src/str_op.c:347-357 | a key is a string exactly when it has a letter or a punctuation mark |
| DatabaseOps.LettersAndMarks | src/str_op.c:347-357 | the letters and the 32 punctuation marks, by their codes |
| DatabaseOps.Lookup | src/crud.c:416-433 | the offset the first index gives, or -1 |
| DatabaseOps.ReadChain | src/main.c:1164-1204 | all fragments of a record and their places, the follow loop ending |
| DatabaseOps.GetRecord | src/crud.c:25-89 | the key's list of fragments, count being its length; nothing for an unknown key |
| DatabaseOps.WriteRecord | src/crud.c:268-309 | a new key is written to both files, the data file longer by exactly the record's bytes, the index file holding every other table as it was; for a known key neither file changes |
| DatabaseOps.DeleteRecord | src/main.c:881-968 | the key taken out of the first index, every other table written back as it was; an unknown key changes nothing |
| RecordCompare.CompareRecords | src/parse.c:1897-2119 | the old record with the common fields replaced, except a zero by the zero of the other sign, and whether there were any |
| RecordCompare.CompareRec | src/record.c:2188-2416 | the first field that is seen to differ, or that none does, that no field is common, or no verdict after an empty array |
| RecordCompare.FindFields | src/parse.c:2841-3140 | the marks of the fragments and their new values: in each fragment one field replaced at most; when nothing is marked to be written, and when a mark is set outside the array |
| RecordCompare.EditMerges | src/record.c:2203-2416 | a fragment takes all new values if and only if the comparison stops at every field that changes and at none before it, whatever the types |
| RecordCompare.OneFieldOnly | src/parse.c:2841-3140 | for all types, with at most one common array and none empty: if and only if no string is cut to a beginning of itself, no zero changes its sign, and no field changes behind one that changes too or is a NaN |
| RecordCompare.LaterArray | src/record.c:2259-2281 | an array behind another one is seen to differ unless its length is that of the last one plus the places where it agrees with the old, so an unchanged one always is |
| RecordCompare.ZeroArray | src/record.c:2261-2266 | the array of one zero is seen to differ exactly from every other array, whatever arrays stand before it |
| RecordCompare.StopsByValue | src/record.c:2203-2240 | a field that is no common array is seen to differ exactly when it does by value, whatever stands before it |
| RecordCompare.BehindEmpty | src/record.c:2259-2285 | behind an empty new array every field that both have is seen to differ unless it is an empty array too |
| RecordCompare.Verdicts | src/record.c:2203-2416 | when the comparison stops nowhere: no common field exactly when there is none, no verdict exactly when a new array is empty |
| RecordCompare.SearchEnds | src/parse.c:2841-3140 | the first fragment without a verdict ends the search: the ones before it are edited, it and the rest stay |
| RecordCompare.OutsideIff | src/parse.c:2881-2885 | a mark is set outside the array if and only if some fragment is seen to differ first in a byte field of such a number |
| RecordCompare.NoMarkOutside | src/parse.c:2881-2885 | no mark lies past the last fragment when no byte field of the update has such a number |
| RecordCompare.SecondFieldStays | src/parse.c:2849-2862 | of two new values for one fragment only the first is taken (concrete input) |
| RecordCompare.ShorterStringUnseen | src/record.c:2228-2234 | a string replaced by a beginning of itself is taken for unchanged |
| RecordCompare.SecondArrayUnseen | src/record.c:2259-2280 | a changed array behind an unchanged one is taken for unchanged, the count of equal elements not being set back (concrete input) |
| RecordCompare.ByteMarksOutside | src/parse.c:2881-2885 | a byte field sets a mark by the number of the field, past the last fragment (concrete input) |
| DatabaseOps.RewriteFragment | src/main.c:1247-1271 | one fragment rewritten at its place with the link it had |
| DatabaseOps.ExtendSingle | src/main.c:1470-1512 | the only fragment linked to the end of the file, then the new one written there |
| DatabaseOps.ExtendLast | src/main.c:1274-1329 | the new fragment written at the end, then the last one linked to it |
| DatabaseOps.UpdateSingle | src/main.c:1440-1512 | update of a record in one place: in place when a field is common, else a second fragment; the caller owes only the lengths of changed arrays and the room |
| DatabaseOps.RewriteMarked | src/main.c:1231-1272 | the loop over marked fragments: each takes its new values, the others stay, links stay |
| DatabaseOps.UpdateFragments | src/main.c:1205-1329 | update of a fragmented record: in each fragment the first field that differs replaced, a new fragment when none has the fields, refused when nothing differs |
| DatabaseOps.FragmentsReached | src/main.c:1205-1329 | without empty arrays such an update does what it is to do, all new values in every fragment or one fragment more, if and only if every single fragment takes all new values |
| DatabaseOps.EndedEarly | src/main.c:1205-1329 | a fragment without a verdict before the last one: what was edited so far is written, nothing is added |
| DatabaseOps.ZeroArrayReached | src/record.c:2261-2266 | an array replaced by that of one zero behind an unchanged one, and the update takes it (concrete input) |
| DatabaseOps.SingleReached | src/main.c:1440-1512 | an update of a record in one place does what it is to do if and only if no zero is to change its sign |
| DatabaseOps.UpdateRecord | src/main.c:1120-1512 | the whole update path: one key's record changes as specified and no other record changes |
| TreeModel.Insert | src/bst.c:152-266 | insertion keeps the shape that makes the rotations sound: a node with one child has a leaf child |
| TreeModel.HeightRight | src/bst.c:767-797 | the height codes after an insertion on the right name exactly the rotation that is due |
| TreeModel.HeightLeft | src/bst.c:767-797 | the same on the left |
| TreeModel.RightKeepsItems | src/bst.c:185-219 | the RR and RL rewrites drop and move no item |
| TreeModel.LeftKeepsItems | src/bst.c:229-261 | the LL and LR rewrites drop and move no item |
| TreeModel.InsertItems | src/bst.c:152-266 | insertion puts the item in order among the others; a present key stays as it is |
| TreeModel.BuiltFinds | src/bst.c:551-605 | after any insertions: a search tree with one node per key, and find gives the first data of the key |
| TreeModel.LevelBound | src/bst.c:152-266 | n keys take at most n/2 + 1 levels |
| TreeModel.BoundReached | src/bst.c:152-266 | sequences for which they do |
| BinaryTree.HeightOf | src/bst.c:767-797 | height on linked nodes |
| BinaryTree.FindIn | src/bst.c:551-605 | find on linked nodes |
| BinaryTree.RewriteRR | src/bst.c:192-201 | the RR pointer rewrite |
| BinaryTree.RewriteRL | src/bst.c:202-215 | the RL pointer rewrite |
| BinaryTree.RewriteLL | src/bst.c:232-243 | the LL pointer rewrite |
| BinaryTree.RewriteLR | src/bst.c:244-259 | the LR pointer rewrite |
| BinaryTree.InsertAt | src/bst.c:152-266 | insert_bst on linked nodes is Insert on the tree value |
| BinaryTree.SearchTree.Insert | src/bst.c:152-266 | the tree after one more insertion is the one all insertions build |
| BinaryTree.SearchTree.Find | src/bst.c:551-605 | the data first inserted with the key, found exactly for inserted keys |
| RamFile.Ram.Reserve | src/file.c:6907-6924 | the buffer made on first use and doubled once; enough when the record is not larger than the capacity |
| RamFile.DiskSize | src/file.c:6351-6421 | the size reckoned for a record, by the recursive sum |
| RamFile.SizeSuffices | src/file.c:6351-6421 | never less than what the record takes |
| RamFile.ReckonedExactly | src/file.c:6351-6421 | for every type: the size reckoned is the size on disk, 8 more for a string and 1 less for a byte |
| RamFile.SizeExactly | src/file.c:6351-6421 | the same summed over a whole record |
| RamFile.WriteRecord | src/file.c:6907-7138 | the fragment write_file would append; a record without active fields leaves one stray zero byte and -1 |
| RamImport.ImageUnique | src/file.c:623-5170 | the appended bytes are determined by the record |
| RamImport.Import | src/crud.c:246-266 | one imported record: skipped for a known key, else set to where its image starts and appended |
| RamImport.ImportRefines | src/crud.c:246-266 | any sequence of imports leaves the bytes and the first table that single writes leave |
| RamModel.FieldAgrees | src/file.c:6489-6661 | one field in memory: read_file's value and the position it ends at if and only if the field is no byte and, when it is a moved string, in reach; out of reach the copy goes astray, a byte is read as 0 and one byte short |
| RamModel.TextAgrees | src/file.c:6517-6554 | a string: found in its own buffer if the moved string's offset is more than its length and the copy of that many bytes stays in memory, and otherwise not at all |
| RamModel.LongsAgree | src/file.c:6614-6661 | an array along its chain of blocks in memory |
| RamModel.NoElements | src/file.c:6629-6643 | a count or padding not above zero reads and passes nothing |
| RamModel.SelfLinked | src/file.c:6645-6657 | a block linked to itself is walked for ever |
| RamProperties.InStepIff | src/file.c:6475-6905 | field by field the memory reader and read_file have the same record and position if and only if no field is a byte or a moved string out of reach |
| RamProperties.RecordAgrees | src/file.c:6475-6905 | a whole record: read_file's value and end if all fields are readable; only if, when zero bytes come behind all strings and arrays; by the value alone when no byte is zero |
| RamProperties.AfterMove | src/file.c:6528-6549 | right after an update moved a string, it is read in memory if and only if it was, with its NUL, as long as the whole file |
| RamExamples.MovedGoesAstray | src/file.c:6528-6549 | a moved string that read_file reads and the memory reader does not (concrete input) |
| RamExamples.ByteReadsAsZero | src/file.c:6507-6516 | a byte 7 read as 0, and the bytes behind it taken for a link out of the buffer (concrete input) |
| RamExamples.MadeUpComesOut | src/file.c:6507-6554 | nine zero bytes and a moved string of which no field is readable, and the record comes out right all the same (concrete input) |
| RamLists.ListAgrees | src/crud.c:90-125 | the list of a record's fragments from memory is the one on disk if every fragment is readable, and only if, when no field is a zero byte |
| RamRead.ReadText | src/file.c:6517-6554 | the string branch on the buffer, whatever its bytes |
| RamRead.ReadLongs | src/file.c:6614-6661 | the array branch: the chain walked to its end, a link back into it, or out of the buffer |
| RamRead.ReadField | src/file.c:6489-6661 | all branches on the buffer, whatever its bytes |
| RamRead.ReadRecord | src/file.c:6475-6905 | read_ram_file on the buffer, whatever its bytes: the stored indexes walked and a value put for each |
| RamRead.Load | src/file.c:6422-6473 | the data file in a buffer of its size, or of the standard size when it is empty |
| RamRead.GetRecord | src/crud.c:90-125 | the in-memory path of get_record: nothing exactly for an unknown key, the records of the path on disk if all fragments are readable, and only if, when no field is a zero byte |
| SchemaHeader.WriteHeader | src/parse.c:477-538 | the header's bytes, or nothing when there is no first field name |
| SchemaHeader.SampleHeader | src/parse.c:477-538 | the header of two fields, byte for byte (concrete input) |
| SchemaHeader.ReadHeader | src/parse.c:541-623 | the header that was written, accepted exactly with this program's id and version |
| Sorting.Pivot | src/sort.c:20-55 | one partition: smaller elements before the pivot, the others behind, nothing lost |
| Sorting.QuickSort | src/sort.c:57-75 | the range sorted in place, a permutation of what it was, the rest untouched |
| Sorting.SortedUnique | src/sort.c:57-75 | there is one sorted arrangement |
| SchemaAlign.CheckFields | src/parse.c:625-674 | accepted exactly when sorted names begin sorted schema names place by place and the types are the same bag |
| SchemaAlign.OneNamePasses | src/parse.c:658 | a name passes for a field exactly when the field's name is the name and whatever follows |
| SchemaAlign.NameLessIs | src/sort.c:46 | the order of names: a name before all that it begins, else by the first byte that differs |
| SchemaAlign.MatchIsSameBag | src/parse.c:625-674 | when no input name begins a different schema name, accepted names are exactly permutations |
| SchemaAlign.PermutationPasses | src/parse.c:625-674 | any permutation of the schema's fields is accepted |
| SchemaAlign.ExchangedPasses | src/parse.c:625-674 | the fields of a schema with the types of two of them exchanged are accepted |
| SchemaAlign.SoundIff | src/parse.c:625-674 | for a schema of which no name begins another: every accepted input whose names cannot be mistaken has just the schema's fields if and only if all its types are the same |
| SchemaAlign.FindPlaces | src/parse.c:901-915 | the first schema field each name begins; refused when one is not found |
| SchemaAlign.Reorder | src/parse.c:901-946 | names, types and values put at the places found, or nothing changed |
| SchemaAlign.BeginsIs | src/parse.c:905-912 | a name begins another exactly when the other is the name and whatever follows |
| SchemaAlign.LastStays | src/parse.c:917-946 | of the types and values put at one place the last stays |
| SchemaAlign.TwoAtOnePlace | src/parse.c:917-946 | of two names copied to one place the second stays, with what the first is longer |
| SchemaAlign.LaterFieldLeftEmpty | src/parse.c:901-946 | a field whose name begins that of an earlier field never gets a value, whatever the input |
| SchemaAlign.NameGoesToName1 | src/parse.c:901-946 | fields name1 and name given in the order of the schema: name1 gets the value of name and name gets none (concrete input) |
| SchemaAlign.AlignedIff | src/parse.c:901-946 | for distinct names in any order: names in schema order with their own types and values if and only if no field's name begins the name of an earlier field |
| InputParser.GetNames | src/str_op.c:406-484 | the names found, each written at its row of the caller's array, and whether one was written past the last row, for input without file blocks |
| InputParser.NameBeforeIs | src/str_op.c:430-447 | a name reaches back to the nearest mark before the colon, or to the beginning |
| InputParser.NameAlone | src/str_op.c:417-464 | a name, its value and a name without value (concrete input) |
| InputParser.NameBehindAt | src/str_op.c:417-464 | a name without value, and a name behind a mark (concrete inputs) |
| InputParser.RowsHold | src/str_op.c:406-484 | every row of the caller's array holds its name if all names are shorter than a row |
| InputParser.LongNameRunsOn | src/str_op.c:449-451 | a name of 33 bytes runs into the next row (concrete input) |
| InputParser.GetValues | src/str_op.c:1098-1156 | the values found, for input without file blocks |
| InputParser.JoinedComesApart | src/str_op.c:406-484 | joining names and values with colons and extracting gives back exactly both lists |

## Left out

- LongsUpdate.Update: the case in which the code follows an old element other than 0 as a link (src/file.c:1499-1568 at a block that is not the last one, `LongsUpdate.Lost`); `LongsBlock.RewritePassed` says which element it is, and what the code then overwrites depends on what stands there: `LongsUpdate.FollowElement` is the case of a longer block of another array.
- CellUpdate.Accepts: the array lengths a record update takes are those up to the head block's live size or from the chain's total on; they always read back and leave padding in the head only, which later updates rely on.
- DatabaseOps.WriteRecord: takes a record with at least one active field, as the input checks guarantee (src/crud.c:160-164); without one nothing would be written and the key would point at the place of the next record.
- DatabaseOps.UpdateFragments: at most 100 fragments, the size of the array that holds their offsets (include/record.h:16), and no mark past the last fragment, where it is written outside its array (`RecordCompare.ByteMarksOutside`; `RecordCompare.NoMarkOutside` says when there is none).
- DatabaseOps.UpdateRecord: updates that add no field to the schema; those that do are not part of this model.
- DatabaseOps.Lookup: number keys converted with strtol are not part of this model, and number keys behind another node do not survive storage; the database is modelled with string keys only, because the comparisons in the chains confuse the two kinds.
- RamFile.WriteRecord: int, long and string fields, and records not larger than the capacity; the other branches encode differently from write_file (src/file.c:6964 against 934, and the swapped count used as a length at 7015).
- RamImport.ImportRefines: starts from a buffer that holds what the data file holds, which for the program is an empty data file, since it numbers offsets from the start of the buffer.
- RamRead.ReadRecord: a stored index that is no field of the schema counts as going astray; the original would use the field it finds there.
- InputParser.GetNames: input with file blocks in brackets, typed input and input that mixes both; once a name was written past the last row, what the rows hold is not promised.
- SchemaAlign.Reorder: the branch for input with some of the schema's fields, and for input with more.
- BinaryTree.InsertAt: string, long and pointer keys, and the freeing of the nodes made on the way down.
- HashTable.HashTable.MergeFrom: the other modes of copy_ht, and tables of two kinds of keys.
- Double fields, arrays other than arrays of longs, and fields that hold records: near copies of what is modelled, with deviations of their own.
- Failing system calls, failing allocation, and the freeing of memory.
- Locks, the journal of deleted keys, printing, dates, options and the build scripts.
