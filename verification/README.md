# Verification of the mini SQL engine

This project models the storage engine and the SQL front end of a small database
program written in C, and proves what holds of them.

The engine keeps each table in one file, an append-only log of length-prefixed rows.
One table at a time is active: a B+ tree maps its ids to row offsets, an
open-addressing set holds its student numbers, and a counter hands out ids. Nothing of
that is stored; activation rebuilds it from the file. An INSERT draws an id, appends a
row, indexes it and records its student number. A SELECT takes a point lookup, a walk
along the leaves of the tree, or a scan of the file. Scripts come in as text through a
tokenizer and a recursive-descent parser.

## How it is built

Each layer is proved against the one below.

* `Entries`, `BPlusTree`, `NodeOps`, `Insertion`, `LeafChain`, `IdIndex`: the tree as
  heap nodes with arrays that are shifted, merged and split in place. A ghost tree value
  names the node object at every position, so one predicate ties the heap to the tree,
  its order, its balance and its chain of leaves. `IdIndex.Index` is the global root.
* `StudentNoSet`: the probing table as a class over an array of slots, for any hash.
* `Sequences`, `RowLog`, `LogProofs`, `Migration`: the file as a sequence of characters,
  one per byte, with the writer, the reader, the scan and the conversion of text files.
* `Text`: names, byte order, the numbers that `strtoull` accepts, comparisons.
* `EngineSpec`: activation, INSERT and SELECT as functions on the whole state (files,
  active path, ready flag, index, counter, student numbers), branch by branch.
* `Caches`, `RangeScan`, `Queries`, `Engine`: the same operations as methods that update
  objects in place, each proved equal to its function in `EngineSpec`.
* `Rebuild`, `Runs`, `InsertRows`, `Transducer`, `RunTheorems`, `Selects`,
  `SelectTheorems`: what the functions of `EngineSpec` guarantee, over one call and over
  every run. Each theorem asks something of the table it is about and nothing of the
  others; a text table that migrates to good rows counts as sound.
* `Limits`, `Migrated`, `Sync`, `Tracking`, `UnreadableRows`, `Witnesses`: where that
  stops, over arbitrary files and states, with the exact conditions and small examples.
* `Numbers`, `LogMeaning`, `TextLines`, `SelectMeaning`, `InsertMeaning`, `AnyFile`: what
  these functions mean, said over single characters, bytes, rows and the letters of a
  statement, without the functions themselves.
* `Syntax`, `Lexer`, `LexerProofs`, `Parser`: the front end.
* `Writing`: the language of scripts as it is written, character by character: words,
  blanks, comments, quotes, statements and semicolons. `Layout` proves the tokenizer
  against it, `WordKinds`, `Understood` and `ParserProofs` the parser, and `Rendering`
  adds a canonical text.
* `Session`: a script from text to final state.

## Main results

1. Over every run of statements on any number of tables, in whatever state the others
   are, a table that starts sound stays sound: whenever it is active its caches say
   exactly what its file says (`RunTheorems.TableStaysSound`, `RunTheorems.SoundMeaning`),
   also for scripts given as text (`Session.ScriptKeepsInv`).
2. For a sound table a restart after any run is invisible, and so are the other tables
   (`RunTheorems.RestartAfterRun`, `RunTheorems.TablesAreIndependent`).
3. Over every run from any files at all, the caches of the active table say what its file
   says exactly when its last rebuild found a clean file of good rows, the id counter has
   not wrapped since, and every row drawn since was within the limits of the reader
   (`Tracking.CachesMatchIff`, `Session.ScriptCachesMatchIff`).
4. Insertion into the pointer tree adds exactly one entry or changes nothing, through
   any cascade of splits, and keeps order, balance and the chain of leaves
   (`IdIndex.Index.Insert`).
5. Every SELECT on a sound table is refused for exactly the unknown columns, and otherwise
   shows the first column with each listed name and exactly the rows that its WHERE clause
   wants: in ascending id order for a number on the id column, whatever the order of the
   file, else in file order (`SelectMeaning.SelectMeaning`,
   `SelectMeaning.SelectByIdMeaning`). It agrees with a plain filter over the decoded rows
   (`SelectTheorems.SelectIsFilter`), and over any file at all its failures are exactly
   known (`AnyFile.SelectOnAnyFile`).
6. Every INSERT on a sound table is refused for exactly one of its checks, or stores the
   one row that its columns and values describe, with the id behind the largest
   (`InsertMeaning.InsertMeaning`).
7. A text parses to a script exactly when it says that script, in any layout, letter case,
   spelling of its values and number of semicolons (`ParserProofs.ParsedIffSaid`); the
   tokenizer reads exactly the texts laid out from words, blanks and comments
   (`Layout.ReadIffMadeOfWords`).
8. Exactly the texts made of blanks, at most one sign and digits are numbers, with that
   value modulo 2^64 (`Numbers.NumberIff`); exactly the bytes of a count and as many
   length-prefixed fields are a row (`LogMeaning.RowAtIff`); the fields of any text line
   are those of its pieces (`TextLines.SplitIff`).
9. A log cut off anywhere still yields its whole rows (`LogMeaning.CutLogScan`), unless the
   cut falls into the lengths of its first row (`LogMeaning.CutLogLooksBinaryIff`).

## Where the code does less than its documents say

The model follows the code. Each item is a theorem with the exact condition, and a small
table on which it fails.

* `docs/plan/02-tech-design.md:71` says automatic ids rule out duplicates. Whatever the
  state, a drawn INSERT puts its id into a clean file a second time exactly when a row
  already has the counter's successor, and likewise its student number
  (`Limits.SecondCopyIff`). It is refused, with the row written, if the index knows the
  id, and reported as stored if no cache knows. With caches that match, only the wrap of
  the counter from 2^64 - 1 onto a stored 0 does it (`Limits.StoredIffNoWrapOntoStoredId`),
  and the file with the ids 0 and -1 gets there at once (`Witnesses.WrapIsRefused`). After
  a failed activation the caches hold the rows before the first bad one and the counter is
  that of the table before (`Limits.ActivationStops`), so an id can be stored twice
  (`Limits.InsertAfterFailedActivation`, `Witnesses.DuplicateIdIsStored`).
* `docs/plan/deltas/2026-04-16-D03-student-number-unique-benchmark.md:39` asks that a
  failed INSERT leaves nothing behind. Over every state it leaves its row exactly when it
  passed the checks and then met a field of 2^32 bytes, an id in the index, or a student
  number cache that is missing or holds the number (`Limits.RefusedInsertWritesIff`). On
  an active sound table that is exactly such a field or the wrap
  (`Limits.RefusedInsertChangesNothingIff`). After a failed activation the next statement
  takes the table for active (`Limits.FailedActivationSticks`), and an INSERT can write its
  row and refuse (`Witnesses.SecondInsertWritesAndRefuses`).
* `docs/plan/02-tech-design.md:53` switches to the binary file after a check. The code
  switches first: any text without a field of 2^32 bytes is replaced by its log, and
  activation succeeds exactly when that log scans to its end and its rows are good
  (`Migrated.ActivationMigrates`). Any other text is left as it is, and never read
  (`Sync.UnpreparedIsBlocked`). The log
  is read up to the first row beyond the limits of the reader
  (`Migrated.LogIsReadUpToLimit`). The text with the id 1 twice is replaced and cannot be
  activated (`Witnesses.BadTextIsReplaced`).
* A text file of fewer than four characters counts as binary, is not converted, and
  scans as empty (`Migration.TextLooksBinaryIffShort`, `Migration.ShortTextIsNotMigrated`).
  Behind two or three such characters the first row is reported as stored, and the file
  is malformed from then on (`UnreadableRows.RowBehindShortText`,
  `UnreadableRows.ShortTextInsertIsStored`).
* The writer does not check the limits that the reader enforces
  (`LogProofs.ReadBackIffWithinLimits`, `LogProofs.OverLimitIsMalformed`). INSERT reports
  the row as stored in any case, and the file stays clean exactly when the row is within
  the limits (`UnreadableRows.StoredKeepsFileIff`); otherwise the next rebuild fails, or
  takes a file of that one row for text (`UnreadableRows.OverLimitFailsRebuild`,
  `UnreadableRows.OverLimitAloneLooksLikeText`, `Witnesses.LongNumberBreaksTable`).
* A search by student number stops at the first match; it is complete for every literal
  exactly when no two stored student numbers are the same number, and "01" and "1" are
  (`SelectTheorems.StudentSelectsExactIff`, `SelectTheorems.LeadingZeroClash`,
  `Witnesses.SearchLosesRow`).

## Model

| member | source | states |
|---|---|---|
| `NodeOps.ChildIndex` | src/storage.c:354-357 | The child chosen for an id is the only one whose separators admit it |
| `NodeOps.LeafPosition` | src/storage.c:293-295 | The first position in a leaf whose key is not below the id |
| `NodeOps.LeafInsertAt` | src/storage.c:301-310 | In-place shift: keys and refs of the leaf are the old ones with the new entry put in at one position |
| `NodeOps.Merge` | src/storage.c:313-323 | The temporary holds the old contents with one element put in |
| `NodeOps.LeafSplit` | src/storage.c:312-348 | Left and right halves together are the old 31 entries with the new one; the old node keeps the left half; the chain goes through the new node; the promoted key is the first key on the right |
| `NodeOps.InnerInsertAt` | src/storage.c:370-381 | In-place shift of separators and children |
| `NodeOps.InnerSplit` | src/storage.c:383-436 | The 32 separators are the left 16, the one that moves up, and the right 15; the 33 children are split 17 and 16 |
| `Insertion.InsertIntoLeaf` | src/storage.c:283-349 | Insertion into a leaf, full or not: order, bounds, chain and entries |
| `Insertion.InsertRecursive` | src/storage.c:278-439 | Recursive insertion: 1 and no heap change for a present id; otherwise one or two subtrees in place of the old one, balanced, in order, each separator the smallest key to its right, the leaf chain still ending in the outer pointer, and exactly one entry more |
| `IdIndex.GrowRoot` | src/storage.c:465-475 | A new root above two halves is one level higher and keeps order, balance and chain |
| `IdIndex.Index.constructor` | src/storage.c:441-450 | A fresh index is valid and empty |
| `IdIndex.Index.Insert` | src/storage.c:452-478 | 0 and exactly one new entry for a fresh id, 1 and no change of any node for a present one; the whole-tree invariant is kept |
| `IdIndex.Index.Find` | src/storage.c:200-223 | 0 exactly when the id is present, with the ref stored for it |
| `IdIndex.Index.LowerBound` | src/storage.c:240-276 | The position of the smallest key not below the probe, also when it is the first of the next leaf; false exactly when every key is smaller |
| `IdIndex.Index.LeftmostLeaf` | src/storage.c:225-238 | The first leaf of the chain |
| `IdIndex.Index.Facts` | src/storage.c:278-478 | Every valid index is strictly ascending, its chain carries exactly its entries, and h internal levels need 2*16^h entries |
| `IdIndex.LowerBoundPosition` | src/storage.c:240-276 | Where the lower-bound search ends, in terms of the chain of leaves and the rank of the key |
| `LeafChain.ChainVisitsEachLeafOnce` | src/storage.c:225-238 | The walk by next pointers sees the leaves of the tree left to right, once each, and ends in the outer pointer |
| `BPlusTree.OrderedEnts` | src/storage.c:278-439 | The entries of an ordered tree are strictly ascending and within its bounds |
| `BPlusTree.Descend` | src/storage.c:354-361 | Insertion into the tree is insertion into the chosen child, and the id is in the tree exactly when it is there |
| `BPlusTree.RootSize` | src/storage.c:311-348 | A tree with h internal levels holds at least 2*16^h keys |
| `Entries.InsertedAscending` | src/storage.c:301-310 | A fresh key keeps the order strict and adds exactly its entry |
| `StudentNoSet.MaskIsMod` | src/storage.c:92-95 | Masking with a power of two less one is the remainder |
| `StudentNoSet.LoadIsSize` | src/storage.c:48-54 | The count kept by the table is the size of the set |
| `StudentNoSet.FreeSlotMeansAbsent` | src/storage.c:128-136 | A probe that ends in a free slot shows that the string is absent |
| `StudentNoSet.FillProbed` | src/storage.c:155-170 | Filling the free slot at the end of a probe keeps every entry reachable from its home |
| `StudentNoSet.StudentNoSet.Init` | src/storage.c:108-117 | An empty table of 1024 slots |
| `StudentNoSet.StudentNoSet.Contains` | src/storage.c:119-137 | True exactly for the strings of the set |
| `StudentNoSet.StudentNoSet.Rehash` | src/storage.c:81-106 | The same set in the larger table, with the probe invariant for the new mask |
| `StudentNoSet.StudentNoSet.Insert` | src/storage.c:139-171 | Adds exactly an absent string; the load stays under 0.7, so a free slot exists and probing ends |
| `Text.SameNameIffLowered` | src/common.c:37-53 | Two names compare equal exactly when they agree after lowering all letters |
| `Text.FindColumnIndex` | src/storage.c:551-559 | The first column of that name, or -1 when there is none |
| `Text.ParseOfPrint` | src/storage.c:497-513 | A printed id is read back as itself; which texts are numbers, and of what value, is `Numbers.NumberIff` |
| `Text.NumericMatch` | src/storage.c:534-549 | Two numbers are compared as numbers |
| `Text.EqualMatch` | src/storage.c:534-549 | Equality holds for the same text or the same number; `Numbers.OddEqualsOnlyItself` says what a text that is no number equals |
| `Numbers.SameNameIff` | src/common.c:37-53 | Two names agree exactly when they have the same length and, at every position, the same character or the two cases of one letter |
| `Numbers.FirstColumnIff` | src/storage.c:551-559 | The column found is the first one with those letters, and one is found exactly when there is one |
| `Numbers.NumberIff` | src/storage.c:497-513 | A text is read as the number v exactly when it is blanks, at most one sign, and digits up to its last character, of a value below 2^64 that is v, or v modulo 2^64 behind a minus sign |
| `Numbers.DecimalIsValue` | src/storage.c:497-513 | The value of digits is the sum of each digit times its power of ten |
| `Numbers.OddIsNoNumber` | src/storage.c:508-510 | A text with any other character, or with anything behind a digit that is no digit, is no number |
| `Numbers.OddEqualsOnlyItself` | src/storage.c:534-549 | In a WHERE clause such a text equals only itself |
| `Numbers.PrintHasNoLeadingZero` | src/storage.c:1745-1746 | A printed id is its digits, without a leading zero |
| `Numbers.CompareIff` | src/storage.c:545-548 | Byte order is decided by the first character that differs, or by which text ends first |
| `Numbers.ValueMatchesIff` | src/storage.c:515-549 | A field meets a comparison as a number where both texts are numbers, and in byte order otherwise, for each of the five operators |
| `RowLog.U32RoundTrip` | src/storage.c:753-770 | A 32-bit number is read back as written |
| `RowLog.AppendRow` | src/storage.c:858-914 | Appends the encoded row at the old end and reports that offset; fails exactly for a field of 2^32 bytes or more |
| `RowLog.Reader.ReadRow` | src/storage.c:772-856 | Reads the row at the position and moves past it; end of file and malformed rows are told apart |
| `LogProofs.ReadBackIffWithinLimits` | src/storage.c:806-822 | A written row is read back exactly when it is within the limits of the reader |
| `LogProofs.OverLimitIsMalformed` | src/storage.c:806-856 | A written row beyond those limits reads as malformed, whatever follows it |
| `LogProofs.RowAtStable` | src/storage.c:916-943 | Later appends do not change the row at an offset |
| `LogProofs.LogRoundTrip` | src/storage.c:858-991 | After any appends a scan yields the old and the new rows, in order, at the reported offsets |
| `LogProofs.ReadsSurviveAppends` | src/storage.c:916-943 | A read at an earlier offset gives the same row after any appends |
| `LogProofs.ScannedRowsCanBeRead` | src/storage.c:945-991 | Every scanned row can be read at its offset, and offsets go up |
| `LogMeaning.NumberIsWritten` | src/storage.c:885-903 | A number below 2^32 is four bytes, the least significant first |
| `LogMeaning.RowIsWritten` | src/storage.c:858-914 | The bytes of a row: its number of fields, then every field behind its own length, and nothing else |
| `LogMeaning.PartialRow` | src/storage.c:893-899 | A refused write leaves the count and the fields before the first one that is too long |
| `LogMeaning.RowAtIff` | src/storage.c:772-856 | What any bytes at any position read as: the end with fewer than four bytes left; a row exactly if they are a count from 1 to 4096 and as many fields of at most 16 MiB, each up to its first zero byte; malformed otherwise |
| `LogMeaning.CutLogScan` | src/storage.c:945-991 | A clean log cut off anywhere: its whole rows are read, and the scan ends well exactly when at most three bytes of another row are left |
| `Migration.SplitPipeLine` | src/storage.c:617-710 | The loop computes the fields of the line, which `TextLines.SplitIff` describes |
| `TextLines.SplitIff` | src/storage.c:617-710 | The fields of any line whatever: characters, the four escapes, backslashes that start none, and carriage returns, piece by piece, up to a newline, a zero byte or the end |
| `TextLines.ReturnsChangeNothing` | src/storage.c:645-648 | In a line without a backslash carriage returns change no field, wherever they are |
| `TextLines.StrayBackslashIsKept` | src/storage.c:683-709 | A backslash before any other character, or at the end, is kept |
| `Migration.ReadTextLine` | src/storage.c:712-751 | The end of the line that starts at a position |
| `TextLines.RowsOfLines` | src/storage.c:712-751 | Every line is a row unless it is one empty field; the last one with or without its newline |
| `TextLines.CrLfKeepsRows` | src/storage.c:993-1079 | Rows written with carriage return and newline migrate to the same log as with newlines alone |
| `Migration.Migrate` | src/storage.c:993-1079 | The binary file of the rows of a text file, blank lines dropped |
| `Migration.FileLooksBinary` | src/storage.c:1081-1126 | Whether the first row has a count and lengths within the limits, seeking over the data |
| `Migration.SplitRendered` | src/storage.c:617-710 | Splitting a rendered line gives its fields back |
| `Migration.MigrationKeepsRows` | src/storage.c:993-1079 | Rendering rows as text and migrating gives a clean log of the same rows, but for rows of one empty field |
| `Migration.CleanLooksBinary` | src/storage.c:1081-1126 | A clean log is never taken for text |
| `LogMeaning.LooksBinaryIff` | src/storage.c:1081-1126 | A file is taken for a log exactly when it has fewer than four bytes, or starts with a count from 1 to 4096 and as many lengths of at most 16 MiB |
| `LogMeaning.CutLogLooksBinaryIff` | src/storage.c:1081-1126 | A log that was cut off is still taken for a log exactly when fewer than four bytes are left, or the length of the last field of its first row |
| `Migration.TextLooksBinaryIffShort` | src/storage.c:1081-1100 | Text is taken for binary exactly when it has fewer than four characters |
| `Migration.ShortTextIsNotMigrated` | src/storage.c:1098-1100 | A text table that is lost for that reason |
| `Migrated.ActivationMigrates` | src/storage.c:1223-1306 | Any text without a field of 2^32 bytes is replaced by its log in any case; activation succeeds exactly when that log scans to its end and its rows are good |
| `Migrated.LogIsReadUpToLimit` | src/storage.c:945-991 | A log written row by row is read up to the first row beyond the limits of the reader, and to its end exactly when there is none |
| `Migrated.OverLimitTextIsReplaced` | src/storage.c:1223-1306 | What is left of a text with such a row, and when its activation succeeds |
| `Migrated.PreparedText` | src/storage.c:1223-1269 | A rendered text of four characters or more is prepared as a clean log of the same rows |
| `Rebuild.GoodItemsIffPairwise` | src/storage.c:1142-1187 | Good rows have numeric ids and non-empty student numbers, and no two agree on either |
| `Rebuild.IndexRowIffGood` | src/storage.c:1136-1191 | The callback accepts a row exactly when it is good beside the rows before it |
| `Rebuild.BuildStops` | src/storage.c:945-991 | Building the caches keeps those of the rows before the first bad one, and the student number of a row refused for its id alone |
| `Rebuild.BuildFromIffGood` | src/storage.c:1277-1306 | Building the caches works exactly when the file scans to its end and its rows are good, and yields exactly what the rows determine |
| `Rebuild.IndexIsRows` | src/storage.c:1136-1191 | The index maps the id of each row to its offset and holds nothing else |
| `Rebuild.IndexAscending` | src/storage.c:1136-1191 | The rebuilt index is strictly ascending |
| `Rebuild.MaxIdBound` | src/storage.c:1186-1188 | Every stored id is at most the counter |
| `Caches.Caches.IndexRow` | src/storage.c:1136-1191 | The callback on the objects does what the specification says, also when it refuses after caching the student number |
| `Caches.Caches.BuildIndex` | src/storage.c:945-991 | The scan loop with that callback, up to the first refused row |
| `Engine.Engine.constructor` | src/storage.c:35-40 | The state of a process that has just started |
| `Engine.Engine.PrepareFile` | src/storage.c:1212-1269 | A missing file is created, a text file converted; nothing changes if that fails |
| `Engine.Engine.RebuildCaches` | src/storage.c:1271-1306 | New index, new student number set, scan; the counter follows only on success |
| `Engine.Engine.Activate` | src/storage.c:1193-1309 | The whole new state of an activation, including the early return and every failure |
| `Engine.FillRow` | src/storage.c:1663-1705 | The values in column order; unknown and repeated columns are refused |
| `Engine.Engine.CheckStudent` | src/storage.c:1716-1743 | Presence, non-emptiness and freshness of the student number before an id is drawn |
| `Engine.Engine.NextId` | src/storage.c:492-495 | The counter goes up by one, modulo 2^64 |
| `Engine.Engine.StoreRow` | src/storage.c:1758-1796 | Row, then index, then student number; a late failure leaves what was done before it |
| `Engine.Engine.Insert` | src/storage.c:1612-1836 | The whole new state and the outcome of an INSERT |
| `RangeScan.ReadRowByRef` | src/storage.c:1412-1431 | The row at an offset if it can be read and has the width of the table |
| `RangeScan.SelectById` | src/storage.c:1433-1445 | The rows of the entries with that id |
| `RangeScan.SelectByIdRange` | src/storage.c:1447-1498 | The rows of exactly the entries that satisfy the comparison, in id order; an unreadable row fails the query |
| `RangeScan.LeafFrom` | src/storage.c:1461-1473 | The inner loop for > and >=: passing over entries at the bound misses none |
| `RangeScan.LeafUpTo` | src/storage.c:1481-1494 | The inner loop for < and <=: stopping at the first key past the bound misses none |
| `Queries.ScanRows` | src/storage.c:1510-1564 | The scan with its test on each row, stopping early when asked to |
| `Queries.SelectLinear` | src/storage.c:1532-1564 | The scan path of SELECT; fails for an unknown column |
| `Queries.FindPositions` | src/storage.c:1920-1942 | The positions of the selected columns, or failure when one is unknown |
| `Queries.ProjectRow` | src/storage.c:1342-1377 | One row cut down to the selected positions |
| `Queries.PresentRows` | src/storage.c:1897-1964 | Column names and projected rows, which `SelectMeaning.PresentMeaning` describes |
| `Engine.Engine.SelectRows` | src/storage.c:1869-1895 | The path that the WHERE clause selects, on the live index; `SelectMeaning.SelectMeaning` says what it finds |
| `Engine.Engine.Select` | src/storage.c:1838-1964 | The whole new state and the outcome of a SELECT |
| `InsertRows.DrawnRowMeaning` | src/storage.c:1663-1756 | A row about to be stored has the next id, the given values in their columns and blanks elsewhere; a value given for id is dropped |
| `InsertRows.DrawsIff` | src/storage.c:1673-1743 | A statement passes all checks exactly when its columns are known and different and its student number is present, not empty and not cached |
| `InsertMeaning.EarlyErrorIff` | src/storage.c:1673-1743 | Over every state: an INSERT into an active table draws a row, or is refused with the error of its first unknown or repeated column, else of the missing id column, else of its student number, and then changes nothing |
| `InsertMeaning.InsertMeaning` | src/storage.c:1612-1836 | Every INSERT on a sound table: refused with that error and the rows kept, or one row stored behind the others, with the id behind the largest in its id column, each value in the first column of its name, and blanks elsewhere |
| `Runs.ActivateGood` | src/storage.c:1193-1309 | On a sound table activation succeeds with the caches of the prepared file, whatever was active before |
| `Runs.AppendedFile` | src/storage.c:1758-1764 | The file after an append is clean, and good exactly when the id is not stored yet |
| `Runs.StoreGood` | src/storage.c:1758-1796 | A fitting row with the next id is stored, and the state is again what the file says |
| `Runs.InsertGood` | src/storage.c:1612-1836 | What INSERT does on a sound table: refused before an id is drawn, or stored with every cache in step |
| `RunTheorems.StepGood` | src/storage.c:1612-1964 | One statement, on any table in any state, keeps a given table sound and touches only the file it names |
| `RunTheorems.TableStaysSound` | src/storage.c:1193-1964 | Over every run a sound table stays sound, whatever the other tables hold |
| `RunTheorems.RunKeepsInv` | src/storage.c:1193-1964 | The same for all tables at once |
| `RunTheorems.SoundMeaning` | src/storage.c:1136-1309 | What soundness says of an active table: index, student numbers and counter are exactly those of the rows in the file |
| `RunTheorems.AnswerDependsOnFile` | src/storage.c:1193-1197 | On a sound table answer and effect depend on the file named and on nothing in memory |
| `RunTheorems.TablesAreIndependent` | src/storage.c:1193-1309 | Statements on other tables in between, good or bad, never change what a sound table answers |
| `RunTheorems.MemoryIsTransparent` | src/storage.c:1193-1309 | Two memories over the same sound tables answer alike for ever |
| `RunTheorems.RestartAfterRun` | src/storage.c:1193-1309 | After any run a restart reactivates a sound table with the same caches and next id, and later answers on it are the same |
| `Limits.StoredIffNoWrapOntoStoredId` | src/storage.c:492-495 | With matching caches: when a checked INSERT is stored, what it leaves behind when it is not, and when the caches still match |
| `Limits.MinusOneIsTheLastId` | src/storage.c:497-513 | The text "-1" is the id 2^64 - 1 |
| `Limits.FailedActivationSticks` | src/storage.c:1194-1197 | A failed activation is followed by one that succeeds and does nothing, unless a migration failed before any table was indexed |
| `Limits.ActivationIsTruthfulIff` | src/storage.c:1193-1309 | On a file that is clean once prepared, an activation that reads it succeeds exactly when the rows are good, and exactly then the caches say what the file says |
| `Limits.ActivationStops` | src/storage.c:1136-1309 | The whole state after an activation that reads the file: the caches of the rows before the first bad one, and the counter untouched unless all is well |
| `Limits.ActivationCases` | src/storage.c:1193-1283 | The whole state after an activation that reads no rows: taken as active, not migratable, or without an id column; the last two refuse the statement |
| `Limits.DrawnOutcome` | src/storage.c:1745-1796 | Whatever the state, a drawn row goes to the file and takes the next id; the INSERT is refused exactly when the field length, the index or the student number cache makes trouble, tried in this order; index, student numbers and counter afterwards |
| `Limits.RefusedInsertWritesIff` | src/storage.c:1745-1796 | Over every state a refused INSERT changes something exactly when it drew a row and met such trouble, and then its row is in the file |
| `Limits.RefusedInsertChangesNothingIff` | src/storage.c:1716-1796 | On an active sound table that happens exactly for a field of 2^32 bytes or a wrap onto a stored id |
| `Limits.SecondCopyIff` | src/storage.c:1745-1796 | Over every state, on a clean file: the id or the student number is in the file twice exactly when a row had it; stored and refused cases apart; the rows stay good exactly otherwise |
| `Limits.InsertAfterFailedActivation` | src/storage.c:1193-1197 | The INSERT after a failed activation: refused exactly when a row before the bad one has the drawn id, stored otherwise, even when a later row has it |
| `Sync.LostIsNotInSync` | src/storage.c:1193-1309 | Caches that miss a reached row, a file blocked by bytes that are no row, or a counter gone past its end: none of these matches the file |
| `Sync.LostStays` | src/storage.c:1745-1796 | No INSERT brings such caches back in step |
| `Sync.DrawnKeepsSync` | src/storage.c:1745-1796 | A drawn row keeps the caches in step exactly while the counter does not wrap and the row is within the limits of the reader |
| `Sync.RebuildSync` | src/storage.c:1193-1309 | A rebuild over any file leaves the caches in step exactly when the table has an id column and its prepared file is a clean log of good rows |
| `Sync.UnpreparedIsBlocked` | src/storage.c:1223-1244 | A text with a field of 2^32 bytes is not migrated, and whatever is appended to it, no row is read at its start |
| `Tracking.CachesMatchIff` | src/storage.c:1193-1964 | Over every run from any files: the caches of the active table match its file exactly when its last rebuild went well, ids did not wrap since, and every row drawn since was within the limits |
| `UnreadableRows.StoredKeepsFileIff` | src/storage.c:858-914 | INSERT reports a drawn row as stored whatever its size; the file stays clean exactly when it is within the limits |
| `UnreadableRows.OverLimitFailsRebuild` | src/storage.c:1271-1306 | Behind other rows a row beyond the limits makes the next rebuild fail |
| `UnreadableRows.OverLimitAloneLooksLikeText` | src/storage.c:1081-1126 | Alone in its file such a row is taken for text |
| `UnreadableRows.RowBehindShortText` | src/storage.c:1081-1126 | A row written behind a text of two or three characters leaves a file that is malformed from its first byte and looks like text |
| `UnreadableRows.ShortTextInsertIsStored` | src/storage.c:1612-1836 | INSERT into such a table reports that row as stored |
| `Witnesses.WrapIsRefused` | src/storage.c:492-495 | The ids 0 and -1: activation succeeds, the INSERT after it writes its row and is refused |
| `Witnesses.SecondInsertWritesAndRefuses` | src/storage.c:1194-1197 | A file with one id twice: the second statement writes its row and then refuses |
| `Witnesses.DuplicateIdIsStored` | src/storage.c:1194-1197 | The ids 5, 5 and 1: the second statement stores id 1 again and reports success |
| `Witnesses.BadTextIsReplaced` | src/storage.c:1223-1269 | A text with one id twice is replaced by its log although the activation fails |
| `Witnesses.SearchLosesRow` | src/storage.c:1524-1556 | Two texts for one number are both stored from an empty table, and the search for the first loses a row |
| `Witnesses.LongNumberBreaksTable` | src/storage.c:806-822 | A value of more than 16 MiB is reported as stored, and a restart cannot open the table |
| `Selects.LinearIsFilter` | src/storage.c:1510-1564 | The scan yields the filtered rows, cut after the first when it stops early |
| `Selects.MatchingIsStretch` | src/storage.c:1447-1498 | On an ordered index each comparison selects one contiguous stretch |
| `Selects.IndexPathIsFilter` | src/storage.c:1433-1498 | The index path returns the rows of the filter, each as often, and in the same order when the file is in id order |
| `Selects.ProjectAllMeaning` | src/storage.c:1342-1377 | Projection keeps rows and order and picks the listed fields |
| `Selects.ProjectAnyOrder` | src/storage.c:1944-1953 | The same rows in another order project to the same rows in another order |
| `SelectTheorems.SelectIsFilter` | src/storage.c:1838-1964 | Every SELECT on a sound table answers as the plain filter: up to order on id, exactly otherwise, cut only when it stops early; columns and id order are in `SelectMeaning.SelectMeaning` |
| `SelectMeaning.SelectMeaning` | src/storage.c:1838-1964 | Every SELECT on a sound table, without naming paths or positions: refused exactly for an unknown column in WHERE or, after that, in the list; otherwise all columns as they are, or the first column with each listed name, of the wanted rows, of a student search only the first, in file order or by id |
| `SelectMeaning.SelectByIdMeaning` | src/storage.c:1869-1895 | A number compared with id, in any letter case and by any of the five operators, on a file in any order: exactly the rows whose id meets it, strictly ascending |
| `SelectMeaning.PresentMeaning` | src/storage.c:1897-1964 | The star shows the columns and rows themselves; a list shows, in list order, the name and field of the first column with each name, and is refused exactly when one has no match |
| `AnyFile.ScanIff` | src/storage.c:1510-1564 | The scan of any bytes: what it yields, and that it fails exactly when it comes to a malformed row or one too short for the WHERE column before a search ends it |
| `AnyFile.RefsIff` | src/storage.c:1412-1498 | The index path over any file: one row of the right width for every entry, or failure |
| `AnyFile.MatchingIff` | src/storage.c:1447-1498 | The entries of an ordered index that a comparison selects are exactly those that meet it, in order |
| `AnyFile.SelectOnAnyFile` | src/storage.c:1838-1964 | SELECT on an active table over any file and index: which error, and when, and what it shows otherwise |
| `SelectTheorems.StopLosesNothingIff` | src/storage.c:1524-1556 | Stopping at the first student number loses no row exactly when no two stored ones are the same number |
| `SelectTheorems.StudentSelectsExactIff` | src/storage.c:1524-1556 | The same for whole SELECT statements, with a statement that loses a row when it fails |
| `SelectTheorems.LeadingZeroClash` | src/storage.c:534-549 | "01" and "1" differ as texts and agree as numbers |
| `SelectTheorems.RunKeepsIdOrder` | src/storage.c:1743-1746 | A file in id order stays in id order over every run |
| `SelectTheorems.SelectAfterRun` | src/storage.c:1838-1964 | A table that starts empty: after any run every SELECT that does not stop early answers as the filter, row for row and in order |
| `Lexer.NextStep` | src/parser.c:243-421 | One step of the tokenizer: blanks, comments, words, numbers, strings, symbols or an error |
| `Lexer.ReadQuoted` | src/parser.c:125-217 | The text of a quoted string, doubled quotes halved; fails without a closing quote |
| `Lexer.Tokenize` | src/parser.c:219-431 | All tokens from behind a byte order mark to the first zero character |
| `LexerProofs.QuotedBack` | src/parser.c:125-217 | A string with its quotes doubled is read back as itself |
| `LexerProofs.SpelledTokensAreReadBack` | src/parser.c:219-431 | Every sequence of proper tokens is read back from its spelling |
| `LexerProofs.TokensAreProper` | src/parser.c:219-431 | The tokenizer produces proper tokens and one end token, last |
| `LexerProofs.SpellingKeepsTokens` | src/parser.c:238-292 | Layout and comments carry no meaning: spelling the tokens of a text gives the same tokens |
| `Layout.ReadIffMadeOfWords` | src/parser.c:219-431 | The tokenizer reads exactly the texts laid out from words with blanks and comments between them, and finds exactly those words; words need a gap only where the next character would go on with them |
| `WordKinds.KeywordIff` | src/parser.c:87-107 | A word is a keyword exactly when it has its letters, in any case |
| `Parser.LexTerminates` | src/parser.c:424-428 | A token list ends with its only end token |
| `Parser.Parser.Match` | src/parser.c:496-502 | Moves past a token of the given kind; the cursor never passes the end token |
| `Parser.Parser.ParseList` | src/parser.c:532-580 | Items between commas: names, or literals that are quoted, numerals or names |
| `Parser.Parser.ParseQualifiedName` | src/parser.c:582-620 | A table name with an optional schema |
| `Parser.Parser.ParseInsert` | src/parser.c:622-680 | The INSERT rule |
| `Parser.Parser.ParseWhere` | src/parser.c:703-755 | The optional WHERE clause, its value quoted, a numeral or a name |
| `Parser.Parser.ParseSelect` | src/parser.c:682-761 | The SELECT rule |
| `Parser.Parser.ParseScript` | src/parser.c:774-814 | Statements to the end token, semicolons skipped |
| `Parser.ParseSqlScript` | src/parser.c:763-817 | The statements of a text, or failure as a whole; which texts these are is `ParserProofs.ParsedIffSaid` |
| `ParserProofs.ParsedIffSaid` | src/parser.c:532-817 | A text parses to a script exactly when it says it: keywords in any case, every value quoted, a numeral or a name, any number of semicolons between statements and at the end, or none |
| `Rendering.ParseOfRender` | src/parser.c:763-817 | Parsing a rendered script gives the script back |
| `Rendering.ParsedIffRendered` | src/parser.c:763-817 | Some text parses to a script exactly when the script can be rendered |
| `Session.DataPathInjective` | src/storage.c:561-615 | Different table names that the parser accepts have different data files |
| `Session.Execute` | src/executor.c:7-41 | Dispatch of one statement, with the whole new state |
| `Session.ExecuteAll` | src/main.c:189-216 | Statements in order up to the first that fails |
| `Session.RunStopsAtFailure` | src/main.c:189-216 | A run is a run over its first requests: all answers but the last are rows stored or shown, and requests are left over exactly when the last answer is neither |
| `Session.RunScript` | src/main.c:183-216 | A text is parsed as a whole first; then its statements run up to the first that fails |
| `Session.ScriptKeepsInv` | src/main.c:183-216 | Whatever text is run, with values within the limit of the reader, a sound table is sound afterwards |
| `Session.ScriptCachesMatchIff` | src/main.c:183-216 | Whatever text a fresh process runs over whatever files, the caches of the active table match its file exactly when the statements served went well |

## Left out

- Allocation failure, freeing and the growth of lists and buffers: allocation always succeeds.
- Failing file operations, directories, the temporary and backup files of a migration: a file is a value that is read and replaced as a whole.
- Schema files: the columns of each table are a parameter (the catalog), fixed for a run; a missing schema is the output `NoSuchTable`.
- The concrete hash of student numbers: any function from strings to naturals.
- Malformed rows: `read_u32` without an end-of-file flag leaves the length unset (`src/storage.c:753-766`, 815); the model takes a missing length as malformed, and as text when it decides whether a file is binary. `LogMeaning.CutLogScan` and `LogMeaning.CutLogLooksBinaryIff` rest on that where a cut falls into a length.
- Rows shorter than the column a WHERE clause tests, where the scan reads past the row in C: the model fails the query.
- 32-bit numbers are written and read least significant byte first; the C code uses the byte order of the host.
- File sizes are unbounded, so a row offset is a natural number.
- Error texts and the line and column counts of the tokenizer: failures are data without positions.
- The pointer to the active table definition: a statement always passes its own table, so only the path and the ready flag decide.
- The terminal interface, history, timing, result printing and benchmarks.
- `src/bptree.c`: the same tree code without the range scan, not part of the build.
- NodeOps.LeafInsertAt: shifts keys and refs in two loops where the C code shifts both in one.
- IdIndex.DescendToLeaf: one descent for point lookup and lower bound, which the C code writes out twice.
- StudentNoSet.StudentNoSet.Probe: one probe loop for lookup and insertion, which the C code writes out twice.
- Parser.Parser.ParseList: one loop for identifier lists and value lists, which the C code writes out twice.
- Caches.Caches: groups the index and the student number set, two global variables in C, into one object.
- Limits.SecondCopyIff: stated for rows within the limits of the reader and clean files; Tracking.CachesMatchIff and UnreadableRows.StoredKeepsFileIff say what happens otherwise.
- Migrated.LogIsReadUpToLimit: stated for rows of fewer than 2^32 fields, as is Tracking.CachesMatchIff for tables; the field count is cut down to 32 bits when it is written.
- InsertMeaning.InsertMeaning: stated for values within the limits of the reader and a counter below 2^64 - 1; InsertMeaning.EarlyErrorIff, Limits.DrawnOutcome and UnreadableRows.StoredKeepsFileIff say what happens otherwise.
- LogMeaning.RowIsWritten: stated for rows of fewer than 2^32 fields, as is LogMeaning.PartialRow.
