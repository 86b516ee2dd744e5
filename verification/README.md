# Verified core of the PostgreSQL file handler

The program lets COBOL programs keep ISAM files in PostgreSQL. This project models its
logic in Dafny and proves what that logic is for. It covers:

- the in-memory indexed file: pages, splits, search, scan and secondary indexes
  (`PageGraph`, `PageBuffers`, `Trails`, `MemIndex`, `MemFile`, `MemCobol`, `Memory`);
- the three ways of keeping an ISAM file and a table equal: double writes with undo
  (`DualStore`), changelog replay (`Changelog`) and repair by merging (`SyncTable`,
  `SyncImage`), with the file comparison built the same way (`Compare`);
- the translations: composite keys to WHERE and ORDER BY (`Where`), zoned decimals and
  records to SQL text (`Zoned`), JSON trees to text (`Json`, `JsonLex`, `JsonParser`,
  `JsonText`);
- START and READ NEXT over a cursor, with the shortcut that keeps it (`StartNext`);
- from the PuTTY sources: the multiplication ladders and point formulas (`Ladder`,
  `Edwards`, `Montgomery`, over `Modular`), BER items (`Ber`) and the line splitter for a
  proxy's standard error (`ProxyStderr`).

Code that updates things in place is a class or a method with loops, proved against
functions on values; the theorems are about those functions. `dafny verify dfyconfig.toml`
checks everything.

## How the index works

Splitting a branch links the left half to the right half through the field that also
serves as its last child pointer. Branches therefore form a directed acyclic graph: a page
can be reached from its parent and from its left neighbour, a branch can have leaves and
branches as children, and separators above branches need not be sorted. `PageGraph.Ok`
says why this works: every page has a lowest key from which on it routes correctly, leaves
own disjoint key ranges, a leaf is referred to by one branch only, the child after a leaf
starts exactly where the leaf ends, and a rank decreases along every link. Keys are
represented by their big-endian value; `Memory.CompareIsValueOrder` shows that this is the
order of memcmp. A page's address is the number of its allocation.

## Findings

- A DELETE that the database cannot even read is undone with the caller's buffer, not with
  the record saved before the call. The stores then differ exactly when the buffer is not
  the stored record (`DualStore.CallKeepsEqual`, `DualStore.DeleteCanLoseRecord`).
- A negative number loses its first digit to the sign, so its value survives a round trip
  exactly when that digit is zero (`Zoned.RoundTrip`, `Zoned.FirstDigitLost`). SYNC cannot
  bring such a record in line (`SyncImage.NegativeNotRepaired`).
- A text key that contains NULs is stored with blanks instead. SYNC stores such a record
  under another key than the file has, and the next SYNC of the same file deletes it
  (`SyncImage.NulKeyLosesRecord`). `SyncImage.SyncKeys` gives the exact condition.
- The START shortcut fails in two ways. A START that comes before the record of an earlier
  START was read can return that record again (`StartNext.RepeatedStartDiffers`). A START
  that finds nothing leaves the key of the last record read behind with its own empty
  cursor, which a later START on that key keeps (`StartNext.StaleKeyDiffers`).
  `StartNext.StartRight` gives the exact condition for every reachable state.
- memfh_start looks no further than the leaf that owns the key. It reports failure when
  that leaf has no entry from the key upward, although later leaves may
  (`MemIndex.EndOfLeafFails`, `MemIndex.FifteenFails`), and otherwise returns the record of
  the leaf's first slot (`MemIndex.StartReturnsAnother`). `MemIndex.Index.Start` gives both
  exact conditions.
- Only the first component of the primary key is appended to secondary keys, so a primary
  key of several components can make an index build stop (`MemCobol.SeparatedUnlessClash`,
  `MemCobol.TwoComponentsStop`).
- The JSON parser judges tokens by their first character whatever their kind, so a string
  such as `"]"` in an array ends it (`JsonText.BracketEndsArray`). The lexer's tests for
  `true` and `false` are inverted: a printed true is read back as false
  (`JsonText.TrueComesBackFalse`), and a printed false makes the parser follow a null
  pointer (`JsonText.FalseKillsParser`). No tree with a boolean comes back
  (`JsonText.RoundTrip`).
- Multiplying a point by zero returns the point itself (`Ladder.Multiply`).

## Model

| member | source | states |
|---|---|---|
| `Memory.CompareIsValueOrder` | memfh_idx.c:241 | memcmp on two keys of one length is the order of their big-endian values, and equality is equality |
| `Memory.CompareConcat` | memfh_idx.c:124-131 | comparing concatenated components is comparing the first ones, then the second ones |
| `PageBuffers.FullPageFits` | memfh.h:13 | for every key length 1 to 256, MEMFH_MAX_ITEMS is at least 14, a page that reaches it lies inside the buffer with room for exactly one more slot, and MAX is the largest number of which this is true |
| `PageBuffers.PageBuf.InsertAt` | memfh_idx.c:409-420 | the shifting loop opens one slot and keeps the order of all others, inside the buffer |
| `PageBuffers.PageBuf.Split` | memfh_idx.c:353-372 | the left half keeps the first floor(n/2) slots, the right half has the others in order; a branch's left half is linked to the right one |
| `PageBuffers.PageBuf.AddLink` | memfh_idx.c:316-347 | after a child split, the parent has the new separator and the new child right behind the old one, whether that was in a slot or in `next` |
| `PageGraph.RouteCovers` | memfh_idx.c:229-276 | in every valid graph the link the search takes leads to a page that covers the key and has a smaller rank |
| `PageGraph.WalksEnd` | memfh_idx.c:229-276 | no walk along links of a valid graph is longer than the rank of its start, and none comes back: the graph has no cycle |
| `PageGraph.LeafSplits` | memfh_idx.c:422-463 | splitting a leaf under its parent keeps the graph invariant |
| `PageGraph.RootLeafSplits` | memfh_idx.c:427-459 | splitting the only leaf under a new root keeps the graph invariant |
| `PageGraph.BranchSplits` | memfh_idx.c:353-372 | splitting a branch, with the sideways link from left to right half, keeps the graph invariant, including a strictly decreasing rank |
| `PageGraph.SiblingLinked` | memfh_idx.c:316-347 | entering the right half of a split branch in the parent keeps the graph invariant |
| `PageGraph.RootGrows` | memfh_idx.c:377-389 | putting a new root above the two halves of the old one keeps the graph invariant |
| `PageGraph.CoveringLeafDecides` | memfh_idx.c:229-276 | a key is stored exactly when the one leaf that covers it has it, with the same record |
| `PageGraph.NextLeaf` | memfh_idx.c:66-90 | the leaf reached by first links from the parent's next child starts exactly where the left leaf ends; the last child of the parent ends at the top of the key range |
| `Trails.TrailRanked` | memfh_idx.c:229-293 | ranks fall along the recorded search path, so no page occurs on it twice |
| `Trails.LeafAnswers` | memfh_idx.c:229-276 | what the leaf says about the key is the answer for the whole index |
| `Trails.ClimbFromLeaf` | memfh_idx.c:427-463 | after a leaf split the rest of the search path is still a path to the parent that must be told |
| `Trails.ClimbOn` | memfh_idx.c:349-391 | the same after a branch split, one level up |
| `MemIndex.Index.constructor` | memfh.c:37-48 | a new index is valid and empty |
| `MemIndex.Index.Probe` | memfh_idx.c:240-264 | the slot the scan of one page stops at is the routing position, or in a leaf the position of the key |
| `MemIndex.Index.SearchPage` | memfh_idx.c:229-276 | the recursive search ends at the leaf that covers the key, with 0 exactly when the key is stored |
| `MemIndex.Index.Search` | memfh_idx.c:278-293 | 0 exactly when the key is stored, and the path recorded is the way to its leaf |
| `MemIndex.Index.InsertParent` | memfh_idx.c:295-393 | linking a new page upward through any number of branch splits up to a new root restores the whole invariant and keeps the contents |
| `MemIndex.Index.Write` | memfh_idx.c:395-466 | a new key is added and nothing else changes; a stored key is refused; afterwards the graph invariant holds and every page but the root holds at least floor(MAX/2) and fewer than MAX entries |
| `MemIndex.Index.First` | memfh_idx.c:20-43 | finds the lowest stored key, and fails exactly when the index is empty |
| `MemIndex.Index.Next` | memfh_idx.c:45-100 | moves to the next stored key in order, or fails exactly at the last one, although only the parent of the leaf is consulted |
| `MemIndex.Index.Start` | memfh.c:191-225 | succeeds if and only if the leaf that owns the key has an entry from the key upward; then the scan stands at the nearest stored key upward, and the record returned is that of the leaf's first entry, which is the same entry if and only if the leaf has none below the key |
| `MemIndex.StopsAtNearest` | memfh_idx.c:229-276 | the slot a search ends at is the nearest stored key upward; past the end of the leaf all such keys lie beyond it |
| `MemIndex.StopsExactly` | memfh_idx.c:229-276 | both conditions, for the search in any valid graph |
| `MemIndex.StartReturnsAnother` | memfh.c:209-224 | in an index with the keys 1 and 3, START from 3 returns the record of 1 |
| `MemIndex.EndOfLeafFails` | memfh.c:209-224 | after the first split, START fails for every key between the two leaves although larger keys are stored |
| `MemIndex.FifteenFails` | memfh.c:209-224 | with the keys 2 to 28 in two leaves, START from 15 fails although 16 is stored |
| `MemIndex.Index.ScanAll` | memfh_idx.c:170-197 | a full scan visits every stored entry exactly once in strictly ascending order |
| `MemFile.BuildKey` | memfh.c:138-144 | the loop assembles the key's components |
| `MemFile.File.constructor` | memfh.c:15-51 | a new file is valid and empty |
| `MemFile.File.Write` | memfh.c:118-149 | stops exactly when the key was written before; otherwise the file maps the key to the record and is otherwise unchanged |
| `MemFile.File.Read` | memfh.c:151-189 | finds a key exactly when it is in the file, returns its record or replaces it; an update stops exactly when the leading bytes differ |
| `MemFile.File.KeyAtStart` | memfh.c:174-183 | with a one-component key at the start of the record an update never stops |
| `MemFile.File.Run` | memfh.c:118-189 | after any run of writes and updates the file holds what the run's table says, through all splits |
| `MemFile.LastWins` | memfh.c:118-189 | that table has a key exactly when it was written, with the last record stored under it |
| `MemFile.File.CreateIndex` | memfh_idx.c:102-168 | building a secondary index succeeds exactly when all composite keys differ, and then holds exactly the primary index's records under them |
| `MemFile.PrimaryKeySeparates` | memfh_idx.c:124-134 | appending a one-component primary key makes all composite keys differ |
| `MemFile.SecondaryOrder` | memfh_idx.c:124-134 | the composite order is by secondary key, then by primary key |
| `MemCobol.Descriptors` | memfh_cbl.c:63-92 | each secondary key descriptor is its components and then the first component of the primary key |
| `MemCobol.CreateSecondary` | memfh_idx.c:102-168 | with a one-component primary key, building any secondary index never stops, and the index holds every record of the file under a key ordered by secondary and then primary key |
| `MemCobol.ListSecondary` | memfh_idx.c:170-197 | a scan of the new index lists every record of the file exactly once, strictly by secondary key and then primary key |
| `MemCobol.SeparatedUnlessClash` | memfh_cbl.c:87-91 | for any primary key, the build succeeds exactly when no two records agree in the secondary key and the primary key's first component |
| `MemCobol.TwoComponentsStop` | memfh_cbl.c:87-91 | with two components, two records can both be written and then building the index stops |
| `DualStore.CallKeepsEqual` | pqfh.c:1141-1264 | starting equal, the stores are equal after a call exactly when it is not a DELETE whose database read fails with a buffer other than the stored record; a success took effect in both, a failure in neither |
| `DualStore.CallExact` | pqfh.c:861-921 | from equal stores a call succeeds if and only if the key is right for it and no step it meets fails: a failing read does not matter to WRITE, nor a failing update to an unchanged REWRITE; then both stores have changed, and otherwise neither, unless the record is lost |
| `DualStore.FaultlessCall` | pqfh.c:1141-1264 | with nothing failing, WRITE succeeds exactly on a new key, REWRITE and DELETE exactly on a stored one |
| `DualStore.RunKeepsEqual` | pqfh.c:1141-1264 | over every run without such a call, whatever fails, both stores are equal and hold exactly the effects of the calls that reported success |
| `DualStore.RunExact` | pqfh.c:1141-1264 | over every run that loses no record, every status and both stores are those of one map that changes by the same conditions |
| `DualStore.ReadBeforeDelete` | pqfh.c:861-921 | a caller that reads each record before deleting it never makes such a call |
| `DualStore.DeleteCanLoseRecord` | pqfh.c:1227-1256 | such a call exists and leaves different records |
| `DualStore.Handler.Pqfh` | pqfh.c:1141-1264 | the pre-read, ISAM first, database second and undo sequence on the shared record buffer has the effect and status of one model call, succeeds exactly under those conditions, and leaves the caller's record as it was, except that a DELETE leaves the record read |
| `DualStore.Handler.OpWrite` | op_write.c:60-195 | inserts the record exactly when the key is not there and the insert does not fail |
| `DualStore.Handler.OpRewrite` | op_rewrite.c:73-248 | updates exactly when the record can be read and the update does not fail or is not needed; the buffer is restored |
| `DualStore.Handler.OpDelete` | op_delete.c:54-146 | deletes exactly when the record can be read and nothing fails; the buffer holds the record read |
| `Changelog.StepCatchesUp` | changelog/sync_execute.c:141-153 | replaying one entry, whether it applies or fails, moves every key of a partly applied file past that entry |
| `Changelog.FailsWithoutEffect` | changelog/sync_execute.c:153-162 | what the file makes of an entry: WRITE needs an absent key, REWRITE and DELETE a present one, and a failure changes nothing |
| `Changelog.Converges` | changelog/sync_execute.c:28-184 | replaying a valid log from any file each of whose keys is at some moment of the log ends with the table |
| `Changelog.InvKept` | changelog/sync_execute.c:28-184 | table changes, crashed passes and committed passes all keep: the pending log leads from the last committed table to the present one, and the file is partly applied |
| `Changelog.CaughtUp` | changelog/sync_execute.c:28-184 | after any run with any number of crashes, a pass over what is pending makes the file equal to the table |
| `Changelog.Follower.RowsCaughtUp` | changelog/sync_execute.c:28-184 | the same for the rows themselves: after any run of row changes, crashed passes and committed passes, replaying what is pending gives the image of the table |
| `Changelog.Follower.Follow` | changelog/sync_execute.c:42-172 | a pass over the entries that the trigger logged, after any such run, leaves the file equal to the image of the table |
| `Changelog.NoErrors` | changelog/sync_execute.c:153-162 | without crashes every entry applies |
| `Changelog.JoinedCut` | changelog/sync_execute.c:89-97 | cutting the logged text at the first bar gives back the first column, and the rest is the other columns' text |
| `Changelog.TextOfRow` | changelog/create_changelog_function.c:22-50 | one bar between two columns and none elsewhere |
| `Changelog.LoggedOnce` | changelog/create_changelog_function.c:72-82 | an entry gives back the change it was logged for, with the row as it was and as it became |
| `Changelog.Follower.MeaningIsRight` | changelog/create_changelog_function.c:72-82 | the data the trigger logs describes the change of the table's image that the row change made |
| `Changelog.Follower.MeaningsAreRight` | changelog/create_changelog_function.c:72-82 | over any legal history of the table, the logged entries are a valid log of its image and lead to the image of the table as it then is |
| `Changelog.Follower.Fill` | changelog/sync_execute.c:81-139 | the record rebuilt from an entry's text is the image of the logged row |
| `Changelog.Follower.ImageForm` | changelog/sync_execute.c:81-139 | a rebuilt record is its columns, and NULs behind them |
| `Changelog.Follower.Execute` | changelog/sync_execute.c:42-172 | a pass replays the entries in order, marks an entry SUCCESS exactly when it applied, and from a file partly applied to a table ends with the image of that table after its logged row changes |
| `Compare.MergeDifference` | cmp_isam.c:124-228 | about every key the log has exactly: one `+` if only file 1 has it, one `-` if only file 2 has it, a `<` `>` pair if the records differ, nothing otherwise |
| `Compare.MergeInOrder` | cmp_isam.c:124-228 | the log is in key order |
| `Compare.LogOfExample` | cmp_isam.c:124-228 | the log of two small files, line by line |
| `Compare.MergeFiles` | cmp_isam.c:124-228 | the loop over two readers computes the merge |
| `Compare.CompareFiles` | cmp_isam.c:124-228 | for ascending files, the log is in key order and says about every key exactly what it should |
| `SyncTable.RecordsDiffer` | cmp_table.c:10-58 | reports a difference exactly when some column differs in that sense |
| `SyncTable.NumericFieldSame` | cmp_table.c:35-41 | a numeric field compares equal if and only if the bytes are equal, or each NUL or blank of the file stands where the table has the digit 0 and all else is the same |
| `SyncTable.TextFieldSame` | cmp_table.c:28-34 | a text field likewise, with NULs standing for blanks |
| `SyncTable.SyncSettles` | cmp_table.c:149-306 | where every statement hits the key of its own record, every key ends up settled: absent if the file lacks it, untouched if the records compared equal, and otherwise holding the image of the file's record |
| `SyncTable.KeysExact` | cmp_table.c:149-306 | the keys half of that condition, for any way of storing under which a key that storing produced is kept when stored again |
| `SyncTable.SyncExact` | cmp_table.c:149-306 | the whole condition, likewise |
| `SyncTable.Database.OpWrite` | op_write.c:60-195 | inserts under the key of what is stored, unless that row exists |
| `SyncTable.Database.OpRewrite` | op_rewrite.c:73-248 | updates the row under that key if there is one and it is not equal already |
| `SyncTable.Database.OpDelete` | op_delete.c:54-146 | deletes the row under that key if there is one |
| `SyncTable.Untouched` | cmp_table.c:149-306 | a key that no statement is about is left alone |
| `SyncTable.Database.MergeLoop` | cmp_table.c:149-306 | the loop over cursor and file issues the statements in key order, each at the key under which its record is filed, and without SYNC none |
| `SyncTable.Database.Sync` | cmp_table.c:149-306 | afterwards the table has exactly the ISAM file's keys if and only if storing keeps every key that only one of the two has; and table and file agree throughout, by keys and under reccmp, if and only if each key agreed before or storing keeps the key and preserves the record |
| `SyncImage.ImageSame` | cmp_table.c:10-58 | a record written by op_write and read back by pq2cob is equal under reccmp to the original exactly when every number keeps its first digit and is no negative zero, and every text has only NULs and blanks behind its first NUL |
| `SyncImage.KeyKept` | pq2cob.c:6-56 | a stored record has the key of the record if and only if the bytes of every key column come back: a surviving number, a text without NUL |
| `SyncImage.KeySteady` | pq2cob.c:6-56 | a key under which some record was filed is kept when a record with that key is stored |
| `SyncImage.SyncKeys` | cmp_table.c:149-306 | the keys come out equal if and only if this holds of every record that only the table or only the file has |
| `SyncImage.SyncReaches` | cmp_table.c:149-306 | with op_write and pq2cob as the way of storing, SYNC brings table and file in line if and only if each key agreed before, or the bytes of its key columns come back and every column of the file's record survives |
| `SyncImage.NulKeyLosesRecord` | cmp_table.c:217-300 | a file with a text key that ends in NULs: the first SYNC stores the record, the second deletes it |
| `SyncImage.NegativeNotRepaired` | cmp_table.c:149-306 | a record with -121 in three digits is stored by SYNC and still compares different |
| `Where.Query.AddComp` | kdb.c:135-223 | the recursion appends the text for the remaining columns to both buffers |
| `Where.TextParses` | kdb.c:135-223 | the nested text, read with AND binding tighter than OR, is the intended condition |
| `Where.WhereMeansKeyOrder` | kdb.c:135-245 | for any number of columns and each operator the text is true of a row exactly when its key compares so lexicographically |
| `Where.OrderMeansKeyOrder` | kdb.c:135-223 | the ORDER BY text sorts by the whole key, upward for >, >= and =, downward for < and <= |
| `Where.UpwardText` | kdb.c:135-223 | for >, >= and = the ORDER BY text is the column names with commas between them |
| `Where.DownwardText` | kdb.c:135-223 | for < and <= each name has "desc" behind it |
| `Where.FirstIsNearest` | op_start.c:99-103 | the first row of the cursor is exactly the row with the lowest selected key for > and >=, and with the highest for < and <= |
| `Where.Query.constructor` | kdb.c:225-245 | getwhere's two buffers select the rows whose key is above, from, at, below or up to the key given, and sort them in the matching direction |
| `StartNext.ReadPops` | op_next_prev.c:52-138 | READ NEXT returns and removes the first record of what is waiting: the first fetch, the repeated record, then the cursor |
| `StartNext.StartRight` | op_start.c:48-141 | in every state any run can reach, START makes exactly its own rows wait if and only if: a newly declared cursor is not answered from an earlier START's repeat; a kept cursor that was fetched from has no record waiting before it; and a kept cursor that was not fetched from, matched by a key left over, happens to join up with what waits, with no row between |
| `StartNext.CursorKept` | op_start.c:58-71 | the cursor is kept exactly if the index is the same and the key agrees over its length with the last key read, and then only the record, the status and `restart` change |
| `StartNext.StartStatus` | op_start.c:66-141 | the status is "00" whenever the cursor is kept; with a new cursor exactly if there is a row or a repeated record, and otherwise "23" |
| `StartNext.LastKeyStatus` | op_start.c:66 | on the last key, START > answers "00" where a new cursor answers "23" |
| `StartNext.StartRightAlways` | op_start.c:48-141 | the same after any sequence of STARTs and READ NEXTs whatever, from OPEN on |
| `StartNext.RunKeeps` | op_next_prev.c:52-138 | every such sequence keeps the invariant that ties cursor, remembered key and remembered record together |
| `StartNext.AfterNotFound` | op_start.c:128-141 | after a START that found nothing, a START on the key last read is right exactly if no row lies above that key |
| `StartNext.ShortcutUnseen` | op_start.c:48-71 | when each START but the first follows a READ NEXT that returned a record, all reads return the same with and without the shortcut, and what the rows demand |
| `StartNext.RepeatedStartDiffers` | op_start.c:60-71 | a START whose record was not read, followed by another, can return a record again |
| `StartNext.StaleKeyDiffers` | op_next_prev.c:92-100 | after a START that found nothing, a START on the key last read can miss the rows behind it, although no record was waiting |
| `StartNext.File.OpNext` | op_next_prev.c:52-138 | the method on the table's fields takes the first waiting record and keeps the invariant |
| `StartNext.File.OpStart` | op_start.c:48-141 | the method on the table's fields keeps the invariant, and sets up its own rows exactly under that condition |
| `Zoned.Encode` | op_write.c:143-160 | the parameter text of a numeric column, byte by byte: the point before the last dec digits, a minus over the first digit of a negative number, its last digit unmarked |
| `Zoned.EncodedValue` | op_write.c:143-160 | the number PostgreSQL reads from it, with its decimals: the field's, without the first digit if negative |
| `Zoned.CanonicalValue` | pq2cob.c:23-42 | the form in which PostgreSQL prints a number has that number's value |
| `Zoned.TextOfField` | op_write.c:143-160 | the field 0123t with two decimals is sent as -12.34 and decoded from it |
| `Zoned.CanonicalDecodes` | pq2cob.c:23-42 | every number that fits the column, as PostgreSQL prints it, is decoded to its field |
| `Zoned.RoundTrip` | op_write.c:143-165 | a field's value survives exactly when it is not negative or its first digit is zero |
| `Zoned.ReturnedSame` | op_write.c:143-165 | the field itself comes back exactly when, in addition, it is no negative zero |
| `Zoned.FirstDigitLost` | op_write.c:153-160 | -121 in three digits comes back as -21 |
| `Zoned.ValuesReturn` | pq2cob.c:23-49 | every non-negative value that fits in len digits and every negative one that fits in len-1 comes back as the same field |
| `Zoned.Params` | op_write.c:126-176 | each column's parameter: the field's bytes of a text column, the text above of a numeric one |
| `Zoned.PutField` | pq2cob.c:16-49 | one column's share lands at its offset and nothing else changes |
| `Zoned.Pq2Cob` | pq2cob.c:6-56 | the record becomes the columns' shares one after the other |
| `Zoned.RecordReturns` | pq2cob.c:6-56 | a record written column by column and read back is the same record |
| `JsonLex.LexAll` | json/lex.c:11-97 | the loop with its states computes the token function, including the token lost before any other |
| `JsonLex.ReadsString` | json/lex.c:78-85 | a quoted string in which every quote is escaped is read as one token, wherever it stands |
| `JsonLex.ReadsNumber` | json/lex.c:87-92 | a number is read as one token when something else follows, which is read again |
| `JsonLex.BlanksSkipped` | json/utils.c:12-14 | blank, tab, line feed and carriage return are skipped between tokens |
| `JsonLex.FirstStringLost` | json/lex.c:99-111 | a string that would be the first token is lost |
| `JsonLex.FirstNumberLost` | json/lex.c:99-111 | and so is a number |
| `JsonLex.AnythingElse` | json/lex.c:51-72 | everything else is a word: true read as false with five characters, all others read as true with four |
| `JsonLex.WordMisread` | json/lex.c:56-71 | wherever it stands, true is read as false and false as true |
| `JsonParser.MembersParse` | json/parser.c:76-130 | an object's tokens parse to its members, up to what ends them |
| `JsonParser.ItemsParse` | json/parser.c:41-74 | the same for an array |
| `JsonParser.TokensParse` | json/parser.c:12-39 | a tree's tokens parse to the tree, whatever follows them |
| `JsonParser.UnclosedAccepted` | json/parser.c:41-130 | a missing last bracket goes unnoticed |
| `JsonParser.NameAndColon` | json/parser.c:88-100 | without an error, a member begins with a string and a colon; where tokens run out behind a name, the program dies |
| `JsonParser.RootComes` | json/parser.c:12-130 | every accepted tree has no name or string that starts with punctuation of its place, and no array directly in an array |
| `JsonParser.RootKeepsWords` | json/parser.c:12-130 | in an accepted tree the first word is the first word among the tokens |
| `JsonParser.Parser.ParseObject` | json/parser.c:76-130 | on every token list, the loop builds what the function says, or follows a null pointer exactly when it says so |
| `JsonParser.Parser.ParseArray` | json/parser.c:41-74 | the same for arrays |
| `JsonParser.Parser.Parse` | json/parser.c:12-39 | the same for the root |
| `JsonText.Printer.AppendObject` | json/tostring.c:11-46 | appends exactly the object's lines and restores the level, or fails exactly on a tree the program exits on; the indentation buffer is never overrun |
| `JsonText.Printer.AppendArray` | json/tostring.c:48-82 | the same for arrays |
| `JsonText.Printer.ToString` | json/tostring.c:84-110 | the text of every tree that can be printed |
| `JsonText.Layout` | json/tostring.c:11-110 | the lines of a nested tree, with their indentation |
| `JsonText.NotPrinted` | json/tostring.c:39-75 | the program exits on an array directly in an array, and on a leaf of another kind |
| `JsonText.TextLexes` | json/lex.c:11-111 | the lexer reads a printed tree as the tree's tokens if and only if the tree holds neither true nor false; otherwise the first word it reads is the wrong one |
| `JsonText.RoundTrip` | json/parser.c:12-130 | parsing a printed tree gives the tree if and only if no name or string starts with a character taken for punctuation at its place, no array lies directly in an array, and the tree holds neither true nor false |
| `JsonText.TrueComesBackFalse` | json/lex.c:56-71 | an object with the value true is printed and read back with the value false |
| `JsonText.FalseKillsParser` | json/parser.c:88-100 | an object with the value false is printed and then makes the parser follow a null pointer |
| `JsonText.BracketEndsArray` | json/parser.c:47-52 | a string that is a closing bracket ends its array |
| `JsonText.PrintAndParse` | json/json.c:24-26 | printer, lexer and parser one after the other: a tree is printed exactly when the program does not exit on it, and comes back exactly under that condition |
| `JsonText.ParseText` | json/parser.c:12-39 | lexer and parser together, on any text; a printed tree comes back exactly under that condition |
| `Ladder.Multiply` | putty/ecc.c:766-824 | for n >= 1 and any number of leading zero bits the loop returns n times B, always holding two points that differ by B; for 0 it returns B |
| `Edwards.SumIsExtended` | putty/ecc.c:1019-1078 | every sum satisfies X Y = Z T |
| `Edwards.AffineSum` | putty/ecc.c:1019-1078 | the projective formulas compute the affine addition law of the twisted Edwards curve, with Z the product of its two denominators |
| `Edwards.MultiplyPoint` | putty/ecc.c:1091-1125 | n times B, still with X Y = Z T |
| `Montgomery.DifferentialAddition` | putty/ecc.c:658-703 | the formulas satisfy x(P+Q) x(P-Q) (x(P) - x(Q))^2 = (x(P) x(Q) - 1)^2, as exact multiples of its two sides |
| `Montgomery.Doubling` | putty/ecc.c:705-755 | the formulas compute (x+1)^2 (x-1)^2 / 4 (x^3 + a x^2 + x) |
| `Montgomery.MultiplyPoint` | putty/ecc.c:766-824 | n times B |
| `Ber.RoundTrip` | putty/import.c:176-260 | reading gives back identifier, flags and data and stops at the next byte |
| `Ber.LengthForm` | putty/import.c:199-215 | lengths below 128 in one octet, the others counted and as short as possible |
| `Ber.IdentifierForm` | putty/import.c:179-197 | identifiers below 31 in the first octet, the others in groups of seven bits |
| `Ber.TruncatedFails` | putty/import.c:228-260 | reading any proper part of an encoding from its start sets the error |
| `Ber.ListRoundTrip` | putty/import.c:176-260 | items written one after the other are read back as that list |
| `Ber.SequenceRoundTrip` | putty/import.c:176-260 | a SEQUENCE of any list of items: its header is read, its contents to their end give the list, and reading stops at the next byte |
| `Ber.BinarySink.PutBerIdLen` | putty/import.c:176-217 | the loops write the identifier and length octets |
| `Ber.BinarySink.PutItem` | putty/import.c:176-217 | header and contents |
| `Ber.BinarySource.Avail` | putty/marshal.c:104-121 | bytes are available exactly when no error was met and enough remain; otherwise the error sticks |
| `Ber.BinarySource.GetByte` | putty/marshal.c:131-140 | takes the next byte, or zero after an error |
| `Ber.BinarySource.GetData` | putty/marshal.c:123-129 | takes the next bytes, or none after an error |
| `Ber.BinarySource.GetBer` | putty/import.c:228-260 | reads one item as the reading function says, on any input |
| `ProxyStderr.ChunksIrrelevant` | putty/be_misc.c:67-151 | log and leftover depend only on the concatenated input, for any buffer size above zero |
| `ProxyStderr.NothingLost` | putty/be_misc.c:102-144 | every character is logged, stripped as part of a line end, or still held; a logged line has no line feed in it and no carriage return at its end, and a partial line is a full buffer without a line feed |
| `ProxyStderr.InputDecides` | putty/be_misc.c:67-151 | log and leftover are the only ones of that form that account for the input |
| `ProxyStderr.CarriageReturnStripped` | putty/be_misc.c:111-116 | "error" followed by carriage return and line feed is logged as "error" |
| `ProxyStderr.StderrBuf.Log` | putty/be_misc.c:67-151 | the loop over the fixed buffer has the effect of feeding the characters one by one, and the size assertion holds |

## Left out

- MemIndex.Index.Next: the search path is an unbounded sequence; the program has MEMFH_MAX_DEPTH = 16 levels, and a scan deepens the path at each sideways step.
- Freshness of secondary indexes after later writes, which the program does not maintain.
- The bytes inside a page slot: a slot is a key value and a pointer, and the byte sizes only enter the capacity.
- memfh_close, file listing, and the table of open headers.
- DualStore.Handler.Pqfh: an undo call is assumed to succeed, no record is locked, access is by primary key, and the database gives back a record as it was stored (`Zoned` says when it does).
- Transactions, the commit thread, locks, replicas and clones.
- Changelog.Follower.Fill: values without a bar, and no NULL in a numeric column with decimals, for which the program writes len + dec zeros.
- Changelog.Follower.Extfh: fails only on a present or an absent key; an entry that fails for another reason is marked ERROR by the program and never retried.
- Changelog.CaughtUp: one registered table and fixed primary keys; passes are atomic with respect to table changes, and a pass covers the entries its cursor saw.
- SyncTable.Database.Sync: a statement fails only for the lack or the presence of a row, the cursor is a snapshot, and the log is not modelled.
- SyncImage.ImageSame: numeric fields hold digits; how op_write treats other bytes is not modelled.
- SyncImage.SyncReaches: key columns have no decimals, for which the WHERE of op_rewrite lacks the point, and hold no negative numbers, on which the program's own validation exits.
- Where: partial keys, weak entities, the literals' text and its escaping; a key value stands for its place in the column's order.
- StartNext: READ PREVIOUS, START with <, <= and =, and keys that contain NUL bytes.
- StartNext: the caller leaves the record area alone between START and READ NEXT, and the table does not change.
- Zoned: how PostgreSQL reads and prints numbers is its documented form; the checks on the digits sent are left out.
- JSON null, indentation deeper than 16 levels, lines longer than the print buffer, and line numbers of tokens.
- Edwards.MultiplyPoint: n times B relative to a group law that is a precondition, with no exceptional points; multi-precision integers are integers modulo p.
- Montgomery.MultiplyPoint: likewise relative to the laws of doubling and differential addition.
- Ber.BinarySource.GetBer: identifiers from 2^28 and lengths from 2^24 on, and integer overflow while reading.
- ProxyStderr.StderrBuf.Log: a NUL byte ends a logged message in the program.
- libpq, EXTFH, JNI, environment variables, logging, timing, and the remaining PuTTY files.
