# hamsterdb key comparators and ordered store, as its unit tests pin them down

hamsterdb is an embedded key/record database. Its API test suite, `unittests/hamsterdb.cpp`,
holds two real pieces of code: `my_compare_func_u32` and `my_prefix_compare_func_u32`,
which compare keys as sequences of signed 32-bit words. The suite also makes many
assertions about the behaviour of the store these comparators order:

- exact and approximate finds (`HAM_FIND_EXACT_MATCH`, `LT`, `LEQ`, `GT`, `GEQ`, `NEAR`
  and `LT|GT`), with the sign that `ham_key_get_approximate_match_type` reports;
- insert, overwrite, duplicates and erase;
- cursors that move FIRST, LAST, NEXT and PREVIOUS, and become nil when their key is
  erased;
- the three key-count modes;
- the argument rules that insert, find, erase and environment creation check first.

This project models both parts.

- **Comparators** (`compare.dfy`, module `KeyCompare`). A key is its byte length plus
  the signed words of its whole 4-byte groups. The two comparators are methods with the
  source's `while (len > 0)` loop, each proved equal to a functional definition. Lemmas
  prove the following:
  - the first differing word decides;
  - a key that runs out of words first is the smaller one;
  - the order is reflexive, antisymmetric, transitive and total;
  - the prefix comparator answers -1 or +1 exactly when the full comparator's word loop
    does, and otherwise asks for the full keys.
- **Store.** The content is a sorted sequence of entries (`entries.dfy`): a key and its
  list of duplicate records. `find.dfy` specifies finds, `positions.dfy` cursor
  positions and traversal order, and `store.dfy` inserts, overwrites, erases, moves and
  counting. Each of these is a function of the content, and lemmas state what it means
  (for example "the greatest stored key below the query") and where the other cursors
  end up.
- **Argument rules.** `flags.dfy` holds insert flags, the append/prepend hints, direct
  access, page sizes, and recovery together with in-memory.
- **Database and cursor objects.** `database.dfy` makes the database handle and its
  cursors classes whose methods update their fields. Each method is proved to apply the
  store functions, and to keep every open cursor nil or on an existing record.
- **The tests as scenarios.**
  - `near_find.dfy` states what nearFindTest expects.
  - `stress.dfy` states what nearFindStressTest expects, for every database size up to
    50000 and every query the test makes.
  - `scenarios.dfy` covers cursorMoveTest, cursorGetErasedItemTest, replaceKeyTest,
    insertAppendTest, insertPrependTest, recordCountTest and the flag tests. These are
    methods that build a database, make the test's calls and return what the test
    checks.

Some behaviours the model gives the store are fixed by no test in this file; each is
named under "## Left out". Among them:

- A plain insert of a key that is already stored returns `DuplicateKey` (HAM_DUPLICATE_KEY)
  and changes nothing.
- A NEAR find with no exact hit prefers the neighbour below. The test it is checked
  against accepts either neighbour.
- HAM_OVERWRITE on a key that holds several duplicates replaces duplicate 0
  (`Store.InsertInto`).
- A ham_cursor_find that misses leaves the cursor nil (`Database.Cursor.Find`). No test
  looks at the cursor after a missed find.
- HAM_DUPLICATE_INSERT_BEFORE and _AFTER from a cursor that is not on the key act as
  _FIRST and _LAST (`Store.InsertInto`, through its duplicate slot).
- A database erase of a key with duplicates removes all of them (`Database.Db.Erase`).
- PREVIOUS from a nil cursor acts as LAST, and a directed move that lands nowhere leaves
  the cursor nil (`Store.MoveFrom`).
- An exact find of a key with duplicates returns duplicate 0 (`Find.FindIn`).
- HAM_DUPLICATE without a position adds the new duplicate behind the last one
  (`Store.InsertInto`).

## Model

| member | source | states |
|---|---|---|
| KeyCompare.CompareU32 | unittests/hamsterdb.cpp:451-477 | the word loop over min(lhs_length, rhs_length)/4 words, followed by the length tie-break, returns exactly Compare(lhs, rhs), and the result is -1, 0 or +1 |
| KeyCompare.PrefixCompareU32 | unittests/hamsterdb.cpp:425-449 | the same loop over the given prefixes returns PrefixCompare(lhs, rhs); the real lengths are accepted and never read |
| KeyCompare.WordVerdictFirstDifference | unittests/hamsterdb.cpp:439-447 | the loop answers 0 exactly when all common words agree; otherwise some index i has equal words before it, different words at it, and the answer is -1 exactly when lhs[i] < rhs[i] |
| KeyCompare.WordVerdictAntisymmetric | unittests/hamsterdb.cpp:463-471 | swapping the two word sequences negates the loop's answer |
| KeyCompare.WordVerdictExtends | unittests/hamsterdb.cpp:439-447 | a decision the loop reaches on prefixes of two word sequences is its decision on the whole sequences |
| KeyCompare.CompareZeroIffEqual | unittests/hamsterdb.cpp:451-477 | the comparator returns 0 exactly on equal keys (same length, same words) |
| KeyCompare.CompareAntisymmetric | unittests/hamsterdb.cpp:451-477 | Compare(a, b) == -Compare(b, a), and the result is -1, 0 or +1 |
| KeyCompare.CompareTail | unittests/hamsterdb.cpp:463-471 | when the first words agree, the comparison of the keys equals the comparison of the keys without them |
| KeyCompare.LessTransitive | unittests/hamsterdb.cpp:451-477 | a < b and b < c imply a < c |
| KeyCompare.LessTotal | unittests/hamsterdb.cpp:451-477 | two distinct keys are ordered one way and not the other, and no key is below itself |
| KeyCompare.LessEqAntisymmetric | unittests/hamsterdb.cpp:451-477 | a <= b and b <= a imply a == b |
| KeyCompare.PrefixCompareSound | unittests/hamsterdb.cpp:425-449 | a decided prefix answer (-1 or +1) is the full comparator's answer on any keys that extend those prefixes |
| KeyCompare.PrefixCompareAgrees | unittests/hamsterdb.cpp:425-449 | on full keys the prefix comparator answers -1/+1 exactly when the word loop does; it asks for the full keys exactly when all common words agree, and it never answers 0 |
| KeyCompare.CompareDecidedByFirstDifference | unittests/hamsterdb.cpp:463-470 | the first differing common word decides: -1 when the lhs word is smaller, +1 otherwise |
| KeyCompare.CompareCommonWordsEqual | unittests/hamsterdb.cpp:472-476 | when all common words agree, the shorter key is less and equal lengths give 0 |
| KeyCompare.CompareByFirstWord | unittests/hamsterdb.cpp:451-477 | keys of one length that differ at most in their first word are ordered by that signed word |
| Codes.U32RoundTrip | unittests/hamsterdb.cpp:1510-1514 | the four bytes of a 32-bit value read back as that value |
| Entries.CountBelow | unittests/hamsterdb.cpp:1014-1041 | the number of stored keys below the query; those keys are exactly the entries before that index |
| Entries.InsertNew | unittests/hamsterdb.cpp:1510-1516 | adding an absent key keeps the content sorted, adds one entry, stores the record as the key's only record and leaves every other key's records alone |
| Entries.SetRecords | unittests/hamsterdb.cpp:1397-1400 | replacing a present key's records keeps the content well formed and leaves the keys and every other key's records alone |
| Entries.EraseKey | unittests/hamsterdb.cpp:1367 | erasing a present key removes it with all its records, and no other key changes |
| Entries.InsertAt | unittests/hamsterdb.cpp:1623-1630 | a duplicate list with one record placed at a slot: the records before the slot are kept, the records after it shift by one |
| Entries.RemoveAt | unittests/hamsterdb.cpp:1716-1721 | a duplicate list without the record at a slot, the others in their order |
| Entries.RecordCountWithoutDuplicates | unittests/hamsterdb.cpp:1632-1643 | without duplicates the record count is the key count |
| Entries.RecordCountInsertNew | unittests/hamsterdb.cpp:1613-1619 | a new key adds one record |
| Entries.RecordCountSetRecords | unittests/hamsterdb.cpp:1623-1630 | replacing a key's records changes the count by the difference in their numbers |
| Entries.RecordCountEraseKey | unittests/hamsterdb.cpp:1367 | erasing a key removes all of its records from the count |
| Entries.LookupDetermines | unittests/hamsterdb.cpp:1386-1440 | two well-formed contents that answer every lookup alike are equal |
| Find.FindIn | unittests/hamsterdb.cpp:684-761 | a find returns Ok or KEY_NOT_FOUND. A miss leaves the caller's key as the query, with no record and sign 0. A hit returns a stored key with its first record and sign Compare(found, query). Sign 0 happens only on an exact hit the mode accepts, -1 only with LT set and a key below, +1 only with GT set and a key above |
| Find.NearestUnique | unittests/hamsterdb.cpp:694-713 | each side of the query has at most one nearest stored key |
| Find.ExactMatchMeaning | unittests/hamsterdb.cpp:684-691 | EXACT and mode 0 succeed exactly when the key is stored, and then return it with its first record and sign 0 |
| Find.LtMatchMeaning | unittests/hamsterdb.cpp:694-702 | LT succeeds exactly when some key is below the query, and returns the greatest such key with sign -1 |
| Find.GtMatchMeaning | unittests/hamsterdb.cpp:705-713 | GT succeeds exactly when some key is above the query, and returns the smallest such key with sign +1 |
| Find.LeqMatchMeaning | unittests/hamsterdb.cpp:716-724 | LEQ succeeds exactly when the key is stored or some key is below; it returns the key itself with sign 0, or else the greatest key below with sign -1 |
| Find.GeqMatchMeaning | unittests/hamsterdb.cpp:727-735 | GEQ succeeds exactly when the key is stored or some key is above; it returns the key itself with sign 0, or else the smallest key above with sign +1 |
| Find.NearMatchMeaning | unittests/hamsterdb.cpp:737-748 | NEAR succeeds exactly when an LEQ or a GEQ candidate exists, which is exactly when the store is not empty; it returns the key itself or a nearest neighbour |
| Find.LtOrGtMatchMeaning | unittests/hamsterdb.cpp:750-761 | LT\|GT succeeds exactly when an LT or a GT candidate exists, never returns the key itself, and returns a nearest neighbour |
| Find.EmptyStoreMisses | unittests/hamsterdb.cpp:808-818 | on an empty store every find mode returns KEY_NOT_FOUND, leaves the key untouched and returns no record |
| Flags.CheckInsert | unittests/hamsterdb.cpp:1080-1122 | an insert is accepted if and only if: the key and record carry no unknown flag bits; APPEND and PREPEND are not combined, and come only through a cursor; a duplicate request comes without OVERWRITE and on a database with duplicates; a duplicate position comes only through a cursor. Any other call is INV_PARAMETER |
| Flags.HintsOnlyOnCursorInsert | unittests/hamsterdb.cpp:1685-1744 | for every flag combination carrying HINT_APPEND or HINT_PREPEND, a database insert, a find, a move and an erase are INV_PARAMETER, while a cursor insert with one hint and otherwise known flags is accepted |
| Flags.RecoveryExcludesDirectAccess | unittests/hamsterdb.cpp:1746-1871 | joins the recovery rule of 1484-1490 with the direct-access rule: an environment that CheckEnvCreate accepts with recovery is on file and refuses direct access, as the file environment of 1828-1871 does; an in-memory one, created without recovery, grants it, as at 1746-1778 |
| Flags.CheckEnvCreate | unittests/hamsterdb.cpp:1484-1490 | recovery combined with in-memory is INV_PARAMETER; otherwise an explicit page size must be accepted or the call is INV_PAGESIZE. An accepted explicit page size is a multiple of 1024 and at least 1024, and an odd multiple of 1024 other than 1024 is never accepted |
| Flags.PageSizeShape | unittests/hamsterdb.cpp:348 | an accepted page size is a multiple of 1024 and at least 1024; odd multiples of 1024 other than 1024 are refused |
| Flags.PageSizeCases | unittests/hamsterdb.cpp:323-366 | 512 and 3072 are refused; 1024, 2048 and 4096 (and the 32K, 64K and 128K the tests configure) are accepted; recovery with in-memory is refused, recovery on a file is accepted; 512 is INV_PAGESIZE |
| Flags.InsertFlagCases | unittests/hamsterdb.cpp:1080-1143 | the verdicts of CheckInsert on each flag combination that insertTest, insertDuplicateTest and hintingTest try; insertDuplicateTest (1124-1143) is not in the registered test list (67-125), so its assertions give intent only |
| Positions.FirstPos | unittests/hamsterdb.cpp:1280-1281 | FIRST is nil exactly on an empty store; otherwise it is the first duplicate of the smallest key |
| Positions.LastPos | unittests/hamsterdb.cpp:1282-1283 | LAST is nil exactly on an empty store; otherwise it is the last duplicate of the largest key |
| Positions.NextPos | unittests/hamsterdb.cpp:898-915 | NEXT goes to the next duplicate of the key, else to the first duplicate of the smallest larger key; it is nil exactly from the last duplicate of the largest key |
| Positions.PrevPos | unittests/hamsterdb.cpp:1286-1287 | PREVIOUS goes to the previous duplicate of the key, else to the last duplicate of the largest smaller key; it is nil exactly from the first duplicate of the smallest key |
| Positions.FirstInOrder | unittests/hamsterdb.cpp:1280-1281 | FIRST is record number 0 |
| Positions.LastInOrder | unittests/hamsterdb.cpp:1282-1283 | LAST is the record with the highest number, and nil on an empty store |
| Positions.NextInOrder | unittests/hamsterdb.cpp:898-915 | NEXT goes to the record numbered one higher, and fails after the last |
| Positions.PrevInOrder | unittests/hamsterdb.cpp:1286-1287 | PREVIOUS goes to the record numbered one lower, and fails before the first |
| Positions.WalkVisitsAll | unittests/hamsterdb.cpp:898-915 | n NEXT moves from a nil cursor reach record number n - 1; one more move than there are records gives nil |
| Positions.WalkSingles | unittests/hamsterdb.cpp:898-915 | without duplicates, the (i+1)-th NEXT from nil reaches the i-th key, and the move after the last key finds nothing |
| Positions.CursorAfterInsertNew | unittests/hamsterdb.cpp:527-555 | inserting a new key leaves every cursor valid and reading the same record |
| Positions.CursorAfterKeyErase | unittests/hamsterdb.cpp:1364-1369 | erasing a key makes exactly the cursors on it nil; the others still read the same record |
| Positions.CursorAfterSetRecords | unittests/hamsterdb.cpp:1397-1400 | replacing a key's records with as many keeps every cursor valid; cursors elsewhere read what they read |
| Positions.CursorAfterDupInsert | unittests/hamsterdb.cpp:1623-1630 | after a duplicate is inserted, every cursor still stands on, and reads, the record it read before |
| Positions.CursorAfterDupErase | unittests/hamsterdb.cpp:1716-1721 | after one of several duplicates is removed, exactly the cursors on it are nil, and the others read what they read |
| Store.InsertInto | unittests/hamsterdb.cpp:1080-1143 | an absent key is added with the record as its only record; OVERWRITE replaces the first record of a present key; a duplicate request puts the record at the slot DupSlot gives (FIRST in front, LAST or no position behind the last duplicate, BEFORE and AFTER beside the inserting cursor's duplicate); a present key without either is refused with DuplicateKey and nothing changes. No other key changes, the record count grows by one except on refusal or overwrite, and the inserting cursor is left on the new record |
| Store.InsertKeepsCursors | unittests/hamsterdb.cpp:527-555 | after an insert every other cursor still reads the record it read, except that a cursor on an overwritten record reads the new one |
| Store.AppendKeepsCursors | unittests/hamsterdb.cpp:1510-1516 | a database insert, which takes no position, moves no cursor |
| Store.InsertThenFind | unittests/hamsterdb.cpp:1386-1440 | an exact find right after a successful insert or overwrite returns the inserted record; after a duplicate insert it returns the first duplicate |
| Store.ExactFindsStored | unittests/hamsterdb.cpp:1517-1523 | an exact find of a stored key returns its first record with sign 0; of an absent key, KEY_NOT_FOUND |
| Store.OverwriteAt | unittests/hamsterdb.cpp:1292-1304 | overwriting through a cursor replaces exactly the record under it; keys, counts and other records stay |
| Store.OverwriteKeepsCursors | unittests/hamsterdb.cpp:1292-1304 | after an overwrite every cursor reads what it read, except one on the overwritten record, which reads the new one |
| Store.EraseAt | unittests/hamsterdb.cpp:1716-1721 | a cursor erase removes exactly the record under it, and the key with it when that was its only record; the record count drops by one |
| Store.EraseKeepsCursors | unittests/hamsterdb.cpp:1716-1721 | after a cursor erase, exactly the cursors on the erased record are nil, and the others read what they read |
| Store.EraseKeyKeepsCursors | unittests/hamsterdb.cpp:1364-1369 | a database erase removes all the key's records, makes exactly the cursors on that key nil, and the others read what they read |
| Store.NoDuplicatesByLookup | unittests/hamsterdb.cpp:1632-1639 | a content has no duplicates exactly when every present key has one record |
| Store.NoDuplicatesKept | unittests/hamsterdb.cpp:1510-1543 | a change that leaves every other key alone and gives the changed key at most one record keeps the content free of duplicates |
| Store.InsertKeepsNoDuplicates | unittests/hamsterdb.cpp:1510-1543 | an insert that asks for no duplicate keeps the content free of duplicates |
| Store.EraseKeepsNoDuplicates | unittests/hamsterdb.cpp:1367 | erasing a key keeps the content free of duplicates |
| Store.OverwriteKeepsNoDuplicates | unittests/hamsterdb.cpp:1386-1440 | overwriting a record keeps the content free of duplicates |
| Store.EraseAtKeepsNoDuplicates | unittests/hamsterdb.cpp:1716-1721 | erasing the record under a cursor keeps the content free of duplicates |
| Store.MoveFrom | unittests/hamsterdb.cpp:1269-1290 | a move without a direction on a nil cursor is CURSOR_IS_NIL; FIRST, LAST, NEXT and PREVIOUS go to the record numbered 0, the last, one higher and one lower, with NEXT from nil acting as FIRST and PREVIOUS from nil as LAST; a move with nothing to land on is KEY_NOT_FOUND and leaves the cursor nil |
| Store.NeighboursInOrder | unittests/hamsterdb.cpp:898-915 | NEXT and PREVIOUS from a record go to the records numbered one higher and one lower |
| Store.MoveInEmpty | unittests/hamsterdb.cpp:1280-1287 | on an empty store every directed move is KEY_NOT_FOUND |
| Store.NextThenPrevious | unittests/hamsterdb.cpp:898-915 | NEXT then PREVIOUS returns to the starting record whenever NEXT lands |
| Store.PreviousThenNext | unittests/hamsterdb.cpp:898-915 | PREVIOUS then NEXT returns to the starting record whenever PREVIOUS lands |
| Store.KeyCount | unittests/hamsterdb.cpp:1632-1643 | the default mode gives the number n such that the cursor numbering reaches record m exactly when m < n; FAST_ESTIMATE and SKIP_DUPLICATES give the number of distinct keys stored |
| Store.CountModesAgree | unittests/hamsterdb.cpp:1632-1643 | without duplicates all three count modes agree |
| Database.Db.constructor | unittests/hamsterdb.cpp:1609-1610 | a newly created database is empty, has no cursors and carries its duplicates and in-memory settings |
| Database.Db.Find | unittests/hamsterdb.cpp:382-396 | ham_db_find refuses hints, and direct access outside memory, with INV_PARAMETER; otherwise it returns FindIn on the content |
| Database.Db.Insert | unittests/hamsterdb.cpp:1080-1122 | ham_db_insert returns INV_PARAMETER and changes nothing when CheckInsert refuses; otherwise it applies InsertInto without a cursor and moves no cursor |
| Database.Db.Erase | unittests/hamsterdb.cpp:1159-1171 | ham_db_erase refuses hints; an absent key is KEY_NOT_FOUND with nothing changed; otherwise the key goes with all its duplicates and exactly the cursors on it become nil |
| Database.Db.GetKeyCount | unittests/hamsterdb.cpp:1632-1643 | ham_db_get_key_count returns KeyCount for the mode, and the number of keys when duplicates are disabled |
| Database.Cursor.constructor | unittests/hamsterdb.cpp:1274 | ham_cursor_create gives a nil cursor registered with its database; the content is unchanged |
| Database.Cursor.Clone | unittests/hamsterdb.cpp:1260-1267 | ham_cursor_clone gives a new registered cursor on the same record |
| Database.Cursor.Close | unittests/hamsterdb.cpp:1289 | ham_cursor_close deregisters the cursor; the content is unchanged |
| Database.Cursor.Move | unittests/hamsterdb.cpp:1269-1290 | ham_cursor_move applies MoveFrom and reads the key and record it lands on; hints, and direct access outside memory, are INV_PARAMETER and leave the cursor where it was |
| Database.Cursor.Find | unittests/hamsterdb.cpp:684-761 | ham_cursor_find returns FindIn on the content and leaves the cursor on the key found, or nil on a miss |
| Database.Cursor.Insert | unittests/hamsterdb.cpp:1612-1619 | ham_cursor_insert applies InsertInto relative to this cursor; on success this cursor stands on the new record and the others are repositioned; a refusal changes nothing |
| Database.Cursor.Overwrite | unittests/hamsterdb.cpp:1292-1304 | ham_cursor_overwrite replaces the record under the cursor, and is CURSOR_IS_NIL on a nil cursor |
| Database.Cursor.Erase | unittests/hamsterdb.cpp:1716-1721 | ham_cursor_erase removes the record under the cursor, after which this cursor and any other on it are nil; it is CURSOR_IS_NIL on a nil cursor and INV_PARAMETER with a hint |
| NearFindTest.CompareTK | unittests/hamsterdb.cpp:774-778 | 6554-byte test keys with zero surplus words are ordered by their first word |
| NearFindTest.TestRecordValue | unittests/hamsterdb.cpp:779-782 | rec_val1 reads back from the first four bytes of the 516-byte record |
| NearFindTest.FirstPut | unittests/hamsterdb.cpp:826-828 | inserting 1 into the empty database succeeds and stores it |
| NearFindTest.SecondPut | unittests/hamsterdb.cpp:882-896 | inserting 7 after 1 succeeds and gives [1, 7] |
| NearFindTest.ThirdPut | unittests/hamsterdb.cpp:882-896 | inserting 3 into [1, 7] succeeds and gives [1, 3, 7] |
| NearFindTest.InsertsGiveLayout | unittests/hamsterdb.cpp:826-896 | the three inserts succeed and leave 1 (1000), 3 (2001) and 7 (2000) in key order |
| NearFindTest.OneKeyFinds | unittests/hamsterdb.cpp:833-876 | with key 1 alone: EXACT and NEAR of 1 return it with sign 0; NEAR of 0 returns it with +1, and NEAR of 3 with -1 |
| NearFindTest.LayoutWalk | unittests/hamsterdb.cpp:898-915 | NEXT from nil visits 1, 3 and 7, and the fourth move finds nothing |
| NearFindTest.LayoutFind | unittests/hamsterdb.cpp:1014-1041 | on {1, 3, 7}, every find mode and every value gives the answer worked out on the integers |
| NearFindTest.LeqTableHolds | unittests/hamsterdb.cpp:947-957 | LEQ on 0..8 gives exactly the srch_res_leq1 rows (status, key value, sign, rec_val1 or 666) |
| NearFindTest.LtTableHolds | unittests/hamsterdb.cpp:958-968 | LT on 0..8 gives exactly the srch_res_lt1 rows |
| NearFindTest.GeqTableHolds | unittests/hamsterdb.cpp:969-979 | GEQ on 0..8 gives exactly the srch_res_geq1 rows |
| NearFindTest.GtTableHolds | unittests/hamsterdb.cpp:980-990 | GT on 0..8 gives exactly the srch_res_gt1 rows |
| NearFindTest.ExactTableHolds | unittests/hamsterdb.cpp:991-1001 | EXACT on 0..8 gives exactly the srch_res_eq1 rows |
| NearFindTest.DefaultTableHolds | unittests/hamsterdb.cpp:1009-1010 | mode 0 on 0..8 gives exactly the srch_res_eq1 rows |
| NearFindTest.PutAmong | unittests/hamsterdb.cpp:1056 | a plain insert of a value between two neighbours succeeds and splices it in between them |
| NearFindTest.StagePut | unittests/hamsterdb.cpp:1045-1057 | round i inserts vals[3 + i] with rec_val1 3000 + i, succeeds and gives the next stage |
| NearFindTest.LayoutIsStage | unittests/hamsterdb.cpp:1043-1045 | the second loop starts from {1, 3, 7} |
| NearFindTest.InsertMore | unittests/hamsterdb.cpp:1043-1057 | the six inserts all succeed, leaving 1, 2, 3, 7, 9, 14, 42, 55, 660 together with their rec_val1 values |
| NearFindTest.BuiltWalk | unittests/hamsterdb.cpp:1059-1075 | on a built store, the (i+1)-th NEXT from nil reaches the i-th value with its own record, and the move after the last finds nothing |
| NearFindTest.CollectionWalk | unittests/hamsterdb.cpp:1059-1075 | NEXT from nil visits verify_vals2 in order, each with the rec_val1 it was inserted with (none of them 0), and the tenth move is KEY_NOT_FOUND |
| NearFindStressTest.CompareSK | unittests/hamsterdb.cpp:487-492 | 16-byte test keys are ordered by their signed val1 |
| NearFindStressTest.SRValue | unittests/hamsterdb.cpp:493-496 | val1 reads back from the 64-byte record |
| NearFindStressTest.EvenStore | unittests/hamsterdb.cpp:523-555 | after n rounds the content is key 2i with record 100i, for i < n, and is well formed |
| NearFindStressTest.InsertNext | unittests/hamsterdb.cpp:545 | the cursor insert of the next key succeeds, appends it and leaves the cursor on it |
| NearFindStressTest.FillDatabase | unittests/hamsterdb.cpp:527-556 | n cursor inserts into a fresh database without duplicates all return 0 and leave EvenStore(n) |
| NearFindStressTest.EvenWalk | unittests/hamsterdb.cpp:566-581 | the i-th NEXT from nil reaches key 2i with record 100i, and the move after the last is KEY_NOT_FOUND |
| NearFindStressTest.CRem2 | unittests/hamsterdb.cpp:648 | C's `% 2` truncates toward zero: the remainder is in (-2, 2), takes the sign of the dividend and leaves an even difference |
| NearFindStressTest.CParity | unittests/hamsterdb.cpp:648 | abs(x % 2) in C is the parity of x |
| NearFindStressTest.AbsParity | unittests/hamsterdb.cpp:654 | abs(x) % 2 is the parity of x |
| NearFindStressTest.StepDown | unittests/hamsterdb.cpp:649-650 | `while (v > ub) v -= 2` ends at min(v, ub) |
| NearFindStressTest.StepUp | unittests/hamsterdb.cpp:661-662 | `while (v < lb) v += 2` ends at max(v, lb) |
| NearFindStressTest.KeysBelow | unittests/hamsterdb.cpp:648-658 | le_keyval and lt_keyval are the greatest even values at and below the query, clamped to the upper bound |
| NearFindStressTest.KeysAbove | unittests/hamsterdb.cpp:660-670 | ge_keyval and gt_keyval are the least even values at and above the query, clamped to the lower bound |
| NearFindStressTest.ExpectedFor | unittests/hamsterdb.cpp:644-670 | the test's expectation computation equals the closed form Expect |
| NearFindStressTest.Landing | unittests/hamsterdb.cpp:644-670 | the query hits a stored key exactly when it is even and in range; the nearest stored keys below and above are the test's lt_keyval and gt_keyval exactly when those are in range |
| NearFindStressTest.StoreAnswers | unittests/hamsterdb.cpp:684-761 | every find on the filled store returns, in terms of the query value alone, the found flag and key value that StoreAnswer gives |
| NearFindStressTest.AnswerHit | unittests/hamsterdb.cpp:684-691 | a stored query with an exact-accepting mode returns its own entry |
| NearFindStressTest.AnswerBelow | unittests/hamsterdb.cpp:694-702 | otherwise, with LT set and a key below, the entry just below |
| NearFindStressTest.AnswerAbove | unittests/hamsterdb.cpp:705-713 | otherwise, with GT set and a key above, the entry just above |
| NearFindStressTest.AnswerMiss | unittests/hamsterdb.cpp:698-700 | otherwise KEY_NOT_FOUND, with the key untouched and no record |
| NearFindStressTest.ExactFindMeetsExpectation | unittests/hamsterdb.cpp:684-691 | mode 0 succeeds exactly when eq_expect holds; the key stays the query, and the record is 50 times the key |
| NearFindStressTest.LtFindMeetsExpectation | unittests/hamsterdb.cpp:694-702 | LT succeeds exactly when lt_expect holds and returns lt_keyval with record 50 × lt_keyval; otherwise the key is untouched |
| NearFindStressTest.GtFindMeetsExpectation | unittests/hamsterdb.cpp:705-713 | GT succeeds exactly when gt_expect holds and returns gt_keyval with record 50 × gt_keyval; otherwise the key is untouched |
| NearFindStressTest.LeqFindMeetsExpectation | unittests/hamsterdb.cpp:716-724 | LEQ succeeds exactly when le_expect holds and returns le_keyval with record 50 × le_keyval; otherwise the key is untouched |
| NearFindStressTest.GeqFindMeetsExpectation | unittests/hamsterdb.cpp:727-735 | GEQ succeeds exactly when ge_expect holds and returns ge_keyval with record 50 × ge_keyval; otherwise the key is untouched |
| NearFindStressTest.NearFindMeetsExpectation | unittests/hamsterdb.cpp:737-748 | NEAR succeeds exactly when le_expect or ge_expect holds, and returns le_keyval (or ge_keyval when le_keyval is out of range) with the matching record |
| NearFindStressTest.LtOrGtFindMeetsExpectation | unittests/hamsterdb.cpp:750-761 | LT\|GT succeeds exactly when lt_expect or gt_expect holds, and returns lt_keyval (or gt_keyval when lt_keyval is out of range) with the matching record |
| ApiScenarios.CompareIntKey | unittests/hamsterdb.cpp:1510-1514 | 4-byte integer keys are ordered by their value |
| ApiScenarios.Run | unittests/hamsterdb.cpp:1510-1543 | the content after the keys lo..hi-1 are inserted: key v with the four bytes of v as its record, in order |
| ApiScenarios.RunAppend | unittests/hamsterdb.cpp:1510-1516 | inserting the next key above the run succeeds and appends it |
| ApiScenarios.RunPrepend | unittests/hamsterdb.cpp:1530-1536 | inserting the next key below the run succeeds and puts it in front |
| ApiScenarios.RunFinds | unittests/hamsterdb.cpp:1517-1523 | every key of the run is found with its own bytes as the record |
| ApiScenarios.CursorMoveOnEmpty | unittests/hamsterdb.cpp:1269-1290 | on an empty database a fresh cursor's move without a direction is CURSOR_IS_NIL, and FIRST, LAST, NEXT and PREVIOUS are KEY_NOT_FOUND |
| ApiScenarios.CursorOnErasedKey | unittests/hamsterdb.cpp:1349-1372 | both inserts, the cursor find of 1 and the erase of 1 succeed; the cursor's read afterwards is CURSOR_IS_NIL |
| ApiScenarios.EmptyLookups | unittests/hamsterdb.cpp:394-395 | on an empty database a find and an erase of the empty key (a zeroed ham_key_t, of size 0) are KEY_NOT_FOUND |
| ApiScenarios.OverwriteSingle | unittests/hamsterdb.cpp:1397-1400 | OVERWRITE of the one key replaces its record, and the next find returns the new record |
| ApiScenarios.InsertSingle | unittests/hamsterdb.cpp:1386-1390 | the first insert into an empty store succeeds and stores the record under the key |
| ApiScenarios.ReplaceRecord | unittests/hamsterdb.cpp:1374-1441 | the six inserts and finds all succeed, each find returning the record just written: 32, 7, 32, 0, 7 and 0 bytes |
| ApiScenarios.ReadAscending | unittests/hamsterdb.cpp:1517-1523 | reading the run in ascending order finds every key with its own bytes |
| ApiScenarios.ReadDescending | unittests/hamsterdb.cpp:1537-1543 | reading the run in descending order finds every key with its own bytes |
| ApiScenarios.InsertAscending | unittests/hamsterdb.cpp:1506-1524 | n inserts in ascending order all succeed, and each key is then found with its own bytes |
| ApiScenarios.InsertDescending | unittests/hamsterdb.cpp:1526-1544 | n + 1 inserts in descending order all succeed, and each key is then found with its own bytes |
| ApiScenarios.CountWithDuplicates | unittests/hamsterdb.cpp:1596-1644 | all inserts succeed; FAST_ESTIMATE and SKIP_DUPLICATES count 4000 and the default mode counts 4010 |
| ApiScenarios.InsertArguments | unittests/hamsterdb.cpp:1088-1121 | the statuses of insertTest's calls that the model covers, in order |
| ApiScenarios.DuplicateArguments | unittests/hamsterdb.cpp:1124-1143 | DUPLICATE\|OVERWRITE is refused everywhere, and DUPLICATE is refused without enabled duplicates and accepted with them; insertDuplicateTest is not in the registered test list (67-125), so these assertions give intent only |
| ApiScenarios.HintArguments | unittests/hamsterdb.cpp:1685-1744 | the fourteen statuses of hintingTest: only the single-hint cursor insert succeeds |
| ApiScenarios.DirectAccess | unittests/hamsterdb.cpp:1746-1778 | in memory, the insert, the database find, the cursor find and the cursor move succeed, and the reads all return "hello" |
| ApiScenarios.DirectAccessRefused | unittests/hamsterdb.cpp:1828-1871 | on a file database, with and without transactions, the insert succeeds and the direct-access database find, cursor find and move are INV_PARAMETER |

## Left out

- Environment files, I/O errors, file locking, header and version checks, the journal
  and the log directory are not modelled. They are OS and engine internals that this
  file does not contain. Of environment creation only the recovery/in-memory rule and
  the page-size rule are kept (`Flags.CheckEnvCreate`).
- Calls with a null database, cursor, key or record pointer (for example lines 1086-1087,
  1108-1111, 1276-1277 and 1312-1315) are not modelled. Every argument of the model is a
  value.
- The B-tree, its pages, splits and cache, the KEYSIZE and CACHESIZE parameters, and
  `ham_check_integrity` are not modelled. The model keeps only the ordered content that
  every checked result depends on. The page sizes the tests configure matter only
  through `Flags.PageSizeAccepted`.
- Keys are always compared with `my_compare_func_u32`, including in the scenarios whose
  tests use the library's default byte-wise comparison. The keys those tests use (4-byte
  integers, the empty key of a zeroed ham_key_t) are all distinct under both orders, they are never
  traversed, and only exact finds are made on them.
- Transactions are not modelled. The transactional environment of
  negativeDirectAccessTest is treated as a second file environment.
- Rounds B to E of nearFindStressTest exist only as a comment (lines 585-626) and are not
  modelled. For the debug size 20000, the lemmas of `NearFindStressTest` are stated for
  every size n up to 50000.
- Find.NearMatchMeaning: it does not say which neighbour NEAR prefers. `Find.FindIn` takes
  the one below, and the test at 737-748 accepts either. The `srch_res_any1` table
  (lines 932-946) is never checked, because the loop at line 1014 starts at its second
  table, so the model states nothing about it.
- Store.InsertInto: a plain insert of a key already stored returns DuplicateKey and
  changes nothing. No test in this file exercises that case.
- Store.InsertInto: HAM_OVERWRITE on a key with several duplicates replaces duplicate 0.
  No test in this file overwrites a key that has duplicates, so this is the model's choice.
- Store.InsertInto: HAM_DUPLICATE_INSERT_BEFORE and _AFTER from a cursor that is not on
  the key act as _FIRST and _LAST. No test in this file makes such a call.
- Database.Cursor.Find: a miss leaves the cursor nil. No test in this file looks at the
  cursor after a missed find.
- Database.Db.Erase: erasing a key that holds duplicates removes every one of them. The
  only successful database erase in this file (line 1367) is of a key without
  duplicates, so this is the model's choice.
- Store.MoveFrom: PREVIOUS from a nil cursor on a non-empty store acts as LAST, and a
  FIRST, LAST, NEXT or PREVIOUS that lands on no record leaves the cursor nil.
  cursorMoveTest makes PREVIOUS only on an empty database (lines 1286-1287), and no test
  looks at the cursor after a failed move.
- Find.FindIn: an exact find of a key with duplicates returns its duplicate 0. No test in
  this file finds a key that has duplicates; recordCountTest (lines 1623-1643) only
  counts them.
- Store.InsertInto: HAM_DUPLICATE without a position adds the new duplicate behind the
  last one. No test in this file reads the duplicates back in order.
- Flags.CheckAccess: HAM_HINT_APPEND and HAM_HINT_PREPEND on find and erase are one
  boolean `hint`, since both are refused alike.
- Record-pointer identity under HAM_DIRECT_ACCESS (smallDirectAccessTest) is not
  modelled. Direct access is only the rule about where it is allowed.
- cursorInsertAppendTest, negativeCursorInsertAppendTest and the tests of the stub
  comparators, the setters, strerror, calloc, context data, version and license are
  outside the modelled core.
- A successful cursor overwrite, clone or erase is not exercised by this file: its tests
  of those calls pass a null argument (lines 1260-1267, 1292-1304, 1339-1342) or a
  refused hint (lines 1716-1721). The effects the model gives them are its own choice:
  an overwrite replaces the cursor's record, a clone stands on the same record, and an
  erase removes the cursor's record and leaves the cursor nil.
