# Verified models of contrib/bloom, contrib/hstore, contrib/amcheck and contrib/cube

This project models four extension modules of PostgreSQL in Dafny and proves
what they are built to guarantee.

**contrib/bloom** (`bloom_*.dfy`, `bits.dfy`). The random generator behind the
signatures, in C's truncating 32-bit arithmetic; signatures as arrays of 16-bit
words; data pages with their byte accounting; the index build; and a state machine
in which any number of inserters, vacuums and scans interleave, one buffer-locked
action per step, with no assumption on the heap pointers they carry. The main results
are conservation of tuples in every run, no dead tuple after a vacuum, no false
negatives of a scan, no insert that is lost on the way, a bound on the steps of every
process, and no deadlock.

**contrib/hstore** (`hstore_*.dfy`). The packed form with its end offsets and flags,
and every operation on it as the code performs it: builders that write into an
allocation of computed size, sorting and in-place de-duplication, binary search with
a carried bound, merge loops, the comparison, the text reader and printer, the
in-place upgrade of the old format, and the GiST signature tree. A well-formed value
is the packed form of a strictly sorted list of pairs; each operation is proved to
give a well-formed value of the right mapping. The reader accepts exactly the texts of
a small grammar, and every text has one meaning.

**contrib/amcheck** (`amcheck_*.dfy`). The comparison of keys with truncated columns,
the checks of a page, and the walk over levels of an arbitrary, possibly corrupt page
graph. What acceptance by amcheck implies and what it does not, and that every sound
index is accepted.

**contrib/cube** (`cube_*.dfy`). Boxes of any dimension, their operators and
distances over real numbers, the GiST support, and what every tree built with it
satisfies.

`gist_support.dfy` holds what the two GiST models share, `wrappers.dfy` an option type.

Results where the code falls short of the expected property, each with a concrete
input and the exact condition:

* Two of the 2^32 seeds put the generator in its dead state, and then the bit
  index is -1 (`BloomRand.BitIndexInRangeIff`); every column has two hash values
  that lead there (`BloomSign.DeadHashes`).
* The quick test of the hstore upgrade misreads a short old value whose leading null
  carries a length field of 32768 or more (`HStoreCompat.UpgradeKeepsOld`,
  `HStoreCompat.StrayLengthExists`).
* A long unflagged new hstore value that also passes the test for the old format is
  rewritten, which always changes its pairs (`HStoreCompat.UpgradeKeepsNewIff`,
  `HStoreCompat.AmbiguousExists`).
* Amcheck does not look past a page without real items, so transposed pages around
  one are accepted (`AmcheckLevel.LevelOrder`, `AmcheckLevel.GapAccepted`).
* Amcheck never returns from a level on which it comes to a half-dead page in two
  ways, or to the last item of a page to the right of which is a ring of ignorable
  pages (`AmcheckLevel.NeverReturnsIff`, `AmcheckLevel.HalfDeadLoop`,
  `AmcheckLevel.RingLevel`).
* The comparison of cubes is transitive on boxes of one dimension together with those
  of dimension 0, and on no larger choice of dimensions (`CubeBox.CmpTransitiveIff`,
  `CubeBox.CmpCycle`).
* A contained-by search over cubes can skip a matching box of fewer dimensions than
  the query (`CubeTree.ContainedByExactIff`, `CubeTree.ContainedByMisses`).

Conventions: integers are unbounded and machine widths are written out where the code
depends on them; allocation beyond 2^30 - 1 bytes is an error result; errors are
`None`, a failure constructor or `false`; hash and checksum functions are parameters.

## Model

| member | source | states |
|---|---|---|
| `BloomRand.Generator.MySrand` | contrib/bloom/blutils.c:244-250 | the state after seeding lies strictly between -(2^31 - 1) and 2^31 - 1; it is in the range [1, 2^31 - 2] that the code aims at exactly for seeds below 2^31 and for 0x80000002, and it is the dead state 0 exactly for 0xFFFFFFFF and 0x80000001 |
| `BloomRand.Generator.MyRand` | contrib/bloom/blutils.c:217-242 | the stored state becomes exactly 16807 times the old one modulo 2^31 - 1, lies in [0, 2^31 - 2], and the draw is one less |
| `BloomRand.SchrageBounds` | contrib/bloom/blutils.c:234-239 | for every 32-bit state both products of Schrage's method fit in 32 bits and their difference is the product modulo 2^31 - 1 after at most one correction |
| `BloomRand.AdvanceZeroIff` | contrib/bloom/blutils.c:234-239 | a step reaches zero exactly from 0 and from plus or minus 2^31 - 1 |
| `BloomRand.SeededRange` | contrib/bloom/blutils.c:244-250 | the same of the seeding function: for which seeds the state is positive, and for which two it is 0 |
| `BloomRand.NthLive` | contrib/bloom/blutils.c:217-242 | from a live state no run of any length leaves [1, 2^31 - 2] |
| `BloomRand.NthDead` | contrib/bloom/blutils.c:217-242 | from the dead state every later state is 0 |
| `BloomRand.NthClosedForm` | contrib/bloom/blutils.c:217-242 | the j-th state is congruent to 16807^j times the first |
| `BloomRand.BitIndexInRangeIff` | contrib/bloom/blutils.c:275-282 | every draw of a seed gives a bit index inside the signature if and only if the seed is not one of the two dead ones, for every number of draws and every length |
| `BloomSign.WordsFor` | contrib/bloom/blutils.c:491 | the configured length in bits is rounded up to the least number of words that hold it |
| `BloomSign.SetBit` | contrib/bloom/blutils.c:30-34 | or-ing one mask into one word adds exactly that bit to the set of bits of the signature |
| `BloomSign.MatchesIffSubset` | contrib/bloom/blscan.c:166-174 | the word-by-word test holds if and only if every bit of the query is a bit of the entry |
| `BloomSign.SignValue` | contrib/bloom/blutils.c:255-284 | the signature gains exactly the bits drawn for the column number and the hash, which do not depend on what it held; no bit is written outside it, and a dead seed is reported with the signature unchanged |
| `BloomSign.DeadHashes` | contrib/bloom/blutils.c:255-284 | every column has exactly two hash values that lead to a dead seed |
| `BloomSign.ColumnBitsIff` | contrib/bloom/blutils.c:218-283 | for a hash with a usable seed, a bit belongs to a column value if and only if it is one of the configured number of draws of its column, each draw in closed form: a power of 16807 times the seed modulo 2^31 - 1, less one, modulo the length of the signature in bits |
| `BloomSign.RowBitsIff` | contrib/bloom/blutils.c:288-307 | a bit is set in the entry of a row if and only if some non-null column sets it |
| `BloomSign.KeyBitsIff` | contrib/bloom/blscan.c:109-135 | a bit is set in the signature of a query if and only if some key sets it |
| `BloomSign.BloomFormTuple` | contrib/bloom/blutils.c:288-307 | the entry carries the heap pointer and exactly the bits of the non-null columns |
| `BloomSign.SignQuery` | contrib/bloom/blscan.c:109-135 | the query signature has exactly the bits of the keys; there are no rows if and only if a null key comes before any key with a dead hash |
| `BloomSign.CheckSign` | contrib/bloom/blscan.c:166-174 | the loop over the words decides inclusion of the bit sets and stops at the first word that fails |
| `BloomSign.SatisfyingRowMatches` | contrib/bloom/blscan.c:109-174 | no false negatives: the entry of a row whose columns equal all the query keys passes the test, for every signature length and bit count |
| `BloomPages.FreeSpaceIffRoom` | contrib/bloom/bloom.h:151-154 | the free space test admits one more tuple exactly below the capacity of the page, for every legal tuple size |
| `BloomPages.PageBuffer.InitPage` | contrib/bloom/blutils.c:402-413 | an initialised page is an empty live page |
| `BloomPages.PageBuffer.AddItem` | contrib/bloom/blutils.c:313-341 | the tuple is appended after the others exactly when there is room, otherwise nothing changes |
| `BloomPages.PageBuffer.TryInsert` | contrib/bloom/blinsert.c:254-257 | a new or deleted page is initialised first, so it always takes the tuple; a live page keeps its tuples |
| `BloomPages.VacuumPartitions` | contrib/bloom/blvacuum.c:85-107 | survivors and removed tuples together are the old tuples, and a tuple survives exactly when its heap pointer is not dead |
| `BloomPages.PageBuffer.Compact` | contrib/bloom/blvacuum.c:85-107 | the two-pointer loop leaves, in place, the surviving tuples in their order, and counts those removed |
| `BloomPages.PageBuffer.Vacuum` | contrib/bloom/blvacuum.c:74-139 | the page becomes the order-preserving filter of its tuples, is marked deleted exactly when none is left, and is listed exactly when it has some tuples and room for more |
| `BloomSafety.InvStep` | contrib/bloom/blinsert.c:198-367 | each of the sixteen steps of inserters, vacuums and scans keeps the invariant: live pages hold between 1 and capacity tuples, deleted ones none, nStart <= nEnd <= list size, listed blocks are data pages, one process at most is in the exclusive metapage section, and inserted tuples equal live plus removed ones |
| `BloomSafety.RunSafe` | contrib/bloom/blinsert.c:230-366 | in every interleaving of any length, from any state of the invariant, the bag of inserted tuples is the bag of live tuples plus the bag that vacuums removed, also when a heap pointer is inserted while a vacuum removes it: reusing or reinitialising a page destroys no tuple |
| `BloomSafety.InvRecycle` | contrib/bloom/blutils.c:348-399 | taking any block that the free space map may offer keeps the invariant, because only new and deleted pages are taken |
| `BloomSafety.InvVacuumMeta` | contrib/bloom/blvacuum.c:146-158 | replacing the list of not full pages by the one a vacuum gathered keeps every listed block a data page |
| `BloomVacuum.VacuumLeavesNoDead` | contrib/bloom/blvacuum.c:58-158 | when a vacuum reaches its metapage rewrite no live tuple anywhere is dead, also on pages added, recycled or filled since it began, provided no dead heap pointer is being inserted when it begins or comes to be while it runs |
| `BloomVacuum.VacuumReports` | contrib/bloom/blvacuum.c:85-158 | the number of removed tuples that a vacuum reports is the number that its own page steps removed in the whole run, whatever ran in between, and with those of the other vacuums they are all that was removed |
| `BloomVacuum.LivingStay` | contrib/bloom/blvacuum.c:58-139 | a tuple whose heap pointer no vacuum, under way or started in the run, was told to be dead is never removed |
| `BloomVacuum.VacuumListsRoom` | contrib/bloom/blvacuum.c:113-158 | after a vacuum whose steps no other step interrupts, the list of pages with room is exactly the undeleted blocks that hold tuples and have room for more, in order, cut off at the number of slots |
| `BloomSafety.ScanComplete` | contrib/bloom/blscan.c:137-187 | a tuple that was live when a scan began, passes the test and is not vacuumed away meanwhile is found whatever ran in between, and every pointer found is that of an inserted tuple that passes |
| `BloomSafety.QueryFindsRow` | contrib/bloom/blscan.c:109-187 | a row that satisfies all query keys and whose entry stays in the index is among the pointers a scan returns, in every interleaving |
| `BloomSafety.InsertNeverStuck` | contrib/bloom/blinsert.c:346-350 | in no reachable state is a listed block uninitialised, and the page an insert allocates always has room: the report of an empty page without room cannot occur |
| `BloomInsert.InsertStep` | contrib/bloom/blinsert.c:226-362 | after every step of its own an insert goes on with its tuple, is aborted, or has ended with exactly that tuple added to the index |
| `BloomInsert.RunBalance` | contrib/bloom/blinsert.c:226-362 | in every run and for every tuple, the inserts asked for and those under way at the start are those that put the tuple into the index, those still under way and those aborted |
| `BloomInsert.NothingIsLost` | contrib/bloom/blinsert.c:226-362 | if no insert of the tuple is under way at either end or was aborted, the tuple is as often in the index or vacuumed away as before and once more for every insert asked for |
| `BloomInsert.PutSomewhere` | contrib/bloom/blinsert.c:226-362 | the step that ends an insert puts its tuple behind those of one block and changes no other block; if the insert held the metapage, the list of pages with room now starts with that block, otherwise the metapage is unchanged |
| `BloomInsert.FastPath` | contrib/bloom/blinsert.c:226-266 | when the metapage is not locked and the first listed page has room, an insert can be done in three steps that leave the metapage unchanged and put the tuple on that page |
| `BloomInsert.NewPageOnlyWhenFull` | contrib/bloom/blinsert.c:278-341 | as long as no vacuum cleans a page meanwhile, an insert goes for a new page only when every page on the list is full |
| `BloomInsert.BoundedWork` | contrib/bloom/blinsert.c:226-362 | a process that does not end takes at most as many steps of its own as its rank falls, however the others interleave; the rank of an insert is at most the number of list slots plus 6, of a vacuum or scan at most the pages still to visit plus 1 |
| `BloomInsert.NoDeadlock` | contrib/bloom/blinsert.c:278-362 | in every state with a process, reached from one whose metapage lock has an owner that holds it, some process can take a step other than aborting, and if the metapage is locked its holder can |
| `BloomBuild.BuildState.BuildCallback` | contrib/bloom/blinsert.c:75-117 | the tuple joins the cached page, or a fresh one after the full page was flushed; the failure report cannot occur |
| `BloomBuild.Build` | contrib/bloom/blinsert.c:122-160 | the pages hold the heap tuples in order, each page is live with between 1 and capacity tuples, and all but the last are full |
| `BloomBuild.BuiltIndexSatisfiesInv` | contrib/bloom/blinsert.c:122-160 | a built index is a state of the invariant, so all results on runs apply to it |
| `BloomBuild.GetBitmap` | contrib/bloom/blscan.c:137-190 | the loop over the pages returns the hits page by page and their number, and a heap pointer is among them if and only if some live page has an entry with it that passes the match test |
| `BloomBuild.IndexHitsInOrder` | contrib/bloom/blscan.c:144-187 | the results are those of one page holding all entries in order, exactly one for each entry that passes |
| `BloomBuild.RowInBitmap` | contrib/bloom/blscan.c:144-187 | an entry with the bits of a row that satisfies every key, on any live page, is among the results |
| `HStorePack.Access` | contrib/hstore/hstore.h:28-34 | reading pair i of the packed form through the end offsets gives its key, its value bytes and its null flag |
| `HStorePack.PackInjective` | contrib/hstore/hstore.h:45-83 | the packed form determines the list of pairs |
| `HStorePack.DecodeInjective` | contrib/hstore/hstore_op.c:1234-1258 | two well-formed values are equal in every byte exactly when they stand for the same mapping, so hashing the bytes is sound |
| `HStorePack.DataSizeGrows` | contrib/hstore/hstore.h:71-72 | the empty value takes 8 bytes, and every pair 8 more and its strings |
| `HStoreBase.KeyCmpLaws` | contrib/hstore/hstore_op.c:51-54 | comparing keys by length and then by bytes is antisymmetric and zero only on equal keys |
| `HStoreBase.LessIff` | contrib/hstore/hstore_op.c:51-54 | shorter keys come first, and among keys of one length the one with the smaller byte where they first differ |
| `HStoreBase.LessTransitive` | contrib/hstore/hstore_op.c:51-54 | that order is transitive |
| `HStoreBase.SortedUnique` | contrib/hstore/hstore_io.c:320-360 | a strictly sorted list of pairs is determined by its mapping |
| `HStoreBuild.Builder.CopyItem` | contrib/hstore/hstore.h:99-106 | copying an item whose key and value are contiguous appends exactly that pair, within the allocation |
| `HStoreBuild.Builder.AddItem` | contrib/hstore/hstore.h:112-126 | adding a pair appends it, and a null contributes no bytes |
| `HStoreBuild.Builder.Shift` | contrib/hstore/hstore.h:134-138 | the move of the string area onto possibly overlapping memory keeps the entries and all bytes of the strings |
| `HStoreBuild.Builder.Finalize` | contrib/hstore/hstore.h:129-140 | whatever the provisional count was, the finished value is the packed form of the items, with the first flag on the first entry only and the exact size |
| `HStoreUnique.UniqSurvives` | contrib/hstore/hstore_io.c:330-355 | of an ordered array the scan keeps one pair per key, strictly sorted, with exactly the keys of the input |
| `HStoreUnique.ChosenNeedsNoFree` | contrib/hstore/hstore_io.c:289-311 | among pairs with one key, if some needs no freeing then so does the chosen one |
| `HStoreUnique.Compact` | contrib/hstore/hstore_io.c:335-355 | the in-place loop leaves those pairs in front of the array and sums their lengths exactly |
| `HStoreUnique.UniquePairs` | contrib/hstore/hstore_io.c:319-360 | for every array: the survivors are strictly sorted input pairs with exactly the input's keys, each one the preferred pair of its key, and the buffer length is exact |
| `HStoreUnique.HStorePairs` | contrib/hstore/hstore_io.c:383-410 | the value packs exactly the given pairs in an allocation of exactly the computed size, or the size limit is reported |
| `HStoreUnique.ArrayToPairs` | contrib/hstore/hstore_op.c:73-123 | the keys of a text array without its nulls, strictly sorted and without duplicates |
| `HStoreFind.FindKey` | contrib/hstore/hstore_op.c:36-71 | from any valid lower bound the search finds the key exactly when the mapping has it, and leaves a bound below which all keys are at most the key |
| `HStoreFind.BoundCarries` | contrib/hstore/hstore_op.c:28-35 | that bound is valid for every larger key |
| `HStoreFind.Exists` | contrib/hstore/hstore_op.c:151-160 | true exactly when the mapping has the key |
| `HStoreFind.ExistsAny` | contrib/hstore/hstore_op.c:163-194 | with the carried bound: true exactly when some non-null key of the array is in the mapping |
| `HStoreFind.ExistsAll` | contrib/hstore/hstore_op.c:197-228 | with the carried bound: true exactly when every non-null key of the array is in the mapping |
| `HStoreFind.Contains` | contrib/hstore/hstore_op.c:966-1011 | true exactly when the template is a submap, nulls matching only nulls |
| `HStoreMerge.MergeIsOverride` | contrib/hstore/hstore_op.c:503-560 | merging two sorted lists gives a strictly sorted list of the map override, the right list winning |
| `HStoreMerge.SubtractIsWithout` | contrib/hstore/hstore_op.c:398-462 | the sweep of two sorted lists gives the sorted list of the map without the equal keys or the equal pairs |
| `HStoreOps.MergeInto` | contrib/hstore/hstore_op.c:503-560 | the merge loop writes that list into a buffer sized for both operands and never beyond it |
| `HStoreOps.Concat` | contrib/hstore/hstore_op.c:472-567 | a well-formed value of the override of the operands, or the size limit, with the shortcuts for an empty operand and the shift when keys coincide |
| `HStoreOps.Delete` | contrib/hstore/hstore_op.c:246-288 | a well-formed value of the mapping without the key |
| `HStoreOps.DeleteArray` | contrib/hstore/hstore_op.c:293-369 | a well-formed value of the mapping without the non-null keys of the array |
| `HStoreOps.DeleteHStore` | contrib/hstore/hstore_op.c:372-469 | a well-formed value of the mapping without the pairs that both have, null equal to null |
| `HStoreOps.DeleteBothWays` | contrib/hstore/hstore_op.c:246-369 | deleting an array of keys gives the identical value, byte for byte, that deleting its keys one after the other gives |
| `HStoreOps.Slice` | contrib/hstore/hstore_op.c:633-692 | a well-formed value of the mapping restricted to the keys of the array |
| `HStoreOps.CutAndJoin` | contrib/hstore/hstore_op.c:293-692 | slicing out some keys, deleting them, and joining the two parts gives the identical value, if the parts are not too large to be joined |
| `HStoreOps.DeleteSelf` | contrib/hstore/hstore_op.c:372-469 | deleting a value from itself leaves the empty value, and deleting the empty value leaves the value |
| `HStoreOps.PutAndDelete` | contrib/hstore/hstore_op.c:151-567 | a key of the right operand is there after joining, if the two are not too large to be joined, and no longer after deleting it |
| `HStoreCmp.HStoreCompare` | contrib/hstore/hstore_op.c:1086-1164 | the comparison computes the order on size, strings, lengths and entries for which the next rows hold |
| `HStoreCmp.CmpIsTotalOrder` | contrib/hstore/hstore_op.c:1086-1164 | on well-formed values it is antisymmetric and transitive, and zero exactly when both stand for the same mapping |
| `HStoreCmp.CmpIff` | contrib/hstore/hstore_op.c:1086-1164 | which value comes first: the empty one; then by the strings as in a dictionary; then the one with fewer pairs; then by the first pair in which they differ, the one whose key ends earlier, then whose value ends earlier, then a value before a null |
| `HStoreText.HSParser.Put` | contrib/hstore/hstore_io.c:42-57 | every byte is written inside the word buffer, which is doubled first when it is full |
| `HStoreText.HSParser.GetVal` | contrib/hstore/hstore_io.c:60-182 | on every text the reader ends, reads no byte behind the terminator, writes only inside its buffer, and computes the word, its quoting and the rest of the text |
| `HStoreText.HSParser.ParseHStore` | contrib/hstore/hstore_io.c:184-287 | the whole parser ends on every text, with the pairs or the syntax error of the automaton, its pair buffer always large enough |
| `HStoreText.ReadEscaped` | contrib/hstore/hstore_io.c:1147-1160 | the reader undoes the escaping of every byte string without NUL |
| `HStoreText.ParsePair` | contrib/hstore/hstore_io.c:184-287 | one printed pair is read back as that pair, a quoted "NULL" as a string and a bare NULL as a null |
| `HStoreText.ParsePrinted` | contrib/hstore/hstore_io.c:184-287 | a printed list of pairs is read back as that list, also the empty one |
| `HStoreGrammar.ParseIff` | contrib/hstore/hstore_io.c:60-287 | the parser accepts exactly the texts of the language: pairs of a bare or quoted key and value with an arrow between them, commas, spaces and backslashes as allowed; and every reading of a text as such pairs gives what the parser makes of it |
| `HStoreGrammar.NullWordIff` | contrib/hstore/hstore_io.c:255-260 | the words that mean a null are the four letters of null, each large or small |
| `HStoreGrammar.PlainPair` | contrib/hstore/hstore_io.c:60-287 | a plain key, an arrow and a plain word mean the pair of the two, or of the key and a null if the word is null in some spelling |
| `HStoreGrammar.PrintedIsQuoted` | contrib/hstore/hstore_io.c:1147-1159 | a printed string is in quotes, with a backslash before exactly the quotes and backslashes in it |
| `HStoreGrammar.PrintedTwo` | contrib/hstore/hstore_io.c:1199-1225 | the two pairs a to 1 and b to a null are printed "a"=>"1", "b"=>NULL |
| `HStoreIO.Printer.Cpw` | contrib/hstore/hstore_io.c:1147-1160 | the escaped copy of the bytes, written inside the buffer |
| `HStoreIO.PairFits` | contrib/hstore/hstore_io.c:1187-1195 | a printed pair with its separator never exceeds what was reserved for it |
| `HStoreIO.HStoreOut` | contrib/hstore/hstore_io.c:1161-1229 | the text of the pairs in order, never longer than the buffer that was computed, or the size limit |
| `HStoreIO.HStoreIn` | contrib/hstore/hstore_io.c:413-429 | a syntax error exactly when the automaton has one; otherwise a well-formed value with one preferred pair per key, or the size limit |
| `HStoreIO.OutIn` | contrib/hstore/hstore_io.c:413-429 | for every well-formed value without NUL bytes the printed text parses, and every de-duplication of what was parsed packs to the same value |
| `HStoreIO.OutThenIn` | contrib/hstore/hstore_io.c:1161-1229 | printing such a value and reading the text gives back the identical value |
| `HStoreCompat.Varlena.ValidOldFormat` | contrib/hstore/hstore_compat.c:170-229 | positive exactly on values that are long enough for their count and fit the old format, 2 exactly when nothing is left over or the value is empty |
| `HStoreCompat.Varlena.ValidNewFormat` | contrib/hstore/hstore_compat.c:118-162 | positive exactly on flagged values and on those that are long enough for their count and whose offsets, first flags and key lengths fit the new format, 2 exactly when nothing is left over; whatever lies in memory behind a value that is too short does not change the answer |
| `HStoreCompat.Varlena.ConvertSlots` | contrib/hstore/hstore_compat.c:319-342 | the loop over memory that is read as old entries and written as new ones gives every slot the conversion of its old content, and flags the first |
| `HStoreCompat.RewriteKeepsPairs` | contrib/hstore/hstore_compat.c:319-344 | the rewritten value is the packed form of the old pairs: every key, value and null, one first flag, exact size |
| `HStoreCompat.Varlena.Upgrade` | contrib/hstore/hstore_compat.c:235-347 | in all branches, for every datum, also one shorter than its own count: which values are kept, rewritten or reported as invalid, and the new count, size and slots |
| `HStoreCompat.FastOnOld` | contrib/hstore/hstore_compat.c:250-256 | the quick test takes a valid old value exactly when it is empty, or short and with a leading null whose unused length field is 32768 or more |
| `HStoreCompat.UpgradeKeepsOld` | contrib/hstore/hstore_compat.c:235-347 | a valid old value is never reported as invalid, and keeps its pairs through the upgrade if and only if it is not one of those short values with a stray length |
| `HStoreCompat.StrayLengthExists` | contrib/hstore/hstore_compat.c:250-256 | a concrete value of one pair with a null that the quick test turns into a string of no bytes |
| `HStoreCompat.PackedIsNewShape` | contrib/hstore/hstore_compat.c:118-162 | every well-formed value passes the test for the new format |
| `HStoreCompat.UpgradeKeepsNewIff` | contrib/hstore/hstore_compat.c:250-344 | an unflagged well-formed new value, with any bytes behind its strings, is never reported as invalid, and keeps its pairs through the upgrade if and only if the quick test takes it or it does not pass the test for the old format |
| `HStoreCompat.AmbiguousExists` | contrib/hstore/hstore_compat.c:278-316 | a concrete new value that passes the test for the old format and not the quick test: a pair of two empty strings with 32768 bytes of padding |
| `HStoreCompat.UpgradeKeepsNew` | contrib/hstore/hstore_compat.c:257-276 | a new value whose first value is null or whose first pair has two bytes or more is never taken for an old one, so it keeps its pairs |
| `HStoreGist.CompressLeaf` | contrib/hstore/hstore_gist.c:108-141 | the signature has exactly the bits of the keys and non-null values |
| `HStoreGist.SameBitIff` | contrib/hstore/hstore_gist.c:34-35 | two strings share a bit exactly when their checksums differ by a multiple of 128 |
| `HStoreGist.CompressInner` | contrib/hstore/hstore_gist.c:146-167 | the bits of an inner key stay, and the mark replaces it exactly when all are set |
| `HStoreGist.UnionKey` | contrib/hstore/hstore_gist.c:258-269 | in place, the base gains exactly the bits of the key unless the key has the mark |
| `HStoreGist.Union` | contrib/hstore/hstore_gist.c:271-302 | the union has exactly the bits that some entry has, so it covers each |
| `HStoreGist.HemDist` | contrib/hstore/hstore_gist.c:242-256 | the number of bits on which two keys differ, also where one or both are the mark |
| `HStoreGist.DifferingLaws` | contrib/hstore/hstore_gist.c:228-256 | that number is symmetric, at most 128, and zero exactly on keys with the same bits |
| `HStoreGist.DifferingCounts` | contrib/hstore/hstore_gist.c:228-256 | the distance is the number of bits that only one of the keys has |
| `HStoreGist.PickSeeds` | contrib/hstore/hstore_gist.c:363-387 | the seeds are two different entries at the greatest distance among all entries but the last |
| `HStoreGist.SortOffsets` | contrib/hstore/hstore_gist.c:420-429 | each offset once, in the order of the costs |
| `HStoreGist.GoesLeft` | contrib/hstore/hstore_gist.c:449-453 | an entry that is no seed goes left exactly when its distance to the left key is below that to the right key, with the bonus for the smaller side; it goes to a side that is 109 entries behind |
| `HStoreGist.PickSplit` | contrib/hstore/hstore_gist.c:331-493 | every entry goes to exactly one side, neither side is empty or more than 110 entries ahead of the other, and the key of a side has exactly the bits of its entries |
| `HStoreGist.Consistent` | contrib/hstore/hstore_gist.c:496-602 | the tests of the four searches on a key, null array elements being skipped |
| `HStoreGist.KeyTestIsSharp` | contrib/hstore/hstore_gist.c:496-602 | a key passes exactly when some mapping with a signature within the key satisfies the search, except that a key with the mark for all bits always passes |
| `HStoreGist.LeafConsistent` | contrib/hstore/hstore_gist.c:496-602 | the key of a leaf has the bits of every search that its value satisfies |
| `HStoreGist.NothingPruned` | contrib/hstore/hstore_gist.c:496-602 | every key above a stored value that satisfies the search is consistent with it |
| `HStoreGist.SearchIsExact` | contrib/hstore/hstore_gist.c:496-602 | the index search of any built tree, with the recheck of leaves, finds exactly the values a full reading finds, in the same order |
| `HStoreGist.MakeLeaf` | contrib/hstore/hstore_gist.c:108-141 | a leaf with the compressed key of its value is a built tree |
| `HStoreGist.MakeNode` | contrib/hstore/hstore_gist.c:271-302 | a parent whose key is the compressed union of its children is a built tree |
| `HStoreGist.SplitNode` | contrib/hstore/hstore_gist.c:331-493 | both halves of a split page are built trees and together hold each child exactly once |
| `AmcheckCompare.BtCompare` | src/backend/access/nbtree/nbtsearch.c:559-721 | every key is above the minus infinity item; otherwise the loop computes the comparison for which the next rows hold, except that in a search that is not for a pivot tuple a key is above a truncated tuple that it ties with |
| `AmcheckCompare.OrderIsTotal` | src/backend/access/nbtree/nbtsearch.c:559-721 | with lawful column comparisons the key space, with truncated columns as minus infinity and the heap TID last, is totally ordered |
| `AmcheckCompare.ColumnSorts` | src/backend/access/nbtree/nbtsearch.c:604-643 | a column sorts by its support function, the other way round if it is descending, with nulls before or behind all values as the column says |
| `AmcheckCompare.BeforeIff` | src/backend/access/nbtree/nbtsearch.c:559-723 | one place comes before another exactly when it does so in the first column in which they differ, the heap TID being the last |
| `AmcheckCompare.TruncatedFirst` | src/backend/access/nbtree/nbtsearch.c:652-722 | a truncated column comes before every value and a truncated heap TID before every heap TID, and heap TIDs by their number |
| `AmcheckCompare.CompareOrder` | src/backend/access/nbtree/nbtsearch.c:559-721 | the comparison agrees with that order, except that a key which says less than the tuple and agrees with it so far compares as equal |
| `AmcheckCompare.InvariantsDecide` | contrib/amcheck/verify_nbtree.c:2181-2347 | on well-formed tuples the four order tests decide exactly less, at most and greater in the order of the key space |
| `AmcheckPage.RightPageScanKey` | contrib/amcheck/verify_nbtree.c:1328-1524 | whenever the loop ends: an error is reported exactly when it comes to a block that cannot be read, and otherwise the result is the first real item of the first page to the right that is not ignorable or is the last, if it has one |
| `AmcheckPage.RightPageIff` | contrib/amcheck/verify_nbtree.c:1369-1391 | such a page is found exactly when the loop stops on one, and it is that page; none is found exactly when the loop never ends or comes to a block that cannot be read, and never both |
| `AmcheckPage.NeverStopsIff` | contrib/amcheck/verify_nbtree.c:1369-1391 | the loop never ends if and only if it goes past an ignorable block and comes to it again |
| `AmcheckPage.PastIsBounded` | contrib/amcheck/verify_nbtree.c:1369-1391 | otherwise it goes past at most as many blocks as the file has |
| `AmcheckPage.DownLinkCheck` | contrib/amcheck/verify_nbtree.c:1535-1674 | accepts exactly when the child is not deleted and its real items are all above the key of the downlink |
| `AmcheckPage.ItemCheck` | contrib/amcheck/verify_nbtree.c:1112-1300 | unless the item is the last one, within the high key, and the search to the right never ends: accepts the item exactly when it passes the high key, order, last item and downlink checks |
| `AmcheckPage.TargetPageCheck` | contrib/amcheck/verify_nbtree.c:898-1310 | unless the check comes to such a search: accepts a page exactly when the attribute counts and every real item pass |
| `AmcheckPage.WrongAttsFail` | src/backend/access/nbtree/nbtutils.c:2396-2532 | an item of a leaf is accepted only with every column, the first item of another page exactly without any, and a high key or downlink only with between one and all key columns, and a heap TID only with all of them |
| `AmcheckSound.PageSoundIff` | contrib/amcheck/verify_nbtree.c:898-1310 | when the neighbours and children it looks at have the right attributes, a page is accepted if and only if it is sound: right attributes, items strictly increasing, at most the high key on a leaf and below it elsewhere, the first live page to the right beginning behind the last item, and every child there, undeleted and with its items behind the downlink |
| `AmcheckSound.EqualKeysAccepted` | contrib/amcheck/verify_nbtree.c:1157-1159 | a leaf of equal keys whose high key is its last item is accepted |
| `AmcheckPage.PageIncreasing` | contrib/amcheck/verify_nbtree.c:1181-1226 | the real items of an accepted page are well formed and strictly increasing |
| `AmcheckPage.HighKeyBounds` | contrib/amcheck/verify_nbtree.c:1112-1179 | the high key of an accepted page bounds its real items, strictly on internal pages |
| `AmcheckPage.DownLinkBounds` | contrib/amcheck/verify_nbtree.c:1287-1300 | in an accepted index the key of a downlink is strictly below the real items of its child |
| `AmcheckLevel.RoundCheck` | contrib/amcheck/verify_nbtree.c:706-841 | unless the page check never returns: one round of the walk reports no error exactly when the page passes the sibling, level, root, circularity and page checks |
| `AmcheckLevel.CheckLevel` | contrib/amcheck/verify_nbtree.c:676-862 | on every level on which the check returns the walk makes at most one round per block; it gives the level below exactly when a walk without error reaches the right end, and otherwise there is no such walk |
| `AmcheckLevel.NoBlockTwice` | contrib/amcheck/verify_nbtree.c:810-841 | over any page graph, however corrupt, a walk that meets no half-dead page never visits a block twice |
| `AmcheckLevel.WalkIsBounded` | contrib/amcheck/verify_nbtree.c:685-862 | such a walk has at most as many rounds as the file has blocks |
| `AmcheckLevel.FirstRepeatIsHalfDead` | contrib/amcheck/verify_nbtree.c:712-841 | in every walk the first block to be visited again is half-dead |
| `AmcheckLevel.EndlessIff` | contrib/amcheck/verify_nbtree.c:685-862 | the walk of a level makes rounds for ever if and only if, before any error, it comes in two different ways to a half-dead block: one that is the right sibling of two different blocks, or of one block and the start of the level |
| `AmcheckLevel.NeverReturnsIff` | contrib/amcheck/verify_nbtree.c:676-862 | the check of a level, over any page graph, never returns if and only if, before any error, it comes to a half-dead block in two different ways, or to the last item of a page, with all checks before it passed, to the right of which is a ring of ignorable pages |
| `AmcheckLevel.HangsIsNotEndless` | contrib/amcheck/verify_nbtree.c:676-862 | only one of the two can be: a level on which some page check never returns has no endless walk |
| `AmcheckLevel.NeverReturnsNotAccepted` | contrib/amcheck/verify_nbtree.c:676-862 | no walk of a level on which the check never returns reaches the right end, so no such level is accepted |
| `AmcheckLevel.EndsInBlocks` | contrib/amcheck/verify_nbtree.c:685-862 | otherwise it has at most as many rounds as the file has blocks, with or without half-dead pages |
| `AmcheckLevel.HalfDeadLoop` | contrib/amcheck/verify_nbtree.c:836-841 | a concrete file with two half-dead pages that point to each other, on which the walk is endless |
| `AmcheckLevel.RingLevel` | contrib/amcheck/verify_nbtree.c:1369-1391 | the same two pages to the right of a page with one item: the check of that page never returns, although the walk is not endless |
| `AmcheckLevel.LevelIncreasing` | contrib/amcheck/verify_nbtree.c:945-1301 | if the walk reports no error, with half-dead pages or without, and every live page has a real item, then all real items of the live pages, read left to right, are strictly increasing |
| `AmcheckLevel.LevelOrder` | contrib/amcheck/verify_nbtree.c:1328-1524 | without the last condition: they are strictly increasing if and only if they are so across every live page without real items |
| `AmcheckLevel.SearchFindsNext` | contrib/amcheck/verify_nbtree.c:1369-1391 | in a walk without an error the search to the right of a live page finds the next live page of the walk, past any number of half-dead ones |
| `AmcheckLevel.GapAccepted` | contrib/amcheck/verify_nbtree.c:1328-1524 | a concrete level of three pages, the middle one without items, on which the walk reports no error |
| `AmcheckLevel.GapNotIncreasing` | contrib/amcheck/verify_nbtree.c:1328-1524 | the items of that level are not in order |
| `AmcheckLevel.AcceptedUnique` | contrib/amcheck/verify_nbtree.c:676-862 | the level below is determined by the level |
| `AmcheckLevel.CheckEveryLevel` | contrib/amcheck/verify_nbtree.c:553-578 | if the check returns on every level that it comes to, each pass is one level lower, so there are at most root level + 1; the first level is that of the root, and there is none exactly without a root; success means that every level was walked to its end, failure that the last one cannot be |
| `AmcheckSound.LevelSoundIff` | contrib/amcheck/verify_nbtree.c:676-862 | when the pages around have the right attributes and the first page has a downlink, a level is accepted if and only if it begins with a live page and its pages, live and sound or half-dead, are linked from the leftmost to the rightmost one; the check then goes on below its first page |
| `AmcheckSound.CheckSoundIndex` | contrib/amcheck/verify_nbtree.c:553-578 | no false alarm: on every index whose levels are all sound, and whose pages have the right attributes around them, the check returns, reports no error and visits exactly these levels |
| `CubeBox.Union` | contrib/cube/cube.c:691-753 | the result has the larger dimension and in every dimension the hull of both intervals, a missing dimension counting as zero |
| `CubeBox.HullIsLeast` | contrib/cube/cube.c:691-753 | a union encloses both boxes, and every box that encloses both encloses it |
| `CubeBox.EnclosesTransitive` | contrib/cube/cube.c:691-753 | enclosure of boxes of different dimensions is transitive |
| `CubeBox.Normalize` | contrib/cube/cube.c:741-751 | the point flag is set exactly when the corners coincide, and no coordinate changes |
| `CubeBox.CubeContains` | contrib/cube/cube.c:1075-1111 | true exactly when every dimension of the second box lies inside the first one extended by zeros |
| `CubeBox.CubeOverlap` | contrib/cube/cube.c:1145-1181 | true exactly when the boxes, extended by zeros, meet in every dimension |
| `CubeBox.CubeCmp` | contrib/cube/cube.c:888-966 | the loops compute the order on lower ends, upper ends and dimensions for which the next two rows hold |
| `CubeBox.CmpLaws` | contrib/cube/cube.c:888-966 | the comparison is antisymmetric, and zero exactly on boxes with the same dimensions and intervals |
| `CubeBox.CmpIff` | contrib/cube/cube.c:888-966 | which box comes first: by the lower and then the upper ends of the common dimensions, then of the others, zero on one side, then the one with fewer dimensions |
| `CubeBox.CmpTransitiveIff` | contrib/cube/cube.c:888-966 | for every set of dimensions: the comparison is transitive on all boxes of these dimensions if and only if at most one of the dimensions is above zero |
| `CubeBox.CmpCycle` | contrib/cube/cube.c:888-966 | for every two dimensions above zero, concrete boxes of these dimensions that compare in a circle |
| `CubeDistance.Distance1D` | contrib/cube/cube.c:1455-1467 | the room between two intervals, whichever way their ends are given, never negative |
| `CubeDistance.GapIsLeast` | contrib/cube/cube.c:1455-1467 | the gap in a dimension is at most the distance of any two points of the intervals, and zero exactly when they meet |
| `CubeDistance.GapIsReached` | contrib/cube/cube.c:1455-1467 | the gap is the distance of some two points of the intervals |
| `CubeDistance.DistanceTaxicab` | contrib/cube/cube.c:1253-1294 | the sum of the gaps over all dimensions of either box |
| `CubeDistance.DistanceChebyshev` | contrib/cube/cube.c:1297-1347 | at least the gap in every dimension, and equal to one of them, or zero for boxes without dimensions |
| `CubeDistance.DistanceSquared` | contrib/cube/cube.c:1204-1250 | the sum of the squared gaps over all dimensions of either box |
| `CubeDistance.NormsOfTriangle` | contrib/cube/cube.c:1204-1347 | for boxes that meet in all dimensions but two, the taxicab distance is the sum of the two gaps, the Chebyshev distance the larger one, and the squared Euclidean distance the sum of their squares |
| `CubeDistance.NormsBetween` | contrib/cube/cube.c:1204-1347 | the Euclidean distance, squared, lies between the squares of the Chebyshev and the taxicab distance |
| `CubeDistance.EnclosingIsNearer` | contrib/cube/cube.c:1204-1345 | no box is nearer to a query than a box that encloses it, in all three distances and across dimensions |
| `CubeDistance.CoordIsNearer` | contrib/cube/cube.c:1350-1426 | no inner entry comes after an entry that its key encloses in a coordinate order, ascending or descending |
| `CubeDistance.CoordOfLeaf` | contrib/cube/cube.c:1357-1426 | for a stored box coordinate 2 i + 1 is the lower and 2 i + 2 the upper end of dimension i, and a negative number gives the opposite |
| `CubeDistance.CoordOfKey` | contrib/cube/cube.c:1357-1426 | for a key both coordinates of dimension i give its lower end, and both negative ones the opposite of its upper end |
| `CubeTree.UnionAll` | contrib/cube/cube.c:368-391 | the key of a page is the least box that encloses its entries |
| `CubeTree.Size` | contrib/cube/cube.c:861-885 | the volume, zero for points |
| `CubeTree.SizeIsArea` | contrib/cube/cube.c:861-884 | a box of width 1 in all dimensions but two has the area in these two as its size |
| `CubeTree.VolumeZeroIff` | contrib/cube/cube.c:861-884 | the volume in the first dimensions is never negative, and zero exactly when the box is flat in one of them |
| `CubeTree.VolumeGrows` | contrib/cube/cube.c:861-884 | a box has at least the volume of any box it encloses, over the dimensions of the enclosed one |
| `CubeTree.Intersect` | contrib/cube/cube.c:770-847 | from the larger lower end to the smaller upper end in every dimension, in order exactly where the boxes meet |
| `CubeTree.PickSeeds` | contrib/cube/cube.c:490-522 | the seeds are two different entries that waste most, the volume of the union less that of the intersection, among all entries but the last |
| `CubeTree.Choose` | contrib/cube/cube.c:570-591 | an entry that is no seed goes left exactly when its union with the left key grows less than that with the right one |
| `CubeTree.PickSplit` | contrib/cube/cube.c:454-599 | every entry is on exactly one side, once, no side is empty, and the key of a side is the least box over its entries |
| `CubeTree.LeafConsistent` | contrib/cube/cube.c:622-649 | the four searches on a stored box |
| `CubeTree.InternalConsistent` | contrib/cube/cube.c:651-676 | the four searches on an inner key |
| `CubeTree.KeyTestIsSharp` | contrib/cube/cube.c:651-676 | a key of as many dimensions as the query passes exactly when some box of these dimensions inside it matches |
| `CubeTree.Upward` | contrib/cube/cube.c:622-676 | a key is consistent with every search that a box it encloses matches, for contained-by provided the query reaches zero where the box lacks dimensions |
| `CubeTree.KeyEncloses` | contrib/cube/cube.c:622-753 | the key of a node encloses everything below it |
| `CubeTree.NodeIsNearer` | contrib/cube/cube.c:1350-1449 | no node is farther than what is below it in the three distances, nor later in a coordinate order |
| `CubeTree.SearchIsExact` | contrib/cube/cube.c:622-676 | on every tree of boxes of mixed dimensions the index search finds exactly the stored boxes that match, under the stated condition for contained-by |
| `CubeTree.ContainedByExactIff` | contrib/cube/cube.c:622-676 | a contained-by search is exact on all trees of boxes of d or more dimensions if and only if the query reaches zero in all its dimensions from d on |
| `CubeTree.ContainedByMisses` | contrib/cube/cube.c:651-676 | a concrete tree and query with which a stored box that matches is not found |
| `CubeTree.MakeNode` | contrib/cube/cube.c:368-391 | a parent whose key is the union of its children's keys is a built tree |
| `CubeTree.SplitNode` | contrib/cube/cube.c:454-599 | both halves of a split page are built trees and together hold each child exactly once |

## Left out

- The buffer manager, write-ahead logging, locks other than the metapage lock, memory contexts and snapshots: a step of the bloom protocol is one action under its page locks, and an abort leaves the pages as they were.
- Byte layout of signatures of the hstore tree: a signature is its 128 bits, not 16 bytes.
- Little-endian layout of a packed hstore: the entry array is a sequence of records with their flags and offsets; the upgrade, where two layouts share memory, works on the 32-bit words themselves.
- The library sort: it is represented by an insertion sort with the same comparison; results that depend on it hold for every sorted permutation.
- Comparison of hstore keys uses byte order as in the code; collations play no part in it.
- hstore_recv, hstore_send, the record and json conversions, and the set-returning functions: they would only add easy members.
- HStoreCompat.Varlena.Upgrade: built as contrib/hstore, so an ambiguous value is resolved as an old one; the words in memory that the code reads in place of entries a datum does not have are parameters.
- BloomVacuum.VacuumLeavesNoDead: that heap pointers are not reused before the vacuum that removes them has ended is a promise of the heap, and is assumed here.
- HStoreGist.PickSplit: which side an entry that is no seed goes to is stated for one step only; the bonus is computed on exact real numbers.
- CubeTree.PickSplit: which side an entry that is no seed goes to is stated for one step only.
- CubeDistance.DistanceSquared: the square root of the Euclidean distance is not modelled.
- Cube text input, NaN, infinities and rounding: coordinates are real numbers.
- AmcheckPage.TargetPageCheck: line pointer and tuple size checks, the heap and downlink fingerprints, the search from the root and the missing downlink check are not modelled; they can only reject more, or, where they search from page to page, not return.
- Indexes without the heap TID as key column, and the mode without the strong lock.
- Option parsing apart from the rounding of the length, cost estimates, validation of operator classes and handler tables.
