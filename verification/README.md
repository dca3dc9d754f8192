# A model of PostgreSQL contrib index and value code

The project models parts of PostgreSQL's contrib directory and proves what they are for.

- **btree_gist, variable-length keys** (`VarKeys`, `VarKeyTrees`): node keys are cut two bytes behind the common prefix
  of their bounds. A search through such a tree, of any height, returns exactly the matching values. The split of
  an inner page cuts both halves at the larger prefix length and can lose a value; the exact condition is proved.
- **intarray** (`IntRanges`, `IntCompress`, `IntGist`, `IntSplit`, and the `Query` modules): the in-place range
  compression of keys is an optimal cover, decompression gives a superset, and inner keys never prune. The boolean
  query language is tokenized, parsed with a shift/reduce loop, linked, executed, printed and read back;
  `QuerySpelling` says which texts are read as which tokens.
- **bloom** (`BloomSignatures`, `BloomPages`, `BloomIndex`, `BloomRuns`): the 31-bit generator and the signatures it
  draws, the pages, and the protocol of inserts, bulk deletes, page reuse and scans as a state machine at the
  granularity of buffer locks.
- **amcheck** (`BtreeCheck`, `BtreeChecker`, `BtreeLockstep`, `BtreeVerdict`, `BtreeWalk`, `BtreeBounds`,
  `BtreeTermination`, `BtreeItemZero`, `BtreeHealth`, `BtreeAccepts`, `BtreeSearch`): the read-only check of a B-tree,
  with the state it carries from call to call, when it comes to a verdict, exactly which indexes it accepts, and which
  keys a search from the root then finds.
- **hstore** (the `Hstore` modules): text in and out, with a grammar of the texts that are read as given pairs
  (`HstoreGrammar`), the packed form, searches with a carried lower bound, the
  merges as map operations, and the in-place upgrade of old values.
- **cube** (`CubeBoxes`, `CubeDistance`, `CubeSplit`): boxes of mixed dimension, pruning and distance bounds.
- **GiST splits** (`GistSplit`, used by `CubeSplit`, `IntSplit` and `SignatureGist`): the search for seeds and the placing
  of entries in the picksplit functions of cube, intarray, intbig and hstore. `SignatureGist` has the signature keys of
  the last two, with their all-true flag.

Code that changes things step by step is a method or a class; it is proved against a function on values, and the
theorems are about that function. `ByteStrings` holds the order of byte strings, `CLimits` the limits of C types and
of the allocator, `Options` the option type, `Sets` a fact about cardinality, `Loops`
when a loop over finitely many states ends.

## What the code does that its comments do not say

Where a property of the code fails, a lemma gives an input, and another one says when the property holds.

- gbt_var_picksplit on an inner page can make an equality search miss a stored value
  (`VarKeyTrees.SplitInnerPageLosesAValue`, `VarKeys.SafeCutIff`).
- The link of a query operator is 16 bits wide and wrong for right operands of 32768 items or more
  (`QueryTrees.LongRightOperandBreaks`, `QueryRoundTrip.AcceptedTextBreaks`, `QueryTrees.LinksExactIff`).
- The comment in mySrand says that the state is in the range of the generator. For the seeds 0x80000001 and
  0xffffffff the state is zero, stays zero, and the bit number is -1 (`BloomSignatures.DrawsInRangeIff`).
- An intarray leaf longer than the limit is stored raw and read back as ranges, behind its end if its length is odd
  (`IntCompress.LongLeavesThatChange`, `IntCompress.LongLeafSurvivesIff`, `IntGist.LeafTestIsExactIff`).
- The comment in g_int_picksplit says that the sides are in order; entries are placed in the order of their costs
  (`IntSplit.SidesNeedNotAscend`, `GistSplit.SidesAscendIff`).
- Numbers in queries go through strtol with base 0, so a leading zero means octal, and a lone minus sign is zero
  (`QueryLexer.NumbersThatMislead`, `QueryLexer.NumberIsDecimalIff`).
- The amcheck verdict does not depend on anything below a negative infinity item whose downlink is zero
  (`BtreeVerdict.ZeroDownlinkIsAccepted`, `BtreeVerdict.WellFormedIff`).
- amcheck does not test the level of ignorable pages, so a half-dead leaf passes between internal pages
  (`BtreeAccepts.HalfDeadAboveIsPassed`, `BtreeAccepts.AcceptedIffHealthy`).
- An empty leaf in amcheck's way hides keys that are out of order across it (`BtreeVerdict.EmptyLeafHidesDisorder`,
  `BtreeVerdict.LeafOrderIff`).
- The walk along the child level in amcheck need not end on a corrupt index (`BtreeTermination.CheckMayNotEnd`,
  `BtreeWalk.CallNeverEndsIff`, `BtreeBounds.CheckNeverEndsIff`). Past the last downlink of a level it reads the item at
  offset zero when a complete page with a right sibling comes up (`BtreeItemZero.CheckReadsItemZero`,
  `BtreeWalk.CallReadsItemZeroIff`).
- A key that amcheck accepts without its root descent option need not be found by a search from the root
  (`BtreeSearch.AcceptedKeyIsMissed`, `BtreeSearch.RootDescendIff`).
- The first test in hstoreUpgrade takes some small old values for new ones (`HstoreUpgrade.OldValueMisread`,
  `HstoreUpgrade.QuickTestMistakesOldIff`, `HstoreUpgrade.UpgradedReadsOldIff`).
  hstoreValidNewFormat reads the last entry of the count before it tests that the count fits; its answer does not
  depend on what it reads there (`HstoreUpgrade.ValidNew`).
- cube_contains_v0 ignores dimensions that only the container has, cube_overlap_v0 compares them with zero, so a
  contained-by search can miss boxes of lower dimension than the query (`CubeBoxes.ContainedIsMissed`,
  `CubeBoxes.ContainedByIff`).

## Model

| member | source | states |
|---|---|---|
| VarKeys.CommonPrefixLength | postgres-ramen/contrib/btree_gist/btree_utils_var.c:121-162 | the loop returns the length of the longest common prefix of the two bounds of a node key |
| VarKeys.Union | postgres-ramen/contrib/btree_gist/btree_utils_var.c:322-357 | the key computed entry by entry is the join of all entries, cut two bytes behind the common prefix of the joined bounds |
| VarKeys.SplitKeys | postgres-ramen/contrib/btree_gist/btree_utils_var.c:529-544 | each half of a split page is its own join, cut at the larger common prefix length of the two halves |
| VarKeys.LeafConsistentIsExact | postgres-ramen/contrib/btree_gist/btree_utils_var.c:554-612 | on a leaf key each of the six strategies answers exactly the comparison of the value with the query |
| VarKeys.ReachIsConsistent | postgres-ramen/contrib/btree_gist/btree_utils_var.c:554-612 | for each strategy, a covered value within reach of the cut upper bound that matches the query makes the inner test true |
| VarKeys.AdmitsIff | postgres-ramen/contrib/btree_gist/btree_utils_var.c:554-612 | an inner key admits a covered value, for every query and strategy, exactly when the value is not above the cut upper bound or has a stored bound as a prefix |
| VarKeys.CutCovers | postgres-ramen/contrib/btree_gist/btree_utils_var.c:204-228 | cutting a key two bytes or more behind its common prefix keeps every value covered and keeps the common prefix length, so cuts can be repeated at every level |
| VarKeys.SafeCutIff | postgres-ramen/contrib/btree_gist/btree_utils_var.c:204-228 | for any entries and any cut length allowed by the code: no value below is ever lost by the search if and only if the stated condition on the entries' bounds and the cut length holds |
| VarKeys.LostValue | postgres-ramen/contrib/btree_gist/btree_utils_var.c:529-544 | where the condition fails, a value is constructed that an entry covers and that an equality search on the cut key does not find |
| VarKeys.UnionAndLeafCutsAreSafe | postgres-ramen/contrib/btree_gist/btree_utils_var.c:322-357 | the condition always holds for the cut of gbt_var_union, and for splits of leaf pages at any cut length |
| VarKeyTrees.EveryKeyCovers | postgres-ramen/contrib/btree_gist/btree_utils_var.c:322-357 | in every tree of unions and splits, of any height, each key covers every value below it |
| VarKeyTrees.SafeKeyNeverPrunes | postgres-ramen/contrib/btree_gist/btree_utils_var.c:554-612 | a key with a safe cut never prunes a matching value below it, whatever the query and the strategy |
| VarKeyTrees.SplitLeafPageIsSafe | postgres-ramen/contrib/btree_gist/btree_utils_var.c:458-547 | both keys of a split leaf page are safe |
| VarKeyTrees.SearchIsExact | postgres-ramen/contrib/btree_gist/btree_utils_var.c:554-612 | a search of an index whose cuts are safe returns a value if and only if it is stored and satisfies the operator |
| VarKeyTrees.SplitInnerPageLosesAValue | postgres-ramen/contrib/btree_gist/btree_utils_var.c:511-544 | four entries of an inner page, in sort order: the last two share five bytes, so the key of the first two is cut behind the seventh byte, and an equality search misses the value bcz stored below them |
| IntRanges.FlatSize | postgres-ramen/contrib/intarray/_int_gist.c:214-258 | the number of integers that the kept ranges cover is the span of the key less the gaps left open |
| IntRanges.FlatCovers | postgres-ramen/contrib/intarray/_int_gist.c:214-258 | every element of the key lies in one of the ranges |
| IntRanges.FewOpenGaps | postgres-ramen/contrib/intarray/_int_gist.c:249-255 | a cover by n intervals leaves fewer than n gaps of the key open |
| IntRanges.CoverIsLarge | postgres-ramen/contrib/intarray/_int_gist.c:249-255 | any cover contains at least the integers from the first to the last key that do not lie in a gap it leaves open |
| IntRanges.WidestIsMost | postgres-ramen/contrib/intarray/_int_gist.c:249-255 | no choice of as many gaps saves more than the widest ones |
| IntRanges.WidestIsOptimal | postgres-ramen/contrib/intarray/_int_gist.c:214-258 | ranges that keep the widest gaps open cover no more integers than any cover by at most as many intervals |
| IntCompress.BuildRanges | postgres-ramen/contrib/intarray/_int_gist.c:214-245 | the right-to-left in-place expansion writes the ranges of the key without overwriting an unread element, merges only neighbouring integers, and leaves at least the number of ranges asked for |
| IntCompress.NarrowestGap | postgres-ramen/contrib/intarray/_int_gist.c:249-255 | the inner loop finds a narrowest gap between ranges |
| IntCompress.CloseNarrowest | postgres-ramen/contrib/intarray/_int_gist.c:247-258 | one turn of the merge loop closes one gap in place and keeps the widest gaps open |
| IntCompress.CompressInPlace | postgres-ramen/contrib/intarray/_int_gist.c:201-258 | the array ends with exactly the number of ranges asked for, and the gaps left open are widest ones |
| IntCompress.InternalSize | postgres-ramen/contrib/intarray/_int_tool.c:292-306 | for every array: the sum of the range lengths, a range that starts where the one before it ends not counted, -1 beyond the int limits, and exactly when the element after the last one is read |
| IntCompress.Compress | postgres-ramen/contrib/intarray/_int_gist.c:156-276 | a key below the limit is stored as it is; otherwise the result is a best cover, and the error is raised only if every cover with so few ranges is too large |
| IntCompress.Decompress | postgres-ramen/contrib/intarray/_int_gist.c:279-345 | the ranges are written out as exactly internal_size elements, short arrays are returned as they are, too large ones refused, and long arrays of odd length read behind their end |
| IntCompress.ExpandMembers | postgres-ramen/contrib/intarray/_int_gist.c:324-336 | an integer is in the written-out array exactly when it lies in a range |
| IntCompress.DecompressedIsSuperset | postgres-ramen/contrib/intarray/_int_gist.c:324-336 | what decompression writes is strictly increasing and contains every element of the key |
| IntCompress.LongLeafSurvivesIff | postgres-ramen/contrib/intarray/_int_gist.c:170-185 | for every increasing leaf: decompression returns it as it was stored if and only if it is below the limit, or its elements come in pairs of neighbouring integers and are not too many |
| IntCompress.LongLeavesThatChange | postgres-ramen/contrib/intarray/_int_gist.c:297-336 | a leaf of three elements is read behind its end and one of two elements gains one, with one range allowed |
| IntGist.InnerContains | postgres-ramen/contrib/intarray/_int_tool.c:14-45 | the two-pointer loop decides set inclusion of sorted arrays |
| IntGist.InnerOverlap | postgres-ramen/contrib/intarray/_int_tool.c:49-75 | the two-pointer loop decides whether sorted arrays meet |
| IntGist.Consistent | postgres-ramen/contrib/intarray/_int_gist.c:46-113 | on leaves the answer is the operator itself, on inner pages the weaker test of the strategy |
| IntGist.KeysAreSupersets | postgres-ramen/contrib/intarray/_int_gist.c:116-150 | in every tree of unions, compressed and decompressed at each level, every key contains the heap array of every row below it, however long the array |
| IntGist.InnerKeysNeverPrune | postgres-ramen/contrib/intarray/_int_gist.c:46-113 | no inner key prunes the row of a matching array below it, for all array strategies |
| IntGist.LeafTestIsExactIff | postgres-ramen/contrib/intarray/_int_gist.c:46-113 | the test of a leaf's key is the operator on the row's array, for every query and strategy, if and only if the array survives storage |
| IntSplit.MergeIsUnion | postgres-ramen/contrib/intarray/_int_tool.c:78-132 | the merge of two increasing arrays is increasing and holds exactly the elements of both |
| IntSplit.InnerUnion | postgres-ramen/contrib/intarray/_int_tool.c:78-132 | the loop of inner_int_union writes that merge |
| IntSplit.PickSplit | postgres-ramen/contrib/intarray/_int_gist.c:429-610 | for any order of placing: the seeds are the first pair of most waste, every entry is placed once, every other entry goes to the side to whose elements it then adds fewer, up to the bonus for the smaller side, and each key has exactly the elements of its seed and side |
| IntSplit.GrowthIs | postgres-ramen/contrib/intarray/_int_gist.c:560-580 | an array grows by the number of elements of the entry that no array taken in before has |
| IntSplit.SidesNeedNotAscend | postgres-ramen/contrib/intarray/_int_gist.c:541-547 | four entries that, placed in the order of their costs, give the left side 3, 2, 0: the sides are not in order |
| QueryTrees.FindOperand | postgres-ramen/contrib/intarray/_int_bool.c:440-470 | the recursion over the postfix items sets the left link of every operator of the tree and no other item, and returns the position before the tree |
| QueryTrees.ExecuteIsEval | postgres-ramen/contrib/intarray/_int_bool.c:266-294 | following the links, execute computes the recursive value of the tree, with and without calcnot |
| QueryTrees.BoolOpIsEval | postgres-ramen/contrib/intarray/_int_bool.c:419-437 | boolop on a stored query is the truth value of its tree |
| QueryTrees.LinksExactIff | postgres-ramen/contrib/intarray/_int.h:140-145 | the 16-bit link of every operator is exact if and only if every right operand has fewer than 32768 items |
| QueryTrees.LongRightOperandBreaks | postgres-ramen/contrib/intarray/_int.h:140-145 | with a right operand of 32768 to 65535 items the link is not negative and execute leaves the query |
| QueryRoundTrip.AcceptedTextBreaks | postgres-ramen/contrib/intarray/_int_bool.c:477-542 | a text that is accepted and stored as such a query |
| QueryLexer.WorkState.GetToken | postgres-ramen/contrib/intarray/_int_bool.c:48-130 | the character loop returns the next token and leaves the state of the remaining text |
| QueryLexer.StreamIsWellLexed | postgres-ramen/contrib/intarray/_int_bool.c:48-130 | every token stream alternates operands and operators, holds int32 values and closes no parenthesis that is not open |
| QuerySpelling.WrittenIsRead | postgres-ramen/contrib/intarray/_int_bool.c:48-130 | tokens written with any white space between them, each number as any numeral that ends where the next token starts, are read as those tokens |
| QuerySpelling.TextIsReadIff | postgres-ramen/contrib/intarray/_int_bool.c:48-130 | a text is read as given tokens if and only if it is such a spelling of them and the tokens alternate and balance as they must |
| QueryLexer.NumberIsDecimalIff | postgres-ramen/contrib/intarray/_int_bool.c:85-102 | a number is read as its decimal value if and only if it does not start with a zero or is below eight |
| QueryLexer.NumbersThatMislead | postgres-ramen/contrib/intarray/_int_bool.c:85-102 | the query 010 is the number eight and a lone minus sign is the number zero |
| QueryParser.WholeRun | postgres-ramen/contrib/intarray/_int_bool.c:153-223 | makepol emits the postfix form of the tree that the grammar gives, ! over & over or, both left-associative, and fails exactly when the grammar or its stack bound does |
| QueryInput.MakePolish | postgres-ramen/contrib/intarray/_int_bool.c:153-223 | makepol with its 16-entry operator stack and the shared tokenizer state does on the text what the token-level run does |
| QueryInput.BqarrIn | postgres-ramen/contrib/intarray/_int_bool.c:477-542 | a text is stored as the linked postfix form of its tree, or refused for its syntax, its depth or its size |
| QueryPrinter.ReadBack | postgres-ramen/contrib/intarray/_int_bool.c:48-130 | a printed int32 is read back as the same number and fits the number buffer |
| QueryPrinter.Infix | postgres-ramen/contrib/intarray/_int_bool.c:564-637 | infix prints the tree whose postfix form ends at the current item and moves to the item before it |
| QueryPrinter.ReadPrinted | postgres-ramen/contrib/intarray/_int_bool.c:564-637 | the tokens of a printed query are the tokens of its tree, with parentheses only where needed |
| QueryRoundTrip.PrintedIsAccepted | postgres-ramen/contrib/intarray/_int_bool.c:564-637 | the grammar accepts every printed query within its stack bound and returns the tree with & re-associated to the left |
| QueryRoundTrip.NormKeepsMeaning | postgres-ramen/contrib/intarray/_int_bool.c:564-637 | re-association does not change the truth value on any array |
| QueryRoundTrip.NormPrintsTheSame | postgres-ramen/contrib/intarray/_int_bool.c:641-659 | the re-associated query prints as the same text, so one round trip reaches a fixed point |
| QueryRoundTrip.AcceptedIsAcceptedAgain | postgres-ramen/contrib/intarray/_int_bool.c:641-659 | for every accepted text, what bqarr_out prints is accepted again with as many items, the same truth value on every array and the same printed text |
| QueryIndex.CheckArray | postgres-ramen/contrib/intarray/_int_bool.c:235-254 | the binary search finds a value exactly when the sorted array holds it |
| QueryIndex.LooseIsMonotone | postgres-ramen/contrib/intarray/_int_bool.c:266-294 | a query true under one check stays true without calcnot under every check that accepts more |
| QueryIndex.GenSign | postgres-ramen/contrib/intarray/_int_tool.c:322-332 | the signature is the set of hash bits of the elements |
| QueryIndex.InnerKeysNeverPrune | postgres-ramen/contrib/intarray/_int_bool.c:300-319 | a query true of an array is not pruned by any superset key nor by any signature that contains the array's bits |
| QueryIndex.BooleanSearchNeverPrunes | postgres-ramen/contrib/intarray/_int_gist.c:46-113 | in every tree of compressed keys no key prunes the row of an array for which a boolean query is true |
| QueryIndex.QueryExtract | postgres-ramen/contrib/intarray/_int_gin.c:42-56 | the extracted entries are the operand values in order |
| QueryIndex.GinConsistent | postgres-ramen/contrib/intarray/_int_bool.c:336-361 | the check flags are spread over the operands in order and the query is executed on them |
| QueryIndex.GinIsExact | postgres-ramen/contrib/intarray/_int_bool.c:336-361 | with flags that say which extracted values the array holds, the GIN answer is the truth value of the query on the array |
| QueryIndex.RequiredOnArray | postgres-ramen/contrib/intarray/_int_bool.c:364-404 | contains_required_value over the links computes the recursive notion of a required value |
| QueryIndex.RequiredMeansNoEmptyMatch | postgres-ramen/contrib/intarray/_int_bool.c:399-404 | a query with required values is false of every array that holds none of its values |
| QueryIndex.RequiredIff | postgres-ramen/contrib/intarray/_int_bool.c:364-404 | a query has required values if and only if it is false when nothing is held and negations are taken as true |
| BloomSignatures.Generator.Rand | postgres-ramen/contrib/bloom/blutils.c:221-245 | a draw from a state in 1..2^31-2 leaves 16807 x modulo 2^31-1, again in that range; a negative state leads into the range, zero stays zero; the number returned is the new state less one |
| BloomSignatures.Generator.Srand | postgres-ramen/contrib/bloom/blutils.c:248-253 | the state after seeding: in 1..2^31-2 exactly for seeds below 2^31 and for 0x80000002, zero exactly for 0x80000001 and 0xffffffff, the seed modulo 2^31-2 plus one below 2^31 |
| BloomSignatures.StepIsLehmer | postgres-ramen/contrib/bloom/blutils.c:221-245 | from a state in 1..2^31-2 a draw is 16807 x modulo 2^31-1, without overflow, and stays in that range |
| BloomSignatures.NegativeRecovers | postgres-ramen/contrib/bloom/blutils.c:221-245 | from a negative state one draw leads into the documented range |
| BloomSignatures.SeededRange | postgres-ramen/contrib/bloom/blutils.c:248-253 | which seeds lead into the documented range, and that exactly two lead to the state zero |
| BloomSignatures.DrawsInRangeIff | postgres-ramen/contrib/bloom/blutils.c:221-253 | all draws after seeding stay in the documented range if and only if the seed is neither 0x80000001 nor 0xffffffff |
| BloomSignatures.SignValue | postgres-ramen/contrib/bloom/blutils.c:259-286 | signing sets the bits of the value and no others; it leaves the signature exactly for the stuck seeds |
| BloomSignatures.ColumnSeedIs | postgres-ramen/contrib/bloom/blutils.c:259-277 | the seed of a value is its hash mixed with 16807 (attno + 1) - 1, the first number drawn for its column |
| BloomSignatures.DrawnBits | postgres-ramen/contrib/bloom/blutils.c:259-286 | the bits drawn for a value from a state in the range of the generator are exactly those that one of its draws picks |
| BloomSignatures.FormTuple | postgres-ramen/contrib/bloom/blutils.c:292-310 | the signature of a row is the union of the bits of its non-null columns |
| BloomSignatures.RowBits | postgres-ramen/contrib/bloom/blutils.c:292-310 | the signature of a row has a bit if and only if a draw for one of its non-null columns picks it |
| BloomSignatures.ScanSignature | postgres-ramen/contrib/bloom/blscan.c:90-116 | the scan signature is the union of the bits of its keys, and a null key ends the scan |
| BloomSignatures.KeysInsideRow | postgres-ramen/contrib/bloom/blscan.c:90-116 | the scan signature over any selection of a row's non-null columns is contained in the signature of the row |
| BloomSignatures.InsideIffBits | postgres-ramen/contrib/bloom/blscan.c:146-155 | the test of the scan on the words holds if and only if every bit of the scan signature is set in the tuple |
| BloomPages.PageBuffer.AddItem | postgres-ramen/contrib/bloom/blutils.c:317-344 | an item is appended if there is room, and otherwise nothing changes |
| BloomPages.PageBuffer.TryInsert | postgres-ramen/contrib/bloom/blinsert.c:245-269 | a page is initialised when new or deleted and the tuple is added, or the page is left alone when full |
| BloomPages.PageBuffer.BulkDelete | postgres-ramen/contrib/bloom/blvacuum.c:81-137 | the in-page compaction leaves exactly the tuples that the callback keeps, in order, and marks an emptied page deleted |
| BloomPages.Build | postgres-ramen/contrib/bloom/blinsert.c:75-159 | the pages of a build hold exactly the heap tuples in order, none of them empty or overfull |
| BloomRuns.BuiltInv | postgres-ramen/contrib/bloom/blinsert.c:122-159 | the index that a build leaves, whatever the heap holds, satisfies the invariant of the protocol, and its tuples are those of the heap |
| BloomIndex.ReplacePage | postgres-ramen/contrib/bloom/blinsert.c:198-366 | replacing one page changes the tuples of the index by exactly the difference of that page |
| BloomIndex.VacuumedPage | postgres-ramen/contrib/bloom/blvacuum.c:81-137 | vacuuming a page keeps the page invariant and accounts for every tuple removed |
| BloomIndex.GivenUpIff | postgres-ramen/contrib/bloom/blvacuum.c:81-137 | a page is marked deleted exactly when it had tuples and all of them are dead, and what is left on a page are its tuples that are not dead |
| BloomIndex.InvKept | postgres-ramen/contrib/bloom/blinsert.c:198-366 | every step of insertion, bulk deletion, page reuse, extension and scan, at buffer lock granularity, keeps the invariant of pages, metapage, processes and tuple balance |
| BloomRuns.InvAlong | postgres-ramen/contrib/bloom/blinsert.c:198-366 | the invariant holds along every interleaving |
| BloomRuns.Reachable | postgres-ramen/contrib/bloom/blinsert.c:122-366 | in every state reachable from a build over any heap, deleted pages are empty, nStart <= nEnd <= the array size, one process holds the metapage, and the tuples of the heap and those inserted since are present or were removed by vacuum |
| BloomRuns.PageEffect | postgres-ramen/contrib/bloom/blvacuum.c:60-137 | one step leaves a page's tuples alone, appends one inserted tuple, or removes dead ones |
| BloomRuns.OnlyVacuumRemoves | postgres-ramen/contrib/bloom/blvacuum.c:81-137 | a tuple leaves its page only by a vacuum step on that page whose callback names it |
| BloomRuns.VacuumIsComplete | postgres-ramen/contrib/bloom/blvacuum.c:57-137 | under any interleaving, a finished bulk deletion has removed every dead tuple that was on a page when it started and that no insertion puts there again |
| BloomRuns.NoDeadlock | postgres-ramen/contrib/bloom/blinsert.c:198-366 | a process that holds the metapage, or any process when none does, can always take its next step |
| BloomRuns.InsertIsOnce | postgres-ramen/contrib/bloom/blinsert.c:198-366 | under any interleaving, an insertion that ends has put its tuple on exactly one page exactly once, and before it ends it has put it nowhere |
| BloomRuns.ScanIsComplete | postgres-ramen/contrib/bloom/blscan.c:81-172 | a finished scan has returned every matching tuple that was on its page throughout, whatever ran beside it |
| BloomRuns.ScanFindsRow | postgres-ramen/contrib/bloom/blscan.c:81-172 | a finished scan for columns of a row has returned the row if its tuple was there throughout |
| BloomRuns.ScanIsSound | postgres-ramen/contrib/bloom/blscan.c:81-172 | under any interleaving, every tuple that a scan returns was on a page when the scan read it and has all bits of the scan signature |
| BtreeChecker.BtreeCheckState.CheckChildHighKeys | postgres-ramen/contrib/amcheck/verify_nbtree.c:1700-1933 | the loop over right links of the child level has the verdict and the carried state of the recursive walk |
| BtreeChecker.BtreeCheckState.FirstRightKey | postgres-ramen/contrib/amcheck/verify_nbtree.c:1425-1620 | the loop skips ignorable pages and returns the first real key to the right, if there is one |
| BtreeChecker.BtreeCheckState.CheckDownlink | postgres-ramen/contrib/amcheck/verify_nbtree.c:1949-2104 | the child is reached in lockstep, is not deleted, and all its real keys are above the downlink's separator |
| BtreeChecker.BtreeCheckState.CheckTarget | postgres-ramen/contrib/amcheck/verify_nbtree.c:917-1406 | the item loop with its order, high key, cross-page and child tests has the verdict of the recursive check |
| BtreeChecker.BtreeCheckState.CheckLevelFrom | postgres-ramen/contrib/amcheck/verify_nbtree.c:654-878 | the page loop of a level has the verdict, the chain of blocks and the next level's start of the recursive check |
| BtreeChecker.BtreeCheckState.CheckEveryLevel | postgres-ramen/contrib/amcheck/verify_nbtree.c:539-571 | the level loop has the verdict and the chains of the recursive check from the root down |
| BtreeLockstep.PassBlock | postgres-ramen/contrib/amcheck/verify_nbtree.c:1794-1925 | a block passed without a downlink is excused and its high key is the separator after the last downlink passed |
| BtreeLockstep.ReachChild | postgres-ramen/contrib/amcheck/verify_nbtree.c:1807-1923 | the block that a downlink leads to has the following separator as its high key, on the page or from the page's own high key |
| BtreeLockstep.CallReaches | postgres-ramen/contrib/amcheck/verify_nbtree.c:1700-1933 | a call that returns has moved the child level to the child of its downlink and carries exactly that child's right link and split flag |
| BtreeLockstep.PageReaches | postgres-ramen/contrib/amcheck/verify_nbtree.c:917-1406 | a page that passes brings the child level abreast of all its downlinks, across the page boundary by way of the low key |
| BtreeLockstep.LevelReaches | postgres-ramen/contrib/amcheck/verify_nbtree.c:654-878 | a level that passes has walked the whole child level, each downlink of the level in order |
| BtreeLockstep.LevelIsChain | postgres-ramen/contrib/amcheck/verify_nbtree.c:680-878 | the visited blocks are a chain of right links to the end of the level whose live pages agree with their left links and are sound |
| BtreeVerdict.WalkIsChain | postgres-ramen/contrib/amcheck/verify_nbtree.c:1700-1933 | the child blocks walked from the parent level are exactly the chain that the check of the child level visits |
| BtreeVerdict.AcceptedIsWellFormed | postgres-ramen/contrib/amcheck/verify_nbtree.c:539-571 | an accepted index of live pages has all its levels down to the leaves, each mirroring the downlinks of the level above in order |
| BtreeVerdict.WellFormedIff | postgres-ramen/contrib/amcheck/verify_nbtree.c:1748-1757 | an accepted index of live pages is so formed if and only if no negative infinity item has the downlink zero |
| BtreeVerdict.ZeroDownlinkIsAccepted | postgres-ramen/contrib/amcheck/verify_nbtree.c:1748-1757 | a root whose only downlink is zero is accepted and nothing below it is looked at |
| BtreeVerdict.EveryDownlinkIsAChild | postgres-ramen/contrib/amcheck/verify_nbtree.c:1700-1933 | each downlink of a mirrored level leads to a block of the level below, in its turn |
| BtreeVerdict.MissingDownlinkFollowsSplit | postgres-ramen/contrib/amcheck/verify_nbtree.c:2120-2289 | without ignorable pages and root flags below the root, a block without a downlink stands directly to the right of an incomplete split |
| BtreeVerdict.KeysBetweenSeparators | postgres-ramen/contrib/amcheck/verify_nbtree.c:1949-2104 | the keys of a child lie above its downlink's separator and, once its split is complete, not above the next separator of the parent level |
| BtreeHealth.AcceptedIsHealthy | postgres-ramen/contrib/amcheck/verify_nbtree.c:539-571 | whatever half-dead leaves, incomplete splits and interrupted deletions an accepted index has: if its inner rows are live with real first downlinks, its pages are healthy, as said of links, keys and downlinks alone |
| BtreeAccepts.HealthyIsAccepted | postgres-ramen/contrib/amcheck/verify_nbtree.c:654-878 | at bounds above the lengths of its rows every healthy index is accepted, and its rows are returned |
| BtreeAccepts.AcceptedIffHealthy | postgres-ramen/contrib/amcheck/verify_nbtree.c:539-571 | the check returns given rows, with inner rows live and first downlinks real, if and only if the pages are healthy in these rows |
| BtreeAccepts.HalfDeadIsPassed | postgres-ramen/contrib/amcheck/verify_nbtree.c:692-723 | three leaves with a half-dead one in the middle are accepted, and the half-dead one is part of the row |
| BtreeAccepts.HalfDeadAboveIsPassed | postgres-ramen/contrib/amcheck/verify_nbtree.c:692-723 | an accepted index with a half-dead leaf between two internal pages, whose pages are not healthy: the level of an ignorable page is not tested |
| BtreeVerdict.NoBlockTwice | postgres-ramen/contrib/amcheck/verify_nbtree.c:790-850 | the chain of a level of live pages visits no block twice |
| BtreeVerdict.LeafOrderIff | postgres-ramen/contrib/amcheck/verify_nbtree.c:1195-1378 | if the leaf level passes and no leaf is ignorable, its keys read left to right strictly increase if and only if across every run of empty leaves the last key before is below the first key after |
| BtreeVerdict.LeafKeysIncrease | postgres-ramen/contrib/amcheck/verify_nbtree.c:1195-1378 | so they increase whenever no leaf is empty |
| BtreeVerdict.EmptyLeafHidesDisorder | postgres-ramen/contrib/amcheck/verify_nbtree.c:1599-1611 | the whole check accepts an index of three leaves with an empty one in the middle whose keys are out of order |
| BtreeTermination.PageLoopEnds | postgres-ramen/contrib/amcheck/verify_nbtree.c:680-878 | with live pages only, the page loop makes at most one turn for each block of the index |
| BtreeTermination.ChildWalkEnds | postgres-ramen/contrib/amcheck/verify_nbtree.c:1794-1925 | if sibling links agree, every walk of the child level ends within one page for each block of the index |
| BtreeWalk.CallNeverEndsIff | postgres-ramen/contrib/amcheck/verify_nbtree.c:1745-1932 | on any index: the walk of a call never ends if and only if its right links lead back to a block met behind the first one, with the same split flag to its left, through pages that pass, need no item zero and are not the child looked for |
| BtreeWalk.WalkSettles | postgres-ramen/contrib/amcheck/verify_nbtree.c:1745-1932 | on any index: a walk keeps its verdict when more pages are allowed, and one without a verdict after two pages for each block never gets one |
| BtreeBounds.RightKeyNeverEndsIff | postgres-ramen/contrib/amcheck/verify_nbtree.c:1465-1485 | the search for a key to the right never ends if and only if it comes to a block twice through ignorable pages |
| BtreeBounds.LevelNeverEndsIff | postgres-ramen/contrib/amcheck/verify_nbtree.c:680-878 | the page loop never ends if and only if it comes to the same page twice in the same carried state, or to a page whose own check does not end |
| BtreeBounds.CheckSettles | postgres-ramen/contrib/amcheck/verify_nbtree.c:539-571 | on any index: the whole check keeps its verdict with larger bounds, and without a verdict at bounds that depend on the index alone it never gets one |
| BtreeTermination.CheckEnds | postgres-ramen/contrib/amcheck/verify_nbtree.c:539-571 | on live pages whose sibling links agree the whole check comes to a verdict |
| BtreeBounds.CheckNeverEndsIff | postgres-ramen/contrib/amcheck/verify_nbtree.c:539-571 | the check has no verdict at any bounds if and only if it has none at those, so a missing verdict there means that the source does not end |
| BtreeTermination.CheckMayNotEnd | postgres-ramen/contrib/amcheck/verify_nbtree.c:1794-1799 | the check of a root over incompletely split leaves, two of which form a circle, has no verdict whatever the bounds, because only the first block is compared with |
| BtreeWalk.CallReadsItemZeroIff | postgres-ramen/contrib/amcheck/verify_nbtree.c:1811-1874 | on any index: a call reads the item at offset zero if and only if its walk, after some pages that pass and need no key, comes to a page that passes the tests on its links and has a high key to match, with no downlink left |
| BtreeItemZero.SettledNeverReadsItemZero | postgres-ramen/contrib/amcheck/verify_nbtree.c:1700-1933 | the check of an index without incomplete splits, ignorable pages and root flags below the root never makes that read |
| BtreeItemZero.CheckReadsItemZero | postgres-ramen/contrib/amcheck/verify_nbtree.c:1811-1874 | a root over an incompletely split leaf with two more leaves to its right, whose check makes that read at the first page of its last call |
| BtreeSearch.BinSearch | postgres-ramen/src/backend/access/nbtree/nbtsearch.c:347-428 | the binary search on an ordered internal page finds the last item whose key is below the one looked for, the first item counting as minus infinity |
| BtreeSearch.DescendIsReach | postgres-ramen/src/backend/access/nbtree/nbtsearch.c:100-189 | the descent by downlinks and right links, on levels that match, comes to one leaf within as many pages as there are |
| BtreeSearch.LeafIsReachedIff | postgres-ramen/contrib/amcheck/verify_nbtree.c:2513-2589 | on an accepted index without incomplete splits the descent from the root comes to the leaf of a key if and only if the key is above the high keys of all leaves to the left |
| BtreeSearch.RootDescendIff | postgres-ramen/contrib/amcheck/verify_nbtree.c:2538-2589 | exactly the keys that bt_rootdescend finds in such an index: those on some leaf that are above the high keys of all leaves to its left |
| BtreeSearch.AcceptedKeyIsMissed | postgres-ramen/contrib/amcheck/verify_nbtree.c:2521-2533 | an index that the check accepts and in which a search from the root misses a key: the first child of a page holds it, and it is not above the high key of the page to the left of its parent |
| BtreeSearch.SplitKeyIsMissed | postgres-ramen/contrib/amcheck/verify_nbtree.c:1811-1815 | an accepted index with an incompletely split leaf whose high key is no separator, in which a key of the first leaf is missed |
| HstoreText.TextFits | postgres-ramen/contrib/hstore/hstore_io.c:1159-1225 | the text of every non-empty hstore and its NUL fit the size computed beforehand |
| HstoreText.ReadBack | postgres-ramen/contrib/hstore/hstore_io.c:60-278 | parsing the text of NUL-free pairs gives the pairs back in order, null and the string NULL told apart |
| HstoreGrammar.LayoutIsRead | postgres-ramen/contrib/hstore/hstore_io.c:60-278 | every way of writing pairs down, with quoted and bare words, escapes and white space wherever they may stand, and a trailing comma, is read as those pairs |
| HstoreGrammar.AcceptedIff | postgres-ramen/contrib/hstore/hstore_io.c:60-278 | a text without NUL is read as given pairs if and only if it is one of these ways of writing them |
| HstoreIo.HSParser.GetWord | postgres-ramen/contrib/hstore/hstore_io.c:60-172 | the five-state character loop reads the word, its quoting and the position behind it as the recursive reader does |
| HstoreIo.HSParser.ParsePairs | postgres-ramen/contrib/hstore/hstore_io.c:182-278 | the parser accepts exactly what the recursive parser accepts, with the same pairs |
| HstoreIo.CopyEscaped | postgres-ramen/contrib/hstore/hstore_io.c:1144-1155 | cpw appends the escaped bytes and takes at most twice their length |
| HstoreIo.WriteText | postgres-ramen/contrib/hstore/hstore_io.c:1159-1225 | hstore_out fills its buffer with the text and a NUL and never writes beyond it |
| HstorePairs.SortedIsCanonical | postgres-ramen/contrib/hstore/hstore_io.c:281-302 | two sorted pair lists with the same map are equal |
| HstorePairs.KeyLessIff | postgres-ramen/contrib/hstore/hstore_io.c:281-302 | shorter keys come first, and of two of the same length the one with the smaller byte where they first differ |
| HstorePairs.ConcatIsOverride | postgres-ramen/contrib/hstore/hstore_op.c:473-566 | the merge of hstore_concat is sorted and is map override, the right side winning |
| HstorePairs.DeleteKeyIsRemoval | postgres-ramen/contrib/hstore/hstore_op.c:247-289 | hstore_delete removes one key and nothing else |
| HstorePairs.DeleteKeysIsRemoval | postgres-ramen/contrib/hstore/hstore_op.c:294-368 | the merge of hstore_delete_array is sorted and removes exactly the set of keys |
| HstorePairs.DeletePairsIsDifference | postgres-ramen/contrib/hstore/hstore_op.c:373-468 | the merge of hstore_delete_hstore is sorted and removes exactly the keys that the other side holds with an equal value |
| HstorePacked.FlagsRead | postgres-ramen/contrib/hstore/hstore.h:23-34 | the mask macros recover position, null flag and first flag from an entry word |
| HstorePacked.ItemRead | postgres-ramen/contrib/hstore/hstore.h:79-83 | the key and value macros read each pair of a packed value right |
| HstorePacked.DecodePacked | postgres-ramen/contrib/hstore/hstore.h:79-83 | decoding a packed value gives back the pairs it was packed from |
| HstoreBuild.Builder.AddItem | postgres-ramen/contrib/hstore/hstore.h:99-126 | adding an item appends its bytes and, four bytes each, its two entry words, and leaves the items before it as they are |
| HstoreBuild.Builder.Finalize | postgres-ramen/contrib/hstore/hstore.h:129-140 | the memory then holds the packed form of the items: the first word flagged, the bytes directly behind the words in use, the size exact |
| HstoreBuild.Builder.MoveDown | postgres-ramen/contrib/hstore/hstore.h:129-140 | the overlapping move of bytes keeps every byte moved and every byte of the words in use |
| HstoreOps.FindKey | postgres-ramen/contrib/hstore/hstore_op.c:36-70 | the binary search from a lower bound finds the key exactly when it is there and leaves as the new bound the number of keys not above it |
| HstoreOps.NextSearch | postgres-ramen/contrib/hstore/hstore_op.c:36-70 | the bound left by one search is valid for the search of any larger key |
| HstoreOps.ExistsAny | postgres-ramen/contrib/hstore/hstore_op.c:164-193 | with increasing keys and the carried bound, the answer is whether some key is in the map |
| HstoreOps.ExistsAll | postgres-ramen/contrib/hstore/hstore_op.c:198-227 | with increasing keys and the carried bound, the answer is whether all keys are in the map |
| HstoreOps.ContainsAll | postgres-ramen/contrib/hstore/hstore_op.c:967-1010 | the answer is whether every pair of the template is in the map of the value |
| HstoreMerge.Delete | postgres-ramen/contrib/hstore/hstore_op.c:247-289 | the stored result is the packed form of the pairs without the key, with exact size |
| HstoreMerge.DeleteArray | postgres-ramen/contrib/hstore/hstore_op.c:294-368 | the stored result is the packed form of the merge against the keys |
| HstoreMerge.DeleteHstore | postgres-ramen/contrib/hstore/hstore_op.c:373-468 | the stored result is the packed form of the merge against the other value |
| HstoreMerge.ConcatHstores | postgres-ramen/contrib/hstore/hstore_op.c:473-566 | the stored result is the packed form of the merge; it fails exactly when the memory asked for exceeds the allocation limit |
| HstoreMerge.PackPairs | postgres-ramen/contrib/hstore/hstore_io.c:380-406 | hstorePairs packs the pairs in order with exact size |
| HstoreInput.UniqueIsSorted | postgres-ramen/contrib/hstore/hstore_io.c:311-356 | after sorting and removing duplicates the keys strictly increase |
| HstoreInput.UniqueKeepsKeys | postgres-ramen/contrib/hstore/hstore_io.c:311-356 | every pair kept was there, and every key that was there is kept |
| HstoreInput.UniqueKeepsFirst | postgres-ramen/contrib/hstore/hstore_io.c:311-356 | a pair is kept if and only if it is the first of the run of its key in the sorted pairs |
| HstoreInput.UniquePairs | postgres-ramen/contrib/hstore/hstore_io.c:311-356 | the in-place loop keeps the first pair of each run and returns the exact number of bytes |
| HstoreInput.SortingIsUnique | postgres-ramen/contrib/hstore/hstore_io.c:281-302 | any sorted arrangement of strictly increasing pairs is that arrangement |
| HstoreInput.OutputIsReadBack | postgres-ramen/contrib/hstore/hstore_io.c:411-426 | a well-formed value written by hstore_out and read by hstore_in, whatever order the sort leaves equal elements in, is stored identically |
| HstoreUpgrade.ValidOld | postgres-ramen/contrib/hstore/hstore_compat.c:171-229 | the validity code of any value without the version flag, whatever its count and the memory behind it: 0 unless the count fits and the pairs are contiguous with growing keys and fit, 2 if they fit exactly or there are none |
| HstoreUpgrade.ValidNew | postgres-ramen/contrib/hstore/hstore_compat.c:119-162 | the validity code of any such value read as new; 0 if the count does not fit, whatever the word read outside the value is |
| HstoreUpgrade.Rewrite | postgres-ramen/contrib/hstore/hstore_compat.c:319-341 | the in-place loop, where new words replace the old ones they are computed from, leaves the packed words of the old pairs |
| HstoreUpgrade.Upgrade | postgres-ramen/contrib/hstore/hstore_compat.c:236-347 | for any value without the version flag: it is refused exactly when it fails the quick test and is valid in neither format, rewritten exactly when it fails the quick test and is valid as old, and does not grow unless it passed the quick test |
| HstoreUpgrade.RewrittenReadsTheSame | postgres-ramen/contrib/hstore/hstore_compat.c:319-343 | for every value accepted as old, the rewritten value decodes to the same keys, values and nulls, with exact size |
| HstoreUpgrade.QuickTestMistakesOldIff | postgres-ramen/contrib/hstore/hstore_compat.c:249-255 | a valid old value is taken for a new one by the first test if and only if it is smaller than 32768 bytes and its first value is null and yet carries a length of 32768 or more |
| HstoreUpgrade.UpgradedReadsOldIff | postgres-ramen/contrib/hstore/hstore_compat.c:236-347 | what the upgrade leaves of a valid old value decodes to its pairs if and only if the first test did not take it for a new one; otherwise its first value is read as not null |
| HstoreUpgrade.OldValueMisread | postgres-ramen/contrib/hstore/hstore_compat.c:249-255 | a valid old value of one null that is read as an empty string afterwards |
| CubeBoxes.Union | postgres-ramen/contrib/cube/cube.c:691-748 | the result is the smallest box around both, missing dimensions counted as zero, and is flagged a point exactly when it is flat |
| CubeBoxes.Inter | postgres-ramen/contrib/cube/cube.c:766-838 | the corners of the result are the larger lower and the smaller upper bounds, turned over where the boxes do not meet, and it is flagged a point exactly when it is flat |
| CubeBoxes.ContainsV0 | postgres-ramen/contrib/cube/cube.c:1067-1102 | the loops decide containment over the dimensions of the second box |
| CubeBoxes.OverlapV0 | postgres-ramen/contrib/cube/cube.c:1137-1172 | the loops decide whether the zero-extended boxes meet |
| CubeBoxes.KeysCover | postgres-ramen/contrib/cube/cube.c:368-392 | in every tree of unions over boxes of mixed dimension each key covers every box below it in all dimensions |
| CubeBoxes.NodesNeverPrune | postgres-ramen/contrib/cube/cube.c:651-675 | no key prunes a matching box below it; for contained-by the query must reach zero in the dimensions that the box lacks |
| CubeBoxes.ContainedByIff | postgres-ramen/contrib/cube/cube.c:651-675 | for contained-by that condition is exact: the box is found through every tree of keys if and only if it holds |
| CubeBoxes.ContainedIsMissed | postgres-ramen/contrib/cube/cube.c:651-675 | a point that is contained in a point of two dimensions and missed by a contained-by search |
| CubeDistance.GapFacts | postgres-ramen/contrib/cube/cube.c:1446-1458 | distance_1D is the gap between the intervals, symmetric and not negative |
| CubeDistance.DistanceMeasures | postgres-ramen/contrib/cube/cube.c:1196-1338 | the combination is the sum of the gaps, the sum of their squares, or the largest gap, by the metric asked for |
| CubeDistance.Measure | postgres-ramen/contrib/cube/cube.c:1196-1338 | the loops compute, over all dimensions of both boxes, the sum of the gaps for the taxicab metric, the sum of their squares for the squared Euclidean one and the largest gap for Chebyshev |
| CubeDistance.KeyDistanceIsLowerBound | postgres-ramen/contrib/cube/cube.c:1341-1443 | in each metric the distance of a key is at most the distance of every box below it |
| CubeDistance.KeyCoordIsLowerBound | postgres-ramen/contrib/cube/cube.c:1346-1415 | for every signed coordinate number the value of a key is at most that of every box or key below it |
| CubeSplit.PickSplit | postgres-ramen/contrib/cube/cube.c:454-598 | for every two or more entries: the seeds are the first pair of most waste, or the first two entries if the search does not run, every entry goes to exactly one side in ascending order, every one but the seeds to the side whose box it then enlarges less, and each key is the smallest box around its seed and side |
| CubeSplit.HullSizeIs | postgres-ramen/contrib/cube/cube.c:853-875 | the size of a box around any number of entries is the product of the extents from the least lower to the largest upper bound, zero without dimensions |
| CubeSplit.UnionSizeIs | postgres-ramen/contrib/cube/cube.c:853-875 | the size of a union is the product of the sides of the smallest box around both, as the waste of two entries counts it |
| CubeSplit.InterSizeIs | postgres-ramen/contrib/cube/cube.c:853-875 | the size of an intersection is the product of the distances between those bounds, as the waste of two entries counts it |
| GistSplit.FindSeeds | postgres-ramen/contrib/cube/cube.c:478-521 | the search loops return the first pair of most waste among all entries but the last, and the first two entries if there are fewer than three |
| GistSplit.FindFarthest | postgres-ramen/contrib/hstore/hstore_gist.c:390-414 | the search that starts from the distance -1 and replaces seeds that were not found returns the same pair |
| GistSplit.PlacedOnce | postgres-ramen/contrib/hstore/hstore_gist.c:438-491 | for any order of the offsets, any two seeds and any choice of sides, every offset is placed once and each side holds its seed |
| GistSplit.GreedyIsUnique | postgres-ramen/contrib/hstore/hstore_gist.c:438-491 | the order of placing, the seeds and the rule for choosing a side determine both sides |
| GistSplit.SidesAscendIff | postgres-ramen/contrib/intarray/_int_gist.c:541-547 | both sides are in ascending order for every choice of sides if and only if the entries, the two seeds excepted, were placed in ascending order |
| SignatureGist.CoversIffBits | postgres-ramen/contrib/hstore/hstore_gist.c:290-300 | a key covers another if and only if it has every bit of it, all-true keys included |
| SignatureGist.SignKey.Absorb | postgres-ramen/contrib/hstore/hstore_gist.c:459-486 | an entry is or-ed in, an all-true entry fills the bytes and leaves the flag clear, an all-true key stays as it is |
| SignatureGist.AbsorbedBits | postgres-ramen/contrib/hstore/hstore_gist.c:459-486 | the key afterwards has exactly the bits of the key before and of the entry |
| SignatureGist.AbsorbedCovers | postgres-ramen/contrib/hstore/hstore_gist.c:459-486 | the key afterwards covers the entry and everything it covered before |
| SignatureGist.HemDistIsCount | postgres-ramen/contrib/hstore/hstore_gist.c:246-287 | the distance of two keys, all-true ones included, is the number of bits in which they differ |
| SignatureGist.UnionOf | postgres-ramen/contrib/hstore/hstore_gist.c:303-327 | the union has exactly the bits of the entries, covers each of them and is flagged all-true exactly when one of them is |
| SignatureGist.PickSplit | postgres-ramen/contrib/hstore/hstore_gist.c:358-497 | for any order of placing: the seeds are the first pair farthest apart, every entry is placed once, every other entry goes to the side from whose bits it then differs in fewer, up to the bonus for the smaller side, and each key has exactly the bits of its seed and side, with all-true entries and seeds on either side |

## Left out

- Buffers, locks below the page level, write-ahead logging, the free space map and memory contexts: commits are atomic steps, and the free space map offers any page.
- GiST penalty functions, and comparecost with qsort: the picksplits place entries in any order (SignatureGist.PickSplit, IntSplit.PickSplit), which includes every order that the sort can leave.
- The consistent and compress functions of intbig and hstore signatures: QueryIndex takes an intbig signature for the set of its bits.
- The multibyte text path of btree_gist, its per-type wrappers, btree_utils_num.c and the packing of two bounds into one varlena.
- check_stack_depth in the recursive functions of _int_bool.c, and the growth of output buffers.
- qsort and memcmp: a sort is any sorted arrangement, memcmp is lexicographic byte order.
- Allocation failure, except where hstore_concat asks for the sum of two sizes.
- bt_index_check without the read-only lock, heapallindexed, posting lists, tuple size and attribute checks: keys are integers, compared and tested for identity as such.
- BtreeChecker.BtreeCheckState.CheckChildHighKeys: a walk takes at most `fuel` pages and then ends without a verdict, because the loop of the source need not end; BtreeWalk.WalkSettles says that above twice the number of blocks the bound changes nothing.
- BtreeChecker.BtreeCheckState.FirstRightKey: bounded by `fuel` in the same way; BtreeBounds.CheckSettles says when the bound changes nothing.
- BtreeChecker.BtreeCheckState.CheckLevelFrom: bounded by `steps`; BtreeBounds.CheckSettles says when the bound changes nothing, and BtreeTermination.PageLoopEnds that the number of blocks is enough when all pages are live.
- BtreeVerdict.AcceptedIsWellFormed: asks for live pages, because the agreement of sibling links is not tested on ignorable ones.
- BtreeHealth.AcceptedIsHealthy: asks for inner rows without half-dead leaves and with real first downlinks, because the code tests neither; BtreeAccepts.HalfDeadAboveIsPassed and BtreeVerdict.ZeroDownlinkIsAccepted show that it accepts such rows.
- BtreeAccepts.AcceptedIffHealthy: the same.
- BtreeSearch.RootDescendIff: asks for an index without incomplete splits, live and with root flags on the top level only; BtreeSearch.SplitKeyIsMissed shows that the condition is not the one for incomplete splits, whose high keys are compared with nothing.
- BtreeSearch.LeafIsReachedIff: the same; the steps of the descent under concurrent splits are not modelled.
- HstoreGrammar.AcceptedIff: texts hold no NUL, which ends a C string.
- HstoreText.ReadBack: white space is that of the C locale.
- HstoreUpgrade.ValidOld: positions are summed without 32-bit overflow.
- HstoreUpgrade.Upgrade: the layout of old entries is the little-endian one, and the value is shorter than 2^30 bytes as every varlena is; of a value that passes the quick test only the size is stated, as the code tests nothing else.
- Record, array and JSON conversions of hstore, its GIN class, hstore_slice_to_hstore, hstore_recv and the old-format diagnostics.
- cube: coordinates are reals, so rounding, NaN and the square root of the Euclidean distance are not modelled; input, output, enlargement and cube_cmp_v0 beyond equality are left out.
- BloomSignatures.SignValue: hash functions are arbitrary; what happens after a bit number of -1 is only reported.
- blvacuumcleanup: it only counts pages and records free ones, which the free space map here may do at any time.
- The other contrib modules: I/O, foreign calls, thin wrappers and data tables.
