# Array algorithms of the J interpreter

This project models the routines of the J interpreter in which a fast form has to agree with a simple
definition: amend and its selectors, partitioning by key, the memo table, AES, verb inversion, the fixing of
names, Boolean scans and inserts, moving windows, infixes and outfixes, folds, the blocked matrix product, the
polynomial product, and amend of sparse arrays. For each it proves that the fast form computes the definition,
or says exactly when it does.

Code that changes state is modelled by methods with the loops, cursors and buffers of the source, each proved
against a function or predicate; the laws are lemmas about those. Code made of expressions is modelled by
functions and lemmas. Most proofs start with `hide *` and go step by step, so that each member is cheap.

The modules, by subject:

- Memo: `Memo`.
- Key: `Classes` (the definition), `Frets`, `Key`, `KeySmallRange`, `KeyReduce`.
- Amend: `AmendSpec` (nested loops), `AmendOdometer`, `AmendMerge`, `AmendLaws`,
  `AmendMeaning` (from the arguments alone), `AmendIndex`, `CellOffset`.
- Sparse amend: `SparseSpec` (what a sparse array denotes), `SparsePad`, `SparseCells`, `SparseRuns`,
  `SparseSeats`, `SparseAmend`, `Transpose`, `SparseStandard`, `SparseReplace`.
- AES: `AesField`, `AesTables`, `AesCipher` (FIPS 197 on values), `AesSbox` and `AesVectors` (tables and cipher
  against its definitions and examples), `AesBlock` (in place), `AesKeys`, `AesNi`, `AesNiKeys`, `AesSse`,
  `AesSseCipher`, `AesModes`, `AesCounter`.
- Verbs: `Inverse`, `InverseLaws`, `Fix`, `FixLaws`.
- Scans, windows, products: `BooleanSpec`, `BooleanLists`, `BooleanStrips`, `WindowSpec`, `WindowColumns`,
  `WindowSums`, `WindowExtremes`, `Outfix`, `OutfixInsert`, `OverflowTotals`, `OverflowTables`, `LaneSums`,
  `MatrixProduct`, `Polynomial`.
- Fold: `Fold`, `FoldLaws`.
- `Arith` and `Wrappers` serve the others.

## What the proofs found

- Memo table: monad and dyad share the table, and a monad `f n` is remembered under (n,n), although the comment at
  `jsrc/a.c:141` gives monads a column of their own. A memoed verb is exact just for the runs that never confuse
  `f n` with `n f n` (`Memo.MemoExactIff`, `Memo.SharedTableExample`). That calls overlap, as they do when a memoed
  verb calls itself, does no other harm (`Memo.OverlapExactIff`).
- Memo table: growing the hash empties it, and until the next insertion rebuilds it every lookup answers "not found".
- Key: the comment at `jsrc/ao.c:419` asks for the fret count to be clamped; the code takes the larger of two counts.
  The smaller would overflow the frets (`Frets.SmallerClampOverflows`). Fret lengths are 32 bits wide, and are read
  back exactly when they fit (`Frets.RoundTripIff`).
- Complementary indexes: the comment at `jsrc/am.c:527` speaks of a spare word between indexes and mask. The code has
  none and needs none; the bound is met with equality (`AmendIndex.NoOverlap`, `AmendIndex.NoSlack`).
- Inverse: a zero multiplier is inverted but not undone, exactly then (`InverseLaws.BoundUndoneIff`). A negative power
  of a negative power has an inverse that undoes it exactly if the verb has an inverse or the whole is nowhere defined
  (`InverseLaws.PowerUndoneIff`, `InverseLaws.NoInverseExample`); a single negative power is always undone
  (`InverseLaws.PowerUndone`).
- Fix: a cycle is found exactly if the last name of the full list also stands before its last two places
  (`Fix.CycleStartIs`).
- Fold: with fewer than two items and a failing u, the exit reads a status variable that has not been set; the model
  takes this for a failure. There u runs once and v does not, so that only folds that enter the loop count at least as
  many executions of v as of u (`Fold.OrderedIff`, `Fold.OneItemExample`).
- Boolean scans: the last word of `~:\` is stored in full before its valid bytes are stored again, contrary to
  `jsrc/ap.c:82`, so that up to seven bytes after the list change. Rows are scanned in order, so the result is right
  (`BooleanLists.ScanNeEqRows`).
- Moving sums: the guard takes its quotient in double precision. For windows of 5 it is rounded up so far that totals
  beyond 64 bits get through; with the exact quotient none does (`WindowSums.RoundedQuotientInsufficient`,
  `WindowSums.OverflowExample`, `WindowSums.SufficientIff`).
- Outfix: the sum that rounds the number of windows up can leave 64 bits (taken to wrap), and then the mask has no row
  for the window; this is exactly when the general outfix is wrong (`Outfix.GeneralIff`).
- Sparse padding: if no indexed axis is sparse and the array has no rows yet, a table of indexes makes every cell
  twice, so that the rows are not distinct; and the dummy row of zeros is out of range if an indexed sparse axis has
  no indexes. In all other cases, and only in those, padding gives a well-formed array (`SparsePad.PadValidIff`). If
  a sparse axis after the indexed ones has no indexes, the addresses are one item past the end
  (`SparseSeats.PastTheLastIff`).
- Sparse amend: a replacement of fewer axes than the selected cells is repeated to all of them, but the order of its
  axes is then worked out from the old number of axes (`jsrc/amn.c:97,106,108`; `jsrc/am1.c:46-47` uses the new one).
  The stores are right for every replacement if no axis that is not indexed is sparse, or if an indexed axis is sparse
  and the sparse axes that are not indexed come first; if every axis has two indexes or more, and no index row is
  there twice, a replacement of different atoms is stored right only then (`SparseReplace.ShorterInPlaceIff`,
  `SparseReplace.ShorterExample`). For all lengths of axes it is right exactly if the axes of the replacement are as
  far apart in both orders (`SparseReplace.ShorterIff`). With fewer axes than there are axes not indexed the amend
  fails.

## Model

| member | source | states |
|---|---|---|
| Memo.Table.constructor | jsrc/a.c:171-182 | The tables start empty and well formed. |
| Memo.Table.Put | jsrc/a.c:110-139 | An insertion adds the entry for the pair at the end and leaves every entry indexed by the hash, growing what is full; if the allocator fails nothing is inserted; it cannot fail otherwise. |
| Memo.Table.Get | jsrc/a.c:143-152 | A lookup ends, and answers the first result stored under exactly this pair, none if there is none or if the hash was emptied by growth. |
| Memo.Table.ProbeDecides | jsrc/a.c:149 | Where downward probing from the home slot stops, at an empty slot or at the pair, decides the lookup. |
| Memo.Table.FindEmpty | jsrc/a.c:132 | Probing for a new entry ends at an empty slot, past used slots only. |
| Memo.Table.Rehash | jsrc/a.c:124-127 | An emptied hash indexes every entry again. |
| Memo.Table.ExtendHash | jsrc/ct.c:47-82 | The hash at least doubles and is emptied, entries are kept; on failure nothing changes. |
| Memo.Table.ExtendKeys | jsrc/ct.c:47-82 | The key table at least doubles and keeps its entries; on failure nothing changes. |
| Memo.LookupAfterInsert | jsrc/a.c:129-136 | An insertion decides the lookups of its own pair only, and only if the pair was not there. |
| Memo.LookupIsMap | jsrc/a.c:143-152 | Lookup agrees with a finite map that keeps the first result stored under a pair. |
| Memo.Memo12 | jsrc/a.c:157-168 | A call during which nothing is inserted returns the remembered result or runs the verb and remembers, as the step of the specification; a failed allocation loses the result and leaves the table. |
| Memo.Recall | jsrc/a.c:164-168 | The lookup of a call: the result first stored under its pair, or that the verb is to run, and the pair. |
| Memo.Remember | jsrc/a.c:168 | The insertion of a call adds its entry after whatever was inserted since its lookup; a failed allocation loses the result and leaves the table. |
| Memo.OverlapExactIff | jsrc/a.c:163-168 | Calls whose lookups and insertions interleave in any way return what the verb returns, exactly if none looks up after a call it is confused with was the first of its key to return. |
| Memo.MemoExactIff | jsrc/a.c:163-168 | Over every run of calls a memoed verb returns what the verb returns, exactly if the run never confuses `f n` and `n f n` where they differ. |
| Memo.SharedTableExample | jsrc/a.c:163-168 | `- 5` and then `5 - 5` answers _5. |
| Classes.NubIsKeys | jsrc/ao.c:442-444 | The classes are the keys that occur, each once. |
| Classes.PositionsDiffer | jsrc/ao.c:449-466 | No two items go to one place. |
| Classes.PositionOrder | jsrc/ao.c:449-466 | Items go in the order of the first item with their key, and of one key in their own order. |
| Classes.PositionsDecide | jsrc/ao.c:449-466 | A buffer with every item at its position is the grouping: classes by first occurrence, items in their order. |
| Classes.GroupedIsPermutation | jsrc/ao.c:449-466 | The grouping is a rearrangement of the items. |
| Frets.Put | jsrc/ao.c:457 | A length is appended in one byte, or as 255 and four bytes, and earlier frets are kept. |
| Frets.EncodingFits | jsrc/ao.c:433 | The frets of all partitions fit the space that is reserved. |
| Frets.SmallerClampOverflows | jsrc/ao.c:419 | The clamp described in the comment would reserve too little. |
| Frets.Read | jsrc/cc.c:916-918 | The loop of the cut reads the lengths that decoding gives. |
| Frets.EncodeIs | jsrc/ao.c:457 | A length below 255 is its own byte; else 255 and four bytes that give it modulo 2^32, the lowest first. |
| Frets.RoundTripIff | jsrc/ao.c:457 | The lengths read back are the lengths written exactly if each is below 2^32. |
| Key.TakePlace | jsrc/ao.c:450-463 | One item: its place is its position in the grouping, the end pointer of its class advances, and a new partition has its fret; the rest of the table still tells lengths and classes. |
| Key.Scatter | jsrc/ao.c:430-466 | The pass leaves the grouping, and the frets of the class sizes, while the classify table turns into end pointers. |
| Key.NextFret | jsrc/cc.c:930-936 | In the used table the next entry at or above its index is the first item of the next class. |
| KeySmallRange.CountKeys | jsrc/ao.c:475-476 | The table holds the negative class sizes and the classes are counted. |
| KeySmallRange.Scatter | jsrc/ao.c:467-519 | The small-range pass gives the same grouping and the same frets. |
| KeyReduce.AccumulateIsInsert | jsrc/ao.c:268-284 | For an associative verb accumulating from the left is the right-to-left insert. |
| KeyReduce.InsertThree | jsrc/ao.c:268-284 | The insert goes from right to left. |
| KeyReduce.KeySlash | jsrc/ao.c:268-284 | One pass with the totals' places written over the classify table gives the insert of every class, in class order. |
| KeyReduce.KeySlashSmallRange | jsrc/ao.c:346-361 | The same through the small-range table of addresses. |
| KeyReduce.MarkKeys | jsrc/ao.c:328-338 | The table marks exactly the keys that occur, and they are counted. |
| KeyReduce.KeySlashInRange | jsrc/ao.c:318-361 | From keys in a small range to the insert of every class, in class order. |
| KeyReduce.KeyTally | jsrc/ao.c:732-738 | The sizes of the classes, read from the classify table up to the last class. |
| KeyReduce.KeyTallySmallRange | jsrc/ao.c:714-729 | The sizes of the classes, through the table that is one less than each count. |
| KeyReduce.KeyTallyBoolean | jsrc/ao.c:707 | The sizes of the classes of a Boolean list. |
| KeyReduce.CutGivesGroups | jsrc/cc.c:916-945 | Cutting the grouping by the class sizes gives the classes. |
| AmendOdometer.CopyBlock | jsrc/am.c:417-446 | The loop over the last two axes stores what the nested loops over them store, and leaves the cursor into x right. |
| AmendOdometer.Carry | jsrc/am.c:448-463 | Wheels at their end go back and reset the cursor; the first other wheel advances; what is left to do is unchanged. |
| AmendOdometer.Rebase | jsrc/am.c:466-472 | The bases below the wheel that moved are again the sums of index times cell size; those above are kept. |
| AmendOdometer.Run | jsrc/am.c:416-480 | For any number of axes, in full or with index lists, the odometer leaves what the nested loops leave, with x repeating. |
| AmendMerge.Agrees | jsrc/am.c:139-159 | The shape check passes exactly if the shape of x is a suffix of the shape of the selected cells; it is a rank error exactly if x has more axes and those compared agree, else a length error. |
| AmendMerge.SetUp | jsrc/am.c:290-317 | Strides, and resets that make the cursor start over where x ends, or the report that x ends inside a table selector. |
| AmendMerge.Merge | jsrc/am.c:279-317 | From shapes to result: rank and length errors exactly for shapes that disagree, a split selector exactly where x ends inside a table selector, nothing changed if nothing is stored, else the nested loops, and so x m} y as said from the selectors and the atoms of x. |
| AmendLaws.NestIsList | jsrc/am.c:416-480 | The nested loops store cells 0, 1, 2, ... of x, with wrap, at a list of offsets in order. |
| AmendLaws.CombinationStored | jsrc/am.c:279-317 | The store for a combination of indexes goes to the sum of index times cell size. |
| AmendLaws.RankOrdered | jsrc/am.c:416-480 | Combinations are stored in row-major order, no two at one place. |
| AmendLaws.PlaceHasCombination | jsrc/am.c:416-480 | Every store belongs to a combination. |
| AmendLaws.AtomStored | jsrc/am.c:416-480 | An atom has what the last store over it took from x: store k takes cell k modulo the cells of x. |
| AmendLaws.AtomKept | jsrc/am.c:416-480 | An atom that no selected cell covers is kept. |
| AmendMeaning.ResultAmends | jsrc/am.c:407-480 | What the nested loops leave is x m} y, said from the selectors, the lengths of the axes and the atoms of x alone: a combination of indexes at row-major place k selects the cell with entry d[i] of each selector, an atom has its atom of cell k of x, repeated, for the last combination that selects it. |
| AmendMeaning.SelectedAtom | jsrc/am.c:407-480 | The atom for the last combination that selects it, entries of a selector counted forwards. |
| AmendMeaning.UnselectedAtom | jsrc/am.c:407-480 | An atom that no combination selects is kept. |
| AmendMeaning.TwoRows | jsrc/am.c:468 | 10 20 stored at columns 0 and 2 of both rows of a table of shape 2 3 makes each row 10 . 20. |
| AmendIndex.CrossOff | jsrc/am.c:532 | Negative indexes wrap, an index out of range is reported, and the mask loses exactly the bits named. |
| AmendIndex.WriteIndexes | jsrc/am.c:533-534 | The mask in the tail of the buffer is replaced by its indexes, ascending, from the front. |
| AmendIndex.NoOverlap | jsrc/am.c:526-533 | An index is never written over a mask word that is still to be read. |
| AmendIndex.NoSlack | jsrc/am.c:526-533 | The bound is met with equality. |
| AmendIndex.CompIdx | jsrc/am.c:517-536 | Exactly the indexes of the axis that the selector does not name, ascending, or the error for an index out of range, or the axis in full. |
| AmendIndex.UnnamedIsComplement | jsrc/am.c:517-536 | What that list has: membership and order. |
| AmendIndex.NamedIsMember | jsrc/am.c:532 | An index is named exactly if an entry of the selector, wrapped, is that index. |
| AmendIndex.Wrapped | jsrc/am.c:532 | An index is itself or, counted from the end, itself plus the length; none exactly if that is out of range. |
| CellOffset.CellOffsets | jsrc/am.c:489-509 | Rows become cell numbers; too long rows and indexes out of range are errors, exactly. |
| CellOffset.CellInjective | jsrc/am.c:506 | Two rows have one number exactly if they are the same. |
| CellOffset.CellOrder | jsrc/am.c:506 | Numbers follow row-major order. |
| SparseSpec.WithRowKeeps | jsrc/amn.c:81-89 | A row filed in its place with an item of the element keeps rows in order, in range and distinct, and changes no atom. |
| SparseSpec.AtMeans | jsrc/amn.c:58-92 | What a sparse array denotes: the row with the indexes of the sparse axes has the atom, in row-major order of the other axes, else the atom is the element. |
| SparsePad.InNewRows | jsrc/amn.c:62-80 | Exactly which rows are added: the cells of every key of the index table, and of the dummy, that are not there. |
| SparsePad.PadKeeps | jsrc/amn.c:58-92 | Padding changes no atom of the denoted array and keeps the rows in order and distinct. |
| SparsePad.PadValidIff | jsrc/amn.c:58-92 | The padded array is well formed exactly outside the two cases named above. |
| SparsePad.PadCompleteIff | jsrc/amn.c:58-92 | Every addressed cell has its row, exactly unless the index array is not a table, indexes no sparse axis, and indexes no axis at all or there is no sparse axis, and the rows were not there. |
| SparsePad.TwiceExample | jsrc/amn.c:68-79 | An array of shape 2 1 without rows that is not well formed after padding. |
| SparsePad.OutsideExample | jsrc/amn.c:71-73 | An array with an axis of length 0 that is not well formed after padding. |
| SparseCells.OffsetParts | jsrc/amn.c:29-30 | The place in an item is the start of the addressed cell and the place within it. |
| SparseCells.CellMatches | jsrc/amn.c:29-40 | An index lies in the cell of an index row exactly if sparse key and cell number agree. |
| SparseCells.HeadsTogether | jsrc/amn.c:43-47 | Rows that share a key are next to each other. |
| SparseRuns.CountRuns | jsrc/amn.c:43-47 | For each index row, how many rows from its first on have its key. |
| SparseRuns.Addresses | jsrc/amn.c:20-52 | The item and the place of every cell each index row addresses, in the order of the replacement. |
| SparseSeats.EntryAtSeat | jsrc/amn.c:20-52 | In a padded array the address of an item and an index row stands at the seat of its value in the replacement. |
| SparseSeats.SeatOfEntry | jsrc/amn.c:20-52 | Every address is at such a seat. |
| SparseSeats.PastTheLastIff | jsrc/amn.c:41-50 | Every address is in an item, exactly unless a sparse axis after the indexed ones has no indexes. |
| SparseSeats.PastTheLastExample | jsrc/amn.c:41-50 | An array of shape 1 0 without items in which item 0 is addressed. |
| SparseAmend.StoreBlocks | jsrc/amn.c:118-131 | Storing block after block leaves in each block what the last store to it took. |
| SparseAmend.AmendStandard | jsrc/amn.c:122-133 | Padding and storing a replacement in standard form leaves at each addressed index the atom at its seat for the last index row that matches, and every other atom as it was. |
| SparseAmend.AmendElement | jsrc/amn.c:111-120 | Amending with the sparse element denotes the array with the addressed cells set to it, and adds no row. |
| Transpose.SizeReordered | jsrc/vcant.c:49-105 | An order of the axes keeps the number of atoms. |
| Transpose.TransposedAt | jsrc/vcant.c:49-105 | A transpose puts every atom at the place of its index in the new order of axes. |
| Transpose.SpansSuffice | jsrc/amn.c:102-108 | Two orders give one list of a repeated array if the axes of what is repeated are as far apart in both. |
| Transpose.SpansNeeded | jsrc/amn.c:102-108 | For different atoms, only then. |
| SparseStandard.DownGradeIs | jsrc/amn.c:107 | The grade of flags is a permutation along which they descend, equal flags in order. |
| SparseStandard.StandardPlace | jsrc/amn.c:103-108 | With its axes in graded order, the place of an index in a replacement is where the stores read it. |
| SparseStandard.StandardizeIs | jsrc/amn.c:94-109 | The errors, exactly; else an atom, or the replacement repeated to all axes, in the order the code gives them. |
| SparseStandard.SpansIff | jsrc/amn.c:106-108 | If every axis has two indexes or more, the order for fewer axes is right exactly if nothing need be transposed. |
| SparseReplace.ReadNatural | jsrc/amn.c:94-133 | What is read for an index and an index row is the atom of the replacement in row-major order of the selected cells. |
| SparseReplace.AmendDense | jsrc/amn.c:94-133 | For an atom, a replacement of all axes, and a shorter one whose order is right, amend denotes the dense amend: each addressed atom has the replacement's atom for the last index row that matches, every other atom is kept; rank, length and domain errors exactly. |
| SparseReplace.RightOrderIff | jsrc/amn.c:106-108 | The order is right for all axes, and for fewer if nothing need be transposed; if it is right for fewer, nothing need be or some axis has fewer than two indexes. |
| SparseReplace.ShorterIff | jsrc/amn.c:94-109 | A shorter replacement of different atoms, for different index rows, is stored right exactly if its order is right. |
| SparseReplace.ShorterInPlaceIff | jsrc/amn.c:94-109 | With two indexes or more on every axis, exactly if nothing need be transposed. |
| SparseReplace.ShorterExample | jsrc/amn.c:94-109 | Rows of an array of shape 2 3 with sparse axis 1, amended by 10 20 30: 30 where 20 belongs. |
| AesField.MixUndone | jsrc/aes-c.c:244-292 | The matrix of InvMixColumns undoes that of MixColumns, FIPS 197 section 5.3.3. |
| AesField.MixByXtime | jsrc/aes-c.c:244-264 | A column step with one xtime a byte is the matrix product of section 5.1.3. |
| AesField.MultiplyAdd | jsrc/aes-c.c:266-275 | Multiplication distributes over addition. |
| AesTables.SboxUndone | jsrc/aes-c.c:23-60 | The second table undoes the first, for all bytes. |
| AesSbox.SboxIs | jsrc/aes-c.c:23-41 | FIPS 197 section 5.1.1: 0 goes to 0x63, every other byte to the affine image of the one byte whose product with it in the field is 1. |
| AesSbox.MultiplyIsTimes | jsrc/aes-c.c:266-271 | The multiplication by numbers of at most five bits is the product of the field, section 4.2. |
| AesCipher.ShiftFromIs | jsrc/aes-c.c:210-236 | Row r moves r columns. |
| AesCipher.CipherUndone | jsrc/aes-c.c:336-384 | For every round-key array and every block, deciphering undoes enciphering. |
| AesVectors.RoundIs | jsrc/aes-c.c:336-357 | A round, column by column: a diagonal of the state, each byte replaced by the affine image of its inverse, times the matrix, plus the column of the key. |
| AesVectors.VectorIs | jsrc/aes-c.c:336-357 | The example of FIPS 197, appendix C.1: with the schedule of 000102...0f, 00112233...ff is enciphered to 69c4e0d8...5a. |
| AesVectors.MiddleKeyIs | jsrc/aes-c.c:87-166 | Words of the schedule of appendix C.2. |
| AesVectors.LongKeyIs | jsrc/aes-c.c:87-166 | Words of the schedule of appendix C.3, with the substitution in the middle of the key. |
| AesBlock.AddRoundKey | jsrc/aes-c.c:185-193 | The round key is added to the 16 bytes in place, and nothing else changes. |
| AesBlock.SubBytesInPlace | jsrc/aes-c.c:197-205 | The bytes are substituted in place. |
| AesBlock.InvSubBytesInPlace | jsrc/aes-c.c:297-305 | The bytes are substituted back in place. |
| AesBlock.ShiftRowsInPlace | jsrc/aes-c.c:210-236 | The swaps through one temporary are ShiftRows. |
| AesBlock.InvShiftRowsInPlace | jsrc/aes-c.c:307-333 | The swaps are InvShiftRows. |
| AesBlock.MixColumnsInPlace | jsrc/aes-c.c:244-264 | Each column is multiplied by the matrix while its bytes are being overwritten. |
| AesBlock.InvMixColumnsInPlace | jsrc/aes-c.c:277-292 | The same for the second matrix. |
| AesBlock.CipherInPlace | jsrc/aes-c.c:336-359 | The rounds in place are the cipher, and bytes outside the block are kept. |
| AesBlock.InvCipherInPlace | jsrc/aes-c.c:361-384 | The rounds in place are the inverse cipher. |
| AesNiKeys.ExpandIs | jsrc/aes-ni.c:77-82 | Shifting and adding three times leaves the running sums of the words. |
| AesNiKeys.Step192 | jsrc/aes-ni.c:91-97 | Four words of the schedule for 24 bytes from the six before them. |
| AesNiKeys.KeySetupEnc | jsrc/aes-ni.c:102-169 | For the three lengths of keys the registers have the words of the key expansion of FIPS 197. |
| AesNiKeys.SameKeys | jsrc/aes-ni.c:102-169 | They are the round keys of the expansion on bytes, as the register cipher takes them. |
| AesNi.KeySetupDec | jsrc/aes-ni.c:172-180 | The decryption keys are the encryption keys reversed, the inner ones transformed. |
| AesNi.InvRoundIs | jsrc/aes-ni.c:247-273 | A round with a transformed key is a round of the straight inverse. |
| AesNi.BlockEncrypt | jsrc/aes-ni.c:219-245 | For 10, 12 and 14 rounds, the cipher of the same schedule. |
| AesNi.BlockDecrypt | jsrc/aes-ni.c:247-273 | The equivalent inverse cipher computes the straight inverse, FIPS 197 section 5.3.5. |
| AesKeys.Context.KeyExpansion | jsrc/aes-c.c:87-166 | For the three key sizes, the schedule of section 5.2. |
| AesSse.KeyExpansion | jsrc/aes-sse2.c:143-181 | The same schedule, in little-endian words. |
| AesSse.SameSchedule | jsrc/aes-sse2.c:143-181 | The two expansions agree byte for byte. |
| AesSse.MulLane | jsrc/aes-sse2.c:92-131 | The loop multiplies both bytes of a 16-bit lane at once, with no interference. |
| AesSseCipher.Mul | jsrc/aes-sse2.c:92-131 | The four bytes of a column are multiplied as the reference multiplies each. |
| AesSseCipher.CipherRegister | jsrc/aes-sse2.c:292-403 | The cipher on registers is the cipher on bytes. |
| AesSseCipher.InvCipherRegister | jsrc/aes-sse2.c:425-536 | The same for the inverse. |
| AesSseCipher.ExpansionsAgree | jsrc/aes-sse2.c:143-181 | What one expansion leaves is the schedule the other cipher needs. |
| AesModes.CbcEncryptBuffer | jsrc/aes-c.c:402-423 | CBC in place, for whole blocks, and the vector for the next call (SP 800-38A section 6.2). |
| AesModes.CbcDecryptBuffer | jsrc/aes-c.c:425-437 | CBC decryption in place and its next vector. |
| AesModes.DecryptUndoesEncrypt | jsrc/aes-c.c:410-437 | Decryption gives every buffer back, and the same next vector. |
| AesModes.EncryptedAt | jsrc/aes-c.c:410-422 | Each block is the encipherment of the sum of its block with the one enciphered before, or with the vector. |
| AesModes.EncryptedIvIs | jsrc/aes-c.c:410-422 | The next vector is the last block. |
| AesModes.EncryptSplit | jsrc/aes-c.c:410-423 | Splitting a buffer between blocks over two calls changes neither output nor final vector. |
| AesModes.DecryptSplit | jsrc/aes-c.c:425-437 | The same for decryption. |
| AesCounter.IncrementIv | jsrc/aes-c.c:440-467 | The carry loop is the increment of the whole vector. |
| AesCounter.CounterCounts | jsrc/aes-c.c:440-467 | As a big-endian number the counter advances by one a block, modulo its range. |
| AesCounter.CountersDiffer | jsrc/aes-c.c:440-467 | No counter block comes back within 2^128 blocks. |
| AesCounter.StreamedAt | jsrc/aes-c.c:440-467 | Byte i is added to byte i mod 16 of the enciphered counter whose number is that of the vector plus i div 16, modulo 2^128. |
| AesCounter.CtrXcryptBuffer | jsrc/aes-c.c:440-467 | Counter mode in place for every length; the vector advances by the blocks begun, modulo 2^128 (SP 800-38A section 6.5). |
| AesCounter.StreamedTwice | jsrc/aes-c.c:440-467 | Applied twice from one vector it is the identity, for every length. |
| AesCounter.StreamedSplit | jsrc/aes-c.c:440-467 | Splitting after whole blocks changes neither output nor counter. |
| Inverse.InvDepth | jsrc/ai.c:262-303 | Inversion nests modifiers no deeper. |
| InverseLaws.InvInverts | jsrc/ai.c:262-303 | By induction over the verb: whenever there is an inverse, each undoes the other wherever it is defined, if no zero multiplies or divides and negative powers have inverses. |
| InverseLaws.InvertibleIff | jsrc/ai.c:262-303 | A verb has an inverse exactly if it is built from invertible parts: the primitives of the table, bound nouns that allow it, the four compositions, under, powers, capped forks and forks with one constant tine. |
| InverseLaws.PrimitiveMeans | jsrc/ai.c:239-258 | What the monads - -: +: + [ ] do, by what the result has to do with the argument. |
| InverseLaws.SignMeans | jsrc/ai.c:239-258 | The monad * is the sign; a constant verb has its constant. |
| InverseLaws.ReciprocalMeans | jsrc/ai.c:239-258 | The monad % is the reciprocal, but for 0. |
| InverseLaws.DyadMeans | jsrc/ai.c:106-114 | What the dyads do. |
| InverseLaws.BoundMeans | jsrc/ai.c:106-114 | A noun bound to a dyad is its argument on that side, and with ~ on the other. |
| InverseLaws.CompositionMeans | jsrc/ai.c:293-296 | The four compositions, and the capped fork, run the verb on the right first. |
| InverseLaws.ForkMeans | jsrc/ai.c:34-44 | A fork runs its outer tines on the argument and its middle one on their results. |
| InverseLaws.PowerMeans | jsrc/ai.c:302-303 | A power goes from value to value n times. |
| InverseLaws.NegativePowerMeans | jsrc/ai.c:302-303 | A negative power of a verb with an inverse goes that many values back. |
| InverseLaws.UnderMeans | jsrc/ai.c:291 | Under runs g, then f, and goes back through g. |
| InverseLaws.BoundUndoneIff | jsrc/ai.c:106-114 | A noun bound to + - * % is undone exactly unless it is a zero that multiplies or is divided. |
| InverseLaws.ZeroExample | jsrc/ai.c:112-114 | The zero that is not undone, with values. |
| InverseLaws.NoInverseExample | jsrc/ai.c:301-302 | The double negative power of a verb without inverse. |
| InverseLaws.PowerUndone | jsrc/ai.c:297-302 | A negative power is undone by its inverse; it undoes that exactly if the verb has an inverse or the positive power is nowhere defined. |
| InverseLaws.PowerUndoneIff | jsrc/ai.c:297-302 | A negative power of a negative power runs the verb forward, and is undone exactly if the verb has an inverse or the whole is nowhere defined. |
| InverseLaws.FongComposes | jsrc/ai.c:21-26 | The simplified composition is the composition. |
| InverseLaws.ConstantEverywhere | jsrc/ai.c:14-19 | A constant function has its value at 0 everywhere, so that evaluating it there is right. |
| InverseLaws.ForkComposes | jsrc/ai.c:34-44 | A fork with one constant tine composes the bound verb with the other tine. |
| InverseLaws.AsForkSame | jsrc/ai.c:39-43 | A bound verb and its fork are the same monad. |
| Fix.Fixer.FindFirst | jsrc/af.c:129-131 | The first place of the last name, but for the last two places. |
| Fix.Fixer.BackUp | jsrc/af.c:133-135 | How far the list repeats downwards. |
| Fix.Fixer.FindCycle | jsrc/af.c:123-137 | The start of a cycle of a full list. |
| Fix.CycleStartIs | jsrc/af.c:123-137 | There is one exactly if the last name stands before the last two places, and it is the earliest place from which the list repeats with that period. |
| Fix.Fixer.Fixa | jsrc/af.c:121-187 | In every environment fixing ends, writes to the first 126 slots of the list of 128 only, restores the names in use, and gives what the specification gives. |
| Fix.Fixer.Fix | jsrc/af.c:206-233 | The entry, with an empty list, or a name not to be replaced. |
| Fix.CycleStaysInside | jsrc/af.c:183-185 | A cycle is only reported to frames within it, never by the whole. |
| Fix.TopHasNoCycle | jsrc/af.c:206-233 | Fixing as a whole never comes to a cycle. |
| Fix.StartKeepsReference | jsrc/af.c:183-185 | The frame whose name stands where the cycle starts keeps its reference; the others pass the report on. |
| Fix.FixPreservesMeaning | jsrc/af.c:121-199 | A verb whose names can be looked up to the end means what its fixed form means, in both directions. |
| Fix.EvalIsApprox | jsrc/af.c:121-199 | Such a meaning is what is known of the verb from that depth on. |
| Fix.FixApproximates | jsrc/af.c:121-199 | At every depth the fixed verb tells as much as the verb, and no more than the verb does looked up deeper by the names that could be replaced. |
| Fix.FixPreservesBounds | jsrc/af.c:121-233 | In every environment, cyclic or not, verb and fixed form approximate each other and have the same bounds, for every order of meanings that the operations keep. |
| Fix.CyclicExample | jsrc/af.c:183-185 | A verb that calls itself keeps its reference, has no meaning that ends, and is told apart at every depth. |
| Fix.AcyclicNameFree | jsrc/af.c:121-187 | Without cycles, and nested no deeper than the list allows, no name is left. |
| FixLaws.NothingExposed | jsrc/af.c:141-152 | The verbs of locked names, and of public names if those are to be left, are never read: whatever they are, the fixed verb is the same. |
| FixLaws.ClosedLeft | jsrc/af.c:141-152 | Such a name by itself stays. |
| FixLaws.TopOnly | jsrc/af.c:167 | Without recursion exactly a name at the top is replaced, by its value as it stands. |
| FixLaws.ErrorsIff | jsrc/af.c:124-144 | A value error exactly if the search through the names from left to right comes to an undefined one first, a limit error exactly if it comes to a full list without a cycle first, otherwise a verb. |
| FixLaws.FailsIff | jsrc/af.c:124-144 | Behind a failure is a path of names to an undefined one, or one too long that does not come back; if no path comes back fixing fails exactly if there is such a path. |
| FixLaws.CycleIsOne | jsrc/af.c:128-137 | The cycle that is reported is one: its names lead to each other. |
| FixLaws.OnlyTheseLeft | jsrc/af.c:121-187 | A name that is left is locked, public and to be left, or on a cycle. |
| MatrixProduct.Corner | jsrc/cipfloatmm_t.h:71-172 | Two rows by four columns, fewer at the edges: one block of products is added to exactly the sums that are in the result. |
| MatrixProduct.Stripe | jsrc/cipfloatmm_t.h:22-176 | A stripe of 64 columns is complete after its blocks of 16. |
| MatrixProduct.Multiply | jsrc/cipfloatmm_t.h:11-177 | For all sizes every entry is the sum of the products of row and column, every triple added once, all stores inside. |
| MatrixProduct.ProductComposes | jsrc/cipfloatmm_t.h:11-177 | The product does to every list what w and then a do. |
| Polynomial.SlantedIsKey | jsrc/ao.c:12-28 | Inserts along the anti-diagonals are the insert by key, with the sums of row and column as keys. |
| Polynomial.ObliqueInsert | jsrc/ao.c:33-88 | The fast insert on the anti-diagonals of a table, for any verb and both ends of the table, is that insert by key. |
| Polynomial.PolynomialProduct | jsrc/ao.c:100-123 | For a commutative verb the loop without the table gives the anti-diagonal inserts of the outer product. |
| Polynomial.ProductCoefficient | jsrc/ao.c:103-106 | An integer coefficient has exactly the products whose indexes add up to it. |
| Polynomial.ProductEvaluates | jsrc/ao.c:100-107 | The value of the product is the product of the values, at every integer. |
| Polynomial.ValueExample | jsrc/ao.c:100-107 | Coefficients are taken lowest first: 1 2 3 at 10 is 321. |
| Polynomial.Product | jsrc/ao.c:100-107 | The same of the loop, on integers. |
| Fold.Buffer.Append | jsrc/ar.c:1198-1209 | The buffer holds the results in order across doubling. |
| Fold.Buffer.Replace | jsrc/ar.c:1211-1213 | Fold Single holds the last result. |
| Fold.StatsOrdered | jsrc/ar.c:1163-1216 | In the loop, v has run at least as often as u, and u as often as a result was stored. |
| Fold.Loop | jsrc/ar.c:1160-1240 | The loop ends with a turn that ends the fold, with what the fold comes to there and its statistics. |
| Fold.ItemPlace | jsrc/ar.c:1133-1145 | The item of y that a turn takes, and where the fold starts, forward and reverse, with and without x; the last turn takes the last item. |
| Fold.RunNone | jsrc/ar.c:1106-1125 | Fewer than two items: u runs on the item, or on the neutral if there is none, and v does not; result and statistics. |
| FoldLaws.FewItems | jsrc/ar.c:1106-1125 | The result then, from the reply of u: none if it asked for anything but the end, a failure if it failed, else its result for Fold Single and no items for Fold Multiple; the statistics. |
| FoldLaws.NoItems | jsrc/ar.c:1106-1108 | A domain error exactly without an item and without a neutral, or for Fold Multiple. |
| Fold.OrderedIff | jsrc/ar.c:1106-1240 | At the end of a fold the statistics are non-increasing exactly if it entered the loop or had nothing to run u on. |
| Fold.OneItemExample | jsrc/ar.c:1109-1111 | A fold over one item: no execution of v, one of u. |
| Fold.Fold12 | jsrc/ar.c:1086-1241 | The whole fold, its result and its statistics. |
| Fold.Status.Query | jsrc/ar.c:1251-1257 | The three counts, or an index error. |
| Fold.Status.Ask | jsrc/ar.c:1259-1275 | Each request sets its own flag and no other, and fails exactly as it should. |
| FoldLaws.EndsOnce | jsrc/ar.c:1160-1240 | A fold ends with one turn. |
| FoldLaws.SingleIsLastOfMultiple | jsrc/ar.c:1189-1228 | Fold Single is the last result of Fold Multiple. |
| FoldLaws.ReverseIsForwardOnReversed | jsrc/ar.c:1133-1145 | A reverse fold has the result and the statistics of the forward fold on the reversed items, in the loop or with fewer than two items. |
| FoldLaws.PlainMultiple | jsrc/ar.c:1163-1224 | Without requests result k of Fold Multiple is u of the v-fold through step k. |
| FoldLaws.RequestsDecide | jsrc/ar.c:1177-1219 | Each request skips, quiets or ends exactly the turn it names. |
| FoldLaws.CarriedOn | jsrc/ar.c:1179 | The running value after a turn is the result of v if it gave one, whatever else it or u asked, else it stays; unless v asked for the limit or to stop. |
| FoldLaws.StoredNow | jsrc/ar.c:1177-1219 | What a turn stores is what u makes of the result of v, exactly if neither asked for anything but the end. |
| FoldLaws.GoesOnIff | jsrc/ar.c:1163-1224 | The loop goes on after a turn exactly if nothing ended or failed it, from the replies of v and u. |
| FoldLaws.ComesTo | jsrc/ar.c:1163-1228 | What the fold comes to with a turn, from the replies of v and u. |
| FoldLaws.SkippedByV | jsrc/ar.c:1177-1181 | A request by v keeps u from running; its result is carried on. |
| FoldLaws.NoResultIff | jsrc/ar.c:1227 | No result exactly if nothing was stored. |
| BooleanSpec.ScanForm | jsrc/ap.c:146-244 | The closed form of a scan of < <: > >: +: *: by where the deciding value comes first. |
| BooleanSpec.ScanIsInsert | jsrc/ap.c:146-244 | An entry of a scan is the insert of the prefix. |
| BooleanSpec.ApplyCompares | jsrc/ap.c:140-244 | The verbs compare 0 and 1: < <: > >: ~: = as numbers do, +: and *: negate the greater and the lesser. |
| BooleanSpec.InsertThree | jsrc/ar.c:87-92 | The insert goes from right to left. |
| BooleanSpec.ScanParity | jsrc/ap.c:140-144 | The closed form of ~: and = by parity. |
| BooleanLists.InsertList | jsrc/ar.c:87-92 | The inserts found with memchr are the right-to-left folds. |
| BooleanLists.InsertParityList | jsrc/ar.c:16-22 | The word-wide parity, with its overfetch discarded, is the fold of ~: or =. |
| BooleanLists.CascadeIsParity | jsrc/ap.c:136 | Shifts by 1, 2 and 4 bytes leave in each byte the parity up to it. |
| BooleanLists.NextWordAt | jsrc/ap.c:141-144 | With the byte carried from the word before, each byte is an entry of the scan. |
| BooleanLists.ScanNeEqRows | jsrc/ap.c:141-144 | All rows of ~:\ and =\, although the last word of a row may overwrite the next. |
| BooleanLists.ScanLt | jsrc/ap.c:149-150 | <\ and <:\ of a list. |
| BooleanLists.ScanGt | jsrc/ap.c:189-199 | >\ >:\ +:\ and *:\ of a list, from the packed parameters. |
| BooleanStrips.LaneStep | jsrc/ap.c:213-218 | The live, hit and posthit masks of one lane at one row give the entry of the scan, and stay right. |
| BooleanStrips.StripLt | jsrc/ap.c:157-178 | Eight columns of <\ or <:\, stopping when every lane is dead. |
| BooleanStrips.StripGt | jsrc/ap.c:207-234 | Eight columns of the other four. |
| BooleanStrips.ScanTables | jsrc/ap.c:148-239 | Every column of every table is the prefix scan, and nothing is stored outside. |
| WindowSpec.Slide | jsrc/ap.c:743 | For a verb that can be undone, adding the new item and taking the old one out gives the next window. |
| WindowSpec.InsertThree | jsrc/ap.c:541-643 | The insert goes from right to left. |
| WindowSums.MovingSum | jsrc/ap.c:737-761 | For a list: under the guard with the exact quotient every result is the sum of its window and no operation leaves 64 bits. |
| WindowSums.MovingSumColumns | jsrc/ap.c:746-748 | The same of every column of a table, from a row of running totals. |
| WindowSums.SufficientIff | jsrc/ap.c:756-761 | A guard keeps all totals in range exactly if the largest value it lets through does, as often as the window is long. |
| WindowSums.RoundedQuotientInsufficient | jsrc/ap.c:757 | The quotient that rounding gives for windows of 5 is too large. |
| WindowSums.OverflowExample | jsrc/ap.c:757-760 | A list of five items that passes the rounded guard, not the exact one, and whose total does not fit. |
| WindowSums.MovingNeEq | jsrc/ap.c:873-885 | Windows of ~: and = of a list. |
| WindowSums.MovingNeEqColumns | jsrc/ap.c:883-884 | The same of every column. |
| WindowSums.MovingBitNeEq | jsrc/ap.c:887-899 | Windows of bitwise exclusive or and its complement of a list. |
| WindowSums.MovingBitNeEqColumns | jsrc/ap.c:897-898 | The same of every column. |
| WindowColumns.SlideColumns | jsrc/ap.c:883-898 | For every verb that can be undone, the loops over rows and columns give the windows of every column. |
| WindowExtremes.Moved | jsrc/ap.c:788-789 | The next extreme: the new item if it is no worse, else the old one, or a rescan if that left. |
| WindowExtremes.MovingExtremes | jsrc/ap.c:782-834 | Every result of every column is the least or greatest of its window. |
| WindowExtremes.ExtremeIs | jsrc/ap.c:782-834 | The greatest, or least, of a window is one of its items, and none is greater, or less. |
| WindowExtremes.WorstIs | jsrc/ap.c:782-834 | The search starts from a number that no item is worse than. |
| WindowExtremes.MovingAndOr | jsrc/ap.c:836-858 | Windows of and and or of a list, with rescans when the deciding item leaves. |
| WindowExtremes.MovingAndOrColumns | jsrc/ap.c:846-857 | The same of every column, a column scanned again when its deciding item leaves. |
| Outfix.Infix | jsrc/ap.c:541-643 | The loop over the infixes gives the verb on every window, for both signs of the length and a short last window. |
| Outfix.InfixTable | jsrc/ap.c:433-445 | The table of starts and lengths has the same windows. |
| Outfix.WindowIff | jsrc/ap.c:433-445 | There is a window t exactly if it starts within the list, or fits into it; where it starts and stops. |
| Outfix.Magnitude | jsrc/ap.c:437 | The length without its sign; that of the least number is the greatest. |
| Outfix.MaskRowsRight | jsrc/as.c:331-335 | The mask has a row for every window, exactly unless the rounding sum leaves 64 bits. |
| Outfix.NoRowForGreatest | jsrc/as.c:331-335 | Two or more items in one window of the greatest length get no right mask. |
| Outfix.MaskIs | jsrc/as.c:331-338 | The cyclic fill of the mask has zeros exactly for the window of each row. |
| Outfix.GeneralIff | jsrc/as.c:331-349 | The general outfix is the verb on what each window leaves, exactly if there is a row for every window. |
| OutfixInsert.PrefixScan | jsrc/ap.c:24-26 | Prefix scan of an associative verb. |
| OutfixInsert.SuffixScan | jsrc/as.c:13-16 | Suffix scan of any verb. |
| OutfixInsert.OutfixAssociative | jsrc/as.c:360-391 | From prefixes and suffixes: right for every associative verb, exactly unless the general form is taken and is wrong. |
| OutfixInsert.WindowUndone | jsrc/as.c:351-358 | The total with the insert of a window undone is the insert of what is left. |
| OutfixInsert.OutfixUndo | jsrc/as.c:351-358 | From the total: right for every commutative verb that can be undone, every length and every list. |
| OutfixInsert.UndoVerbs | jsrc/as.c:410-411 | + on integers and ~: and = on Booleans are such verbs. |
| OverflowTotals.Insert | jsrc/ar.c:153-178 | The insert of + - or * on 64-bit integers signals overflow exactly if the insert of some suffix does not fit. |
| OverflowTotals.EarlyOverflow | jsrc/ar.c:153-178 | It may do so though the total fits. |
| OverflowTotals.AlternatingSum | jsrc/ap.c:247 | The insert of - alternates in sign. |
| OverflowTotals.PrefixScan | jsrc/ap.c:246-273 | The scan signals overflow exactly if an entry does not fit, and is exact otherwise. |
| OverflowTables.ScanLine | jsrc/ap.c:266 | One column: the unrolled loop entered at the lane that leaves as many entries as there are; overflow exactly if an entry does not fit, and no other atom changes. |
| OverflowTables.PrefixTables | jsrc/ap.c:262-271 | Every column of every table is scanned, or overflow is signalled, exactly if some entry of some column does not fit; nothing is stored after the tables. |
| LaneSums.LanesAdd | jsrc/ar.c:113-116 | Counts in the bytes of a word add without carry while none passes 255. |
| LaneSums.AddRow | jsrc/ar.c:113-116 | One more row is counted, whatever the bytes fetched beyond it hold. |
| LaneSums.ColumnSums | jsrc/ar.c:95-131 | Every total is the number of ones in its column. |

## Left out

- Storage management: reference counts, virtual blocks, in-place flags, allocation sizes beyond what is granted.
- Type conversion, rank loops, frames of rank below that of the argument, and error texts.
- Floating point: sums, means, complex numbers and NaN; only exact arithmetic is modelled.
- Vector instructions: AVX branches, prefetching; SSE registers are modelled per column and lane.
- Memo table: locks; a lookup and an insertion are one step each, and another thread never extends a table during one.
- Amend: a split selector is found and reported but its scatter is not modelled; neither are numeric selectors of one axis, frames, `-@` amend, boxed types and the unrolling of the copy loops.
- CompIdx: a mask word is modelled as 64 truth values.
- Key: means, `{.,#`, sparse keys, frets kept over the argument, and the box path that tells counts from addresses.
- KeySlash: takes the self-classification as given, as its producer describes it.
- AES-NI: the modes loops; ECB.
- InvInverts: holds for + - * % and linear p. bound to atoms, ~, @ @: & &:, &., ^:n, capped forks and forks with one constant tine, on atoms; names, ranks, obverses and lists are not modelled.
- Fix: locatives and locales, $:, gerunds, trains of modifiers, and parts of speech.
- Multiply: over integers of any size; the padding by zeros of one more cache row is kept.
- ScanNeEq: tables with more than one column of ~: and =, and the scans of and and or.
- MovingSum: averages, and the floating-point form taken when the guard fails.
- MovingAndOr: the bitwise forms, which scan every window.
- Infix: the form for two items that applies the verb between them, gerunds, and the result for no windows.
- OutfixAssociative: the second try in floating point after an overflow.
- Polynomial: overflow of integer products, after which the source computes in floating point.
- PrefixScan: the rerun in floating point after an overflow.
- ColumnSums: one table; the sum of a single list uses a routine that is not part of this model.
- AmendDense: a sparse replacement; it is stated for padded arrays that are well formed and complete, and for sparse axes after the frame that have indexes; an array amended in place has been padded even when the replacement is then refused. The copying loops of the transpose are modelled by the places they copy.
- Standardize: for index rows without entries the source reads a flag one byte before the first (`jsrc/amn.c:105-107`); the model takes it as not set. For dense replacements the caller makes no such rows (`jsrc/vfromsp.c:149`).
- SparsePad: sorting by grade is modelled by filing one row after the other; nub and set difference are modelled by their definitions.
- Fold12: boxing of results, and the 2^64 turns after which the counter of an unlimited fold wraps are modelled as its limit.
- Fold over fewer than two items: the neutral of v for an item is taken as given.
