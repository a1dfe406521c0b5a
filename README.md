# RAPPAS k-mer indexing core, modelled in Dafny

RAPPAS places query sequences on a reference phylogeny. It first builds an
index of k-mers ("words") with their phylogenetic scores. This project models
the pieces of RAPPAS that build and read that index:

- **`DnaStates`** (`DNAStatesShifted`) is the nucleotide alphabet.
  - It maps characters to the codes 0..6 (A, T/U, C, G, N, gap, dot).
  - It sends IUPAC ambiguity letters to N and reports every other character as an error.
  - It packs codes two bits each, four to a byte, the earliest code in the lowest bits, and unpacks them.
- **`Knife`** (`SequenceKnife`) cuts a query into k-mer windows.
  - It encodes the sequence and flags the window starts that cover an ambiguous symbol.
  - It orders the window starts by one of four policies: linear, non-overlapping, Fisher–Yates shuffle, and residue-class sequential.
  - It hands out windows through a cursor. The cursor skips windows that are too short, truncates tail windows and marks ambiguous ones with a sentinel.
- **`Hash`** (`SimpleHash_v2`) is the word index: a map from words to posting stores.
  - It inserts by get-or-create and answers null or -1 for absent words.
  - It runs whole-table sort and reduce passes, and a filter-then-remove pruning pass.
  - It counts the nodes of a bucket tree.
- **`Aln`** (`Alignment`) is the reference alignment matrix.
  - It holds labelled rows, the gap count of every column, and the gap interval table (for each column, the distinct lengths of the gap runs starting there).
  - It appends rows, removes a row by label and drops gappy columns.
- **`Phylo`** (`PhyloNode`) holds the per-node link updates of the phylogeny: leaf counts, extreme leaves, and the preorder and postorder successor links.
  - The tree is an arena of nodes; children have larger indices than their parents.

Every stateful class of the source is a Dafny `class` whose methods are proved against specification functions: `Packed`/`Expanded`, `Order`/`FirstAcceptable`, `Intervals`/`FillIntervals`/`GapCounts`/`KeepColumns`, and `Leaves`. What the source promises is proved about those functions as lemmas.

## Model

| member | source | states |
|---|---|---|
| DnaStates.CharToByte | src/core/DNAStatesShifted.java:126-167 | A character is accepted exactly when it is one of A/T/U/C/G/N in either case, '-', '.', or an IUPAC ambiguity letter (R,Y,S,W,K,M,B,D,H,V in either case); any other character yields the NonIUPACStateException carrying that character |
| DnaStates.CharToByteNucleotides | src/core/DNAStatesShifted.java:128-148 | Code 0 is exactly A/a, 1 exactly T/t/U/u, 2 exactly C/c, 3 exactly G/g |
| DnaStates.CharToByteOthers | src/core/DNAStatesShifted.java:149-164 | Code 4 is exactly N/n or an ambiguity letter, 5 exactly '-', 6 exactly '.' |
| DnaStates.CharToByteIgnoresCase | src/core/DNAStatesShifted.java:126-167 | A lower-case letter is accepted iff its upper-case form is, and gets the same code |
| DnaStates.ByteToState | src/core/DNAStatesShifted.java:170-172 | Every code 0..6 decodes to one of the seven symbols A, T, C, G, N, '-', '.' |
| DnaStates.StateToByte | src/core/DNAStatesShifted.java:175-177 | Going through the byte table gives exactly charToByte's answer, error included |
| DnaStates.StateToInt | src/core/DNAStatesShifted.java:201-206 | Succeeds exactly when stateToByte does, with the same code as an int or the same error |
| DnaStates.DecodeEncodeIsCanonical | src/core/DNAStatesShifted.java:30-32 | Decoding the code of any accepted character gives its canonical symbol: upper case, U as T, ambiguity letters as N |
| DnaStates.EncodeDecodeIsIdentity | src/core/DNAStatesShifted.java:170-177 | Encoding the symbol of any code 0..6 gives that code back |
| DnaStates.GetStateCount | src/core/DNAStatesShifted.java:191-193 | There are 7 states, and every code below the count decodes to a state symbol |
| DnaStates.GetNonAmbiguousStatesCount | src/core/DNAStatesShifted.java:196-198 | There are 4 non-ambiguous states; a code is below 4 exactly when it decodes to A, T, C or G |
| DnaStates.GetSequence | src/core/DNAStatesShifted.java:181-188 | The string has one symbol per code, symbol i being the decoding of code i |
| DnaStates.Slot | src/core/DNAStatesShifted.java:22-28 | A 2-bit slot of a byte is a value below 4 |
| DnaStates.MaskedSlot | src/core/DNAStatesShifted.java:107-112 | Masking with maskArray[j] and shifting right by 2j reads exactly slot j |
| DnaStates.PackGroupForm | src/core/DNAStatesShifted.java:69-76 | The packed byte of a group is code t shifted left by 2t, or-ed over the group |
| DnaStates.PackGroupSlots | src/core/DNAStatesShifted.java:22-28 | When every code is below 4, slot t of a packed group holds code t, and slots past the group hold 0 |
| DnaStates.PackedSlots | src/core/DNAStatesShifted.java:69-83 | When every code is below 4, code i sits in bits 2(i%4)..2(i%4)+1 of byte i/4; unused slots of the last byte are 0 |
| DnaStates.ExpandPackedRoundTrip | src/core/DNAStatesShifted.java:59-117 | When every code is below 4, expanding the packed codes with k = n gives back the symbol of every code |
| DnaStates.AmbiguousCodeSpillsIntoNeighbour | src/core/DNAStatesShifted.java:76 | The round trip needs codes below 4: packing N then A and expanding gives A then T |
| DnaStates.GroupStart | src/core/DNAStatesShifted.java:68-76 | The group holding code i-1 starts at a multiple of 4 and holds that code |
| DnaStates.PackGroupSnoc | src/core/DNAStatesShifted.java:75 | Adding the next code of a group or-s it into the next free slot |
| DnaStates.CompressStep | src/core/DNAStatesShifted.java:68-76 | One loop round: a code at a multiple of 4 starts a new, empty group; every code is shifted into slot i%4 of its group |
| DnaStates.CompressFlush | src/core/DNAStatesShifted.java:69-74 | A full group closed at i goes to byte i/4-1, which exists |
| DnaStates.CompressLast | src/core/DNAStatesShifted.java:80-82 | The group still open after the loop is the last packed byte |
| DnaStates.PackedAt | src/core/DNAStatesShifted.java:59-87 | Byte j of the packed form is the group of codes 4j..4j+3 (fewer in the last byte) |
| DnaStates.PackFullGroups | src/core/DNAStatesShifted.java:66-76 | Every group that a later code closes is stored in its byte; the open group is returned packed |
| DnaStates.CompressMer | src/core/DNAStatesShifted.java:59-87 | compressMer returns exactly ceil(n/4) bytes, byte j being the group of codes 4j..4j+3 |
| DnaStates.ExpandMer | src/core/DNAStatesShifted.java:96-117 | expandMer returns exactly k symbols; symbol p is slot p%4 of byte p/4, unused slots are ignored, and positions past the given bytes stay '\0' |
| Knife.Swap | src/core/algos/SequenceKnife.java:319-322 | An exchange keeps the length; that it keeps the elements is SwapKeepsElements |
| Knife.SwapKeepsElements | src/core/algos/SequenceKnife.java:319-322 | An exchange keeps the multiset of elements |
| Knife.NonOverlappingOrderShape | src/core/algos/SequenceKnife.java:167-175 | The NON_OVERLAPPING order has n/k+1 slots, slot j is j*k whenever j*k < n, and the last slot is 0 when k divides n |
| Knife.ShuffleStep | src/core/algos/SequenceKnife.java:318-323 | One round of the shuffle keeps the elements and leaves the rest of the shuffle to run from i+1 |
| Knife.ShuffledIsPermutation | src/core/algos/SequenceKnife.java:318-323 | For any draws in range, the Fisher–Yates shuffle returns a permutation of its input |
| Knife.ShuffledOrderIsPermutation | src/core/algos/SequenceKnife.java:308-325 | The STOCHASTIC order has length n and holds exactly the positions 0..n-1, each once |
| Knife.SameDrawsSameOrder | src/core/algos/SequenceKnife.java:303-325 | Two draw sequences that agree on their first len-1 values give the same order (forceSeed with one seed is reproducible) |
| Knife.ClassBound | src/core/algos/SequenceKnife.java:333-336 | shift + j*k is below n exactly for the first ClassSize values of j |
| Knife.ClassSizeBound | src/core/algos/SequenceKnife.java:333 | A residue class has at most n/k+1 members, so the inner loop bound reaches all of them |
| Knife.InOwnClass | src/core/algos/SequenceKnife.java:327-341 | Position p < n is element p/k of the class of residue p%k |
| Knife.InClass | src/core/algos/SequenceKnife.java:327-341 | Position p < n belongs to the class of its residue |
| Knife.ClassElement | src/core/algos/SequenceKnife.java:334-335 | shift + j*k has residue shift modulo k |
| Knife.ResidueClassFacts | src/core/algos/SequenceKnife.java:333-338 | A class lies below n, has its residue and increases strictly |
| Knife.SequentialPrefixRange | src/core/algos/SequenceKnife.java:329-340 | The first s classes lie below n and have residues below s |
| Knife.SequentialPrefixOrdered | src/core/algos/SequenceKnife.java:329-340 | The first s classes increase strictly by (p mod k, then p) |
| Knife.SequentialPrefixComplete | src/core/algos/SequenceKnife.java:329-340 | The first s classes hold every p < n whose residue is below s |
| Knife.SequentialPrefixStable | src/core/algos/SequenceKnife.java:331-332 | Stopping the outer loop at n when n < k drops only empty classes |
| Knife.SequentialPrefixGrows | src/core/algos/SequenceKnife.java:329-340 | More classes mean a longer prefix |
| Knife.SequentialOrderIsPermutation | src/core/algos/SequenceKnife.java:327-341 | The SEQUENTIAL order is a permutation of 0..n-1, strictly ordered by (p mod k, then p) |
| Knife.OrderLengthBound | src/core/algos/SequenceKnife.java:160-185 | No order holds more than n+1 positions |
| Knife.FlaggedStep | src/core/algos/SequenceKnife.java:145-150 | Scanning one more symbol flags exactly the window starts covering it, if it is ambiguous |
| Knife.FirstAcceptable | src/core/algos/SequenceKnife.java:238-258 | The cursor stops at the first index from `from` on whose position leaves at least minK symbols, or at the end |
| Knife.JavaDiv | src/core/algos/SequenceKnife.java:228 | Java int division rounds toward zero for both signs of the dividend |
| Knife.DivBounds | src/core/algos/SequenceKnife.java:228 | The quotient of a non-negative number lies between two multiples of the divisor |
| Knife.SequenceKnife.constructor | src/core/algos/SequenceKnife.java:102-134 | A new knife has its cursor at the start, the encoded sequence, the ambiguity flags and the order of its mode |
| Knife.SequenceKnife.InitTables | src/core/algos/SequenceKnife.java:136-190 | sequence[i] is stateToByte(seq[i]); a window start is flagged iff one of its k symbols is ambiguous; the order and the step are those of the mode |
| Knife.SequenceKnife.EncodeAndMark | src/core/algos/SequenceKnife.java:137-157 | The code array is the encoding of the text, and flag p holds iff some index in [p, min(p+k, n)) is ambiguous |
| Knife.SequenceKnife.FlagCoveringWindows | src/core/algos/SequenceKnife.java:146-150 | The flags of window starts i-k+1..i are raised and every other flag is unchanged |
| Knife.SequenceKnife.LinearMerOrder | src/core/algos/SequenceKnife.java:160-166 | The LINEAR order is 0, 1, ..., n-1 |
| Knife.SequenceKnife.NonOverlappingMerOrder | src/core/algos/SequenceKnife.java:167-175 | The NON_OVERLAPPING table is j*k in slot j while j*k < n, and 0 elsewhere |
| Knife.SequenceKnife.OrderInRange | src/core/algos/SequenceKnife.java:160-185 | Every order has its mode's length and holds only positions in [0, n] |
| Knife.SequenceKnife.ShuffledMerOrder | src/core/algos/SequenceKnife.java:308-325 | The order becomes the Fisher–Yates shuffle of 0..len-1 with the given draws |
| Knife.SequenceKnife.SequencialMerOrder | src/core/algos/SequenceKnife.java:327-341 | The order becomes the residue classes modulo k, one after another, each increasing |
| Knife.SequenceKnife.ForceSeed | src/core/algos/SequenceKnife.java:303-306 | The order is reshuffled as a shuffle of 0..len-1 with the new draws, and the knife stays consistent |
| Knife.SequenceKnife.SkipShortWindows | src/core/algos/SequenceKnife.java:241-258 | The cursor moves to the first acceptable position from where it was, or to the end |
| Knife.SequenceKnife.GetNextWord | src/core/algos/SequenceKnife.java:237-260 | Returns null once no acceptable position is left; otherwise returns the window of min(k, n-p) symbols at the first acceptable position p, whatever its ambiguity flag, and moves the cursor just past it |
| Knife.SequenceKnife.GetNextByteWord | src/core/algos/SequenceKnife.java:266-295 | Same cursor rules as GetNextWord, but a flagged position gives the AMBIGUOUS_KMER sentinel instead of its window |
| Knife.SequenceKnife.GetMerCount | src/core/algos/SequenceKnife.java:219-221 | The number of positions in the order: n/k+1 for NON_OVERLAPPING, n otherwise |
| Knife.SequenceKnife.GetMaxMerCount | src/core/algos/SequenceKnife.java:227-229 | (n-k+1)/step with Java's division; n-k+1 when the step is 1 |
| Knife.SequenceKnife.GetStep | src/core/algos/SequenceKnife.java:343-345 | The step is k for NON_OVERLAPPING and 1 otherwise |
| Hash.Applied | src/core/hash/SimpleHash_v2.java:72-85 | A store after one more operation keeps its history and adds exactly that operation |
| Hash.PairsAtMembership | src/core/hash/SimpleHash_v2.java:166-172 | A pair is in the concatenation exactly when the pair list of some listed position holds it |
| Hash.Size | src/core/hash/SimpleHash_v2.java:227-236 | A bucket tree has at least one node; that bucketDFS visits each node once is BucketDfs |
| Hash.SimpleHashV2.constructor | src/core/hash/SimpleHash_v2.java:52-63 | A new index is empty |
| Hash.SimpleHashV2.AddTuple | src/core/hash/SimpleHash_v2.java:72-85 | The word becomes a key; a fresh store is made only if it was absent; its store receives exactly one registerTuple; other words keep their stores |
| Hash.SimpleHashV2.GetTopPair | src/core/hash/SimpleHash_v2.java:100-106 | null exactly for an absent word; otherwise the store's best pair |
| Hash.SimpleHashV2.GetPairsOfTopPosition | src/core/hash/SimpleHash_v2.java:114-121 | null exactly for an absent word; otherwise the store's pair list at its best position |
| Hash.SimpleHashV2.GetPositions | src/core/hash/SimpleHash_v2.java:128-135 | null exactly for an absent word; otherwise the store's positions |
| Hash.SimpleHashV2.GetTopPosition | src/core/hash/SimpleHash_v2.java:142-149 | -1 for an absent word; otherwise the store's best position |
| Hash.SimpleHashV2.SortData | src/core/hash/SimpleHash_v2.java:153-158 | The key set is unchanged and every store is sorted once |
| Hash.SimpleHashV2.GetPairs | src/core/hash/SimpleHash_v2.java:166-172 | For a present word, the pair lists of its positions concatenated in the store's order; a pair is in it iff some position's list holds it |
| Hash.SimpleHashV2.GetPairsAt | src/core/hash/SimpleHash_v2.java:180-186 | null exactly for an absent word; otherwise the store's pair list at the position |
| Hash.SimpleHashV2.ReduceToMediumHash | src/core/hash/SimpleHash_v2.java:198-204 | The key set is unchanged and every store drops its worse positions once |
| Hash.SimpleHashV2.ReducetoSmallHash | src/core/hash/SimpleHash_v2.java:211-219 | Exactly the words whose store reported itself emptied by the limit are removed; the others remain, each limited once |
| Hash.SimpleHashV2.LimitStores | src/core/hash/SimpleHash_v2.java:212-216 | Every store is limited once, the key set is unchanged, and the collected words are exactly those whose store answered true |
| Hash.SimpleHashV2.RemoveWords | src/core/hash/SimpleHash_v2.java:217 | The collected words leave the map and every other word keeps its store |
| Hash.SimpleHashV2.BucketDfs | src/core/hash/SimpleHash_v2.java:227-236 | A tree of m nodes raises DFSCount by m, and the answer is the new count minus one |
| Aln.RunLen | src/alignement/Alignment.java:115-148 | A gap run starting at s stays inside the row |
| Aln.RunLenFacts | src/alignement/Alignment.java:115-148 | A run is all gaps and is followed by the row end or a non-gap |
| Aln.RunLenUpTo | src/alignement/Alignment.java:115-148 | Gaps from s up to j, then the row end or a non-gap: the run from s ends at j |
| Aln.GapStart | src/alignement/Alignment.java:121-126 | The start of the gap run ending before j is at most j |
| Aln.GapStartFacts | src/alignement/Alignment.java:121-126 | Gaps lie from the run start up to j, and the start is preceded by the row start or a non-gap |
| Aln.GapStartOfRun | src/alignement/Alignment.java:121-126 | Walking back over gaps from j stops at the start of the run |
| Aln.RunsEndingAt | src/alignement/Alignment.java:115-148 | The only maximal run ending at j (the row end or a non-gap) is the one starting at GapStart |
| Aln.Record | src/alignement/Alignment.java:132-134 | Recording a length adds it to the list's members and nothing else |
| Aln.RecordRow | src/alignement/Alignment.java:166-188 | The table keeps one list per column; the lists' contents are stated by IntervalsMembership and RecordRowKeepsDistinct |
| Aln.FillRow | src/alignement/Alignment.java:115-148 | The table keeps one list per column; the lists' contents are stated by FillAfterTrailing and FillAfterOther |
| Aln.Intervals | src/alignement/Alignment.java:162-191 | One list per column; their contents are stated by IntervalsMembership and IntervalsDistinct |
| Aln.FillIntervals | src/alignement/Alignment.java:99-157 | One list per column; their contents are stated by FillIntervalsMembership and FillIntervalsDistinct |
| Aln.ScanRow | src/alignement/Alignment.java:115-148 | The row scan records closed runs, and with trailing-run handling (fillAlignment) it replaces the list at a trailing run's start |
| Aln.ScanClosedRuns | src/alignement/Alignment.java:115-139 | Every run closed by a non-gap is recorded at its start, and the start of a run still open at the row end is returned, or -1 |
| Aln.RecordKeepsDistinct | src/alignement/Alignment.java:132-134 | Recording a length keeps a list free of repeats |
| Aln.RecordRowKeepsDistinct | src/alignement/Alignment.java:166-188 | Scanning one row keeps every list free of repeats |
| Aln.IntervalsMembership | src/alignement/Alignment.java:162-191 | After updateGapIntervals, list s holds a length exactly when some row has a run of that length starting at s and closed by a non-gap; runs reaching the row end are not recorded |
| Aln.IntervalsDistinct | src/alignement/Alignment.java:162-191 | updateGapIntervals' lists never hold a length twice |
| Aln.FillIntervalsMembership | src/alignement/Alignment.java:99-157 | After fillAlignment, list s holds a length exactly when some row records it at s and no later row has a trailing run from s |
| Aln.FillAfterTrailing | src/alignement/Alignment.java:141-148 | A last row whose trailing run starts at s leaves that run's length alone in list s |
| Aln.FillAfterOther | src/alignement/Alignment.java:118-139 | Any other last row adds at most its closed run from s to list s and keeps the rest |
| Aln.LastRecordedSnoc | src/alignement/Alignment.java:99-157 | Below a last row without a trailing run from s, the rows that leave a length in list s are the earlier ones and the last one |
| Aln.LastRecordedInPrefix | src/alignement/Alignment.java:99-157 | A recording row before the last is a witness for the rows without the last |
| Aln.FillIntervalsDistinct | src/alignement/Alignment.java:129-148 | fillAlignment's lists never hold a length twice |
| Aln.WithRowGaps | src/alignement/Alignment.java:121-122 | One more row keeps one count per column; what the counts mean is GapCountsAreColumnGaps |
| Aln.GapCounts | src/alignement/Alignment.java:121-122 | One count per column; that each is the column's number of gaps is GapCountsAreColumnGaps |
| Aln.GapCountsSnoc | src/alignement/Alignment.java:326-330 | One more row adds its gaps to the column counts |
| Aln.GapCountsAreColumnGaps | src/alignement/Alignment.java:121-122 | The gap count of column j is the number of rows holding '-' in column j |
| Aln.KeptFacts | src/alignement/Alignment.java:203-229 | The kept columns are exactly the unflagged ones, increasing, and there are as many as columns minus flagged columns |
| Aln.KeptLength | src/alignement/Alignment.java:203-214 | There are as many kept columns as columns minus flagged columns |
| Aln.KeptOrdered | src/alignement/Alignment.java:218-229 | The kept columns are unflagged and increasing |
| Aln.KeptComplete | src/alignement/Alignment.java:218-229 | Every unflagged column is kept |
| Aln.KeepColumnsIsKept | src/alignement/Alignment.java:218-229 | A reduced row holds exactly the characters of the unflagged columns, in their original order |
| Aln.FirstIndex | src/alignement/Alignment.java:363-378 | The first row carrying the label carries it, and no earlier row does |
| Aln.RemovalMask | src/alignement/Alignment.java:204-209 | One flag per column; what removing the flagged columns does is KeptFacts and KeepColumnsIsKept |
| Aln.FlagColumns | src/alignement/Alignment.java:203-210 | A column is flagged exactly when its gap proportion reaches the ratio, and the removed count is the number of flagged columns |
| Aln.CopyKeptColumns | src/alignement/Alignment.java:219-229 | Copying with the shift counter gives the row restricted to its unflagged columns |
| Aln.CopyAndCount | src/alignement/Alignment.java:214-230 | Every row loses exactly its flagged columns, and the counts are the gap counts of the new rows |
| Aln.DropSnoc | src/alignement/Alignment.java:363-378 | Dropping element k from a one-longer prefix skips element i when it is k and appends it otherwise |
| Aln.OnlyRowWithLabel | src/alignement/Alignment.java:363-378 | With exactly one row carrying the label, row j carries it iff j is that first index |
| Aln.LabelDropped | src/alignement/Alignment.java:363-378 | Once its only row is dropped, the label is gone |
| Aln.CopyAllRowsBut | src/alignement/Alignment.java:363-378 | The rows and labels are the originals without the labelled one, in order; the label is gone; counts are the new rows' gap counts |
| Aln.Alignment.constructor | src/alignement/Alignment.java:77-79 | Alignment(fastas) holds the rows and labels in order, their gap counts and fillAlignment's interval table |
| Aln.Alignment.FillAlignment | src/alignement/Alignment.java:99-157 | The rows and labels are copied in order; gap counts and the interval table are those of the rows |
| Aln.Alignment.UpdateGapIntervals | src/alignement/Alignment.java:162-191 | The interval table is rebuilt from the current rows, closed runs only, with no repeated lengths |
| Aln.Alignment.ReduceAlignment | src/alignement/Alignment.java:200-245 | reducedColumnCount is the number of flagged columns; each row keeps exactly its unflagged characters in order; the width drops by that count; labels stay; counts and intervals are rebuilt |
| Aln.Alignment.AddSequence | src/alignement/Alignment.java:256-307 | The row and label are appended after the unchanged earlier ones; the new row's closed runs are recorded; the gap counts are those of the new row alone, as written |
| Aln.Alignment.AddAllSequences | src/alignement/Alignment.java:314-346 | The rows and labels are appended in order; counts and intervals are rebuilt from all rows |
| Aln.Alignment.RemoveSequence | src/alignement/Alignment.java:354-396 | The labelled row and its label are deleted, the others keep their order; counts and intervals are rebuilt |
| Aln.Alignment.GetLength | src/alignement/Alignment.java:463-465 | The length of row 0 is the width of every row |
| Phylo.Leaves | src/tree/PhyloNode.java:147-155 | A subtree has at least one leaf; that the list is exactly the subtree's leaves is LeavesAreSubtreeLeaves |
| Phylo.ChildLeaves | src/tree/PhyloNode.java:152-153 | The leaves under at least one child are at least one; that they are exactly those children's leaves is ChildLeavesAreSubtreeLeaves |
| Phylo.LeavesAreSubtreeLeaves | src/tree/PhyloNode.java:107-119 | The leaf list of n holds exactly the leaves of n's subtree |
| Phylo.ChildLeavesAreSubtreeLeaves | src/tree/PhyloNode.java:107-119 | The leaves under the first i children are exactly the leaves in those children's subtrees |
| Phylo.SiblingLeavesDisjoint | src/tree/PhyloNode.java:122-129 | Sibling subtrees share no leaf, and none of their leaves is the parent |
| Phylo.SumOfLeafCounts | src/tree/PhyloNode.java:147-155 | When every child already holds its leaf count, their sum is the leaf count of the children's subtrees |
| Phylo.PreorderLinks | src/tree/PhyloNode.java:126-127 | The loop keeps one successor per node; which writes survive is PreorderLinksEffect |
| Phylo.PreorderLinksEffect | src/tree/PhyloNode.java:126-127 | When the rightmost leaves are distinct, each one points at the next child and every other node keeps its successor |
| Phylo.PhyloArena.constructor | src/tree/PhyloNode.java:53-59 | Each node has its id and label, external id -1, leaf count 0 and null links |
| Phylo.PhyloArena.SetExternalId | src/tree/PhyloNode.java:65-71 | The getter answers the new external id; no other node changes |
| Phylo.PhyloArena.SetLabel | src/tree/PhyloNode.java:73-79 | The getter answers the new label; no other node changes |
| Phylo.PhyloArena.SetNumberLeavesTo | src/tree/PhyloNode.java:89-95 | The getter answers the new count; no other node changes |
| Phylo.PhyloArena.SetExtremeLeaves | src/tree/PhyloNode.java:111-119 | A leaf points both extremes at itself; an internal node takes its first child's leftmost and its last child's rightmost leaf; with the children's extremes right, so are the node's |
| Phylo.PhyloArena.ExtremesOfInternalNode | src/tree/PhyloNode.java:117-118 | An internal node's first and last leaves are those of its first and last children |
| Phylo.PhyloArena.FirstChildLeavesLead | src/tree/PhyloNode.java:117 | The leaves under the first children start with the first child's leaves |
| Phylo.PhyloArena.SetAllExtremeLeaves | src/tree/PhyloNode.java:107-119 | Applied leaf to root, every node's extremes are the first and last leaves of its own subtree |
| Phylo.PhyloArena.ExtremesAreSubtreeLeaves | src/tree/PhyloNode.java:107-119 | Set extremes are leaves of the node's own subtree |
| Phylo.PhyloArena.SetNumberLeaves | src/tree/PhyloNode.java:147-155 | Stores and returns 1 for a leaf, otherwise the sum of the children's current counts; with the children's counts right, the node's count is its leaf count |
| Phylo.PhyloArena.SetAllNumberLeaves | src/tree/PhyloNode.java:142-155 | Applied leaf to root, every node holds the number of leaves of its subtree |
| Phylo.PhyloArena.LinkNodesInPreorder | src/tree/PhyloNode.java:122-129 | A leaf changes nothing; an internal node's successor is its first child, and with the extremes set each child's rightmost leaf points at the next child |
| Phylo.PhyloArena.RightmostLeavesApart | src/tree/PhyloNode.java:122-129 | With the children's extremes set, their rightmost leaves are pairwise distinct and differ from the node |
| Phylo.PhyloArena.PreorderLinksInTree | src/tree/PhyloNode.java:122-129 | In a tree, every write of linkNodesInPreorder survives the later ones |
| Phylo.PhyloArena.LinkNodesInPostorder | src/tree/PhyloNode.java:132-139 | Each child but the last is followed by the next child's leftmost leaf, the last child by the node; no other node changes |
| Phylo.PhyloArena.LinkSiblingsInPostorder | src/tree/PhyloNode.java:136-137 | Each child but the last is followed by the next child's leftmost leaf, and no other node changes |

## Left out

- Input and output are not modelled: FASTA loading, the write/describe/print methods of Alignment, the `main` methods, and the logging through `Infos.println`.
- SequenceKnife's `System.exit` on an unsupported character is not modelled. Instead, the constructor requires every character to be encodable.
- An unrecognised sampling mode leaves the order null. The model has exactly the four modes, so that case does not arise.
- The knife's `States` object is not part of this model. Encoding uses `DnaStates.StateToByte`, and `isAmbiguous` is a predicate the caller supplies.
- `java.util.Random` and `System.nanoTime` are replaced by the draws the generator would return (draws[i] in [0, len-i)). The seed-to-draws function is not modelled.
- Knife.SequenceKnife.constructor: covers the String constructors. The Fasta constructors only read the sequence out of the unseen Fasta class. The deprecated `getWordAt` and the plain getter `getMerOrder` are left out.
- Knife.SequenceKnife.constructor: requires 1 <= minK <= k. With minK <= 0 the source can read `ambiguousKmer[n]`, out of bounds.
- Knife.SequenceKnife.GetNextWord: the source's recursive retry is modelled as the loop of `SkipShortWindows`.
- Floating point is not modelled.
  - Gap proportions are kept as integer gap counts, and reduceAlignment's ratio is given as num/den.
  - A column is flagged when count*den >= num*rows, which is the source's `>=` on exact rationals. Double rounding is not modelled.
  - PP* scores are opaque reals, never computed with.
  - The `Math.pow` initial capacity of the hash table is not modelled.
  - Branch lengths and `toString` formatting of PhyloNode are not modelled.
- Aln.Alignment.AddSequence: makes no running-average claim. The source zeroes the proportions before updating them, so the model states the counts of the new row alone, as written.
- `CustomNode` and `CustomHashMap` are not part of this model.
  - A store is the history of operations the index applied to it.
  - Its answers (best pair, best position, positions, pair lists, whether the limit emptied it) come from a caller-fixed `StoreView`.
  - The bucket tree is a plain binary-tree datatype.
  - `getHash` and `keySet` only expose the map and are left out.
- Hash.SimpleHashV2.ReducetoSmallHash: the list of words to remove is modelled as a set, because only its membership matters to the removal.
- `sortData`'s timing, and the `System.gc` calls, are not modelled.
- Aln.Alignment.RemoveSequence: requires exactly one row with the label and at least two rows.
  - With no match, the source's copy runs past the end of the new arrays.
  - With m > 1 matches, it leaves m-1 trailing rows of '\0' characters whose labels are null. Those rows count in the proportions' divisor and are scanned for gap intervals.
- Aln.Alignment.AddSequence: requires the new row to be exactly as wide as the alignment.
  - The source also accepts a longer row. It stores the whole row but reads only its first charMatrix[0].length characters for the proportions and intervals.
  - A shorter row makes the source read past its end.
- Aln.Alignment.AddAllSequences: requires as many labels as sequences, and every sequence exactly as wide as the alignment.
  - With more labels than sequences, the source adds the extra rows as rows of '\0' characters. Those rows are counted and scanned like the others.
  - With fewer labels than sequences, the source writes past the end of its new row array.
  - The source also stores sequences of other widths as they are; the model does not cover matrices with rows of different widths.
- Phylo.PhyloArena.LinkNodesInPreorder: requires the rightmost leaf of every child but the last to be set. Otherwise the source throws a NullPointerException when it writes through the missing leaf.
- DnaStates.ExpandMer: k is a natural number. A negative k makes the source throw a NegativeArraySizeException when it allocates the result.
- Partitions (`colPartitionIds`, the deprecated partition constructor) and `copy()` are not modelled.
- `getFasta`/`getAllFasta` only wrap rows into the unseen `Fasta` class and are left out.
- Java arrays of rows are modelled as values: aliasing between a caller's row arrays and the matrix is not captured.
- Java int overflow (32-bit) is not modelled. This covers leaf-count sums, counters and positions.
- Java bytes are unsigned `bv8`. `byteToState` on a negative or out-of-table byte, which throws in the source, is excluded by its precondition.
- An interval list the source leaves null is the empty sequence here.
- PhyloNode's Swing `DefaultMutableTreeNode` plumbing is replaced by an arena whose children have larger indices than their parents.
  - `getChildAt`, `firstChild` and `lastChild` are indexing into the children list.
  - `SetAllExtremeLeaves` and `SetAllNumberLeaves` stand in for the unseen tree traversals that call the per-node methods leaf to root.
- Phylo.PhyloArena.GetId: the getters `GetId`, `GetExternalId`, `GetLabel` and `GetNumberLeaves` are plain field reads. They are stated through the setters' contracts and the constructor.
- NonSupportedStateException only builds a message and prints to stderr, so it is not part of this model.
