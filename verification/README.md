# R*-tree index: a Dafny model

This project models the core of a disk-based R*-tree spatial index, written
in Java. The index follows Beckmann, Kriegel, Schneider and Seeger, "The
R*-tree" (SIGMOD 1990): ChooseSubtree (section 4.1), Split with
ChooseSplitAxis and ChooseSplitIndex (section 4.2), and OverflowTreatment
with forced reinsertion (section 4.3). The model is in eleven modules, one
file each:

| module | file | models |
|---|---|---|
| `Wrappers` | `wrappers.dfy` | `Option`, and `Result` with one error kind per exception the code throws |
| `Geometry` | `geometry.dfy` | `Bounds` and `BoundingBox`: intervals, union (`findMinBounds`), volume, perimeter, center, overlap, point distance, center distance |
| `Ordering` | `ordering.dfy` | `Double.compare`, lexicographic ranks, the stable `List.sort`, `Collections.min` |
| `Entries` | `entries.dfy` | `Entry`, `LeafEntry`, and the `Node` value kept in the block store |
| `Comparators` | `comparators.dfy` | `ComparatorsForEntries` and `EntryVolumeEnlargementPair` |
| `Split` | `split.dfy` | `Node.split`: candidate distributions, the axis choice, the index choice |
| `Tree` | `tree.dfy` | `RStarTree`: `addRecord`, `insert`, `chooseSubTree`, `overflowHandler`, `reInsert` over a block store |
| `RStarNodes` | `rstar_nodes.dfy` | `RStarNode`: the parallel box and pointer lists stored in the index file |
| `Bytes` | `bytes.dfy` | big-endian `ByteBuffer` puts and gets of `int`, `long` and raw `double` |
| `Doubles` | `doubles.dfy` | Java's `<=` on doubles, on IEEE 754 binary64 bit patterns (section 3.4 of IEEE 754-2008) |
| `Codec` | `codec.dfy` | `IndexManager`: the node and metadata block layouts, and a file of 32768-byte blocks |

Design choices:

- **Coordinates.** They are exact `real`s. Distances are kept squared, because `sqrt` is monotone and every comparison the index makes is unchanged. Where the source compares a square root with a radius, the contract quantifies over every non-negative root.
- **The index file.** The tree works on a block store `map<nat, Node>` with a counter of blocks in use. The codec works on a byte string and its 32768-byte blocks. A double there is its raw 64-bit pattern, so a round trip is exact to the bit.
- **Errors.** Each exception becomes an `Err` of `Result`. The kinds are a rejected interval, an empty split, a missing node, a buffer overflow or underflow, and so on.
- **Recursion.** The mutual recursion of insertion and reinsertion carries a fuel bound.
- **Capacity.** M is a parameter. `MIN_ENTRIES` is `(2 * M) / 5` and `REINSERT_P_ENTRIES` is `(3 * M) / 10`.

Where the code as written cannot be what was meant, the model follows the
evident intent. Four such cases are modelled both ways under "## Findings";
the rest are listed under "## Left out".

## Model

| member | source | states |
|---|---|---|
| Geometry.MakeBounds | src/Bounds.java:9-16 | the constructor succeeds exactly when lower <= upper and then stores both values unchanged; otherwise it fails with InvalidBounds |
| Geometry.Extent | src/BoundingBox.java:35 | the absolute extent of a valid interval is never negative |
| Geometry.Union | src/Bounds.java:24-34 | one interval per dimension, with the smaller lower and the larger upper value; the result encloses both boxes |
| Geometry.UnionIsLeast | src/Bounds.java:29-30 | every box that encloses both boxes encloses their union |
| Geometry.UnionCommutative | src/Bounds.java:29-31 | union(A, B) = union(B, A) |
| Geometry.UnionIdempotent | src/Bounds.java:29-31 | union(A, A) = A |
| Geometry.UnionAssociative | src/Bounds.java:29-31 | union(union(A, B), C) = union(A, union(B, C)) |
| Geometry.UnionWithEnclosed | src/Entry.java:29-31 | refitting a box with a box it already encloses leaves it unchanged |
| Geometry.UnionAsWritten | src/Bounds.java:29-31 | as written, each dimension passes (lowerMin, upperMax) to the (upper, lower) constructor: it succeeds exactly when upperMax <= lowerMin, and then stores them swapped |
| Geometry.UnionAsWrittenDiscrepancy | src/Bounds.java:31 | the as-written union succeeds exactly when both boxes are the same point, where it equals Union; two copies of [0, 1] already fail |
| Geometry.UnionAll | src/Entry.java:34-36 | the union of a list of boxes encloses every box, and each of its bounds is attained by some box (tight) |
| Geometry.UnionAllUnique | src/Entry.java:34-36 | a box that encloses every box of the list and is tight for it is the list's union |
| Geometry.UnionAllOrderIndependent | src/Entry.java:34-36 | permuting the list does not change its union |
| Geometry.Volume | src/BoundingBox.java:31-40 | the product of the extents is never negative |
| Geometry.VolumeZeroIff | src/BoundingBox.java:31-40 | the volume is 0 exactly when some dimension has lower = upper |
| Geometry.VolumeMonotone | src/BoundingBox.java:31-40 | an enclosed box has no larger volume |
| Geometry.Perimeter | src/BoundingBox.java:42-51 | the sum of the extents is never negative |
| Geometry.PerimeterMonotone | src/BoundingBox.java:42-51 | an enclosed box has no larger perimeter |
| Geometry.Center | src/BoundingBox.java:53-61 | each center coordinate lies in its interval, equally far from both ends |
| Geometry.Overlap | src/BoundingBox.java:84-98 | the overlap is never negative, and it is positive exactly when every dimension's intersection length is positive |
| Geometry.OverlapSymmetric | src/BoundingBox.java:84-98 | overlap(A, B) = overlap(B, A) |
| Geometry.OverlapSelf | src/BoundingBox.java:84-98 | overlap(A, A) = volume(A) |
| Geometry.OverlapAtMostVolume | src/BoundingBox.java:84-98 | overlap(A, B) <= volume(A) |
| Geometry.OverlapMonotone | src/BoundingBox.java:84-98 | growing the first box never decreases the overlap |
| Geometry.Clamp | src/BoundingBox.java:67-72 | the clamped coordinate lies in the interval, and it equals the input exactly when the input lies in the interval |
| Geometry.MinDistanceSq | src/BoundingBox.java:63-77 | the squared distance from a point to a box is never negative |
| Geometry.MinDistanceZeroIffInside | src/BoundingBox.java:63-77 | the distance is 0 exactly when the point lies inside the box |
| Geometry.SqrtAtMost | src/BoundingBox.java:76 | a square root is at most r exactly when r >= 0 and the square is at most r squared |
| Geometry.CheckOverlapWithPoint | src/BoundingBox.java:80-82 | true exactly when the square root of the squared minimum distance is at most the radius |
| Geometry.InsidePointOverlapsEveryRadius | src/BoundingBox.java:80-82 | a point inside the box is within every non-negative radius |
| Geometry.CenterDistanceSq | src/BoundingBox.java:100-106 | the squared distance between centers is never negative |
| Geometry.CenterDistanceSymmetric | src/BoundingBox.java:100-106 | the center distance is symmetric |
| Geometry.CenterDistanceZeroIff | src/BoundingBox.java:100-106 | the center distance is 0 exactly when the centers coincide |
| Ordering.CompareReal | src/ComparatorsForEntries.java:26 | Double.compare on exact values: negative, zero or positive as x < y, x = y or x > y |
| Ordering.CompareRanks | src/ComparatorsForEntries.java:86-97 | comparing by the first key and breaking ties by the next: negative exactly when the first rank strictly precedes, zero exactly on equal ranks |
| Ordering.CompareRanksAntisymmetric | src/EntryVolumeEnlargementPair.java:21-28 | swapping the arguments negates the comparison |
| Ordering.NotAfterTotalPreorder | src/ComparatorsForEntries.java:47-55 | "not after" is reflexive, total and transitive, so the comparators are fit for sorting and minimum |
| Ordering.SortBy | src/RStarTree.java:128 | the sort returns a permutation of its input, ordered by rank |
| Ordering.SortByKeepsTies | src/RStarTree.java:128 | the sort is stable: the elements of any one rank come out in the order they went in |
| Ordering.SortByStable | src/RStarTree.java:128 | sorting positions given in increasing order leaves positions of equal rank in increasing order |
| Ordering.StableCut | src/RStarTree.java:134-136 | a prefix of a stably sorted list of positions is sorted, stable and without repeats, and each of its positions ranks no later than any position after the cut, and before it on a tie |
| Ordering.FirstMin | src/RStarTree.java:159 | Collections.min returns an element that no other element precedes, and every earlier element ranks strictly after it (the first minimum) |
| Ordering.SortedSplit | src/RStarTree.java:134-136 | after sorting, every element of a prefix ranks no later than every element after it |
| Entries.Cover | src/Entry.java:34-36 | the box fitted to a list of entries encloses each entry's box and is tight for them |
| Entries.FromBox | src/Entry.java:14-16 | an entry built from a box keeps the box and has no child id |
| Entries.FromNode | src/Entry.java:10-13 | an entry built from a node points at the node's block, and its box encloses the node's entries and is tight for them |
| Entries.MakeLeafEntry | src/LeafEntry.java:7-17 | a leaf entry keeps the record id, the data block id and the given bounds, with no child id |
| Entries.SetChild | src/Entry.java:24-26 | setting the child id changes nothing else: not the box, nor the record or data block ids |
| Entries.RefitToEntry | src/Entry.java:29-31 | the refit box encloses the old box and the other entry's box, lies inside every box that encloses both, and everything else of the entry is kept |
| Entries.RefitToContainedEntry | src/Entry.java:29-31 | refitting to an entry whose box is already enclosed leaves the entry unchanged |
| Entries.RefitToEntries | src/Entry.java:34-36 | the refit box encloses every listed box and is tight for them; everything else of the entry is kept |
| Entries.AddEntry | src/Node.java:42-44 | appending keeps the level, the block id and the earlier entries, and puts the new entry last |
| Comparators.CompareOnBounds | src/ComparatorsForEntries.java:15-27 | negative or positive exactly as the chosen bound (upper or lower) of the first entry is smaller or larger |
| Comparators.SortOnBound | src/Node.java:77-79 | sorting on one bound of one axis gives a permutation whose chosen bounds ascend |
| Comparators.Enlargement | src/ComparatorsForEntries.java:38-41 | the growth in volume when a box is widened to cover the new box is never negative, and 0 when the new box is already enclosed |
| Comparators.CompareOnVolumeEnlargement | src/ComparatorsForEntries.java:47-55 | a smaller enlargement comes first; equal enlargements are ordered by volume |
| Comparators.EntryOverlap | src/ComparatorsForEntries.java:78-84 | the total overlap of a box with the other entries of the node is never negative |
| Comparators.EntryOverlapExcludesSelf | src/ComparatorsForEntries.java:78-84 | the entry itself does not count: replacing it in the node does not change the sum |
| Comparators.EntryOverlapMonotone | src/ComparatorsForEntries.java:78-84 | a larger box overlaps the other entries at least as much |
| Comparators.OverlapIncrease | src/ComparatorsForEntries.java:66-75 | the overlap increase from refitting the entry to the new box is never negative |
| Comparators.CompareOnOverlapIncrease | src/ComparatorsForEntries.java:86-97 | a smaller overlap increase comes first; ties fall back to the enlargement and then to the volume |
| Comparators.SquaredOrder | src/ComparatorsForEntries.java:105-112 | comparing squared distances orders as comparing the distances |
| Comparators.CompareOnDistanceFromPoint | src/ComparatorsForEntries.java:101-113 | negative or positive exactly as the first entry's box is nearer to or farther from the point |
| Comparators.ContainingEntryComesFirst | src/ComparatorsForEntries.java:101-113 | an entry whose box contains the point is never ordered after another |
| Comparators.CompareOnDistanceFromCenter | src/ComparatorsForEntries.java:114-124 | negative or positive exactly as the first entry's center is nearer to or farther from the box's center |
| Comparators.PairCompareTo | src/EntryVolumeEnlargementPair.java:21-28 | pairs compare by enlargement, and equal enlargements by the entry's volume |
| Comparators.PairCompareToAntisymmetric | src/EntryVolumeEnlargementPair.java:21-28 | swapping the pairs negates the comparison |
| Comparators.MakePair | src/EntryVolumeEnlargementPair.java:6-13 | the pair holds the entry and its non-negative enlargement |
| Comparators.PairsCompareAsEntries | src/EntryVolumeEnlargementPair.java:21-28 | comparing pairs built for one new box is CompareOnVolumeEnlargement on their entries |
| Split.MinEntries | src/Node.java:11 | m is 40 per cent of M rounded down, and 2m <= M |
| Split.MakeGroup | src/Node.java:98-101 | a group carries exactly its entries and their fitted box |
| Split.Candidate | src/Node.java:90-101 | the first k entries of the ordering form group A and the rest group B; each group carries its own fitted box |
| Split.Distributions | src/Node.java:89-102 | an ordering gives M - 2m + 2 candidates; the j-th has a group A of m + j entries and A ++ B = the ordering; with M + 1 entries both groups have at least m |
| Split.MarginSum | src/Node.java:103-104 | the summed margins of an ordering's candidates are never negative |
| Split.AxisOrderings | src/Node.java:69-83 | the two orderings of an axis are permutations of the entries, by upper bound and by lower bound |
| Split.AxisOrderingsAsWritten | src/Node.java:78-79 | as written, both orderings are the same permutation sorted by lower bound |
| Split.AxisOrderingsDiscrepancy | src/Node.java:78-79 | for two entries whose bounds cross, the as-written first ordering puts the wider entry first and the intended one puts it last |
| Split.OrderingSplits | src/Node.java:89-96 | every candidate of an ordering of the entries splits them exactly, with at least m in group A |
| Split.AxisCandidates | src/Node.java:81-105 | an axis gives 2(M - 2m + 2) candidates, each an exact split of the node's entries with both groups fitted |
| Split.AxisMargins | src/Node.java:85-105 | the margin sums of an axis's two orderings are never negative |
| Split.AllAxisMargins | src/Node.java:68-112 | one pair of margin sums per axis, in axis order |
| Split.ScanCorrectedPicksLeastTotal | src/Node.java:106-110 | one comparison per axis with the total margin picks the first axis of least total |
| Split.ScanAsWrittenPicksLeastFirstSum | src/Node.java:85-111 | as written, the scan picks the first axis of least first-ordering margin, because the running total never beats the partial sum just kept |
| Split.AxisScanDiscrepancy | src/Node.java:106-110 | margin sums (1, 10) and (2, 2): the as-written scan picks axis 0, the intended one axis 1 |
| Split.AxisMarginsAsWritten | src/Node.java:78-104 | as written, the two margin sums of an axis are equal and never negative, since both orderings sort by lower bound |
| Split.AllAxisMarginsAsWritten | src/Node.java:68-112 | as written, one pair of equal margin sums per axis, in axis order |
| Split.ScanMasked | src/Node.java:106-110 | when each axis's two margin sums are equal, the as-written scan picks the same axis as one comparison per axis on the total: the first of least total |
| Split.SplitAxisAsWritten | src/Node.java:65-114 | getSplitAxis as written, on its own orderings: the axis it returns has the least first-ordering sum and is also the first axis of least total margin |
| Split.ChooseSplitAxis | src/Node.java:65-114 | the axis chosen is the first one with the least total margin over both orderings |
| Split.GroupOverlap | src/Node.java:134 | the overlap of the two groups is never negative |
| Split.ChooseSplitIndex | src/Node.java:123-146 | fails on an empty list; otherwise picks a candidate of least overlap, ties by least margin, and the first such |
| Split.FirstLeastTotalUnique | src/Node.java:106-110 | at most one axis is the first of least total margin |
| Split.FirstBestUnique | src/Node.java:130-146 | at most one candidate position is the first of least overlap, ties by least margin |
| Split.ChooseSplitIndexIsFirstBest | src/Node.java:123-146 | for a non-empty list, getSplitIndex's pick is that first best position |
| Split.SplitOnAxis | src/Node.java:123-152 | the chosen candidate of an axis splits the entries exactly, with at least m in group A and, for M + 1 entries, in group B, and it is the axis's first candidate of least overlap, ties by least margin |
| Split.BestOnAxisUnique | src/Node.java:130-146 | an axis has exactly one such first best candidate |
| Split.ChooseSplit | src/Node.java:162-165 | the chosen distribution splits the node's entries exactly, fits both groups, and is the first best candidate of the first axis of least total margin |
| Split.ChooseSplitIsChosen | src/Node.java:155-165 | the best axis, then the best split on it, is a split meeting that description |
| Split.ChosenSplitIsChooseSplit | src/Node.java:155-165 | every distribution meeting that description is the one the split takes, so the choice is determined by the entries |
| Split.SplitNode | src/Node.java:147-165 | the split succeeds exactly when there are dimensions, a capacity of at least 3 and enough entries; it gives two nodes at the input's level whose entries are the two groups of the chosen split (first axis of least total margin, then its first candidate of least overlap and margin), together a permutation of the input's |
| Split.SmallCapacityNeverSplits | src/Node.java:89-96 | with a capacity below 3 every split is rejected, since group A would have no entries |
| Tree.ReinsertCount | src/RStarTree.java:16 | p is 30 per cent of M rounded down, and p < M + 1 |
| Tree.Read | src/RStarTree.java:71-73 | reading a block fails on a missing block; otherwise it returns the stored node, unless its boxes do not have the index's dimension (a guard of the model) |
| Tree.Write | src/RStarTree.java:78-79 | writing stores the node under its block id and changes no other block |
| Tree.Append | src/RStarTree.java:186-187 | appending stores the node in the next free block and advances the block counter by one |
| Tree.WithParentEntry | src/RStarTree.java:66-68 | the parent node's entry is replaced in place, and every other entry is kept |
| Tree.Descend | src/RStarTree.java:63-71 | without a parent the descent starts at the root block and changes nothing; with one it fails exactly when the parent entry has no child, and otherwise the parent entry is replaced in place by one that encloses both its old box and the new entry's box |
| Tree.ByEnlargement | src/RStarTree.java:121-132 | every entry position exactly once, sorted by enlargement and then volume, positions of equal rank in node order |
| Tree.CandidatesOf | src/RStarTree.java:119-136 | 32 distinct entry positions in sorted, stable order; none ranks after a position left out, and on a tie with one left out the candidate comes earlier in the node |
| Tree.LeastEnlargement | src/RStarTree.java:151-160 | the first entry of least enlargement, ties by least volume |
| Tree.LeastOverlapIncrease | src/RStarTree.java:136 | among the candidates, the first of least overlap increase, ties by enlargement and then volume: every earlier candidate ranks strictly after it |
| Tree.LeastOverlapIncreaseOfAll | src/RStarTree.java:144 | over the whole node, the first entry of least overlap increase: every earlier entry ranks strictly after it |
| Tree.ChooseSubtree | src/RStarTree.java:113-161 | fails exactly on an empty node; just above the target level it picks an entry of least overlap increase (only among the 32 of least enlargement when M > 21 and the node has more than 32 entries), higher up one of least enlargement, ties by volume; in each case the first such entry in node or candidate order |
| Tree.SplitNonRoot | src/RStarTree.java:183-192 | group A stays in the node's block and group B goes to the next free block; the parent keeps every other entry, its entry for the node is refit to enclose group A tightly, and an entry for the new block, enclosing group B, is handed up |
| Tree.SplitRoot | src/RStarTree.java:197-210 | both groups go to fresh blocks, and a root one level higher with exactly two entries for them is written to block 1 |
| Tree.SortByCenter | src/RStarTree.java:224 | the entries are permuted into ascending distance of their centers from the parent box's center |
| Tree.SplitByDistance | src/RStarTree.java:225-229 | cutting that order keeps every nearer entry and removes the farther ones, still in ascending order |
| Tree.ReinsertPlan | src/RStarTree.java:219-229 | the last p entries by center distance are removed and the rest kept: together a permutation of the node, no kept entry farther than a removed one, the removed in ascending distance |
| Tree.Insert | src/RStarTree.java:59-109 | insertion only adds blocks, never decreases the height or block counter, and only sets reinsertion flags; a sibling entry is handed up only to a caller that has a parent |
| Tree.Absorb | src/RStarTree.java:90-101 | without a sibling from below, it succeeds exactly when the node reads back and then changes nothing; with one, the result keeps what every insertion step keeps and hands a sibling up only to a caller with a parent |
| Tree.CheckOverflow | src/RStarTree.java:104-108 | a node of at most M entries is left alone and nothing is handed up |
| Tree.SplitOverflow | src/RStarTree.java:175-211 | the split succeeds exactly when the node is splittable and is the root or has a parent; a root split raises the height by one and uses two blocks, a non-root split one block and hands up an entry |
| Tree.Flag | src/RStarTree.java:170 | setting a level's flag appends that level and changes nothing else |
| Tree.Overflow | src/RStarTree.java:164-173 | a non-root node whose level has no flag slot fails (the array index is out of bounds); the first overflow of any other non-root level sets its flag and reinserts, handing nothing up; any other overflow splits |
| Tree.ReInsert | src/RStarTree.java:214-243 | forced reinsertion succeeds only on a node of exactly M + 1 entries that has a parent |
| Tree.ReinsertAll | src/RStarTree.java:241-242 | inserting the removed entries from the top keeps what every insertion step keeps, and an empty list leaves the tree as it was |
| Tree.PointBox | src/RStarTree.java:47-49 | a point's box has lower = upper = the coordinate in every dimension, contains the point and has zero volume |
| Tree.PointBoxAsWritten | src/RStarTree.java:49 | as written, each dimension is built as (upper = coordinate, lower = data block id): it fails unless the block id is at most every coordinate |
| Tree.PointBoxDiscrepancy | src/RStarTree.java:47-49 | coordinate 0.5 in data block 1 is rejected, and coordinate 3.0 in block 1 gets the box [1, 3] instead of its point |
| Tree.AddRecord | src/RStarTree.java:44-54 | flags are cleared and the record's leaf entry is inserted at the leaf level; each level is force-reinserted at most once, and blocks are only added |
| Tree.InsertIntoRoomyLeafRoot | src/RStarTree.java:63-108 | a leaf root with fewer than M entries takes the new entry at its end, and no other block, counter or flag changes |
| Tree.AddRecordToRoomyLeafRoot | src/RStarTree.java:44-54 | adding a record to a roomy leaf root appends exactly its leaf entry to the root |
| RStarNodes.NewNode | src/RStarNode.java:26-30 | a new node keeps the leaf flag and has empty, hence parallel, lists |
| RStarNodes.AddEntry | src/RStarNode.java:32-35 | the box and the pointer are appended, one to each list; the flag and all earlier entries are kept, and parallel lists stay parallel |
| RStarNodes.MbrSize | src/RStarNode.java:37-39 | the number of boxes, which equals the number of pointers in a parallel node, and is 0 only for a node without boxes |
| RStarNodes.AddEntries | src/RStarNode.java:32-35 | adding entries in order appends both lists and grows the size by their number |
| Bytes.DecodeEncodeUnsigned | src/IndexManager.java:33-37 | reading back a k-byte big-endian encoding gives the value |
| Bytes.EncodeDecodeUnsigned | src/IndexManager.java:57-61 | re-encoding a decoded byte string gives the same bytes |
| Bytes.ToUnsigned | src/IndexManager.java:71 | two's complement: non-negative values are kept, negative ones land in the upper half of the range |
| Bytes.FromUnsigned | src/IndexManager.java:104 | reading a two's complement pattern gives a signed value whose pattern it is |
| Bytes.FromToUnsigned | src/IndexManager.java:104 | reading back a signed value's pattern gives the value |
| Bytes.EncodeInt | src/IndexManager.java:71 | putInt writes 4 bytes |
| Bytes.DecodeInt | src/IndexManager.java:104 | getInt gives the int whose encoding the 4 bytes are |
| Bytes.DecodeEncodeInt | src/IndexManager.java:58-61 | getInt of putInt gives the int |
| Bytes.EncodeLong | src/IndexManager.java:79 | putLong writes 8 bytes |
| Bytes.DecodeLong | src/IndexManager.java:115 | getLong gives the long whose encoding the 8 bytes are |
| Bytes.DecodeEncodeLong | src/IndexManager.java:57 | getLong of putLong gives the long |
| Bytes.EncodeDouble | src/IndexManager.java:76-77 | putDouble writes the 8 bytes of the raw pattern |
| Bytes.DecodeDouble | src/IndexManager.java:110-111 | getDouble gives the pattern whose encoding the 8 bytes are |
| Bytes.DecodeEncodeDouble | src/IndexManager.java:110-111 | getDouble of putDouble gives the same bit pattern |
| Doubles.Exponent | src/Bounds.java:10 | the exponent field fits in 11 bits |
| Doubles.Fraction | src/Bounds.java:10 | the fraction field fits in 52 bits |
| Doubles.OrderKey | src/Bounds.java:10 | the number-line position of a pattern that is not NaN: the magnitude with its sign, 0 for both zeros |
| Doubles.JavaLeOrder | src/Bounds.java:10 | lower <= upper on doubles is false for NaN, total and transitive otherwise, and only the two zeros are distinct yet equal |
| Codec.EntriesSize | src/IndexManager.java:73-80 | n entries take n(16D + 8) bytes |
| Codec.Put | src/IndexManager.java:68 | a put into the 32768-byte buffer appends its bytes exactly when they fit, and fails with an overflow otherwise |
| Codec.PutEntries | src/IndexManager.java:73-80 | writing entries i and on succeeds exactly when each box has D dimensions and a pointer and the bytes fit; it appends n(16D + 8) bytes after the earlier ones |
| Codec.PutBounds | src/IndexManager.java:74-79 | the rest of one entry (lower then upper per remaining dimension, then the pointer) and the entries after it: success conditions and length |
| Codec.EncodeNode | src/IndexManager.java:67-82 | the buffer is the flag byte (1 for a leaf), the 4-byte count, then the entries; it succeeds exactly when the node is writable and 5 + n(16D + 8) <= 32768 |
| Codec.Get | src/IndexManager.java:101 | a get returns the k bytes at the position, or fails with an underflow past the bytes read |
| Codec.GetEntries | src/IndexManager.java:107-117 | reading the remaining entries adds that many to the node and keeps it parallel; it succeeds only when their bytes are present, and fails only by underflow or a rejected interval |
| Codec.GetBounds | src/IndexManager.java:108-116 | reading the rest of one entry and the entries after it adds them all and keeps the node parallel; it succeeds only when their bytes are present, and fails only by underflow or a rejected interval |
| Codec.DecodeNode | src/IndexManager.java:101-119 | the flag is a leaf exactly when its byte is 1; the node is parallel and holds as many entries as the count says (none if negative), each a box of D intervals that passed the Bounds check; it fails only by underflow or a rejected interval |
| Codec.GetEntriesStorable | src/IndexManager.java:109-113 | every box a read adds has D dimensions and passed the Bounds check |
| Codec.GetBoundsStorable | src/IndexManager.java:109-113 | the same for the rest of one entry and the entries after it |
| Codec.EntriesRoundTrip | src/IndexManager.java:73-117 | entries i and on are read back from where they were written, after the first i |
| Codec.BoundsRoundTrip | src/IndexManager.java:75-116 | the rest of one entry and the entries after it are read back from where they were written |
| Codec.DecodeNodeHeader | src/IndexManager.java:103-107 | after the flag and count, decoding reads the counted entries into a new node |
| Codec.NodeRoundTrip | src/IndexManager.java:67-119 | reading back a written node gives the same flag, count, boxes bit for bit, and pointers, whatever follows in the block |
| Codec.GetEntriesExtends | src/IndexManager.java:107-117 | an entry read that succeeds on some bytes gives the same from any longer bytes |
| Codec.GetBoundsExtends | src/IndexManager.java:108-116 | the same for the rest of one entry |
| Codec.DecodeNodeExtends | src/IndexManager.java:93-119 | a node decoded from a block decodes the same from any longer block |
| Codec.EncodeMetadata | src/IndexManager.java:31-38 | the metadata takes 24 bytes, which fit in one block |
| Codec.DecodeMetadata | src/IndexManager.java:48-64 | decoding succeeds exactly when at least 24 bytes were read |
| Codec.MetadataRoundTrip | src/IndexManager.java:31-64 | reading back written metadata gives its five fields |
| Codec.DecodeMetadataExtends | src/IndexManager.java:48-64 | metadata decoded from a block decodes the same from any longer block |
| Codec.WriteAt | src/IndexManager.java:84-89 | a write at an offset puts the bytes there, grows the file as needed with zeros in any gap, and changes no other byte |
| Codec.ReadAt | src/IndexManager.java:95-101 | a read returns at most 32768 bytes, each the file's byte at its position from the offset: a full block inside the file, at least one byte whenever the offset is inside it |
| Codec.WriteNode | src/IndexManager.java:67-90 | writing a node succeeds exactly when it encodes and the block id is not negative; the file then reaches past the encoded node in its block |
| Codec.ReadNode | src/IndexManager.java:93-120 | a node read fails for a negative block id, and every node read has D-dimensional, checked boxes |
| Codec.WriteMetadata | src/IndexManager.java:31-45 | after the write the file holds at least the 24 metadata bytes |
| Codec.ReadMetadata | src/IndexManager.java:48-64 | reading the metadata succeeds exactly when the file has 24 bytes |
| Codec.WriteAtBlock | src/IndexManager.java:86-98 | after a write of at most one block at a block boundary, that block reads back starting with the bytes written, and every other block reads back starting with what it read before |
| Codec.WriteThenReadNode | src/IndexManager.java:67-120 | readNode after writeNode of a storable node gives the node again |
| Codec.WriteThenReadMetadata | src/IndexManager.java:31-64 | readIndexMetadata after writeIndexMetadata gives the metadata again |
| Codec.WriteNodeKeepsOtherNodes | src/IndexManager.java:84-89 | writing a node leaves a readable node of every other block reading the same |
| Codec.WriteNodeKeepsMetadata | src/IndexManager.java:84-89 | writing a node to a block other than 0 leaves readable metadata reading the same |
| Codec.WriteMetadataKeepsNodes | src/IndexManager.java:40-44 | writing the metadata leaves a readable node of every block other than 0 reading the same |

## Left out

- DataHandler (object serialisation, the data file, block counters, and the calibration of M and of records per block) is not part of this model. M is a parameter, and the index file of the tree is the block store.
- Main, Record parsing and the Metadata holders are not modelled. A record enters `AddRecord` as its id, its coordinates and its data block id.
- The RStarTree constructor's bulk load from the data file is I/O, and the tree's starting state is left to the caller. IndexMetadata is the `Codec.IndexMetadata` record.
- Floating-point arithmetic is left out. Geometry uses exact reals, and `Math.sqrt`/`Math.pow` are dropped in favour of squared distances. The double products `0.4 * M` and `0.3 * M` are written as the integer floors `(2 * M) / 5` and `(3 * M) / 10`. The codec does keep doubles bit-exact, and Java's `<=` on them, including NaN.
- The lazy memoisation of volume, perimeter and center in BoundingBox is not modelled; they are computed when asked.
- `BoundingBox(bounds)` calls the getters before it assigns `bounds` (src/BoundingBox.java:20-25). The model follows the evident intent of computing them from the given bounds.
- Some calls do not match any declaration. The model takes the evident target:
  - `findMinBounds` is called statically and on a list: `Union` and `UnionAll`.
  - `findDistanceBetweenBoundingBoxes` (src/ComparatorsForEntries.java:119) is `findDistanceBetweenCenters`.
  - `DataHandler.getMetadata()` is the index's dimension.
  - `getMaxEntries`/`getMinEntries` (src/IndexManager.java:35-36) are `getMaxCapacity`/`getMinCapacity`.
- HashMap identity in the comparators becomes entry positions. "Other entries" in `findEntryOverlap` means other positions of the node.
- Exception printing and swallowing are not modelled. Every exception is an `Err`, which the caller propagates.
- `Tree.Insert`, `Tree.ReInsert` and `Tree.ReinsertAll` carry a fuel bound. Insertion fails with `OutOfFuel` when the recursion (descent plus nested reinsertion) goes deeper than the fuel; the source has no such bound.
- Tree.Insert: the contract states what every insertion keeps (blocks only added, counters and flags only grow) and where a sibling can appear. The placement of the entry is stated per step: `Descend`, `ChooseSubtree`, `CheckOverflow`, `Overflow`, `SplitNonRoot` and `SplitRoot`, plus the whole-call lemma `InsertIntoRoomyLeafRoot`. It is not stated as one postcondition over the whole tree.
- Tree.AddRecord: states that each level is force-reinserted at most once and that blocks are only added. It does not state that the record ends up in the tree, except in the roomy-leaf-root case of `AddRecordToRoomyLeafRoot`.
- Tree.ReInsert: states the entry-count and parent conditions. The plan's own properties are on `ReinsertPlan`; the contract does not say where the reinserted entries land.
- Tree.Absorb: states the no-split case exactly; with a sibling it states only what every overflow treatment keeps.
- Split.SplitNode: a capacity M below 3 gives m = 0 and an empty first group, whose box `findMinBounds` cannot fit; the model rejects every split for such a capacity (`SmallCapacityNeverSplits`), so a tree of that capacity fails at its first root split.
- Tree.Read: the dimension check is the model's own. `readIndexFileBlock` fails only on a missing block; the guard lets the geometry rely on boxes of the index's dimension and never fires on a store built by the model's own operations.
- Codec.ReadAt: a short read (fewer bytes than available before the end of the file) is not modelled. A read returns every byte of the block that exists.
- Codec.WriteNodeKeepsOtherNodes, Codec.WriteNodeKeepsMetadata, Codec.WriteMetadataKeepsNodes: stated for blocks that read successfully before the write. A block that failed to read may read differently afterwards, because a write can extend the file.
- Codec.EncodeMetadata, Codec.WriteMetadata: their own contracts state only the size. The field order and the read-back are `MetadataRoundTrip` and `WriteThenReadMetadata`.
- Codec.ReadNode: its own contract states only the failure on negative ids and the shape of what it returns. The round trip is `WriteThenReadNode`.

## Findings

| source | as written | input that shows it | evidently intended | confidence | as-written member | corrected member |
|---|---|---|---|---|---|---|
| src/Bounds.java:31 | `new Bounds(lowerMin, upperMax)` calls a constructor whose parameters are `(upper, lower)`, so its check runs on the swapped pair | the union of [0, 1] with itself is rejected | per dimension, lower = the smaller lower value and upper = the larger upper value | high; not executed | Geometry.UnionAsWritten, Geometry.UnionAsWrittenDiscrepancy | Geometry.Union |
| src/RStarTree.java:49 | a point's bounds are built as `new Bounds(coordinate, dataFileBlockId)`: upper = the coordinate, lower = the data block id | coordinate 0.5 in data block 1 is rejected; coordinate 3.0 in block 1 gets [1, 3] | lower = upper = the coordinate, as the comment at src/RStarTree.java:47 says | high; not executed | Tree.PointBoxAsWritten, Tree.PointBoxDiscrepancy | Tree.PointBox |
| src/Node.java:78-79 | both orderings of an axis use `CompareOnBounds(..., false)`, that is, the lower bound | entries [0, 10] and [1, 2] on one axis: the first ordering puts [0, 10] first, the upper-bound order puts it last | one ordering by upper bound and one by lower bound, as the comment at src/Node.java:77 says | high; not executed | Split.AxisOrderingsAsWritten, Split.AxisOrderingsDiscrepancy | Split.AxisOrderings |
| src/Node.java:106-110 | the axis comparison sits inside the loop over the two orderings, so it first compares the first ordering's partial sum, which the running total then never beats | margin sums (1, 10) on axis 0 and (2, 2) on axis 1: axis 0 is chosen, with total 11 against 4 | one comparison per axis, on the total margin of both orderings; while src/Node.java:78-79 makes both sums equal the defect is masked (Split.ScanMasked), and the input shows it once the orderings differ | high; not executed | Split.ScanAsWrittenPicksLeastFirstSum, Split.AxisScanDiscrepancy, Split.SplitAxisAsWritten | Split.ChooseSplitAxis |
