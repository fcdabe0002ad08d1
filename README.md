# Burrows-Wheeler and move-to-front, modelled in Dafny

This project models the reversible front end of a bzip-style compressor.

- **Circular suffix array** (`CircularSuffixArray.java`). The n cyclic rotations of a text are sorted in place by a three-way string quicksort over an index array `sa`.
- **Burrows-Wheeler transform** (`BurrowsWheeler.java`). The forward pass finds the row `first` that holds the text itself and emits the last column of the sorted rotations. The inverse rebuilds the text from `(first, last column)`. It does so by walking a `next` array that a stable counting sort over 256 byte values produces.
- **Move-to-front coding** (`MoveToFront.java`). A 256-symbol alphabet is kept in an array. Each byte is replaced by its position in the alphabet, or each position by the symbol there. That symbol is then moved to the front.

The Java code works on arrays that it updates step by step, and the model keeps that form:

- `SuffixArray.CircularSuffixArray` is a class. It holds the text and an `array<int>`, which `Exchange`, `Partition` and the recursive `Sort` rearrange in place.
- `count`, `next` and the move-to-front alphabet are arrays, filled and updated by loops.
- The standard-input and standard-output streams of `transform`, `inverseTransform`, `encode` and `decode` become an input sequence and an output sequence. Both hold values 0..255.

Each method is proved against a specification function, and the properties of the source are proved about those functions:

- `Rotations.IsCircularSuffixArray` states what a circular suffix array is. `BurrowsWheeler.LastColumn`, `BurrowsWheeler.IsBwt` and `BurrowsWheeler.Inverse` specify the transform and its inverse.
- `Counting.StableOrder` and `Counting.Rank` specify the stable counting sort.
- `MoveToFront.Encoding` and `MoveToFront.Decoding` specify move-to-front coding.
- The headline results are `BurrowsWheeler.BwtRoundTrip` and `MoveToFront.DecodeEncode` / `MoveToFront.EncodeDecode`.

The modules are:

- `Common`: results, errors, byte sequences and permutations.
- `Rotations`: rotations, lexicographic order and sorted rows.
- `SuffixArray`: the circular suffix array class.
- `Counting`: counting sort.
- `BurrowsWheeler`: the transform and its inverse.
- `MoveToFront`: move-to-front coding.
- `Pipeline`: both stages forward and both inverses back.

Where the code and the usual description of the algorithm differ, the model follows the code:

- **The transform of an empty text fails.** The code steps `first` up from 0 while `index(first) != 0`, stopping at the row with `index(first) == 0`. For an empty text, `index(0)` throws `IllegalArgumentException`. So `Transform` returns `Failure(IllegalArgument)` for an empty text; it does not produce `first = 0` and an empty column.
- **Equal rotations are not ordered by index.** The three-way quicksort is not stable, so rotations that compare equal over all n characters (a periodic text) end up in an order the sort happens to produce. The model therefore proves the round trip for every valid circular suffix array, not for one fixed tie order.
- **The row number `first` is not checked.** `inverseTransform` does not validate `first`. A non-empty column with `first` outside `[0, n)` makes the Java code index out of bounds on its first step. `InverseTransform` returns `Failure(IndexOutOfBounds)` there. For an empty column the loop never runs, and the result is empty whatever `first` is.

## Model

| member | source | states |
|---|---|---|
| SuffixArray.CircularSuffixArray.constructor | CircularSuffixArray.java:21-38 | the new object keeps the text, its length equals the text's, and `sa` is a circular suffix array of the text: a permutation of 0..n-1 whose rotations are in lexicographic order (the empty text gives the empty array) |
| SuffixArray.CircularSuffixArray.Construct | CircularSuffixArray.java:21-24 | a missing (null) text fails with IllegalArgument, and fails in no other case; otherwise the result is a valid object for that text whose `sa` is a circular suffix array |
| SuffixArray.CircularSuffixArray.Sort | CircularSuffixArray.java:42-72 | keeps the object valid (`sa` a permutation of 0..n-1); after sort(start, end, offset), `sa[start..end]` is a rearrangement of its old contents that is sorted by rotation from depth offset, and every entry outside the range is unchanged |
| SuffixArray.CircularSuffixArray.Partition | CircularSuffixArray.java:46-67 | the partition loop leaves `start <= lo <= hi <= end`, with offset characters below the pivot in `[start, lo)`, equal to it in `[lo, hi]` (non-empty) and above it in `(hi, end]`; it only rearranges `sa[start..end]` |
| SuffixArray.CircularSuffixArray.SkipGreater | CircularSuffixArray.java:61-63 | the inner loop stops at h, where every entry in `(h, hi]` has an offset character above the pivot, and either h is the scan position `pointer` or its character is not above the pivot |
| SuffixArray.CircularSuffixArray.Exchange | CircularSuffixArray.java:74-78 | `sa` afterwards is the old `sa` with entries i and j swapped |
| SuffixArray.CircularSuffixArray.Length | CircularSuffixArray.java:83-85 | the length is the text's length and the size of `sa` |
| SuffixArray.CircularSuffixArray.Index | CircularSuffixArray.java:95-100 | succeeds exactly when `0 <= i < n`, with `sa[i]` (itself in `[0, n)`); otherwise fails with IllegalArgument |
| SuffixArray.SortCombine | CircularSuffixArray.java:69-71 | the three recursive sorts after a partition together sort the whole range from the current depth and touch nothing outside it |
| SuffixArray.BandsLess | CircularSuffixArray.java:55-58 | the less-than branch (exchange lo with pointer, advance both) keeps the partition loop's invariant |
| SuffixArray.BandsGreater | CircularSuffixArray.java:60-66 | the greater-than branch (exchange pointer with hi, then `hi--`) keeps the partition loop's invariant |
| SuffixArray.BandsDone | CircularSuffixArray.java:50-67 | when the scan position `pointer` passes hi, the three bands are in place and the middle band is non-empty |
| SuffixArray.SortedAlready | CircularSuffixArray.java:43-44 | a range of at most one entry, or a depth of n or more, is already sorted |
| Rotations.LeqFromIsLex | CircularSuffixArray.java:42-72 | comparing two rotations character by character from depth k is the lexicographic order on the rotations' suffixes from k |
| Rotations.LexAntisymmetric | CircularSuffixArray.java:1-3 | two rotations that are each at most the other are equal |
| Rotations.RotationPred | BurrowsWheeler.java:53-59 | the rotation starting one position earlier is the preceding character followed by the first n-1 characters of the rotation |
| BurrowsWheeler.Transform | BurrowsWheeler.java:46-61 | fails with IllegalArgument exactly when the text is empty; otherwise returns `(first, t)` where, for some circular suffix array of s, row first holds the text and t is the last column |
| BurrowsWheeler.EmitLastColumn | BurrowsWheeler.java:53-59 | the two emission loops and the `s[n-1]` written at row first produce exactly the last column of the sorted rotations |
| BurrowsWheeler.LastCharacter | BurrowsWheeler.java:53-59 | entry i of the last column is `s[n-1]` when `sa[i] == 0` and `s[sa[i]-1]` otherwise |
| BurrowsWheeler.LastColumnUnique | BurrowsWheeler.java:46-61 | every circular suffix array of a text gives the same last column, so the column does not depend on how the sort orders ties |
| BurrowsWheeler.RunTransform | BurrowsWheeler.java:53-59 | a text that repeats one character is its own last column |
| BurrowsWheeler.Count | BurrowsWheeler.java:119-128 | for every byte value c, `count[c]` is the number of entries of bwt below c, which is c's first slot in sorted order; `count[256]` stays 0 |
| BurrowsWheeler.Next | BurrowsWheeler.java:138-146 | the array the counting loop fills is exactly the stable order of bwt's positions |
| BurrowsWheeler.CountsStep | BurrowsWheeler.java:141-143 | `count[c]` read at position index is that position's rank, and `count[c]++` keeps the counts invariant |
| BurrowsWheeler.PlacedStep | BurrowsWheeler.java:141-143 | writing index at slot `count[c]` keeps the filled slots exactly the ranks of the positions seen so far |
| Counting.StableOrderSorts | BurrowsWheeler.java:130-146 | the stable order is a permutation of 0..n-1 sorted by value, with equal values in position order |
| Counting.StableOrderInvertsRank | BurrowsWheeler.java:138-146 | the stable order holds k at slot p exactly when p is the rank of position k |
| Counting.RankOrder | BurrowsWheeler.java:141-143 | position i's rank is below position j's exactly when `bwt[i] < bwt[j]`, or they are equal and `i < j` |
| Counting.RankInBlock | BurrowsWheeler.java:119-143 | a position's rank lies in its value's block: at least `count[c]` and below `count[c+1]` |
| Counting.RankOnto | BurrowsWheeler.java:138-146 | every slot 0..n-1 is some position's rank |
| Counting.CountBelowBounds | BurrowsWheeler.java:123-126 | no entry is below 0 and all n entries are below 256 |
| BurrowsWheeler.InverseTransform | BurrowsWheeler.java:95-109 | for a non-empty column with first outside `[0, n)` fails with IndexOutOfBounds; otherwise emits the n characters `bwt[next[index]]` while following `index = next[index]` from first |
| BurrowsWheeler.RowsFollowNext | BurrowsWheeler.java:72-93 | every sorted row p is the last-column character at `next[p]` followed by row `next[p]` without its last character, where `next` is the stable order of the last column |
| BurrowsWheeler.FirstColumnSorted | BurrowsWheeler.java:84-90 | the first column of the sorted rotations is the last column in stable sorted order: row p starts with `t[next[p]]` |
| BurrowsWheeler.WalkReadsRow | BurrowsWheeler.java:102-107 | when each row is its last character followed by the row next points to, the walk from row i reads row i |
| BurrowsWheeler.ShiftedSorted | BurrowsWheeler.java:72-93 | the rows obtained by rotating each sorted row right by one, listed in the stable order of the last column, are again sorted |
| BurrowsWheeler.SortedUnique | BurrowsWheeler.java:84-90 | two sorted lists of rows with the same rows are equal |
| BurrowsWheeler.InverseRecovers | BurrowsWheeler.java:72-109 | inverting the last column of any circular suffix array of s, from the row holding s, gives s |
| BurrowsWheeler.BwtRoundTrip | BurrowsWheeler.java:46-109 | for every transform `(first, t)` of a byte text s, t is bytes, first is in range and the inverse gives s back |
| BurrowsWheeler.TransformOfA | BurrowsWheeler.java:150-152 | the transform of "a" is exactly first 0 and column [0x61] |
| BurrowsWheeler.InverseOfA | BurrowsWheeler.java:160-161 | inverting {0, 0x61} gives "a" |
| Pipeline.ComposedRoundTrip | BurrowsWheeler.java:46-109 | the transform, move-to-front encoding, decoding and the inverse transform, run in turn, give back every non-empty byte text; an empty text fails with IllegalArgument at the transform |
| MoveToFront.InitializeSymbols | MoveToFront.java:64-70 | the alphabet holds `symbols[i] == i` for every i in 0..255 |
| MoveToFront.Scan | MoveToFront.java:53-56 | the scan stops at the first position holding the symbol |
| MoveToFront.IndexOf | MoveToFront.java:53-56 | the position found holds the symbol, is in range, and no earlier position holds it |
| MoveToFront.Promote | MoveToFront.java:58-59 | the arraycopy and the front write turn the alphabet into its update for that position |
| MoveToFront.Promoted | MoveToFront.java:58-59 | the update keeps the alphabet's size and its multiset of symbols, so a permutation of 0..255 stays one |
| MoveToFront.PromotedEntries | MoveToFront.java:58-59 | the update puts the symbol first, moves each entry k < p to k+1, and leaves the entries after p unchanged |
| MoveToFront.Encoding | MoveToFront.java:51-57 | encoding from a permutation alphabet emits exactly one code per input byte, each in 0..255 |
| MoveToFront.Encode | MoveToFront.java:48-62 | the codes emitted are the encoding of the input from the identity alphabet |
| MoveToFront.EncodeProgress | MoveToFront.java:51-59 | one pass of the encode loop keeps its invariant: the codes so far followed by the codes of the rest, from the current alphabet, are the codes of the whole input |
| MoveToFront.Decode | MoveToFront.java:76-87 | the symbols emitted are the decoding of the input from the identity alphabet |
| MoveToFront.DecodingBytes | MoveToFront.java:80-82 | decoding from a permutation alphabet emits only bytes |
| MoveToFront.DecodeEncode | MoveToFront.java:48-87 | decoding the codes of s from the same alphabet gives s back |
| MoveToFront.EncodeDecode | MoveToFront.java:48-87 | every byte sequence of codes is the encoding of its own decoding |
| MoveToFront.IndexOfDistinct | MoveToFront.java:53-56 | in a permutation alphabet, the symbol at p is found at p |
| MoveToFront.AbracadabraEncodes | MoveToFront.java:90-94 | "ABRACADABRA!" encodes to 41 42 52 02 44 01 45 01 04 04 02 26 |
| MoveToFront.AbracadabraDecodes | MoveToFront.java:94-95 | those codes decode to "ABRACADABRA!" |

## Left out

- Standard input and output go through `BinaryStdIn` and `BinaryStdOut` from a library outside these files. The model takes the input as a sequence and returns the output as a sequence. The end-of-input test `isEmpty()` becomes the end of that sequence.
- The 32-bit big-endian header that `transform` writes for `first` is not serialised. `Transform` returns `first` as a number next to the column.
- The `main` argument dispatch and the printing in `test`, `transformTest`, `inverseTransformTest`, `encodeTest` and `decodeTest` are left out. Their inputs and expected outputs appear as the golden lemmas `TransformOfA`, `InverseOfA`, `AbracadabraEncodes` and `AbracadabraDecodes`.
- `SuffixArray.CircularSuffixArray.Sort`, `SuffixArray.CircularSuffixArray.Partition`: Java's 32-bit `int` arithmetic is not modelled, and integers are unbounded. The sort computes `(sa[i] + offset) % length` (CircularSuffixArray.java:46, 51, 61), and that sum can reach 2n-2. It overflows once n > 2^30; Java then indexes with a negative number and throws, while the model sorts normally.
- `BurrowsWheeler.Transform` does not say which of several equal rows `first` is. For a periodic text, several rows hold the text itself, and the sort's order among equal rotations is not specified, so the contract only promises a row that holds the text for some circular suffix array. The last column is the same for all of them (`LastColumnUnique`).
- Running-time and memory claims (n log n, n + R, n·R) are not modelled.
- Java `char` values are 16-bit. The model restricts every text, column and code to bytes 0..255, as the 257-entry count table and the 256-symbol alphabet assume.
- The depth the sort's recursion can reach (up to n on periodic text) is not bounded; only termination is proved.
- `SuffixArray.CircularSuffixArray.Partition`, `SuffixArray.CircularSuffixArray.SkipGreater`, `MoveToFront.Scan`, `MoveToFront.Promote` and `BurrowsWheeler.EmitLastColumn` are the partition loop, the inner `hi--` loop, the position scan, the arraycopy-and-front update and the emission loops. Each is written as its own method, so its invariant stands on its own.
- The overlapping `System.arraycopy` of `symbols[0..p)` to `symbols[1..p]` is modelled as one simultaneous assignment in `Promote`, which is how `System.arraycopy` treats overlapping ranges (as if through a temporary copy).
- `MoveToFront.AbracadabraEncodes`, `MoveToFront.AbracadabraDecodes`: the identity alphabet is a parameter, required to equal the identity on 256 symbols.
