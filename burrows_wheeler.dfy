/**
 * The Burrows-Wheeler transform and its inverse (BurrowsWheeler.java),
 * with the input string and the output bytes passed as values instead of
 * read from and written to the standard streams.
 */
module BurrowsWheeler {
  import opened Common
  import opened Rotations
  import opened SuffixArray
  import opened Counting

  /** The output of the transform: the row of the text among the sorted rotations, and the last column. */
  datatype Transformed = Transformed(first: int, last: seq<int>)

  /** The last character of each rotation, in the order sa lists them. */
  function LastColumn(s: seq<int>, sa: seq<int>): (t: seq<int>)
    requires |s| > 0
    ensures |t| == |sa|
  {
    seq(|sa|, i requires 0 <= i < |sa| => CharAt(s, sa[i], |s| - 1))
  }

  /**
   * (first, t) is a Burrows-Wheeler transform of the non-empty text s: for
   * some circular suffix array of s, the text itself is row first and t is
   * the last column.
   */
  ghost predicate IsBwt(s: seq<int>, first: int, t: seq<int>) {
    |s| > 0 &&
    exists sa :: IsCircularSuffixArray(s, sa) && |sa| == |s| && 0 <= first < |s| && sa[first] == 0 && t == LastColumn(s, sa)
  }

  /**
   * The k characters the inverse emits starting from row index: each step
   * emits bwt[next[index]] and moves to row next[index].
   */
  function Walk(bwt: seq<int>, next: seq<int>, index: int, k: nat): (r: seq<int>)
    requires |next| == |bwt| && forall p :: 0 <= p < |next| ==> 0 <= next[p] < |bwt|
    requires k > 0 ==> 0 <= index < |next|
    ensures |r| == k
    decreases k
  {
    if k == 0 then [] else [bwt[next[index]]] + Walk(bwt, next, next[index], k - 1)
  }

  /** What the inverse transform emits for (first, bwt). */
  function Inverse(first: int, bwt: seq<int>): (r: seq<int>)
    requires AllBytes(bwt) && (|bwt| == 0 || 0 <= first < |bwt|)
    ensures |r| == |bwt|
  {
    Walk(bwt, StableOrder(bwt), first, |bwt|)
  }

  /**
   * The transform: sorts the rotations of s, finds the row holding s
   * itself, and emits the last column. An empty text has no row 0, so the
   * search for it fails.
   */
  method Transform(s: seq<int>) returns (r: Result<Transformed>)
    ensures r.Failure? <==> |s| == 0
    ensures r.Failure? ==> r.error == IllegalArgument
    ensures r.Success? ==> IsBwt(s, r.value.first, r.value.last)
  {
    var suffixArray := new CircularSuffixArray(s);
    var first := 0;
    var row := suffixArray.Index(first);
    while row.Success? && row.value != 0
      invariant 0 <= first <= |s|
      invariant row == suffixArray.Index(first)
      invariant forall k :: 0 <= k < first ==> suffixArray.sa[k] != 0
      decreases |s| - first
    {
      first := first + 1;
      row := suffixArray.Index(first);
    }
    if row.Failure? {
      if |s| > 0 {
        PermutationHas(suffixArray.sa[..], |s|, 0);
        assert false;
      }
      return Failure(row.error);
    }
    var last := EmitLastColumn(suffixArray, first);
    return Success(Transformed(first, last));
  }

  /**
   * The emission loop of transform(): the character before each sorted
   * rotation's start, the text's last character for the row that starts at 0.
   */
  method EmitLastColumn(suffixArray: CircularSuffixArray, first: int) returns (last: seq<int>)
    requires suffixArray.Valid()
    requires 0 <= first < suffixArray.length && suffixArray.sa[first] == 0
    ensures last == LastColumn(suffixArray.text, suffixArray.sa[..])
  {
    var s := suffixArray.text;
    var sa := suffixArray.sa[..];
    var n := |s|;
    ghost var column := LastColumn(s, sa);
    last := [];
    for i := 0 to first
      modifies {}
      invariant |last| == i && forall k :: 0 <= k < i ==> last[k] == column[k]
    {
      var x := suffixArray.Index(i).value;
      PermutationDistinct(sa, n, i, first);
      LastCharacter(s, sa, i);
      last := last + [s[x - 1]];
    }
    LastCharacter(s, sa, first);
    last := last + [s[n - 1]];
    for i := first + 1 to n
      modifies {}
      invariant |last| == i && forall k :: 0 <= k < i ==> last[k] == column[k]
    {
      var x := suffixArray.Index(i).value;
      PermutationDistinct(sa, n, first, i);
      LastCharacter(s, sa, i);
      last := last + [s[x - 1]];
    }
    assert |last| == |column|;
  }

  /** The last character of the rotation at row i is the one before its start, cyclically. */
  lemma LastCharacter(s: seq<int>, sa: seq<int>, i: int)
    requires |s| > 0 && 0 <= i < |sa| && 0 <= sa[i] < |s|
    ensures LastColumn(s, sa)[i] == if sa[i] == 0 then s[|s| - 1] else s[sa[i] - 1]
  {
    PredIndex(sa[i], |s|);
  }

  /**
   * count(): for each character c, the number of characters of bwt below c,
   * which is where the block of c starts in the sorted column.
   */
  method Count(bwt: seq<int>) returns (count: array<int>)
    requires AllBytes(bwt)
    ensures fresh(count) && count.Length == RADIX + 1
    ensures forall c :: 0 <= c < RADIX ==> count[c] == CountBelow(bwt, c)
    ensures count[RADIX] == 0
  {
    count := new int[RADIX + 1](_ => 0);
    for i := 0 to |bwt|
      invariant forall c :: 0 <= c <= RADIX ==> count[c] == multiset(bwt[..i])[c]
    {
      count[bwt[i]] := count[bwt[i]] + 1;
      PrefixStep(bwt, i);
    }
    assert bwt[..|bwt|] == bwt;
    CountBelowBounds(bwt);
    CountBelowNext(bwt, RADIX - 1);
    NoneOutside(bwt, RADIX);
    count[RADIX - 1] := |bwt| - count[RADIX - 1];
    var i := RADIX - 2;
    while i >= 0
      invariant -1 <= i <= RADIX - 2
      invariant forall c :: i < c < RADIX ==> count[c] == CountBelow(bwt, c)
      invariant forall c :: 0 <= c <= i ==> count[c] == multiset(bwt)[c]
      invariant count[RADIX] == 0
    {
      CountBelowNext(bwt, i);
      count[i] := count[i + 1] - count[i];
      i := i - 1;
    }
  }

  /**
   * next(): the counting sort of bwt that records positions instead of
   * characters; position index lands in the slot of its rank.
   */
  method Next(bwt: seq<int>) returns (next: array<int>)
    requires AllBytes(bwt)
    ensures next[..] == StableOrder(bwt)
  {
    next := new int[|bwt|];
    var count := Count(bwt);
    for index := 0 to |bwt|
      invariant CountsAt(bwt, count[..], index)
      invariant Placed(bwt, next[..], index)
    {
      var c := bwt[index];
      ghost var counts, slots := count[..], next[..];
      CountsStep(bwt, counts, index);
      PlacedStep(bwt, slots, index);
      next[count[c]] := index;
      count[c] := count[c] + 1;
      assert count[..] == counts[c := counts[c] + 1];
      assert next[..] == slots[Rank(bwt, index) := index];
    }
    PlacedIsStableOrder(bwt, next[..]);
  }

  /**
   * The counts after the first index positions of bwt are placed: each
   * character's next free slot.
   */
  ghost predicate CountsAt(bwt: seq<int>, counts: seq<int>, index: int)
    requires 0 <= index <= |bwt|
  {
    |counts| == RADIX + 1 &&
    forall c :: 0 <= c < RADIX ==> counts[c] == CountBelow(bwt, c) + multiset(bwt[..index])[c]
  }

  /** Every position before index sits in the slot of its rank. */
  ghost predicate Placed(bwt: seq<int>, slots: seq<int>, index: int)
    requires 0 <= index <= |bwt|
  {
    forall k :: 0 <= k < index ==> Rank(bwt, k) < |slots| && slots[Rank(bwt, k)] == k
  }

  /** Once every position is placed, the slots list the positions in stable sorted order. */
  lemma PlacedIsStableOrder(bwt: seq<int>, slots: seq<int>)
    requires AllBytes(bwt) && |slots| == |bwt| && Placed(bwt, slots, |bwt|)
    ensures slots == StableOrder(bwt)
  {
    forall p | 0 <= p < |bwt| ensures slots[p] == StableOrder(bwt)[p] {
      var k := RankOnto(bwt, p);
      StableOrderInvertsRank(bwt, p, k);
    }
  }

  /** Placing position index takes the count of its character, which is its rank. */
  lemma CountsStep(bwt: seq<int>, counts: seq<int>, index: int)
    requires AllBytes(bwt) && 0 <= index < |bwt| && CountsAt(bwt, counts, index)
    ensures counts[bwt[index]] == Rank(bwt, index)
    ensures CountsAt(bwt, counts[bwt[index] := counts[bwt[index]] + 1], index + 1)
  {
    PrefixStep(bwt, index);
  }

  /** Writing position index to the slot of its rank keeps every earlier placement. */
  lemma PlacedStep(bwt: seq<int>, slots: seq<int>, index: int)
    requires AllBytes(bwt) && 0 <= index < |bwt| && |slots| == |bwt| && Placed(bwt, slots, index)
    ensures 0 <= Rank(bwt, index) < |bwt|
    ensures Placed(bwt, slots[Rank(bwt, index) := index], index + 1)
  {
    NextSlot(bwt, index);
  }

  /** Extending a prefix by one entry adds one copy of that entry. */
  lemma PrefixStep(s: seq<int>, i: int)
    requires 0 <= i < |s|
    ensures multiset(s[..i + 1]) == multiset(s[..i]) + multiset{s[i]}
  {
    assert s[..i + 1] == s[..i] + [s[i]];
  }

  /** The slot position index is written to is in range and no earlier position took it. */
  lemma NextSlot(bwt: seq<int>, index: int)
    requires AllBytes(bwt) && 0 <= index < |bwt|
    ensures 0 <= Rank(bwt, index) < |bwt|
    ensures forall k :: 0 <= k < index ==> Rank(bwt, k) != Rank(bwt, index)
  {
    RankInBlock(bwt, index);
    CountBelowMonotone(bwt, bwt[index] + 1, RADIX);
    CountBelowBounds(bwt);
    forall k | 0 <= k < index ensures Rank(bwt, k) != Rank(bwt, index) {
      RankOrder(bwt, k, index);
      RankOrder(bwt, index, k);
    }
  }

  /**
   * The inverse transform: follows next from row first, emitting one
   * character per row. A first outside the rows of a non-empty input
   * indexes next out of bounds.
   */
  method InverseTransform(first: int, bwt: seq<int>) returns (r: Result<seq<int>>)
    requires AllBytes(bwt)
    ensures r.Failure? <==> |bwt| > 0 && !(0 <= first < |bwt|)
    ensures r.Failure? ==> r.error == IndexOutOfBounds
    ensures r.Success? ==> r.value == Inverse(first, bwt)
  {
    var length := |bwt|;
    var next := Next(bwt);
    var index := first;
    var output := [];
    for counter := 0 to length
      invariant counter == 0 ==> index == first && output == []
      invariant counter > 0 ==> 0 <= first < length && 0 <= index < length
      invariant counter > 0 ==> output + Walk(bwt, next[..], index, length - counter) == Inverse(first, bwt)
    {
      if !(0 <= index < length) {
        return Failure(IndexOutOfBounds);
      }
      var letter := bwt[next[index]];
      output := output + [letter];
      index := next[index];
    }
    return Success(output);
  }

  /** Rearranging the start positions rearranges the rows. */
  lemma {:induction false} RowsPerm(s: seq<int>, p: seq<int>, q: seq<int>)
    requires multiset(p) == multiset(q)
    ensures multiset(Rows(s, p)) == multiset(Rows(s, q))
    decreases |p|
  {
    if |p| == 0 {
      assert |q| == |multiset(q)| == 0;
    } else {
      var k := MatchHead(p, q);
      var q' := q[..k] + q[k + 1..];
      RowsPerm(s, p[1..], q');
      assert Rows(s, p) == [Rotation(s, p[0])] + Rows(s, p[1..]);
      assert Rows(s, q) == Rows(s, q[..k]) + [Rotation(s, q[k])] + Rows(s, q[k + 1..]);
      assert Rows(s, q') == Rows(s, q[..k]) + Rows(s, q[k + 1..]);
    }
  }

  /** Two sorted lists of the same rows are the same list. */
  lemma {:induction false} SortedUnique(x: seq<seq<int>>, y: seq<seq<int>>)
    requires SortedRows(x) && SortedRows(y) && multiset(x) == multiset(y)
    ensures x == y
    decreases |x|
  {
    assert |x| == |multiset(x)| == |y|;
    if |x| > 0 {
      SortedHeads(x, y);
      assert x == [x[0]] + x[1..] && y == [y[0]] + y[1..];
      assert multiset(x[1..]) == multiset(x) - multiset{x[0]};
      assert multiset(y[1..]) == multiset(y) - multiset{y[0]};
      SortedTail(x);
      SortedTail(y);
      SortedUnique(x[1..], y[1..]);
    }
  }

  lemma SortedTail(x: seq<seq<int>>)
    requires SortedRows(x) && |x| > 0
    ensures SortedRows(x[1..])
  {
    forall i, j | 0 <= i < j < |x| - 1 ensures RowsInOrder(x[1..], i, j) {
      assert RowsInOrder(x, i + 1, j + 1);
    }
  }

  /** Two sorted lists of the same rows start with the same row. */
  lemma SortedHeads(x: seq<seq<int>>, y: seq<seq<int>>)
    requires SortedRows(x) && SortedRows(y) && multiset(x) == multiset(y) && |x| > 0 && |y| > 0
    ensures x[0] == y[0]
  {
    assert x[0] in multiset(y) && y[0] in multiset(x);
    var k :| 0 <= k < |y| && y[k] == x[0];
    var m :| 0 <= m < |x| && x[m] == y[0];
    LexReflexive(x[0]);
    LexReflexive(y[0]);
    assert k == 0 || RowsInOrder(y, 0, k);
    assert m == 0 || RowsInOrder(x, 0, m);
    LexAntisymmetric(x[0], y[0]);
  }

  /**
   * The rotations one position earlier than the rows next lists: row i of
   * this list starts at the predecessor of sa[next[i]].
   */
  function Shifted(s: seq<int>, sa: seq<int>, next: seq<int>): (p: seq<int>)
    requires |s| > 0 && |next| == |sa| && forall i :: 0 <= i < |next| ==> 0 <= next[i] < |sa|
    ensures |p| == |next|
  {
    seq(|next|, i requires 0 <= i < |next| => (sa[next[i]] + |s| - 1) % |s|)
  }

  /** Shifting each start position of a permutation back by one keeps it a permutation. */
  lemma ShiftedPermutation(s: seq<int>, sa: seq<int>, next: seq<int>)
    requires |s| > 0 && IsPermutation(sa, |s|) && IsPermutation(next, |s|)
    requires |next| == |sa| && forall i :: 0 <= i < |next| ==> 0 <= next[i] < |sa|
    ensures IsPermutation(Shifted(s, sa, next), |s|)
  {
    var n := |s|;
    var p := Shifted(s, sa, next);
    PermutationLength(sa, n);
    PermutationRange(sa, n);
    forall i | 0 <= i < n ensures p[i] == if sa[next[i]] == 0 then n - 1 else sa[next[i]] - 1 {
      PredIndex(sa[next[i]], n);
    }
    forall i, j | 0 <= i < j < |p| ensures p[i] != p[j] {
      PermutationDistinct(next, n, i, j);
      if next[i] < next[j] {
        PermutationDistinct(sa, n, next[i], next[j]);
      } else {
        PermutationDistinct(sa, n, next[j], next[i]);
      }
    }
    forall v | 0 <= v < n ensures v in p {
      var a := if v == n - 1 then 0 else v + 1;
      PermutationHas(sa, n, a);
      var q :| 0 <= q < |sa| && sa[q] == a;
      PermutationHas(next, n, q);
      var i :| 0 <= i < |next| && next[i] == q;
      assert p[i] == v;
    }
    DistinctPermutation(p, n);
  }

  /** The predecessor rotation of a row is its last character followed by the row without it. */
  lemma ShiftedRow(s: seq<int>, sa: seq<int>, next: seq<int>, i: int)
    requires |s| > 0 && IsPermutation(sa, |s|)
    requires |next| == |sa| && forall i :: 0 <= i < |next| ==> 0 <= next[i] < |sa|
    requires 0 <= i < |next|
    ensures Rows(s, Shifted(s, sa, next))[i] == [LastColumn(s, sa)[next[i]]] + Rows(s, sa)[next[i]][..|s| - 1]
  {
    PermutationRange(sa, |s|);
    RotationPred(s, sa[next[i]]);
  }

  /** A leading character decides the order, and equal ones defer to the rest. */
  lemma LexCons(c: int, u: seq<int>, d: int, v: seq<int>)
    requires c < d || (c == d && LexLeq(u, v))
    ensures LexLeq([c] + u, [d] + v)
  {
    assert ([c] + u)[1..] == u && ([d] + v)[1..] == v;
  }

  /**
   * Sorting the rows by their last character, stably, lists the predecessor
   * rotations in sorted order.
   */
  lemma ShiftedSorted(s: seq<int>, sa: seq<int>, next: seq<int>)
    requires |s| > 0 && IsCircularSuffixArray(s, sa)
    requires IsStableSort(LastColumn(s, sa), next)
    ensures SortedRows(Rows(s, Shifted(s, sa, next)))
  {
    var y := Rows(s, Shifted(s, sa, next));
    forall i, j | 0 <= i < j < |y| ensures RowsInOrder(y, i, j) {
      ShiftedPair(s, sa, next, i, j);
    }
  }

  /** Two predecessor rows in stable last-column order are in lexicographic order. */
  lemma ShiftedPair(s: seq<int>, sa: seq<int>, next: seq<int>, i: int, j: int)
    requires |s| > 0 && IsCircularSuffixArray(s, sa)
    requires IsStableSort(LastColumn(s, sa), next)
    requires 0 <= i < j < |next|
    ensures LexLeq(Rows(s, Shifted(s, sa, next))[i], Rows(s, Shifted(s, sa, next))[j])
  {
    var n, t, x := |s|, LastColumn(s, sa), Rows(s, sa);
    PermutationLength(sa, n);
    var a, b := next[i], next[j];
    ShiftedRow(s, sa, next, i);
    ShiftedRow(s, sa, next, j);
    if t[a] == t[b] {
      assert a < b;
      assert RowsInOrder(x, a, b);
      LexPrefix(x[a], x[b], n - 1);
    }
    LexCons(t[a], x[a][..n - 1], t[b], x[b][..n - 1]);
  }

  /**
   * When every row is its last character followed by the row next points to,
   * walking from row i reads row i.
   */
  lemma {:induction false} WalkReadsRow(t: seq<int>, next: seq<int>, x: seq<seq<int>>, n: nat, i: int, k: nat)
    requires |t| == |next| == |x| && forall p :: 0 <= p < |next| ==> 0 <= next[p] < |t|
    requires n > 0 && forall p :: 0 <= p < |x| ==> |x[p]| == n
    requires forall p :: 0 <= p < |x| ==> x[p] == [t[next[p]]] + x[next[p]][..n - 1]
    requires 0 <= i < |x| && 0 < k <= n
    ensures Walk(t, next, i, k) == x[i][..k]
    decreases k
  {
    if k > 1 {
      WalkReadsRow(t, next, x, n, next[i], k - 1);
    }
    assert x[i][..k] == [t[next[i]]] + x[next[i]][..k - 1];
  }

  /**
   * Each sorted row is its last character's stable-order successor: row p
   * starts with t[next[p]] and continues with row next[p] without its last
   * character, where t is the last column and next its stable order.
   */
  lemma RowsFollowNext(s: seq<int>, sa: seq<int>)
    requires AllBytes(s) && |s| > 0 && IsCircularSuffixArray(s, sa) && |sa| == |s|
    ensures AllBytes(LastColumn(s, sa))
    ensures forall p :: 0 <= p < |s| ==>
      Rows(s, sa)[p] == [LastColumn(s, sa)[StableOrder(LastColumn(s, sa))[p]]] + Rows(s, sa)[StableOrder(LastColumn(s, sa))[p]][..|s| - 1]
  {
    var n, t := |s|, LastColumn(s, sa);
    assert AllBytes(t);
    var next := StableOrder(t);
    StableOrderSorts(t);
    var x, y := Rows(s, sa), Rows(s, Shifted(s, sa, next));
    ShiftedPermutation(s, sa, next);
    RowsPerm(s, sa, Shifted(s, sa, next));
    ShiftedSorted(s, sa, next);
    assert SortedRows(x);
    SortedUnique(x, y);
    forall p | 0 <= p < n ensures x[p] == [t[next[p]]] + x[next[p]][..n - 1] {
      ShiftedRow(s, sa, next, p);
    }
  }

  /**
   * The first column of the sorted rotations is the last column sorted
   * stably: row p starts with t[next[p]], which is what the inverse reads.
   */
  lemma FirstColumnSorted(s: seq<int>, sa: seq<int>)
    requires AllBytes(s) && |s| > 0 && IsCircularSuffixArray(s, sa) && |sa| == |s|
    ensures AllBytes(LastColumn(s, sa))
    ensures forall p :: 0 <= p < |s| ==> Rows(s, sa)[p][0] == LastColumn(s, sa)[StableOrder(LastColumn(s, sa))[p]]
  {
    RowsFollowNext(s, sa);
  }

  /** The inverse transform recovers the text from the last column of any circular suffix array. */
  lemma InverseRecovers(s: seq<int>, sa: seq<int>, first: int)
    requires AllBytes(s) && |s| > 0 && IsCircularSuffixArray(s, sa) && |sa| == |s|
    requires 0 <= first < |s| && sa[first] == 0
    ensures AllBytes(LastColumn(s, sa))
    ensures Inverse(first, LastColumn(s, sa)) == s
  {
    var n, t := |s|, LastColumn(s, sa);
    RowsFollowNext(s, sa);
    var next := StableOrder(t);
    WalkReadsRow(t, next, Rows(s, sa), n, first, n);
    RotationZero(s);
  }

  /** Round trip: the inverse transform undoes the transform. */
  lemma BwtRoundTrip(s: seq<int>, first: int, t: seq<int>)
    requires AllBytes(s) && IsBwt(s, first, t)
    ensures AllBytes(t) && 0 <= first < |t|
    ensures Inverse(first, t) == s
  {
    var sa :| IsCircularSuffixArray(s, sa) && |sa| == |s| && 0 <= first < |s| && sa[first] == 0 && t == LastColumn(s, sa);
    InverseRecovers(s, sa, first);
  }

  /**
   * The last column does not depend on how equal rotations were ordered:
   * every transform of s has the same one.
   */
  lemma LastColumnUnique(s: seq<int>, first1: int, t1: seq<int>, first2: int, t2: seq<int>)
    requires IsBwt(s, first1, t1) && IsBwt(s, first2, t2)
    ensures t1 == t2
  {
    var n := |s|;
    var sa1 :| IsCircularSuffixArray(s, sa1) && |sa1| == n && 0 <= first1 < n && sa1[first1] == 0 && t1 == LastColumn(s, sa1);
    var sa2 :| IsCircularSuffixArray(s, sa2) && |sa2| == n && 0 <= first2 < n && sa2[first2] == 0 && t2 == LastColumn(s, sa2);
    var x1, x2 := Rows(s, sa1), Rows(s, sa2);
    RowsPerm(s, sa1, sa2);
    assert SortedRows(x1) && SortedRows(x2);
    SortedUnique(x1, x2);
    forall i | 0 <= i < n ensures t1[i] == t2[i] {
      LastOfRow(s, sa1, i);
      LastOfRow(s, sa2, i);
    }
  }

  lemma LastOfRow(s: seq<int>, sa: seq<int>, i: int)
    requires |s| > 0 && 0 <= i < |sa|
    ensures LastColumn(s, sa)[i] == Rows(s, sa)[i][|s| - 1]
  {
  }

  /** A text made of one repeated character is its own last column, whichever row first is. */
  lemma RunTransform(s: seq<int>, first: int, t: seq<int>)
    requires IsBwt(s, first, t)
    requires forall i :: 0 <= i < |s| ==> s[i] == s[0]
    ensures t == s
  {
    var sa :| IsCircularSuffixArray(s, sa) && |sa| == |s| && 0 <= first < |s| && sa[first] == 0 && t == LastColumn(s, sa);
    forall i | 0 <= i < |t|
      ensures t[i] == s[i]
    {
      assert t[i] == CharAt(s, sa[i], |s| - 1);
    }
  }

  /** The transform of the one-character text "a" is row 0 and the last column "a". */
  lemma TransformOfA(first: int, t: seq<int>)
    ensures IsBwt([0x61], first, t) <==> first == 0 && t == [0x61]
  {
    var s := [0x61];
    if first == 0 && t == [0x61] {
      var sa := [0];
      assert Identity(1) == [0];
      assert IsCircularSuffixArray(s, sa);
      assert t == LastColumn(s, sa);
    }
    if IsBwt(s, first, t) {
      var sa :| IsCircularSuffixArray(s, sa) && |sa| == 1 && 0 <= first < 1 && sa[first] == 0 && t == LastColumn(s, sa);
      assert t[0] == CharAt(s, sa[0], 0);
    }
  }

  /** The inverse transform of the test message {0, 0x61}, row 0 and the last column "a", is "a". */
  lemma InverseOfA()
    ensures Inverse(0, [0x61]) == [0x61]
  {
    TransformOfA(0, [0x61]);
    BwtRoundTrip([0x61], 0, [0x61]);
  }
}
