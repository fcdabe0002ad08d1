/**
 * The circular suffix array of a text, built in place with a three-way
 * string quicksort over the cyclic rotations (CircularSuffixArray.java).
 */
module SuffixArray {
  import opened Common
  import opened Rotations

  class CircularSuffixArray {
    /** The input text, one character per entry. */
    const text: seq<int>
    const length: nat
    /** sa[i] is the start of the i-th smallest rotation once construction is done. */
    var sa: array<int>

    ghost predicate Valid()
      reads this, sa
    {
      length == |text| == sa.Length && IsPermutation(sa[..], length)
    }

    /**
     * Starts from the identity permutation and sorts it; an empty text is
     * left unsorted, which is already its (empty) suffix array.
     */
    constructor (text: seq<int>)
      ensures Valid() && fresh(sa)
      ensures this.text == text
      ensures IsCircularSuffixArray(text, sa[..])
    {
      this.text := text;
      length := |text|;
      var identity := new int[|text|];
      for i := 0 to |text|
        invariant forall k :: 0 <= k < i ==> identity[k] == k
      {
        identity[i] := i;
      }
      sa := identity;
      new;
      assert sa[..] == Identity(length);
      if length != 0 {
        ghost var unsorted := sa[..];
        Sort(0, length - 1, 0);
        assert sa[..][0..length] == sa[..] && unsorted[0..length] == unsorted;
      }
      forall i, j | 0 <= i < j < sa.Length
        ensures RowsInOrder(Rows(text, sa[..]), i, j)
      {
        assert InOrder(text, sa[..], i, j, 0);
        LeqFromIsLex(text, sa[i], sa[j], 0);
        assert Rotation(text, sa[i])[0..] == Rotation(text, sa[i]);
        assert Rotation(text, sa[j])[0..] == Rotation(text, sa[j]);
      }
    }

    /** The text is absent (null): the constructor refuses it. */
    static method Construct(text: Option<seq<int>>) returns (r: Result<CircularSuffixArray>)
      ensures r.Failure? <==> text.None?
      ensures r.Failure? ==> r.error == IllegalArgument
      ensures r.Success? ==> fresh(r.value) && r.value.Valid() && r.value.text == text.value
      ensures r.Success? ==> IsCircularSuffixArray(text.value, r.value.sa[..])
    {
      if text.None? {
        return Failure(IllegalArgument);
      }
      var suffixes := new CircularSuffixArray(text.value);
      return Success(suffixes);
    }

    /** Swaps two entries of sa. */
    method Exchange(i: int, j: int)
      requires 0 <= i < sa.Length && 0 <= j < sa.Length
      modifies sa
      ensures sa[..] == Swapped(old(sa[..]), i, j)
    {
      var buffer := sa[i];
      sa[i] := sa[j];
      sa[j] := buffer;
    }

    /**
     * The partitioning loop of sort: rearranges sa[start..end] into the
     * entries whose character at depth offset is below, equal to and above
     * that of sa[start] (the pivot), returning the bounds of the middle band.
     */
    method Partition(start: int, end: int, offset: nat) returns (lo: int, hi: int)
      requires length == |text| == sa.Length
      requires 0 <= start < end < length && offset < length
      modifies sa
      ensures start <= lo <= hi <= end
      ensures Partitioned(text, old(sa[..]), sa[..], start, lo, hi, end, offset)
    {
      ghost var initial := sa[..];
      var pivot := text[(sa[start] + offset) % length];
      assert pivot == Key(text, initial, start, offset);
      lo, hi := start, end;
      var pointer := start;
      while pointer <= hi
        invariant Bands(text, initial, sa[..], start, lo, pointer, hi, end, offset, pivot)
        decreases hi + 1 - pointer
      {
        ghost var current_sa := sa[..];
        var current := text[(sa[pointer] + offset) % length];
        assert current == Key(text, current_sa, pointer, offset);
        if current == pivot {
          pointer := pointer + 1;
        } else if current < pivot {
          Exchange(lo, pointer);
          BandsLess(text, initial, current_sa, sa[..], start, lo, pointer, hi, end, offset, pivot);
          pointer := pointer + 1;
          lo := lo + 1;
        } else {
          var h := SkipGreater(pointer, hi, offset, pivot);
          Exchange(pointer, h);
          BandsGreater(text, initial, current_sa, sa[..], start, lo, pointer, h, hi, end, offset, pivot);
          hi := h - 1;
        }
      }
      BandsDone(text, initial, sa[..], start, lo, pointer, hi, end, offset, pivot);
    }

    /**
     * The inner loop of the partition: moves hi left past the entries whose
     * character at depth offset exceeds the pivot, stopping at pointer.
     */
    method SkipGreater(pointer: int, hi: int, offset: nat, pivot: int) returns (h: int)
      requires length == |text| == sa.Length && 0 <= pointer <= hi < length
      ensures pointer <= h <= hi
      ensures forall k :: h < k <= hi ==> Key(text, sa[..], k, offset) > pivot
      ensures h == pointer || Key(text, sa[..], h, offset) <= pivot
    {
      h := hi;
      while h > pointer && text[(sa[h] + offset) % length] > pivot
        invariant pointer <= h <= hi
        invariant forall k :: h < k <= hi ==> Key(text, sa[..], k, offset) > pivot
        decreases h
      {
        h := h - 1;
      }
    }

    /**
     * Sorts sa[start..end] by the rotations' characters from depth offset on:
     * the range ends up a rearrangement of what it held, in order, and
     * nothing outside it changes.
     */
    method Sort(start: int, end: int, offset: nat)
      requires Valid()
      requires 0 <= start <= end + 1 <= length
      modifies sa
      ensures Valid()
      ensures SortedRange(text, old(sa[..]), sa[..], start, end, offset)
      decreases end + 1 - start, length - offset
    {
      if end - start < 1 || offset >= length {
        SortedAlready(text, sa[..], start, end, offset);
        return;
      }
      ghost var s0 := sa[..];
      var lo, hi := Partition(start, end, offset);
      ghost var s1 := sa[..];
      Sort(start, lo - 1, offset);
      ghost var s2 := sa[..];
      Sort(lo, hi, offset + 1);
      ghost var s3 := sa[..];
      Sort(hi + 1, end, offset);
      SortCombine(text, s0, s1, s2, s3, sa[..], start, lo, hi, end, offset);
    }

    /** The number of characters of the text. */
    function Length(): (n: nat)
      reads this, sa
      requires Valid()
      ensures n == |text| && n == sa.Length
    {
      length
    }

    /** The start of the i-th sorted rotation; an out-of-range row is refused. */
    function Index(i: int): (r: Result<int>)
      reads this, sa
      requires Valid()
      ensures r.Success? <==> 0 <= i < length
      ensures r.Failure? ==> r.error == IllegalArgument
      ensures r.Success? ==> r.value == sa[i] && 0 <= r.value < length
    {
      if 0 <= i < length then
        PermutationRange(sa[..], length);
        Success(sa[i])
      else
        Failure(IllegalArgument)
    }
  }

  /** The multiset of a splits along two cut points. */
  lemma SplitMultiset(a: seq<int>, lo: int, hi: int)
    requires 0 <= lo <= hi <= |a|
    ensures multiset(a) == multiset(a[..lo]) + multiset(a[lo..hi]) + multiset(a[hi..])
  {
    assert a == a[..lo] + a[lo..hi] + a[hi..];
  }

  /**
   * When a and b are rearrangements of each other and agree outside
   * [lo..hi), their slices [lo..hi) are rearrangements of each other.
   */
  lemma RangePermutation(a: seq<int>, b: seq<int>, lo: int, hi: int)
    requires 0 <= lo <= hi <= |a| && SameOutside(a, b, lo, hi - 1)
    requires multiset(a) == multiset(b)
    ensures multiset(a[lo..hi]) == multiset(b[lo..hi])
  {
    SplitMultiset(a, lo, hi);
    SplitMultiset(b, lo, hi);
    assert a[..lo] == b[..lo] && a[hi..] == b[hi..];
    forall x ensures multiset(a[lo..hi])[x] == multiset(b[lo..hi])[x] {
      assert multiset(a)[x] == multiset(b)[x];
    }
  }

  /** a with the entries at i and j exchanged. */
  function Swapped(a: seq<int>, i: int, j: int): (r: seq<int>)
    requires 0 <= i < |a| && 0 <= j < |a|
    ensures |r| == |a| && multiset(r) == multiset(a)
    ensures r[i] == a[j] && r[j] == a[i]
    ensures forall k :: 0 <= k < |a| && k != i && k != j ==> r[k] == a[k]
  {
    a[i := a[j]][j := a[i]]
  }

  /** The character at depth offset of the rotation that starts at a[k]. */
  function Key(s: seq<int>, a: seq<int>, k: int, offset: nat): int
    requires |s| > 0 && 0 <= k < |a|
  {
    CharAt(s, a[k], offset)
  }

  /**
   * The state of the partition loop: a is a rearrangement of initial that
   * differs only inside [start..end]; a[start..lo) is below the pivot,
   * a[lo..pointer) equals it, a(hi..end] is above it, and a[pointer..hi]
   * is still to be examined.
   */
  ghost predicate Bands(s: seq<int>, initial: seq<int>, a: seq<int>,
                        start: int, lo: int, pointer: int, hi: int, end: int, offset: nat, pivot: int)
  {
    |s| > 0 && |a| == |initial| && 0 <= start <= lo <= pointer <= hi + 1 <= end + 1 <= |a| && start <= end &&
    (lo < pointer || (lo == start && Key(s, a, start, offset) == pivot)) &&
    (forall k :: start <= k < lo ==> Key(s, a, k, offset) < pivot) &&
    (forall k :: lo <= k < pointer ==> Key(s, a, k, offset) == pivot) &&
    (forall k :: hi < k <= end ==> Key(s, a, k, offset) > pivot) &&
    SameOutside(initial, a, start, end) &&
    multiset(a) == multiset(initial)
  }

  /** An entry below the pivot is swapped to lo and the lower band grows by one. */
  lemma BandsLess(s: seq<int>, initial: seq<int>, a: seq<int>, b: seq<int>,
                  start: int, lo: int, pointer: int, hi: int, end: int, offset: nat, pivot: int)
    requires Bands(s, initial, a, start, lo, pointer, hi, end, offset, pivot)
    requires pointer <= hi && Key(s, a, pointer, offset) < pivot
    requires b == Swapped(a, lo, pointer)
    ensures Bands(s, initial, b, start, lo + 1, pointer + 1, hi, end, offset, pivot)
  {
    forall k | start <= k < lo + 1 ensures Key(s, b, k, offset) < pivot {
      if k == lo {
        assert Key(s, b, k, offset) == Key(s, a, pointer, offset);
      } else {
        assert Key(s, b, k, offset) == Key(s, a, k, offset);
      }
    }
    forall k | lo + 1 <= k < pointer + 1 ensures Key(s, b, k, offset) == pivot {
      if k == pointer {
        assert Key(s, b, k, offset) == Key(s, a, lo, offset);
      } else {
        assert Key(s, b, k, offset) == Key(s, a, k, offset);
      }
    }
    forall k | hi < k <= end ensures Key(s, b, k, offset) > pivot {
      assert Key(s, b, k, offset) == Key(s, a, k, offset);
    }
  }

  /**
   * After skipping the entries above the pivot down to h, the entry at
   * pointer is swapped with the one at h and the upper band grows down to h.
   */
  lemma BandsGreater(s: seq<int>, initial: seq<int>, a: seq<int>, b: seq<int>,
                     start: int, lo: int, pointer: int, h: int, hi: int, end: int, offset: nat, pivot: int)
    requires Bands(s, initial, a, start, lo, pointer, hi, end, offset, pivot)
    requires pointer <= h <= hi && Key(s, a, pointer, offset) > pivot
    requires forall k :: h < k <= hi ==> Key(s, a, k, offset) > pivot
    requires h == pointer || Key(s, a, h, offset) <= pivot
    requires b == Swapped(a, pointer, h)
    ensures Bands(s, initial, b, start, lo, pointer, h - 1, end, offset, pivot)
  {
    assert lo < pointer;
    forall k | start <= k < lo ensures Key(s, b, k, offset) < pivot {
      assert Key(s, b, k, offset) == Key(s, a, k, offset);
    }
    forall k | lo <= k < pointer ensures Key(s, b, k, offset) == pivot {
      assert Key(s, b, k, offset) == Key(s, a, k, offset);
    }
    forall k | h - 1 < k <= end ensures Key(s, b, k, offset) > pivot {
      if k == h {
        assert Key(s, b, k, offset) == Key(s, a, pointer, offset);
      } else {
        assert Key(s, b, k, offset) == Key(s, a, k, offset);
      }
    }
  }

  /** When the loop stops, the three bands cover the range: the partition is done. */
  lemma BandsDone(s: seq<int>, initial: seq<int>, a: seq<int>,
                  start: int, lo: int, pointer: int, hi: int, end: int, offset: nat, pivot: int)
    requires Bands(s, initial, a, start, lo, pointer, hi, end, offset, pivot)
    requires pointer == hi + 1 && start < end && pivot == Key(s, initial, start, offset)
    ensures start <= lo <= hi <= end
    ensures Partitioned(s, initial, a, start, lo, hi, end, offset)
  {
  }

  /**
   * The partition of before[start..end] into after: the same entries, the
   * rest untouched, and three bands of characters at depth offset that are
   * below, equal to and above the pivot's (that of before[start]).
   */
  ghost predicate Partitioned(s: seq<int>, before: seq<int>, after: seq<int>,
                              start: int, lo: int, hi: int, end: int, offset: nat)
  {
    |s| > 0 && |before| == |after| && 0 <= start <= lo <= hi <= end < |after| &&
    multiset(after) == multiset(before) && SameOutside(before, after, start, end) &&
    var pivot := Key(s, before, start, offset);
    (forall k :: start <= k < lo ==> Key(s, after, k, offset) < pivot) &&
    (forall k :: lo <= k <= hi ==> Key(s, after, k, offset) == pivot) &&
    (forall k :: hi < k <= end ==> Key(s, after, k, offset) > pivot)
  }

  /**
   * after is before with after[start..end] a rearrangement of
   * before[start..end] that is sorted from depth offset; nothing else differs.
   */
  ghost predicate SortedRange(s: seq<int>, before: seq<int>, after: seq<int>, start: int, end: int, offset: nat)
  {
    |before| == |after| && 0 <= start <= end + 1 <= |after| && SameOutside(before, after, start, end) &&
    multiset(after[start..end + 1]) == multiset(before[start..end + 1]) &&
    SortedFrom(s, after[start..end + 1], offset)
  }

  /** A range of at most one entry, or compared beyond the last depth, is already sorted. */
  lemma SortedAlready(s: seq<int>, a: seq<int>, start: int, end: int, offset: nat)
    requires 0 <= start <= end + 1 <= |a|
    requires end - start < 1 || offset >= |s|
    ensures SortedRange(s, a, a, start, end, offset)
  {
  }

  /** The three recursive calls of sort, after the partition, sort the whole range. */
  lemma SortCombine(s: seq<int>, s0: seq<int>, s1: seq<int>, s2: seq<int>, s3: seq<int>, s4: seq<int>,
                    start: int, lo: int, hi: int, end: int, offset: nat)
    requires offset < |s|
    requires Partitioned(s, s0, s1, start, lo, hi, end, offset)
    requires SortedRange(s, s1, s2, start, lo - 1, offset)
    requires SortedRange(s, s2, s3, lo, hi, offset + 1)
    requires SortedRange(s, s3, s4, hi + 1, end, offset)
    ensures SortedRange(s, s0, s4, start, end, offset)
  {
    var pivot := Key(s, s0, start, offset);
    BandKeys(s, s1, start, lo, offset, pivot, -1);
    BandKeys(s, s1, lo, hi + 1, offset, pivot, 0);
    BandKeys(s, s1, hi + 1, end + 1, offset, pivot, 1);
    SortFrames(s0, s1, s2, s3, s4, start, lo, hi, end);
    CombineBands(s, s1, s4, start, lo, hi, end, offset, pivot);
  }

  /** Every two entries of xs, in order, compare as rotations from depth offset. */
  predicate SortedFrom(s: seq<int>, xs: seq<int>, offset: nat) {
    forall i, j :: 0 <= i < j < |xs| ==> InOrder(s, xs, i, j, offset)
  }

  /** Entries i and j of xs compare as rotations from depth offset. */
  predicate InOrder(s: seq<int>, xs: seq<int>, i: int, j: int, offset: nat)
    requires 0 <= i < |xs| && 0 <= j < |xs|
  {
    RotationLeqFrom(s, xs[i], xs[j], offset)
  }

  /** The sign of x - y. */
  function Compare(x: int, y: int): int {
    if x < y then -1 else if x == y then 0 else 1
  }

  /** Every entry of xs has its depth-offset character on the side sign of pivot. */
  predicate KeysCompare(s: seq<int>, xs: seq<int>, offset: nat, pivot: int, sign: int)
    requires |s| > 0
  {
    forall x :: x in xs ==> Compare(CharAt(s, x, offset), pivot) == sign
  }

  lemma BandKeys(s: seq<int>, a: seq<int>, i: int, j: int, offset: nat, pivot: int, sign: int)
    requires |s| > 0 && 0 <= i <= j <= |a|
    requires forall k :: i <= k < j ==> Compare(Key(s, a, k, offset), pivot) == sign
    ensures KeysCompare(s, a[i..j], offset, pivot, sign)
  {
    forall x | x in a[i..j] ensures Compare(CharAt(s, x, offset), pivot) == sign {
      var m :| 0 <= m < j - i && a[i..j][m] == x;
      assert a[i + m] == x;
      assert Key(s, a, i + m, offset) == CharAt(s, x, offset);
    }
  }

  /** A rearrangement of a band keeps the way its keys compare with the pivot. */
  lemma KeysOfRearranged(s: seq<int>, xs: seq<int>, ys: seq<int>, offset: nat, pivot: int, sign: int)
    requires |s| > 0 && multiset(xs) == multiset(ys)
    requires KeysCompare(s, xs, offset, pivot, sign)
    ensures KeysCompare(s, ys, offset, pivot, sign)
  {
    forall y | y in ys ensures y in xs {
      assert y in multiset(ys);
    }
  }

  /** a and b have the same length and differ at most in positions start..end. */
  ghost predicate SameOutside(a: seq<int>, b: seq<int>, start: int, end: int) {
    |a| == |b| && forall k :: 0 <= k < |a| && (k < start || end < k) ==> a[k] == b[k]
  }

  /**
   * What the three recursive calls of sort leave behind, from the states
   * after partitioning (s1) and after each call (s2, s3, s4).
   */
  lemma SortFrames(s0: seq<int>, s1: seq<int>, s2: seq<int>, s3: seq<int>, s4: seq<int>,
                   start: int, lo: int, hi: int, end: int)
    requires 0 <= start <= lo <= hi <= end < |s0|
    requires SameOutside(s0, s1, start, end) && multiset(s1) == multiset(s0)
    requires SameOutside(s1, s2, start, lo - 1) && multiset(s2[start..lo]) == multiset(s1[start..lo])
    requires SameOutside(s2, s3, lo, hi) && multiset(s3[lo..hi + 1]) == multiset(s2[lo..hi + 1])
    requires SameOutside(s3, s4, hi + 1, end) && multiset(s4[hi + 1..end + 1]) == multiset(s3[hi + 1..end + 1])
    ensures s4[start..lo] == s2[start..lo] && s4[lo..hi + 1] == s3[lo..hi + 1]
    ensures multiset(s4[start..lo]) == multiset(s1[start..lo])
    ensures multiset(s4[lo..hi + 1]) == multiset(s1[lo..hi + 1])
    ensures multiset(s4[hi + 1..end + 1]) == multiset(s1[hi + 1..end + 1])
    ensures SameOutside(s0, s4, start, end)
    ensures multiset(s4[start..end + 1]) == multiset(s0[start..end + 1])
  {
    SortSlices(s1, s2, s3, s4, start, lo, hi, end);
    ThreeBands(s4, start, lo, hi, end);
    ThreeBands(s1, start, lo, hi, end);
    RangePermutation(s0, s1, start, end + 1);
  }

  /** The multiset of a range is the union of those of its three bands. */
  lemma ThreeBands(a: seq<int>, start: int, lo: int, hi: int, end: int)
    requires 0 <= start <= lo <= hi + 1 <= end + 1 <= |a|
    ensures multiset(a[start..end + 1]) == multiset(a[start..lo]) + multiset(a[lo..hi + 1]) + multiset(a[hi + 1..end + 1])
  {
    assert a[start..end + 1] == a[start..lo] + a[lo..hi + 1] + a[hi + 1..end + 1];
  }

  /** Each recursive call of sort leaves the other two bands as they were. */
  lemma SortSlices(s1: seq<int>, s2: seq<int>, s3: seq<int>, s4: seq<int>,
                   start: int, lo: int, hi: int, end: int)
    requires 0 <= start <= lo <= hi <= end < |s1|
    requires SameOutside(s1, s2, start, lo - 1)
    requires SameOutside(s2, s3, lo, hi)
    requires SameOutside(s3, s4, hi + 1, end)
    ensures s4[start..lo] == s2[start..lo] && s4[lo..hi + 1] == s3[lo..hi + 1]
    ensures s2[lo..hi + 1] == s1[lo..hi + 1] && s3[hi + 1..end + 1] == s1[hi + 1..end + 1]
  {
  }

  /**
   * After partitioning (s1) and sorting each band (s4), the whole range is
   * sorted from depth offset: below-pivot entries come first, then the
   * equal ones (sorted from the next depth), then the greater ones.
   */
  lemma CombineBands(s: seq<int>, s1: seq<int>, s4: seq<int>, start: int, lo: int, hi: int, end: int,
                     offset: nat, pivot: int)
    requires |s| > 0 && offset < |s|
    requires |s1| == |s4| && 0 <= start <= lo <= hi <= end < |s1|
    requires KeysCompare(s, s1[start..lo], offset, pivot, -1)
    requires KeysCompare(s, s1[lo..hi + 1], offset, pivot, 0)
    requires KeysCompare(s, s1[hi + 1..end + 1], offset, pivot, 1)
    requires multiset(s4[start..lo]) == multiset(s1[start..lo])
    requires multiset(s4[lo..hi + 1]) == multiset(s1[lo..hi + 1])
    requires multiset(s4[hi + 1..end + 1]) == multiset(s1[hi + 1..end + 1])
    requires SortedFrom(s, s4[start..lo], offset)
    requires SortedFrom(s, s4[lo..hi + 1], offset + 1)
    requires SortedFrom(s, s4[hi + 1..end + 1], offset)
    ensures SortedFrom(s, s4[start..end + 1], offset)
  {
    KeysOfRearranged(s, s1[start..lo], s4[start..lo], offset, pivot, -1);
    KeysOfRearranged(s, s1[lo..hi + 1], s4[lo..hi + 1], offset, pivot, 0);
    KeysOfRearranged(s, s1[hi + 1..end + 1], s4[hi + 1..end + 1], offset, pivot, 1);
    var a := s4[start..end + 1];
    forall i, j | 0 <= i < j < |a| ensures InOrder(s, a, i, j, offset) {
      var bi := Band(i + start, lo, hi);
      var bj := Band(j + start, lo, hi);
      var ci, cj := CharAt(s, a[i], offset), CharAt(s, a[j], offset);
      assert Compare(ci, pivot) == bi by { InBand(s4, start, lo, hi, end, i + start); }
      assert Compare(cj, pivot) == bj by { InBand(s4, start, lo, hi, end, j + start); }
      if bi == bj == -1 {
        assert a[i] == s4[start..lo][i] && a[j] == s4[start..lo][j];
        assert InOrder(s, s4[start..lo], i, j, offset);
      } else if bi == bj == 0 {
        assert a[i] == s4[lo..hi + 1][i + start - lo] && a[j] == s4[lo..hi + 1][j + start - lo];
        assert InOrder(s, s4[lo..hi + 1], i + start - lo, j + start - lo, offset + 1);
      } else if bi == bj == 1 {
        assert a[i] == s4[hi + 1..end + 1][i + start - hi - 1] && a[j] == s4[hi + 1..end + 1][j + start - hi - 1];
        assert InOrder(s, s4[hi + 1..end + 1], i + start - hi - 1, j + start - hi - 1, offset);
      } else {
        assert ci < cj;
      }
    }
  }

  /** Which band a position of the range lies in: -1 below lo, 0 in lo..hi, 1 above hi. */
  function Band(k: int, lo: int, hi: int): int {
    if k < lo then -1 else if k <= hi then 0 else 1
  }

  lemma InBand(s4: seq<int>, start: int, lo: int, hi: int, end: int, k: int)
    requires 0 <= start <= lo <= hi <= end < |s4| && start <= k <= end
    ensures k < lo ==> s4[k] in s4[start..lo]
    ensures lo <= k <= hi ==> s4[k] in s4[lo..hi + 1]
    ensures hi < k ==> s4[k] in s4[hi + 1..end + 1]
  {
    if k < lo {
      assert s4[start..lo][k - start] == s4[k];
    } else if k <= hi {
      assert s4[lo..hi + 1][k - lo] == s4[k];
    } else {
      assert s4[hi + 1..end + 1][k - hi - 1] == s4[k];
    }
  }
}
