/**
 * Key-indexed counting over 8-bit characters, the sort behind count() and
 * next() of BurrowsWheeler.java: the number of characters below each value,
 * the rank each position receives, and the stable order those ranks define.
 */
module Counting {
  import opened Common

  /** The number of distinct 8-bit characters. */
  const RADIX := 256

  /** The number of entries of s that are below c. */
  function CountBelow(s: seq<int>, c: int): (r: nat)
    ensures r <= |s|
    decreases |s|
  {
    if s == [] then 0 else CountBelow(s[..|s| - 1], c) + (if s[|s| - 1] < c then 1 else 0)
  }

  /** Splitting off the last entry of s splits its multiset. */
  lemma SnocMultiset(s: seq<int>)
    requires s != []
    ensures multiset(s) == multiset(s[..|s| - 1]) + multiset{s[|s| - 1]}
  {
    assert s == s[..|s| - 1] + [s[|s| - 1]];
  }

  /** Raising the bound from c to c + 1 adds the occurrences of c. */
  lemma {:induction false} CountBelowNext(s: seq<int>, c: int)
    ensures CountBelow(s, c + 1) == CountBelow(s, c) + multiset(s)[c]
    decreases |s|
  {
    if s != [] {
      CountBelowNext(s[..|s| - 1], c);
      SnocMultiset(s);
    }
  }

  /** No byte is below 0 and every byte is below RADIX. */
  lemma {:induction false} CountBelowBounds(s: seq<int>)
    requires AllBytes(s)
    ensures CountBelow(s, 0) == 0 && CountBelow(s, RADIX) == |s|
    decreases |s|
  {
    if s != [] {
      CountBelowBounds(s[..|s| - 1]);
    }
  }

  lemma {:induction false} CountBelowMonotone(s: seq<int>, c: int, d: int)
    requires c <= d
    ensures CountBelow(s, c) <= CountBelow(s, d)
    decreases |s|
  {
    if s != [] {
      CountBelowMonotone(s[..|s| - 1], c, d);
    }
  }

  /** A value outside 0..RADIX-1 does not occur in a sequence of bytes. */
  lemma NoneOutside(s: seq<int>, c: int)
    requires AllBytes(s) && !IsByte(c)
    ensures multiset(s)[c] == 0
  {
    assert c !in s;
  }

  /** A prefix holds at most as many copies of each value as the whole sequence. */
  lemma PrefixMultiset(s: seq<int>, i: int, j: int)
    requires 0 <= i <= j <= |s|
    ensures multiset(s[..j]) == multiset(s[..i]) + multiset(s[i..j])
  {
    assert s[..j] == s[..i] + s[i..j];
  }

  /**
   * The slot position k of s gets in the stable sorted order: the entries
   * below s[k], then the earlier entries equal to it.
   */
  function Rank(s: seq<int>, k: int): int
    requires 0 <= k < |s|
  {
    CountBelow(s, s[k]) + multiset(s[..k])[s[k]]
  }

  /** The rank of k lies inside the block of its value. */
  lemma RankInBlock(s: seq<int>, k: int)
    requires 0 <= k < |s|
    ensures CountBelow(s, s[k]) <= Rank(s, k) < CountBelow(s, s[k] + 1)
  {
    CountBelowNext(s, s[k]);
    PrefixCount(s, k);
  }

  /** The copies of s[k] before k are fewer than all copies of it. */
  lemma PrefixCount(s: seq<int>, k: int)
    requires 0 <= k < |s|
    ensures multiset(s[..k])[s[k]] < multiset(s)[s[k]]
  {
    assert s == s[..k] + [s[k]] + s[k + 1..];
  }

  /**
   * Ranks order positions by value and, among equal values, by position:
   * the order a stable sort gives them.
   */
  lemma RankOrder(s: seq<int>, i: int, j: int)
    requires AllBytes(s) && 0 <= i < |s| && 0 <= j < |s|
    ensures Rank(s, i) < Rank(s, j) <==> s[i] < s[j] || (s[i] == s[j] && i < j)
  {
    if s[i] < s[j] || (s[i] == s[j] && i < j) {
      RankBefore(s, i, j);
    } else if i != j {
      RankBefore(s, j, i);
    }
  }

  lemma RankBefore(s: seq<int>, i: int, j: int)
    requires 0 <= i < |s| && 0 <= j < |s|
    requires s[i] < s[j] || (s[i] == s[j] && i < j)
    ensures Rank(s, i) < Rank(s, j)
  {
    RankInBlock(s, i);
    RankInBlock(s, j);
    if s[i] < s[j] {
      CountBelowMonotone(s, s[i] + 1, s[j]);
    } else {
      PrefixMultiset(s, i, j);
      assert s[i] in multiset(s[i..j]) by {
        assert s[i..j][0] == s[i];
      }
    }
  }

  /** The position where the j-th copy (counting from 0) of c sits. */
  lemma {:induction false} Occurrence(s: seq<int>, c: int, j: nat) returns (k: int)
    requires j < multiset(s)[c]
    ensures 0 <= k < |s| && s[k] == c && multiset(s[..k])[c] == j
    decreases |s|
  {
    SnocMultiset(s);
    var m := |s| - 1;
    if j < multiset(s[..m])[c] {
      k := Occurrence(s[..m], c, j);
      assert s[..m][..k] == s[..k];
    } else {
      k := m;
    }
  }

  /** The value whose block holds slot p. */
  lemma {:induction false} BlockOf(s: seq<int>, p: int, c: int) returns (d: int)
    requires AllBytes(s) && 0 <= c < RADIX && CountBelow(s, c) <= p < |s|
    ensures c <= d < RADIX && CountBelow(s, d) <= p < CountBelow(s, d + 1)
    decreases RADIX - c
  {
    if p < CountBelow(s, c + 1) {
      d := c;
    } else {
      if c + 1 == RADIX {
        CountBelowBounds(s);
        assert false;
      }
      d := BlockOf(s, p, c + 1);
    }
  }

  /** Every slot is the rank of some position. */
  lemma RankOnto(s: seq<int>, p: int) returns (k: int)
    requires AllBytes(s) && 0 <= p < |s|
    ensures 0 <= k < |s| && Rank(s, k) == p
  {
    CountBelowBounds(s);
    var c := BlockOf(s, p, 0);
    CountBelowNext(s, c);
    k := Occurrence(s, c, p - CountBelow(s, c));
  }

  /** The first position from k on whose rank is p (the last position if none is). */
  function FindRank(s: seq<int>, p: int, k: nat): (r: int)
    requires k < |s|
    ensures k <= r < |s|
    decreases |s| - k
  {
    if Rank(s, k) == p || k == |s| - 1 then k else FindRank(s, p, k + 1)
  }

  lemma {:induction false} FindRankFinds(s: seq<int>, p: int, k: nat, m: int)
    requires k <= m < |s| && Rank(s, m) == p
    ensures Rank(s, FindRank(s, p, k)) == p
    decreases |s| - k
  {
    if Rank(s, k) != p && k < |s| - 1 {
      FindRankFinds(s, p, k + 1, m);
    }
  }

  /**
   * The positions of s listed in stable sorted order: entry p is the
   * position whose rank is p.
   */
  function StableOrder(s: seq<int>): (r: seq<int>)
    ensures |r| == |s|
    ensures forall p :: 0 <= p < |s| ==> 0 <= r[p] < |s|
  {
    seq(|s|, p requires 0 <= p < |s| => FindRank(s, p, 0))
  }

  /** StableOrder inverts Rank, in both directions. */
  lemma StableOrderInvertsRank(s: seq<int>, p: int, k: int)
    requires AllBytes(s) && 0 <= p < |s| && 0 <= k < |s|
    ensures StableOrder(s)[p] == k <==> Rank(s, k) == p
  {
    var m := RankOnto(s, p);
    FindRankFinds(s, p, 0, m);
    var f := StableOrder(s)[p];
    if f != k {
      RankOrder(s, f, k);
      RankOrder(s, k, f);
    }
  }

  /**
   * o lists the positions of s, each once, ordered by their values and,
   * among equal values, by position.
   */
  ghost predicate IsStableSort(s: seq<int>, o: seq<int>) {
    |o| == |s| &&
    (forall p :: 0 <= p < |o| ==> 0 <= o[p] < |s|) &&
    IsPermutation(o, |s|) &&
    forall p, q :: 0 <= p < q < |o| ==> s[o[p]] < s[o[q]] || (s[o[p]] == s[o[q]] && o[p] < o[q])
  }

  /** StableOrder is a stable sort of the positions of s. */
  lemma StableOrderSorts(s: seq<int>)
    requires AllBytes(s)
    ensures IsStableSort(s, StableOrder(s))
  {
    var o := StableOrder(s);
    forall p, q | 0 <= p < q < |o|
      ensures s[o[p]] < s[o[q]] || (s[o[p]] == s[o[q]] && o[p] < o[q])
    {
      StableOrderInvertsRank(s, p, o[p]);
      StableOrderInvertsRank(s, q, o[q]);
      RankOrder(s, o[p], o[q]);
    }
    forall p, q | 0 <= p < q < |o| ensures o[p] != o[q] {
      StableOrderInvertsRank(s, p, o[p]);
      StableOrderInvertsRank(s, q, o[q]);
    }
    forall k | 0 <= k < |s| ensures k in o {
      var p := Rank(s, k);
      RankInBlock(s, k);
      CountBelowMonotone(s, s[k] + 1, RADIX);
      CountBelowBounds(s);
      StableOrderInvertsRank(s, p, k);
    }
    DistinctPermutation(o, |s|);
  }
}
