/**
 * Cyclic rotations of a text and the order in which a circular suffix array
 * lists them: lexicographic comparison of the n characters of each rotation,
 * wrapping around the end of the text.
 */
module Rotations {
  import opened Common

  /** The character at depth k of the rotation that starts at position a. */
  function CharAt(s: seq<int>, a: int, k: int): int
    requires |s| > 0
  {
    s[(a + k) % |s|]
  }

  /** The rotation of s that starts at position a, as a sequence of |s| characters. */
  function Rotation(s: seq<int>, a: int): (r: seq<int>)
    ensures |r| == |s|
    ensures forall k :: 0 <= k < |s| ==> r[k] == CharAt(s, a, k)
  {
    seq(|s|, k requires 0 <= k < |s| => CharAt(s, a, k))
  }

  /** Lexicographic order on sequences; a prefix comes before its extensions. */
  predicate LexLeq(x: seq<int>, y: seq<int>)
    decreases |x|
  {
    x == [] || (y != [] && (x[0] < y[0] || (x[0] == y[0] && LexLeq(x[1..], y[1..]))))
  }

  /**
   * The comparison the suffix sort makes: rotation a is at most rotation b
   * when compared from depth k to depth n-1 (character (a + k) mod n first).
   */
  predicate RotationLeqFrom(s: seq<int>, a: int, b: int, k: nat)
    decreases |s| - k
  {
    k >= |s| ||
    CharAt(s, a, k) < CharAt(s, b, k) ||
    (CharAt(s, a, k) == CharAt(s, b, k) && RotationLeqFrom(s, a, b, k + 1))
  }

  /**
   * sa lists every rotation of s exactly once, in non-decreasing
   * lexicographic order of the rotations.
   */
  ghost predicate IsCircularSuffixArray(s: seq<int>, sa: seq<int>) {
    IsPermutation(sa, |s|) && SortedRows(Rows(s, sa))
  }

  /** The rotations of s that start at the positions p lists, in that order. */
  function Rows(s: seq<int>, p: seq<int>): (x: seq<seq<int>>)
    ensures |x| == |p|
  {
    seq(|p|, i requires 0 <= i < |p| => Rotation(s, p[i]))
  }

  /** Every two rows of x, in order, are in lexicographic order. */
  ghost predicate SortedRows(x: seq<seq<int>>) {
    forall i, j :: 0 <= i < j < |x| ==> RowsInOrder(x, i, j)
  }

  /** Rows i and j of x are in lexicographic order. */
  predicate RowsInOrder(x: seq<seq<int>>, i: int, j: int)
    requires 0 <= i < |x| && 0 <= j < |x|
  {
    LexLeq(x[i], x[j])
  }


  lemma {:induction false} LexReflexive(x: seq<int>)
    ensures LexLeq(x, x)
    decreases |x|
  {
    if x != [] {
      LexReflexive(x[1..]);
    }
  }

  lemma {:induction false} LexAntisymmetric(x: seq<int>, y: seq<int>)
    requires LexLeq(x, y) && LexLeq(y, x)
    ensures x == y
    decreases |x|
  {
    if x != [] {
      LexAntisymmetric(x[1..], y[1..]);
      assert x == [x[0]] + x[1..] && y == [y[0]] + y[1..];
    }
  }

  /** Cutting two equally long ordered sequences at the same length keeps them ordered. */
  lemma {:induction false} LexPrefix(x: seq<int>, y: seq<int>, m: nat)
    requires |x| == |y| && m <= |x|
    requires LexLeq(x, y)
    ensures LexLeq(x[..m], y[..m])
    decreases m
  {
    if m > 0 && x[0] == y[0] {
      LexPrefix(x[1..], y[1..], m - 1);
      assert x[..m][1..] == x[1..][..m - 1];
      assert y[..m][1..] == y[1..][..m - 1];
    }
  }

  /** The depth-by-depth comparison of the suffix sort is lexicographic order of the rotations' tails. */
  lemma {:induction false} LeqFromIsLex(s: seq<int>, a: int, b: int, k: nat)
    requires k <= |s|
    ensures RotationLeqFrom(s, a, b, k) == LexLeq(Rotation(s, a)[k..], Rotation(s, b)[k..])
    decreases |s| - k
  {
    if k < |s| {
      LeqFromIsLex(s, a, b, k + 1);
      assert Rotation(s, a)[k..][1..] == Rotation(s, a)[k + 1..];
      assert Rotation(s, b)[k..][1..] == Rotation(s, b)[k + 1..];
    }
  }

  /** The rotation starting at 0 is the text itself. */
  lemma RotationZero(s: seq<int>)
    ensures Rotation(s, 0) == s
  {
    forall k | 0 <= k < |s| ensures Rotation(s, 0)[k] == s[k] {
      ModBelow(k, |s|);
    }
  }

  lemma ModBelow(x: int, n: int)
    requires 0 <= x < n
    ensures x % n == x
  {
  }

  lemma ModWrap(x: int, n: int)
    requires 0 < n <= x < 2 * n
    ensures x % n == x - n
  {
  }

  /** Position a - 1, read cyclically. */
  lemma PredIndex(a: int, n: int)
    requires 0 <= a < n
    ensures (a + n - 1) % n == if a == 0 then n - 1 else a - 1
  {
    if a == 0 { ModBelow(n - 1, n); } else { ModWrap(a + n - 1, n); }
  }

  /**
   * The rotation that starts one position earlier is the preceding
   * character followed by all but the last character of this rotation.
   */
  lemma RotationPred(s: seq<int>, a: int)
    requires 0 <= a < |s|
    ensures Rotation(s, (a + |s| - 1) % |s|) == [s[(a + |s| - 1) % |s|]] + Rotation(s, a)[..|s| - 1]
  {
    var n := |s|;
    var b := (a + n - 1) % n;
    PredIndex(a, n);
    var lhs, rhs := Rotation(s, b), [s[b]] + Rotation(s, a)[..n - 1];
    assert lhs[0] == rhs[0] by {
      ModBelow(b, n);
    }
    forall k | 1 <= k < n ensures lhs[k] == rhs[k] {
      assert rhs[k] == CharAt(s, a, k - 1);
      if a == 0 {
        ModWrap(b + k, n);
        ModBelow(k - 1, n);
      } else {
        assert b + k == a + (k - 1);
      }
    }
  }
}
