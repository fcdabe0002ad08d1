/**
 * Shared vocabulary: the error outcomes of the Java code, byte values, and
 * permutations of 0..n-1 (stated with multisets) together with the facts about
 * them that the suffix array and the Burrows-Wheeler inverse rely on.
 */
module Common {

  /** The exceptions the modelled code can raise. */
  datatype Error =
    | IllegalArgument   // IllegalArgumentException
    | IndexOutOfBounds  // ArrayIndexOutOfBoundsException

  datatype Result<T> = Success(value: T) | Failure(error: Error)

  /** A reference that may be null. */
  datatype Option<T> = None | Some(value: T)

  predicate IsByte(x: int) { 0 <= x < 256 }

  predicate AllBytes(s: seq<int>) { forall i :: 0 <= i < |s| ==> IsByte(s[i]) }

  /** The sequence 0, 1, ..., n-1. */
  function Identity(n: nat): (r: seq<int>)
    ensures |r| == n
    ensures forall i :: 0 <= i < n ==> r[i] == i
  {
    seq(n, i => i)
  }

  /** p holds each of 0..n-1 exactly once. */
  ghost predicate IsPermutation(p: seq<int>, n: nat) {
    multiset(p) == multiset(Identity(n))
  }

  lemma {:induction false} IdentityCount(n: nat, x: int)
    ensures multiset(Identity(n))[x] == if 0 <= x < n then 1 else 0
  {
    if n > 0 {
      assert Identity(n) == Identity(n - 1) + [n - 1];
      IdentityCount(n - 1, x);
    }
  }

  lemma PermutationLength(p: seq<int>, n: nat)
    requires IsPermutation(p, n)
    ensures |p| == n
  {
    assert |multiset(p)| == |p|;
    assert |multiset(Identity(n))| == n;
  }

  /** Every entry of a permutation of 0..n-1 lies in 0..n-1. */
  lemma PermutationRange(p: seq<int>, n: nat)
    requires IsPermutation(p, n)
    ensures forall k :: 0 <= k < |p| ==> 0 <= p[k] < n
  {
    forall k | 0 <= k < |p| ensures 0 <= p[k] < n {
      assert p[k] in multiset(p);
      IdentityCount(n, p[k]);
    }
  }

  /** Every value 0..n-1 occurs in a permutation of 0..n-1. */
  lemma PermutationHas(p: seq<int>, n: nat, v: int)
    requires IsPermutation(p, n)
    requires 0 <= v < n
    ensures v in p
  {
    IdentityCount(n, v);
    assert v in multiset(p);
  }

  /** No value occurs twice in a permutation. */
  lemma PermutationDistinct(p: seq<int>, n: nat, i: int, j: int)
    requires IsPermutation(p, n)
    requires 0 <= i < j < |p|
    ensures p[i] != p[j]
  {
    if p[i] == p[j] {
      var x := p[i];
      assert p == p[..i] + [x] + p[i + 1..j] + [x] + p[j + 1..];
      assert multiset(p)[x] >= 2;
      IdentityCount(n, x);
      assert false;
    }
  }

  /** A sequence without repeated entries holds each of its values exactly once. */
  lemma {:induction false} DistinctCount(p: seq<int>, v: int)
    requires forall i, j :: 0 <= i < j < |p| ==> p[i] != p[j]
    ensures multiset(p)[v] == if v in p then 1 else 0
    decreases |p|
  {
    if p != [] {
      assert p == [p[0]] + p[1..];
      DistinctCount(p[1..], v);
      if p[0] == v {
        assert v !in p[1..];
      }
    }
  }

  /**
   * A sequence without repeated entries whose entries are exactly 0..n-1 is
   * a permutation of 0..n-1.
   */
  lemma DistinctPermutation(p: seq<int>, n: nat)
    requires forall i, j :: 0 <= i < j < |p| ==> p[i] != p[j]
    requires forall i :: 0 <= i < |p| ==> 0 <= p[i] < n
    requires forall v :: 0 <= v < n ==> v in p
    ensures IsPermutation(p, n)
  {
    forall v ensures multiset(p)[v] == multiset(Identity(n))[v] {
      DistinctCount(p, v);
      IdentityCount(n, v);
    }
  }

  /** Removing the element at k removes exactly one copy of it. */
  lemma RemoveAt(q: seq<int>, k: int)
    requires 0 <= k < |q|
    ensures multiset(q[..k] + q[k + 1..]) == multiset(q) - multiset{q[k]}
  {
    assert q == q[..k] + [q[k]] + q[k + 1..];
  }

  /** Finds p[0] in q; the rest of p is a rearrangement of q without that entry. */
  lemma MatchHead(p: seq<int>, q: seq<int>) returns (k: int)
    requires multiset(p) == multiset(q) && |p| > 0
    ensures 0 <= k < |q| && q[k] == p[0]
    ensures multiset(p[1..]) == multiset(q[..k] + q[k + 1..])
  {
    assert p == [p[0]] + p[1..];
    assert p[0] in multiset(q);
    k :| 0 <= k < |q| && q[k] == p[0];
    RemoveAt(q, k);
  }
}
