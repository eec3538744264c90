/**
 * The position tracker of keysort: a sequence that maps each current
 * position to the original index of the element that sits there.
 */
module Permutation {

  /** The identity arrangement of n positions: position p holds original index p. */
  function Range(n: nat): (r: seq<int>)
    ensures |r| == n
    ensures forall k :: 0 <= k < n ==> r[k] == k
  {
    seq(n, k => k)
  }

  /** Every entry of xs is a valid position or index below n. */
  predicate InRange(xs: seq<int>, n: int)
  {
    forall k :: 0 <= k < |xs| ==> 0 <= xs[k] < n
  }

  /** No value occurs twice in s. */
  predicate Distinct(s: seq<int>)
  {
    forall a, b :: 0 <= a < b < |s| ==> s[a] != s[b]
  }

  /** s holds each of 0, 1, ..., n-1 exactly once. */
  ghost predicate IsPermutation(s: seq<int>, n: nat)
  {
    multiset(s) == multiset(Range(n))
  }

  /** s with the entries at i and j exchanged. */
  function Swapped<X>(s: seq<X>, i: int, j: int): (r: seq<X>)
    requires 0 <= i < |s| && 0 <= j < |s|
    ensures |r| == |s| && r[i] == s[j] && r[j] == s[i]
    ensures forall k :: 0 <= k < |s| && k != i && k != j ==> r[k] == s[k]
    ensures multiset(r) == multiset(s)
  {
    s[i := s[j]][j := s[i]]
  }

  /** The original indices found at the positions ps of the arrangement perm. */
  function Originals(perm: seq<int>, ps: seq<int>): (r: seq<int>)
    requires InRange(ps, |perm|)
    ensures |r| == |ps|
    ensures forall k :: 0 <= k < |ps| ==> r[k] == perm[ps[k]]
  {
    seq(|ps|, k requires 0 <= k < |ps| => perm[ps[k]])
  }

  /** Each value below n occurs once in the identity arrangement, others never. */
  lemma {:induction false} RangeMultiplicity(n: nat, x: int)
    ensures multiset(Range(n))[x] == if 0 <= x < n then 1 else 0
  {
    if n > 0 {
      assert Range(n) == Range(n - 1) + [n - 1];
      RangeMultiplicity(n - 1, x);
    }
  }

  /** The identity arrangement is a permutation. */
  lemma RangeIsPermutation(n: nat)
    ensures IsPermutation(Range(n), n)
  {
  }

  /**
   * A permutation of [0, n) is a bijection from positions onto [0, n):
   * it has n entries, every entry is below n, no two positions share an
   * entry, and every index below n sits at some position.
   */
  lemma PermutationIsBijection(s: seq<int>, n: nat)
    requires IsPermutation(s, n)
    ensures |s| == n
    ensures InRange(s, n)
    ensures Distinct(s)
    ensures forall x :: 0 <= x < n ==> x in s
  {
    assert |s| == |multiset(s)| == |multiset(Range(n))| == n;
    forall p | 0 <= p < |s|
      ensures 0 <= s[p] < n
    {
      assert s[p] in multiset(s);
      RangeMultiplicity(n, s[p]);
    }
    forall a, b | 0 <= a < b < |s|
      ensures s[a] != s[b]
    {
      var v := s[a];
      assert s == s[..a] + [v] + s[a + 1..b] + [s[b]] + s[b + 1..];
      assert multiset(s)[v] >= 1 + (if s[b] == v then 1 else 0);
      RangeMultiplicity(n, v);
    }
    forall x | 0 <= x < n
      ensures x in s
    {
      RangeMultiplicity(n, x);
      assert x in multiset(s);
    }
  }

  /** Exchanging two entries keeps a permutation a permutation. */
  lemma SwapKeepsPermutation(s: seq<int>, n: nat, i: int, j: int)
    requires IsPermutation(s, n)
    requires 0 <= i < |s| && 0 <= j < |s|
    ensures IsPermutation(Swapped(s, i, j), n)
  {
    var t := s[i := s[j]];
    assert multiset(t) == multiset(s) - multiset{s[i]} + multiset{s[j]};
    assert multiset(t[j := s[i]]) == multiset(t) - multiset{t[j]} + multiset{s[i]};
  }

  /** A set of indices below n has at most n members. */
  lemma {:induction false} BoundedSetSize(s: set<int>, n: int)
    requires forall x :: x in s ==> 0 <= x < n
    ensures |s| <= if n < 0 then 0 else n
  {
    if n > 0 {
      BoundedSetSize(s - {n - 1}, n - 1);
    } else {
      assert forall x :: x !in s;
      assert s == {};
    }
  }

  /** A sequence without repetitions has as many distinct values as entries. */
  lemma {:induction false} DistinctSize(s: seq<int>)
    requires Distinct(s)
    ensures |set x | x in s| == |s|
  {
    if s != [] {
      var init := s[..|s| - 1];
      var last := s[|s| - 1];
      assert s == init + [last];
      assert Distinct(init) by {
        forall a, b | 0 <= a < b < |init|
          ensures init[a] != init[b]
        {
          assert init[a] == s[a] && init[b] == s[b];
        }
      }
      DistinctSize(init);
      assert last !in init by {
        forall k | 0 <= k < |init|
          ensures init[k] != last
        {
          assert init[k] == s[k];
        }
      }
      assert (set x | x in s) == (set x | x in init) + {last};
    }
  }
}
