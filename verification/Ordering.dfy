/** The comparison objects the containers and sorts are parameterised by. */
module Ordering {

  /** What C++ asks of a `Compare`: a strict weak ordering. */
  ghost predicate StrictWeak<K(!new)>(less: (K, K) -> bool) {
    && (forall a :: !less(a, a))
    && (forall a, b, c :: less(a, b) && less(b, c) ==> less(a, c))
    && (forall a, b, c :: less(a, c) ==> less(a, b) || less(b, c))
  }

  /** No element is less than one before it. */
  ghost predicate Sorted<K>(s: seq<K>, less: (K, K) -> bool) {
    forall i, j :: 0 <= i < j < |s| ==> !less(s[j], s[i])
  }

  /** The elements no other comes before or after. */
  predicate Equivalent<K>(a: K, b: K, less: (K, K) -> bool) {
    !less(a, b) && !less(b, a)
  }

  /** `t` holds in `[lo, hi)` what `s` holds there, in some order, and elsewhere the same in the same place. */
  ghost predicate Rearranged<K>(s: seq<K>, t: seq<K>, lo: nat, hi: nat)
    requires lo <= hi <= |s|
  {
    && |t| == |s|
    && t[..lo] == s[..lo] && t[hi..] == s[hi..]
    && multiset(t[lo..hi]) == multiset(s[lo..hi])
  }

  lemma RearrangedAll<K>(s: seq<K>, t: seq<K>)
    requires Rearranged(s, t, 0, |s|)
    ensures multiset(s) == multiset(t)
  {
    assert s[0..|s|] == s && t[0..|s|] == t;
  }

  lemma RearrangedWithin<K>(s: seq<K>, t: seq<K>, lo: nat, hi: nat, from: nat, to: nat)
    requires from <= lo <= hi <= to <= |s| && Rearranged(s, t, lo, hi)
    ensures Rearranged(s, t, from, to)
  {
    assert s[from..to] == s[from..lo] + s[lo..hi] + s[hi..to];
    assert t[from..to] == t[from..lo] + t[lo..hi] + t[hi..to];
    assert t[from..lo] == t[..lo][from..] && t[hi..to] == t[hi..][..to - hi];
    assert s[from..lo] == s[..lo][from..] && s[hi..to] == s[hi..][..to - hi];
    assert t[..from] == t[..lo][..from] && t[to..] == t[hi..][to - hi..];
  }

  /** What holds of every element of a range holds after the range is rearranged. */
  lemma RearrangedMember<K>(s: seq<K>, t: seq<K>, lo: nat, hi: nat, i: nat) returns (j: nat)
    requires lo <= i < hi <= |s| && Rearranged(s, t, lo, hi)
    ensures lo <= j < hi && s[j] == t[i]
  {
    assert t[lo..hi][i - lo] in multiset(t[lo..hi]);
    assert t[i] in s[lo..hi];
    var k :| 0 <= k < hi - lo && s[lo..hi][k] == t[i];
    j := lo + k;
  }

  function Swapped<K>(s: seq<K>, i: nat, j: nat): seq<K>
    requires i < |s| && j < |s|
  {
    s[i := s[j]][j := s[i]]
  }

  lemma SwapRearranges<K>(s: seq<K>, lo: nat, hi: nat, i: nat, j: nat)
    requires lo <= i < hi <= |s| && lo <= j < hi
    ensures Rearranged(s, Swapped(s, i, j), lo, hi)
  {
    assert Swapped(s, i, j)[lo..hi] == Swapped(s[lo..hi], i - lo, j - lo);
  }
}
