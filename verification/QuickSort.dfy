/** `QuickSort` and `__QuickSort` of quick_sort.h. */
module QuickSorts {
  import opened Ordering

  /** Nothing in `[lo, hi)` is greater than `x`. */
  ghost predicate AllUpTo<K>(s: seq<K>, lo: nat, hi: nat, x: K, less: (K, K) -> bool) {
    forall i :: lo <= i < hi && i < |s| ==> !less(x, s[i])
  }

  /** Nothing in `[lo, hi)` is less than `x`. */
  ghost predicate AllFrom<K>(s: seq<K>, lo: nat, hi: nat, x: K, less: (K, K) -> bool) {
    forall i :: lo <= i < hi && i < |s| ==> !less(s[i], x)
  }

  /** The pivot has been taken out and has left a hole: with the pivot put back there the range is what it was, and
      what lies before `first` and behind `last` is on its side of the pivot. */
  ghost predicate Holed<K>(was: seq<K>, s: seq<K>, lo: nat, hi: nat, first: nat, last: nat, hole: nat, pivot: K,
                           less: (K, K) -> bool)
  {
    && lo <= first <= last < hi <= |was| == |s|
    && first <= hole <= last
    && Rearranged(was, s[hole := pivot], lo, hi)
    && AllUpTo(s, lo, first, pivot, less)
    && AllFrom(s, last + 1, hi, pivot, less)
  }

  lemma RearrangedTwice<K>(s: seq<K>, t: seq<K>, u: seq<K>, lo: nat, hi: nat)
    requires lo <= hi <= |s| && Rearranged(s, t, lo, hi) && Rearranged(t, u, lo, hi)
    ensures Rearranged(s, u, lo, hi)
  {
  }

  /** Moving an element across the gap moves the hole to where it was. */
  lemma HoleMoves<K>(was: seq<K>, s: seq<K>, lo: nat, hi: nat, hole: nat, from: nat, pivot: K)
    requires lo <= hole < hi <= |was| == |s| && lo <= from < hi && hole != from
    requires Rearranged(was, s[hole := pivot], lo, hi)
    ensures Rearranged(was, s[hole := s[from]][from := pivot], lo, hi)
  {
    SwapRearranges(s[hole := pivot], lo, hi, hole, from);
    assert Swapped(s[hole := pivot], hole, from) == s[hole := s[from]][from := pivot];
    RearrangedTwice(was, s[hole := pivot], s[hole := s[from]][from := pivot], lo, hi);
  }

  /** The first half of a turn: the last element that does not belong behind fills the hole in front. */
  method FillFront<K(!new)>(a: array<K>, ghost was: seq<K>, ghost lo: nat, ghost hi: nat, first: nat, last: nat,
                     pivot: K,
                            less: (K, K) -> bool) returns (f: nat, l: nat)
    requires StrictWeak(less) && first < last && Holed(was, a[..], lo, hi, first, last, first, pivot, less)
    modifies a
    ensures Holed(was, a[..], lo, hi, f, l, l, pivot, less)
    ensures first <= f && l <= last && (first < f || f == l)
  {
    f, l := first, last;
    while less(pivot, a[l]) && f < l
      invariant f == first && Holed(was, a[..], lo, hi, f, l, f, pivot, less) && l <= last
    {
      l := l - 1;
    }
    if f < l {
      HoleMoves(was, a[..], lo, hi, f, l, pivot);
      a[f] := a[l];
      f := f + 1;
    }
  }

  /** The second half of a turn: the first element that does not belong in front fills the hole behind. */
  method FillBack<K(!new)>(a: array<K>, ghost was: seq<K>, ghost lo: nat, ghost hi: nat, first: nat, last: nat,
                    pivot: K,
                           less: (K, K) -> bool) returns (f: nat, l: nat)
    requires StrictWeak(less) && Holed(was, a[..], lo, hi, first, last, last, pivot, less)
    modifies a
    ensures Holed(was, a[..], lo, hi, f, l, f, pivot, less)
    ensures first <= f && l <= last
  {
    f, l := first, last;
    while less(a[f], pivot) && f < l
      invariant l == last && Holed(was, a[..], lo, hi, f, l, l, pivot, less) && first <= f
      decreases l - f
    {
      f := f + 1;
    }
    if f < l {
      HoleMoves(was, a[..], lo, hi, l, f, pivot);
      a[l] := a[f];
      l := l - 1;
    }
  }

  method Partition<K(!new)>(a: array<K>, lo: nat, hi: nat, less: (K, K) -> bool) returns (p: nat)
    requires StrictWeak(less) && lo < hi <= a.Length
    modifies a
    ensures lo <= p < hi && Rearranged(old(a[..]), a[..], lo, hi)
    ensures AllUpTo(a[..], lo, p, a[p], less) && AllFrom(a[..], p + 1, hi, a[p], less)
  {
    var pivot := a[lo];
    var first: nat, last: nat := lo, hi - 1;
    assert a[..][lo := pivot] == a[..];
    while first < last
      invariant Holed(old(a[..]), a[..], lo, hi, first, last, first, pivot, less)
      decreases last - first
    {
      first, last := FillFront(a, old(a[..]), lo, hi, first, last, pivot, less);
      first, last := FillBack(a, old(a[..]), lo, hi, first, last, pivot, less);
    }
    a[first] := pivot;
    p := first;
  }

  /** Bounds on a range hold after the range is rearranged. */
  lemma BoundsKept<K>(s: seq<K>, t: seq<K>, lo: nat, hi: nat, x: K, less: (K, K) -> bool)
    requires lo <= hi <= |s| && Rearranged(s, t, lo, hi)
    ensures AllUpTo(s, lo, hi, x, less) ==> AllUpTo(t, lo, hi, x, less)
    ensures AllFrom(s, lo, hi, x, less) ==> AllFrom(t, lo, hi, x, less)
  {
    forall i: nat | lo <= i < hi ensures exists j: nat :: lo <= j < hi && s[j] == t[i] {
      var j := RearrangedMember(s, t, lo, hi, i);
    }
  }

  /** Two ordered ranges on their sides of the pivot between them are one ordered range. */
  lemma JoinSorted<K(!new)>(s: seq<K>, lo: nat, p: nat, hi: nat, less: (K, K) -> bool)
    requires StrictWeak(less) && lo <= p < hi <= |s|
    requires Sorted(s[lo..p], less) && Sorted(s[p + 1..hi], less)
    requires AllUpTo(s, lo, p, s[p], less) && AllFrom(s, p + 1, hi, s[p], less)
    ensures Sorted(s[lo..hi], less)
  {
    var t := s[lo..hi];
    forall i, j | 0 <= i < j < |t| ensures !less(t[j], t[i]) {
      if lo + j < p {
        assert t[i] == s[lo..p][i] && t[j] == s[lo..p][j];
      } else if lo + i > p {
        assert t[i] == s[p + 1..hi][lo + i - p - 1] && t[j] == s[p + 1..hi][lo + j - p - 1];
      } else {
        assert !less(s[p], t[i]) && !less(t[j], s[p]);
      }
    }
  }

  method SortRange<K(!new)>(a: array<K>, lo: nat, hi: nat, less: (K, K) -> bool)
    requires StrictWeak(less) && lo <= hi <= a.Length
    modifies a
    ensures Sorted(a[lo..hi], less) && Rearranged(old(a[..]), a[..], lo, hi)
    decreases hi - lo
  {
    if hi - lo <= 1 { return; }
    var p := Partition(a, lo, hi, less);
    ghost var parted := a[..];
    SortRange(a, lo, p, less);
    ghost var half := a[..];
    SortRange(a, p + 1, hi, less);
    BothSorted(old(a[..]), parted, half, a[..], lo, p, hi, less);
    assert a[..][lo..hi] == a[lo..hi];
    assert half[lo..p] == a[..][lo..p];
  }

  lemma BothSorted<K(!new)>(was: seq<K>, parted: seq<K>, half: seq<K>, s: seq<K>, lo: nat, p: nat, hi: nat,
                            less: (K, K) -> bool)
    requires StrictWeak(less) && lo <= p < hi <= |was|
    requires Rearranged(was, parted, lo, hi) && Rearranged(parted, half, lo, p) && Rearranged(half, s, p + 1, hi)
    requires AllUpTo(parted, lo, p, parted[p], less) && AllFrom(parted, p + 1, hi, parted[p], less)
    requires Sorted(half[lo..p], less) && Sorted(s[p + 1..hi], less)
    ensures Sorted(s[lo..hi], less) && Rearranged(was, s, lo, hi)
  {
    RearrangedWithin(parted, half, lo, p, lo, hi);
    RearrangedWithin(half, s, p + 1, hi, lo, hi);
    RearrangedTwice(was, parted, half, lo, hi);
    RearrangedTwice(was, half, s, lo, hi);
    OtherSideKept(parted, half, s, lo, p, hi);
    BoundsKept(parted, half, lo, p, parted[p], less);
    BoundsKept(half, s, p + 1, hi, parted[p], less);
    JoinSorted(s, lo, p, hi, less);
  }

  /** Sorting one side leaves the pivot and the other side alone. */
  lemma OtherSideKept<K>(parted: seq<K>, half: seq<K>, s: seq<K>, lo: nat, p: nat, hi: nat)
    requires lo <= p < hi <= |parted| && Rearranged(parted, half, lo, p) && Rearranged(half, s, p + 1, hi)
    ensures forall i :: p <= i < |parted| ==> half[i] == parted[i]
    ensures s[lo..p] == half[lo..p] && forall i :: lo <= i <= p ==> s[i] == half[i]
  {
    assert forall i :: p <= i < |parted| ==> half[i] == half[p..][i - p] && parted[i] == parted[p..][i - p];
    assert forall i :: lo <= i <= p ==> s[i] == s[..p + 1][i] && half[i] == half[..p + 1][i];
  }

  method QuickSort<K(!new)>(a: array<K>, less: (K, K) -> bool)
    requires StrictWeak(less) && a.Length > 0
    modifies a
    ensures Sorted(a[..], less) && multiset(a[..]) == multiset(old(a[..]))
  {
    SortRange(a, 0, a.Length, less);
    assert a[0..a.Length] == a[..];
    RearrangedAll(old(a[..]), a[..]);
  }
}
