/** `MergeSort` and `__MergeSort` of merge_sort.h. */
module MergeSorts {
  import opened Ordering

  /** Two ordered runs in one, the first going first among equivalents. */
  function Merged<K>(s: seq<K>, t: seq<K>, less: (K, K) -> bool): seq<K> {
    if s == [] then t
    else if t == [] then s
    else if less(t[0], s[0]) then [t[0]] + Merged(s, t[1..], less)
    else [s[0]] + Merged(s[1..], t, less)
  }

  function MergeSorted<K>(s: seq<K>, less: (K, K) -> bool): seq<K> {
    if |s| <= 1 then s
    else Merged(MergeSorted(s[..|s| / 2], less), MergeSorted(s[|s| / 2..], less), less)
  }

  /** The elements of a sequence equivalent to `x`, in their order. */
  function Equals<K>(s: seq<K>, x: K, less: (K, K) -> bool): seq<K> {
    if s == [] then []
    else if Equivalent(s[0], x, less) then [s[0]] + Equals(s[1..], x, less)
    else Equals(s[1..], x, less)
  }

  lemma {:induction false} EqualsAppend<K>(s: seq<K>, t: seq<K>, x: K, less: (K, K) -> bool)
    ensures Equals(s + t, x, less) == Equals(s, x, less) + Equals(t, x, less)
  {
    if s == [] {
      assert s + t == t;
    } else {
      EqualsAppend(s[1..], t, x, less);
      assert (s + t)[0] == s[0] && (s + t)[1..] == s[1..] + t;
      var rest, more := Equals(s[1..], x, less), Equals(t, x, less);
      assert [s[0]] + (rest + more) == ([s[0]] + rest) + more;
    }
  }

  lemma {:induction false} MergedKeeps<K>(s: seq<K>, t: seq<K>, less: (K, K) -> bool)
    ensures multiset(Merged(s, t, less)) == multiset(s) + multiset(t)
    ensures |Merged(s, t, less)| == |s| + |t|
  {
    if s != [] && t != [] {
      assert s == [s[0]] + s[1..] && t == [t[0]] + t[1..];
      if less(t[0], s[0]) { MergedKeeps(s, t[1..], less); } else { MergedKeeps(s[1..], t, less); }
    }
  }

  ghost predicate Floor<K>(x: K, s: seq<K>, less: (K, K) -> bool) {
    forall y :: y in multiset(s) ==> !less(y, x)
  }

  lemma SortedCons<K>(x: K, s: seq<K>, less: (K, K) -> bool)
    requires Sorted(s, less) && Floor(x, s, less)
    ensures Sorted([x] + s, less)
  {
    forall k | 0 <= k < |s| ensures s[k] in multiset(s) {}
  }

  lemma SortedTail<K(!new)>(s: seq<K>, less: (K, K) -> bool)
    requires StrictWeak(less) && Sorted(s, less) && s != []
    ensures Sorted(s[1..], less) && Floor(s[0], s[1..], less) && Floor(s[0], s, less)
  {
    assert s == [s[0]] + s[1..];
  }

  lemma {:induction false} MergedSorted<K(!new)>(s: seq<K>, t: seq<K>, less: (K, K) -> bool)
    requires StrictWeak(less) && Sorted(s, less) && Sorted(t, less)
    ensures Sorted(Merged(s, t, less), less)
  {
    if s != [] && t != [] {
      SortedTail(s, less);
      SortedTail(t, less);
      if less(t[0], s[0]) {
        MergedSorted(s, t[1..], less);
        MergedKeeps(s, t[1..], less);
        SortedCons(t[0], Merged(s, t[1..], less), less);
      } else {
        MergedSorted(s[1..], t, less);
        MergedKeeps(s[1..], t, less);
        SortedCons(s[0], Merged(s[1..], t, less), less);
      }
    }
  }

  /** With the second run ordered, nothing in it is equivalent to what comes before its least. */
  lemma {:induction false} NoEquals<K(!new)>(t: seq<K>, x: K, y: K, less: (K, K) -> bool)
    requires StrictWeak(less) && less(y, x) && forall z :: z in t ==> !less(z, x)
    ensures Equals(t, y, less) == []
  {
    if t != [] {
      assert t[0] in t;
      NoEquals(t[1..], x, y, less);
    }
  }

  lemma {:induction false} MergedStable<K(!new)>(s: seq<K>, t: seq<K>, x: K, less: (K, K) -> bool)
    requires StrictWeak(less) && Sorted(s, less) && Sorted(t, less)
    ensures Equals(Merged(s, t, less), x, less) == Equals(s, x, less) + Equals(t, x, less)
  {
    if s != [] && t != [] {
      SortedTail(s, less);
      SortedTail(t, less);
      if less(t[0], s[0]) {
        MergedStable(s, t[1..], x, less);
        var rest := Merged(s, t[1..], less);
        assert ([t[0]] + rest)[1..] == rest;
        if Equivalent(t[0], x, less) {
          forall z | z in s ensures !less(z, s[0]) { assert z in multiset(s); }
          NoEquals(s, s[0], x, less);
        }
      } else {
        MergedStable(s[1..], t, x, less);
        var rest := Merged(s[1..], t, less);
        assert ([s[0]] + rest)[1..] == rest;
      }
    }
  }

  /** The result is in order, is a permutation, and keeps equivalent elements in their order. */
  lemma {:induction false} MergeSortedIsStableSort<K(!new)>(s: seq<K>, less: (K, K) -> bool)
    requires StrictWeak(less)
    ensures Sorted(MergeSorted(s, less), less)
    ensures multiset(MergeSorted(s, less)) == multiset(s)
    ensures forall x :: Equals(MergeSorted(s, less), x, less) == Equals(s, x, less)
  {
    if |s| > 1 {
      var first, second := s[..|s| / 2], s[|s| / 2..];
      assert s == first + second;
      MergeSortedIsStableSort(first, less);
      MergeSortedIsStableSort(second, less);
      MergedSorted(MergeSorted(first, less), MergeSorted(second, less), less);
      MergedKeeps(MergeSorted(first, less), MergeSorted(second, less), less);
      forall x ensures Equals(MergeSorted(s, less), x, less) == Equals(s, x, less) {
        MergedStable(MergeSorted(first, less), MergeSorted(second, less), x, less);
        EqualsAppend(first, second, x, less);
      }
    }
  }

  /** Outside of `[lo, hi)` nothing changes. */
  ghost predicate SameOutside<K>(s: seq<K>, t: seq<K>, lo: nat, hi: nat) {
    |t| == |s| && forall k :: 0 <= k < |s| && !(lo <= k < hi) ==> t[k] == s[k]
  }

  /** What is stored, and the merge of what is left of the two runs, make up the merge of the runs. */
  ghost predicate Stored<K>(a: seq<K>, i: nat, mid: nat, j: nat, hi: nat, stored: seq<K>, whole: seq<K>,
                            less: (K, K) -> bool)
    requires i <= mid <= j <= hi <= |a|
  {
    stored + Merged(a[i..mid], a[j..hi], less) == whole
  }

  lemma StoreOne<K>(a: seq<K>, i: nat, mid: nat, j: nat, hi: nat, stored: seq<K>, whole: seq<K>, less: (K, K) -> bool)
    requires i < mid <= j < hi <= |a| && Stored(a, i, mid, j, hi, stored, whole, less)
    ensures if less(a[j], a[i]) then Stored(a, i, mid, j + 1, hi, stored + [a[j]], whole, less)
            else Stored(a, i + 1, mid, j, hi, stored + [a[i]], whole, less)
  {
    var s, t := a[i..mid], a[j..hi];
    assert s[0] == a[i] && t[0] == a[j] && s[1..] == a[i + 1..mid] && t[1..] == a[j + 1..hi];
    if less(t[0], s[0]) {
      assert stored + ([t[0]] + Merged(s, t[1..], less)) == stored + [t[0]] + Merged(s, t[1..], less);
    } else {
      assert stored + ([s[0]] + Merged(s[1..], t, less)) == stored + [s[0]] + Merged(s[1..], t, less);
    }
  }

  lemma StoreRest<K>(a: seq<K>, i: nat, mid: nat, hi: nat, stored: seq<K>, whole: seq<K>, less: (K, K) -> bool)
    requires i < mid <= hi <= |a| && Stored(a, i, mid, hi, hi, stored, whole, less)
    ensures Stored(a, i + 1, mid, hi, hi, stored + [a[i]], whole, less)
  {
    assert a[hi..hi] == [] && a[i..mid] == [a[i]] + a[i + 1..mid];
    assert stored + ([a[i]] + a[i + 1..mid]) == stored + [a[i]] + a[i + 1..mid];
  }

  /** The first `n` places from `at` of the store hold the front of `whole`, and what is left of the two runs
      of `a` will make up the rest; the store is otherwise as it was outside of its part. */
  ghost predicate Merging<K>(a: seq<K>, first: nat, mid: nat, second: nat, hi: nat, store: seq<K>, at: nat, n: nat,
                             whole: seq<K>, less: (K, K) -> bool)
  {
    && first <= mid <= second <= hi <= |a|
    && at + n + (mid - first) + (hi - second) <= |store|
    && Stored(a, first, mid, second, hi, store[at..at + n], whole, less)
  }

  method Put<K>(store: array<K>, at: nat, n: nat, ghost size: nat, x: K)
    requires n < size && at + size <= store.Length
    modifies store
    ensures store[at..at + n + 1] == old(store[at..at + n]) + [x]
    ensures SameOutside(old(store[..]), store[..], at, at + size)
  {
    store[at + n] := x;
  }

  lemma SameOutsideSlice<K>(s: seq<K>, t: seq<K>, lo: nat, hi: nat, i: nat, j: nat)
    requires SameOutside(s, t, lo, hi) && i <= j <= |s| && (j <= lo || hi <= i)
    ensures t[i..j] == s[i..j]
  {
  }

  /** Two changes in turn, each within the range. */
  lemma SameOutsideBoth<K>(s: seq<K>, t: seq<K>, u: seq<K>, lo: nat, hi: nat, lo1: nat, hi1: nat, lo2: nat, hi2: nat)
    requires SameOutside(s, t, lo1, hi1) && SameOutside(t, u, lo2, hi2)
    requires lo <= lo1 && hi1 <= hi && lo <= lo2 && hi2 <= hi
    ensures SameOutside(s, u, lo, hi)
  {
  }

  /** The first loop of `__MergeSort`: the runs are merged into the store until one of them ends. */
  method MergeRuns<K(!new)>(a: array<K>, lo: nat, mid: nat, hi: nat, store: array<K>, at: nat, ghost whole: seq<K>,
                            less: (K, K) -> bool) returns (first: nat, second: nat, n: nat)
    requires lo <= mid <= hi <= a.Length && at + (hi - lo) <= store.Length && a != store
    requires Merging(a[..], lo, mid, mid, hi, store[..], at, 0, whole, less)
    modifies store
    ensures lo <= first <= mid <= second && n == (first - lo) + (second - mid) && (first == mid || second == hi)
    ensures SameOutside(old(store[..]), store[..], at, at + (hi - lo))
    ensures Merging(a[..], first, mid, second, hi, store[..], at, n, whole, less)
  {
    first, second, n := lo, mid, 0;
    while first != mid && second != hi
      invariant lo <= first <= mid <= second && n == (first - lo) + (second - mid)
      invariant SameOutside(old(store[..]), store[..], at, at + (hi - lo))
      invariant Merging(a[..], first, mid, second, hi, store[..], at, n, whole, less)
      decreases mid - first + hi - second
    {
      first, second := StoreNext(a, first, mid, second, hi, store, at, n, hi - lo, whole, less);
      n := n + 1;
    }
  }

  method StoreNext<K(!new)>(a: array<K>, first: nat, ghost mid: nat, second: nat, ghost hi: nat, store: array<K>,
                            at: nat, n: nat, ghost size: nat, ghost whole: seq<K>, less: (K, K) -> bool)
    returns (f: nat, s: nat)
    requires Merging(a[..], first, mid, second, hi, store[..], at, n, whole, less) && a != store
    requires first < mid && second < hi && n < size && at + size <= store.Length
    modifies store
    ensures (f == first && s == second + 1) || (f == first + 1 && s == second)
    ensures SameOutside(old(store[..]), store[..], at, at + size)
    ensures Merging(a[..], f, mid, s, hi, store[..], at, n + 1, whole, less)
  {
    f, s := first, second;
    if less(a[second], a[first]) {
      StoreSecond(a, first, mid, second, hi, store, at, n, size, whole, less);
      s := second + 1;
    } else {
      StoreFirst(a, first, mid, second, hi, store, at, n, size, whole, less);
      f := first + 1;
    }
  }

  /** The second loop: what is left of the first run follows. */
  method StoreTail<K(!new)>(a: array<K>, start: nat, mid: nat, ghost second: nat, ghost hi: nat, store: array<K>,
                            at: nat, stored: nat, ghost size: nat, ghost whole: seq<K>, less: (K, K) -> bool)
    requires Merging(a[..], start, mid, second, hi, store[..], at, stored, whole, less) && a != store
    requires start == mid || second == hi
    requires stored + (mid - start) <= size && at + size <= store.Length
    modifies store
    ensures SameOutside(old(store[..]), store[..], at, at + size)
    ensures Merging(a[..], mid, mid, second, hi, store[..], at, stored + (mid - start), whole, less)
  {
    var first := start;
    while first != mid
      invariant start <= first <= mid
      invariant SameOutside(old(store[..]), store[..], at, at + size)
      invariant Merging(a[..], first, mid, second, hi, store[..], at, stored + (first - start), whole, less)
      decreases mid - first
    {
      StoreFirst(a, first, mid, second, hi, store, at, stored + (first - start), size, whole, less);
      first := first + 1;
    }
  }

  lemma MergeStarts<K>(a: seq<K>, lo: nat, mid: nat, hi: nat, store: seq<K>, at: nat, less: (K, K) -> bool)
    requires lo <= mid <= hi <= |a| && at + (hi - lo) <= |store|
    ensures Merging(a, lo, mid, mid, hi, store, at, 0, Merged(a[lo..mid], a[mid..hi], less), less)
  {
    assert store[at..at + 0] == [];
  }

  /** With the first run at its end, what is left of the second is all that is not stored. */
  lemma RunsMerged<K>(a: seq<K>, mid: nat, second: nat, hi: nat, store: seq<K>, at: nat, n: nat, whole: seq<K>,
                      less: (K, K) -> bool)
    requires Merging(a, mid, mid, second, hi, store, at, n, whole, less)
    ensures store[at..at + n] + a[second..hi] == whole
  {
    assert a[mid..mid] == [];
  }

  /** All of the first run, and as much of the second as goes before the last of it, are merged into the store. */
  method MergeToStore<K(!new)>(a: array<K>, lo: nat, mid: nat, hi: nat, store: array<K>, at: nat, less: (K, K) -> bool)
    returns (second: nat)
    requires lo < mid < hi <= a.Length && at + (hi - lo) <= store.Length && a != store
    modifies store
    ensures mid <= second <= hi
    ensures SameOutside(old(store[..]), store[..], at, at + (hi - lo))
    ensures store[..][at..at + (second - lo)] + a[..][second..hi] == Merged(a[..][lo..mid], a[..][mid..hi], less)
  {
    ghost var whole := Merged(a[..][lo..mid], a[..][mid..hi], less);
    MergeStarts(a[..], lo, mid, hi, store[..], at, less);
    var first, n;
    first, second, n := MergeRuns(a, lo, mid, hi, store, at, whole, less);
    ghost var once := store[..];
    StoreTail(a, first, mid, second, hi, store, at, n, hi - lo, whole, less);
    SameOutsideBoth(old(store[..]), once, store[..], at, at + (hi - lo), at, at + (hi - lo), at, at + (hi - lo));
    assert n + (mid - first) == second - lo;
    RunsMerged(a[..], mid, second, hi, store[..], at, second - lo, whole, less);
  }

  method StoreSecond<K(!new)>(a: array<K>, ghost first: nat, ghost mid: nat, second: nat, ghost hi: nat,
                       store: array<K>,
                              at: nat, n: nat, ghost size: nat, ghost whole: seq<K>, less: (K, K) -> bool)
    requires Merging(a[..], first, mid, second, hi, store[..], at, n, whole, less) && a != store
    requires first < mid && second < hi && less(a[second], a[first]) && n < size && at + size <= store.Length
    modifies store
    ensures SameOutside(old(store[..]), store[..], at, at + size)
    ensures Merging(a[..], first, mid, second + 1, hi, store[..], at, n + 1, whole, less)
  {
    StoreOne(a[..], first, mid, second, hi, store[at..at + n], whole, less);
    Put(store, at, n, size, a[second]);
  }

  method StoreFirst<K(!new)>(a: array<K>, first: nat, ghost mid: nat, ghost second: nat, ghost hi: nat, store: array<K>,
                             at: nat, n: nat, ghost size: nat, ghost whole: seq<K>, less: (K, K) -> bool)
    requires Merging(a[..], first, mid, second, hi, store[..], at, n, whole, less) && a != store
    requires first < mid && n < size && at + size <= store.Length
    requires second == hi || (second < hi && !less(a[second], a[first]))
    modifies store
    ensures SameOutside(old(store[..]), store[..], at, at + size)
    ensures Merging(a[..], first + 1, mid, second, hi, store[..], at, n + 1, whole, less)
  {
    if second == hi {
      StoreRest(a[..], first, mid, hi, store[at..at + n], whole, less);
    } else {
      StoreOne(a[..], first, mid, second, hi, store[at..at + n], whole, less);
    }
    Put(store, at, n, size, a[first]);
  }

  /** The last loop: what was stored goes back to the front of the range. */
  method CopyBack<K>(a: array<K>, lo: nat, second: nat, store: array<K>, at: nat)
    requires lo <= second <= a.Length && at + (second - lo) <= store.Length && a != store
    modifies a
    ensures SameOutside(old(a[..]), a[..], lo, second)
    ensures a[lo..second] == store[at..at + (second - lo)]
  {
    var k := 0;
    while lo + k != second
      invariant lo + k <= second && SameOutside(old(a[..]), a[..], lo, second)
      invariant a[lo..lo + k] == store[at..at + k]
      decreases second - k
    {
      a[lo + k] := store[at + k];
      k := k + 1;
    }
  }

  /** `__MergeSort`: the two halves share the store, each using the part that matches its place. The copy back
      may stop where the second run stood still: what is left of it is in place. */
  method SortRange<K(!new)>(a: array<K>, lo: nat, hi: nat, store: array<K>, at: nat, less: (K, K) -> bool)
    requires lo < hi <= a.Length && at + (hi - lo) <= store.Length && a != store
    modifies a, store
    ensures a[lo..hi] == MergeSorted(old(a[lo..hi]), less)
    ensures SameOutside(old(a[..]), a[..], lo, hi)
    ensures SameOutside(old(store[..]), store[..], at, at + (hi - lo))
    decreases hi - lo, 1
  {
    if hi - lo == 1 { return; }
    var mid := lo + (hi - lo) / 2;
    ghost var s := a[lo..hi];
    assert s[..|s| / 2] == a[lo..mid] && s[|s| / 2..] == a[mid..hi];
    SortHalves(a, lo, mid, hi, store, at, less);
    MergeHalves(a, lo, mid, hi, store, at, less);
  }

  method SortHalves<K(!new)>(a: array<K>, lo: nat, mid: nat, hi: nat, store: array<K>, at: nat, less: (K, K) -> bool)
    requires lo < mid < hi <= a.Length && at + (hi - lo) <= store.Length && a != store
    modifies a, store
    ensures a[lo..mid] == MergeSorted(old(a[lo..mid]), less)
    ensures a[mid..hi] == MergeSorted(old(a[mid..hi]), less)
    ensures SameOutside(old(a[..]), a[..], lo, hi)
    ensures SameOutside(old(store[..]), store[..], at, at + (hi - lo))
    decreases hi - lo, 0
  {
    SortRange(a, lo, mid, store, at, less);
    ghost var once, stored := a[..], store[..];
    SameOutsideSlice(old(a[..]), once, lo, mid, mid, hi);
    assert a[mid..hi] == once[mid..hi];
    SortRange(a, mid, hi, store, at + (mid - lo), less);
    SameOutsideSlice(once, a[..], mid, hi, lo, mid);
    assert a[lo..mid] == a[..][lo..mid] && once[lo..mid] == MergeSorted(old(a[lo..mid]), less);
    SameOutsideBoth(old(a[..]), once, a[..], lo, hi, lo, mid, mid, hi);
    SameOutsideBoth(old(store[..]), stored, store[..], at, at + (hi - lo),
                    at, at + (mid - lo), at + (mid - lo), at + (hi - lo));
  }

  method MergeHalves<K(!new)>(a: array<K>, lo: nat, mid: nat, hi: nat, store: array<K>, at: nat, less: (K, K) -> bool)
    requires lo < mid < hi <= a.Length && at + (hi - lo) <= store.Length && a != store
    modifies a, store
    ensures a[lo..hi] == Merged(old(a[lo..mid]), old(a[mid..hi]), less)
    ensures SameOutside(old(a[..]), a[..], lo, hi)
    ensures SameOutside(old(store[..]), store[..], at, at + (hi - lo))
  {
    var second := MergeToStore(a, lo, mid, hi, store, at, less);
    assert a[..][lo..mid] == a[lo..mid] && a[..][mid..hi] == a[mid..hi];
    CopyBack(a, lo, second, store, at);
    SameOutsideSlice(old(a[..]), a[..], lo, second, second, hi);
    assert a[lo..hi] == a[lo..second] + a[..][second..hi];
    assert store[..][at..at + (second - lo)] == store[at..at + (second - lo)];
  }

  method MergeSort<K(!new)>(a: array<K>, less: (K, K) -> bool)
    requires StrictWeak(less) && a.Length > 0
    modifies a
    ensures a[..] == MergeSorted(old(a[..]), less)
    ensures Sorted(a[..], less) && multiset(a[..]) == multiset(old(a[..]))
    ensures forall x :: Equals(a[..], x, less) == Equals(old(a[..]), x, less)
  {
    MergeSortedIsStableSort(a[..], less);
    var any := a[0];
    var store := new K[a.Length](_ => any);
    assert a[0..a.Length] == a[..];
    SortRange(a, 0, a.Length, store, 0, less);
    assert a[0..a.Length] == a[..];
  }
}
