/** `HeapSort` and `__AdjustHeap` of heap_sort.h. */
module HeapSorts {
  import opened Ordering

  /** Within the first `n`, no element is less than a child of it. */
  ghost predicate HeapAt<K>(s: seq<K>, n: nat, i: nat, less: (K, K) -> bool)
    requires n <= |s|
  {
    && (2 * i + 1 < n ==> !less(s[i], s[2 * i + 1]))
    && (2 * i + 2 < n ==> !less(s[i], s[2 * i + 2]))
  }

  ghost predicate HeapFrom<K>(s: seq<K>, n: nat, lo: nat, less: (K, K) -> bool)
    requires n <= |s|
  {
    forall i: nat :: lo <= i < n ==> HeapAt(s, n, i, less)
  }

  /** A heap broken at most at `idx`: the children of `idx` are in order with its parent. */
  ghost predicate HeapBut<K>(s: seq<K>, n: nat, lo: nat, idx: nat, less: (K, K) -> bool)
    requires n <= |s|
  {
    && (forall i: nat :: lo <= i < n && i != idx ==> HeapAt(s, n, i, less))
    && (idx > 0 && lo <= (idx - 1) / 2 ==>
          && (2 * idx + 1 < n ==> !less(s[(idx - 1) / 2], s[2 * idx + 1]))
          && (2 * idx + 2 < n ==> !less(s[(idx - 1) / 2], s[2 * idx + 2])))
  }

  /** Swapping the broken place with its greatest child breaks the heap at most there. */
  lemma SwapSinks<K(!new)>(s: seq<K>, n: nat, lo: nat, idx: nat, c: nat, less: (K, K) -> bool)
    requires StrictWeak(less) && lo <= idx < n <= |s| && HeapBut(s, n, lo, idx, less)
    requires c < n && (c == 2 * idx + 1 || c == 2 * idx + 2) && less(s[idx], s[c])
    requires forall d :: 2 * idx + 1 <= d <= 2 * idx + 2 && d < n ==> !less(s[c], s[d])
    ensures HeapBut(Swapped(s, idx, c), n, lo, c, less)
  {
    var t := Swapped(s, idx, c);
    assert (c - 1) / 2 == idx;
    forall i: nat | lo <= i < n && i != c ensures HeapAt(t, n, i, less) {
      if i != idx { assert HeapAt(s, n, i, less); }
    }
    assert HeapAt(s, n, c, less);
  }

  method AdjustHeap<K(!new)>(a: array<K>, n: nat, idx: nat, less: (K, K) -> bool, ghost lo: nat)
    requires StrictWeak(less) && lo <= idx < n <= a.Length
    requires HeapBut(a[..], n, lo, idx, less)
    modifies a
    ensures HeapFrom(a[..], n, lo, less) && Rearranged(old(a[..]), a[..], 0, n)
    decreases n - idx
  {
    var swap := idx;
    var child := 2 * idx + 1;
    if child < n && less(a[swap], a[child]) { swap := child; }
    child := 2 * idx + 2;
    if child < n && less(a[swap], a[child]) { swap := child; }
    if swap != idx {
      SwapSinks(a[..], n, lo, idx, swap, less);
      SwapRearranges(a[..], 0, n, idx, swap);
      Swap(a, idx, swap);
      AdjustHeap(a, n, swap, less, lo);
    } else {
      assert HeapAt(a[..], n, idx, less);
    }
  }

  method Swap<K>(a: array<K>, i: nat, j: nat)
    requires i < a.Length && j < a.Length
    modifies a
    ensures a[..] == Swapped(old(a[..]), i, j)
  {
    a[i], a[j] := a[j], a[i];
  }

  /** Nothing in a heap is greater than its root. */
  lemma {:induction false} RootIsGreatest<K(!new)>(s: seq<K>, n: nat, i: nat, less: (K, K) -> bool)
    requires StrictWeak(less) && i < n <= |s| && HeapFrom(s, n, 0, less)
    ensures !less(s[0], s[i])
  {
    if i > 0 {
      RootIsGreatest(s, n, (i - 1) / 2, less);
      assert HeapAt(s, n, (i - 1) / 2, less);
    }
  }

  /** The greatest of a heap, put behind it, leaves a heap broken at the root. */
  lemma RootBehind<K(!new)>(s: seq<K>, n: nat, less: (K, K) -> bool)
    requires StrictWeak(less) && 0 < n < |s| && HeapFrom(s, n + 1, 0, less)
    ensures HeapBut(Swapped(s, 0, n), n, 0, 0, less)
    ensures forall i :: 0 <= i < n ==> !less(Swapped(s, 0, n)[n], Swapped(s, 0, n)[i])
  {
    var t := Swapped(s, 0, n);
    forall i: nat | i < n && i != 0 ensures HeapAt(t, n, i, less) {
      assert HeapAt(s, n + 1, i, less);
    }
    forall i: nat | i < n ensures !less(t[n], t[i]) {
      RootIsGreatest(s, n + 1, if i == 0 then n else i, less);
    }
  }

  /** The second loop of the sort: a heap, and behind it in order all that is greater. */
  ghost predicate Behind<K>(s: seq<K>, n: nat, less: (K, K) -> bool)
    requires n <= |s|
  {
    forall i, j :: 0 <= i < j < |s| && n <= j ==> !less(s[j], s[i])
  }

  lemma BehindKept<K(!new)>(s: seq<K>, t: seq<K>, n: nat, less: (K, K) -> bool)
    requires n <= |s| && Behind(s, n, less) && Rearranged(s, t, 0, n)
    ensures Behind(t, n, less)
  {
    forall i: nat, j: nat | i < j < |t| && n <= j ensures !less(t[j], t[i]) {
      assert t[n..][j - n] == s[n..][j - n];
      if i < n {
        var k := RearrangedMember(s, t, 0, n, i);
      } else {
        assert t[n..][i - n] == s[n..][i - n];
      }
    }
  }

  lemma BehindMore<K(!new)>(s: seq<K>, n: nat, less: (K, K) -> bool)
    requires StrictWeak(less) && 0 < n < |s| && HeapFrom(s, n + 1, 0, less) && Behind(s, n + 1, less)
    ensures Behind(Swapped(s, 0, n), n, less)
  {
    RootBehind(s, n, less);
    SwapRearranges(s, 0, n + 1, 0, n);
    BehindKept(s, Swapped(s, 0, n), n + 1, less);
  }

  method BuildHeap<K(!new)>(a: array<K>, less: (K, K) -> bool)
    requires StrictWeak(less) && a.Length > 0
    modifies a
    ensures HeapFrom(a[..], a.Length, 0, less) && multiset(a[..]) == multiset(old(a[..]))
  {
    var i := (a.Length - 1) / 2;
    while i >= 0
      invariant -1 <= i < a.Length
      invariant HeapFrom(a[..], a.Length, i + 1, less)
      invariant multiset(a[..]) == multiset(old(a[..]))
      decreases i
    {
      ghost var was := a[..];
      AdjustHeap(a, a.Length, i, less, i);
      RearrangedAll(was, a[..]);
      i := i - 1;
    }
  }

  method HeapSort<K(!new)>(a: array<K>, less: (K, K) -> bool)
    requires StrictWeak(less) && a.Length > 0
    modifies a
    ensures Sorted(a[..], less) && multiset(a[..]) == multiset(old(a[..]))
  {
    BuildHeap(a, less);
    var n := a.Length - 1;
    while n != 0
      invariant 0 <= n < a.Length
      invariant HeapFrom(a[..], n + 1, 0, less) && Behind(a[..], n + 1, less)
      invariant multiset(a[..]) == multiset(old(a[..]))
      decreases n
    {
      Extract(a, n, less);
      n := n - 1;
    }
  }

  method Extract<K(!new)>(a: array<K>, n: nat, less: (K, K) -> bool)
    requires StrictWeak(less) && 0 < n < a.Length
    requires HeapFrom(a[..], n + 1, 0, less) && Behind(a[..], n + 1, less)
    modifies a
    ensures HeapFrom(a[..], n, 0, less) && Behind(a[..], n, less)
    ensures multiset(a[..]) == multiset(old(a[..]))
  {
    RootBehind(a[..], n, less);
    BehindMore(a[..], n, less);
    SwapRearranges(a[..], 0, a.Length, 0, n);
    RearrangedAll(a[..], Swapped(a[..], 0, n));
    Swap(a, n, 0);
    assert a[..] == Swapped(old(a[..]), 0, n);
    ghost var was := a[..];
    AdjustHeap(a, n, 0, less, 0);
    BehindKept(was, a[..], n, less);
    RearrangedWithin(was, a[..], 0, n, 0, a.Length);
    RearrangedAll(was, a[..]);
  }
}
