/** `ShellSort` of shell_sort.h. */
module ShellSorts {
  import opened Arithmetic
  import opened Ordering

  /** Below `n`, no element is less than the one `gap` places before it. */
  ghost predicate GappedUpTo<K>(s: seq<K>, n: nat, gap: nat, less: (K, K) -> bool)
    requires n <= |s|
  {
    forall i :: gap <= i < n ==> !less(s[i], s[i - gap])
  }

  ghost predicate Gapped<K>(s: seq<K>, gap: nat, less: (K, K) -> bool) {
    GappedUpTo(s, |s|, gap, less)
  }

  /** How many of the elements at `i`, `i + gap`, `i + 2 * gap`, ... are not greater than `v`. */
  ghost function Count<K>(s: seq<K>, i: nat, gap: nat, v: K, less: (K, K) -> bool): nat
    requires gap > 0
    decreases |s| - i
  {
    if i >= |s| then 0 else (if less(v, s[i]) then 0 else 1) + Count(s, i + gap, gap, v, less)
  }

  /** Taken `gap` apart, both sequences hold the same elements, as far as counting can tell. */
  ghost predicate SameCounts<K(!new)>(s: seq<K>, t: seq<K>, gap: nat, less: (K, K) -> bool)
    requires gap > 0
  {
    |s| == |t| && forall c: nat, v :: c < gap ==> Count(s, c, gap, v, less) == Count(t, c, gap, v, less)
  }

  lemma {:induction false} CountBehind<K>(s: seq<K>, t: seq<K>, i: nat, gap: nat, v: K, less: (K, K) -> bool)
    requires gap > 0 && |s| == |t| && forall j :: i <= j < |s| ==> s[j] == t[j]
    ensures Count(s, i, gap, v, less) == Count(t, i, gap, v, less)
    decreases |s| - i
  {
    if i < |s| { CountBehind(s, t, i + gap, gap, v, less); }
  }

  lemma {:induction false} CountSwapped<K>(s: seq<K>, i: nat, gap: nat, p: nat, v: K, less: (K, K) -> bool)
    requires 0 < gap <= p < |s| && i < p
    ensures Count(Swapped(s, p - gap, p), i, gap, v, less) == Count(s, i, gap, v, less)
    decreases p - i
  {
    var t := Swapped(s, p - gap, p);
    if i < p - gap {
      CountSwapped(s, i + gap, gap, p, v, less);
    } else if i == p - gap {
      CountBehind(s, t, p + gap, gap, v, less);
    } else {
      CountBehind(s, t, i + gap, gap, v, less);
    }
  }

  lemma {:induction false} CountAhead<K(!new)>(s: seq<K>, a: nat, h: nat, gap: nat, v: K, less: (K, K) -> bool)
    requires StrictWeak(less) && gap > 0 && Gapped(s, h, less)
    ensures Count(s, a + h, gap, v, less) <= Count(s, a, gap, v, less)
    decreases |s| - a
  {
    if a + h < |s| { CountAhead(s, a + gap, h, gap, v, less); }
  }

  lemma {:induction false} CountSkipped<K>(s: seq<K>, b: nat, gap: nat, q: nat, v: K, less: (K, K) -> bool)
    requires gap > 0
    ensures Count(s, b, gap, v, less) <= q + Count(s, b + q * gap, gap, v, less)
    decreases q
  {
    if q > 0 {
      assert b + gap + (q - 1) * gap == b + q * gap;
      CountSkipped(s, b + gap, gap, q - 1, v, less);
    }
  }

  /** In a gapped sequence an element not greater than `v` has only such elements before it. */
  lemma {:induction false} CountAtLeast<K(!new)>(t: seq<K>, b: nat, gap: nat, j: nat, v: K, less: (K, K) -> bool)
    requires StrictWeak(less) && gap > 0 && Gapped(t, gap, less)
    requires b + j * gap < |t| && !less(v, t[b + j * gap])
    ensures b < |t| && !less(v, t[b]) && j < Count(t, b, gap, v, less)
    decreases j
  {
    if j > 0 {
      assert b + gap + (j - 1) * gap == b + j * gap;
      CountAtLeast(t, b + gap, gap, j - 1, v, less);
      assert !less(t[b + gap], t[b + gap - gap]);
    }
  }

  /** In a gapped sequence an element greater than `v` has only such elements behind it. */
  lemma {:induction false} CountAtMost<K(!new)>(t: seq<K>, a: nat, gap: nat, j: nat, v: K, less: (K, K) -> bool)
    requires StrictWeak(less) && gap > 0 && Gapped(t, gap, less)
    requires a + j * gap < |t| && less(v, t[a + j * gap])
    ensures Count(t, a, gap, v, less) <= j
    decreases |t| - a
  {
    if j > 0 {
      assert a + gap + (j - 1) * gap == a + j * gap;
      CountAtMost(t, a + gap, gap, j - 1, v, less);
    } else if a + gap < |t| {
      assert !less(t[a + gap], t[a + gap - gap]);
      CountAtMost(t, a + gap, gap, 0, v, less);
    }
  }

  /** What one pass has put in order stays in order through the passes that follow: ordering a sequence at
      one gap keeps it ordered at any other. */
  lemma GapKept<K(!new)>(s: seq<K>, t: seq<K>, h: nat, gap: nat, less: (K, K) -> bool)
    requires StrictWeak(less) && gap > 0
    requires Gapped(s, h, less) && Gapped(t, gap, less) && SameCounts(s, t, gap, less)
    ensures Gapped(t, h, less)
  {
    forall i | h <= i < |t| ensures !less(t[i], t[i - h]) {
      GapKeptAt(s, t, h, gap, i, less);
    }
  }

  lemma GapKeptAt<K(!new)>(s: seq<K>, t: seq<K>, h: nat, gap: nat, i: nat, less: (K, K) -> bool)
    requires StrictWeak(less) && gap > 0 && h <= i < |t|
    requires Gapped(s, h, less) && Gapped(t, gap, less) && SameCounts(s, t, gap, less)
    ensures !less(t[i], t[i - h])
  {
    var a, j := Chain(i - h, gap);
    var b, k := Chain(i, gap);
    var v := t[i];
    ChainsApart(a, j, b, k, h, gap);
    CountAtLeast(t, b, gap, k, v, less);
    SameCount(s, t, b, gap, v, less);
    CountSkipped(s, b, gap, k - j, v, less);
    CountAhead(s, a, h, gap, v, less);
    SameCount(s, t, a, gap, v, less);
    if less(v, t[i - h]) {
      CountAtMost(t, a, gap, j, v, less);
    }
  }

  lemma SameCount<K(!new)>(s: seq<K>, t: seq<K>, c: nat, gap: nat, v: K, less: (K, K) -> bool)
    requires c < gap && SameCounts(s, t, gap, less)
    ensures Count(s, c, gap, v, less) == Count(t, c, gap, v, less)
  {
  }

  /** Where the elements `gap` apart that include place `i` begin, and which of them it is. */
  lemma Chain(i: nat, gap: nat) returns (c: nat, j: nat)
    requires gap > 0
    ensures c < gap && c + j * gap == i
  {
    c, j := i % gap, i / gap;
  }

  lemma ChainsApart(a: nat, j: nat, b: nat, k: nat, h: nat, gap: nat)
    requires a < gap && b < gap && a + j * gap + h == b + k * gap
    ensures j <= k && b + (k - j) * gap == a + h
  {
    if k < j {
      MulMonotone(k + 1, j, gap);
    }
    assert (k - j) * gap == k * gap - j * gap;
  }

  lemma {:induction false} OneGapIsSorted<K(!new)>(s: seq<K>, less: (K, K) -> bool)
    requires StrictWeak(less) && Gapped(s, 1, less)
    ensures Sorted(s, less)
  {
    if s != [] {
      var front := s[..|s| - 1];
      assert Gapped(front, 1, less);
      OneGapIsSorted(front, less);
      forall i, j | 0 <= i < j < |s| ensures !less(s[j], s[i]) {
        if j < |s| - 1 {
          assert front[j] == s[j] && front[i] == s[i];
        } else if i < j - 1 {
          assert front[j - 1] == s[j - 1] && front[i] == s[i];
          assert !less(s[j], s[j - 1]);
        }
      }
    }
  }

  /** The same elements, and the same ones in every part of the sequence whose places are `gap` apart. */
  ghost predicate SameParts<K(!new)>(s: seq<K>, t: seq<K>, gap: nat, less: (K, K) -> bool)
    requires gap > 0
  {
    SameCounts(s, t, gap, less) && multiset(s) == multiset(t)
  }

  lemma SwapKeepsParts<K(!new)>(was: seq<K>, s: seq<K>, gap: nat, p: nat, less: (K, K) -> bool)
    requires 0 < gap <= p < |s| && SameParts(was, s, gap, less)
    ensures SameParts(was, Swapped(s, p - gap, p), gap, less)
  {
    var t := Swapped(s, p - gap, p);
    forall c: nat, v | c < gap ensures Count(was, c, gap, v, less) == Count(t, c, gap, v, less) {
      CountSwapped(s, c, gap, p, v, less);
    }
    assert multiset(t) == multiset(s);
  }

  /** The element of `iter` is on its way down the places `gap` apart and has come to `hole`. */
  ghost predicate Inserting<K>(s: seq<K>, gap: nat, iter: nat, hole: nat, less: (K, K) -> bool) {
    && hole <= iter < |s|
    && (forall i :: gap <= i <= iter && i != hole ==> !less(s[i], s[i - gap]))
    && (gap <= hole && hole + gap <= iter ==> !less(s[hole + gap], s[hole - gap]))
  }

  lemma MoveDown<K(!new)>(s: seq<K>, gap: nat, iter: nat, hole: nat, less: (K, K) -> bool)
    requires StrictWeak(less) && 0 < gap <= hole && Inserting(s, gap, iter, hole, less)
    requires less(s[hole], s[hole - gap])
    ensures Inserting(Swapped(s, hole - gap, hole), gap, iter, hole - gap, less)
  {
  }

  /** Fills the hole from `gap` places before it, where the hole is then. */
  method ShiftUp<K(!new)>(a: array<K>, ghost was: seq<K>, gap: nat, ghost iter: nat, hole: nat, tmp: K,
                          less: (K, K) -> bool)
    requires StrictWeak(less) && 0 < gap <= hole < a.Length && less(tmp, a[hole - gap])
    requires SameParts(was, a[..][hole := tmp], gap, less)
    requires Inserting(a[..][hole := tmp], gap, iter, hole, less)
    modifies a
    ensures SameParts(was, a[..][hole - gap := tmp], gap, less)
    ensures Inserting(a[..][hole - gap := tmp], gap, iter, hole - gap, less)
  {
    ghost var s := a[..][hole := tmp];
    MoveDown(s, gap, iter, hole, less);
    SwapKeepsParts(was, s, gap, hole, less);
    a[hole] := a[hole - gap];
    assert a[..][hole - gap := tmp] == Swapped(s, hole - gap, hole);
  }

  /** Puts the element of `iter` in its place among those `gap` apart before it. */
  method Insert<K(!new)>(a: array<K>, gap: nat, iter: nat, less: (K, K) -> bool)
    requires StrictWeak(less) && 0 < gap <= iter < a.Length && GappedUpTo(a[..], iter, gap, less)
    modifies a
    ensures GappedUpTo(a[..], iter + 1, gap, less) && SameParts(old(a[..]), a[..], gap, less)
  {
    var tmp := a[iter];
    var hole: nat := iter;
    assert a[..][hole := tmp] == a[..];
    while hole >= gap
      invariant hole <= iter && SameParts(old(a[..]), a[..][hole := tmp], gap, less)
      invariant Inserting(a[..][hole := tmp], gap, iter, hole, less)
      decreases hole
    {
      if !less(tmp, a[hole - gap]) { break; }
      ShiftUp(a, old(a[..]), gap, iter, hole, tmp, less);
      hole := hole - gap;
    }
    a[hole] := tmp;
  }

  lemma SamePartsTwice<K(!new)>(s: seq<K>, t: seq<K>, u: seq<K>, gap: nat, less: (K, K) -> bool)
    requires gap > 0 && SameParts(s, t, gap, less) && SameParts(t, u, gap, less)
    ensures SameParts(s, u, gap, less)
  {
    forall c: nat, v | c < gap ensures Count(s, c, gap, v, less) == Count(u, c, gap, v, less) {
      SameCount(s, t, c, gap, v, less);
      SameCount(t, u, c, gap, v, less);
    }
  }

  /** One pass puts the array in order at its gap and keeps the order of every pass before it. */
  method Pass<K(!new)>(a: array<K>, gap: nat, less: (K, K) -> bool)
    requires StrictWeak(less) && 0 < gap <= a.Length
    modifies a
    ensures Gapped(a[..], gap, less) && multiset(a[..]) == multiset(old(a[..]))
    ensures forall h: nat :: Gapped(old(a[..]), h, less) ==> Gapped(a[..], h, less)
  {
    var iter := gap;
    while iter != a.Length
      invariant gap <= iter <= a.Length && GappedUpTo(a[..], iter, gap, less)
      invariant SameParts(old(a[..]), a[..], gap, less)
    {
      ghost var s := a[..];
      Insert(a, gap, iter, less);
      SamePartsTwice(old(a[..]), s, a[..], gap, less);
      iter := iter + 1;
    }
    forall h: nat | Gapped(old(a[..]), h, less) ensures Gapped(a[..], h, less) {
      GapKept(old(a[..]), a[..], h, gap, less);
    }
  }

  method ShellSort<K(!new)>(a: array<K>, less: (K, K) -> bool)
    requires StrictWeak(less) && a.Length > 0
    modifies a
    ensures Sorted(a[..], less) && multiset(a[..]) == multiset(old(a[..]))
  {
    var gap := a.Length / 2;
    ghost var passed: set<nat> := {};
    while gap > 0
      invariant 0 <= gap < a.Length && multiset(a[..]) == multiset(old(a[..]))
      invariant forall h :: h in passed ==> Gapped(a[..], h, less)
      invariant gap == 0 && a.Length > 1 ==> 1 in passed
      decreases gap
    {
      Pass(a, gap, less);
      passed := passed + {gap};
      gap := gap / 2;
    }
    if a.Length > 1 { OneGapIsSorted(a[..], less); }
  }
}
