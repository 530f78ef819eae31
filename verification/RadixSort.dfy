/** A counting pass over ten buckets. */
module CountingPass {

  /** The elements with key `k`, in their order. */
  function Bucket<T>(s: seq<T>, key: T -> nat, k: nat): seq<T> {
    if s == [] then []
    else if key(s[0]) == k then [s[0]] + Bucket(s[1..], key, k)
    else Bucket(s[1..], key, k)
  }

  /** The elements with keys below `k`, by key and then in their order. */
  function Buckets<T>(s: seq<T>, key: T -> nat, k: nat): seq<T> {
    if k == 0 then [] else Buckets(s, key, k - 1) + Bucket(s, key, k - 1)
  }

  lemma {:induction false} BucketAppend<T>(s: seq<T>, t: seq<T>, key: T -> nat, k: nat)
    ensures Bucket(s + t, key, k) == Bucket(s, key, k) + Bucket(t, key, k)
  {
    if s == [] {
      assert s + t == t;
    } else {
      BucketAppend(s[1..], t, key, k);
      assert (s + t)[0] == s[0] && (s + t)[1..] == s[1..] + t;
      var rest, more := Bucket(s[1..], key, k), Bucket(t, key, k);
      assert [s[0]] + (rest + more) == ([s[0]] + rest) + more;
    }
  }

  lemma {:induction false} BucketKeys<T>(s: seq<T>, key: T -> nat, k: nat)
    ensures forall x :: x in Bucket(s, key, k) ==> x in s && key(x) == k
  {
    if s != [] { BucketKeys(s[1..], key, k); }
  }

  lemma {:induction false} BucketsKeys<T>(s: seq<T>, key: T -> nat, k: nat)
    ensures forall x :: x in Buckets(s, key, k) ==> key(x) < k
  {
    if k > 0 {
      BucketsKeys(s, key, k - 1);
      BucketKeys(s, key, k - 1);
    }
  }

  lemma {:induction false} BucketsCons<T>(s: seq<T>, key: T -> nat, k: nat)
    requires s != []
    ensures multiset(Buckets(s, key, k)) ==
            multiset(Buckets(s[1..], key, k)) + (if key(s[0]) < k then multiset{s[0]} else multiset{})
  {
    if k > 0 { BucketsCons(s, key, k - 1); }
  }

  lemma {:induction false} EmptyBuckets<T>(key: T -> nat, k: nat)
    ensures Buckets([], key, k) == []
  {
    if k > 0 { EmptyBuckets(key, k - 1); }
  }

  lemma SameLength<T>(s: seq<T>, t: seq<T>)
    requires multiset(s) == multiset(t)
    ensures |s| == |t|
  {
    assert |multiset(s)| == |multiset(t)|;
  }

  ghost predicate KeysBelow<T>(s: seq<T>, key: T -> nat, n: nat) {
    forall i :: 0 <= i < |s| ==> key(s[i]) < n
  }

  /** Buckets for all keys hold every element. */
  lemma {:induction false} BucketsKeep<T>(s: seq<T>, key: T -> nat, n: nat)
    requires KeysBelow(s, key, n)
    ensures multiset(Buckets(s, key, n)) == multiset(s)
  {
    if s == [] {
      EmptyBuckets(key, n);
    } else {
      BucketsKeep(s[1..], key, n);
      BucketsCons(s, key, n);
      MultisetCons(s);
    }
  }

  lemma MultisetCons<T>(s: seq<T>)
    requires s != []
    ensures multiset(s) == multiset(s[1..]) + multiset{s[0]}
  {
    assert s == [s[0]] + s[1..];
  }

  lemma {:induction false} BucketOfKey<T>(s: seq<T>, key: T -> nat, k: nat, d: nat)
    requires forall x :: x in s ==> key(x) == d
    ensures Bucket(s, key, k) == if k == d then s else []
  {
    if s != [] { BucketOfKey(s[1..], key, k, d); }
  }

  lemma BucketOfBoth<T>(front: seq<T>, last: seq<T>, key: T -> nat, k: nat, d: nat)
    requires forall x :: x in last ==> key(x) == d
    ensures Bucket(front + last, key, k) == if k == d then Bucket(front, key, k) + last else Bucket(front, key, k)
  {
    BucketAppend(front, last, key, k);
    BucketOfKey(last, key, k, d);
  }

  /** Elements with equal keys keep their order. */
  lemma {:induction false} BucketsStable<T>(s: seq<T>, key: T -> nat, n: nat, k: nat)
    ensures Bucket(Buckets(s, key, n), key, k) == if k < n then Bucket(s, key, k) else []
  {
    if n > 0 {
      BucketsStable(s, key, n - 1, k);
      BucketKeys(s, key, n - 1);
      BucketOfBoth(Buckets(s, key, n - 1), Bucket(s, key, n - 1), key, k, n - 1);
    }
  }

  /** Where bucket `k` begins. */
  function Start<T>(s: seq<T>, key: T -> nat, k: nat): nat {
    |Buckets(s, key, k)|
  }

  lemma {:induction false} StartsApart<T>(s: seq<T>, key: T -> nat, j: nat, k: nat)
    requires j < k
    ensures Start(s, key, j) + |Bucket(s, key, j)| <= Start(s, key, k)
  {
    if j < k - 1 { StartsApart(s, key, j, k - 1); }
  }

  /** How many of the elements before place `i` have key `k`. */
  function Before<T>(s: seq<T>, key: T -> nat, i: nat, k: nat): nat
    requires i <= |s|
  {
    |Bucket(s[..i], key, k)|
  }

  lemma BeforeNext<T>(s: seq<T>, key: T -> nat, i: nat, k: nat)
    requires i < |s|
    ensures Before(s, key, i + 1, k) == Before(s, key, i, k) + if key(s[i]) == k then 1 else 0
  {
    assert s[..i + 1] == s[..i] + [s[i]];
    BucketAppend(s[..i], [s[i]], key, k);
  }

  /** The element of place `i` in its bucket. */
  lemma PlaceInBucket<T>(s: seq<T>, key: T -> nat, i: nat)
    requires i < |s|
    ensures Before(s, key, i, key(s[i])) < |Bucket(s, key, key(s[i]))|
    ensures Bucket(s, key, key(s[i]))[Before(s, key, i, key(s[i]))] == s[i]
  {
    var k := key(s[i]);
    assert s == s[..i] + s[i..];
    BucketAppend(s[..i], s[i..], key, k);
    assert Bucket(s[i..], key, k)[0] == s[i];
  }

  /** From place `done` on, `bucket` lies in `out` from `from`. */
  ghost predicate Placed<T>(out: seq<T>, from: nat, bucket: seq<T>, done: nat) {
    && from + |bucket| <= |out|
    && forall m: nat :: done <= m < |bucket| ==> out[from + m] == bucket[m]
  }

  /** From the back down to place `i` every element with key `k` has gone to its place. */
  ghost predicate Scattered<T>(s: seq<T>, key: T -> nat, k: nat, i: nat, out: seq<T>)
    requires i <= |s|
  {
    Placed(out, Start(s, key, k), Bucket(s, key, k), Before(s, key, i, k))
  }

  lemma ScatterOne<T>(s: seq<T>, key: T -> nat, i: nat, out: seq<T>)
    requires i < |s| && Scattered(s, key, key(s[i]), i + 1, out)
    ensures Start(s, key, key(s[i])) + Before(s, key, i, key(s[i])) < |out|
    ensures Scattered(s, key, key(s[i]), i, out[Start(s, key, key(s[i])) + Before(s, key, i, key(s[i])) := s[i]])
  {
    PlaceInBucket(s, key, i);
    BeforeNext(s, key, i, key(s[i]));
  }

  lemma ScatterOther<T>(s: seq<T>, key: T -> nat, k: nat, i: nat, out: seq<T>)
    requires i < |s| && k != key(s[i]) && Scattered(s, key, k, i + 1, out) && Scattered(s, key, key(s[i]), i + 1, out)
    ensures Start(s, key, key(s[i])) + Before(s, key, i, key(s[i])) < |out|
    ensures Scattered(s, key, k, i, out[Start(s, key, key(s[i])) + Before(s, key, i, key(s[i])) := s[i]])
  {
    var d := key(s[i]);
    PlaceInBucket(s, key, i);
    BeforeNext(s, key, i, k);
    if k < d { StartsApart(s, key, k, d); } else { StartsApart(s, key, d, k); }
  }

  lemma PlacedAll<T>(out: seq<T>, from: nat, bucket: seq<T>)
    requires Placed(out, from, bucket, 0)
    ensures out[from..from + |bucket|] == bucket
  {
  }

  lemma ScatteredBucket<T>(s: seq<T>, key: T -> nat, k: nat, out: seq<T>)
    requires Scattered(s, key, k, 0, out)
    ensures out[Start(s, key, k)..Start(s, key, k) + |Bucket(s, key, k)|] == Bucket(s, key, k)
  {
    assert s[..0] == [];
    PlacedAll(out, Start(s, key, k), Bucket(s, key, k));
  }

  ghost predicate AllScattered<T>(s: seq<T>, key: T -> nat, n: nat, i: nat, out: seq<T>)
    requires i <= |s|
  {
    forall k: nat :: k < n ==> Scattered(s, key, k, i, out)
  }

  /** The next element from the back goes to the last free place of its bucket. */
  lemma ScatterNext<T>(s: seq<T>, key: T -> nat, n: nat, i: nat, out: seq<T>)
    requires i < |s| && key(s[i]) < n && AllScattered(s, key, n, i + 1, out)
    ensures Start(s, key, key(s[i])) + Before(s, key, i, key(s[i])) < |out|
    ensures AllScattered(s, key, n, i, out[Start(s, key, key(s[i])) + Before(s, key, i, key(s[i])) := s[i]])
  {
    ScatterOne(s, key, i, out);
    var next := out[Start(s, key, key(s[i])) + Before(s, key, i, key(s[i])) := s[i]];
    forall k: nat | k < n ensures Scattered(s, key, k, i, next) {
      if k != key(s[i]) { ScatterOther(s, key, k, i, out); }
    }
  }

  /** When all have gone to their places the buckets follow each other. */
  lemma {:induction false} ScatteredAll<T>(s: seq<T>, key: T -> nat, k: nat, out: seq<T>)
    requires Start(s, key, k) <= |out| && AllScattered(s, key, k, 0, out)
    ensures out[..Start(s, key, k)] == Buckets(s, key, k)
  {
    if k > 0 {
      var from := Start(s, key, k - 1);
      StartsApart(s, key, k - 1, k);
      ScatteredAll(s, key, k - 1, out);
      ScatteredBucket(s, key, k - 1, out);
      assert out[..Start(s, key, k)] == out[..from] + out[from..from + |Bucket(s, key, k - 1)|];
    }
  }
}

/** `RadixSort` of radix_sort.h, whose `comp` argument plays no part. */
module RadixSorts {
  import opened Arithmetic
  import opened CountingPass

  function DigitAt(radix: nat): nat -> nat
    requires radix > 0
  {
    (x: nat) => x / radix % 10
  }

  function Pow10(i: nat): (p: nat)
    ensures p > 0
  {
    if i == 0 then 1 else 10 * Pow10(i - 1)
  }

  /** What one pass makes of a sequence, and what the passes for the last `i` digits do. */
  function Passed(s: seq<nat>, radix: nat): seq<nat>
    requires radix > 0
  {
    Buckets(s, DigitAt(radix), 10)
  }

  function PassedTimes(s: seq<nat>, i: nat): seq<nat> {
    if i == 0 then s else Passed(PassedTimes(s, i - 1), Pow10(i - 1))
  }

  ghost predicate OrderedMod(s: seq<nat>, m: nat)
    requires m > 0
  {
    forall i, j :: 0 <= i < j < |s| ==> s[i] % m <= s[j] % m
  }

  lemma DigitsBelowTen(s: seq<nat>, radix: nat)
    requires radix > 0
    ensures KeysBelow(s, DigitAt(radix), 10)
  {
  }

  /** The last digits of a number: the next digit and those before it. */
  lemma ModSplit(x: nat, radix: nat)
    requires radix > 0
    ensures x % (10 * radix) == DigitAt(radix)(x) * radix + x % radix
  {
    var q, d, r := x / radix / 10, x / radix % 10, x % radix;
    assert x == x / radix * radix + r && x / radix == q * 10 + d;
    assert x / radix * radix == q * (10 * radix) + d * radix by { Expand(q, d, radix); }
    assert d * radix + r < 10 * radix by { MulMonotone(d, 9, radix); }
    ModUnique(x, q, d * radix + r, 10 * radix);
  }

  lemma Expand(q: nat, d: nat, radix: nat)
    ensures (q * 10 + d) * radix == q * (10 * radix) + d * radix
  {
    assert q * 10 * radix == q * (10 * radix);
  }

  lemma {:induction false} SubsequenceOrdered(s: seq<nat>, key: nat -> nat, k: nat, m: nat)
    requires m > 0 && OrderedMod(s, m)
    ensures OrderedMod(Bucket(s, key, k), m)
  {
    if s != [] {
      SubsequenceOrdered(s[1..], key, k, m);
      var rest := Bucket(s[1..], key, k);
      BucketKeys(s[1..], key, k);
      forall j | 0 <= j < |rest| ensures s[0] % m <= rest[j] % m {
        assert rest[j] in s[1..];
      }
    }
  }

  lemma OrderedBoth(front: seq<nat>, last: seq<nat>, m: nat)
    requires m > 0 && OrderedMod(front, m) && OrderedMod(last, m)
    requires forall x, y :: x in front && y in last ==> x % m <= y % m
    ensures OrderedMod(front + last, m)
  {
    var both := front + last;
    forall i, j | 0 <= i < j < |both| ensures both[i] % m <= both[j] % m {
      if |front| <= i {
        assert both[i] == last[i - |front|] && both[j] == last[j - |front|];
      } else if |front| <= j {
        assert both[i] in front && both[j] == last[j - |front|] && both[j] in last;
      }
    }
  }

  lemma {:induction false} BucketsOrdered(s: seq<nat>, radix: nat, n: nat)
    requires radix > 0 && OrderedMod(s, radix)
    ensures OrderedMod(Buckets(s, DigitAt(radix), n), 10 * radix)
  {
    if n > 0 {
      var front, last := Buckets(s, DigitAt(radix), n - 1), Bucket(s, DigitAt(radix), n - 1);
      BucketsOrdered(s, radix, n - 1);
      BucketsKeys(s, DigitAt(radix), n - 1);
      BucketKeys(s, DigitAt(radix), n - 1);
      forall x, y | x in front && y in last ensures x % (10 * radix) <= y % (10 * radix) {
        DigitFirst(x, y, radix);
      }
      OneDigitOrdered(s, radix, n - 1);
      OrderedBoth(front, last, 10 * radix);
    }
  }

  lemma OneDigitOrdered(s: seq<nat>, radix: nat, d: nat)
    requires radix > 0 && OrderedMod(s, radix)
    ensures OrderedMod(Bucket(s, DigitAt(radix), d), 10 * radix)
  {
    var t := Bucket(s, DigitAt(radix), d);
    SubsequenceOrdered(s, DigitAt(radix), d, radix);
    BucketKeys(s, DigitAt(radix), d);
    forall i, j | 0 <= i < j < |t| ensures t[i] % (10 * radix) <= t[j] % (10 * radix) {
      assert t[i] in t && t[j] in t;
      DigitFirst(t[i], t[j], radix);
    }
  }

  /** A smaller digit outweighs the digits before it. */
  lemma DigitFirst(x: nat, y: nat, radix: nat)
    requires radix > 0
    requires DigitAt(radix)(x) < DigitAt(radix)(y) ||
             (DigitAt(radix)(x) == DigitAt(radix)(y) && x % radix <= y % radix)
    ensures x % (10 * radix) <= y % (10 * radix)
  {
    ModSplit(x, radix);
    ModSplit(y, radix);
    Outweighs(DigitAt(radix)(x), x % radix, DigitAt(radix)(y), y % radix, radix);
  }

  lemma Outweighs(d: nat, r: nat, e: nat, q: nat, radix: nat)
    requires r < radix && (d < e || (d == e && r <= q))
    ensures d * radix + r <= e * radix + q
  {
    if d < e { MulMonotone(d + 1, e, radix); }
  }

  /** After the passes for `i` digits the elements are in the order of those digits. */
  lemma {:induction false} PassesOrdered(s: seq<nat>, i: nat)
    ensures OrderedMod(PassedTimes(s, i), Pow10(i))
    ensures multiset(PassedTimes(s, i)) == multiset(s) && |PassedTimes(s, i)| == |s|
  {
    if i > 0 {
      var before := PassedTimes(s, i - 1);
      PassesOrdered(s, i - 1);
      BucketsOrdered(before, Pow10(i - 1), 10);
      DigitsBelowTen(before, Pow10(i - 1));
      BucketsKeep(before, DigitAt(Pow10(i - 1)), 10);
      SameLength(PassedTimes(s, i), s);
    }
  }

  ghost predicate Ascending(s: seq<nat>) {
    forall i, j :: 0 <= i < j < |s| ==> s[i] <= s[j]
  }

  /** Enough digits make the order that of the numbers. */
  lemma EnoughDigits(s: seq<nat>, d: nat)
    requires forall x :: x in s ==> x < Pow10(d)
    ensures Ascending(PassedTimes(s, d)) && multiset(PassedTimes(s, d)) == multiset(s)
  {
    PassesOrdered(s, d);
    SmallOrdered(s, PassedTimes(s, d), Pow10(d));
  }

  lemma SmallOrdered(s: seq<nat>, t: seq<nat>, m: nat)
    requires m > 0 && OrderedMod(t, m) && multiset(t) == multiset(s)
    requires forall x :: x in s ==> x < m
    ensures Ascending(t)
  {
    forall i | 0 <= i < |t| ensures t[i] % m == t[i] {
      assert t[i] in multiset(t);
      assert t[i] in s;
      Small(t[i], m);
    }
  }

  /** `counter` says how many elements have each digit, then where the bucket of each digit ends. */
  ghost predicate CountedTo(counter: seq<nat>, s: seq<nat>, key: nat -> nat, i: nat)
    requires i <= |s|
  {
    |counter| == 10 && forall k: nat :: k < 10 ==> counter[k] == Before(s, key, i, k)
  }

  /** `counter` stands behind what is still to be placed of each bucket. */
  ghost predicate StandsAt(counter: seq<nat>, s: seq<nat>, key: nat -> nat, i: nat)
    requires i <= |s|
  {
    |counter| == 10 && forall k: nat :: k < 10 ==> counter[k] == Start(s, key, k) + Before(s, key, i, k)
  }

  method CountDigits(a: array<nat>, counter: array<nat>, radix: nat)
    requires radix > 0 && counter.Length == 10 && a != counter
    modifies counter
    ensures CountedTo(counter[..], a[..], DigitAt(radix), a.Length)
  {
    var j := 0;
    while j < 10
      invariant j <= 10 && forall k :: 0 <= k < j ==> counter[k] == 0
    {
      counter[j] := 0;
      j := j + 1;
    }
    var i := 0;
    assert a[..][..0] == [];
    while i != a.Length
      invariant i <= a.Length && CountedTo(counter[..], a[..], DigitAt(radix), i)
    {
      forall k: nat | k < 10
        ensures Before(a[..], DigitAt(radix), i + 1, k) ==
                Before(a[..], DigitAt(radix), i, k) + if DigitAt(radix)(a[i]) == k then 1 else 0
      {
        BeforeNext(a[..], DigitAt(radix), i, k);
      }
      var d := a[i] / radix % 10;
      counter[d] := counter[d] + 1;
      i := i + 1;
    }
  }

  method SumCounts(counter: array<nat>, ghost s: seq<nat>, ghost key: nat -> nat)
    requires CountedTo(counter[..], s, key, |s|)
    modifies counter
    ensures StandsAt(counter[..], s, key, |s|)
  {
    assert s[..|s|] == s && Buckets(s, key, 0) == [];
    var j := 1;
    while j < 10
      invariant 1 <= j <= 10
      invariant forall k: nat :: k < j ==> counter[k] == Start(s, key, k + 1)
      invariant forall k: nat :: j <= k < 10 ==> counter[k] == Before(s, key, |s|, k)
    {
      counter[j] := counter[j] + counter[j - 1];
      j := j + 1;
    }
  }

  /** From the back, each element goes to the last free place of its bucket. */
  method Scatter(a: array<nat>, counter: array<nat>, tmp: array<nat>, radix: nat)
    requires radix > 0 && StandsAt(counter[..], a[..], DigitAt(radix), a.Length)
    requires a != counter && a != tmp && counter != tmp && tmp.Length == a.Length
    modifies counter, tmp
    ensures tmp[..] == Passed(a[..], radix)
  {
    ghost var s, key := a[..], DigitAt(radix);
    BucketsFit(s, radix);
    var i := a.Length;
    while i != 0
      invariant 0 <= i <= a.Length && StandsAt(counter[..], s, key, i)
      invariant AllScattered(s, key, 10, i, tmp[..])
      decreases i
    {
      ScatterLast(a, counter, tmp, radix, i);
      i := i - 1;
    }
    ScatteredAll(s, key, 10, tmp[..]);
    assert tmp[..Start(s, key, 10)] == tmp[..];
  }

  lemma BucketsFit(s: seq<nat>, radix: nat)
    requires radix > 0
    ensures Start(s, DigitAt(radix), 10) == |s|
    ensures forall out: seq<nat> :: |out| == |s| ==> AllScattered(s, DigitAt(radix), 10, |s|, out)
  {
    var key := DigitAt(radix);
    DigitsBelowTen(s, radix);
    BucketsKeep(s, key, 10);
    SameLength(Passed(s, radix), s);
    assert s[..|s|] == s;
    forall k: nat | k < 10 ensures Start(s, key, k) + |Bucket(s, key, k)| <= |s| {
      StartsApart(s, key, k, 10);
    }
  }

  method ScatterLast(a: array<nat>, counter: array<nat>, tmp: array<nat>, radix: nat, i: nat)
    requires radix > 0 && 0 < i <= a.Length && StandsAt(counter[..], a[..], DigitAt(radix), i)
    requires a != counter && a != tmp && counter != tmp
    requires AllScattered(a[..], DigitAt(radix), 10, i, tmp[..])
    modifies counter, tmp
    ensures StandsAt(counter[..], a[..], DigitAt(radix), i - 1)
    ensures AllScattered(a[..], DigitAt(radix), 10, i - 1, tmp[..])
  {
    ghost var s, key, out := a[..], DigitAt(radix), tmp[..];
    var x: nat := a[i - 1];
    var d := x / radix % 10;
    forall k: nat | k < 10 ensures Before(s, key, i, k) == Before(s, key, i - 1, k) + if k == d then 1 else 0 {
      BeforeNext(s, key, i - 1, k);
    }
    ScatterNext(s, key, 10, i - 1, out);
    counter[d] := counter[d] - 1;
    tmp[counter[d]] := x;
    assert tmp[..] == out[Start(s, key, d) + Before(s, key, i - 1, d) := x];
  }

  method CopyBack(a: array<nat>, tmp: array<nat>)
    requires a != tmp && tmp.Length == a.Length
    modifies a
    ensures a[..] == tmp[..]
  {
    var i := 0;
    while i != a.Length
      invariant i <= a.Length && a[..i] == tmp[..i]
    {
      a[i] := tmp[i];
      i := i + 1;
    }
  }

  /** The number of digits of the longest element, and at least one. */
  method CountPasses(a: array<nat>) returns (d: nat)
    requires a.Length > 0
    ensures d >= 1 && forall x :: x in a[..] ==> x < Pow10(d)
    ensures d > 1 ==> exists x :: x in a[..] && Pow10(d - 1) <= x
  {
    var p := 10;
    d := 1;
    var i := 0;
    assert Pow10(1) == 10 by { assert Pow10(0) == 1; }
    while i != a.Length
      invariant i <= a.Length && d >= 1 && p == Pow10(d)
      invariant forall k :: 0 <= k < i ==> a[k] < Pow10(d)
      invariant d > 1 ==> exists x :: x in a[..] && Pow10(d - 1) <= x
    {
      while a[i] >= p
        invariant d >= 1 && p == Pow10(d)
        invariant forall k :: 0 <= k < i ==> a[k] < Pow10(d)
        invariant d > 1 ==> exists x :: x in a[..] && Pow10(d - 1) <= x
        decreases if p <= a[i] then a[i] - p + 1 else 0
      {
        assert a[i] in a[..] && Pow10(d) <= a[i];
        p := p * 10;
        d := d + 1;
      }
      i := i + 1;
    }
  }

  method Pass(a: array<nat>, counter: array<nat>, tmp: array<nat>, radix: nat)
    requires radix > 0 && counter.Length == 10 && tmp.Length == a.Length
    requires a != counter && a != tmp && counter != tmp
    modifies a, counter, tmp
    ensures a[..] == Passed(old(a[..]), radix)
  {
    CountDigits(a, counter, radix);
    SumCounts(counter, a[..], DigitAt(radix));
    Scatter(a, counter, tmp, radix);
    CopyBack(a, tmp);
  }

  /** After pass `i` the array is in the order of its last `i` digits; the last pass puts it in order. */
  method RadixSort(a: array<nat>)
    requires a.Length > 0
    modifies a
    ensures Ascending(a[..]) && multiset(a[..]) == multiset(old(a[..]))
  {
    var d := CountPasses(a);
    ghost var was := a[..];
    assert was == old(a[..]);
    EnoughDigits(was, d);
    var radix := 1;
    var counter := new nat[10];
    var tmp := new nat[a.Length];
    var i := 1;
    while i <= d
      invariant 1 <= i <= d + 1 && radix == Pow10(i - 1)
      invariant a[..] == PassedTimes(was, i - 1)
    {
      Pass(a, counter, tmp, radix);
      radix := radix * 10;
      i := i + 1;
    }
  }
}
