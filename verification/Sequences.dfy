/** Lists that their elements leave. */
module Sequences {
  import opened Options

  /** A list without an element: an intrusive list whose node unlinks itself. */
  function Without<T(==)>(list: seq<T>, x: T): seq<T> {
    if list == [] then []
    else if list[0] == x then Without(list[1..], x)
    else [list[0]] + Without(list[1..], x)
  }

  /** The element after another one: where the node of that one points to. */
  function After<T(==)>(list: seq<T>, x: T): Option<T> {
    if list == [] then None
    else if list[0] == x then (if |list| > 1 then Some(list[1]) else None)
    else After(list[1..], x)
  }

  ghost predicate Distinct<T>(s: seq<T>) {
    forall i, j :: 0 <= i < j < |s| ==> s[i] != s[j]
  }

  lemma DistinctTail<T>(s: seq<T>)
    requires Distinct(s) && s != []
    ensures Distinct(s[1..]) && s[0] !in s[1..]
  {
    assert forall i :: 0 <= i < |s[1..]| ==> s[1..][i] == s[i + 1];
  }

  lemma {:induction false} WithoutAbsent<T>(s: seq<T>, x: T)
    requires x !in s
    ensures Without(s, x) == s
  {
    if s != [] {
      WithoutAbsent(s[1..], x);
      assert s == [s[0]] + s[1..];
    }
  }

  /** Of elements that occur once, the one at index i is cut out, and the one after it follows it. */
  lemma {:induction false} WithoutAt<T>(s: seq<T>, i: nat)
    requires Distinct(s) && i < |s|
    ensures Without(s, s[i]) == s[..i] + s[i + 1..]
    ensures After(s, s[i]) == if i + 1 < |s| then Some(s[i + 1]) else None
  {
    DistinctTail(s);
    if i == 0 {
      WithoutAbsent(s[1..], s[0]);
    } else {
      WithoutAt(s[1..], i - 1);
      assert s[..i] + s[i + 1..] == [s[0]] + (s[1..][..i - 1] + s[1..][i..]);
    }
  }

  /** The nodes that carry the elements of a list. */
  function Mapped<A, B>(s: seq<A>, node: A -> B): (t: seq<B>)
    ensures |t| == |s| && forall i :: 0 <= i < |s| ==> t[i] == node(s[i])
  {
    if s == [] then [] else [node(s[0])] + Mapped(s[1..], node)
  }

  /** What happens to the elements happens to the nodes that carry them, when no other element has the node of `x`. */
  lemma {:induction false} MappedWithout<A, B>(s: seq<A>, node: A -> B, x: A)
    requires forall i :: 0 <= i < |s| && node(s[i]) == node(x) ==> s[i] == x
    ensures Mapped(Without(s, x), node) == Without(Mapped(s, node), node(x))
    ensures After(Mapped(s, node), node(x)) == match After(s, x) case None => None case Some(y) => Some(node(y))
  {
    if s != [] {
      assert forall i :: 0 <= i < |s[1..]| ==> s[1..][i] == s[i + 1];
      MappedWithout(s[1..], node, x);
    }
  }

  lemma MappedEnds<A, B>(s: seq<A>, node: A -> B, x: A)
    ensures Mapped(s + [x], node) == Mapped(s, node) + [node(x)]
    ensures s != [] ==> Mapped(s[1..], node) == Mapped(s, node)[1..]
  {
    var t := s + [x];
    assert forall i :: 0 <= i < |t| ==> Mapped(t, node)[i] == (Mapped(s, node) + [node(x)])[i];
  }

  /** Somewhere in the list `x` comes before `y`. */
  ghost predicate Before<T>(list: seq<T>, x: T, y: T) {
    exists i, j :: 0 <= i < j < |list| && list[i] == x && list[j] == y
  }

  lemma BeforeAppend<T>(list: seq<T>, more: seq<T>, x: T, y: T)
    requires Before(list, x, y)
    ensures Before(list + more, x, y)
  {
    var i, j :| 0 <= i < j < |list| && list[i] == x && list[j] == y;
    assert (list + more)[i] == x && (list + more)[j] == y;
  }

  lemma BeforePrepend<T>(more: seq<T>, list: seq<T>, x: T, y: T)
    requires Before(list, x, y)
    ensures Before(more + list, x, y)
  {
    var i, j :| 0 <= i < j < |list| && list[i] == x && list[j] == y;
    assert (more + list)[|more| + i] == x && (more + list)[|more| + j] == y;
  }

  lemma BeforeLast<T>(list: seq<T>, x: T, y: T)
    requires x in list
    ensures Before(list + [y], x, y)
  {
    var i :| 0 <= i < |list| && list[i] == x;
    assert (list + [y])[i] == x && (list + [y])[|list|] == y;
  }

  /** One element more in front. */
  lemma BeforeTail<T>(list: seq<T>, x: T, y: T)
    requires list != []
    ensures Before(list, x, y) <==> (x == list[0] && y in list[1..]) || Before(list[1..], x, y)
  {
    var rest := list[1..];
    if Before(list, x, y) {
      var i, j :| 0 <= i < j < |list| && list[i] == x && list[j] == y;
      assert rest[j - 1] == y;
      if 0 < i { assert rest[i - 1] == x; }
    }
    if x == list[0] && y in rest {
      var j :| 0 <= j < |rest| && rest[j] == y;
      assert list[0] == x && list[j + 1] == y;
    }
    if Before(rest, x, y) {
      var i, j :| 0 <= i < j < |rest| && rest[i] == x && rest[j] == y;
      assert list[i + 1] == x && list[j + 1] == y;
    }
  }

  lemma BeforeAppended<T>(list: seq<T>, z: T, x: T, y: T)
    requires Before(list + [z], x, y)
    ensures Before(list, x, y) || (x in list && y == z)
  {
    var i, j :| 0 <= i < j < |list + [z]| && (list + [z])[i] == x && (list + [z])[j] == y;
    assert list[i] == x;
    assert j < |list| ==> list[j] == y;
  }

  /** Taking out another element changes nothing. */
  lemma {:induction false} BeforeWithout<T>(list: seq<T>, n: T, x: T, y: T)
    requires Before(list, x, y) && n != x && n != y
    ensures Before(Without(list, n), x, y)
  {
    BeforeTail(list, x, y);
    var rest := Without(list[1..], n);
    if Before(list[1..], x, y) {
      BeforeWithout(list[1..], n, x, y);
    } else {
      WithoutOthers(list[1..], n, y);
    }
    if list[0] != n {
      assert ([list[0]] + rest)[1..] == rest;
      BeforeTail([list[0]] + rest, x, y);
    }
  }

  lemma {:induction false} WithoutOthers<T>(list: seq<T>, n: T, x: T)
    requires x != n
    ensures x in Without(list, n) <==> x in list
  {
    if list != [] {
      WithoutOthers(list[1..], n, x);
      assert list == [list[0]] + list[1..];
    }
  }
}
