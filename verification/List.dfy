/** The intrusive circular doubly linked list of list.h and list.cpp. */
module IntrusiveLists {
  import opened Options
  import opened Sequences

  class ListNode {
    var prev: ListNode
    var next: ListNode

    constructor ()
      ensures prev == this && next == this
    {
      prev, next := this, this;
    }

    predicate IsLinked()
      reads this
    {
      next != this
    }

    /** Places this node between two others, which are one and the same when the list is empty. */
    method Insert(prev: ListNode, next: ListNode)
      modifies this, prev`next, next`prev
      ensures next.prev == this && prev.next == this
      ensures this != prev && this != next ==> this.prev == prev && this.next == next
    {
      this.prev := prev;
      this.next := next;
      next.prev := this;
      prev.next := this;
    }

    /** Joins the neighbours and leaves this node on its own. */
    method Erase() returns (after: ListNode)
      modifies this, prev`next, next`prev
      ensures prev == this && next == this && after == old(next)
      ensures old(next) != this && old(prev) != this ==>
                old(next).prev == old(prev) && old(prev).next == old(next)
    {
      after := next;
      next.prev := prev;
      prev.next := next;
      prev := this;
      next := this;
    }
  }

  /** The node met after `k` steps from the head, which comes round again after the last one. */
  ghost function Nth(head: ListNode, items: seq<ListNode>, k: nat): ListNode
    requires k <= |items| + 1
  {
    if k == 0 || k == |items| + 1 then head else items[k - 1]
  }

  ghost predicate Joined(head: ListNode, items: seq<ListNode>, k: nat)
    requires k <= |items|
    reads head, items
  {
    Nth(head, items, k).next == Nth(head, items, k + 1) && Nth(head, items, k + 1).prev == Nth(head, items, k)
  }

  function Inserted<T>(s: seq<T>, i: nat, x: T): seq<T>
    requires i <= |s|
  {
    s[..i] + [x] + s[i..]
  }

  function Removed<T>(s: seq<T>, i: nat): seq<T>
    requires i < |s|
  {
    s[..i] + s[i + 1..]
  }

  class List {
    const head: ListNode
    ghost var items: seq<ListNode>

    ghost predicate Valid()
      reads this, head, items
    {
      && head !in items
      && Distinct(items)
      && forall k: nat :: k <= |items| ==> Joined(head, items, k)
    }

    ghost function At(k: nat): ListNode
      requires k <= |items| + 1
      reads this
    {
      Nth(head, items, k)
    }

    constructor ()
      ensures Valid() && items == [] && fresh(head)
    {
      head := new ListNode();
      items := [];
    }

    method InsertAt(node: ListNode, ghost i: nat, prev: ListNode, next: ListNode)
      requires Valid() && i <= |items| && node !in items && node != head
      requires prev == At(i) && next == At(i + 1)
      modifies `items, node, prev`next, next`prev
      ensures Valid() && items == Inserted(old(items), i, node)
    {
      ghost var was := items;
      assert Joined(head, was, i);
      node.Insert(prev, next);
      items := Inserted(items, i, node);
      forall k: nat | k <= |items| ensures Joined(head, items, k) {
        if k < i {
          assert old(Joined(head, was, k));
        } else if k > i + 1 {
          assert old(Joined(head, was, k - 1));
        }
      }
    }

    method EraseAt(node: ListNode, ghost i: nat) returns (after: ListNode)
      requires Valid() && i < |items| && node == items[i]
      modifies `items, node, node.prev`next, node.next`prev
      ensures Valid() && items == Removed(old(items), i)
      ensures after == At(i + 1) && !node.IsLinked() && node.prev == node
    {
      ghost var was := items;
      assert Joined(head, was, i) && Joined(head, was, i + 1);
      after := node.Erase();
      items := Removed(items, i);
      forall k: nat | k <= |items| ensures Joined(head, items, k) {
        if k < i {
          assert old(Joined(head, was, k));
        } else if k > i {
          assert old(Joined(head, was, k + 1));
        }
      }
    }

    predicate Empty()
      requires Valid()
      reads this, head, items
      ensures Empty() <==> items == []
    {
      assert Joined(head, items, 0);
      head.next == head
    }

    method PushFront(node: ListNode)
      requires Valid() && node !in items && node != head
      modifies `items, head, node, items
      ensures Valid() && items == [node] + old(items)
    {
      assert Joined(head, items, 0);
      InsertAt(node, 0, head, head.next);
    }

    method PushBack(node: ListNode)
      requires Valid() && node !in items && node != head
      modifies `items, head, node, items
      ensures Valid() && items == old(items) + [node]
    {
      assert Joined(head, items, |items|);
      InsertAt(node, |items|, head.prev, head);
    }

    /** Takes any node out and returns the one after it, which is the head after the last. */
    method Erase(node: ListNode, ghost i: nat) returns (after: ListNode)
      requires Valid() && i < |items| && items[i] == node
      modifies `items, head, items
      ensures Valid() && items == Removed(old(items), i) == Without(old(items), node)
      ensures after == (if i < |items| then items[i] else head)
      ensures after == match old(After(items, node)) case None => head case Some(n) => n
      ensures node !in items && !node.IsLinked()
    {
      assert Joined(head, items, i) && Joined(head, items, i + 1);
      WithoutAt(items, i);
      after := EraseAt(node, i);
    }

    method PopFront() returns (node: ListNode?)
      requires Valid()
      modifies `items, head, items
      ensures Valid()
      ensures if old(items) == [] then node == null && items == []
              else node == old(items)[0] && items == old(items)[1..] && !node.IsLinked()
    {
      assert Joined(head, items, 0);
      if head.next == head { return null; }
      node := head.next;
      var _ := Erase(node, 0);
    }

    method PopBack() returns (node: ListNode?)
      requires Valid()
      modifies `items, head, items
      ensures Valid()
      ensures if old(items) == [] then node == null && items == []
              else node == old(items)[|old(items)| - 1] && items == old(items)[..|old(items)| - 1] && !node.IsLinked()
    {
      assert Joined(head, items, |items|);
      if head.prev == head { return null; }
      node := head.prev;
      var _ := Erase(node, |items| - 1);
    }

    method Clear()
      requires Valid()
      modifies `items, head, items
      ensures Valid() && items == [] && forall n :: n in old(items) ==> !n.IsLinked()
    {
      ghost var k := 0;
      while head.next != head
        invariant Valid() && k <= |old(items)| && items == old(items)[k..]
        invariant forall j :: 0 <= j < k ==> !old(items)[j].IsLinked()
        decreases |items|
      {
        assert Joined(head, items, 0);
        var _ := Erase(head.next, 0);
        k := k + 1;
      }
      assert Joined(head, items, 0);
    }

    /** A node points to the one after it, the last one to the head. */
    lemma NextItem(node: ListNode)
      requires Valid() && node in items
      ensures node.next == match After(items, node) case None => head case Some(n) => n
    {
      var i :| 0 <= i < |items| && items[i] == node;
      WithoutAt(items, i);
      assert Joined(head, items, i + 1);
    }

    /** When the nodes carry elements, which are kept as a sequence, stepping on and erasing are `After` and `Without`
        on that sequence, pushing and popping the same at its ends. */
    lemma Carried<T>(elements: seq<T>, link: T -> ListNode, x: T)
      requires Valid() && items == Mapped(elements, link)
      ensures x in elements ==>
        && link(x).next == (match After(elements, x) case None => head case Some(y) => link(y))
        && Without(items, link(x)) == Mapped(Without(elements, x), link)
      ensures items + [link(x)] == Mapped(elements + [x], link)
      ensures elements != [] ==> items[0] == link(elements[0]) && items[1..] == Mapped(elements[1..], link)
    {
      MappedEnds(elements, link, x);
      if x in elements {
        var j :| 0 <= j < |elements| && elements[j] == x;
        assert forall i :: 0 <= i < |elements| && link(elements[i]) == link(x) ==> items[i] == items[j];
        MappedWithout(elements, link, x);
        assert items[j] == link(x);
        NextItem(link(x));
      }
    }

    /** Nodes of the list are linked, so that `IsLinked` tells whether a node is in a list. */
    lemma LinkedWhileListed(i: nat)
      requires Valid() && i < |items|
      ensures items[i].IsLinked()
    {
      assert Joined(head, items, i + 1);
    }

    ghost function Forward(n: ListNode, k: nat): ListNode
      reads this, head, items
    {
      if k == 0 || (n != head && n !in items) then n else Forward(n.next, k - 1)
    }

    ghost function Backward(n: ListNode, k: nat): ListNode
      reads this, head, items
    {
      if k == 0 || (n != head && n !in items) then n else Backward(n.prev, k - 1)
    }

    /** Stepping forward from any place of the list, and backward from it, meets the items in order and comes
        round to the head. */
    lemma {:induction false} Steps(i: nat, k: nat)
      requires Valid() && i <= |items| + 1
      ensures i + k <= |items| + 1 ==> Forward(At(i), k) == At(i + k)
      ensures k <= i ==> Backward(At(i), k) == At(i - k)
      decreases k
    {
      if k > 0 {
        if i <= |items| {
          assert Joined(head, items, i);
          Steps(i + 1, k - 1);
        }
        if i > 0 {
          assert Joined(head, items, i - 1);
          Steps(i - 1, k - 1);
        }
      }
    }
  }
}
