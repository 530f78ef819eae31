/** The ordered container of rbtree.h over the linked nodes of RBTreeNodes. */
module RBTrees {
  import opened Ordering
  import opened RBTreeShape
  import opened RBTreeNodes

  /** Searching down from the root has left every node of `Before(z)` and `After(z)` behind. */
  lemma {:induction false} LocateNode(t: Shape, n: RBTreeNode) returns (z: Context, l: Shape, c: Color, r: Shape)
    requires n in Nodes(t)
    ensures Plug(z, Node(l, n, c, r)) == t
  {
    if n == t.node {
      z, l, c, r := Top, t.left, t.color, t.right;
    } else if n in Nodes(t.left) {
      var z';
      z', l, c, r := LocateNode(t.left, n);
      z := Compose(InLeft(Top, t.node, t.color, t.right), z', Node(l, n, c, r));
    } else {
      var z';
      z', l, c, r := LocateNode(t.right, n);
      z := Compose(InRight(t.left, t.node, t.color, Top), z', Node(l, n, c, r));
    }
  }

  lemma {:induction false} Compose(outer: Context, inner: Context, t: Shape) returns (z: Context)
    ensures Plug(z, t) == Plug(outer, Plug(inner, t))
    decreases inner
  {
    match inner
    case Top => z := outer;
    case InLeft(up, n, c, r) =>
      var z' := Compose(outer, up, Node(t, n, c, r));
      z := InLeft(z', n, c, r);
    case InRight(l, n, c, up) =>
      var z' := Compose(outer, up, Node(l, n, c, t));
      z := InRight(l, n, c, z');
  }

  /** The node at an index of the in-order sequence, null past its end. */
  ghost function NodeAt(order: seq<RBTreeNode>, i: nat): RBTreeNode? {
    if i < |order| then order[i] else null
  }

  ghost function LastOf(s: seq<RBTreeNode>): RBTreeNode? {
    if s == [] then null else s[|s| - 1]
  }

  /** `RBTree<Key, KeyOfNode, Compare>`: `keyOf` is the KeyOfNode functor, `less` the comparison. */
  class RBTree<Key(!new)> {
    const keyOf: RBTreeNode -> Key
    const less: (Key, Key) -> bool
    var root: RBTreeNode?
    var length: nat
    ghost var shape: Shape
    ghost var nodes: set<RBTreeNode>

    constructor (keyOf: RBTreeNode -> Key, less: (Key, Key) -> bool)
      requires StrictWeak(less)
      ensures Valid() && shape == Leaf && this.keyOf == keyOf && this.less == less
    {
      this.keyOf, this.less := keyOf, less;
      root, length, shape, nodes := null, 0, Leaf, {};
    }

    /** The nodes in order. */
    ghost function Order(): seq<RBTreeNode>
      reads this
    {
      InOrder(shape)
    }

    ghost predicate Ordered(s: seq<RBTreeNode>) {
      forall i, j :: 0 <= i < j < |s| ==> !less(keyOf(s[j]), keyOf(s[i]))
    }

    /** Linked consistently, a red-black tree, and counted. */
    ghost predicate Shaped()
      reads this, nodes
    {
      && nodes == Nodes(shape) && Distinct(shape) && Spells(Snap(nodes), shape, null) && root == Root(shape)
      && RedBlack(shape) && length == |Order()|
    }

    /** Moreover ordered by key. */
    ghost predicate Valid()
      reads this, nodes
    {
      StrictWeak(less) && Shaped() && Ordered(Order())
    }

    /** All nodes before `i` satisfy `less(_, key)` and none from `i` on. */
    ghost predicate LowerSplit(key: Key, i: nat)
      reads this
    {
      && i <= |Order()|
      && (forall j :: 0 <= j < i ==> less(keyOf(Order()[j]), key))
      && (forall j :: i <= j < |Order()| ==> !less(keyOf(Order()[j]), key))
    }

    /** No node before `i` is greater than `key`, and all from `i` on are. */
    ghost predicate UpperSplit(key: Key, i: nat)
      reads this
    {
      && i <= |Order()|
      && (forall j :: 0 <= j < i ==> !less(key, keyOf(Order()[j])))
      && (forall j :: i <= j < |Order()| ==> less(key, keyOf(Order()[j])))
    }

    /** A step count that never exceeds twice the binary logarithm of the size plus one. */
    ghost predicate Logarithmic(steps: nat)
      reads this
    {
      Pow2((steps + 1) / 2) <= |Order()| + 1
    }

    /** Where `LowerBound`, `UpperBound` and the insertions go left. */
    ghost function LowerSide(key: Key): RBTreeNode -> bool {
      (n: RBTreeNode) => !less(keyOf(n), key)
    }

    ghost function UpperSide(key: Key): RBTreeNode -> bool {
      (n: RBTreeNode) => less(key, keyOf(n))
    }

    /** The nodes compared are those on the way from the root down to an empty child, and not many. */
    ghost predicate Descended(compared: seq<RBTreeNode>, goLeft: RBTreeNode -> bool)
      reads this
    {
      compared == Descent(shape, goLeft) && Logarithmic(|compared|)
    }

    lemma DescentLogarithmic(compared: seq<RBTreeNode>, goLeft: RBTreeNode -> bool)
      requires RedBlack(shape) && compared == Descent(shape, goLeft)
      ensures Descended(compared, goLeft)
    {
      DescentHeight(shape, goLeft);
      HeightBound(shape);
      Pow2Monotone((|compared| + 1) / 2, (Height(shape) + 1) / 2);
    }

    /** At a node, everything to its left is not greater and everything to its right not less. */
    lemma AroundNode(z: Context, t: Shape)
      requires Plug(z, t) == shape && t.Node? && Ordered(Order())
      ensures forall x :: x in InOrder(t.left) ==> !less(keyOf(t.node), keyOf(x))
      ensures forall x :: x in InOrder(t.right) ==> !less(keyOf(x), keyOf(t.node))
    {
      AtNode(z, t);
      var o, i := Order(), |Before(z) + InOrder(t.left)|;
      forall x | x in InOrder(t.left) ensures !less(keyOf(t.node), keyOf(x)) {
        assert x in o[..i];
      }
      forall x | x in InOrder(t.right) ensures !less(keyOf(x), keyOf(t.node)) {
        assert x in o[i + 1..];
      }
    }

    /** What `LowerBound` has left behind on either side. */
    ghost predicate LowerAround(z: Context, key: Key) {
      (forall x :: x in Before(z) ==> less(keyOf(x), key)) && (forall x :: x in After(z) ==> !less(keyOf(x), key))
    }

    lemma LowerStep(z: Context, t: Shape, key: Key)
      requires StrictWeak(less) && Plug(z, t) == shape && t.Node? && Ordered(Order()) && LowerAround(z, key)
      ensures if less(keyOf(t.node), key) then LowerAround(InRight(t.left, t.node, t.color, z), key)
              else LowerAround(InLeft(z, t.node, t.color, t.right), key)
    {
      AroundNode(z, t);
    }

    method LowerBound(key: Key) returns (found: RBTreeNode?, ghost i: nat, ghost compared: seq<RBTreeNode>)
      requires Valid()
      ensures LowerSplit(key, i) && found == NodeAt(Order(), i) && Descended(compared, LowerSide(key))
      ensures if found == null then forall x :: x in Order() ==> less(keyOf(x), key)
              else found in Order() && !less(keyOf(found), key)
    {
      found := null;
      var node := root;
      ghost var z, t, goLeft := Top, shape, LowerSide(key);
      compared := [];
      while node != null
        invariant Plug(z, t) == shape && node == Root(t) && compared + Descent(t, goLeft) == Descent(shape, goLeft)
        invariant Spells(Snap(nodes), t, ParentOf(z))
        invariant LowerAround(z, key)
        invariant found == NodeAt(After(z), 0)
        decreases t
      {
        LowerStep(z, t, key);
        DescentStep(compared, t, goLeft);
        compared := compared + [node];
        if !less(keyOf(node), key) {
          found := node;
          z, node := InLeft(z, t.node, t.color, t.right), node.left;
          t := t.left;
        } else {
          z, node := InRight(t.left, t.node, t.color, z), node.right;
          t := t.right;
        }
      }
      i := |Before(z)|;
      LowerFound(z, key);
      DescentLogarithmic(compared, goLeft);
    }

    /** Where the descent of `LowerBound` ends. */
    lemma LowerFound(z: Context, key: Key)
      requires Plug(z, Leaf) == shape && LowerAround(z, key)
      ensures LowerSplit(key, |Before(z)|) && NodeAt(Order(), |Before(z)|) == NodeAt(After(z), 0)
      ensures After(z) == [] ==> forall x :: x in Order() ==> less(keyOf(x), key)
      ensures After(z) != [] ==> After(z)[0] in Order()
    {
      PlugInOrder(z, Leaf);
      assert Order() == Before(z) + After(z);
    }

    method Find(key: Key) returns (node: RBTreeNode?, ghost i: nat, ghost compared: seq<RBTreeNode>)
      requires Valid()
      ensures LowerSplit(key, i) && Descended(compared, LowerSide(key))
      ensures node != null ==> i < |Order()| && node == Order()[i] && !less(key, keyOf(node))
      ensures node == null ==> forall x :: x in Order() ==> less(keyOf(x), key) || less(key, keyOf(x))
    {
      var found;
      found, i, compared := LowerBound(key);
      if found == null {
        return null, i, compared;
      }
      assert forall j :: i <= j < |Order()| ==> !less(keyOf(Order()[j]), keyOf(found)) || j == i;
      node := if !less(key, keyOf(found)) then found else null;
    }

    method UpperBound(key: Key) returns (found: RBTreeNode?, ghost i: nat, ghost compared: seq<RBTreeNode>)
      requires Valid()
      ensures UpperSplit(key, i) && Descended(compared, UpperSide(key))
      ensures found == if i == 0 then null else NodeAt(Order(), i)
      ensures if found == null
              then (forall x :: x in Order() ==> less(key, keyOf(x))) || (forall x :: x in Order() ==>
                  !less(key, keyOf(x)))
              else found in Order() && less(key, keyOf(found))
    {
      ghost var z, t;
      found, i, z, t, compared := LastNotGreater(key);
      if found != null && !less(key, keyOf(found)) {
        found := NextOf(found, z, t);
      }
    }

    /** What `UpperBound` and the insertions have left behind on either side. */
    ghost predicate UpperAround(z: Context, key: Key) {
      (forall x :: x in Before(z) ==> !less(key, keyOf(x))) && (forall x :: x in After(z) ==> less(key, keyOf(x)))
    }

    lemma UpperStep(z: Context, t: Shape, key: Key)
      requires StrictWeak(less) && Plug(z, t) == shape && t.Node? && Ordered(Order()) && UpperAround(z, key)
      ensures if less(key, keyOf(t.node)) then UpperAround(InLeft(z, t.node, t.color, t.right), key)
              else UpperAround(InRight(t.left, t.node, t.color, z), key)
    {
      AroundNode(z, t);
    }

    /** Lines 228-241, the descent of `UpperBound`: the last node that is not greater than `key`. */
    method LastNotGreater(key: Key)
      returns (found: RBTreeNode?, ghost i: nat, ghost z': Context, ghost t': Shape, ghost compared: seq<RBTreeNode>)
      requires Valid()
      ensures Valid() && UpperSplit(key, i) && Descended(compared, UpperSide(key))
      ensures found == null ==> i == 0
      ensures found != null ==> Plug(z', t') == shape && Root(t') == found && |Before(z') + InOrder(t'.left)| + 1 == i
      ensures found != null ==> !less(key, keyOf(found))
    {
      found := null;
      var node := root;
      ghost var z, t, goLeft := Top, shape, UpperSide(key);
      z', t', compared := Top, shape, [];
      while node != null
        invariant Plug(z, t) == shape && node == Root(t) && compared + Descent(t, goLeft) == Descent(shape, goLeft)
        invariant Spells(Snap(nodes), t, ParentOf(z))
        invariant UpperAround(z, key)
        invariant found == null ==> Before(z) == []
        invariant found != null ==> Plug(z', t') == shape && Root(t') == found && !less(key, keyOf(found))
        invariant found != null ==> |Before(z)| == |Before(z') + InOrder(t'.left)| + 1
        decreases t
      {
        UpperStep(z, t, key);
        DescentStep(compared, t, goLeft);
        compared := compared + [node];
        if less(key, keyOf(node)) {
          z, node := InLeft(z, t.node, t.color, t.right), node.left;
          t := t.left;
        } else {
          found, z', t' := node, z, t;
          z, node := InRight(t.left, t.node, t.color, z), node.right;
          t := t.right;
        }
      }
      i := |Before(z)|;
      UpperFound(z, key);
      DescentLogarithmic(compared, goLeft);
    }

    /** Where the descent of `UpperBound` ends. */
    lemma UpperFound(z: Context, key: Key)
      requires Plug(z, Leaf) == shape && UpperAround(z, key)
      ensures UpperSplit(key, |Before(z)|)
    {
      PlugInOrder(z, Leaf);
      assert Order() == Before(z) + After(z);
    }

    /** `node->Next()` for a node of this tree. */
    method NextOf(node: RBTreeNode, ghost z: Context, ghost t: Shape) returns (next: RBTreeNode?)
      requires Shaped() && Plug(z, t) == shape && Root(t) == node
      ensures next == NodeAt(Order(), |Before(z) + InOrder(t.left)| + 1)
    {
      FocusOn(z, t);
      next := node.Next(nodes, z, t.left, t.color, t.right);
      AtNode(z, t);
      ghost var i := |Before(z) + InOrder(t.left)|;
      assert i + 1 < |Order()| ==> Order()[i + 1..][0] == Order()[i + 1];
    }

    lemma FocusOn(z: Context, t: Shape)
      requires Shaped() && Plug(z, t) == shape
      ensures Focused(Snap(nodes), z, t, root) && nodes == Nodes(t) + PathNodes(z)
    {
      UnplugSpells(Snap(nodes), z, t);
      PlugNodes(z, t);
    }

    method Begin() returns (node: RBTreeNode?)
      requires Valid()
      ensures Valid() && node == NodeAt(Order(), 0)
    {
      if root == null {
        return null;
      }
      node := RBTreeNode.Leftmost(root, nodes, shape, null);
      assert node == Order()[..1][0];
    }

    method RBegin() returns (node: RBTreeNode?)
      requires Valid()
      ensures Valid() && node == LastOf(Order())
    {
      if root == null {
        return null;
      }
      node := RBTreeNode.Rightmost(root, nodes, shape, null);
    }

    /** `node` sits at index `i`, after every node whose key is not greater than its own. */
    ghost predicate PlacedIn(before: seq<RBTreeNode>, node: RBTreeNode, i: nat)
      reads this
    {
      && i <= |before|
      && Order() == before[..i] + [node] + before[i..]
      && (forall j :: 0 <= j < i ==> !less(keyOf(node), keyOf(before[j])))
      && (forall j :: i <= j < |before| ==> less(keyOf(node), keyOf(before[j])))
    }

    ghost predicate HasEqual(s: seq<RBTreeNode>, node: RBTreeNode) {
      exists j :: 0 <= j < |s| && !less(keyOf(node), keyOf(s[j])) && !less(keyOf(s[j]), keyOf(node))
    }

    method Insert(node: RBTreeNode) returns (inserted: bool, ghost i: nat, ghost compared: seq<RBTreeNode>)
      requires Valid() && node !in nodes
      modifies this, nodes, node
      ensures Valid() && compared == Descent(old(shape), UpperSide(keyOf(node))) && old(Logarithmic(|compared|))
      ensures inserted <==> !HasEqual(old(Order()), node)
      ensures inserted ==> PlacedIn(old(Order()), node, i) && length == old(length) + 1 && nodes == old(nodes) + {node}
      ensures !inserted ==> root == old(root) && length == old(length) && shape == old(shape) && nodes == old(nodes)
      ensures !inserted ==> Snap(nodes + {node}) == old(Snap(nodes + {node}))
    {
      var parent, link, checkNode;
      ghost var z;
      parent, link, checkNode, z, compared := FindLink(node);
      i := |Before(z)|;
      DescentSplits(z, node);
      if checkNode != null && !less(keyOf(checkNode), keyOf(node)) {
        return false, i, compared;
      }
      OrderedInsert(Before(z), node, After(z));
      LinkIn(node, parent, link, z);
      assert old(Order())[..i] == Before(z) && old(Order())[i..] == After(z);
      inserted := true;
    }

    method InsertEqual(node: RBTreeNode) returns (ghost i: nat, ghost compared: seq<RBTreeNode>)
      requires Valid() && node !in nodes
      modifies this, nodes, node
      ensures Valid() && compared == Descent(old(shape), UpperSide(keyOf(node))) && old(Logarithmic(|compared|))
      ensures PlacedIn(old(Order()), node, i) && length == old(length) + 1 && nodes == old(nodes) + {node}
    {
      var parent, link, last;
      ghost var z;
      parent, link, last, z, compared := FindLink(node);
      i := |Before(z)|;
      DescentSplits(z, node);
      OrderedInsert(Before(z), node, After(z));
      LinkIn(node, parent, link, z);
      assert old(Order())[..i] == Before(z) && old(Order())[i..] == After(z);
    }

    /** Lines 249-264 and 276-290: the descent shared by both insertions, down to an empty child pointer. */
    method FindLink(node: RBTreeNode)
      returns (parent: RBTreeNode?, link: Link, checkNode: RBTreeNode?, ghost z: Context,
               ghost compared: seq<RBTreeNode>)
      requires Valid()
      ensures Valid() && Descended(compared, UpperSide(keyOf(node)))
      ensures Plug(z, Leaf) == shape && parent == ParentOf(z) && link == LinkOf(z)
      ensures UpperAround(z, keyOf(node))
      ensures checkNode == LastOf(Before(z))
    {
      parent, link, checkNode := null, RootLink, null;
      var next := root;
      ghost var t := shape;
      z, compared := Top, [];
      ghost var goLeft := UpperSide(keyOf(node));
      while next != null
        invariant Plug(z, t) == shape && next == Root(t) && compared + Descent(t, goLeft) == Descent(shape, goLeft)
        invariant Spells(Snap(nodes), t, ParentOf(z))
        invariant parent == ParentOf(z) && link == LinkOf(z)
        invariant UpperAround(z, keyOf(node))
        invariant checkNode == LastOf(Before(z))
        decreases t
      {
        UpperStep(z, t, keyOf(node));
        DescentStep(compared, t, goLeft);
        parent, compared := next, compared + [next];
        if less(keyOf(node), keyOf(parent)) {
          link, next := LeftLink, parent.left;
          z := InLeft(z, t.node, t.color, t.right);
          t := t.left;
        } else {
          link, next, checkNode := RightLink, parent.right, parent;
          z := InRight(t.left, t.node, t.color, z);
          t := t.right;
        }
      }
      DescentLogarithmic(compared, goLeft);
    }

    /** An equal key exists exactly when the predecessor of the new place has it. */
    lemma DescentSplits(z: Context, node: RBTreeNode)
      requires StrictWeak(less) && Ordered(Order()) && Plug(z, Leaf) == shape && UpperAround(z, keyOf(node))
      ensures Order() == Before(z) + After(z)
      ensures HasEqual(Order(), node) <==> Before(z) != [] && !less(keyOf(Before(z)[|Before(z)| - 1]), keyOf(node))
    {
      PlugInOrder(z, Leaf);
      assert Order() == Before(z) + After(z);
      var b := |Before(z)|;
      if b > 0 && !less(keyOf(Before(z)[b - 1]), keyOf(node)) {
        assert Order()[b - 1] == Before(z)[b - 1];
      }
      if j :| 0 <= j < |Order()| && !less(keyOf(node), keyOf(Order()[j])) && !less(keyOf(Order()[j]), keyOf(node)) {
        assert j < b;
        assert Order()[b - 1] == Before(z)[b - 1];
        assert j < b - 1 ==> !less(keyOf(Order()[b - 1]), keyOf(Order()[j]));
      }
    }

    /** Lines 270-271 and 291-292: `node->Insert(parent, link, &root_); ++length_`. */
    method LinkIn(node: RBTreeNode, parent: RBTreeNode?, link: Link, ghost z: Context)
      requires Shaped() && node !in nodes
      requires Plug(z, Leaf) == shape && parent == ParentOf(z) && link == LinkOf(z)
      modifies this, nodes, node
      ensures Shaped() && Order() == Before(z) + [node] + After(z)
      ensures length == old(length) + 1 && nodes == old(nodes) + {node}
    {
      ReadyToLink(z);
      ghost var t, nodes' := Leaf, PathNodes(z) + {node};
      assert nodes' == nodes + {node};
      var newRoot;
      newRoot, t := node.Insert(parent, link, root, z);
      NodesInOrder(t);
      assert nodes' == Nodes(t);
      Install(newRoot, length + 1, t, nodes');
    }

    method Install(root: RBTreeNode?, length: nat, ghost shape: Shape, ghost nodes: set<RBTreeNode>)
      requires nodes == Nodes(shape) && Distinct(shape) && Spells(Snap(nodes), shape, null) && root == Root(shape)
      requires RedBlack(shape) && length == |InOrder(shape)|
      modifies this
      ensures Shaped() && this.length == length && this.shape == shape && this.nodes == nodes
    {
      this.root, this.length, this.shape, this.nodes := root, length, shape, nodes;
    }

    lemma ReadyToLink(z: Context)
      requires Shaped() && Plug(z, Leaf) == shape
      ensures nodes == PathNodes(z) && DistinctPath(z) && SpellsPath(Snap(nodes), z, null) && Fits(z, 0)
      ensures root == RootOf(z, null)
      ensures Order() == Before(z) + After(z)
      ensures nodes == set n | n in Before(z) + After(z)
    {
      FocusOn(z, Leaf);
      UnplugRedBlack(z, Leaf);
      PlugInOrder(z, Leaf);
      assert Order() == Before(z) + After(z);
      NodesInOrder(shape);
    }

    lemma OrderedInsert(a: seq<RBTreeNode>, n: RBTreeNode, b: seq<RBTreeNode>)
      requires StrictWeak(less) && Ordered(a + b)
      requires forall x :: x in a ==> !less(keyOf(n), keyOf(x))
      requires forall x :: x in b ==> less(keyOf(n), keyOf(x))
      ensures Ordered(a + [n] + b)
    {
      var s, t := a + b, a + [n] + b;
      forall i, j | 0 <= i < j < |t| ensures !less(keyOf(t[j]), keyOf(t[i])) {
        var i', j' := if i < |a| then i else i - 1, if j < |a| then j else j - 1;
        assert i != |a| ==> t[i] == s[i'];
        assert j != |a| ==> t[j] == s[j'];
      }
    }

    /** `RBTree::Erase(node)` for a node with at most one child: exactly that node leaves the sequence. */
    method Erase(node: RBTreeNode) returns (next: RBTreeNode?, ghost i: nat)
      requires Valid() && node in nodes && (node.left == null || node.right == null)
      modifies this, nodes
      ensures Valid() && length == old(length) - 1 && nodes == old(nodes) - {node}
      ensures i < |old(Order())| && old(Order())[i] == node && Order() == old(Order())[..i] + old(Order())[i + 1..]
      ensures next == NodeAt(Order(), i)
    {
      ghost var z, l, c, r := LocateNode(shape, node);
      Children(z, l, node, c, r);
      i := |Before(z) + InOrder(l)|;
      ghost var t := Node(l, node, c, r);
      Removal(z, t, i);
      next := NextOf(node, z, t);
      assert Shaped();
      LinkOut(node, z, l, c, r);
    }

    lemma Children(z: Context, l: Shape, node: RBTreeNode, c: Color, r: Shape)
      requires Shaped() && Plug(z, Node(l, node, c, r)) == shape
      ensures node.left == Root(l) && node.right == Root(r)
    {
      FocusOn(z, Node(l, node, c, r));
    }

    /** Lines 314-315: `node->Erase(&root_); --length_`. */
    method LinkOut(node: RBTreeNode, ghost z: Context, ghost l: Shape, ghost c: Color, ghost r: Shape)
      requires Shaped() && Plug(z, Node(l, node, c, r)) == shape && (l.Leaf? || r.Leaf?)
      modifies this, nodes
      ensures Shaped() && length == old(length) - 1 && nodes == old(nodes) - {node}
      ensures Order() == Before(z) + (InOrder(l) + InOrder(r)) + After(z)
    {
      FocusOn(z, Node(l, node, c, r));
      PlugInOrder(z, Node(l, node, c, r));
      var newRoot;
      ghost var t;
      newRoot, t := node.Erase(root, nodes, z, l, c, r);
      Install(newRoot, length - 1, t, nodes - {node});
    }

    lemma Removal(z: Context, t: Shape, i: nat)
      requires Plug(z, t) == shape && t.Node? && i == |Before(z) + InOrder(t.left)| && Ordered(Order())
      ensures i < |Order()| && Order()[i] == t.node
      ensures var rest := Before(z) + (InOrder(t.left) + InOrder(t.right)) + After(z);
        rest == Order()[..i] + Order()[i + 1..] && |rest| == |Order()| - 1 && Ordered(rest)
    {
      AtNode(z, t);
      Regroup(Before(z), InOrder(t.left), InOrder(t.right), After(z));
      OrderedWithout(Order(), i);
    }

    lemma OrderedWithout(s: seq<RBTreeNode>, i: nat)
      requires Ordered(s) && i < |s|
      ensures Ordered(s[..i] + s[i + 1..])
    {
      var rest := s[..i] + s[i + 1..];
      assert forall j :: 0 <= j < |rest| ==> rest[j] == s[if j < i then j else j + 1];
    }

    /** The iteration `for (node = Begin(); node != End(); node = node->Next())` visits the nodes in order. */
    method Walk() returns (visited: seq<RBTreeNode>)
      requires Valid()
      ensures visited == Order()
    {
      visited := [];
      var node := Begin();
      while node != null
        invariant visited <= Order() && node == NodeAt(Order(), |visited|)
        decreases |Order()| - |visited|
      {
        ghost var z, t := Position(|visited|);
        visited := visited + [node];
        node := NextOf(node, z, t);
      }
    }

    /** The position in the tree of the i-th node in order. */
    lemma Position(i: nat) returns (z: Context, t: Shape)
      requires i < |Order()| && Distinct(shape)
      ensures Plug(z, t) == shape && Root(t) == Order()[i] && |Before(z) + InOrder(t.left)| == i
    {
      NodesInOrder(shape);
      var l, c, r;
      z, l, c, r := LocateNode(shape, Order()[i]);
      t := Node(l, Order()[i], c, r);
      PlugInOrder(z, t);
      DistinctOrder(shape, i, |Before(z) + InOrder(l)|);
    }
  }

  /** A tree with one node, whose key is greater than the one looked for: `UpperBound` finds nothing. */
  method UpperBoundMisses() returns (tree: RBTree<int>, node: RBTreeNode, found: RBTreeNode?)
    ensures fresh(tree) && tree.Valid() && tree.Order() == [node] && tree.less(3, tree.keyOf(node)) && found == null
  {
    tree := new RBTree((n: RBTreeNode) => 5, (a: int, b: int) => a < b);
    node := new RBTreeNode();
    ghost var at, path := tree.InsertEqual(node);
    assert tree.Order() == [node];
    found, at, path := tree.UpperBound(3);
    assert !tree.less(tree.keyOf(node), 3) && tree.less(3, tree.keyOf(node));
  }
}
