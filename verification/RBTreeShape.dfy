/** Colored binary trees and one-hole contexts, the abstract values behind the linked red-black tree of
    rbtree.cpp. `Tree` is a (sub)tree; `Path` is everything around one position of a tree, innermost
    step first, so that climbing from a node to its parent peels one constructor off the path. */
module RBTreeShape {

  datatype Color = Red | Black

  datatype Tree<N> = Leaf | Node(left: Tree<N>, node: N, color: Color, right: Tree<N>)

  datatype Path<N> =
    | Top
    | InLeft(up: Path<N>, node: N, color: Color, sibling: Tree<N>)
    | InRight(sibling: Tree<N>, node: N, color: Color, up: Path<N>)

  ghost function Plug<N>(z: Path<N>, t: Tree<N>): Tree<N>
    decreases z
  {
    match z
    case Top => t
    case InLeft(up, n, c, r) => Plug(up, Node(t, n, c, r))
    case InRight(l, n, c, up) => Plug(up, Node(l, n, c, t))
  }

  ghost function InOrder<N>(t: Tree<N>): seq<N> {
    match t
    case Leaf => []
    case Node(l, n, _, r) => InOrder(l) + [n] + InOrder(r)
  }

  /** The in-order nodes to the left of the hole. */
  ghost function Before<N>(z: Path<N>): seq<N> {
    match z
    case Top => []
    case InLeft(up, _, _, _) => Before(up)
    case InRight(l, n, _, up) => Before(up) + InOrder(l) + [n]
  }

  /** The in-order nodes to the right of the hole. */
  ghost function After<N>(z: Path<N>): seq<N> {
    match z
    case Top => []
    case InLeft(up, n, _, r) => [n] + InOrder(r) + After(up)
    case InRight(_, _, _, up) => After(up)
  }

  ghost function Nodes<N>(t: Tree<N>): set<N> {
    match t
    case Leaf => {}
    case Node(l, n, _, r) => Nodes(l) + {n} + Nodes(r)
  }

  ghost function PathNodes<N>(z: Path<N>): set<N> {
    match z
    case Top => {}
    case InLeft(up, n, _, r) => PathNodes(up) + {n} + Nodes(r)
    case InRight(l, n, _, up) => Nodes(l) + {n} + PathNodes(up)
  }

  /** No node occurs twice. */
  ghost predicate Distinct<N>(t: Tree<N>) {
    match t
    case Leaf => true
    case Node(l, n, _, r) =>
      n !in Nodes(l) && n !in Nodes(r) && Nodes(l) !! Nodes(r) && Distinct(l) && Distinct(r)
  }

  ghost predicate DistinctPath<N>(z: Path<N>) {
    match z
    case Top => true
    case InLeft(up, n, _, r) =>
      n !in Nodes(r) && n !in PathNodes(up) && Nodes(r) !! PathNodes(up) && Distinct(r) && DistinctPath(up)
    case InRight(l, n, _, up) =>
      n !in Nodes(l) && n !in PathNodes(up) && Nodes(l) !! PathNodes(up) && Distinct(l) && DistinctPath(up)
  }

  ghost predicate IsRed<N>(t: Tree<N>) {
    t.Node? && t.color == Red
  }

  ghost predicate RedParent<N>(z: Path<N>) {
    !z.Top? && z.color == Red
  }

  /** `t` has no red node with a red child, and every way down meets `k` black nodes. */
  ghost predicate Balanced<N>(t: Tree<N>, k: nat) {
    match t
    case Leaf => k == 0
    case Node(l, _, Red, r) => !IsRed(l) && !IsRed(r) && Balanced(l, k) && Balanced(r, k)
    case Node(l, _, Black, r) => k > 0 && Balanced(l, k - 1) && Balanced(r, k - 1)
  }

  /** The context `z` completes any black-rooted balanced tree of black height `k` to a red-black tree. */
  ghost predicate Fits<N>(z: Path<N>, k: nat)
    decreases z
  {
    match z
    case Top => true
    case InLeft(up, _, c, s) =>
      && Balanced(s, k)
      && (c == Red ==> !IsRed(s) && !up.Top? && !RedParent(up))
      && Fits(up, if c == Black then k + 1 else k)
    case InRight(s, _, c, up) =>
      && Balanced(s, k)
      && (c == Red ==> !IsRed(s) && !up.Top? && !RedParent(up))
      && Fits(up, if c == Black then k + 1 else k)
  }

  ghost function BlackHeight<N>(t: Tree<N>): nat {
    match t
    case Leaf => 0
    case Node(l, _, c, _) => BlackHeight(l) + if c == Black then 1 else 0
  }

  ghost function Height<N>(t: Tree<N>): nat {
    match t
    case Leaf => 0
    case Node(l, _, _, r) => 1 + if Height(l) < Height(r) then Height(r) else Height(l)
  }

  /** The red-black invariants: black root, no red-red edge, equal black heights. */
  ghost predicate RedBlack<N>(t: Tree<N>) {
    !IsRed(t) && Balanced(t, BlackHeight(t))
  }

  lemma {:induction false} PlugInOrder<N>(z: Path<N>, t: Tree<N>)
    ensures InOrder(Plug(z, t)) == Before(z) + InOrder(t) + After(z)
    decreases z
  {
    match z
    case Top =>
      assert Before(z) + InOrder(t) + After(z) == InOrder(t);
    case InLeft(up, n, c, r) =>
      PlugInOrder(up, Node(t, n, c, r));
      Regroup(Before(up), InOrder(t), [n] + InOrder(r), After(up));
      assert InOrder(t) + [n] + InOrder(r) == InOrder(t) + ([n] + InOrder(r));
    case InRight(l, n, c, up) =>
      PlugInOrder(up, Node(l, n, c, t));
      Regroup(Before(up), InOrder(l) + [n], InOrder(t), After(up));
      assert Before(up) + InOrder(l) + [n] == Before(up) + (InOrder(l) + [n]);
  }

  lemma Regroup<N>(a: seq<N>, b: seq<N>, c: seq<N>, d: seq<N>)
    ensures a + (b + c) + d == a + b + (c + d) == (a + b) + c + d
  {
  }

  /** The in-order sequence seen from one node. */
  lemma AtNode<N>(z: Path<N>, t: Tree<N>)
    requires t.Node?
    ensures var order, i := InOrder(Plug(z, t)), |Before(z) + InOrder(t.left)|;
      && i < |order| && order[i] == t.node
      && order[..i] == Before(z) + InOrder(t.left)
      && order[i + 1..] == InOrder(t.right) + After(z)
  {
    PlugInOrder(z, t);
    Around(Before(z), InOrder(t.left), t.node, InOrder(t.right), After(z));
  }

  lemma Around<N>(a: seq<N>, b: seq<N>, n: N, c: seq<N>, d: seq<N>)
    ensures var s := a + (b + [n] + c) + d;
      && |a + b| < |s| && s[|a + b|] == n && s[..|a + b|] == a + b && s[|a + b| + 1..] == c + d
  {
  }

  /** Replacing a subtree by one with the same in-order sequence keeps that of the whole, and its nodes. */
  lemma PlugSameOrder<N>(z: Path<N>, t: Tree<N>, t': Tree<N>)
    requires InOrder(t) == InOrder(t')
    ensures InOrder(Plug(z, t)) == InOrder(Plug(z, t'))
    ensures Nodes(t) == Nodes(t')
  {
    PlugInOrder(z, t);
    PlugInOrder(z, t');
    NodesInOrder(t);
    NodesInOrder(t');
  }

  lemma {:induction false} PlugNodes<N>(z: Path<N>, t: Tree<N>)
    ensures Nodes(Plug(z, t)) == PathNodes(z) + Nodes(t)
    ensures Distinct(Plug(z, t)) <==> Distinct(t) && DistinctPath(z) && Nodes(t) !! PathNodes(z)
    decreases z
  {
    match z
    case Top =>
    case InLeft(up, n, c, r) => PlugNodes(up, Node(t, n, c, r));
    case InRight(l, n, c, up) => PlugNodes(up, Node(l, n, c, t));
  }

  lemma RotateOrder<N>(a: Tree<N>, x: N, b: Tree<N>, y: N, c: Tree<N>, xc: Color, yc: Color, xc': Color, yc': Color)
    ensures InOrder(Node(Node(a, x, xc', b), y, yc', c)) == InOrder(Node(a, x, xc, Node(b, y, yc, c)))
  {
    assert (InOrder(a) + [x] + InOrder(b)) + [y] + InOrder(c) == InOrder(a) + [x] + (InOrder(b) + [y] + InOrder(c));
  }

  /** A rotation keeps the in-order sequence, and with it the nodes and their distinctness. */
  lemma RotateKeeps<N>(a: Tree<N>, x: N, b: Tree<N>, y: N, c: Tree<N>, xc: Color, yc: Color, xc': Color, yc': Color)
    ensures var right, left := Node(a, x, xc, Node(b, y, yc, c)), Node(Node(a, x, xc', b), y, yc', c);
      && InOrder(left) == InOrder(right)
      && Nodes(left) == Nodes(right)
      && (Distinct(left) <==> Distinct(right))
  {
    RotateOrder(a, x, b, y, c, xc, yc, xc', yc');
  }

  lemma {:induction false} BalancedHeight<N>(t: Tree<N>, k: nat)
    requires Balanced(t, k)
    ensures k == BlackHeight(t)
  {
    match t
    case Leaf =>
    case Node(l, _, c, _) => BalancedHeight(l, if c == Black then k - 1 else k);
  }

  lemma {:induction false} PlugRedBlack<N>(z: Path<N>, t: Tree<N>, k: nat)
    requires Fits(z, k) && Balanced(t, k)
    requires IsRed(t) ==> !z.Top? && !RedParent(z)
    ensures RedBlack(Plug(z, t))
    decreases z
  {
    match z
    case Top => BalancedHeight(t, k);
    case InLeft(up, n, c, r) => PlugRedBlack(up, Node(t, n, c, r), if c == Black then k + 1 else k);
    case InRight(l, n, c, up) => PlugRedBlack(up, Node(l, n, c, t), if c == Black then k + 1 else k);
  }

  /** Conversely, a position inside a red-black tree has a fitting context around a balanced subtree. */
  lemma {:induction false} UnplugRedBlack<N>(z: Path<N>, t: Tree<N>)
    requires RedBlack(Plug(z, t))
    ensures Balanced(t, BlackHeight(t)) && Fits(z, BlackHeight(t))
    ensures IsRed(t) ==> !z.Top? && !RedParent(z)
    decreases z
  {
    match z
    case Top =>
    case InLeft(up, n, c, r) =>
      UnplugRedBlack(up, Node(t, n, c, r));
      BalancedHeight(t, BlackHeight(t));
    case InRight(l, n, c, up) =>
      var whole := Node(l, n, c, t);
      UnplugRedBlack(up, whole);
      BalancedHeight(t, if c == Black then BlackHeight(whole) - 1 else BlackHeight(whole));
  }

  lemma {:induction false} NodesInOrder<N>(t: Tree<N>)
    ensures Nodes(t) == set n | n in InOrder(t)
  {
    match t
    case Leaf =>
    case Node(l, _, _, r) => NodesInOrder(l); NodesInOrder(r);
  }

  lemma OrderAt<N>(t: Tree<N>, i: nat)
    requires i < |InOrder(t)|
    ensures var n, x := |InOrder(t.left)|, InOrder(t)[i];
      if i < n then x == InOrder(t.left)[i] && x in Nodes(t.left)
      else if i == n then x == t.node
      else x == InOrder(t.right)[i - n - 1] && x in Nodes(t.right)
  {
    NodesInOrder(t.left);
    NodesInOrder(t.right);
  }

  /** A node occurs once in the in-order sequence. */
  lemma {:induction false} DistinctOrder<N>(t: Tree<N>, i: nat, j: nat)
    requires Distinct(t) && i < |InOrder(t)| && j < |InOrder(t)| && InOrder(t)[i] == InOrder(t)[j]
    ensures i == j
  {
    OrderAt(t, i);
    OrderAt(t, j);
    var n := |InOrder(t.left)|;
    if i < n && j < n {
      DistinctOrder(t.left, i, j);
    } else if i > n && j > n {
      DistinctOrder(t.right, i - n - 1, j - n - 1);
    }
  }

  /** The subtree of `t` that its first node in order is the root of, and the way there from below `z`. */
  ghost function FirstOf<N>(t: Tree<N>): (f: Tree<N>)
    requires t.Node?
    ensures f.Node? && f.left.Leaf?
  {
    if t.left.Leaf? then t else FirstOf(t.left)
  }

  ghost function FirstPath<N>(z: Path<N>, t: Tree<N>): Path<N>
    requires t.Node?
    decreases t
  {
    if t.left.Leaf? then z else FirstPath(InLeft(z, t.node, t.color, t.right), t.left)
  }

  lemma {:induction false} PlugFirst<N>(z: Path<N>, t: Tree<N>)
    requires t.Node?
    ensures Plug(FirstPath(z, t), FirstOf(t)) == Plug(z, t)
    decreases t
  {
    if t.left.Node? { PlugFirst(InLeft(z, t.node, t.color, t.right), t.left); }
  }

  lemma SecondOn<N>(a: seq<N>, b: seq<N>, c: seq<N>)
    requires a != []
    ensures (a + b)[1..] + c == a[1..] + (b + c)
  {
  }

  /** With the first node gone, what its right subtree leaves in its place is the order from the second node on. */
  lemma {:induction false} FirstOrder<N>(z: Path<N>, t: Tree<N>)
    requires t.Node?
    ensures InOrder(t) != [] && InOrder(t)[0] == FirstOf(t).node
    ensures Before(FirstPath(z, t)) == Before(z)
    ensures InOrder(FirstOf(t).right) + After(FirstPath(z, t)) == InOrder(t)[1..] + After(z)
    decreases t
  {
    if t.left.Leaf? {
      assert InOrder(t) == [t.node] + InOrder(t.right);
    } else {
      var rest := [t.node] + InOrder(t.right);
      FirstOrder(InLeft(z, t.node, t.color, t.right), t.left);
      assert InOrder(t) == InOrder(t.left) + rest;
      SecondOn(InOrder(t.left), rest, After(z));
    }
  }

  /** Nothing meets itself on the way to where the first node was, even if that node is on the way already. */
  lemma {:induction false} FirstDistinct<N>(z: Path<N>, t: Tree<N>)
    requires t.Node? && Distinct(t) && DistinctPath(z) && Nodes(t) - {FirstOf(t).node} !! PathNodes(z)
    ensures var z', f := FirstPath(z, t), FirstOf(t);
      && f.node in Nodes(t) && Distinct(f) && DistinctPath(z') && Nodes(f.right) !! PathNodes(z')
      && PathNodes(z') + Nodes(f.right) == PathNodes(z) + (Nodes(t) - {f.node})
    decreases t
  {
    if t.left.Node? {
      var z' := InLeft(z, t.node, t.color, t.right);
      FirstInside(t.left);
      FirstDistinct(z', t.left);
    } else {
      assert Nodes(t) - {t.node} == Nodes(t.right);
    }
  }

  lemma {:induction false} FirstInside<N>(t: Tree<N>)
    requires t.Node?
    ensures FirstOf(t).node in Nodes(t)
  {
    if t.left.Node? { FirstInside(t.left); }
  }

  /** Renaming a node changes no colour. */
  lemma FirstColors<N>(z: Path<N>, n: N, c: Color, r: Tree<N>, l: Tree<N>, first: N, k: nat)
    requires l.Node? && Balanced(Node(l, n, c, r), k) && Fits(z, k) && (c == Red ==> !z.Top? && !RedParent(z))
    ensures var z', f := FirstPath(InLeft(z, first, c, r), l), FirstOf(l);
      Balanced(f, BlackHeight(f)) && Fits(z', BlackHeight(f)) && (IsRed(f) ==> !z'.Top? && !RedParent(z'))
  {
    var z', f := FirstPath(InLeft(z, first, c, r), l), FirstOf(l);
    PlugFirst(InLeft(z, first, c, r), l);
    assert Balanced(Node(l, first, c, r), k);
    PlugRedBlack(z, Node(l, first, c, r), k);
    UnplugRedBlack(z', f);
  }

  ghost function Pow2(n: nat): nat {
    if n == 0 then 1 else 2 * Pow2(n - 1)
  }

  lemma {:induction false} Pow2Monotone(a: nat, b: nat)
    requires a <= b
    ensures Pow2(a) <= Pow2(b)
  {
    if a < b { Pow2Monotone(a, b - 1); }
  }

  lemma {:induction false} BalancedSize<N>(t: Tree<N>, k: nat)
    requires Balanced(t, k)
    ensures Pow2(k) <= |InOrder(t)| + 1
    ensures Height(t) <= 2 * k + if IsRed(t) then 1 else 0
  {
    match t
    case Leaf =>
    case Node(l, _, c, r) =>
      var k' := if c == Black then k - 1 else k;
      BalancedSize(l, k');
      BalancedSize(r, k');
  }

  /** A red-black tree of n nodes is at most 2 * log2(n + 1) high. */
  lemma HeightBound<N>(t: Tree<N>)
    requires RedBlack(t)
    ensures Pow2((Height(t) + 1) / 2) <= |InOrder(t)| + 1
  {
    BalancedSize(t, BlackHeight(t));
    Pow2Monotone((Height(t) + 1) / 2, BlackHeight(t));
  }

  /** The nodes on the way down that goes left or right at each as told, to an empty place. */
  ghost function Descent<N>(t: Tree<N>, goLeft: N -> bool): seq<N> {
    match t
    case Leaf => []
    case Node(l, n, _, r) => [n] + Descent(if goLeft(n) then l else r, goLeft)
  }

  lemma {:induction false} DescentHeight<N>(t: Tree<N>, goLeft: N -> bool)
    ensures |Descent(t, goLeft)| <= Height(t)
  {
    if t.Node? { DescentHeight(if goLeft(t.node) then t.left else t.right, goLeft); }
  }

  lemma DescentStep<N>(before: seq<N>, t: Tree<N>, goLeft: N -> bool)
    requires t.Node?
    ensures before + Descent(t, goLeft) ==
            before + [t.node] + Descent(if goLeft(t.node) then t.left else t.right, goLeft)
  {
  }
}
