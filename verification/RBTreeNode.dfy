/** The linked red-black tree nodes of rbtree.cpp: objects with parent, colour and child fields that the
    insertion and erasure loops rewrite in place. `Snap` reads those fields off the heap; `Spells` and
    `SpellsPath` say which abstract tree or context (RBTreeShape) they spell out. */
module RBTreeNodes {
  import opened RBTreeShape

  type Shape = Tree<RBTreeNode>
  type Context = Path<RBTreeNode>

  /** The fields of one node, and those of a set of nodes. */
  datatype Cell = Cell(parent: RBTreeNode?, color: Color, left: RBTreeNode?, right: RBTreeNode?)
  type Store = map<RBTreeNode, Cell>

  ghost function Snap(nodes: set<RBTreeNode>): Store
    reads nodes
  {
    map n | n in nodes :: Cell(n.parent, n.color, n.left, n.right)
  }

  /** Which pointer a new node is stored through: `&root`, `&parent->left_` or `&parent->right_`. */
  datatype Link = RootLink | LeftLink | RightLink

  ghost function LinkOf(z: Context): Link {
    match z
    case Top => RootLink
    case InLeft(_, _, _, _) => LeftLink
    case InRight(_, _, _, _) => RightLink
  }

  ghost function Root(t: Shape): RBTreeNode? {
    if t.Leaf? then null else t.node
  }

  ghost function ParentOf(z: Context): RBTreeNode? {
    if z.Top? then null else z.node
  }

  /** The value of the root pointer when the hole of `z` is filled by `hole`. */
  ghost function RootOf(z: Context, hole: RBTreeNode?): RBTreeNode?
    decreases z
  {
    match z
    case Top => hole
    case InLeft(up, n, _, _) => RootOf(up, n)
    case InRight(_, n, _, up) => RootOf(up, n)
  }

  ghost predicate Spells(m: Store, older t: Shape, p: RBTreeNode?)
    decreases t
  {
    match t
    case Leaf => true
    case Node(l, n, c, r) =>
      n in m && m[n] == Cell(p, c, Root(l), Root(r)) && Spells(m, l, n) && Spells(m, r, n)
  }

  ghost predicate SpellsPath(m: Store, z: Context, hole: RBTreeNode?)
    decreases z
  {
    match z
    case Top => true
    case InLeft(up, n, c, r) =>
      n in m && m[n] == Cell(ParentOf(up), c, hole, Root(r)) && Spells(m, r, n) && SpellsPath(m, up, n)
    case InRight(l, n, c, up) =>
      n in m && m[n] == Cell(ParentOf(up), c, Root(l), hole) && Spells(m, l, n) && SpellsPath(m, up, n)
  }

  /** `m'` agrees with `m` outside `touched`. */
  ghost predicate Agree(m: Store, m': Store, touched: set<RBTreeNode>) {
    forall n :: n in m && n !in touched ==> n in m' && m'[n] == m[n]
  }

  lemma {:induction false} SpellsFrame(m: Store, m': Store, t: Shape, p: RBTreeNode?, touched: set<RBTreeNode>)
    requires Spells(m, t, p) && Agree(m, m', touched) && Nodes(t) !! touched
    ensures Spells(m', t, p)
  {
    if t.Node? {
      SpellsFrame(m, m', t.left, t.node, touched);
      SpellsFrame(m, m', t.right, t.node, touched);
    }
  }

  lemma {:induction false} SpellsPathFrame(m: Store, m': Store, z: Context, hole: RBTreeNode?, touched: set<RBTreeNode>)
    requires SpellsPath(m, z, hole) && Agree(m, m', touched) && PathNodes(z) !! touched
    ensures SpellsPath(m', z, hole)
    decreases z
  {
    match z
    case Top =>
    case InLeft(up, n, _, r) => SpellsFrame(m, m', r, n, touched); SpellsPathFrame(m, m', up, n, touched);
    case InRight(l, n, _, up) => SpellsFrame(m, m', l, n, touched); SpellsPathFrame(m, m', up, n, touched);
  }

  /** Only the root of `t` may be touched, and it is moved below `q`. */
  lemma SpellsMoved(m: Store, m': Store, t: Shape, p: RBTreeNode?, q: RBTreeNode?, touched: set<RBTreeNode>)
    requires Spells(m, t, p) && Agree(m, m', touched)
    requires t.Node? ==> Nodes(t.left) !! touched && Nodes(t.right) !! touched
    requires t.Node? ==> t.node in m' && m'[t.node] == m[t.node].(parent := q)
    ensures Spells(m', t, q)
  {
    if t.Node? {
      SpellsFrame(m, m', t.left, t.node, touched);
      SpellsFrame(m, m', t.right, t.node, touched);
    }
  }

  /** Only the innermost node of `z` may be touched, and its child pointer at the hole becomes `hole'`. */
  lemma SpellsPathRefilled(m: Store, m': Store, z: Context, hole: RBTreeNode, hole': RBTreeNode?,
                           touched: set<RBTreeNode>)
    requires SpellsPath(m, z, hole) && Agree(m, m', touched)
    requires hole !in PathNodes(z)
    requires z.InLeft? ==> Nodes(z.sibling) !! touched && PathNodes(z.up) !! touched
    requires z.InRight? ==> Nodes(z.sibling) !! touched && PathNodes(z.up) !! touched
    requires ChildChanged(m, m', ParentOf(z), hole, hole')
    ensures SpellsPath(m', z, hole')
  {
    match z
    case Top =>
    case InLeft(up, n, _, r) => SpellsFrame(m, m', r, n, touched); SpellsPathFrame(m, m', up, n, touched);
    case InRight(l, n, _, up) => SpellsFrame(m, m', l, n, touched); SpellsPathFrame(m, m', up, n, touched);
  }

  /** `ChangeChild` on the fields of the parent: `before` is replaced by `after` in one child pointer. */
  ghost function SwapChild(c: Cell, before: RBTreeNode, after: RBTreeNode?): Cell {
    if c.left == before then c.(left := after) else c.(right := after)
  }

  ghost predicate ChildChanged(m: Store, m': Store, p: RBTreeNode?, before: RBTreeNode, after: RBTreeNode?) {
    p != null && p in m ==> p in m' && m'[p] == SwapChild(m[p], before, after)
  }

  ghost predicate Separate(z: Context, t: Shape) {
    DistinctPath(z) && Distinct(t) && Nodes(t) !! PathNodes(z)
  }

  /** The pointers spell out `Plug(z, t)`, seen from the subtree `t`. */
  ghost predicate Focused(m: Store, z: Context, t: Shape, root: RBTreeNode?) {
    && Separate(z, t) && Spells(m, t, ParentOf(z)) && SpellsPath(m, z, Root(t))
    && root == RootOf(z, Root(t))
  }

  /** The three subtrees and two nodes of a rotation below `z` share nothing. */
  ghost predicate Parts(z: Context, a: Shape, x: RBTreeNode, b: Shape, y: RBTreeNode, c: Shape) {
    && DistinctPath(z) && Distinct(a) && Distinct(b) && Distinct(c) && x != y
    && x !in PathNodes(z) && x !in Nodes(a) && x !in Nodes(b) && x !in Nodes(c)
    && y !in PathNodes(z) && y !in Nodes(a) && y !in Nodes(b) && y !in Nodes(c)
    && Nodes(a) !! Nodes(b) && Nodes(a) !! Nodes(c) && Nodes(b) !! Nodes(c)
    && Nodes(a) !! PathNodes(z) && Nodes(b) !! PathNodes(z) && Nodes(c) !! PathNodes(z)
  }

  lemma SeparateParts(z: Context, a: Shape, x: RBTreeNode, b: Shape, y: RBTreeNode, c: Shape, xc: Color, yc: Color)
    requires Separate(z, Node(Node(a, x, xc, b), y, yc, c)) || Separate(z, Node(a, x, xc, Node(b, y, yc, c)))
    ensures Parts(z, a, x, b, y, c)
  {
    var l, r := Node(a, x, xc, b), Node(b, y, yc, c);
    assert Nodes(l) == Nodes(a) + {x} + Nodes(b);
    assert Nodes(r) == Nodes(b) + {y} + Nodes(c);
    if Separate(z, Node(l, y, yc, c)) {
      assert Distinct(l);
    } else {
      assert Distinct(r);
    }
  }

  /** The nodes a rotation writes to. */
  ghost function Touched(z: Context, x: RBTreeNode, b: Shape, y: RBTreeNode): set<RBTreeNode> {
    {x, y} + Opt(Root(b)) + Opt(ParentOf(z))
  }

  lemma PartsUntouched(z: Context, a: Shape, x: RBTreeNode, b: Shape, y: RBTreeNode, c: Shape)
    requires Parts(z, a, x, b, y, c)
    ensures var touched := Touched(z, x, b, y);
      && Nodes(a) !! touched && Nodes(c) !! touched
      && (b.Node? ==> Nodes(b.left) !! touched && Nodes(b.right) !! touched)
      && (!z.Top? ==> Nodes(z.sibling) !! touched && PathNodes(z.up) !! touched)
  {
  }

  lemma PartsMirrored(z: Context, a: Shape, x: RBTreeNode, b: Shape, y: RBTreeNode, c: Shape)
    requires Parts(z, a, x, b, y, c)
    ensures Parts(z, c, y, b, x, a)
  {
  }

  lemma PartsSeparate(z: Context, a: Shape, x: RBTreeNode, b: Shape, y: RBTreeNode, c: Shape, xc: Color, yc: Color)
    requires Parts(z, a, x, b, y, c)
    ensures Separate(z, Node(Node(a, x, xc, b), y, yc, c)) && Separate(z, Node(a, x, xc, Node(b, y, yc, c)))
  {
    PartsLeft(z, a, x, b, y, c, xc, yc);
    PartsRight(z, a, x, b, y, c, xc, yc);
  }

  lemma PartsLeft(z: Context, a: Shape, x: RBTreeNode, b: Shape, y: RBTreeNode, c: Shape, xc: Color, yc: Color)
    requires Parts(z, a, x, b, y, c)
    ensures Separate(z, Node(Node(a, x, xc, b), y, yc, c))
  {
    var l := Node(a, x, xc, b);
    assert Distinct(l) && Nodes(l) == Nodes(a) + {x} + Nodes(b);
  }

  lemma PartsRight(z: Context, a: Shape, x: RBTreeNode, b: Shape, y: RBTreeNode, c: Shape, xc: Color, yc: Color)
    requires Parts(z, a, x, b, y, c)
    ensures Separate(z, Node(a, x, xc, Node(b, y, yc, c)))
  {
    var r := Node(b, y, yc, c);
    assert Distinct(r) && Nodes(r) == Nodes(b) + {y} + Nodes(c);
  }

  lemma RotatedLeft(m: Store, m': Store, z: Context, a: Shape, top: RBTreeNode, b: Shape, pivot: RBTreeNode, c: Shape,
                    color: Color)
    requires Parts(z, a, top, b, pivot, c) && Agree(m, m', Touched(z, top, b, pivot))
    requires {top, pivot} <= m.Keys && {top, pivot} <= m'.Keys && m[top].parent == ParentOf(z)
    requires SpellsPath(m, z, top) && Spells(m, a, top) && Spells(m, b, pivot) && Spells(m, c, pivot)
    requires m'[top] == Cell(pivot, color, Root(a), Root(b))
    requires m'[pivot] == Cell(ParentOf(z), m[top].color, top, Root(c))
    requires b.Node? ==> b.node in m' && m'[b.node] == m[b.node].(parent := top)
    requires ChildChanged(m, m', ParentOf(z), top, pivot)
    ensures Spells(m', Node(Node(a, top, color, b), pivot, m[top].color, c), ParentOf(z)) && SpellsPath(m', z, pivot)
  {
    var touched := Touched(z, top, b, pivot);
    PartsUntouched(z, a, top, b, pivot, c);
    SpellsFrame(m, m', a, top, touched);
    SpellsMoved(m, m', b, pivot, top, touched);
    SpellsFrame(m, m', c, pivot, touched);
    SpellsPathRefilled(m, m', z, top, pivot, touched);
  }

  lemma RotatedRight(m: Store, m': Store, z: Context, a: Shape, pivot: RBTreeNode, b: Shape, top: RBTreeNode, c: Shape,
                     color: Color)
    requires Parts(z, a, pivot, b, top, c) && Agree(m, m', Touched(z, pivot, b, top))
    requires {top, pivot} <= m.Keys && {top, pivot} <= m'.Keys && m[top].parent == ParentOf(z)
    requires SpellsPath(m, z, top) && Spells(m, a, pivot) && Spells(m, b, pivot) && Spells(m, c, top)
    requires m'[top] == Cell(pivot, color, Root(b), Root(c))
    requires m'[pivot] == Cell(ParentOf(z), m[top].color, Root(a), top)
    requires b.Node? ==> b.node in m' && m'[b.node] == m[b.node].(parent := top)
    requires ChildChanged(m, m', ParentOf(z), top, pivot)
    ensures Spells(m', Node(a, pivot, m[top].color, Node(b, top, color, c)), ParentOf(z)) && SpellsPath(m', z, pivot)
  {
    var touched := Touched(z, pivot, b, top);
    PartsUntouched(z, a, pivot, b, top, c);
    SpellsFrame(m, m', a, pivot, touched);
    SpellsMoved(m, m', b, pivot, top, touched);
    SpellsFrame(m, m', c, top, touched);
    SpellsPathRefilled(m, m', z, top, pivot, touched);
  }

  /** The nodes written when `node` takes its parent `p` as a child and hands over its subtree `b1`. */
  lemma TuckUntouched(z: Context, ap: Shape, a: Shape, p: RBTreeNode, b1: Shape, node: RBTreeNode, b2: Shape,
                      g: RBTreeNode, u: Shape)
    requires ap == Node(a, p, Red, b1) || ap == Node(b1, p, Red, a)
    requires Parts(z, ap, node, b2, g, u)
    ensures var touched := {p, node} + Opt(Root(b1));
      && Nodes(a) !! touched && Nodes(b2) !! touched && Nodes(u) !! touched && PathNodes(z) !! touched && g !in touched
      && (b1.Node? ==> Nodes(b1.left) !! touched && Nodes(b1.right) !! touched)
      && p != node && p !in Nodes(a) && p !in Nodes(b1) && node !in Nodes(b1)
    ensures Nodes(ap) == Nodes(a) + {p} + Nodes(b1)
  {
    assert Distinct(ap) && Distinct(b1);
    assert Nodes(ap) == Nodes(a) + {p} + Nodes(b1);
  }

  lemma Tucked(m: Store, m': Store, z: Context, a: Shape, p: RBTreeNode, b1: Shape, node: RBTreeNode, b2: Shape,
               g: RBTreeNode, u: Shape, touched: set<RBTreeNode>)
    requires Nodes(a) !! touched && Nodes(b2) !! touched && Nodes(u) !! touched && PathNodes(z) !! touched
    requires b1.Node? ==> Nodes(b1.left) !! touched && Nodes(b1.right) !! touched
    requires Agree(m, m', touched)
    requires Spells(m, a, p) && Spells(m, b1, node) && Spells(m, b2, node) && Spells(m, u, g) && SpellsPath(m, z, g)
    requires b1.Node? ==> b1.node in m' && m'[b1.node] == m[b1.node].(parent := p)
    ensures Spells(m', a, p) && Spells(m', b1, p) && Spells(m', b2, node) && Spells(m', u, g) && SpellsPath(m', z, g)
  {
    SpellsFrame(m, m', a, p, touched);
    SpellsMoved(m, m', b1, node, p, touched);
    SpellsFrame(m, m', b2, node, touched);
    SpellsFrame(m, m', u, g, touched);
    SpellsPathFrame(m, m', z, g, touched);
  }

  /** Climbing one step changes the focus, not the pointers. */
  lemma FocusUp(m: Store, z: Context, t: Shape, root: RBTreeNode?)
    requires !z.Top? && Focused(m, z, t, root)
    ensures z.InLeft? ==> Focused(m, z.up, Node(t, z.node, z.color, z.sibling), root)
    ensures z.InRight? ==> Focused(m, z.up, Node(z.sibling, z.node, z.color, t), root)
  {
  }

  lemma FocusDownLeft(m: Store, z: Context, l: Shape, n: RBTreeNode, c: Color, r: Shape, root: RBTreeNode?)
    requires Focused(m, z, Node(l, n, c, r), root)
    ensures Focused(m, InLeft(z, n, c, r), l, root)
    ensures PathNodes(InLeft(z, n, c, r)) + Nodes(l) == PathNodes(z) + Nodes(Node(l, n, c, r))
  {
  }

  lemma FocusDownRight(m: Store, z: Context, l: Shape, n: RBTreeNode, c: Color, r: Shape, root: RBTreeNode?)
    requires Focused(m, z, Node(l, n, c, r), root)
    ensures Focused(m, InRight(l, n, c, z), r, root)
    ensures PathNodes(InRight(l, n, c, z)) + Nodes(r) == PathNodes(z) + Nodes(Node(l, n, c, r))
  {
  }

  ghost function Blackened(t: Shape): Shape {
    if t.Leaf? then t else t.(color := Black)
  }

  lemma BlackenedNodes(t: Shape)
    ensures Nodes(Blackened(t)) == Nodes(t) && InOrder(Blackened(t)) == InOrder(t)
    ensures Distinct(Blackened(t)) <==> Distinct(t)
  {
  }

  /** Only the root of `t` may be touched, and it takes the colour `c`. */
  lemma RootColored(m: Store, m': Store, t: Shape, p: RBTreeNode?, c: Color, touched: set<RBTreeNode>)
    requires t.Node? && Distinct(t) && Spells(m, t, p) && Agree(m, m', touched)
    requires Nodes(t.left) !! touched && Nodes(t.right) !! touched
    requires t.node in m' && m'[t.node] == m[t.node].(color := c)
    ensures Spells(m', t.(color := c), p) && Distinct(t.(color := c)) && Nodes(t.(color := c)) == Nodes(t)
  {
    SpellsFrame(m, m', t.left, t.node, touched);
    SpellsFrame(m, m', t.right, t.node, touched);
  }

  lemma Recolored(m: Store, m': Store, z: Context, l: Shape, g: RBTreeNode, r: Shape, root: RBTreeNode?)
    requires l.Node? && r.Node? && Focused(m, z, Node(l, g, Black, r), root)
    requires Agree(m, m', {g, l.node, r.node})
    requires g in m' && m'[g] == m[g].(color := Red)
    requires {l.node, r.node} <= m.Keys
    requires l.node in m' && m'[l.node] == m[l.node].(color := Black)
    requires r.node in m' && m'[r.node] == m[r.node].(color := Black)
    ensures Focused(m', z, Node(Blackened(l), g, Red, Blackened(r)), root)
  {
    var touched := {g, l.node, r.node};
    assert Spells(m, l, g) && Spells(m, r, g) && Distinct(l) && Distinct(r);
    RootColored(m, m', l, g, Black, touched);
    RootColored(m, m', r, g, Black, touched);
    SpellsPathFrame(m, m', z, g, touched);
    assert Nodes(Node(Blackened(l), g, Red, Blackened(r))) == Nodes(Node(l, g, Black, r));
  }

  /** The only flaw below `z` is the red node `p` with one red child, `node`; `k` is the black height. */
  ghost predicate RedRed(p: Shape, node: RBTreeNode, k: nat) {
    && IsRed(p) && Balanced(p.left, k) && Balanced(p.right, k)
    && ((Root(p.left) == node && IsRed(p.left) && !IsRed(p.right)) ||
        (Root(p.right) == node && IsRed(p.right) && !IsRed(p.left)))
  }

  /** Both rotations of an inner grandchild together. */
  lemma InnerLeft(z: Context, a: Shape, p: RBTreeNode, b1: Shape, n: RBTreeNode, b2: Shape, g: RBTreeNode, u: Shape,
                  k: nat)
    requires Separate(z, Node(Node(a, p, Red, Node(b1, n, Red, b2)), g, Black, u))
    ensures Parts(z, Node(a, p, Red, b1), n, b2, g, u)
    ensures Nodes(Node(a, p, Red, b1)) + Nodes(b2) + Nodes(u) + {n, g} == Nodes(Node(Node(a, p, Red, Node(b1, n,
        Red, b2)), g, Black, u))
    ensures InOrder(Node(Node(a, p, Red, b1), n, Black, Node(b2, g, Red, u)))
         == InOrder(Node(Node(a, p, Red, Node(b1, n, Red, b2)), g, Black, u))
    ensures Balanced(a, k) && Balanced(u, k) && !IsRed(a) && !IsRed(u) && Balanced(Node(b1, n, Red, b2), k) ==>
      Balanced(Node(Node(a, p, Red, b1), n, Black, Node(b2, g, Red, u)), k + 1)
  {
    InnerLeftOrder(a, p, b1, n, b2, g, u);
    RotateKeeps(a, p, b1, n, b2, Red, Red, Red, Red);
    SeparateParts(z, Node(a, p, Red, b1), n, b2, g, u, Red, Black);
  }

  lemma InnerLeftOrder(a: Shape, p: RBTreeNode, b1: Shape, n: RBTreeNode, b2: Shape, g: RBTreeNode, u: Shape)
    ensures InOrder(Node(Node(a, p, Red, b1), n, Black, Node(b2, g, Red, u)))
         == InOrder(Node(Node(a, p, Red, Node(b1, n, Red, b2)), g, Black, u))
  {
    RotateOrder(a, p, b1, n, b2, Red, Red, Red, Red);
    RotateOrder(Node(a, p, Red, b1), n, b2, g, u, Black, Red, Red, Black);
  }

  lemma InnerRight(z: Context, u: Shape, g: RBTreeNode, b2: Shape, n: RBTreeNode, b1: Shape, p: RBTreeNode,
                   a: Shape, k: nat)
    requires Separate(z, Node(u, g, Black, Node(Node(b2, n, Red, b1), p, Red, a)))
    ensures Parts(z, u, g, b2, n, Node(b1, p, Red, a))
    ensures Nodes(Node(b1, p, Red, a)) + Nodes(b2) + Nodes(u) + {n, g} == Nodes(Node(u, g, Black, Node(Node(b2, n,
        Red, b1), p, Red, a)))
    ensures InOrder(Node(Node(u, g, Red, b2), n, Black, Node(b1, p, Red, a)))
         == InOrder(Node(u, g, Black, Node(Node(b2, n, Red, b1), p, Red, a)))
    ensures Balanced(a, k) && Balanced(u, k) && !IsRed(a) && !IsRed(u) && Balanced(Node(b2, n, Red, b1), k) ==>
      Balanced(Node(Node(u, g, Red, b2), n, Black, Node(b1, p, Red, a)), k + 1)
  {
    InnerRightOrder(u, g, b2, n, b1, p, a);
    RotateKeeps(b2, n, b1, p, a, Red, Red, Red, Red);
    SeparateParts(z, u, g, b2, n, Node(b1, p, Red, a), Black, Red);
  }

  lemma InnerRightOrder(u: Shape, g: RBTreeNode, b2: Shape, n: RBTreeNode, b1: Shape, p: RBTreeNode, a: Shape)
    ensures InOrder(Node(Node(u, g, Red, b2), n, Black, Node(b1, p, Red, a)))
         == InOrder(Node(u, g, Black, Node(Node(b2, n, Red, b1), p, Red, a)))
  {
    RotateOrder(b2, n, b1, p, a, Red, Red, Red, Red);
    RotateOrder(u, g, b2, n, Node(b1, p, Red, a), Black, Red, Red, Black);
  }

  /** Of two children only one is red, and its own children are black. */
  lemma InnerRed(p: Shape, n: RBTreeNode, k: nat)
    requires RedRed(p, n, k) && Distinct(p)
    ensures var s, o := if Root(p.right) == n then p.right else p.left, if Root(p.right) == n then p.left else p.right;
      && Root(s) == n && Root(o) != n && IsRed(s) && !IsRed(o) && !IsRed(s.left) && !IsRed(s.right)
      && Balanced(s, k) && Balanced(o, k)
  {
    assert n in Nodes(p.left) || n in Nodes(p.right);
  }

  /** What both rotations of an inner grandchild start from, and the tree they lead to. */
  lemma InnerLeftReady(m: Store, z: Context, p: Shape, n: RBTreeNode, g: RBTreeNode, u: Shape, k: nat,
                       root: RBTreeNode?) returns (a: Shape, b1: Shape, b2: Shape)
    requires Focused(m, z, Node(p, g, Black, u), root)
    requires RedRed(p, n, k) && Root(p.right) == n && Balanced(u, k) && !IsRed(u)
    ensures p == Node(a, p.node, Red, Node(b1, n, Red, b2)) && !IsRed(b1) && !IsRed(b2)
    ensures Parts(z, Node(a, p.node, Red, b1), n, b2, g, u)
    ensures SpellsPath(m, z, g) && Spells(m, u, g)
    ensures Spells(m, a, p.node) && Spells(m, b1, n) && Spells(m, b2, n)
    ensures {p.node, n, g} <= m.Keys && m[g] == Cell(ParentOf(z), Black, p.node, Root(u))
    ensures m[p.node] == Cell(g, Red, Root(a), n) && m[n] == Cell(p.node, Red, Root(b1), Root(b2))
    ensures Nodes(a) + Nodes(b1) + Nodes(b2) + Nodes(u) + {p.node, n, g} == Nodes(Node(p, g, Black, u))
    ensures var t := Node(Node(a, p.node, Red, b1), n, Black, Node(b2, g, Red, u));
      Balanced(t, k + 1) && InOrder(t) == InOrder(Node(p, g, Black, u))
  {
    assert Spells(m, p, g) && Distinct(p);
    InnerRed(p, n, k);
    a, b1, b2 := p.left, p.right.left, p.right.right;
    assert Spells(m, p.right, p.node);
    InnerLeft(z, a, p.node, b1, n, b2, g, u, k);
  }

  lemma InnerRightReady(m: Store, z: Context, p: Shape, n: RBTreeNode, g: RBTreeNode, u: Shape, k: nat,
                        root: RBTreeNode?) returns (a: Shape, b1: Shape, b2: Shape)
    requires Focused(m, z, Node(u, g, Black, p), root)
    requires RedRed(p, n, k) && Root(p.left) == n && Balanced(u, k) && !IsRed(u)
    ensures p == Node(Node(b2, n, Red, b1), p.node, Red, a) && !IsRed(b1) && !IsRed(b2)
    ensures Parts(z, u, g, b2, n, Node(b1, p.node, Red, a))
    ensures SpellsPath(m, z, g) && Spells(m, u, g)
    ensures Spells(m, a, p.node) && Spells(m, b1, n) && Spells(m, b2, n)
    ensures {p.node, n, g} <= m.Keys && m[g] == Cell(ParentOf(z), Black, Root(u), p.node)
    ensures m[p.node] == Cell(g, Red, n, Root(a)) && m[n] == Cell(p.node, Red, Root(b2), Root(b1))
    ensures Nodes(a) + Nodes(b1) + Nodes(b2) + Nodes(u) + {p.node, n, g} == Nodes(Node(u, g, Black, p))
    ensures var t := Node(Node(u, g, Red, b2), n, Black, Node(b1, p.node, Red, a));
      Balanced(t, k + 1) && InOrder(t) == InOrder(Node(u, g, Black, p))
  {
    assert Spells(m, p, g) && Distinct(p);
    InnerRed(p, n, k);
    a, b1, b2 := p.right, p.left.right, p.left.left;
    assert Spells(m, p.left, p.node);
    InnerRight(z, u, g, b2, n, b1, p.node, a, k);
  }

  /** Below the top the root pointer does not depend on the hole. */
  lemma {:induction false} RootOfNode(z: Context, hole: RBTreeNode?, hole': RBTreeNode?)
    ensures z.Top? || RootOf(z, hole) == RootOf(z, hole')
  {
  }

  /** Filling the empty hole of `z`: the innermost node's child pointer takes `n`. */
  lemma HoleFilled(m: Store, m': Store, z: Context, n: RBTreeNode, root: RBTreeNode?)
    requires DistinctPath(z) && n !in PathNodes(z) && SpellsPath(m, z, null) && root == RootOf(z, n)
    requires Agree(m, m', {n} + Opt(ParentOf(z)))
    requires n in m' && m'[n] == Cell(ParentOf(z), Red, null, null)
    requires z.InLeft? ==> z.node in m' && z.node in m && m'[z.node] == m[z.node].(left := n)
    requires z.InRight? ==> z.node in m' && z.node in m && m'[z.node] == m[z.node].(right := n)
    ensures Focused(m', z, Node(Leaf, n, Red, Leaf), root)
  {
    var touched := {n} + Opt(ParentOf(z));
    match z
    case Top =>
    case InLeft(up, p, _, r) => SpellsFrame(m, m', r, p, touched); SpellsPathFrame(m, m', up, p, touched);
    case InRight(l, p, _, up) => SpellsFrame(m, m', l, p, touched); SpellsPathFrame(m, m', up, p, touched);
  }

  /** What the insertion loop keeps: the pointers spell a tree with the wanted in-order sequence whose only
      possible flaw is that the focused red node sits below a red parent or is the root. */
  ghost predicate Inserting(m: Store, nodes: set<RBTreeNode>, z: Context, t: Shape, k: nat, root: RBTreeNode?,
                            order: seq<RBTreeNode>) {
    && Focused(m, z, t, root) && nodes == Nodes(t) + PathNodes(z)
    && Balanced(t, k) && Fits(z, k)
    && InOrder(Plug(z, t)) == order
  }

  lemma LeafInserted(m: Store, nodes: set<RBTreeNode>, z: Context, n: RBTreeNode, root: RBTreeNode?)
    requires Focused(m, z, Node(Leaf, n, Red, Leaf), root) && Fits(z, 0) && nodes == PathNodes(z) + {n}
    ensures Inserting(m, nodes, z, Node(Leaf, n, Red, Leaf), 0, root, Before(z) + [n] + After(z))
  {
    var t := Node(Leaf, n, Red, Leaf);
    PlugInOrder(z, t);
    assert Nodes(t) == {n} && InOrder(t) == [n];
  }

  /** The tree one step up from the hole of `z`. */
  ghost function Above(z: Context, t: Shape): Shape
    requires !z.Top?
  {
    if z.InLeft? then Node(t, z.node, z.color, z.sibling) else Node(z.sibling, z.node, z.color, t)
  }

  /** A red-red conflict is two levels below a black grandparent, and everything else there is in order. */
  lemma ConflictColors(z: Context, t: Shape, k: nat)
    requires Fits(z, k) && Balanced(t, k) && IsRed(t) && RedParent(z)
    ensures !z.up.Top? && z.up.color == Black
    ensures RedRed(Above(z, t), t.node, k) && Balanced(z.up.sibling, k) && Fits(z.up.up, k + 1)
  {
    assert Fits(z.up, k);
  }

  lemma ConflictLinks(m: Store, z: Context, t: Shape, root: RBTreeNode?)
    requires Focused(m, z, t, root) && !z.Top? && !z.up.Top?
    ensures m[z.node].parent == z.up.node
    ensures Focused(m, z.up.up, Above(z.up, Above(z, t)), root)
    ensures PathNodes(z) + Nodes(t) == Nodes(Above(z.up, Above(z, t))) + PathNodes(z.up.up)
    ensures if z.up.InLeft? then m[z.up.node].right != z.node else m[z.up.node].right == z.node
  {
    FocusUp(m, z, t, root);
    FocusUp(m, z.up, Above(z, t), root);
    assert Nodes(Above(z, t)) + PathNodes(z.up) == PathNodes(z) + Nodes(t);
  }

  /** Solving it there keeps the order and the nodes of the whole. */
  lemma ConflictSolved(z: Context, t: Shape, t': Shape)
    requires !z.Top? && !z.up.Top? && InOrder(t') == InOrder(Above(z.up, Above(z, t)))
    ensures InOrder(Plug(z.up.up, t')) == InOrder(Plug(z, t))
    ensures Nodes(t') + PathNodes(z.up.up) == Nodes(t) + PathNodes(z)
  {
    assert Plug(z, t) == Plug(z.up, Above(z, t)) == Plug(z.up.up, Above(z.up, Above(z, t)));
    PlugSameOrder(z.up.up, Above(z.up, Above(z, t)), t');
    SameOrderNodes(z.up.up, t', z, t);
  }

  /** The pointers spell a red-black tree of `nodes` in the given order. */
  ghost predicate Whole(m: Store, nodes: set<RBTreeNode>, whole: Shape, root: RBTreeNode?, order: seq<RBTreeNode>) {
    && Spells(m, whole, null) && root == Root(whole) && Distinct(whole) && Nodes(whole) == nodes
    && RedBlack(whole) && InOrder(whole) == order
  }

  lemma Inserted(m: Store, nodes: set<RBTreeNode>, z: Context, t: Shape, k: nat, root: RBTreeNode?,
                 order: seq<RBTreeNode>)
    requires Inserting(m, nodes, z, t, k, root, order)
    requires IsRed(t) ==> !z.Top? && !RedParent(z)
    ensures Whole(m, nodes, Plug(z, t), root, order)
  {
    PlugSpells(m, z, t, root);
    PlugNodes(z, t);
    PlugRedBlack(z, t, k);
  }

  lemma {:induction false} PlugSpells(m: Store, z: Context, t: Shape, root: RBTreeNode?)
    requires Spells(m, t, ParentOf(z)) && SpellsPath(m, z, Root(t)) && root == RootOf(z, Root(t))
    ensures Spells(m, Plug(z, t), null) && root == Root(Plug(z, t))
    decreases z
  {
    if !z.Top? {
      PlugSpells(m, z.up, Above(z, t), root);
    }
  }

  lemma {:induction false} UnplugSpells(m: Store, z: Context, t: Shape)
    requires Spells(m, Plug(z, t), null)
    ensures Spells(m, t, ParentOf(z)) && SpellsPath(m, z, Root(t)) && Root(Plug(z, t)) == RootOf(z, Root(t))
    decreases z
  {
    if !z.Top? {
      UnplugSpells(m, z.up, Above(z, t));
    }
  }

  /** The sibling `s` turns red and the parent `p` black. */
  lemma SiblingRecolored(m: Store, m': Store, z: Context, l: Shape, p: RBTreeNode, c: Color, r: Shape,
                         s: RBTreeNode, root: RBTreeNode?)
    requires Focused(m, z, Node(l, p, c, r), root)
    requires Agree(m, m', {p, s}) && s in m && s in m' && p in m'
    requires Root(l) == s || Root(r) == s
    requires m'[p] == m[p].(color := Black) && m'[s] == m[s].(color := Red)
    ensures Root(r) == s ==> Focused(m', z, Node(l, p, Black, r.(color := Red)), root)
    ensures Root(l) == s ==> Focused(m', z, Node(l.(color := Red), p, Black, r), root)
  {
    assert Spells(m, l, p) && Spells(m, r, p) && Distinct(l) && Distinct(r);
    SpellsPathFrame(m, m', z, p, {p, s});
    if Root(r) == s {
      SpellsFrame(m, m', l, p, {p, s});
      RootColored(m, m', r, p, Red, {p, s});
    } else {
      SpellsFrame(m, m', r, p, {p, s});
      RootColored(m, m', l, p, Red, {p, s});
    }
  }

  lemma OuterLeft(t: Shape, p: RBTreeNode, c: Color, s: Shape, k: nat)
    requires s.Node? && s.color == Black && IsRed(s.right) && Balanced(t, k) && Balanced(s, k + 1)
    ensures var t' := Node(Node(t, p, Black, s.left), s.node, c, Blackened(s.right));
      Balanced(t', if c == Black then k + 2 else k + 1) && InOrder(t') == InOrder(Node(t, p, c, s))
  {
    RotateOrder(t, p, s.left, s.node, s.right, c, Black, Black, c);
    BlackenedNodes(s.right);
  }

  lemma OuterRight(t: Shape, p: RBTreeNode, c: Color, s: Shape, k: nat)
    requires s.Node? && s.color == Black && IsRed(s.left) && Balanced(t, k) && Balanced(s, k + 1)
    ensures var t' := Node(Blackened(s.left), s.node, c, Node(s.right, p, Black, t));
      Balanced(t', if c == Black then k + 2 else k + 1) && InOrder(t') == InOrder(Node(s, p, c, t))
  {
    RotateOrder(s.left, s.node, s.right, p, t, c, Black, Black, c);
    BlackenedNodes(s.left);
  }

  lemma PartsBlackened(z: Context, t: Shape, p: RBTreeNode, b: Shape, s: RBTreeNode, c: Shape)
    requires Parts(z, t, p, b, s, c)
    ensures Parts(z, t, p, b, s, Blackened(c)) && Nodes(Blackened(c)) == Nodes(c)
  {
    BlackenedNodes(c);
  }

  lemma OuterApart(z: Context, t: Shape, p: RBTreeNode, b: Shape, s: RBTreeNode, c: Shape)
    requires Parts(z, t, p, b, s, c) && c.Node?
    ensures c.node !in Nodes(t) && c.node !in Nodes(b) && c.node !in PathNodes(z)
    ensures c.node !in Nodes(c.left) && c.node !in Nodes(c.right) && Distinct(c)
  {
    assert c.node in Nodes(c) && Distinct(c);
  }

  lemma OuterBlackened(m: Store, m': Store, z: Context, t: Shape, p: RBTreeNode, b: Shape, s: RBTreeNode, c: Shape)
    requires c.Node? && Distinct(c) && c.node !in Nodes(t) && c.node !in Nodes(b) && c.node !in PathNodes(z)
    requires SpellsPath(m, z, p) && Spells(m, t, p) && Spells(m, b, s) && Spells(m, c, s)
    requires Agree(m, m', {c.node}) && c.node in m' && m'[c.node] == m[c.node].(color := Black)
    ensures SpellsPath(m', z, p) && Spells(m', t, p) && Spells(m', b, s) && Spells(m', Blackened(c), s)
  {
    SpellsPathFrame(m, m', z, p, {c.node});
    SpellsFrame(m, m', t, p, {c.node});
    SpellsFrame(m, m', b, s, {c.node});
    RootColored(m, m', c, s, Black, {c.node});
  }

  /** The nodes written when the inner nephew `n` of `p` moves above the sibling `sb`. */
  lemma NephewUntouched(z: Context, t: Shape, p: RBTreeNode, b1: Shape, n: RBTreeNode, ds: Shape, b2: Shape,
                        sb: RBTreeNode, d: Shape)
    requires ds == Node(b2, sb, Black, d) || ds == Node(d, sb, Black, b2)
    requires Parts(z, t, p, b1, n, ds)
    ensures var touched := {p, sb, n} + Opt(Root(b2));
      && Nodes(t) !! touched && Nodes(b1) !! touched && Nodes(d) !! touched && PathNodes(z) !! touched
      && (b2.Node? ==> Nodes(b2.left) !! touched && Nodes(b2.right) !! touched)
      && p != sb && sb != n && p !in Nodes(b2) && sb !in Nodes(b2) && n !in Nodes(b2)
    ensures Nodes(ds) == Nodes(b2) + {sb} + Nodes(d)
  {
    assert Distinct(ds) && Distinct(b2);
    assert Nodes(ds) == Nodes(b2) + {sb} + Nodes(d);
  }

  lemma NephewMoved(m: Store, m': Store, z: Context, t: Shape, p: RBTreeNode, b1: Shape, n: RBTreeNode, b2: Shape,
                    sb: RBTreeNode,
                    d: Shape, touched: set<RBTreeNode>)
    requires Nodes(t) !! touched && Nodes(b1) !! touched && Nodes(d) !! touched && PathNodes(z) !! touched
    requires b2.Node? ==> Nodes(b2.left) !! touched && Nodes(b2.right) !! touched
    requires Agree(m, m', touched)
    requires SpellsPath(m, z, p) && Spells(m, t, p) && Spells(m, b1, n) && Spells(m, b2, n) && Spells(m, d, sb)
    requires b2.Node? ==> b2.node in m' && m'[b2.node] == m[b2.node].(parent := sb)
    ensures SpellsPath(m', z, p) && Spells(m', t, p) && Spells(m', b1, n) && Spells(m', b2, sb) && Spells(m', d, sb)
  {
    SpellsPathFrame(m, m', z, p, touched);
    SpellsFrame(m, m', t, p, touched);
    SpellsFrame(m, m', b1, n, touched);
    SpellsMoved(m, m', b2, n, sb, touched);
    SpellsFrame(m, m', d, sb, touched);
  }

  lemma NephewColors(t: Shape, p: RBTreeNode, c: Color, b1: Shape, n: RBTreeNode, b2: Shape, sb: RBTreeNode,
                     d: Shape, k: nat)
    requires Balanced(t, k) && Balanced(Node(b1, n, Red, b2), k) && Balanced(d, k)
    ensures var k' := if c == Black then k + 2 else k + 1;
      && Balanced(Node(Node(t, p, Black, b1), n, c, Node(b2, sb, Black, d)), k')
      && Balanced(Node(Node(d, sb, Black, b2), n, c, Node(b1, p, Black, t)), k')
  {
  }

  lemma NephewLeft(z: Context, t: Shape, p: RBTreeNode, c: Color, b1: Shape, n: RBTreeNode, b2: Shape,
                   sb: RBTreeNode, d: Shape)
    requires Separate(z, Node(t, p, c, Node(Node(b1, n, Red, b2), sb, Black, d)))
    ensures Parts(z, t, p, b1, n, Node(b2, sb, Black, d))
    ensures Nodes(t) + Nodes(b1) + Nodes(Node(b2, sb, Black, d)) + {p, n}
         == Nodes(Node(t, p, c, Node(Node(b1, n, Red, b2), sb, Black, d)))
    ensures InOrder(Node(Node(t, p, Black, b1), n, c, Node(b2, sb, Black, d)))
         == InOrder(Node(t, p, c, Node(Node(b1, n, Red, b2), sb, Black, d)))
  {
    RotateKeeps(b1, n, b2, sb, d, Black, Black, Red, Black);
    SeparateParts(z, t, p, b1, n, Node(b2, sb, Black, d), c, Black);
    RotateOrder(t, p, b1, n, Node(b2, sb, Black, d), c, Black, Black, c);
  }

  lemma NephewRight(z: Context, d: Shape, sb: RBTreeNode, b2: Shape, n: RBTreeNode, b1: Shape, p: RBTreeNode,
                    c: Color, t: Shape)
    requires Separate(z, Node(Node(d, sb, Black, Node(b2, n, Red, b1)), p, c, t))
    ensures Parts(z, Node(d, sb, Black, b2), n, b1, p, t) && Parts(z, t, p, b1, n, Node(d, sb, Black, b2))
    ensures Nodes(t) + Nodes(b1) + Nodes(Node(d, sb, Black, b2)) + {p, n}
         == Nodes(Node(Node(d, sb, Black, Node(b2, n, Red, b1)), p, c, t))
    ensures InOrder(Node(Node(d, sb, Black, b2), n, c, Node(b1, p, Black, t)))
         == InOrder(Node(Node(d, sb, Black, Node(b2, n, Red, b1)), p, c, t))
  {
    RotateKeeps(d, sb, b2, n, b1, Black, Red, Black, Black);
    SeparateParts(z, Node(d, sb, Black, b2), n, b1, p, t, Black, c);
    PartsMirrored(z, Node(d, sb, Black, b2), n, b1, p, t);
    RotateOrder(Node(d, sb, Black, b2), n, b1, p, t, c, Black, Black, c);
  }

  lemma SameOrderNodes(z: Context, t: Shape, z': Context, t': Shape)
    requires InOrder(Plug(z, t)) == InOrder(Plug(z', t'))
    ensures PathNodes(z) + Nodes(t) == PathNodes(z') + Nodes(t')
  {
    PlugNodes(z, t);
    PlugNodes(z', t');
    NodesInOrder(Plug(z, t));
    NodesInOrder(Plug(z', t'));
  }

  /** What the erasure loop keeps: everything is in order except that the focused subtree is one black node
      short for its place. */
  ghost predicate Short(m: Store, nodes: set<RBTreeNode>, z: Context, t: Shape, k: nat, root: RBTreeNode?,
                        order: seq<RBTreeNode>) {
    && Focused(m, z, t, root) && nodes == Nodes(t) + PathNodes(z)
    && Balanced(t, k) && !IsRed(t) && Fits(z, k + 1)
    && InOrder(Plug(z, t)) == order
  }

  /** Seen from the parent of the hole. */
  lemma ShortUp(m: Store, nodes: set<RBTreeNode>, z: Context, t: Shape, k: nat, root: RBTreeNode?,
                order: seq<RBTreeNode>)
    requires Short(m, nodes, z, t, k, root, order) && !z.Top?
    ensures Focused(m, z.up, Above(z, t), root) && Nodes(Above(z, t)) + PathNodes(z.up) == nodes
    ensures z.sibling.Node? && InOrder(Plug(z.up, Above(z, t))) == order && Root(z.sibling) != Root(t)
    ensures z.node in m && (z.InLeft? <==> m[z.node].right != Root(t))
    ensures Root(z.sibling) == if z.InLeft? then m[z.node].right else m[z.node].left
  {
    FocusUp(m, z, t, root);
    assert t.Node? ==> t.node in Nodes(t);
    assert Plug(z, t) == Plug(z.up, Above(z, t));
  }

  lemma FixedUp(m: Store, nodes: set<RBTreeNode>, z': Context, t': Shape, k': nat, root: RBTreeNode?, z: Context,
                t: Shape, order: seq<RBTreeNode>)
    requires !z.Top? && Nodes(Above(z, t)) + PathNodes(z.up) == nodes
    requires InOrder(Plug(z', t')) == InOrder(Plug(z.up, Above(z, t))) == order
    requires Focused(m, z', t', root) && Balanced(t', k')
    ensures Fits(z', k') ==> Inserting(m, nodes, z', t', k', root, order)
    ensures Fits(z', k' + 1) && !IsRed(t') ==> Short(m, nodes, z', t', k', root, order)
  {
    SameOrderNodes(z', t', z.up, Above(z, t));
  }

  /** At the root the hole needs no filling. */
  lemma ShortAtTop(m: Store, nodes: set<RBTreeNode>, z: Context, t: Shape, k: nat, root: RBTreeNode?,
                   order: seq<RBTreeNode>)
    requires Short(m, nodes, z, t, k, root, order) && t.Node? && t.node in m && m[t.node].parent == null
    ensures Inserting(m, nodes, z, t, k, root, order)
  {
  }

  /** A red sibling has two black children; rotating it above the parent gives the hole a black sibling. */
  lemma RedSibling(z: Context, t: Shape, k: nat)
    requires !z.Top? && Balanced(t, k) && Fits(z, k + 1) && IsRed(z.sibling)
    ensures z.color == Black
    ensures var l, r := z.sibling.left, z.sibling.right;
      && l.Node? && l.color == Black && Balanced(l, k + 1)
      && r.Node? && r.color == Black && Balanced(r, k + 1)
      && (z.InLeft? ==> Fits(InLeft(z.up, z.sibling.node, Black, r), k + 1)
                        && InOrder(Node(Node(t, z.node, Red, l), z.sibling.node, Black, r)) == InOrder(Above(z, t)))
      && (z.InRight? ==> Fits(InRight(l, z.sibling.node, Black, z.up), k + 1)
                         && InOrder(Node(l, z.sibling.node, Black, Node(r, z.node, Red, t))) == InOrder(Above(z, t)))
  {
    var l, s, r := z.sibling.left, z.sibling.node, z.sibling.right;
    assert Balanced(z.sibling, k + 1) && Balanced(l, k + 1) && Balanced(r, k + 1);
    if z.InLeft? {
      RotateOrder(t, z.node, l, s, r, Black, Red, Red, Black);
    } else {
      RotateOrder(l, s, r, z.node, t, Black, Red, Red, Black);
    }
  }

  /** What takes the place of an erased node of colour `c` whose only child is `sub`. */
  ghost function Replacement(sub: Shape, c: Color): Shape {
    if sub.Leaf? then Leaf else sub.(color := c)
  }

  /** An only child in a red-black tree is a red leaf below a black node. */
  lemma OneChildColors(z: Context, l: Shape, n: RBTreeNode, c: Color, r: Shape, k: nat)
    requires Balanced(Node(l, n, c, r), k) && Fits(z, k) && (l.Leaf? || r.Leaf?)
    ensures var sub := if l.Leaf? then r else l;
      var t := Replacement(sub, c);
      && k == (if c == Black then 1 else 0) && !IsRed(t)
      && (!(c == Black && sub.Leaf? && !z.Top?) ==> Balanced(t, BlackHeight(t)) && Fits(z, BlackHeight(t)))
  {
    var sub := if l.Leaf? then r else l;
    var k' := if c == Black then k - 1 else k;
    assert Balanced(sub, k') && k' == 0;
    assert sub.Node? ==> IsRed(sub) && Balanced(sub.left, 0) && Balanced(sub.right, 0);
  }

  /** Where a node with at most one child sits. */
  lemma OnlyChild(m: Store, z: Context, l: Shape, n: RBTreeNode, c: Color, r: Shape, root: RBTreeNode?)
    requires Focused(m, z, Node(l, n, c, r), root)
    ensures n in m && m[n] == Cell(ParentOf(z), c, Root(l), Root(r))
    ensures Opt(Root(l)) <= Nodes(l) && Opt(Root(r)) <= Nodes(r) && Opt(ParentOf(z)) <= PathNodes(z)
    ensures n !in Opt(Root(l)) + Opt(Root(r)) + Opt(ParentOf(z)) && Opt(ParentOf(z)) !! Opt(Root(l)) + Opt(Root(r))
  {
  }

  lemma Unlinked(m: Store, m': Store, z: Context, l: Shape, n: RBTreeNode, c: Color, r: Shape, root: RBTreeNode?)
    requires Focused(m, z, Node(l, n, c, r), root) && (l.Leaf? || r.Leaf?)
    requires var sub := if l.Leaf? then r else l;
      && Agree(m, m', {n} + Opt(Root(sub)) + Opt(ParentOf(z)))
      && ChildChanged(m, m', ParentOf(z), n, Root(sub))
      && (sub.Node? ==>
          sub.node in m && sub.node in m' && m'[sub.node] == m[sub.node].(parent := ParentOf(z), color := c))
    ensures var sub := if l.Leaf? then r else l;
      var t := Replacement(sub, c);
      && Focused(m', z, t, if z.Top? then Root(sub) else root) && InOrder(t) == InOrder(l) + InOrder(r)
      && Nodes(t) + PathNodes(z) == Nodes(Node(l, n, c, r)) + PathNodes(z) - {n}
  {
    var sub, t := if l.Leaf? then r else l, Node(l, n, c, r);
    var touched := {n} + Opt(Root(sub)) + Opt(ParentOf(z));
    assert touched <= Nodes(t) + Opt(ParentOf(z));
    UnlinkedPath(m, m', z, t, Root(sub), root, touched);
    assert Nodes(t) == Nodes(sub) + {n};
    if sub.Node? {
      assert Spells(m, sub, n) && Distinct(sub);
      ChildReplaced(m, m', sub, n, ParentOf(z), c, touched);
    }
  }

  lemma UnlinkedPath(m: Store, m': Store, z: Context, t: Shape, hole: RBTreeNode?, root: RBTreeNode?,
                     touched: set<RBTreeNode>)
    requires t.Node? && Focused(m, z, t, root) && touched <= Nodes(t) + Opt(ParentOf(z)) && Agree(m, m', touched)
    requires ChildChanged(m, m', ParentOf(z), t.node, hole)
    ensures SpellsPath(m', z, hole) && RootOf(z, hole) == if z.Top? then hole else root
  {
    assert t.node in Nodes(t);
    PathApart(z, t, touched);
    SpellsPathRefilled(m, m', z, t.node, hole, touched);
    RootOfNode(z, t.node, hole);
  }

  /** Writing inside the focused tree and to its parent touches nothing else on the path. */
  lemma PathApart(z: Context, t: Shape, touched: set<RBTreeNode>)
    requires Separate(z, t) && touched <= Nodes(t) + Opt(ParentOf(z))
    ensures !z.Top? ==> Nodes(z.sibling) !! touched && PathNodes(z.up) !! touched
  {
  }

  lemma ChildReplaced(m: Store, m': Store, sub: Shape, n: RBTreeNode, p: RBTreeNode?, c: Color,
                      touched: set<RBTreeNode>)
    requires sub.Node? && Distinct(sub) && Spells(m, sub, n) && Agree(m, m', touched)
    requires Nodes(sub.left) !! touched && Nodes(sub.right) !! touched
    requires sub.node in m' && m'[sub.node] == m[sub.node].(parent := p, color := c)
    ensures Spells(m', Replacement(sub, c), p)
    ensures Nodes(Replacement(sub, c)) == Nodes(sub) && Distinct(Replacement(sub, c))
  {
    SpellsFrame(m, m', sub.left, sub.node, touched);
    SpellsFrame(m, m', sub.right, sub.node, touched);
  }

  /** In a tree the left child of a node comes before it. */
  lemma {:induction false} LeftChildEarlier(m: Store, t: Shape, p: RBTreeNode?, x: RBTreeNode) returns (i: nat, j: nat)
    requires Spells(m, t, p) && x in InOrder(t) && x in m && m[x].left != null
    ensures i < j < |InOrder(t)| && InOrder(t)[i] == m[x].left && InOrder(t)[j] == x
  {
    var l, r := InOrder(t.left), InOrder(t.right);
    if x in l {
      i, j := LeftChildEarlier(m, t.left, t.node, x);
    } else if x in r {
      i, j := LeftChildEarlier(m, t.right, t.node, x);
      i, j := |l| + 1 + i, |l| + 1 + j;
    } else {
      i, j := |InOrder(t.left.left)|, |l|;
    }
  }

  lemma InMiddle(a: seq<RBTreeNode>, b: seq<RBTreeNode>, c: seq<RBTreeNode>, d: seq<RBTreeNode>, k: nat)
    requires k < |b|
    ensures |a| + k < |a + (b + c) + d| && (a + (b + c) + d)[|a| + k] == b[k]
  {
  }

  ghost predicate Once(s: seq<RBTreeNode>) {
    forall i, j :: 0 <= i < |s| && 0 <= j < |s| && s[i] == s[j] ==> i == j
  }

  lemma OrderOnce(t: Shape)
    requires Distinct(t)
    ensures Once(InOrder(t))
  {
    var s := InOrder(t);
    forall i, j | 0 <= i < |s| && 0 <= j < |s| && s[i] == s[j] ensures i == j {
      DistinctOrder(t, i, j);
    }
  }

  lemma OnceWithout(s: seq<RBTreeNode>, at: nat, a: seq<RBTreeNode>, b: seq<RBTreeNode>)
    requires Once(s) && at < |s| && s[..at] == a && s[at + 1..] == b
    ensures Once(a + b)
  {
    var w := a + b;
    forall i, j | 0 <= i < |w| && 0 <= j < |w| && w[i] == w[j] ensures i == j {
      var i', j' := if i < at then i else i + 1, if j < at then j else j + 1;
      assert s[i'] == w[i] && s[j'] == w[j];
    }
  }

  /** Without its node `n`, the tree seen from `n` has every other node once. */
  lemma WantedOnce(z: Context, l: Shape, n: RBTreeNode, c: Color, r: Shape)
    requires Separate(z, Node(l, n, c, r))
    ensures Once(Before(z) + (InOrder(l) + InOrder(r)) + After(z))
  {
    var t := Node(l, n, c, r);
    PlugNodes(z, t);
    AtNode(z, t);
    OrderOnce(Plug(z, t));
    OnceWithout(InOrder(Plug(z, t)), |Before(z) + InOrder(l)|, Before(z) + InOrder(l), InOrder(r) + After(z));
    Regroup(Before(z), InOrder(l), InOrder(r), After(z));
  }

  /** The nodes but `n`, in order: the first node of `l` and, no earlier, its root. */
  lemma Wanted(z: Context, l: Shape, n: RBTreeNode, c: Color, r: Shape)
    returns (wanted: seq<RBTreeNode>, first: nat, root: nat)
    requires Separate(z, Node(l, n, c, r)) && l.Node?
    ensures wanted == Before(z) + (InOrder(l) + InOrder(r)) + After(z)
    ensures first <= root < |wanted| && wanted[first] == InOrder(l)[0] && wanted[root] == l.node && Once(wanted)
  {
    wanted := Before(z) + (InOrder(l) + InOrder(r)) + After(z);
    first, root := |Before(z)|, |Before(z)| + |InOrder(l.left)|;
    InMiddle(Before(z), InOrder(l), InOrder(r), After(z), 0);
    InMiddle(Before(z), InOrder(l), InOrder(r), After(z), |InOrder(l.left)|);
    WantedOnce(z, l, n, c, r);
  }

  /** The first node of `l` has the root of `l` for its left child. */
  ghost predicate FirstLoops(m: Store, l: Shape)
    requires l.Node?
  {
    InOrder(l)[0] in m && m[InOrder(l)[0]].left == l.node
  }

  lemma NotInOrder(m: Store, whole: Shape, p: RBTreeNode?, wanted: seq<RBTreeNode>, first: nat, root: nat)
    requires Spells(m, whole, p) && first <= root < |wanted| && Once(wanted)
    requires wanted[first] in m && m[wanted[first]].left == wanted[root]
    ensures InOrder(whole) != wanted
  {
    if InOrder(whole) == wanted {
      var i, j := LeftChildEarlier(m, whole, p, wanted[first]);
    }
  }

  /** The cells after lines 240-247: `first` gets both subtrees of `n`, and its right child goes below `above`. */
  ghost function Relinked(m: Store, n: RBTreeNode, first: RBTreeNode, above: RBTreeNode): Store
    requires n in m && first in m
  {
    var gone := m[n];
    map x | x in m :: Cell(if x == gone.left || x == gone.right then first else m[x].parent, m[x].color,
                           if x == first then gone.left else if x == above then m[first].right else m[x].left,
                           if x == first then gone.right else m[x].right)
  }

  /** The cells after lines 248-264: `first` takes the place of `n`, and `rest` turns black below `above`. */
  ghost function Promoted(m: Store, n: RBTreeNode, first: RBTreeNode, above: RBTreeNode, rest: RBTreeNode?): Store
    requires n in m && first in m
  {
    var gone := m[n];
    map x | x in m :: Cell(if x == first then gone.parent else if x == rest then above else m[x].parent,
                           if x == first then gone.color else if x == rest then Black else m[x].color,
                           if x == gone.parent && m[x].left == n then first else m[x].left,
                           if x == gone.parent && m[x].left != n then first else m[x].right)
  }

  /** Nothing black goes missing when `first` leaves its place. */
  ghost predicate Settles(m: Store, first: RBTreeNode) {
    first in m && (m[first].right != null || m[first].color == Red)
  }

  /** The parent of the first node in order, which is not the root of `t`. */
  ghost function AboveFirst(t: Shape): RBTreeNode
    requires t.Node? && t.left.Node?
  {
    if t.left.left.Leaf? then t.node else AboveFirst(t.left)
  }

  lemma {:induction false} AboveInside(t: Shape)
    requires t.Node? && t.left.Node? && Distinct(t)
    ensures AboveFirst(t) in Nodes(t) && Nodes(FirstOf(t)) <= Nodes(t.left) && AboveFirst(t) !in Nodes(FirstOf(t))
    ensures FirstOf(t).node in Nodes(t.left) && Opt(Root(FirstOf(t).right)) <= Nodes(FirstOf(t))
    ensures if t.left.left.Leaf? then AboveFirst(t) == t.node
            else AboveFirst(t) in Nodes(t.left) && t.left.node !in Nodes(FirstOf(t))
  {
    if t.left.left.Node? { AboveInside(t.left); }
  }

  /** The way down to where the first node was is spelled when its upper end is: besides the root of `t` only the
      first node, the one above it and the one that follows below it have been touched. */
  lemma {:induction false} SpineSpells(m: Store, m': Store, y: Context, t: Shape, p: RBTreeNode?,
                                       touched: set<RBTreeNode>)
    requires t.Node? && t.left.Node? && Distinct(t) && Spells(m, t, p) && SpellsPath(m', y, t.node)
    requires var above, rest := AboveFirst(t), Root(FirstOf(t).right);
      && t.node in m'
      && m'[t.node] == m[t.node].(parent := ParentOf(y), left := if t.node == above then rest else t.left.node)
      && (above != t.node ==> above in m && above in m' && m'[above] == m[above].(left := rest))
      && Agree(m, m', touched)
      && forall x :: x in touched && x in Nodes(t) ==> x in {t.node, above, FirstOf(t).node} + Opt(rest)
    ensures SpellsPath(m', FirstPath(y, t), Root(FirstOf(t).right)) && ParentOf(FirstPath(y, t)) == AboveFirst(t)
    decreases t
  {
    var y' := InLeft(y, t.node, t.color, t.right);
    AboveInside(t);
    assert Nodes(t.right) <= Nodes(t) && Nodes(t.right) !! touched;
    SpellsFrame(m, m', t.right, t.node, touched);
    if t.left.left.Node? {
      assert Nodes(t.left) <= Nodes(t) && t.left.node in Nodes(t.left);
      assert t.left.node != AboveFirst(t) ==> t.left.node !in touched;
      SpineSpells(m, m', y', t.left, t.node, touched);
    }
  }

  /** The nodes written by lines 240-264 when the first node of `l` is not its root, and where they are. */
  ghost function Rewired(z: Context, l: Shape, n: RBTreeNode, r: Shape): set<RBTreeNode>
    requires l.Node? && l.left.Node? && r.Node?
  {
    {n, FirstOf(l).node, AboveFirst(l), l.node, r.node} + Opt(Root(FirstOf(l).right)) + Opt(ParentOf(z))
  }

  lemma RewiredWithin(l: Shape)
    requires l.Node? && l.left.Node? && Distinct(l)
    ensures var first, above, rest := FirstOf(l).node, AboveFirst(l), FirstOf(l).right;
      && {first, above, l.node} + Opt(Root(rest)) <= Nodes(l)
      && first !in {l.node, above} + Opt(Root(rest)) && Opt(Root(rest)) !! {l.node, above}
      && (rest.Node? ==> Nodes(rest.left) + Nodes(rest.right) <= Nodes(l) - {first, above, l.node, rest.node})
  {
    var rest := FirstOf(l).right;
    AboveInside(l);
    FirstDistinct(Top, l);
    assert PathNodes<RBTreeNode>(Top) == {};
    assert Nodes(FirstOf(l)) == {FirstOf(l).node} + Nodes(rest);
    assert rest.Node? ==> Nodes(rest) == Nodes(rest.left) + {rest.node} + Nodes(rest.right);
  }

  lemma RewiredApart(z: Context, l: Shape, n: RBTreeNode, c: Color, r: Shape)
    requires Separate(z, Node(l, n, c, r)) && l.Node? && l.left.Node? && r.Node?
    ensures var first, above, rest := FirstOf(l).node, AboveFirst(l), Root(FirstOf(l).right);
      && {first, above, l.node} + Opt(rest) <= Nodes(l)
      && first !in {l.node, above} + Opt(rest) && Opt(rest) !! {l.node, above}
    ensures r.node in Nodes(r) && Opt(ParentOf(z)) <= PathNodes(z)
    ensures Nodes(r.left) !! Rewired(z, l, n, r) && Nodes(r.right) !! Rewired(z, l, n, r)
  {
    RewiredWithin(l);
    var W := {n, r.node} + Nodes(l) + PathNodes(z);
    assert Rewired(z, l, n, r) <= W;
    assert Distinct(r) && Nodes(r.left) !! W && Nodes(r.right) !! W;
  }

  /** One cell after lines 240-264. */
  ghost function Spliced(m: Store, n: RBTreeNode, first: RBTreeNode, above: RBTreeNode, x: RBTreeNode): Cell
    requires {n, first, x} <= m.Keys
  {
    var gone, rest, was := m[n], m[first].right, m[x];
    if x == first then gone
    else if x == gone.parent then SwapChild(was, n, first)
    else
      Cell(if x == rest then above else if x == gone.left || x == gone.right then first else was.parent,
           if x == rest then Black else was.color, if x == above then rest else was.left, was.right)
  }

  /** What the pointers touched must not coincide in. */
  ghost predicate Splices(m: Store, n: RBTreeNode, first: RBTreeNode, above: RBTreeNode) {
    && {n, first, above} <= m.Keys
    && var gone, rest := m[n], m[first].right;
    && first !in {n, above, rest} && n !in {above, rest, gone.left, gone.right} && first != gone.right
    && (gone.parent != null ==> gone.parent !in {n, first, above, rest, gone.left, gone.right})
  }

  lemma PromotedCell(m: Store, n: RBTreeNode, first: RBTreeNode, above: RBTreeNode, x: RBTreeNode)
    requires Splices(m, n, first, above) && x in m
    ensures Promoted(Relinked(m, n, first, above), n, first, above, m[first].right)[x] == Spliced(m, n, first, above, x)
  {
  }

  /** All the cells after lines 240-264, with or without that of `n`. */
  ghost predicate AllSpliced(m: Store, m': Store, n: RBTreeNode, first: RBTreeNode, above: RBTreeNode) {
    && {n, first} <= m.Keys && m.Keys - {n} <= m'.Keys <= m.Keys
    && forall x :: x in m' ==> m'[x] == Spliced(m, n, first, above, x)
  }

  lemma SplicedAgree(m: Store, m': Store, z: Context, l: Shape, n: RBTreeNode, c: Color, r: Shape)
    requires Focused(m, z, Node(l, n, c, r), RootOf(z, n)) && l.Node? && l.left.Node? && r.Node?
    requires AllSpliced(m, m', n, FirstOf(l).node, AboveFirst(l)) && m[FirstOf(l).node].right == Root(FirstOf(l).right)
    ensures Agree(m, m', Rewired(z, l, n, r))
  {
    var W := Rewired(z, l, n, r);
    forall x | x in m && x !in W ensures x in m' && m'[x] == m[x] {
    }
  }

  /** The pointers below `first` in the place of `n`: what is left of `l` is spelled but for the hole. */
  lemma SplicedSpells(m: Store, m': Store, z: Context, l: Shape, n: RBTreeNode, c: Color, r: Shape)
    requires Focused(m, z, Node(l, n, c, r), RootOf(z, n)) && l.Node? && l.left.Node? && r.Node?
    requires Nodes(l) + Nodes(r) <= m.Keys
    requires AllSpliced(m, m', n, FirstOf(l).node, AboveFirst(l)) && m[FirstOf(l).node].right == Root(FirstOf(l).right)
    ensures SpellsPath(m', FirstPath(InLeft(z, FirstOf(l).node, c, r), l), Root(FirstOf(l).right))
    ensures ParentOf(FirstPath(InLeft(z, FirstOf(l).node, c, r), l)) == AboveFirst(l)
  {
    var first, above, touched := FirstOf(l).node, AboveFirst(l), Rewired(z, l, n, r);
    RewiredApart(z, l, n, c, r);
    SplicedAgree(m, m', z, l, n, c, r);
    assert m'[first] == m[n] && m'[r.node] == m[r.node].(parent := first);
    assert touched <= Nodes(Node(l, n, c, r)) + Opt(ParentOf(z));
    UnlinkedPath(m, m', z, Node(l, n, c, r), first, RootOf(z, n), touched);
    SpellsMoved(m, m', r, n, first, touched);
    SpineSpells(m, m', InLeft(z, first, c, r), l, n, touched);
  }

  /** The first node in order, as it is spelled. */
  lemma {:induction false} FirstSpelled(m: Store, t: Shape, p: RBTreeNode?)
    requires t.Node? && Spells(m, t, p)
    ensures var first, rest := FirstOf(t).node, FirstOf(t).right;
      && first in m && Spells(m, rest, first)
      && m[first] == Cell(if t.left.Leaf? then p else AboveFirst(t), FirstOf(t).color, null, Root(rest))
    decreases t
  {
    if t.left.Node? { FirstSpelled(m, t.left, t.node); }
  }

  /** Its right child goes up into its place and turns black. */
  lemma SplicedRest(m: Store, m': Store, z: Context, l: Shape, n: RBTreeNode, c: Color, r: Shape)
    requires Focused(m, z, Node(l, n, c, r), RootOf(z, n)) && l.Node? && l.left.Node? && r.Node?
    requires AllSpliced(m, m', n, FirstOf(l).node, AboveFirst(l)) && m[FirstOf(l).node].right == Root(FirstOf(l).right)
    ensures Spells(m', Blackened(FirstOf(l).right), AboveFirst(l))
  {
    var first, rest, touched := FirstOf(l).node, FirstOf(l).right, Rewired(z, l, n, r);
    RewiredWithin(l);
    FirstSpelled(m, l, n);
    SplicedAgree(m, m', z, l, n, c, r);
    if rest.Node? {
      assert rest.node in Nodes(l) && rest.node != n && rest.node !in PathNodes(z);
      assert (Nodes(rest.left) + Nodes(rest.right)) !! touched;
      SpellsFrame(m, m', rest.left, rest.node, touched);
      SpellsFrame(m, m', rest.right, rest.node, touched);
    }
  }

  /** What becomes of the order of the others: the first node of `l` now comes after the rest of `l`. */
  ghost function Misplaced(z: Context, l: Shape, r: Shape): seq<RBTreeNode>
    requires l.Node?
  {
    FirstOrder(z, l);
    Before(z) + (InOrder(l)[1..] + [InOrder(l)[0]] + InOrder(r)) + After(z)
  }

  lemma MisplacedOrder(z: Context, l: Shape, c: Color, r: Shape, t: Shape)
    requires l.Node? && InOrder(t) == InOrder(FirstOf(l).right)
    ensures InOrder(Plug(FirstPath(InLeft(z, FirstOf(l).node, c, r), l), t)) == Misplaced(z, l, r)
  {
    var first := FirstOf(l).node;
    var y := InLeft(z, first, c, r);
    FirstOrder(y, l);
    PlugInOrder(FirstPath(y, l), t);
    Gathered(Before(z), InOrder(t), After(FirstPath(y, l)), InOrder(l)[1..], [first], InOrder(r), After(z));
  }

  lemma Gathered<N>(a: seq<N>, x: seq<N>, y: seq<N>, b: seq<N>, c: seq<N>, d: seq<N>, e: seq<N>)
    requires x + y == b + (c + d + e)
    ensures a + x + y == a + (b + c + d) + e
  {
    assert a + x + y == a + (x + y);
    assert b + (c + d + e) == (b + c + d) + e;
  }

  lemma SplicedApart(z: Context, l: Shape, n: RBTreeNode, c: Color, r: Shape)
    requires Separate(z, Node(l, n, c, r)) && l.Node? && l.left.Node?
    ensures var y, t := FirstPath(InLeft(z, FirstOf(l).node, c, r), l), Blackened(FirstOf(l).right);
      Separate(y, t) && Nodes(t) + PathNodes(y) == Nodes(Node(l, n, c, r)) + PathNodes(z) - {n}
  {
    var first := FirstOf(l).node;
    var y := InLeft(z, first, c, r);
    FirstInside(l);
    assert PathNodes(y) == PathNodes(z) + {first} + Nodes(r);
    FirstDistinct(y, l);
    BlackenedNodes(FirstOf(l).right);
  }

  /** The whole of lines 224-265 when the first node of the left subtree is not its root. */
  lemma FirstMoved(m: Store, m': Store, z: Context, l: Shape, n: RBTreeNode, c: Color, r: Shape, root: RBTreeNode?)
    requires Focused(m, z, Node(l, n, c, r), root) && l.Node? && l.left.Node? && r.Node?
    requires Nodes(l) + Nodes(r) <= m.Keys
    requires AllSpliced(m, m', n, FirstOf(l).node, AboveFirst(l))
    ensures var first := FirstOf(l).node;
      var y, t := FirstPath(InLeft(z, first, c, r), l), Blackened(FirstOf(l).right);
      && Focused(m', y, t, if z.Top? then first else root)
      && Nodes(t) + PathNodes(y) == Nodes(Node(l, n, c, r)) + PathNodes(z) - {n}
      && InOrder(Plug(y, t)) == Misplaced(z, l, r)
  {
    var first, rest := FirstOf(l).node, FirstOf(l).right;
    FirstSpelled(m, l, n);
    SplicedSpells(m, m', z, l, n, c, r);
    SplicedRest(m, m', z, l, n, c, r);
    BlackenedNodes(rest);
    MisplacedOrder(z, l, c, r, Blackened(rest));
    SplicedApart(z, l, n, c, r);
    RootOfFirst(InLeft(z, first, c, r), l, Root(rest));
    RootOfNode(z, n, first);
  }

  lemma {:induction false} RootOfFirst(z: Context, t: Shape, hole: RBTreeNode?)
    requires t.Node? && t.left.Node?
    ensures RootOf(FirstPath(z, t), hole) == RootOf(z, t.node)
    decreases t
  {
    if t.left.left.Node? { RootOfFirst(InLeft(z, t.node, t.color, t.right), t.left, hole); }
  }

  /** A first node that is red or has a right child leaves nothing to rebalance; otherwise its place is one short. */
  lemma FirstReplaced(y: Context, f: Shape, k: nat)
    requires f.Node? && f.left.Leaf? && Balanced(f, k) && Fits(y, k)
    ensures !IsRed(Blackened(f.right))
    ensures if f.color == Black && f.right.Leaf? then Fits(y, 1)
            else Balanced(Blackened(f.right), if f.right.Leaf? then 0 else 1) && Fits(y, if f.right.Leaf? then 0 else 1)
  {
  }

  /** What lines 224-265 leave when the first node of the left subtree is not its root: a red-black tree of the
      others, or one that is black short where that node was, and in either case not in their order. */
  lemma TwoTakenOut(m: Store, m': Store, nodes: set<RBTreeNode>, z: Context, l: Shape, n: RBTreeNode, c: Color,
                    r: Shape, k: nat, root: RBTreeNode?) returns (y: Context, t: Shape)
    requires Focused(m, z, Node(l, n, c, r), root) && l.Node? && l.left.Node? && r.Node?
    requires Balanced(Node(l, n, c, r), k) && Fits(z, k) && (c == Red ==> !z.Top? && !RedParent(z))
    requires nodes == Nodes(Node(l, n, c, r)) + PathNodes(z) && nodes <= m.Keys
    requires AllSpliced(m, m', n, FirstOf(l).node, AboveFirst(l))
    ensures FirstOf(l).node in m && ParentOf(y) == AboveFirst(l)
    ensures var newRoot := if z.Top? then FirstOf(l).node else root;
      if Settles(m, FirstOf(l).node) then Whole(m', nodes - {n}, Plug(y, t), newRoot, Misplaced(z, l, r))
      else t == Leaf && Short(m', nodes - {n}, y, Leaf, 0, newRoot, Misplaced(z, l, r))
  {
    var f := FirstOf(l);
    y, t := FirstPath(InLeft(z, f.node, c, r), l), Blackened(f.right);
    FirstSpelled(m, l, n);
    FirstMoved(m, m', z, l, n, c, r, root);
    SplicedSpells(m, m', z, l, n, c, r);
    FirstColors(z, n, c, r, l, f.node, k);
    FirstReplaced(y, f, BlackHeight(f));
    if Settles(m, f.node) {
      Inserted(m', nodes - {n}, y, t, if f.right.Leaf? then 0 else 1, if z.Top? then f.node else root,
               Misplaced(z, l, r));
    }
  }

  lemma FirstTwo(l: Shape)
    requires l.Node? && l.left.Node? && Distinct(l)
    ensures |InOrder(l)| > 1 && InOrder(l)[0] != InOrder(l)[1]
  {
    assert |InOrder(l.left)| > 0;
    if InOrder(l)[0] == InOrder(l)[1] { DistinctOrder(l, 0, 1); }
  }

  /** Moving the first behind the rest changes the order. */
  lemma FirstLast(a: seq<RBTreeNode>, b: seq<RBTreeNode>, c: seq<RBTreeNode>, d: seq<RBTreeNode>)
    requires |b| > 1 && b[0] != b[1]
    ensures a + (b[1..] + [b[0]] + c) + d != a + (b + c) + d
  {
    InMiddle(a, b, c, d, 0);
    InMiddle(a, b[1..] + [b[0]], c, d, 0);
  }

  /** Some tree that the pointers spell from `root` on has this order. */
  ghost predicate Spelled(m: Store, root: RBTreeNode?, order: seq<RBTreeNode>) {
    exists t: Shape :: Spells(m, t, null) && Root(t) == root && InOrder(t) == order
  }

  lemma {:induction false} SameSpelled(m: Store, t: Shape, t': Shape, p: RBTreeNode?)
    requires Spells(m, t, p) && Spells(m, t', p) && Root(t) == Root(t')
    ensures t == t'
  {
    if t.Node? {
      SameSpelled(m, t.left, t'.left, t.node);
      SameSpelled(m, t.right, t'.right, t.node);
    }
  }

  lemma SpelledOnce(m: Store, t: Shape, root: RBTreeNode?, order: seq<RBTreeNode>)
    requires Spells(m, t, null) && Root(t) == root && InOrder(t) != order
    ensures !Spelled(m, root, order)
  {
    forall t': Shape | Spells(m, t', null) && Root(t') == root ensures InOrder(t') != order {
      SameSpelled(m, t, t', null);
    }
  }

  /** Once the first node of `l` has the root of `l` for its left child, no tree has the nodes but `n` in order. */
  lemma NoTreeInOrder(m: Store, z: Context, l: Shape, n: RBTreeNode, c: Color, r: Shape, root: RBTreeNode?)
    requires Separate(z, Node(l, n, c, r)) && l.Node? && FirstLoops(m, l)
    ensures !Spelled(m, root, Before(z) + (InOrder(l) + InOrder(r)) + After(z))
  {
    var wanted, first, top := Wanted(z, l, n, c, r);
    NeverInOrder(m, root, wanted, first, top);
  }

  lemma NeverInOrder(m: Store, root: RBTreeNode?, wanted: seq<RBTreeNode>, first: nat, top: nat)
    requires first <= top < |wanted| && Once(wanted)
    requires wanted[first] in m && m[wanted[first]].left == wanted[top]
    ensures !Spelled(m, root, wanted)
  {
    forall t: Shape | Spells(m, t, null) ensures InOrder(t) != wanted {
      NotInOrder(m, t, null, wanted, first, top);
    }
  }

  lemma DeepFirst(m: Store, l: Shape, p: RBTreeNode?)
    requires l.Node? && l.left.Node? && Distinct(l) && Spells(m, l, p)
    ensures var first := FirstOf(l).node;
      && InOrder(l) != [] && InOrder(l)[0] == first && first != l.node
      && first in m && m[first].parent == AboveFirst(l) && m[first].right == Root(FirstOf(l).right)
  {
    FirstOrder(Top, l);
    FirstSpelled(m, l, p);
    RewiredWithin(l);
  }

  lemma NotSibling(z: Context, n: RBTreeNode)
    requires !z.Top? && n !in PathNodes(z)
    ensures Root(z.sibling) != n
  {
    assert z.sibling.Node? ==> z.sibling.node in Nodes(z.sibling);
  }

  class RBTreeNode {
    var parent: RBTreeNode?
    var color: Color
    var left: RBTreeNode?
    var right: RBTreeNode?

    constructor ()
      ensures !IsLinked() && left == null && right == null
    {
      parent, color := this, Red;
      left, right := null, null;
    }

    /** An unlinked node is its own (red) parent. */
    predicate IsLinked()
      reads this
    {
      parent != this || color == Black
    }

    method ChangeChild(newNode: RBTreeNode?, parent: RBTreeNode?, root: RBTreeNode?) returns (newRoot: RBTreeNode?)
      modifies Opt(parent)
      ensures newRoot == if parent == null then newNode else root
      ensures parent != null ==> parent.ToCell() == SwapChild(old(parent.ToCell()), this, newNode)
    {
      newRoot := root;
      if parent != null {
        if parent.left == this {
          parent.left := newNode;
        } else {
          parent.right := newNode;
        }
      } else {
        newRoot := newNode;
      }
    }

    method RotateSetParents(newNode: RBTreeNode, root: RBTreeNode?, color: Color) returns (newRoot: RBTreeNode?)
      requires newNode != this && parent != this && parent != newNode
      modifies this, newNode, Opt(parent)
      ensures newNode.ToCell() == old(newNode.ToCell()).(parent := old(this.parent), color := old(this.color))
      ensures this.ToCell() == old(this.ToCell()).(parent := newNode, color := color)
      ensures var p := old(this.parent);
        && newRoot == (if p == null then newNode else root)
        && (p != null ==> p.ToCell() == SwapChild(old(p.ToCell()), this, newNode))
    {
      var parent := this.parent;
      newNode.parent, newNode.color := this.parent, this.color;
      this.parent, this.color := newNode, color;
      newRoot := ChangeChild(newNode, parent, root);
    }

    /** `SetParent(this)` or `SetParentColor(this, Black)` of a child that may be missing. */
    method Adopt(child: RBTreeNode?, blacken: bool)
      modifies Opt(child)
      ensures child != null ==>
        child.ToCell() == old(child.ToCell()).(parent := this, color := if blacken then Black else old(child.color))
    {
      if child != null {
        child.parent := this;
        if blacken {
          child.color := Black;
        }
      }
    }

    /** Lines 178-184, 280-284 and 320-328: `pivot`, the right child of `top`, takes the place of `top`;
        `top` becomes its left child and adopts `tmp`, the former left child. `blacken` tells the form
        `SetParentColor(top, Black)` of the adoption from `SetParent(top)`. */
    static method RotateLeft(top: RBTreeNode, pivot: RBTreeNode, tmp: RBTreeNode?, blacken: bool,
                             root: RBTreeNode?, color: Color, ghost nodes: set<RBTreeNode>)
      returns (newRoot: RBTreeNode?)
      requires top != pivot && tmp != top && tmp != pivot
      requires top.parent == null || top.parent !in {top, pivot, tmp}
      requires top in nodes && pivot in nodes && Opt(tmp) <= nodes && Opt(top.parent) <= nodes
      modifies top, pivot, Opt(tmp), Opt(top.parent)
      ensures var m, m', p := old(Snap(nodes)), Snap(nodes), old(top.parent);
        && Agree(m, m', {top, pivot} + Opt(tmp) + Opt(p))
        && m'[top] == Cell(pivot, color, m[top].left, tmp)
        && m'[pivot] == Cell(p, m[top].color, top, m[pivot].right)
        && (tmp != null ==> m'[tmp] == m[tmp].(parent := top, color := if blacken then Black else m[tmp].color))
        && ChildChanged(m, m', p, top, pivot)
        && newRoot == if p == null then pivot else root
    {
      top.right := tmp;
      pivot.left := top;
      top.Adopt(tmp, blacken);
      newRoot := top.RotateSetParents(pivot, root, color);
      assert forall n :: n in nodes && n !in {top, pivot} + Opt(tmp) + Opt(old(top.parent)) ==>
          n.ToCell() == old(n.ToCell());
    }

    static method RotateLeftAt(top: RBTreeNode, pivot: RBTreeNode, tmp: RBTreeNode?, blacken: bool,
                               root: RBTreeNode?, color: Color, ghost nodes: set<RBTreeNode>,
                               ghost z: Context, ghost a: Shape, ghost b: Shape, ghost c: Shape)
      returns (newRoot: RBTreeNode?)
      requires Parts(z, a, top, b, pivot, c)
      requires Nodes(a) + Nodes(b) + Nodes(c) + PathNodes(z) + {top, pivot} <= nodes
      requires var m := Snap(nodes);
        && top.parent == ParentOf(z) && SpellsPath(m, z, top) && root == RootOf(z, top)
        && top.left == Root(a) && Spells(m, a, top)
        && tmp == Root(b) && Spells(m, b, pivot) && (blacken ==> !IsRed(b))
        && pivot.right == Root(c) && Spells(m, c, pivot)
      modifies nodes
      ensures Focused(Snap(nodes), z, Node(Node(a, top, color, b), pivot, old(top.color), c), newRoot)
    {
      ghost var m := Snap(nodes);
      newRoot := RotateLeft(top, pivot, tmp, blacken, root, color, nodes);
      RotatedLeft(m, Snap(nodes), z, a, top, b, pivot, c, color);
      PartsSeparate(z, a, top, b, pivot, c, color, m[top].color);
    }

    /** The mirror image: lines 143-149, 334-340 and 376-384. */
    static method RotateRight(top: RBTreeNode, pivot: RBTreeNode, tmp: RBTreeNode?, blacken: bool,
                             root: RBTreeNode?, color: Color, ghost nodes: set<RBTreeNode>)
      returns (newRoot: RBTreeNode?)
      requires top != pivot && tmp != top && tmp != pivot
      requires top.parent == null || top.parent !in {top, pivot, tmp}
      requires top in nodes && pivot in nodes && Opt(tmp) <= nodes && Opt(top.parent) <= nodes
      modifies top, pivot, Opt(tmp), Opt(top.parent)
      ensures var m, m', p := old(Snap(nodes)), Snap(nodes), old(top.parent);
        && Agree(m, m', {top, pivot} + Opt(tmp) + Opt(p))
        && m'[top] == Cell(pivot, color, tmp, m[top].right)
        && m'[pivot] == Cell(p, m[top].color, m[pivot].left, top)
        && (tmp != null ==> m'[tmp] == m[tmp].(parent := top, color := if blacken then Black else m[tmp].color))
        && ChildChanged(m, m', p, top, pivot)
        && newRoot == if p == null then pivot else root
    {
      top.left := tmp;
      pivot.right := top;
      top.Adopt(tmp, blacken);
      newRoot := top.RotateSetParents(pivot, root, color);
      assert forall n :: n in nodes && n !in {top, pivot} + Opt(tmp) + Opt(old(top.parent)) ==>
          n.ToCell() == old(n.ToCell());
    }

    static method RotateRightAt(top: RBTreeNode, pivot: RBTreeNode, tmp: RBTreeNode?, blacken: bool,
                               root: RBTreeNode?, color: Color, ghost nodes: set<RBTreeNode>,
                               ghost z: Context, ghost a: Shape, ghost b: Shape, ghost c: Shape)
      returns (newRoot: RBTreeNode?)
      requires Parts(z, a, pivot, b, top, c)
      requires Nodes(a) + Nodes(b) + Nodes(c) + PathNodes(z) + {top, pivot} <= nodes
      requires var m := Snap(nodes);
        && top.parent == ParentOf(z) && SpellsPath(m, z, top) && root == RootOf(z, top)
        && pivot.left == Root(a) && Spells(m, a, pivot)
        && tmp == Root(b) && Spells(m, b, pivot) && (blacken ==> !IsRed(b))
        && top.right == Root(c) && Spells(m, c, top)
      modifies nodes
      ensures Focused(Snap(nodes), z, Node(a, pivot, old(top.color), Node(b, top, color, c)), newRoot)
    {
      ghost var m := Snap(nodes);
      newRoot := RotateRight(top, pivot, tmp, blacken, root, color, nodes);
      RotatedRight(m, Snap(nodes), z, a, pivot, b, top, c, color);
      PartsSeparate(z, a, pivot, b, top, c, m[top].color, color);
    }

    /** Lines 132-139: `node`, the right child of `parent`, takes `parent` as its left child. */
    static method TuckLeft(parent: RBTreeNode, node: RBTreeNode, ghost nodes: set<RBTreeNode>)
      requires parent != node && node.left != parent && node.left != node
      requires parent in nodes && node in nodes && Opt(node.left) <= nodes
      modifies parent, node, Opt(node.left)
      ensures var m, m', tmp := old(Snap(nodes)), Snap(nodes), old(node.left);
        && Agree(m, m', {parent, node} + Opt(tmp))
        && m'[parent] == Cell(node, Red, m[parent].left, tmp)
        && m'[node] == m[node].(left := parent)
        && (tmp != null ==> m'[tmp] == m[tmp].(parent := parent, color := Black))
    {
      var tmp := node.left;
      parent.right := tmp;
      node.left := parent;
      if tmp != null {
        tmp.parent, tmp.color := parent, Black;
      }
      parent.parent, parent.color := node, Red;
      assert forall n :: n in nodes && n !in {parent, node} + Opt(tmp) ==> n.ToCell() == old(n.ToCell());
    }

    /** The same step seen from the trees involved; it leaves `gparent` and all above it alone. */
    static method TuckLeftAt(gparent: RBTreeNode, parent: RBTreeNode, node: RBTreeNode, ghost nodes: set<RBTreeNode>,
                             ghost z: Context, ghost a: Shape, ghost b1: Shape, ghost b2: Shape, ghost u: Shape)
      requires Parts(z, Node(a, parent, Red, b1), node, b2, gparent, u)
      requires {gparent, parent, node} + Nodes(b1) <= nodes
      requires var m := Snap(nodes);
        && SpellsPath(m, z, gparent) && Spells(m, u, gparent)
        && parent.left == Root(a) && Spells(m, a, parent)
        && node.left == Root(b1) && Spells(m, b1, node) && !IsRed(b1)
        && Spells(m, b2, node)
      modifies nodes
      ensures var m := Snap(nodes);
        && SpellsPath(m, z, gparent) && Spells(m, u, gparent)
        && Spells(m, Node(a, parent, Red, b1), node) && Spells(m, b2, node)
        && m[gparent] == old(gparent.ToCell())
        && m[node] == old(node.ToCell()).(left := parent)
    {
      ghost var m := Snap(nodes);
      TuckUntouched(z, Node(a, parent, Red, b1), a, parent, b1, node, b2, gparent, u);
      TuckLeft(parent, node, nodes);
      Tucked(m, Snap(nodes), z, a, parent, b1, node, b2, gparent, u, {parent, node} + Opt(Root(b1)));
    }

    /** Lines 130-150 when `node` is the inner grandchild: both rotations. */
    static method InsertInnerLeft(gparent: RBTreeNode, parent: RBTreeNode, node: RBTreeNode, root: RBTreeNode?,
                                  ghost nodes: set<RBTreeNode>, ghost z: Context, ghost p: Shape, ghost u: Shape,
                                      ghost k: nat)
      returns (newRoot: RBTreeNode?, ghost t: Shape)
      requires Focused(Snap(nodes), z, Node(p, gparent, Black, u), root)
      requires Nodes(Node(p, gparent, Black, u)) + PathNodes(z) <= nodes
      requires RedRed(p, node, k) && p.node == parent && Root(p.right) == node && Balanced(u, k) && !IsRed(u)
      modifies nodes
      ensures Focused(Snap(nodes), z, t, newRoot)
      ensures Balanced(t, k + 1) && InOrder(t) == InOrder(Node(p, gparent, Black, u)) && !IsRed(t)
    {
      ghost var a, b1, b2 := InnerLeftReady(Snap(nodes), z, p, node, gparent, u, k, root);
      TuckLeftAt(gparent, parent, node, nodes, z, a, b1, b2, u);
      newRoot := RotateRightAt(gparent, node, node.right, true, root, Red, nodes, z, Node(a, parent, Red, b1), b2, u);
      t := Node(Node(a, parent, Red, b1), node, Black, Node(b2, gparent, Red, u));
    }

    /** Lines 143-150 when `node` is the outer grandchild. */
    static method InsertOuterLeft(gparent: RBTreeNode, parent: RBTreeNode, root: RBTreeNode?,
                                  ghost nodes: set<RBTreeNode>, ghost z: Context, ghost p: Shape, ghost u: Shape,
                                      ghost k: nat)
      returns (newRoot: RBTreeNode?, ghost t: Shape)
      requires Focused(Snap(nodes), z, Node(p, gparent, Black, u), root)
      requires Nodes(Node(p, gparent, Black, u)) + PathNodes(z) <= nodes
      requires IsRed(p) && p.node == parent && !IsRed(p.right) && !IsRed(u)
      requires Balanced(p.left, k) && Balanced(p.right, k) && Balanced(u, k)
      modifies nodes
      ensures Focused(Snap(nodes), z, t, newRoot)
      ensures Balanced(t, k + 1) && InOrder(t) == InOrder(Node(p, gparent, Black, u)) && !IsRed(t)
    {
      ghost var m := Snap(nodes);
      assert Spells(m, p, gparent) && Spells(m, u, gparent);
      SeparateParts(z, p.left, parent, p.right, gparent, u, Red, Black);
      newRoot := RotateRightAt(gparent, parent, parent.right, true, root, Red, nodes, z, p.left, p.right, u);
      t := Node(p.left, parent, Black, Node(p.right, gparent, Red, u));
      RotateOrder(p.left, parent, p.right, gparent, u, Black, Red, Red, Black);
    }

    /** Lines 167-174: the mirror image. */
    static method TuckRight(parent: RBTreeNode, node: RBTreeNode, ghost nodes: set<RBTreeNode>)
      requires parent != node && node.right != parent && node.right != node
      requires parent in nodes && node in nodes && Opt(node.right) <= nodes
      modifies parent, node, Opt(node.right)
      ensures var m, m', tmp := old(Snap(nodes)), Snap(nodes), old(node.right);
        && Agree(m, m', {parent, node} + Opt(tmp))
        && m'[parent] == Cell(node, Red, tmp, m[parent].right)
        && m'[node] == m[node].(right := parent)
        && (tmp != null ==> m'[tmp] == m[tmp].(parent := parent, color := Black))
    {
      var tmp := node.right;
      parent.left := tmp;
      node.right := parent;
      if tmp != null {
        tmp.parent, tmp.color := parent, Black;
      }
      parent.parent, parent.color := node, Red;
      assert forall n :: n in nodes && n !in {parent, node} + Opt(tmp) ==> n.ToCell() == old(n.ToCell());
    }

    static method TuckRightAt(gparent: RBTreeNode, parent: RBTreeNode, node: RBTreeNode, ghost nodes: set<RBTreeNode>,
                             ghost z: Context, ghost a: Shape, ghost b1: Shape, ghost b2: Shape, ghost u: Shape)
      requires Parts(z, u, gparent, b2, node, Node(b1, parent, Red, a))
      requires {gparent, parent, node} + Nodes(b1) <= nodes
      requires var m := Snap(nodes);
        && SpellsPath(m, z, gparent) && Spells(m, u, gparent)
        && parent.right == Root(a) && Spells(m, a, parent)
        && node.right == Root(b1) && Spells(m, b1, node) && !IsRed(b1)
        && Spells(m, b2, node)
      modifies nodes
      ensures var m := Snap(nodes);
        && SpellsPath(m, z, gparent) && Spells(m, u, gparent)
        && Spells(m, Node(b1, parent, Red, a), node) && Spells(m, b2, node)
        && m[gparent] == old(gparent.ToCell())
        && m[node] == old(node.ToCell()).(right := parent)
    {
      ghost var m := Snap(nodes);
      PartsMirrored(z, u, gparent, b2, node, Node(b1, parent, Red, a));
      TuckUntouched(z, Node(b1, parent, Red, a), a, parent, b1, node, b2, gparent, u);
      TuckRight(parent, node, nodes);
      Tucked(m, Snap(nodes), z, a, parent, b1, node, b2, gparent, u, {parent, node} + Opt(Root(b1)));
    }

    /** Lines 122-126 and 157-161: a red parent and a red uncle turn black, the grandparent red. */
    static method Recolor(gparent: RBTreeNode, parent: RBTreeNode, uncle: RBTreeNode, ghost nodes: set<RBTreeNode>)
      requires gparent != parent && gparent != uncle && parent != uncle
      requires {gparent, parent, uncle} <= nodes
      modifies gparent, parent, uncle
      ensures var m, m' := old(Snap(nodes)), Snap(nodes);
        && Agree(m, m', {gparent, parent, uncle})
        && m'[gparent] == m[gparent].(color := Red)
        && m'[parent] == m[parent].(parent := gparent, color := Black)
        && m'[uncle] == m[uncle].(parent := gparent, color := Black)
    {
      uncle.parent, uncle.color := gparent, Black;
      parent.parent, parent.color := gparent, Black;
      gparent.color := Red;
    }

    /** Lines 118-151: `parent` is a red left child below the black `gparent`, whose other child is `u`. */
    static method InsertFixLeft(gparent: RBTreeNode, parent: RBTreeNode, node: RBTreeNode, root: RBTreeNode?,
                                ghost nodes: set<RBTreeNode>, ghost z: Context, ghost p: Shape, ghost u: Shape,
                                    ghost k: nat)
      returns (done: bool, newRoot: RBTreeNode?, ghost t: Shape)
      requires Focused(Snap(nodes), z, Node(p, gparent, Black, u), root)
      requires Nodes(Node(p, gparent, Black, u)) + PathNodes(z) <= nodes
      requires RedRed(p, node, k) && p.node == parent && Balanced(u, k)
      modifies nodes
      ensures Focused(Snap(nodes), z, t, newRoot)
      ensures Balanced(t, k + 1) && InOrder(t) == InOrder(Node(p, gparent, Black, u))
      ensures if done then !IsRed(t) else IsRed(t) && t.node == gparent
    {
      ghost var m := Snap(nodes);
      assert Spells(m, p, gparent) && Spells(m, u, gparent);
      var tmp := gparent.right;
      if tmp != null && tmp.color == Red {
        done, newRoot, t := false, root, Node(Blackened(p), gparent, Red, Blackened(u));
        Recolor(gparent, parent, tmp, nodes);
        Recolored(m, Snap(nodes), z, p, gparent, u, root);
      } else if node == parent.right {
        newRoot, t := InsertInnerLeft(gparent, parent, node, root, nodes, z, p, u, k);
        done := true;
      } else {
        newRoot, t := InsertOuterLeft(gparent, parent, root, nodes, z, p, u, k);
        done := true;
      }
    }

    /** The mirror image, lines 165-185. */
    static method InsertInnerRight(gparent: RBTreeNode, parent: RBTreeNode, node: RBTreeNode, root: RBTreeNode?,
                                  ghost nodes: set<RBTreeNode>, ghost z: Context, ghost p: Shape, ghost u: Shape,
                                      ghost k: nat)
      returns (newRoot: RBTreeNode?, ghost t: Shape)
      requires Focused(Snap(nodes), z, Node(u, gparent, Black, p), root)
      requires Nodes(Node(u, gparent, Black, p)) + PathNodes(z) <= nodes
      requires RedRed(p, node, k) && p.node == parent && Root(p.left) == node && Balanced(u, k) && !IsRed(u)
      modifies nodes
      ensures Focused(Snap(nodes), z, t, newRoot)
      ensures Balanced(t, k + 1) && InOrder(t) == InOrder(Node(u, gparent, Black, p)) && !IsRed(t)
    {
      ghost var a, b1, b2 := InnerRightReady(Snap(nodes), z, p, node, gparent, u, k, root);
      TuckRightAt(gparent, parent, node, nodes, z, a, b1, b2, u);
      newRoot := RotateLeftAt(gparent, node, node.left, true, root, Red, nodes, z, u, b2, Node(b1, parent, Red, a));
      t := Node(Node(u, gparent, Red, b2), node, Black, Node(b1, parent, Red, a));
    }

    /** The mirror image, lines 178-185. */
    static method InsertOuterRight(gparent: RBTreeNode, parent: RBTreeNode, root: RBTreeNode?,
                                  ghost nodes: set<RBTreeNode>, ghost z: Context, ghost p: Shape, ghost u: Shape,
                                      ghost k: nat)
      returns (newRoot: RBTreeNode?, ghost t: Shape)
      requires Focused(Snap(nodes), z, Node(u, gparent, Black, p), root)
      requires Nodes(Node(u, gparent, Black, p)) + PathNodes(z) <= nodes
      requires IsRed(p) && p.node == parent && !IsRed(p.left) && !IsRed(u)
      requires Balanced(p.right, k) && Balanced(p.left, k) && Balanced(u, k)
      modifies nodes
      ensures Focused(Snap(nodes), z, t, newRoot)
      ensures Balanced(t, k + 1) && InOrder(t) == InOrder(Node(u, gparent, Black, p)) && !IsRed(t)
    {
      ghost var m := Snap(nodes);
      assert Spells(m, p, gparent) && Spells(m, u, gparent);
      SeparateParts(z, u, gparent, p.left, parent, p.right, Black, Red);
      newRoot := RotateLeftAt(gparent, parent, parent.left, true, root, Red, nodes, z, u, p.left, p.right);
      t := Node(Node(u, gparent, Red, p.left), parent, Black, p.right);
      RotateOrder(u, gparent, p.left, parent, p.right, Black, Red, Red, Black);
    }

    /** The mirror image, lines 152-186. */
    static method InsertFixRight(gparent: RBTreeNode, parent: RBTreeNode, node: RBTreeNode, root: RBTreeNode?,
                                ghost nodes: set<RBTreeNode>, ghost z: Context, ghost p: Shape, ghost u: Shape,
                                    ghost k: nat)
      returns (done: bool, newRoot: RBTreeNode?, ghost t: Shape)
      requires Focused(Snap(nodes), z, Node(u, gparent, Black, p), root)
      requires Nodes(Node(u, gparent, Black, p)) + PathNodes(z) <= nodes
      requires RedRed(p, node, k) && p.node == parent && Balanced(u, k)
      modifies nodes
      ensures Focused(Snap(nodes), z, t, newRoot)
      ensures Balanced(t, k + 1) && InOrder(t) == InOrder(Node(u, gparent, Black, p))
      ensures if done then !IsRed(t) else IsRed(t) && t.node == gparent
    {
      ghost var m := Snap(nodes);
      assert Spells(m, p, gparent) && Spells(m, u, gparent);
      var tmp := gparent.left;
      if tmp != null && tmp.color == Red {
        done, newRoot, t := false, root, Node(Blackened(u), gparent, Red, Blackened(p));
        Recolor(gparent, parent, tmp, nodes);
        Recolored(m, Snap(nodes), z, u, gparent, p, root);
      } else if node == parent.left {
        newRoot, t := InsertInnerRight(gparent, parent, node, root, nodes, z, p, u, k);
        done := true;
      } else {
        newRoot, t := InsertOuterRight(gparent, parent, root, nodes, z, p, u, k);
        done := true;
      }
    }

    /** Lines 97-100: the node becomes a red leaf stored through `link`. */
    method LinkTo(parent: RBTreeNode?, link: Link, root: RBTreeNode?, ghost z: Context) returns (newRoot: RBTreeNode?)
      requires DistinctPath(z) && this !in PathNodes(z) && SpellsPath(Snap(PathNodes(z)), z, null)
      requires parent == ParentOf(z) && link == LinkOf(z) && root == RootOf(z, null)
      modifies PathNodes(z), this
      ensures Focused(Snap(PathNodes(z) + {this}), z, Node(Leaf, this, Red, Leaf), newRoot)
    {
      ghost var m := Snap(PathNodes(z));
      this.parent, this.color := parent, Red;
      left, right := null, null;
      newRoot := root;
      match link {
        case RootLink => newRoot := this;
        case LeftLink => parent.left := this;
        case RightLink => parent.right := this;
      }
      RootOfNode(z, null, this);
      HoleFilled(m, Snap(PathNodes(z) + {this}), z, this, newRoot);
    }

    /** `RBTreeNode::Insert`: link the node as a red leaf at the hole of `z`, then repair the colours upwards. */
    method Insert(parent0: RBTreeNode?, link: Link, root: RBTreeNode?, ghost z0: Context)
      returns (newRoot: RBTreeNode?, ghost whole: Shape)
      requires DistinctPath(z0) && this !in PathNodes(z0) && SpellsPath(Snap(PathNodes(z0)), z0, null) && Fits(z0, 0)
      requires parent0 == ParentOf(z0) && link == LinkOf(z0) && root == RootOf(z0, null)
      modifies PathNodes(z0), this
      ensures Whole(Snap(PathNodes(z0) + {this}), PathNodes(z0) + {this}, whole, newRoot,
                    Before(z0) + [this] + After(z0))
    {
      newRoot := LinkTo(parent0, link, root, z0);
      ghost var t, nodes := Node(Leaf, this, Red, Leaf), PathNodes(z0) + {this};
      LeafInserted(Snap(nodes), nodes, z0, this, newRoot);
      newRoot, whole := InsertRepair(parent0, newRoot, nodes, z0, t, Before(z0) + [this] + After(z0));
    }

    /** Lines 102-187. The conflict climbs two levels per round, so the context shrinks. */
    method InsertRepair(parent0: RBTreeNode?, root: RBTreeNode?, ghost nodes: set<RBTreeNode>,
                        ghost z0: Context, ghost t0: Shape, ghost order: seq<RBTreeNode>)
      returns (newRoot: RBTreeNode?, ghost whole: Shape)
      requires Inserting(Snap(nodes), nodes, z0, t0, 0, root, order)
      requires IsRed(t0) && t0.node == this && parent0 == ParentOf(z0)
      modifies nodes
      ensures Whole(Snap(nodes), nodes, whole, newRoot, order)
    {
      newRoot := root;
      var node, parent := this, parent0;
      ghost var z, t, k := z0, t0, 0;
      while true
        invariant Inserting(Snap(nodes), nodes, z, t, k, newRoot, order)
        invariant IsRed(t) && t.node == node && parent == ParentOf(z)
        decreases z
      {
        if parent == null {
          whole := node.BlackenRoot(newRoot, nodes, z, t, k, order);
          return;
        }
        if parent.color == Black {
          break;
        }
        var done: bool;
        done, newRoot, node, parent, t := InsertFix(parent, node, newRoot, nodes, z, t, k, order);
        z, k := z.up.up, k + 1;
        if done {
          break;
        }
      }
      Inserted(Snap(nodes), nodes, z, t, k, newRoot, order);
      whole := Plug(z, t);
    }

    /** Lines 116-186, one round of the loop: either the conflict moves up to the grandparent or it is gone. */
    static method InsertFix(parent: RBTreeNode, node: RBTreeNode, root: RBTreeNode?, ghost nodes: set<RBTreeNode>,
                            ghost z: Context, ghost t0: Shape, ghost k: nat, ghost order: seq<RBTreeNode>)
      returns (done: bool, newRoot: RBTreeNode?, gparent: RBTreeNode, next: RBTreeNode?, ghost t: Shape)
      requires Inserting(Snap(nodes), nodes, z, t0, k, root, order)
      requires IsRed(t0) && t0.node == node && parent == ParentOf(z) && RedParent(z)
      modifies nodes
      ensures !z.up.Top? && Inserting(Snap(nodes), nodes, z.up.up, t, k + 1, newRoot, order)
      ensures if done then !IsRed(t) else IsRed(t) && t.node == gparent && next == ParentOf(z.up.up)
    {
      ConflictColors(z, t0, k);
      ConflictLinks(Snap(nodes), z, t0, root);
      gparent := parent.parent;
      var tmp := gparent.right;
      ghost var p, u := Above(z, t0), z.up.sibling;
      if parent != tmp {
        done, newRoot, t := InsertFixLeft(gparent, parent, node, root, nodes, z.up.up, p, u, k);
      } else {
        done, newRoot, t := InsertFixRight(gparent, parent, node, root, nodes, z.up.up, p, u, k);
      }
      ConflictSolved(z, t0, t);
      next := gparent.parent;
    }

    /** Line 109: a red root turns black. */
    method BlackenRoot(root: RBTreeNode?, ghost nodes: set<RBTreeNode>, ghost z: Context, ghost t: Shape, ghost k: nat,
                       ghost order: seq<RBTreeNode>)
      returns (ghost whole: Shape)
      requires Inserting(Snap(nodes), nodes, z, t, k, root, order) && z.Top? && IsRed(t) && t.node == this
      modifies this
      ensures Whole(Snap(nodes), nodes, whole, root, order)
    {
      ghost var m := Snap(nodes);
      parent, color := null, Black;
      whole := Blackened(t);
      SpellsFrame(m, Snap(nodes), t.left, this, {this});
      SpellsFrame(m, Snap(nodes), t.right, this, {this});
      BlackenedNodes(t);
      BalancedHeight(whole, k + 1);
    }

    /** Lines 293-296 and 349-352: the sibling turns red, the parent black (a red one by `SetBlack`). */
    static method EraseRecolor(parent: RBTreeNode, sibling: RBTreeNode, ghost nodes: set<RBTreeNode>)
      returns (done: bool)
      requires parent != sibling && {parent, sibling} <= nodes && sibling.parent == parent
      modifies parent, sibling
      ensures var m, m' := old(Snap(nodes)), Snap(nodes);
        Agree(m, m', {parent, sibling}) && m'[parent] == m[parent].(color := Black) &&
            m'[sibling] == m[sibling].(color := Red)
      ensures done <==> old(parent.color) == Red
    {
      sibling.parent, sibling.color := parent, Red;
      done := parent.color == Red;
      if done {
        parent.color := Black;
      }
    }

    /** Lines 320-329 when the outer nephew is red. */
    static method EraseOuterLeft(parent: RBTreeNode, sibling: RBTreeNode, tmp1: RBTreeNode, root: RBTreeNode?,
                                 ghost nodes: set<RBTreeNode>, ghost z: Context, ghost t: Shape, ghost c: Color,
                                     ghost s: Shape,
                                 ghost k: nat)
      returns (newRoot: RBTreeNode?, ghost t': Shape)
      requires Focused(Snap(nodes), z, Node(t, parent, c, s), root)
      requires Nodes(Node(t, parent, c, s)) + PathNodes(z) <= nodes
      requires Root(s) == sibling && s.color == Black && IsRed(s.right) && s.right.node == tmp1
      requires Balanced(t, k) && Balanced(s, k + 1)
      modifies nodes
      ensures Focused(Snap(nodes), z, t', newRoot)
      ensures Balanced(t', if c == Black then k + 2 else k + 1) && (IsRed(t') ==> c == Red)
      ensures InOrder(t') == InOrder(Node(t, parent, c, s))
    {
      ghost var m := Snap(nodes);
      assert Spells(m, s, parent) && Spells(m, s.right, sibling);
      SeparateParts(z, t, parent, s.left, sibling, s.right, c, Black);
      tmp1.BlackenUnder(sibling, nodes, z, t, parent, s.left, s.right);
      newRoot := RotateLeftAt(parent, sibling, sibling.left, false, root, Black, nodes, z, t, s.left,
          Blackened(s.right));
      t' := Node(Node(t, parent, Black, s.left), sibling, c, Blackened(s.right));
      OuterLeft(t, parent, c, s, k);
    }

    /** Line 323 and 379: the outer nephew turns black below the sibling. */
    method BlackenUnder(sibling: RBTreeNode, ghost nodes: set<RBTreeNode>, ghost z: Context,
                        ghost t: Shape, ghost parent: RBTreeNode, ghost b: Shape, ghost c: Shape)
      requires Parts(z, t, parent, b, sibling, c)
      requires Root(c) == this && this in nodes && {parent, sibling} <= nodes
      requires var m := Snap(nodes);
        SpellsPath(m, z, parent) && Spells(m, t, parent) && Spells(m, b, sibling) && Spells(m, c, sibling)
      modifies this
      ensures var m, m' := old(Snap(nodes)), Snap(nodes);
        && SpellsPath(m', z, parent) && Spells(m', t, parent) && Spells(m', b, sibling) &&
            Spells(m', Blackened(c), sibling)
        && m'[parent] == m[parent] && m'[sibling] == m[sibling]
      ensures Parts(z, t, parent, b, sibling, Blackened(c)) && Nodes(Blackened(c)) == Nodes(c)
    {
      ghost var m := Snap(nodes);
      this.parent, this.color := sibling, Black;
      OuterApart(z, t, parent, b, sibling, c);
      OuterBlackened(m, Snap(nodes), z, t, parent, b, sibling, c);
      PartsBlackened(z, t, parent, b, sibling, c);
    }

    /** Lines 309-318 and 323 when the inner nephew `tmp2` is red: it moves above the sibling. */
    static method EraseTuckLeft(parent: RBTreeNode, sibling: RBTreeNode, tmp2: RBTreeNode, ghost nodes: set<RBTreeNode>)
      requires parent != sibling && parent != tmp2 && sibling != tmp2 && tmp2.right !in {parent, sibling, tmp2}
      requires {parent, sibling, tmp2} <= nodes && Opt(tmp2.right) <= nodes
      modifies parent, sibling, tmp2, Opt(tmp2.right)
      ensures var m, m', tmp1 := old(Snap(nodes)), Snap(nodes), old(tmp2.right);
        && Agree(m, m', {parent, sibling, tmp2} + Opt(tmp1))
        && m'[parent] == m[parent].(right := tmp2)
        && m'[sibling] == m[sibling].(left := tmp1, parent := tmp2, color := Black)
        && m'[tmp2] == m[tmp2].(right := sibling)
        && (tmp1 != null ==> m'[tmp1] == m[tmp1].(parent := sibling, color := Black))
    {
      var tmp1 := tmp2.right;
      sibling.left := tmp1;
      tmp2.right := sibling;
      parent.right := tmp2;
      if tmp1 != null {
        tmp1.parent, tmp1.color := sibling, Black;
      }
      sibling.parent, sibling.color := tmp2, Black;
      assert forall n :: n in nodes && n !in {parent, sibling, tmp2} + Opt(tmp1) ==> n.ToCell() == old(n.ToCell());
    }

    static method EraseTuckLeftAt(parent: RBTreeNode, sibling: RBTreeNode, tmp2: RBTreeNode,
                                  ghost nodes: set<RBTreeNode>,
                                  ghost z: Context, ghost t: Shape, ghost b1: Shape, ghost b2: Shape, ghost d: Shape)
      requires Parts(z, t, parent, b1, tmp2, Node(b2, sibling, Black, d))
      requires {parent, sibling, tmp2} + Nodes(b2) <= nodes
      requires var m := Snap(nodes);
        && SpellsPath(m, z, parent) && Spells(m, t, parent)
        && Spells(m, b1, tmp2) && tmp2.right == Root(b2) && Spells(m, b2, tmp2) && !IsRed(b2)
        && sibling.right == Root(d) && Spells(m, d, sibling)
      modifies nodes
      ensures var m, m' := old(Snap(nodes)), Snap(nodes);
        && SpellsPath(m', z, parent) && Spells(m', t, parent) && Spells(m', b1, tmp2)
        && Spells(m', Node(b2, sibling, Black, d), tmp2)
        && m'[parent] == m[parent].(right := tmp2) && m'[tmp2] == m[tmp2].(right := sibling)
    {
      ghost var m := Snap(nodes);
      NephewUntouched(z, t, parent, b1, tmp2, Node(b2, sibling, Black, d), b2, sibling, d);
      EraseTuckLeft(parent, sibling, tmp2, nodes);
      NephewMoved(m, Snap(nodes), z, t, parent, b1, tmp2, b2, sibling, d, {parent, sibling, tmp2} + Opt(Root(b2)));
    }

    /** Lines 309-329 when the outer nephew is black and the inner one red. */
    static method EraseInnerLeft(parent: RBTreeNode, sibling: RBTreeNode, tmp2: RBTreeNode, root: RBTreeNode?,
                                 ghost nodes: set<RBTreeNode>, ghost z: Context, ghost t: Shape, ghost c: Color,
                                     ghost s: Shape,
                                 ghost k: nat)
      returns (newRoot: RBTreeNode?, ghost t': Shape)
      requires Focused(Snap(nodes), z, Node(t, parent, c, s), root)
      requires Nodes(Node(t, parent, c, s)) + PathNodes(z) <= nodes
      requires Root(s) == sibling && s.color == Black && IsRed(s.left) && s.left.node == tmp2
      requires Balanced(t, k) && Balanced(s, k + 1)
      modifies nodes
      ensures Focused(Snap(nodes), z, t', newRoot)
      ensures Balanced(t', if c == Black then k + 2 else k + 1) && (IsRed(t') ==> c == Red)
      ensures InOrder(t') == InOrder(Node(t, parent, c, s))
    {
      ghost var m := Snap(nodes);
      assert Spells(m, s, parent) && Spells(m, s.left, sibling);
      ghost var b1, b2, d := s.left.left, s.left.right, s.right;
      assert Balanced(s.left, k);
      NephewLeft(z, t, parent, c, b1, tmp2, b2, sibling, d);
      NephewColors(t, parent, c, b1, tmp2, b2, sibling, d, k);
      EraseTuckLeftAt(parent, sibling, tmp2, nodes, z, t, b1, b2, d);
      newRoot := RotateLeftAt(parent, tmp2, tmp2.left, false, root, Black, nodes, z, t, b1, Node(b2, sibling, Black,
          d));
      t' := Node(Node(t, parent, Black, b1), tmp2, c, Node(b2, sibling, Black, d));
    }

    /** Lines 287-329: the hole is on the left and its sibling is black. */
    static method EraseBlackLeft(parent: RBTreeNode, sibling: RBTreeNode, root: RBTreeNode?,
                                 ghost nodes: set<RBTreeNode>,
                                 ghost z: Context, ghost t: Shape, ghost c: Color, ghost s: Shape, ghost k: nat)
      returns (done: bool, newRoot: RBTreeNode?, ghost t': Shape)
      requires Focused(Snap(nodes), z, Node(t, parent, c, s), root)
      requires Nodes(Node(t, parent, c, s)) + PathNodes(z) <= nodes
      requires Root(s) == sibling && s.color == Black && !IsRed(t)
      requires Balanced(t, k) && Balanced(s, k + 1)
      modifies nodes
      ensures Focused(Snap(nodes), z, t', newRoot)
      ensures if done then Balanced(t', if c == Black then k + 2 else k + 1) && (IsRed(t') ==> c == Red)
              else c == Black && Balanced(t', k + 1) && !IsRed(t') && Root(t') == parent
      ensures InOrder(t') == InOrder(Node(t, parent, c, s))
    {
      ghost var m := Snap(nodes);
      assert Spells(m, s, parent) && Spells(m, s.left, sibling) && Spells(m, s.right, sibling);
      done, newRoot := true, root;
      var tmp1 := sibling.right;
      if tmp1 == null || tmp1.color == Black {
        var tmp2 := sibling.left;
        if tmp2 == null || tmp2.color == Black {
          done := EraseRecolor(parent, sibling, nodes);
          t' := Node(t, parent, Black, s.(color := Red));
          assert Balanced(s.(color := Red), k);
          SiblingRecolored(m, Snap(nodes), z, t, parent, c, s, sibling, root);
        } else {
          newRoot, t' := EraseInnerLeft(parent, sibling, tmp2, root, nodes, z, t, c, s, k);
        }
      } else {
        newRoot, t' := EraseOuterLeft(parent, sibling, tmp1, root, nodes, z, t, c, s, k);
      }
    }

    /** Lines 278-286: a red sibling is rotated above the parent. */
    static method EraseRedLeft(parent: RBTreeNode, sibling: RBTreeNode, root: RBTreeNode?, ghost nodes: set<RBTreeNode>,
                               ghost z: Context, ghost t: Shape, ghost k: nat)
      returns (newRoot: RBTreeNode?, tmp1: RBTreeNode)
      requires z.InLeft? && Focused(Snap(nodes), z.up, Above(z, t), root)
      requires Nodes(Above(z, t)) + PathNodes(z.up) <= nodes
      requires z.node == parent && Root(z.sibling) == sibling && IsRed(z.sibling)
      requires Balanced(t, k) && Fits(z, k + 1)
      modifies nodes
      ensures var s := z.sibling;
        var z', t' := InLeft(z.up, sibling, Black, s.right), Node(t, parent, Red, s.left);
        && s.left.Node? && s.left.color == Black && tmp1 == s.left.node && Balanced(s.left, k + 1) && Fits(z', k + 1)
        && Focused(Snap(nodes), z', t', newRoot) && InOrder(Plug(z', t')) == InOrder(Plug(z.up, Above(z, t)))
        && Nodes(t') + PathNodes(z') <= nodes
    {
      ghost var s := z.sibling;
      RedSibling(z, t, k);
      assert Spells(Snap(nodes), s, parent);
      tmp1 := sibling.left;
      SeparateParts(z.up, t, parent, s.left, sibling, s.right, Black, Red);
      newRoot := RotateLeftAt(parent, sibling, tmp1, true, root, Red, nodes, z.up, t, s.left, s.right);
      FocusDownLeft(Snap(nodes), z.up, Node(t, parent, Red, s.left), sibling, Black, s.right, newRoot);
      PlugSameOrder(z.up, Above(z, t), Node(Node(t, parent, Red, s.left), sibling, Black, s.right));
    }

    /** Lines 278-329, one round with the hole on the left. */
    static method EraseFixLeft(parent: RBTreeNode, sibling0: RBTreeNode, root: RBTreeNode?,
                               ghost nodes: set<RBTreeNode>,
                               ghost z: Context, ghost t: Shape, ghost k: nat)
      returns (done: bool, newRoot: RBTreeNode?, ghost z': Context, ghost t': Shape, ghost k': nat)
      requires z.InLeft? && Focused(Snap(nodes), z.up, Above(z, t), root)
      requires Nodes(Above(z, t)) + PathNodes(z.up) <= nodes
      requires z.node == parent && Root(z.sibling) == sibling0
      requires Balanced(t, k) && !IsRed(t) && Fits(z, k + 1)
      modifies nodes
      ensures Focused(Snap(nodes), z', t', newRoot) && Balanced(t', k')
      ensures InOrder(Plug(z', t')) == InOrder(Plug(z.up, Above(z, t)))
      ensures if done then Fits(z', k') && (IsRed(t') ==> !z'.Top? && !RedParent(z'))
              else z' == z.up && Fits(z', k' + 1) && !IsRed(t') && Root(t') == parent
    {
      ghost var m := Snap(nodes);
      ghost var c, s := z.color, z.sibling;
      z', k' := z.up, if c == Black then k + 2 else k + 1;
      newRoot := root;
      assert Spells(m, s, parent);
      var sibling := sibling0;
      if sibling.color == Red {
        z', c, k' := InLeft(z.up, sibling, Black, s.right), Red, k + 1;
        newRoot, sibling := EraseRedLeft(parent, sibling, root, nodes, z, t, k);
        s := s.left;
      }
      ghost var whole := Node(t, parent, c, s);
      assert Nodes(whole) + PathNodes(z') <= nodes && Focused(Snap(nodes), z', whole, newRoot);
      done, newRoot, t' := EraseBlackLeft(parent, sibling, newRoot, nodes, z', t, c, s, k);
      PlugSameOrder(z', whole, t');
      if !done {
        k' := k + 1;
      }
    }

    /** The mirror image, lines 376-385. */
    static method EraseOuterRight(parent: RBTreeNode, sibling: RBTreeNode, tmp1: RBTreeNode, root: RBTreeNode?,
                                 ghost nodes: set<RBTreeNode>, ghost z: Context, ghost t: Shape, ghost c: Color,
                                     ghost s: Shape,
                                 ghost k: nat)
      returns (newRoot: RBTreeNode?, ghost t': Shape)
      requires Focused(Snap(nodes), z, Node(s, parent, c, t), root)
      requires Nodes(Node(s, parent, c, t)) + PathNodes(z) <= nodes
      requires Root(s) == sibling && s.color == Black && IsRed(s.left) && s.left.node == tmp1
      requires Balanced(t, k) && Balanced(s, k + 1)
      modifies nodes
      ensures Focused(Snap(nodes), z, t', newRoot)
      ensures Balanced(t', if c == Black then k + 2 else k + 1) && (IsRed(t') ==> c == Red)
      ensures InOrder(t') == InOrder(Node(s, parent, c, t))
    {
      ghost var m := Snap(nodes);
      assert Spells(m, s, parent) && Spells(m, s.left, sibling);
      SeparateParts(z, s.left, sibling, s.right, parent, t, Black, c);
      assert Parts(z, t, parent, s.right, sibling, s.left);
      tmp1.BlackenUnder(sibling, nodes, z, t, parent, s.right, s.left);
      newRoot := RotateRightAt(parent, sibling, sibling.right, false, root, Black, nodes, z, Blackened(s.left),
          s.right, t);
      t' := Node(Blackened(s.left), sibling, c, Node(s.right, parent, Black, t));
      OuterRight(t, parent, c, s, k);
    }

    /** The mirror image, lines 365-374 and 379. */
    static method EraseTuckRight(parent: RBTreeNode, sibling: RBTreeNode, tmp2: RBTreeNode,
                                 ghost nodes: set<RBTreeNode>)
      requires parent != sibling && parent != tmp2 && sibling != tmp2 && tmp2.left !in {parent, sibling, tmp2}
      requires {parent, sibling, tmp2} <= nodes && Opt(tmp2.left) <= nodes
      modifies parent, sibling, tmp2, Opt(tmp2.left)
      ensures var m, m', tmp1 := old(Snap(nodes)), Snap(nodes), old(tmp2.left);
        && Agree(m, m', {parent, sibling, tmp2} + Opt(tmp1))
        && m'[parent] == m[parent].(left := tmp2)
        && m'[sibling] == m[sibling].(right := tmp1, parent := tmp2, color := Black)
        && m'[tmp2] == m[tmp2].(left := sibling)
        && (tmp1 != null ==> m'[tmp1] == m[tmp1].(parent := sibling, color := Black))
    {
      var tmp1 := tmp2.left;
      sibling.right := tmp1;
      tmp2.left := sibling;
      parent.left := tmp2;
      if tmp1 != null {
        tmp1.parent, tmp1.color := sibling, Black;
      }
      sibling.parent, sibling.color := tmp2, Black;
      assert forall n :: n in nodes && n !in {parent, sibling, tmp2} + Opt(tmp1) ==> n.ToCell() == old(n.ToCell());
    }

    static method EraseTuckRightAt(parent: RBTreeNode, sibling: RBTreeNode, tmp2: RBTreeNode,
                                   ghost nodes: set<RBTreeNode>,
                                  ghost z: Context, ghost t: Shape, ghost b1: Shape, ghost b2: Shape, ghost d: Shape)
      requires Parts(z, t, parent, b1, tmp2, Node(d, sibling, Black, b2))
      requires {parent, sibling, tmp2} + Nodes(b2) <= nodes
      requires var m := Snap(nodes);
        && SpellsPath(m, z, parent) && Spells(m, t, parent)
        && Spells(m, b1, tmp2) && tmp2.left == Root(b2) && Spells(m, b2, tmp2) && !IsRed(b2)
        && sibling.left == Root(d) && Spells(m, d, sibling)
      modifies nodes
      ensures var m, m' := old(Snap(nodes)), Snap(nodes);
        && SpellsPath(m', z, parent) && Spells(m', t, parent) && Spells(m', b1, tmp2)
        && Spells(m', Node(d, sibling, Black, b2), tmp2)
        && m'[parent] == m[parent].(left := tmp2) && m'[tmp2] == m[tmp2].(left := sibling)
    {
      ghost var m := Snap(nodes);
      NephewUntouched(z, t, parent, b1, tmp2, Node(d, sibling, Black, b2), b2, sibling, d);
      EraseTuckRight(parent, sibling, tmp2, nodes);
      NephewMoved(m, Snap(nodes), z, t, parent, b1, tmp2, b2, sibling, d, {parent, sibling, tmp2} + Opt(Root(b2)));
    }

    /** The mirror image, lines 365-385. */
    static method EraseInnerRight(parent: RBTreeNode, sibling: RBTreeNode, tmp2: RBTreeNode, root: RBTreeNode?,
                                 ghost nodes: set<RBTreeNode>, ghost z: Context, ghost t: Shape, ghost c: Color,
                                     ghost s: Shape,
                                 ghost k: nat)
      returns (newRoot: RBTreeNode?, ghost t': Shape)
      requires Focused(Snap(nodes), z, Node(s, parent, c, t), root)
      requires Nodes(Node(s, parent, c, t)) + PathNodes(z) <= nodes
      requires Root(s) == sibling && s.color == Black && IsRed(s.right) && s.right.node == tmp2
      requires Balanced(t, k) && Balanced(s, k + 1)
      modifies nodes
      ensures Focused(Snap(nodes), z, t', newRoot)
      ensures Balanced(t', if c == Black then k + 2 else k + 1) && (IsRed(t') ==> c == Red)
      ensures InOrder(t') == InOrder(Node(s, parent, c, t))
    {
      ghost var m := Snap(nodes);
      assert Spells(m, s, parent) && Spells(m, s.right, sibling);
      ghost var b1, b2, d := s.right.right, s.right.left, s.left;
      assert Balanced(s.right, k);
      NephewRight(z, d, sibling, b2, tmp2, b1, parent, c, t);
      NephewColors(t, parent, c, b1, tmp2, b2, sibling, d, k);
      EraseTuckRightAt(parent, sibling, tmp2, nodes, z, t, b1, b2, d);
      newRoot := RotateRightAt(parent, tmp2, tmp2.right, false, root, Black, nodes, z, Node(d, sibling, Black, b2),
          b1, t);
      t' := Node(Node(d, sibling, Black, b2), tmp2, c, Node(b1, parent, Black, t));
    }

    /** The mirror image, lines 343-385. */
    static method EraseBlackRight(parent: RBTreeNode, sibling: RBTreeNode, root: RBTreeNode?,
                                  ghost nodes: set<RBTreeNode>,
                                 ghost z: Context, ghost t: Shape, ghost c: Color, ghost s: Shape, ghost k: nat)
      returns (done: bool, newRoot: RBTreeNode?, ghost t': Shape)
      requires Focused(Snap(nodes), z, Node(s, parent, c, t), root)
      requires Nodes(Node(s, parent, c, t)) + PathNodes(z) <= nodes
      requires Root(s) == sibling && s.color == Black && !IsRed(t)
      requires Balanced(t, k) && Balanced(s, k + 1)
      modifies nodes
      ensures Focused(Snap(nodes), z, t', newRoot)
      ensures if done then Balanced(t', if c == Black then k + 2 else k + 1) && (IsRed(t') ==> c == Red)
              else c == Black && Balanced(t', k + 1) && !IsRed(t') && Root(t') == parent
      ensures InOrder(t') == InOrder(Node(s, parent, c, t))
    {
      ghost var m := Snap(nodes);
      assert Spells(m, s, parent) && Spells(m, s.right, sibling) && Spells(m, s.left, sibling);
      done, newRoot := true, root;
      var tmp1 := sibling.left;
      if tmp1 == null || tmp1.color == Black {
        var tmp2 := sibling.right;
        if tmp2 == null || tmp2.color == Black {
          done := EraseRecolor(parent, sibling, nodes);
          t' := Node(s.(color := Red), parent, Black, t);
          assert Balanced(s.(color := Red), k);
          SiblingRecolored(m, Snap(nodes), z, s, parent, c, t, sibling, root);
        } else {
          newRoot, t' := EraseInnerRight(parent, sibling, tmp2, root, nodes, z, t, c, s, k);
        }
      } else {
        newRoot, t' := EraseOuterRight(parent, sibling, tmp1, root, nodes, z, t, c, s, k);
      }
    }

    /** The mirror image, lines 334-342. */
    static method EraseRedRight(parent: RBTreeNode, sibling: RBTreeNode, root: RBTreeNode?,
                                ghost nodes: set<RBTreeNode>,
                                ghost z: Context, ghost t: Shape, ghost k: nat)
      returns (newRoot: RBTreeNode?, tmp1: RBTreeNode)
      requires z.InRight? && Focused(Snap(nodes), z.up, Above(z, t), root)
      requires Nodes(Above(z, t)) + PathNodes(z.up) <= nodes
      requires z.node == parent && Root(z.sibling) == sibling && IsRed(z.sibling)
      requires Balanced(t, k) && Fits(z, k + 1)
      modifies nodes
      ensures var s := z.sibling;
        var z', t' := InRight(s.left, sibling, Black, z.up), Node(s.right, parent, Red, t);
        && s.right.Node? && s.right.color == Black && tmp1 == s.right.node && Balanced(s.right, k + 1)
        && Fits(z', k + 1)
        && Focused(Snap(nodes), z', t', newRoot) && InOrder(Plug(z', t')) == InOrder(Plug(z.up, Above(z, t)))
        && Nodes(t') + PathNodes(z') <= nodes
    {
      ghost var s := z.sibling;
      RedSibling(z, t, k);
      assert Spells(Snap(nodes), s, parent);
      tmp1 := sibling.right;
      SeparateParts(z.up, s.left, sibling, s.right, parent, t, Red, Black);
      newRoot := RotateRightAt(parent, sibling, tmp1, true, root, Red, nodes, z.up, s.left, s.right, t);
      FocusDownRight(Snap(nodes), z.up, s.left, sibling, Black, Node(s.right, parent, Red, t), newRoot);
      PlugSameOrder(z.up, Above(z, t), Node(s.left, sibling, Black, Node(s.right, parent, Red, t)));
    }

    /** The mirror image, lines 333-385. */
    static method EraseFixRight(parent: RBTreeNode, sibling0: RBTreeNode, root: RBTreeNode?,
                                ghost nodes: set<RBTreeNode>,
                               ghost z: Context, ghost t: Shape, ghost k: nat)
      returns (done: bool, newRoot: RBTreeNode?, ghost z': Context, ghost t': Shape, ghost k': nat)
      requires z.InRight? && Focused(Snap(nodes), z.up, Above(z, t), root)
      requires Nodes(Above(z, t)) + PathNodes(z.up) <= nodes
      requires z.node == parent && Root(z.sibling) == sibling0
      requires Balanced(t, k) && !IsRed(t) && Fits(z, k + 1)
      modifies nodes
      ensures Focused(Snap(nodes), z', t', newRoot) && Balanced(t', k')
      ensures InOrder(Plug(z', t')) == InOrder(Plug(z.up, Above(z, t)))
      ensures if done then Fits(z', k') && (IsRed(t') ==> !z'.Top? && !RedParent(z'))
              else z' == z.up && Fits(z', k' + 1) && !IsRed(t') && Root(t') == parent
    {
      ghost var m := Snap(nodes);
      ghost var c, s := z.color, z.sibling;
      z', k' := z.up, if c == Black then k + 2 else k + 1;
      newRoot := root;
      assert Spells(m, s, parent);
      var sibling := sibling0;
      if sibling.color == Red {
        z', c, k' := InRight(s.left, sibling, Black, z.up), Red, k + 1;
        newRoot, sibling := EraseRedRight(parent, sibling, root, nodes, z, t, k);
        s := s.right;
      }
      ghost var whole := Node(s, parent, c, t);
      assert Nodes(whole) + PathNodes(z') <= nodes && Focused(Snap(nodes), z', whole, newRoot);
      done, newRoot, t' := EraseBlackRight(parent, sibling, newRoot, nodes, z', t, c, s, k);
      PlugSameOrder(z', whole, t');
      if !done {
        k' := k + 1;
      }
    }

    /** Lines 275-387, one round. */
    static method EraseFix(parent: RBTreeNode, node: RBTreeNode?, root: RBTreeNode?, ghost nodes: set<RBTreeNode>,
                           ghost z: Context, ghost t: Shape, ghost k: nat, ghost order: seq<RBTreeNode>)
      returns (done: bool, newRoot: RBTreeNode?, ghost z': Context, ghost t': Shape, ghost k': nat)
      requires Short(Snap(nodes), nodes, z, t, k, root, order) && node == Root(t) && ParentOf(z) == parent
      modifies nodes
      ensures done ==> Inserting(Snap(nodes), nodes, z', t', k', newRoot, order) && (IsRed(t') ==>
                !z'.Top? && !RedParent(z'))
      ensures !done ==> z' == z.up && Short(Snap(nodes), nodes, z', t', k', newRoot, order) && Root(t') == parent
    {
      ShortUp(Snap(nodes), nodes, z, t, k, root, order);
      done, newRoot, z', t', k' := EraseSide(parent, node, root, nodes, z, t, k);
      FixedUp(Snap(nodes), nodes, z', t', k', newRoot, z, t, order);
    }

    /** The side of the hole is told by comparing `node` with the right child. */
    static method EraseSide(parent: RBTreeNode, node: RBTreeNode?, root: RBTreeNode?, ghost nodes: set<RBTreeNode>,
                            ghost z: Context, ghost t: Shape, ghost k: nat)
      returns (done: bool, newRoot: RBTreeNode?, ghost z': Context, ghost t': Shape, ghost k': nat)
      requires !z.Top? && Focused(Snap(nodes), z.up, Above(z, t), root) && z.sibling.Node?
      requires Nodes(Above(z, t)) + PathNodes(z.up) <= nodes && z.node == parent
      requires z.InLeft? <==> parent.right != node
      requires Root(z.sibling) == if z.InLeft? then parent.right else parent.left
      requires Balanced(t, k) && !IsRed(t) && Fits(z, k + 1)
      modifies nodes
      ensures Focused(Snap(nodes), z', t', newRoot) && Balanced(t', k')
      ensures InOrder(Plug(z', t')) == InOrder(Plug(z.up, Above(z, t)))
      ensures if done then Fits(z', k') && (IsRed(t') ==> !z'.Top? && !RedParent(z'))
              else z' == z.up && Fits(z', k' + 1) && !IsRed(t') && Root(t') == parent
    {
      var sibling := parent.right;
      if node != sibling {
        done, newRoot, z', t', k' := EraseFixLeft(parent, sibling, root, nodes, z, t, k);
      } else {
        sibling := parent.left;
        done, newRoot, z', t', k' := EraseFixRight(parent, sibling, root, nodes, z, t, k);
      }
    }

    /** One round of lines 268-388: the fix-up ends, or the hole is one level higher. */
    static method EraseRound(parent: RBTreeNode, node: RBTreeNode?, root: RBTreeNode?, ghost nodes: set<RBTreeNode>,
                             ghost z: Context, ghost t: Shape, ghost k: nat, ghost order: seq<RBTreeNode>)
      returns (done: bool, newRoot: RBTreeNode?, above: RBTreeNode?, ghost z': Context, ghost t': Shape, ghost k': nat)
      requires Short(Snap(nodes), nodes, z, t, k, root, order) && node == Root(t) && ParentOf(z) == parent
      modifies nodes
      ensures done ==> Whole(Snap(nodes), nodes, Plug(z', t'), newRoot, order)
      ensures !done ==>
                Short(Snap(nodes), nodes, z', t', k', newRoot, order) && Root(t') == parent && !z.Top? && z' == z.up
      ensures !done ==> above == ParentOf(z') && above != null
    {
      done, newRoot, z', t', k' := EraseFix(parent, node, root, nodes, z, t, k, order);
      above := parent;
      if !done {
        assert Spells(Snap(nodes), t', ParentOf(z'));
        above := parent.parent;
        if above == null {
          ShortAtTop(Snap(nodes), nodes, z', t', k', newRoot, order);
          done := true;
        }
      }
      if done {
        Inserted(Snap(nodes), nodes, z', t', k', newRoot, order);
      }
    }

    /** Lines 268-388. The hole climbs one level per round. */
    static method EraseRebalance(rebalance: RBTreeNode, root: RBTreeNode?, ghost nodes: set<RBTreeNode>,
                                 ghost z0: Context,
                                 ghost order: seq<RBTreeNode>)
      returns (newRoot: RBTreeNode?, ghost whole: Shape)
      requires Short(Snap(nodes), nodes, z0, Leaf, 0, root, order) && ParentOf(z0) == rebalance
      modifies nodes
      ensures Whole(Snap(nodes), nodes, whole, newRoot, order)
    {
      newRoot := root;
      var parent: RBTreeNode, node: RBTreeNode? := rebalance, null;
      ghost var z, t, k := z0, Leaf, 0;
      while true
        invariant Short(Snap(nodes), nodes, z, t, k, newRoot, order)
        invariant node == Root(t) && parent == ParentOf(z)
        decreases z
      {
        ghost var z', t', k';
        var done, above;
        done, newRoot, above, z', t', k' := EraseRound(parent, node, newRoot, nodes, z, t, k, order);
        if done {
          whole := Plug(z', t');
          break;
        }
        node, parent := parent, above;
        z, t, k := z.up, t', k';
      }
    }

    /** Lines 201-207 and 217-220: `child` takes the place of this node, with its parent and colour. */
    method HandOver(child: RBTreeNode?, root: RBTreeNode?, ghost nodes: set<RBTreeNode>) returns (newRoot: RBTreeNode?)
      requires this in nodes && Opt(child) + Opt(parent) <= nodes
      requires child != this && parent != this && (child == null || child != parent)
      modifies Opt(child), Opt(parent)
      ensures var m, m' := old(Snap(nodes)), Snap(nodes - {this});
        && Agree(m, m', {this} + Opt(child) + Opt(parent))
        && ChildChanged(m, m', parent, this, child)
        && (child != null ==> m'[child] == m[child].(parent := parent, color := color))
      ensures newRoot == if parent == null then child else root
    {
      newRoot := ChangeChild(child, parent, root);
      if child != null {
        child.parent, child.color := parent, color;
      }
      assert forall n :: n in nodes && n !in {this} + Opt(child) + Opt(parent) ==> n.ToCell() == old(n.ToCell());
    }

    /** Lines 193-223: a node with at most one child is replaced by that child, which takes over its parent
        and colour; `rebalance` is set when a black leaf disappears below another node. */
    method Unlink(root: RBTreeNode?, ghost nodes: set<RBTreeNode>, ghost z: Context, ghost l: Shape, ghost c: Color,
                  ghost r: Shape,
                  ghost k: nat)
      returns (newRoot: RBTreeNode?, rebalance: RBTreeNode?, ghost t: Shape)
      requires Focused(Snap(nodes), z, Node(l, this, c, r), root) && nodes == Nodes(Node(l, this, c, r)) + PathNodes(z)
      requires l.Leaf? || r.Leaf?
      requires Balanced(Node(l, this, c, r), k) && Fits(z, k) && (c == Red ==> !z.Top? && !RedParent(z))
      modifies nodes
      ensures var rest := nodes - {this};
        && Focused(Snap(rest), z, t, newRoot) && rest == Nodes(t) + PathNodes(z) &&
            InOrder(t) == InOrder(l) + InOrder(r)
        && if rebalance != null then t == Leaf && k == 1 && rebalance == ParentOf(z)
           else Balanced(t, BlackHeight(t)) && Fits(z, BlackHeight(t)) && !IsRed(t)
    {
      ghost var m := Snap(nodes);
      OneChildColors(z, l, this, c, r, k);
      OnlyChild(m, z, l, this, c, r, root);
      var child, tmp := right, left;
      if tmp == null {
        newRoot := HandOver(child, root, nodes);
        rebalance := if child == null && color == Black then parent else null;
      } else {
        newRoot := HandOver(tmp, root, nodes);
        rebalance := null;
      }
      t := Replacement(if l.Leaf? then r else l, c);
      Unlinked(m, Snap(nodes - {this}), z, l, this, c, r, root);
    }

    /** Lines 224-265: a node with two children. `tmp` is still the left child when the descent begins, so that it
        ends at the first node of the left subtree, which is given the root of that subtree for a left child. */
    method UnlinkTwo(root: RBTreeNode?, ghost nodes: set<RBTreeNode>, ghost z: Context, ghost l: Shape, ghost c: Color,
                     ghost r: Shape)
      returns (newRoot: RBTreeNode?, rebalance: RBTreeNode?)
      requires Focused(Snap(nodes), z, Node(l, this, c, r), root) && nodes == Nodes(Node(l, this, c, r)) + PathNodes(z)
      requires l.Node? && r.Node?
      modifies nodes
      ensures var first := InOrder(l)[0];
        && first in nodes && first != this && first.left == l.node
        && var above := if first == l.node then r.node else old(first.parent);
           && above != null
           && AllSpliced(old(Snap(nodes)), Snap(nodes), this, first, above)
           && newRoot == (if z.Top? then first else root)
           && rebalance == (if Settles(old(Snap(nodes)), first) then null else above)
    {
      var successor, above := FirstOfLeft(nodes, z, l, c, r);
      assert parent == ParentOf(z) && parent !in Nodes(Node(l, this, c, r));
      newRoot, rebalance := Splice(successor, above, root, nodes);
    }

    /** Lines 240-264. */
    method Splice(successor: RBTreeNode, above: RBTreeNode, root: RBTreeNode?, ghost nodes: set<RBTreeNode>)
      returns (newRoot: RBTreeNode?, rebalance: RBTreeNode?)
      requires Splices(Snap(nodes), this, successor, above)
      requires left != null && right != null && {left, right} + Opt(parent) + Opt(successor.right) <= nodes
      modifies nodes
      ensures AllSpliced(old(Snap(nodes)), Snap(nodes), this, successor, above)
      ensures newRoot == if old(parent) == null then successor else root
      ensures rebalance == if Settles(old(Snap(nodes)), successor) then null else above
    {
      ghost var m := Snap(nodes);
      var child2 := Relink(successor, above, nodes);
      assert Snap(nodes)[this] == m[this] && Snap(nodes)[successor].color == m[successor].color;
      newRoot, rebalance := Promote(successor, above, child2, root, nodes);
      forall x | x in nodes ensures Snap(nodes)[x] == Spliced(m, this, successor, above, x) {
        PromotedCell(m, this, successor, above, x);
      }
    }

    /** Lines 240-247: the first node of the left subtree leaves its place and gets both subtrees. */
    method Relink(successor: RBTreeNode, above: RBTreeNode, ghost nodes: set<RBTreeNode>)
      returns (child2: RBTreeNode?)
      requires {this, successor, above, left, right} <= nodes && left != null && right != null
      requires this !in {successor, above, left, right} && successor != above
      modifies nodes
      ensures child2 == old(successor.right)
      ensures Snap(nodes) == Relinked(old(Snap(nodes)), this, successor, above)
    {
      var child := right;
      child2 := successor.right;
      above.left := child2;
      successor.right := child;
      child.parent := successor;
      var tmp := left;
      successor.left := tmp;
      tmp.parent := successor;
    }

    /** Lines 248-264, field by field: it takes the place of this node, with its parent and colour. */
    method TakePlace(successor: RBTreeNode, above: RBTreeNode, child2: RBTreeNode?, root: RBTreeNode?,
                     ghost nodes: set<RBTreeNode>)
      returns (newRoot: RBTreeNode?, rebalance: RBTreeNode?)
      requires {this, successor} + Opt(parent) + Opt(child2) <= nodes
      requires successor !in {this, child2} && this != child2 && parent !in {this, successor}
      modifies nodes
      ensures forall x :: x in nodes ==>
        && x.left == (if x == old(parent) && old(x.left) == this then successor else old(x.left))
        && x.right == (if x == old(parent) && old(x.left) != this then successor else old(x.right))
        && x.parent == (if x == successor then old(parent) else if x == child2 then above else old(x.parent))
        && x.color == (if x == successor then old(color) else if x == child2 then Black else old(x.color))
      ensures newRoot == if old(parent) == null then successor else root
      ensures rebalance == if child2 == null && old(successor.color) == Black then above else null
    {
      newRoot := ChangeChild(successor, parent, root);
      if child2 != null {
        successor.parent, successor.color := parent, color;
        child2.parent, child2.color := above, Black;
        rebalance := null;
      } else {
        var wasBlack := successor.color == Black;
        successor.parent, successor.color := parent, color;
        rebalance := if wasBlack then above else null;
      }
    }

    method Promote(successor: RBTreeNode, above: RBTreeNode, child2: RBTreeNode?, root: RBTreeNode?,
                   ghost nodes: set<RBTreeNode>)
      returns (newRoot: RBTreeNode?, rebalance: RBTreeNode?)
      requires {this, successor} + Opt(parent) + Opt(child2) <= nodes
      requires successor !in {this, child2} && this != child2 && parent !in {this, successor}
      modifies nodes
      ensures Snap(nodes) == Promoted(old(Snap(nodes)), this, successor, above, child2)
      ensures newRoot == if old(parent) == null then successor else root
      ensures rebalance == if child2 == null && old(successor.color) == Black then above else null
    {
      newRoot, rebalance := TakePlace(successor, above, child2, root, nodes);
    }

    method FirstOfLeft(ghost nodes: set<RBTreeNode>, ghost z: Context, ghost l: Shape, ghost c: Color, ghost r: Shape)
      returns (successor: RBTreeNode, above: RBTreeNode)
      requires Spells(Snap(nodes), Node(l, this, c, r), ParentOf(z)) && l.Node? && r.Node?
      requires nodes == Nodes(Node(l, this, c, r)) + PathNodes(z) && Separate(z, Node(l, this, c, r))
      ensures successor == InOrder(l)[0] && successor in Nodes(l)
      ensures above in Nodes(l) + {r.node} && above != successor
      ensures above == if successor == l.node then r.node else successor.parent
      ensures successor.right != null ==> successor.right in Nodes(l) && successor.right != successor
    {
      above, successor := right, left;
      var tmp := successor.left;
      ghost var sub, p: RBTreeNode? := l, this;
      while tmp != null
        invariant Root(sub) == successor && Root(sub.left) == tmp && Spells(Snap(nodes), sub, p) && Distinct(sub)
        invariant InOrder(sub) <= InOrder(l) && Nodes(sub) <= Nodes(l)
        invariant above in Nodes(l) + {r.node} && above !in Nodes(sub)
        invariant if sub == l then above == r.node else above == p && successor != l.node
        decreases sub
      {
        above, successor := successor, tmp;
        tmp := tmp.left;
        assert InOrder(sub.left) <= InOrder(sub);
        p, sub := sub.node, sub.left;
      }
    }

    /** Lines 190-265, which take the node out: what they leave is a tree of the other nodes in order exactly when
        the node has at most one child. */
    method TakeOut(root: RBTreeNode?, ghost nodes: set<RBTreeNode>, ghost z: Context, ghost l: Shape, ghost c: Color,
                   ghost r: Shape, ghost k: nat, ghost wanted: seq<RBTreeNode>)
      returns (newRoot: RBTreeNode?, rebalance: RBTreeNode?)
      requires Focused(Snap(nodes), z, Node(l, this, c, r), root) && nodes == Nodes(Node(l, this, c, r)) + PathNodes(z)
      requires Balanced(Node(l, this, c, r), k) && Fits(z, k) && (c == Red ==> !z.Top? && !RedParent(z))
      requires wanted == Before(z) + (InOrder(l) + InOrder(r)) + After(z)
      modifies nodes
      ensures (l.Leaf? || r.Leaf?) <==> Spelled(Snap(nodes - {this}), newRoot, wanted)
      ensures l.Node? && r.Node? ==>
        (rebalance == null <==> Settles(old(Snap(nodes)), InOrder(l)[0]))
    {
      assert l.Leaf? <==> left == null;
      if left == null || right == null {
        ghost var t;
        newRoot, rebalance, t := Unlink(root, nodes, z, l, c, r, k);
        PlugSpells(Snap(nodes - {this}), z, t, newRoot);
        PlugInOrder(z, t);
      } else {
        newRoot, rebalance := UnlinkTwo(root, nodes, z, l, c, r);
        NoTreeInOrder(Snap(nodes - {this}), z, l, this, c, r, newRoot);
      }
    }

    /** `RBTreeNode::Erase`. Of a node with at most one child it leaves a red-black tree of the other nodes in order;
        of a node with two, never. It leaves one with the first node of the left subtree in the wrong place when that
        node is not its root, and none in order when it is and nothing is rebalanced. */
    method Erase(root: RBTreeNode?, ghost nodes: set<RBTreeNode>, ghost z: Context, ghost l: Shape, ghost c: Color,
                 ghost r: Shape)
      returns (newRoot: RBTreeNode?, ghost whole: Shape)
      requires Focused(Snap(nodes), z, Node(l, this, c, r), root) && nodes == Nodes(Node(l, this, c, r)) + PathNodes(z)
      requires RedBlack(Plug(z, Node(l, this, c, r)))
      requires l.Node? && r.Node? && l.left.Leaf? ==> Settles(Snap(nodes), l.node)
      modifies nodes
      ensures var wanted := Before(z) + (InOrder(l) + InOrder(r)) + After(z);
        && (l.Leaf? || r.Leaf? ==> Whole(Snap(nodes - {this}), nodes - {this}, whole, newRoot, wanted))
        && (l.Node? && r.Node? && l.left.Node? ==>
            Whole(Snap(nodes - {this}), nodes - {this}, whole, newRoot, Misplaced(z, l, r)))
        && ((l.Leaf? || r.Leaf?) <==> Spelled(Snap(nodes - {this}), newRoot, wanted))
    {
      ghost var rest, wanted := nodes - {this}, Before(z) + (InOrder(l) + InOrder(r)) + After(z);
      if left == null || right == null {
        newRoot, whole := EraseOne(root, nodes, z, l, c, r);
      } else {
        newRoot, whole := EraseTwo(root, nodes, z, l, c, r);
        if l.left.Node? {
          FirstTwo(l);
          FirstLast(Before(z), InOrder(l), InOrder(r), After(z));
          SpelledOnce(Snap(rest), whole, newRoot, wanted);
        }
      }
    }

    method EraseOne(root: RBTreeNode?, ghost nodes: set<RBTreeNode>, ghost z: Context, ghost l: Shape, ghost c: Color,
                    ghost r: Shape)
      returns (newRoot: RBTreeNode?, ghost whole: Shape)
      requires Focused(Snap(nodes), z, Node(l, this, c, r), root) && nodes == Nodes(Node(l, this, c, r)) + PathNodes(z)
      requires l.Leaf? || r.Leaf?
      requires RedBlack(Plug(z, Node(l, this, c, r)))
      modifies nodes
      ensures Whole(Snap(nodes - {this}), nodes - {this}, whole, newRoot,
                    Before(z) + (InOrder(l) + InOrder(r)) + After(z))
    {
      ghost var t := Node(l, this, c, r);
      ghost var k := BlackHeight(t);
      UnplugRedBlack(z, t);
      var rebalance: RBTreeNode?;
      newRoot, rebalance, t := Unlink(root, nodes, z, l, c, r, k);
      PlugInOrder(z, t);
      ghost var order := Before(z) + (InOrder(l) + InOrder(r)) + After(z);
      ghost var rest := nodes - {this};
      if rebalance != null {
        newRoot, whole := EraseRebalance(rebalance, newRoot, rest, z, order);
      } else {
        Inserted(Snap(rest), rest, z, t, BlackHeight(t), newRoot, order);
        whole := Plug(z, t);
      }
    }

    method EraseTwo(root: RBTreeNode?, ghost nodes: set<RBTreeNode>, ghost z: Context, ghost l: Shape, ghost c: Color,
                    ghost r: Shape)
      returns (newRoot: RBTreeNode?, ghost whole: Shape)
      requires Focused(Snap(nodes), z, Node(l, this, c, r), root) && nodes == Nodes(Node(l, this, c, r)) + PathNodes(z)
      requires l.Node? && r.Node? && (l.left.Leaf? ==> Settles(Snap(nodes), l.node))
      requires RedBlack(Plug(z, Node(l, this, c, r)))
      modifies nodes
      ensures l.left.Node? ==> Whole(Snap(nodes - {this}), nodes - {this}, whole, newRoot, Misplaced(z, l, r))
      ensures l.left.Leaf? ==>
        !Spelled(Snap(nodes - {this}), newRoot, Before(z) + (InOrder(l) + InOrder(r)) + After(z))
    {
      var rebalance: RBTreeNode?;
      ghost var y;
      newRoot, rebalance, y, whole := UnlinkTwoAt(root, nodes, z, l, c, r);
      if rebalance != null {
        newRoot, whole := EraseRebalance(rebalance, newRoot, nodes - {this}, y, Misplaced(z, l, r));
      }
    }

    /** Lines 224-265 on trees. */
    method UnlinkTwoAt(root: RBTreeNode?, ghost nodes: set<RBTreeNode>, ghost z: Context, ghost l: Shape,
                       ghost c: Color, ghost r: Shape)
      returns (newRoot: RBTreeNode?, rebalance: RBTreeNode?, ghost y: Context, ghost whole: Shape)
      requires Focused(Snap(nodes), z, Node(l, this, c, r), root) && nodes == Nodes(Node(l, this, c, r)) + PathNodes(z)
      requires l.Node? && r.Node? && RedBlack(Plug(z, Node(l, this, c, r)))
      modifies nodes
      ensures rebalance == null <==> Settles(old(Snap(nodes)), InOrder(l)[0])
      ensures l.left.Node? ==>
        var rest := nodes - {this};
        if rebalance == null then Whole(Snap(rest), rest, whole, newRoot, Misplaced(z, l, r))
        else Short(Snap(rest), rest, y, Leaf, 0, newRoot, Misplaced(z, l, r)) && ParentOf(y) == rebalance
      ensures l.left.Leaf? ==>
        && InOrder(l)[0] == l.node
        && !Spelled(Snap(nodes - {this}), newRoot, Before(z) + (InOrder(l) + InOrder(r)) + After(z))
    {
      ghost var m, t, rest := Snap(nodes), Node(l, this, c, r), nodes - {this};
      UnplugRedBlack(z, t);
      newRoot, rebalance := UnlinkTwo(root, nodes, z, l, c, r);
      y, whole := z, Leaf;
      if l.left.Node? {
        DeepFirst(m, l, this);
        y, t := TwoTakenOut(m, Snap(rest), nodes, z, l, this, c, r, BlackHeight(t), root);
        whole := Plug(y, t);
      } else {
        NoTreeInOrder(Snap(rest), z, l, this, c, r, newRoot);
      }
    }

    /** Lines 47-52: down to the left. */
    static method Leftmost(start: RBTreeNode, ghost nodes: set<RBTreeNode>, ghost t: Shape, ghost above: RBTreeNode?)
      returns (node: RBTreeNode)
      requires Root(t) == start && Spells(Snap(nodes), t, above)
      ensures InOrder(t)[..1] == [node]
    {
      node := start;
      ghost var sub, p := t, above;
      while node.left != null
        invariant Root(sub) == node && Spells(Snap(nodes), sub, p)
        invariant InOrder(sub) <= InOrder(t)
        decreases sub
      {
        assert InOrder(sub.left) <= InOrder(sub);
        p, node, sub := node, node.left, sub.left;
      }
    }

    /** Lines 23-28: down to the right. */
    static method Rightmost(start: RBTreeNode, ghost nodes: set<RBTreeNode>, ghost t: Shape, ghost above: RBTreeNode?)
      returns (node: RBTreeNode)
      requires Root(t) == start && Spells(Snap(nodes), t, above)
      ensures InOrder(t) != [] && InOrder(t)[|InOrder(t)| - 1] == node
    {
      node := start;
      ghost var sub, p, before := t, above, [];
      while node.right != null
        invariant Root(sub) == node && Spells(Snap(nodes), sub, p)
        invariant before + InOrder(sub) == InOrder(t)
        decreases sub
      {
        before := before + (InOrder(sub.left) + [sub.node]);
        p, node, sub := node, node.right, sub.right;
      }
    }

    /** `RBTreeNode::Next`: leftmost node of the right subtree, else the first ancestor reached from the left. */
    method Next(ghost nodes: set<RBTreeNode>, ghost z: Context, ghost l: Shape, ghost c: Color, ghost r: Shape)
      returns (next: RBTreeNode?)
      requires Focused(Snap(nodes), z, Node(l, this, c, r), RootOf(z, this)) &&
                nodes == Nodes(Node(l, this, c, r)) + PathNodes(z)
      ensures var following := InOrder(r) + After(z);
        if following == [] then next == null else next == following[0]
    {
      if !IsLinked() {
        return null;
      }
      if right != null {
        next := Leftmost(right, nodes, r, this);
        assert next == InOrder(r)[..1][0];
        return;
      }
      var node: RBTreeNode := this;
      ghost var up := z;
      next := node.parent;
      while next != null && node == next.right
        invariant SpellsPath(Snap(nodes), up, node) && next == ParentOf(up) && After(up) == After(z)
        invariant node !in PathNodes(up) && DistinctPath(up)
        decreases up
      {
        NotSibling(up, node);
        node, up := next, up.up;
        next := node.parent;
      }
    }

    /** `RBTreeNode::Prev`, the mirror image. */
    method Prev(ghost nodes: set<RBTreeNode>, ghost z: Context, ghost l: Shape, ghost c: Color, ghost r: Shape)
      returns (prev: RBTreeNode?)
      requires Focused(Snap(nodes), z, Node(l, this, c, r), RootOf(z, this)) &&
                nodes == Nodes(Node(l, this, c, r)) + PathNodes(z)
      ensures var preceding := Before(z) + InOrder(l);
        if preceding == [] then prev == null else prev == preceding[|preceding| - 1]
    {
      if !IsLinked() {
        return null;
      }
      if left != null {
        prev := Rightmost(left, nodes, l, this);
        return;
      }
      var node: RBTreeNode := this;
      ghost var up := z;
      prev := node.parent;
      while prev != null && node == prev.left
        invariant SpellsPath(Snap(nodes), up, node) && prev == ParentOf(up) && Before(up) == Before(z)
        invariant node !in PathNodes(up) && DistinctPath(up)
        decreases up
      {
        NotSibling(up, node);
        node, up := prev, up.up;
        prev := node.parent;
      }
    }

    ghost function ToCell(): Cell
      reads this
    {
      Cell(parent, color, left, right)
    }
  }

  /** One black node with two red children. */
  ghost function Three(a: RBTreeNode, b: RBTreeNode, c: RBTreeNode): Shape {
    Node(Node(Leaf, a, Red, Leaf), b, Black, Node(Leaf, c, Red, Leaf))
  }

  ghost predicate ThreeLinked(m: Store, a: RBTreeNode, b: RBTreeNode, c: RBTreeNode) {
    && a != b && b != c && a != c && {a, b, c} <= m.Keys
    && m[a] == Cell(b, Red, null, null) && m[c] == Cell(b, Red, null, null) && m[b] == Cell(null, Black, a, c)
  }

  lemma ThreeSpelled(m: Store, a: RBTreeNode, b: RBTreeNode, c: RBTreeNode)
    requires ThreeLinked(m, a, b, c)
    ensures Focused(m, Top, Three(a, b, c), b) && Nodes(Three(a, b, c)) == {a, b, c}
    ensures RedBlack(Three(a, b, c)) && Settles(m, a)
    ensures InOrder(Three(a, b, c).left) == [a] && InOrder(Three(a, b, c).right) == [c]
  {
    var l: Shape, r: Shape, z: Context := Node(Leaf, a, Red, Leaf), Node(Leaf, c, Red, Leaf), Top;
    assert Nodes(l) == {a} && Nodes(r) == {c} && PathNodes(z) == {};
    assert Balanced(l, 0) && Balanced(r, 0) && BlackHeight(l) == 0;
    assert Distinct(l) && Distinct(r) && DistinctPath(z);
    assert Spells(m, l, b) && Spells(m, r, b) && SpellsPath(m, z, b);
  }

  /** Erasing the upper node of such a tree ends without a tree of the other two in order. */
  method EraseMiddle(a: RBTreeNode, b: RBTreeNode, c: RBTreeNode) returns (root: RBTreeNode?)
    requires ThreeLinked(Snap({a, b, c}), a, b, c)
    modifies a, b, c
    ensures !Spelled(Snap({a, c}), root, [a, c])
  {
    ghost var z: Context, nodes := Top, {a, b, c};
    ThreeSpelled(Snap(nodes), a, b, c);
    ghost var l, r, whole := Three(a, b, c).left, Three(a, b, c).right, Leaf;
    assert PathNodes(z) == {} && Before(z) + (InOrder(l) + InOrder(r)) + After(z) == [a, c];
    root, whole := b.Erase(b, nodes, z, l, Black, r);
    assert nodes - {b} == {a, c};
  }

  method TwoChildrenFail() returns (a: RBTreeNode, b: RBTreeNode, c: RBTreeNode, root: RBTreeNode?)
    ensures a != c && b !in {a, c} && !Spelled(Snap({a, c}), root, [a, c])
  {
    a := new RBTreeNode();
    b := new RBTreeNode();
    c := new RBTreeNode();
    a.parent, b.parent, c.parent := b, null, b;
    a.color, b.color, c.color := Red, Black, Red;
    b.left, b.right := a, c;
    root := EraseMiddle(a, b, c);
  }

  ghost function Opt(n: RBTreeNode?): set<RBTreeNode> {
    if n == null then {} else {n}
  }
}
