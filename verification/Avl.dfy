/** src/avl.cpp on the heap. Each routine rewrites left/right/parent/depth/count of
    nodes in place; its contract says which shape of AvlTree the nodes form afterwards. */
module Avl {
  import opened AvlTree

  /** The five fields of `struct AVLNode`. */
  datatype Rec = Rec(left: ZNode?, right: ZNode?, parent: ZNode?, depth: nat, count: nat)

  /** What a set of nodes holds. */
  type Image = map<ZNode, Rec>

  ghost function RecOf(x: ZNode): Rec
    reads x
  {
    Rec(x.left, x.right, x.parent, x.depth, x.count)
  }

  /** The heap is as `m` says. */
  ghost predicate Holds(m: Image)
    reads m.Keys
  {
    forall x <- m.Keys :: RecOf(x) == m[x]
  }

  /** `k` differs from `m` at most on the nodes of `d`. */
  ghost predicate Same(m: Image, k: Image, d: set<ZNode>) {
    m.Keys == k.Keys && forall x <- m.Keys :: x in d || k[x] == m[x]
  }

  ghost function One(x: ZNode?): set<ZNode> {
    if x == null then {} else {x}
  }

  ghost function RootRec(t: Tree, p: ZNode?): Rec
    requires t.Node?
  {
    Rec(Root(t.l), Root(t.r), p, Height(t), Size(t))
  }

  /** The nodes of `t` are linked in that shape, hang below `p`, and cache exact
      depths and counts. */
  ghost predicate Linked(m: Image, t: Tree, p: ZNode?) {
    t.Node? ==>
      && t.n in m && m[t.n] == RootRec(t, p)
      && Linked(m, t.l, t.n) && Linked(m, t.r, t.n)
  }

  /** As `Linked`, but the depth and count cached at the root may be out of date. */
  ghost predicate Loose(m: Image, t: Tree, p: ZNode?)
    requires t.Node?
  {
    && t.n in m && m[t.n].left == Root(t.l) && m[t.n].right == Root(t.r) && m[t.n].parent == p
    && Linked(m, t.l, t.n) && Linked(m, t.r, t.n)
  }

  /** The path above a hole is linked, its open child pointer is `hole`, and it caches
      the depths and counts that are exact for a hole of height `h` and size `s`. */
  ghost predicate CtxLinked(m: Image, c: Ctx, hole: ZNode?, h: nat, s: nat) {
    match c
    case Top => true
    case InLeft(up, n, r) =>
      && n in m
      && m[n] == Rec(hole, Root(r), CtxParent(up), 1 + Max(h, Height(r)), 1 + s + Size(r))
      && Linked(m, r, n) && CtxLinked(m, up, n, m[n].depth, m[n].count)
    case InRight(up, l, n) =>
      && n in m
      && m[n] == Rec(Root(l), hole, CtxParent(up), 1 + Max(Height(l), h), 1 + Size(l) + s)
      && Linked(m, l, n) && CtxLinked(m, up, n, m[n].depth, m[n].count)
  }

  // ----- frame facts -----

  lemma {:induction false} Frame(m: Image, k: Image, d: set<ZNode>, t: Tree, p: ZNode?)
    requires Same(m, k, d) && Nodes(t) !! d && Linked(m, t, p)
    ensures Linked(k, t, p)
  {
    if t.Node? {
      Frame(m, k, d, t.l, t.n);
      Frame(m, k, d, t.r, t.n);
    }
  }

  lemma {:induction false} CtxFrame(m: Image, k: Image, d: set<ZNode>, c: Ctx, hole: ZNode?, h: nat, s: nat)
    requires Same(m, k, d) && CtxNodes(c) !! d && CtxLinked(m, c, hole, h, s)
    ensures CtxLinked(k, c, hole, h, s)
    decreases c
  {
    match c
    case Top =>
    case InLeft(up, n, r) =>
      Frame(m, k, d, r, n);
      CtxFrame(m, k, d, up, n, m[n].depth, m[n].count);
    case InRight(up, l, n) =>
      Frame(m, k, d, l, n);
      CtxFrame(m, k, d, up, n, m[n].depth, m[n].count);
  }

  /** Only the root of a subtree knows what it hangs below. */
  lemma Rehang(m: Image, k: Image, d: set<ZNode>, t: Tree, p: ZNode?, q: ZNode?)
    requires Same(m, k, d + One(Root(t))) && Nodes(t) !! d && Distinct(t) && Linked(m, t, p)
    requires t.Node? ==> k[t.n] == m[t.n].(parent := q)
    ensures Linked(k, t, q)
  {
    if t.Node? {
      Frame(m, k, d + {t.n}, t.l, t.n);
      Frame(m, k, d + {t.n}, t.r, t.n);
    }
  }

  /** A whole tree is linked exactly when its two parts at any node are. */
  lemma {:induction false} LinkedAt(m: Image, c: Ctx, t: Tree)
    ensures Linked(m, Plug(c, t), null) <==>
              Linked(m, t, CtxParent(c)) && CtxLinked(m, c, Root(t), Height(t), Size(t))
    decreases c
  {
    match c
    case Top =>
    case InLeft(up, n, r) => LinkedAt(m, up, Node(t, n, r));
    case InRight(up, l, n) => LinkedAt(m, up, Node(l, n, t));
  }

  lemma {:induction false} LinkedInside(m: Image, t: Tree, p: ZNode?)
    requires Linked(m, t, p)
    ensures Nodes(t) <= m.Keys
  {
    if t.Node? {
      LinkedInside(m, t.l, t.n);
      LinkedInside(m, t.r, t.n);
    }
  }

  // ----- avl_depth, avl_count, avl_update -----

  function Depth(node: ZNode?): nat
    reads node
  {
    if node == null then 0 else node.depth
  }

  function Count(node: ZNode?): nat
    reads node
  {
    if node == null then 0 else node.count
  }

  lemma RootCache(m: Image, t: Tree, p: ZNode?)
    requires Holds(m) && Linked(m, t, p)
    ensures Depth(Root(t)) == Height(t) && Count(Root(t)) == Size(t)
    ensures t.Node? ==> RecOf(t.n) == RootRec(t, p)
  {
    if t.Node? {
      assert t.n in m.Keys;
    }
  }

  method Update(node: ZNode, ghost m: Image, ghost t: Tree, ghost p: ZNode?) returns (ghost k: Image)
    requires Holds(m) && t.Node? && t.n == node && Distinct(t) && Loose(m, t, p)
    modifies node`depth, node`count
    ensures Holds(k) && Same(m, k, {node}) && Linked(k, t, p)
  {
    RootCache(m, t.l, node);
    RootCache(m, t.r, node);
    assert node in m.Keys;
    var d := 1 + Max(Depth(node.left), Depth(node.right));
    var c := 1 + Count(node.left) + Count(node.right);
    node.depth := d;
    node.count := c;
    k := m[node := m[node].(depth := d, count := c)];
    Frame(m, k, {node}, t.l, node);
    Frame(m, k, {node}, t.r, node);
  }

  /** A child, if there is one, gets a new parent. */
  method SetParent(child: ZNode?, to: ZNode?, ghost m: Image) returns (ghost k: Image)
    requires Holds(m) && One(child) <= m.Keys
    modifies One(child)`parent
    ensures Holds(k) && Same(m, k, One(child))
    ensures child != null ==> k[child] == m[child].(parent := to)
  {
    k := m;
    if child != null {
      child.parent := to;
      k := m[child := m[child].(parent := to)];
    }
  }

  /** The link of a parent to one of its children is redirected. */
  method SetChild(parent: ZNode, node: ZNode?, new_: ZNode?, ghost m: Image, ghost c: Ctx, ghost h: nat, ghost s: nat)
    returns (ghost k: Image)
    requires Holds(m) && !c.Top? && c.n == parent && CtxDistinct(c) && CtxLinked(m, c, node, h, s)
    requires node !in CtxNodes(c) && node != null
    modifies parent`left, parent`right
    ensures Holds(k) && Same(m, k, {parent}) && CtxLinked(k, c, new_, h, s)
  {
    assert parent in m.Keys;
    if parent.left == node {
      parent.left := new_;
      k := m[parent := m[parent].(left := new_)];
    } else {
      parent.right := new_;
      k := m[parent := m[parent].(right := new_)];
    }
    assert c.InRight? && c.l.Node? ==> c.l.n in Nodes(c.l);
    ChildSet(m, k, c, node, new_, h, s);
  }

  lemma ChildSet(m: Image, k: Image, c: Ctx, node: ZNode?, new_: ZNode?, h: nat, s: nat)
    requires !c.Top? && CtxDistinct(c) && CtxLinked(m, c, node, h, s) && c.n in m && Same(m, k, {c.n})
    requires k[c.n] == if c.InLeft? then m[c.n].(left := new_) else m[c.n].(right := new_)
    ensures CtxLinked(k, c, new_, h, s)
  {
    if c.InLeft? {
      Frame(m, k, {c.n}, c.r, c.n);
    } else {
      Frame(m, k, {c.n}, c.l, c.n);
    }
    CtxFrame(m, k, {c.n}, c.up, c.n, m[c.n].depth, m[c.n].count);
  }

  // ----- rotations -----

  lemma InnerChild(m: Image, t: Tree, p: ZNode?)
    requires t.Node? && Linked(m, t, p)
    ensures t.n in m && m[t.n].left == Root(t.l) && m[t.n].right == Root(t.r)
    ensures One(Root(t.l)) + One(Root(t.r)) <= m.Keys
    ensures One(Root(t.l)) <= Nodes(t.l) && One(Root(t.r)) <= Nodes(t.r)
  {
    LinkedInside(m, t, p);
  }

  /** The pointer surgery of rotate_left: `y`, the right child of `x`, takes its place. */
  method SwingLeft(x: ZNode, y: ZNode, ghost m: Image) returns (ghost k: Image)
    requires Holds(m) && x in m && y in m && x != y
    modifies {x, y}`left, {x, y}`right, {x, y}`parent
    ensures Holds(k)
    ensures k == m[x := m[x].(right := m[y].left, parent := y)][y := m[y].(left := x, parent := m[x].parent)]
  {
    x.right := y.left;
    y.left := x;
    y.parent := x.parent;
    x.parent := y;
    k := m[x := m[x].(right := m[y].left, parent := y)][y := m[y].(left := x, parent := m[x].parent)];
  }

  lemma SwungLeft(m: Image, k: Image, t: Tree, p: ZNode?)
    requires t.Node? && t.r.Node? && Distinct(t) && Loose(m, t, p)
    requires var x, y, b := t.n, t.r.n, t.r.l;
      && Same(m, k, {x, y} + One(Root(b)))
      && (b.Node? ==> b.n in k && k[b.n] == m[b.n].(parent := x))
      && k[x] == m[x].(right := Root(b), parent := y) && k[y] == m[y].(left := x, parent := p)
    ensures Loose(k, Node(t.l, t.n, t.r.l), t.r.n)
    ensures Linked(k, t.r.r, t.r.n)
  {
    var x, y, b := t.n, t.r.n, t.r.l;
    var d := {x, y} + One(Root(b));
    Frame(m, k, d, t.l, x);
    Frame(m, k, d, t.r.r, y);
    Rehang(m, k, {x, y}, b, y, x);
  }

  /** rotate_left before it refreshes depths and counts */
  method LiftRight(node: ZNode, top: ZNode, ghost m: Image, ghost t: Tree, ghost p: ZNode?) returns (ghost k: Image)
    requires Holds(m) && t.Node? && t.r.Node? && t.n == node && t.r.n == top && Distinct(t) && Loose(m, t, p)
    modifies m.Keys`left, m.Keys`right, m.Keys`parent
    ensures Holds(k) && Same(m, k, Nodes(t)) && Loose(k, Node(t.l, t.n, t.r.l), top) && Linked(k, t.r.r, top)
    ensures top in k && k[top].left == node && k[top].right == Root(t.r.r) && k[top].parent == p
  {
    assert node in m.Keys;
    InnerChild(m, t.r, node);
    k := SetParent(top.left, node, m);
    k := SwingLeft(node, top, k);
    SwungLeft(m, k, t, p);
  }

  /** rotate_left */
  method RotateLeftAt(node: ZNode, ghost m: Image, ghost t: Tree, ghost p: ZNode?)
    returns (top: ZNode, ghost k: Image)
    requires Holds(m) && t.Node? && t.n == node && Distinct(t) && Loose(m, t, p)
    modifies m.Keys`left, m.Keys`right, m.Keys`parent, m.Keys`depth, m.Keys`count
    ensures top == RotateLeft(t).n && Holds(k) && Same(m, k, Nodes(t))
    ensures if t.r.Leaf? then k == m else Linked(k, RotateLeft(t), p)
  {
    assert node in m.Keys;
    if node.right == null {
      return node, m;
    }
    top := node.right;
    ghost var low := Node(t.l, t.n, t.r.l);
    k := LiftRight(node, top, m, t, p);
    ghost var k1 := k;
    k := Update(node, k, low, top);
    Frame(k1, k, {node}, t.r.r, top);
    k := Update(top, k, Node(low, top, t.r.r), p);
  }

  /** The pointer surgery of rotate_right: `y`, the left child of `x`, takes its place. */
  method SwingRight(x: ZNode, y: ZNode, ghost m: Image) returns (ghost k: Image)
    requires Holds(m) && x in m && y in m && x != y
    modifies {x, y}`left, {x, y}`right, {x, y}`parent
    ensures Holds(k)
    ensures k == m[x := m[x].(left := m[y].right, parent := y)][y := m[y].(right := x, parent := m[x].parent)]
  {
    x.left := y.right;
    y.right := x;
    y.parent := x.parent;
    x.parent := y;
    k := m[x := m[x].(left := m[y].right, parent := y)][y := m[y].(right := x, parent := m[x].parent)];
  }

  lemma SwungRight(m: Image, k: Image, t: Tree, p: ZNode?)
    requires t.Node? && t.l.Node? && Distinct(t) && Loose(m, t, p)
    requires var x, y, b := t.n, t.l.n, t.l.r;
      && Same(m, k, {x, y} + One(Root(b)))
      && (b.Node? ==> b.n in k && k[b.n] == m[b.n].(parent := x))
      && k[x] == m[x].(left := Root(b), parent := y) && k[y] == m[y].(right := x, parent := p)
    ensures Loose(k, Node(t.l.r, t.n, t.r), t.l.n)
    ensures Linked(k, t.l.l, t.l.n)
  {
    var x, y, b := t.n, t.l.n, t.l.r;
    var d := {x, y} + One(Root(b));
    Frame(m, k, d, t.r, x);
    Frame(m, k, d, t.l.l, y);
    Rehang(m, k, {x, y}, b, y, x);
  }

  /** rotate_right before it refreshes depths and counts */
  method LiftLeft(node: ZNode, top: ZNode, ghost m: Image, ghost t: Tree, ghost p: ZNode?) returns (ghost k: Image)
    requires Holds(m) && t.Node? && t.l.Node? && t.n == node && t.l.n == top && Distinct(t) && Loose(m, t, p)
    modifies m.Keys`left, m.Keys`right, m.Keys`parent
    ensures Holds(k) && Same(m, k, Nodes(t)) && Loose(k, Node(t.l.r, t.n, t.r), top) && Linked(k, t.l.l, top)
    ensures top in k && k[top].right == node && k[top].left == Root(t.l.l) && k[top].parent == p
  {
    assert node in m.Keys;
    InnerChild(m, t.l, node);
    k := SetParent(top.right, node, m);
    k := SwingRight(node, top, k);
    SwungRight(m, k, t, p);
  }

  /** rotate_right */
  method RotateRightAt(node: ZNode, ghost m: Image, ghost t: Tree, ghost p: ZNode?)
    returns (top: ZNode, ghost k: Image)
    requires Holds(m) && t.Node? && t.n == node && Distinct(t) && Loose(m, t, p)
    modifies m.Keys`left, m.Keys`right, m.Keys`parent, m.Keys`depth, m.Keys`count
    ensures top == RotateRight(t).n && Holds(k) && Same(m, k, Nodes(t))
    ensures if t.l.Leaf? then k == m else Linked(k, RotateRight(t), p)
  {
    assert node in m.Keys;
    if node.left == null {
      return node, m;
    }
    top := node.left;
    ghost var low := Node(t.l.r, t.n, t.r);
    k := LiftLeft(node, top, m, t, p);
    ghost var k1 := k;
    k := Update(node, k, low, top);
    Frame(k1, k, {node}, t.l.l, top);
    k := Update(top, k, Node(t.l.l, top, low), p);
  }

  ghost function BentLeft(t: Tree): Tree
    requires t.Node? && t.l.Node?
  {
    Node(RotateLeft(t.l), t.n, t.r)
  }

  /** The first half of a double rotation: the left child is rotated left. */
  method BendLeft(node: ZNode, ghost m: Image, ghost t: Tree, ghost p: ZNode?) returns (ghost k: Image)
    requires Holds(m) && t.Node? && t.n == node && t.l.Node? && t.l.r.Node? && Distinct(t) && Linked(m, t, p)
    modifies m.Keys`left, m.Keys`right, m.Keys`parent, m.Keys`depth, m.Keys`count
    ensures Holds(k) && Same(m, k, Nodes(t)) && Loose(k, BentLeft(t), p)
    ensures Distinct(BentLeft(t)) && Nodes(BentLeft(t)) == Nodes(t)
  {
    InnerChild(m, t, p);
    assert node in m.Keys;
    var z, k1 := RotateLeftAt(node.left, m, t.l, node);
    assert node in k1.Keys;
    node.left := z;
    k := k1[node := k1[node].(left := z)];
    BendingLeft(m, k1, k, t, p);
  }

  lemma BendingLeft(m: Image, k1: Image, k: Image, t: Tree, p: ZNode?)
    requires t.Node? && t.l.Node? && Distinct(t) && Linked(m, t, p) && t.l.r.Node?
    requires Same(m, k1, Nodes(t.l)) && Linked(k1, RotateLeft(t.l), t.n)
    requires k == k1[t.n := k1[t.n].(left := RotateLeft(t.l).n)]
    ensures Distinct(BentLeft(t)) && Nodes(BentLeft(t)) == Nodes(t)
    ensures Loose(k, BentLeft(t), p)
    ensures Same(m, k, Nodes(t))
  {
    RotateNodes(t.l);
    RotateDistinct(t.l);
    Frame(m, k1, Nodes(t.l), t.r, t.n);
    Frame(k1, k, {t.n}, t.r, t.n);
    Frame(k1, k, {t.n}, RotateLeft(t.l), t.n);
  }

  /** avl_fix_left */
  method FixLeftAt(node: ZNode, ghost m: Image, ghost t: Tree, ghost p: ZNode?)
    returns (top: ZNode, ghost k: Image)
    requires Holds(m) && t.Node? && t.n == node && t.l.Node? && Distinct(t) && Linked(m, t, p)
    modifies m.Keys`left, m.Keys`right, m.Keys`parent, m.Keys`depth, m.Keys`count
    ensures top == FixLeft(t).n && Holds(k) && Same(m, k, Nodes(t)) && Linked(k, FixLeft(t), p)
  {
    InnerChild(m, t, p);
    RootCache(m, t.l, node);
    RootCache(m, t.l.l, t.l.n);
    RootCache(m, t.l.r, t.l.n);
    assert node in m.Keys && t.l.n in m.Keys;
    if Depth(node.left.left) < Depth(node.left.right) {
      k := BendLeft(node, m, t, p);
      top, k := RotateRightAt(node, k, BentLeft(t), p);
    } else {
      top, k := RotateRightAt(node, m, t, p);
    }
  }

  ghost function BentRight(t: Tree): Tree
    requires t.Node? && t.r.Node?
  {
    Node(t.l, t.n, RotateRight(t.r))
  }

  /** The first half of a double rotation: the right child is rotated right. */
  method BendRight(node: ZNode, ghost m: Image, ghost t: Tree, ghost p: ZNode?) returns (ghost k: Image)
    requires Holds(m) && t.Node? && t.n == node && t.r.Node? && t.r.l.Node? && Distinct(t) && Linked(m, t, p)
    modifies m.Keys`left, m.Keys`right, m.Keys`parent, m.Keys`depth, m.Keys`count
    ensures Holds(k) && Same(m, k, Nodes(t)) && Loose(k, BentRight(t), p)
    ensures Distinct(BentRight(t)) && Nodes(BentRight(t)) == Nodes(t)
  {
    InnerChild(m, t, p);
    assert node in m.Keys;
    var z, k1 := RotateRightAt(node.right, m, t.r, node);
    assert node in k1.Keys;
    node.right := z;
    k := k1[node := k1[node].(right := z)];
    BendingRight(m, k1, k, t, p);
  }

  lemma BendingRight(m: Image, k1: Image, k: Image, t: Tree, p: ZNode?)
    requires t.Node? && t.r.Node? && Distinct(t) && Linked(m, t, p) && t.r.l.Node?
    requires Same(m, k1, Nodes(t.r)) && Linked(k1, RotateRight(t.r), t.n)
    requires k == k1[t.n := k1[t.n].(right := RotateRight(t.r).n)]
    ensures Distinct(BentRight(t)) && Nodes(BentRight(t)) == Nodes(t)
    ensures Loose(k, BentRight(t), p)
    ensures Same(m, k, Nodes(t))
  {
    RotateNodes(t.r);
    RotateDistinct(t.r);
    Frame(m, k1, Nodes(t.r), t.l, t.n);
    Frame(k1, k, {t.n}, t.l, t.n);
    Frame(k1, k, {t.n}, RotateRight(t.r), t.n);
  }

  /** avl_fix_right */
  method FixRightAt(node: ZNode, ghost m: Image, ghost t: Tree, ghost p: ZNode?)
    returns (top: ZNode, ghost k: Image)
    requires Holds(m) && t.Node? && t.n == node && t.r.Node? && Distinct(t) && Linked(m, t, p)
    modifies m.Keys`left, m.Keys`right, m.Keys`parent, m.Keys`depth, m.Keys`count
    ensures top == FixRight(t).n && Holds(k) && Same(m, k, Nodes(t)) && Linked(k, FixRight(t), p)
  {
    InnerChild(m, t, p);
    RootCache(m, t.r, node);
    RootCache(m, t.r.l, t.r.n);
    RootCache(m, t.r.r, t.r.n);
    assert node in m.Keys && t.r.n in m.Keys;
    if Depth(node.right.right) < Depth(node.right.left) {
      k := BendRight(node, m, t, p);
      top, k := RotateLeftAt(node, k, BentRight(t), p);
    } else {
      top, k := RotateLeftAt(node, m, t, p);
    }
  }

  // ----- avl_rebalance -----

  /** One turn of the loop of avl_rebalance: refresh the node, and rotate if it leans by two. */
  method Turn(node: ZNode, ghost m: Image, ghost t: Tree, ghost p: ZNode?)
    returns (top: ZNode, ghost k: Image)
    requires Holds(m) && t.Node? && t.n == node && Distinct(t) && Loose(m, t, p)
    modifies m.Keys`left, m.Keys`right, m.Keys`parent, m.Keys`depth, m.Keys`count
    ensures Fix(t).Node? && top == Fix(t).n && Holds(k) && Same(m, k, Nodes(t)) && Linked(k, Fix(t), p)
  {
    k := Update(node, m, t, p);
    RootCache(k, t.l, node);
    RootCache(k, t.r, node);
    assert node in k.Keys;
    var l, r := Depth(node.left), Depth(node.right);
    top := node;
    if l == r + 2 {
      top, k := FixLeftAt(node, k, t, p);
    } else if l + 2 == r {
      top, k := FixRightAt(node, k, t, p);
    }
  }

  /** Moving from a finished subtree to its parent. */
  lemma Ascend(k: Image, c: Ctx, t: Tree, h: nat, s: nat)
    requires !c.Top? && CtxLinked(k, c, Root(t), h, s) && Linked(k, t, c.n)
    ensures Loose(k, Plug1(c, t), CtxParent(c.up))
    ensures CtxLinked(k, c.up, c.n, k[c.n].depth, k[c.n].count)
  {
  }

  /** The subtree one level up from the hole. */
  ghost function Plug1(c: Ctx, t: Tree): Tree
    requires !c.Top?
  {
    if c.InLeft? then Node(t, c.n, c.r) else Node(c.l, c.n, t)
  }

  /** A tree in the middle of avl_rebalance: below and beside the path everything is
      exact; the root of `t` may be out of date; the path above caches what was right
      while the hole had height `h` and size `s`. */
  ghost predicate Pending(m: Image, c: Ctx, t: Tree, h: nat, s: nat) {
    && t.Node? && Distinct(t) && CtxDistinct(c) && CtxNodes(c) !! Nodes(t)
    && Loose(m, t, CtxParent(c)) && CtxLinked(m, c, t.n, h, s)
  }

  /** The part of a turn after the rotation: the link above is set, and the walk goes up. */
  method Climb(
      parent: ZNode, node: ZNode, top: ZNode?,
      ghost m: Image, ghost c: Ctx, ghost t: Tree, ghost h: nat, ghost s: nat)
    returns (ghost k: Image)
    requires Holds(m) && top == Root(t) && !c.Top? && c.n == parent
    requires Distinct(t) && CtxDistinct(c) && CtxNodes(c) !! Nodes(t) && node !in CtxNodes(c)
    requires Linked(m, t, parent) && CtxLinked(m, c, node, h, s)
    modifies parent`left, parent`right
    ensures Holds(k) && Same(m, k, {parent}) && (top != null ==> top.parent == parent)
    ensures Pending(k, c.up, Plug1(c, t), m[parent].depth, m[parent].count)
    ensures CtxNodes(c.up) + Nodes(Plug1(c, t)) == CtxNodes(c) + Nodes(t)
    ensures Rebuild(c.up, Fix(Plug1(c, t))) == Rebuild(c, t)
  {
    k := SetChild(parent, node, top, m, c, h, s);
    Frame(m, k, {parent}, t, parent);
    Ascend(k, c, t, h, s);
    RootCache(k, t, parent);
  }

  /** A turn leaves the path alone. */
  method TurnBelow(node: ZNode, ghost m: Image, ghost c: Ctx, ghost t: Tree, ghost h: nat, ghost s: nat)
    returns (top: ZNode, ghost k: Image)
    requires Holds(m) && Pending(m, c, t, h, s) && t.n == node
    modifies m.Keys`left, m.Keys`right, m.Keys`parent, m.Keys`depth, m.Keys`count
    ensures Holds(k) && Same(m, k, Nodes(t)) && Fix(t).Node? && top == Fix(t).n
    ensures Nodes(Fix(t)) == Nodes(t) && Distinct(Fix(t))
    ensures Linked(k, Fix(t), CtxParent(c)) && CtxLinked(k, c, node, h, s)
    ensures One(CtxParent(c)) <= CtxNodes(c) * k.Keys
  {
    top, k := Turn(node, m, t, CtxParent(c));
    CtxFrame(m, k, Nodes(t), c, node, h, s);
    FixNodes(t);
  }

  /** avl_rebalance, from the root of `t0` up to the root of the tree. */
  method Rebalance(start: ZNode, ghost m: Image, ghost c0: Ctx, ghost t0: Tree, ghost h0: nat, ghost s0: nat)
    returns (root: ZNode, ghost k: Image)
    requires Holds(m) && Pending(m, c0, t0, h0, s0) && t0.n == start
    modifies m.Keys`left, m.Keys`right, m.Keys`parent, m.Keys`depth, m.Keys`count
    ensures Holds(k) && Linked(k, Rebuild(c0, Fix(t0)), null) && root == Root(Rebuild(c0, Fix(t0)))
    ensures Same(m, k, CtxNodes(c0) + Nodes(t0))
  {
    var node := start;
    k := m;
    ghost var all := CtxNodes(c0) + Nodes(t0);
    ghost var c, t, h, s := c0, t0, h0, s0;
    while true
      invariant Holds(k) && Pending(k, c, t, h, s) && t.n == node
      invariant CtxNodes(c) + Nodes(t) == all && Same(m, k, all)
      invariant Rebuild(c, Fix(t)) == Rebuild(c0, Fix(t0))
      decreases c
    {
      assert node in k.Keys;
      var parent := node.parent;
      var top;
      top, k := TurnBelow(node, k, c, t, h, s);
      if parent == null {
        return top, k;
      }
      ghost var d, n := k[c.n].depth, k[c.n].count;
      k := Climb(parent, node, top, k, c, Fix(t), h, s);
      node := top.parent;
      c, t, h, s := c.up, Plug1(c, Fix(t)), d, n;
    }
  }
}
