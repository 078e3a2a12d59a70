/** The tree half of src/zset.cpp: tree_add and the descent of zset_query. */
module ZTree {
  import opened Keys
  import opened AvlTree
  import opened Avl
  import opened AvlDelete
  import opened AvlRank

  /** The scores of a set of nodes. */
  type Scores = map<ZNode, Score>

  ghost predicate HoldsScores(sc: Scores)
    reads sc.Keys`score
  {
    forall x <- sc.Keys :: x.score == sc[x]
  }

  ghost function KeyIn(sc: Scores, x: ZNode): Key
    requires x in sc
  {
    Key(sc[x], x.name)
  }

  /** Every node of `a` comes before key `q`. */
  ghost predicate AllBelow(sc: Scores, a: seq<ZNode>, q: Key) {
    forall x <- a :: x in sc && ZLess(KeyIn(sc, x), q)
  }

  /** No node of `b` comes before key `q`. */
  ghost predicate NoneBelow(sc: Scores, b: seq<ZNode>, q: Key) {
    forall x <- b :: x in sc && !ZLess(KeyIn(sc, x), q)
  }

  /** Strictly increasing by (score, name). */
  ghost predicate Ordered(sc: Scores, s: seq<ZNode>) {
    && (forall x <- s :: x in sc)
    && forall i, j :: 0 <= i < j < |s| ==> ZLess(KeyIn(sc, s[i]), KeyIn(sc, s[j]))
  }

  /** A linked, balanced search tree on (score, name). */
  ghost predicate SearchTree(m: Image, t: Tree, sc: Scores) {
    Distinct(t) && Linked(m, t, null) && Balanced(t) && Ordered(sc, Inorder(t))
  }

  /** zless(lhs, score, name) */
  function NodeLess(lhs: ZNode, q: Key): bool
    reads lhs`score
  {
    ZLess(Key(lhs.score, lhs.name), q)
  }

  lemma OrderedSplit(sc: Scores, a: seq<ZNode>, x: ZNode, b: seq<ZNode>)
    requires Ordered(sc, a + [x] + b)
    ensures AllBelow(sc, a, KeyIn(sc, x))
    ensures forall y <- b :: ZLess(KeyIn(sc, x), KeyIn(sc, y))
  {
    var s := a + [x] + b;
    assert s[|a|] == x;
    forall i | 0 <= i < |a| ensures a[i] in sc && ZLess(KeyIn(sc, a[i]), KeyIn(sc, x)) {
      assert s[i] == a[i];
    }
    forall j | 0 <= j < |b| ensures b[j] in sc && ZLess(KeyIn(sc, x), KeyIn(sc, b[j])) {
      assert s[|a| + 1 + j] == b[j];
    }
  }

  lemma OrderedInsert(sc: Scores, a: seq<ZNode>, x: ZNode, b: seq<ZNode>)
    requires Ordered(sc, a + b) && x in sc
    requires AllBelow(sc, a, KeyIn(sc, x)) && forall y <- b :: y in sc && ZLess(KeyIn(sc, x), KeyIn(sc, y))
    ensures Ordered(sc, a + [x] + b)
  {
    var s, u := a + b, a + [x] + b;
    forall i, j | 0 <= i < j < |u| ensures ZLess(KeyIn(sc, u[i]), KeyIn(sc, u[j])) {
      var i' := if i < |a| then i else i - 1;
      var j' := if j < |a| then j else j - 1;
      if i != |a| { assert u[i] == s[i']; }
      if j != |a| { assert u[j] == s[j']; }
      if j == |a| { assert u[i] in a; }
      if i == |a| { assert u[j] in b; }
    }
  }

  lemma OrderedDrop(sc: Scores, a: seq<ZNode>, x: ZNode, b: seq<ZNode>)
    requires Ordered(sc, a + [x] + b)
    ensures Ordered(sc, a + b)
  {
    var s, u := a + b, a + [x] + b;
    assert forall i :: 0 <= i < |s| ==> s[i] == u[if i < |a| then i else i + 1];
  }

  // ----- tree_add -----

  /** A new leaf below `curr`. */
  method Attach(curr: ZNode, node: ZNode, toLeft: bool, ghost m: Image, ghost c: Ctx) returns (ghost k: Image)
    requires Holds(m) && !c.Top? && c.n == curr && c.InLeft? == toLeft
    requires CtxDistinct(c) && CtxLinked(m, c, null, 0, 0)
    requires node in m && node !in CtxNodes(c) && m[node] == Rec(null, null, null, 1, 1)
    modifies curr`left, curr`right, node`parent
    ensures Holds(k) && Same(m, k, {curr, node}) && Pending(k, c, Node(Leaf, node, Leaf), 0, 0)
  {
    assert curr in m.Keys;
    if toLeft {
      curr.left := node;
    } else {
      curr.right := node;
    }
    node.parent := curr;
    ghost var r := if toLeft then m[curr].(left := node) else m[curr].(right := node);
    k := m[curr := r][node := m[node].(parent := curr)];
    assert Holds(k);
    Attached(m, k, c, node);
  }

  lemma Attached(m: Image, k: Image, c: Ctx, node: ZNode)
    requires !c.Top? && CtxDistinct(c) && CtxLinked(m, c, null, 0, 0)
    requires node in m && node !in CtxNodes(c) && m[node] == Rec(null, null, null, 1, 1)
    requires Same(m, k, {c.n, node}) && k[node] == m[node].(parent := c.n)
    requires k[c.n] == if c.InLeft? then m[c.n].(left := node) else m[c.n].(right := node)
    ensures Pending(k, c, Node(Leaf, node, Leaf), 0, 0)
  {
    var d := {c.n, node};
    if c.InLeft? { Frame(m, k, d, c.r, c.n); } else { Frame(m, k, d, c.l, c.n); }
    CtxFrame(m, k, d, c.up, c.n, m[c.n].depth, m[c.n].count);
  }

  /** The search path so far: everything before the hole is below the key, nothing after it. */
  ghost predicate OnPath(sc: Scores, c: Ctx, t: Tree, whole: Tree, q: Key) {
    Plug(c, t) == whole && AllBelow(sc, Before(c), q) && NoneBelow(sc, After(c), q)
  }

  /** Going one way or the other at a node keeps the search on its path. */
  lemma Descend(sc: Scores, c: Ctx, t: Tree, whole: Tree, q: Key)
    requires t.Node? && OnPath(sc, c, t, whole, q) && Ordered(sc, Inorder(whole))
    ensures t.n in sc
    ensures ZLess(KeyIn(sc, t.n), q) ==> OnPath(sc, InRight(c, t.l, t.n), t.r, whole, q)
    ensures !ZLess(KeyIn(sc, t.n), q) ==> OnPath(sc, InLeft(c, t.n, t.r), t.l, whole, q)
  {
    PlugInorder(c, t);
    var pre, x, post := Before(c) + Inorder(t.l), t.n, Inorder(t.r) + After(c);
    Splits(Before(c), Inorder(t.l), x, Inorder(t.r), After(c));
    OrderedSplit(sc, pre, x, post);
    if ZLess(KeyIn(sc, x), q) {
      BelowToo(sc, pre, x, q);
      AllBelowPieces(sc, Before(c), Inorder(t.l), x, q);
    } else {
      AboveToo(sc, x, post, q);
      NoneBelowPieces(sc, x, Inorder(t.r), After(c), q);
    }
  }

  lemma BelowToo(sc: Scores, a: seq<ZNode>, x: ZNode, q: Key)
    requires x in sc && AllBelow(sc, a, KeyIn(sc, x)) && ZLess(KeyIn(sc, x), q)
    ensures AllBelow(sc, a, q)
  {
    forall y | y in a ensures y in sc && ZLess(KeyIn(sc, y), q) { ZLessTransitive(KeyIn(sc, y), KeyIn(sc, x), q); }
  }

  lemma AboveToo(sc: Scores, x: ZNode, b: seq<ZNode>, q: Key)
    requires x in sc && (forall y <- b :: y in sc && ZLess(KeyIn(sc, x), KeyIn(sc, y))) && !ZLess(KeyIn(sc, x), q)
    ensures NoneBelow(sc, b, q)
  {
    forall y | y in b ensures y in sc && !ZLess(KeyIn(sc, y), q) {
      if ZLess(KeyIn(sc, y), q) { ZLessTransitive(KeyIn(sc, x), KeyIn(sc, y), q); }
    }
  }

  lemma AllBelowPieces(sc: Scores, a: seq<ZNode>, l: seq<ZNode>, x: ZNode, q: Key)
    requires AllBelow(sc, a + l, q) && x in sc && ZLess(KeyIn(sc, x), q)
    ensures AllBelow(sc, a + l + [x], q)
  {
  }

  lemma NoneBelowPieces(sc: Scores, x: ZNode, r: seq<ZNode>, b: seq<ZNode>, q: Key)
    requires NoneBelow(sc, r + b, q) && x in sc && !ZLess(KeyIn(sc, x), q)
    ensures NoneBelow(sc, [x] + r + b, q)
  {
    assert [x] + r + b == [x] + (r + b);
  }

  /** tree_add, past its test for an empty tree: the descent to an empty child. */
  method FindSlot(tree: ZNode, node: ZNode, ghost m: Image, ghost t: Tree, ghost sc: Scores)
    returns (curr: ZNode, toLeft: bool, ghost c: Ctx)
    requires Holds(m) && HoldsScores(sc) && SearchTree(m, t, sc) && t.Node? && tree == t.n
    requires node in sc && forall x <- Nodes(t) :: x.name != node.name
    ensures !c.Top? && c.n == curr && c.InLeft? == toLeft && OnPath(sc, c, Leaf, t, KeyIn(sc, node))
  {
    curr := tree;
    c := Top;
    ghost var s := t;
    ghost var q := KeyIn(sc, node);
    while true
      invariant s.Node? && curr == s.n && OnPath(sc, c, s, t, q)
      decreases s
    {
      SlotStep(m, c, s, t, sc, node);
      toLeft := NodeLess(node, Key(curr.score, curr.name));
      var next := if toLeft then curr.left else curr.right;
      c, s := if toLeft then InLeft(c, s.n, s.r) else InRight(c, s.l, s.n), if toLeft then s.l else s.r;
      if next == null {
        return;
      }
      curr := next;
    }
  }

  lemma SlotStep(m: Image, c: Ctx, s: Tree, t: Tree, sc: Scores, node: ZNode)
    requires Holds(m) && HoldsScores(sc) && SearchTree(m, t, sc) && s.Node?
    requires node in sc && forall x <- Nodes(t) :: x.name != node.name
    requires OnPath(sc, c, s, t, KeyIn(sc, node))
    ensures s.n.left == Root(s.l) && s.n.right == Root(s.r)
    ensures if NodeLess(node, Key(s.n.score, s.n.name))
            then OnPath(sc, InLeft(c, s.n, s.r), s.l, t, KeyIn(sc, node))
            else OnPath(sc, InRight(c, s.l, s.n), s.r, t, KeyIn(sc, node))
  {
    var q := KeyIn(sc, node);
    ReadNode(m, c, s);
    Descend(sc, c, s, t, q);
    PlugNodes(c, s);
    assert s.n in Nodes(t) && s.n in sc.Keys && node in sc.Keys;
    ZLessTotal(KeyIn(sc, s.n), q);
  }

  /** tree_add into a tree that is not empty. */
  method InsertBelow(tree: ZNode, node: ZNode, ghost m: Image, ghost t: Tree, ghost sc: Scores)
    returns (root: ZNode, ghost k: Image, ghost c: Ctx)
    requires Holds(m) && HoldsScores(sc) && SearchTree(m, t, sc) && t.Node? && tree == t.n
    requires node in m && node !in Nodes(t) && m[node] == Rec(null, null, null, 1, 1)
    requires node in sc && forall x <- Nodes(t) :: x.name != node.name
    modifies m.Keys`left, m.Keys`right, m.Keys`parent, m.Keys`depth, m.Keys`count
    ensures OnPath(sc, c, Leaf, t, KeyIn(sc, node))
    ensures Holds(k) && k.Keys == m.Keys && root == Root(Rebuild(c, Node(Leaf, node, Leaf)))
    ensures Linked(k, Rebuild(c, Node(Leaf, node, Leaf)), null)
  {
    var curr, toLeft;
    curr, toLeft, c := FindSlot(tree, node, m, t, sc);
    LinkedAt(m, c, Leaf);
    PlugDistinct(c, Leaf);
    PlugNodes(c, Leaf);
    k := Attach(curr, node, toLeft, m, c);
    root, k := Rebalance(node, k, c, Node(Leaf, node, Leaf), 0, 0);
  }

  /** tree_add: `node` joins the order at its place and everything stays in balance. */
  method TreeAdd(tree: ZNode?, node: ZNode, ghost m: Image, ghost t: Tree, ghost sc: Scores)
    returns (root: ZNode, ghost k: Image, ghost u: Tree)
    requires Holds(m) && HoldsScores(sc) && SearchTree(m, t, sc) && tree == Root(t)
    requires node in m && node !in Nodes(t) && m[node] == Rec(null, null, null, 1, 1)
    requires node in sc && forall x <- Nodes(t) :: x.name != node.name
    modifies m.Keys`left, m.Keys`right, m.Keys`parent, m.Keys`depth, m.Keys`count
    ensures Holds(k) && k.Keys == m.Keys && u.Node? && root == u.n
    ensures SearchTree(k, u, sc) && Nodes(u) == Nodes(t) + {node}
  {
    if tree == null {
      root, k, u := node, m, Node(Leaf, node, Leaf);
      assert Inorder(u) == [node] && Height(u.l) == Size(u.l) == 0 && Height(u) == Size(u) == 1;
    } else {
      ghost var c;
      root, k, c := InsertBelow(tree, node, m, t, sc);
      u := Rebuild(c, Node(Leaf, node, Leaf));
      JoinedShape(c, t, node);
      JoinedOrder(c, t, node, sc);
      assert node in Nodes(u);
    }
  }

  lemma JoinedShape(c: Ctx, t: Tree, node: ZNode)
    requires Plug(c, Leaf) == t && Distinct(t) && Balanced(t) && node !in Nodes(t)
    ensures var u := Rebuild(c, Node(Leaf, node, Leaf));
            Distinct(u) && Balanced(u) && Nodes(u) == Nodes(t) + {node}
  {
    var leaf := Node(Leaf, node, Leaf);
    assert Nodes(leaf) == {node};
    PlugDistinct(c, Leaf);
    PlugNodes(c, Leaf);
    PlugBalanced(c, Leaf);
    RebuildNodes(c, leaf);
    RebuildBalanced(c, leaf, 0);
  }

  lemma JoinedOrder(c: Ctx, t: Tree, node: ZNode, sc: Scores)
    requires Plug(c, Leaf) == t && Ordered(sc, Inorder(t))
    requires node in sc && OnPath(sc, c, Leaf, t, KeyIn(sc, node)) && forall x <- Nodes(t) :: x.name != node.name
    ensures Ordered(sc, Inorder(Rebuild(c, Node(Leaf, node, Leaf))))
  {
    var leaf, q := Node(Leaf, node, Leaf), KeyIn(sc, node);
    RebuildInorder(c, leaf);
    PlugInorder(c, leaf);
    PlugInorder(c, Leaf);
    assert Inorder(leaf) == [node];
    assert Before(c) + [] + After(c) == Before(c) + After(c);
    PlugNodes(c, Leaf);
    CtxElems(c);
    forall y | y in After(c) ensures y in sc && ZLess(q, KeyIn(sc, y)) {
      assert y in Elems(After(c));
      ZLessTotal(KeyIn(sc, y), q);
    }
    OrderedInsert(sc, Before(c), node, After(c));
  }

  // ----- the tree with its image and its scores -----

  lemma {:induction false} RestrictLinked(m: Image, t: Tree, p: ZNode?, s: set<ZNode>)
    requires Linked(m, t, p) && Nodes(t) <= s
    ensures Linked(map x | x in m && x in s :: m[x], t, p)
  {
    if t.Node? {
      RestrictLinked(m, t.l, t.n, s);
      RestrictLinked(m, t.r, t.n, s);
    }
  }

  lemma {:induction false} ExtendLinked(m: Image, t: Tree, p: ZNode?, x: ZNode, r: Rec)
    requires Linked(m, t, p) && x !in Nodes(t)
    ensures Linked(m[x := r], t, p)
  {
    if t.Node? {
      ExtendLinked(m, t.l, t.n, x, r);
      ExtendLinked(m, t.r, t.n, x, r);
    }
  }

  lemma OrderedForget(sc: Scores, s: seq<ZNode>, x: ZNode)
    requires Ordered(sc, s) && x !in s
    ensures Ordered(sc - {x}, s)
  {
    forall i, j | 0 <= i < j < |s| ensures s[i] in sc - {x} && s[j] in sc - {x}
      && ZLess(KeyIn(sc - {x}, s[i]), KeyIn(sc - {x}, s[j])) {}
  }

  lemma OrderedLearn(sc: Scores, s: seq<ZNode>, x: ZNode, v: Score)
    requires Ordered(sc, s) && x !in s
    ensures Ordered(sc[x := v], s)
  {
    forall i, j | 0 <= i < j < |s| ensures s[i] in sc && s[j] in sc
      && ZLess(KeyIn(sc[x := v], s[i]), KeyIn(sc[x := v], s[j])) {}
  }

  /** What is left of a search tree when a node is deleted from it. */
  lemma DeletedTree(m: Image, k: Image, sc: Scores, c: Ctx, t: Tree)
    requires t.Node? && SearchTree(m, Plug(c, t), sc) && Linked(k, Delete(c, t), null)
    ensures var u, s := Delete(c, t), Nodes(Plug(c, t)) - {t.n};
            Nodes(u) == s && SearchTree(map x | x in k && x in s :: k[x], u, sc - {t.n})
  {
    var u, x := Delete(c, t), t.n;
    DeleteNodes(c, t);
    DeleteBalanced(c, t);
    RestrictLinked(k, u, null, Nodes(u));
    DeletedOrder(sc, c, t);
  }

  lemma DeletedOrder(sc: Scores, c: Ctx, t: Tree)
    requires t.Node? && Distinct(Plug(c, t)) && Ordered(sc, Inorder(Plug(c, t)))
    ensures Ordered(sc - {t.n}, Inorder(Delete(c, t)))
  {
    var a, b := DeleteSplits(c, t);
    OrderedDrop(sc, a, t.n, b);
    DeleteNodes(c, t);
    InorderNodes(Delete(c, t));
    assert t.n !in Elems(Inorder(Delete(c, t)));
    OrderedForget(sc, Inorder(Delete(c, t)), t.n);
  }

  /** No two nodes have the same name. */
  ghost predicate Unique(nodes: set<ZNode>) {
    forall x <- nodes, y <- nodes :: x.name == y.name ==> x == y
  }

  /** A tree as its nodes hold it: shape, links and scores. */
  datatype View = View(shape: Tree, image: Image, scores: Scores)

  /** A balanced search tree of uniquely named nodes. */
  ghost predicate Sound(v: View) {
    && v.image.Keys == v.scores.Keys == Nodes(v.shape) && Unique(v.image.Keys)
    && SearchTree(v.image, v.shape, v.scores)
  }

  /** The heap holds `v`. */
  ghost predicate Mirrors(v: View)
    reads v.image.Keys, v.scores.Keys
  {
    Holds(v.image) && HoldsScores(v.scores)
  }

  /** Both, folded. */
  ghost predicate Stands(v: View)
    reads v.image.Keys, v.scores.Keys
  {
    forall u <- {v} :: Sound(u) && Mirrors(u)
  }

  /** avl_delete on a search tree. */
  method TreeRemove(node: ZNode, ghost v: View) returns (root: ZNode?, ghost w: View)
    requires Stands(v) && node in v.image
    modifies v.image.Keys`left, v.image.Keys`right, v.image.Keys`parent, v.image.Keys`depth, v.image.Keys`count
    ensures Stands(w) && root == Root(w.shape) && w.scores == v.scores - {node} && w.image.Keys == v.image.Keys - {node}
  {
    assert Sound(v) && Mirrors(v);
    ghost var (c, s) := Locate(Top, v.shape, node);
    WholeTree(v.image, c, s);
    ghost var k;
    root, k := Remove(node, v.image, c, s);
    w := DeletedView(v, k, c, s);
    assert Mirrors(w);
    Standing(w);
  }

  lemma Standing(v: View)
    requires Sound(v) && Mirrors(v)
    ensures Stands(v)
  {
  }

  lemma DeletedView(v: View, k: Image, c: Ctx, s: Tree) returns (w: View)
    requires Sound(v) && s.Node? && Plug(c, s) == v.shape && k.Keys == v.image.Keys && Linked(k, Delete(c, s), null)
    ensures Sound(w) && w.shape == Delete(c, s) && w.scores == v.scores - {s.n} && w.image.Keys == v.image.Keys - {s.n}
    ensures forall x <- w.image.Keys :: w.image[x] == k[x]
  {
    DeletedTree(v.image, k, v.scores, c, s);
    w := View(Delete(c, s), map x | x in k && x in v.image.Keys - {s.n} :: k[x], v.scores - {s.n});
  }

  /** tree_add of a node that is in no tree, as znode_new or avl_init left it. */
  method TreeJoin(tree: ZNode?, node: ZNode, ghost v: View) returns (root: ZNode, ghost w: View)
    requires Stands(v) && tree == Root(v.shape)
    requires node !in v.image && forall x <- v.image.Keys :: x.name != node.name
    requires RecOf(node) == Rec(null, null, null, 1, 1)
    modifies v.image.Keys`left, v.image.Keys`right, v.image.Keys`parent, v.image.Keys`depth, v.image.Keys`count
    modifies node`left, node`right, node`parent, node`depth, node`count
    ensures Stands(w) && root == Root(w.shape) && w.scores == v.scores[node := node.score]
    ensures w.image.Keys == v.image.Keys + {node} && Unique(w.image.Keys)
  {
    assert Sound(v) && Mirrors(v);
    ghost var m, sc := v.image[node := RecOf(node)], v.scores[node := node.score];
    Prepared(v, node, RecOf(node), node.score);
    ghost var k, u;
    root, k, u := TreeAdd(tree, node, m, v.shape, sc);
    w := View(u, k, sc);
    assert Mirrors(w);
    Standing(w);
  }

  lemma Prepared(v: View, node: ZNode, r: Rec, score: Score)
    requires Sound(v) && node !in v.image && forall x <- v.image.Keys :: x.name != node.name
    ensures SearchTree(v.image[node := r], v.shape, v.scores[node := score])
    ensures Unique(v.image.Keys + {node})
  {
    ExtendLinked(v.image, v.shape, null, node, r);
    InorderNodes(v.shape);
    assert node !in Elems(Inorder(v.shape));
    OrderedLearn(v.scores, Inorder(v.shape), node, score);
  }

  /** zset_update: a changed score moves the node to its new place. */
  method TreeUpdate(tree: ZNode?, node: ZNode, score: Score, ghost v: View) returns (root: ZNode?, ghost w: View)
    requires Stands(v) && tree == Root(v.shape) && node in v.image
    modifies v.image.Keys
    ensures Stands(w) && root == Root(w.shape) && w.scores == v.scores[node := score] && w.image.Keys == v.image.Keys
  {
    assert Sound(v) && Mirrors(v) && node in v.scores.Keys;
    if node.score == score {
      Rescored(v.scores, node, score);
      return tree, v;
    }
    root, w := TreeRemove(node, v);
    root, w := Rejoin(root, node, score, w);
    Rescored(v.scores, node, score);
  }

  lemma Rescored(sc: Scores, x: ZNode, score: Score)
    ensures (sc - {x})[x := score] == sc[x := score]
    ensures x in sc && sc[x] == score ==> sc[x := score] == sc
  {
  }

  /** A node that has left the tree gets its new score and comes back. */
  method Rejoin(tree: ZNode?, node: ZNode, score: Score, ghost v: View) returns (root: ZNode?, ghost w: View)
    requires Stands(v) && tree == Root(v.shape)
    requires node !in v.image && forall x <- v.image.Keys :: x.name != node.name
    modifies v.image.Keys, node
    ensures Stands(w) && root == Root(w.shape) && w.scores == v.scores[node := score]
    ensures w.image.Keys == v.image.Keys + {node}
  {
    assert Sound(v) && Mirrors(v) && node !in v.scores.Keys;
    node.score := score;
    node.depth, node.count := 1, 1;
    node.left, node.right, node.parent := null, null, null;
    assert Sound(v) && Mirrors(v);
    root, w := TreeJoin(tree, node, v);
  }

  // ----- zset_query -----

  /** The position of the least key that is not below `q`. */
  ghost predicate IsLowerBound(sc: Scores, s: seq<ZNode>, q: Key, i: nat) {
    i <= |s| && AllBelow(sc, s[..i], q) && NoneBelow(sc, s[i..], q)
  }

  /** The same, said without `zless`: all before the position precede `q`, and none from there on. */
  ghost predicate StartsAt(sc: Scores, s: seq<ZNode>, q: Key, i: nat) {
    && i <= |s| && (forall x <- s :: x in sc)
    && (forall j :: 0 <= j < |s| ==> (j < i <==> Precedes(KeyIn(sc, s[j]), q)))
  }

  /** That position, counted from the front. */
  ghost function Below(sc: Scores, s: seq<ZNode>, q: Key): (i: nat)
    ensures i <= |s|
  {
    if s == [] || s[0] !in sc || !ZLess(KeyIn(sc, s[0]), q) then 0 else 1 + Below(sc, s[1..], q)
  }

  lemma {:induction false} BelowIs(sc: Scores, s: seq<ZNode>, q: Key, i: nat)
    requires IsLowerBound(sc, s, q, i)
    ensures i == Below(sc, s, q)
  {
    if i > 0 {
      assert s[..i][0] == s[0];
      assert s[1..][..i - 1] == s[..i][1..] && s[1..][i - 1..] == s[i..];
      BelowIs(sc, s[1..], q, i - 1);
    } else if s != [] {
      assert s[0..][0] == s[0];
    }
  }

  lemma {:induction false} BelowStarts(sc: Scores, s: seq<ZNode>, q: Key)
    requires Ordered(sc, s)
    ensures StartsAt(sc, s, q, Below(sc, s, q))
  {
    if s != [] {
      ZLessIsPrecedes(KeyIn(sc, s[0]), q);
      if ZLess(KeyIn(sc, s[0]), q) {
        BelowStarts(sc, s[1..], q);
      } else {
        forall j | 0 < j < |s| ensures !Precedes(KeyIn(sc, s[j]), q) {
          ZLessIsPrecedes(KeyIn(sc, s[j]), q);
          if ZLess(KeyIn(sc, s[j]), q) { ZLessTransitive(KeyIn(sc, s[0]), KeyIn(sc, s[j]), q); }
        }
      }
    }
  }

  /** The descent of zset_query: `found` is the first node in order whose key is not below `q`. */
  method LowerBound(tree: ZNode?, q: Key, ghost m: Image, ghost t: Tree, ghost sc: Scores)
    returns (found: ZNode?)
    requires Holds(m) && HoldsScores(sc) && SearchTree(m, t, sc) && tree == Root(t)
    ensures StartsAt(sc, Inorder(t), q, Below(sc, Inorder(t), q))
    ensures var i := Below(sc, Inorder(t), q); found == if i < |Inorder(t)| then Inorder(t)[i] else null
  {
    found := null;
    var curr := tree;
    ghost var c, s := Top, t;
    while curr != null
      invariant curr == Root(s) && OnPath(sc, c, s, t, q)
      invariant found == if After(c) == [] then null else After(c)[0]
      decreases s
    {
      ReadNode(m, c, s);
      Descend(sc, c, s, t, q);
      assert curr in sc.Keys;
      if NodeLess(curr, q) {
        c, s := InRight(c, s.l, s.n), s.r;
        curr := curr.right;
      } else {
        found := curr;
        c, s := InLeft(c, s.n, s.r), s.l;
        curr := curr.left;
      }
    }
    PlugInorder(c, s);
    ghost var i, order := |Before(c)|, Inorder(t);
    assert order == Before(c) + [] + After(c);
    assert order[..i] == Before(c) && order[i..] == After(c);
    BelowIs(sc, order, q, i);
    BelowStarts(sc, order, q);
  }
}
