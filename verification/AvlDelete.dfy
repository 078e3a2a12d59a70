/** avl_delete (src/avl.cpp:118-159) on the heap. */
module AvlDelete {
  import opened AvlTree
  import opened Avl

  /** `m` holds the whole tree `Plug(c, t)`, seen from the root of `t`. */
  ghost predicate Whole(m: Image, c: Ctx, t: Tree) {
    && t.Node? && Distinct(t) && CtxDistinct(c) && CtxNodes(c) !! Nodes(t)
    && Linked(m, t, CtxParent(c)) && CtxLinked(m, c, t.n, Height(t), Size(t))
  }

  lemma WholeTree(m: Image, c: Ctx, t: Tree)
    ensures Whole(m, c, t) <==> t.Node? && Distinct(Plug(c, t)) && Linked(m, Plug(c, t), null)
  {
    PlugDistinct(c, t);
    LinkedAt(m, c, t);
  }

  /** The successor takes over the whole record of the node. */
  method CopyRecord(victim: ZNode, node: ZNode, ghost m: Image) returns (ghost k: Image)
    requires Holds(m) && victim in m && node in m
    modifies victim`left, victim`right, victim`parent, victim`depth, victim`count
    ensures Holds(k) && k == m[victim := m[node]]
  {
    victim.left, victim.right, victim.parent := node.left, node.right, node.parent;
    victim.depth, victim.count := node.depth, node.count;
    k := m[victim := m[node]];
  }

  /** `victim` takes over the record and the children of `node`. */
  method Adopt(victim: ZNode, node: ZNode, ghost m: Image, ghost l: ZNode?, ghost r: ZNode?) returns (ghost k: Image)
    requires Holds(m) && victim in m && node in m && m[node].left == l && m[node].right == r
    requires One(l) + One(r) <= m.Keys - {victim, node} && One(l) !! One(r)
    modifies m.Keys`left, m.Keys`right, m.Keys`parent, m.Keys`depth, m.Keys`count
    ensures Holds(k) && Same(m, k, {victim} + One(l) + One(r)) && k[victim] == m[node]
    ensures l != null ==> k[l] == m[l].(parent := victim)
    ensures r != null ==> k[r] == m[r].(parent := victim)
  {
    var k1 := CopyRecord(victim, node, m);
    assert victim in k1.Keys;
    var k2 := SetParent(victim.left, victim, k1);
    assert victim in k2.Keys && k2[victim] == m[node];
    k := SetParent(victim.right, victim, k2);
  }

  /** Puts `victim`, which is in no tree, in the place of `node`. */
  method TakePlace(victim: ZNode, node: ZNode, ghost m: Image, ghost c: Ctx, ghost t: Tree) returns (ghost k: Image)
    requires Holds(m) && Whole(m, c, t) && t.n == node
    requires victim in m && victim !in Nodes(t) && victim !in CtxNodes(c)
    modifies m.Keys`left, m.Keys`right, m.Keys`parent, m.Keys`depth, m.Keys`count
    ensures Holds(k) && Same(m, k, {victim} + Nodes(t) + CtxNodes(c))
    ensures Whole(k, c, Node(t.l, victim, t.r))
    ensures node.parent == CtxParent(c)
  {
    InnerChild(m, t, CtxParent(c));
    k := Adopt(victim, node, m, Root(t.l), Root(t.r));
    assert node in k.Keys && k[node] == m[node];
    Replanted(m, k, c, t, victim);
    if node.parent != null {
      ghost var k1 := k;
      k := SetChild(node.parent, node, victim, k, c, Height(t), Size(t));
      Frame(k1, k, {c.n}, Node(t.l, victim, t.r), CtxParent(c));
    }
  }

  lemma Replanted(m: Image, k: Image, c: Ctx, t: Tree, v: ZNode)
    requires Whole(m, c, t) && v !in Nodes(t) && v !in CtxNodes(c) && v in m
    requires Same(m, k, {v} + One(Root(t.l)) + One(Root(t.r))) && k[v] == m[t.n]
    requires t.l.Node? ==> t.l.n in k && k[t.l.n] == m[t.l.n].(parent := v)
    requires t.r.Node? ==> t.r.n in k && k[t.r.n] == m[t.r.n].(parent := v)
    ensures Linked(k, Node(t.l, v, t.r), CtxParent(c))
    ensures CtxLinked(k, c, t.n, Height(t), Size(t))
    ensures Distinct(Node(t.l, v, t.r)) && CtxNodes(c) !! Nodes(Node(t.l, v, t.r))
  {
    Rehang(m, k, {v} + One(Root(t.r)), t.l, t.n, v);
    Rehang(m, k, {v} + One(Root(t.l)), t.r, t.n, v);
    CtxFrame(m, k, {v} + One(Root(t.l)) + One(Root(t.r)), c, t.n, Height(t), Size(t));
  }

  /** avl_delete of a node without a right child: its left child takes its place. */
  method Unlink(node: ZNode, ghost m: Image, ghost c: Ctx, ghost t: Tree) returns (root: ZNode?, ghost k: Image)
    requires Holds(m) && Whole(m, c, t) && t.n == node && t.r.Leaf?
    modifies m.Keys`left, m.Keys`right, m.Keys`parent, m.Keys`depth, m.Keys`count
    ensures Holds(k) && Same(m, k, CtxNodes(c) + Nodes(t))
    ensures Linked(k, Delete(c, t), null) && root == Root(Delete(c, t))
  {
    InnerChild(m, t, CtxParent(c));
    assert node in m.Keys;
    var parent, left := node.parent, node.left;
    k := SetParent(left, parent, m);
    Rehang(m, k, {}, t.l, node, parent);
    CtxFrame(m, k, One(Root(t.l)), c, node, Height(t), Size(t));
    if parent == null {
      return left, k;
    }
    ghost var d, n := k[c.n].depth, k[c.n].count;
    k := Climb(parent, node, left, k, c, t.l, Height(t), Size(t));
    root, k := Rebalance(parent, k, c.up, Plug1(c, t.l), d, n);
  }

  /** The walk to the smallest node of the right subtree. */
  method Successor(node: ZNode, ghost m: Image, ghost c: Ctx, ghost t: Tree)
    returns (victim: ZNode, ghost vc: Ctx, ghost vt: Tree)
    requires Holds(m) && Whole(m, c, t) && t.n == node && t.r.Node?
    ensures (vc, vt) == Leftmost(InRight(c, t.l, t.n), t.r) && victim == vt.n && Whole(m, vc, vt)
  {
    ghost var c1 := InRight(c, t.l, t.n);
    InnerChild(m, t, CtxParent(c));
    assert node in m.Keys;
    victim := node.right;
    vc, vt := c1, t.r;
    WholeTree(m, c, t);
    WholeTree(m, c1, t.r);
    InnerChild(m, vt, CtxParent(vc));
    assert victim in m.Keys;
    while victim.left != null
      invariant vt.Node? && vt.n == victim && victim in m.Keys && Whole(m, vc, vt)
      invariant Leftmost(vc, vt) == Leftmost(c1, t.r) && Plug(vc, vt) == Plug(c1, t.r)
      decreases vt
    {
      InnerChild(m, vt, CtxParent(vc));
      victim := victim.left;
      WholeTree(m, vc, vt);
      vc, vt := InLeft(vc, vt.n, vt.r), vt.l;
      WholeTree(m, vc, vt);
    }
    InnerChild(m, vt, CtxParent(vc));
  }

  lemma {:induction false} RootOfPlug(c: Ctx, t: Tree, u: Tree)
    requires !c.Top?
    ensures Root(Plug(c, t)) == Root(Plug(c, u))
    ensures Plug(c, t).Node? && Plug(c, t).n in CtxNodes(c)
    decreases c
  {
    if !c.up.Top? {
      RootOfPlug(c.up, Plug1(c, t), Plug1(c, u));
    }
  }

  /** Where the node to be removed ended up after its successor was taken out, and
      what swapping the two means for the whole shape. */
  lemma Relocate(m: Image, k: Image, c: Ctx, t: Tree, vc: Ctx, vt: Tree) returns (c2: Ctx, t2: Tree)
    requires Whole(m, c, t) && t.r.Node? && (vc, vt) == Leftmost(InRight(c, t.l, t.n), t.r)
    requires Linked(k, Delete(vc, vt), null)
    ensures Whole(k, c2, t2) && t2.n == t.n && vt.n !in Nodes(t2) && vt.n !in CtxNodes(c2)
    ensures Plug(c2, t2) == Delete(vc, vt)
    ensures Plug(c2, Node(t2.l, vt.n, t2.r)) == Delete(c, t)
    ensures Nodes(t2) + CtxNodes(c2) <= Nodes(t) + CtxNodes(c) && vt.n in Nodes(t)
  {
    var d, x, v := Delete(vc, vt), t.n, vt.n;
    WholeTree(m, c, t);
    DeleteNodes(vc, vt);
    SuccessorElsewhere(c, t);
    PlugNodes(c, t);
    assert x in Nodes(d);
    var (c3, t3) := Locate(Top, d, x);
    c2, t2 := c3, t3;
    WholeTree(k, c2, t2);
    PlugNodes(c2, t2);
    ReplaceAt(c2, t2, x, v);
    ReplaceAbsent(t2.l, x, v);
    ReplaceAbsent(t2.r, x, v);
  }

  /** avl_delete past the deletion of the successor, which left a tree with root `rest`. */
  method Replant(victim: ZNode, node: ZNode, rest: ZNode?, ghost m: Image, ghost c: Ctx, ghost t: Tree)
    returns (root: ZNode?, ghost k: Image)
    requires Holds(m) && Whole(m, c, t) && t.n == node && rest == Root(Plug(c, t))
    requires victim in m && victim !in Nodes(t) && victim !in CtxNodes(c)
    modifies m.Keys`left, m.Keys`right, m.Keys`parent, m.Keys`depth, m.Keys`count
    ensures Holds(k) && Same(m, k, {victim} + Nodes(t) + CtxNodes(c))
    ensures var u := Plug(c, Node(t.l, victim, t.r)); Linked(k, u, null) && root == Root(u)
  {
    k := TakePlace(victim, node, m, c, t);
    WholeTree(k, c, Node(t.l, victim, t.r));
    if node.parent != null {
      RootOfPlug(c, t, Node(t.l, victim, t.r));
      root := rest;
    } else {
      root := victim;
    }
  }

  /** avl_delete */
  method Remove(node: ZNode, ghost m: Image, ghost c: Ctx, ghost t: Tree) returns (root: ZNode?, ghost k: Image)
    requires Holds(m) && Whole(m, c, t) && t.n == node
    modifies m.Keys`left, m.Keys`right, m.Keys`parent, m.Keys`depth, m.Keys`count
    ensures Holds(k) && Same(m, k, CtxNodes(c) + Nodes(t))
    ensures Linked(k, Delete(c, t), null) && root == Root(Delete(c, t))
    decreases Size(t)
  {
    InnerChild(m, t, CtxParent(c));
    assert node in m.Keys;
    if node.right == null {
      root, k := Unlink(node, m, c, t);
    } else {
      var victim, vc, vt := Successor(node, m, c, t);
      var rest, k1 := Remove(victim, m, vc, vt);
      var c2, t2 := Relocate(m, k1, c, t, vc, vt);
      SamePlace(c, t, vc, vt);
      root, k := Replant(victim, node, rest, k1, c2, t2);
    }
  }

  lemma SamePlace(c: Ctx, t: Tree, vc: Ctx, vt: Tree)
    requires t.Node? && t.r.Node? && (vc, vt) == Leftmost(InRight(c, t.l, t.n), t.r)
    ensures CtxNodes(vc) + Nodes(vt) == CtxNodes(c) + Nodes(t)
  {
    PlugNodes(vc, vt);
    PlugNodes(c, t);
  }
}
