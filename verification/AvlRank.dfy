/** avl_offset (src/avl.cpp:161-192): walking by rank. */
module AvlRank {
  import opened AvlTree
  import opened Avl
  import opened AvlDelete

  /** The position, in order, of the root of `t` in `Plug(c, t)`. */
  ghost function Rank(c: Ctx, t: Tree): nat
    requires t.Node?
  {
    |Before(c)| + Size(t.l)
  }

  /** Position `r` lies in the subtree in the hole. */
  ghost predicate Covers(c: Ctx, t: Tree, r: int) {
    |Before(c)| <= r < |Before(c)| + Size(t)
  }

  lemma RankIsIndex(c: Ctx, t: Tree)
    requires t.Node?
    ensures Rank(c, t) < |Inorder(Plug(c, t))| && Inorder(Plug(c, t))[Rank(c, t)] == t.n
  {
    PlugInorder(c, t);
    InorderNodes(t.l);
  }

  lemma SizeAtTop(t: Tree)
    ensures |Inorder(t)| == Size(t)
  {
    InorderNodes(t);
  }

  /** What one step of the walk does to the rank. */
  lemma StepRanks(c: Ctx, t: Tree)
    requires t.Node?
    ensures t.l.Node? ==> var cl := InLeft(c, t.n, t.r);
              Rank(cl, t.l) == Rank(c, t) - Size(t.l.r) - 1 && |Before(cl)| == |Before(c)|
    ensures t.r.Node? ==> var cr := InRight(c, t.l, t.n);
              Rank(cr, t.r) == Rank(c, t) + Size(t.r.l) + 1 && |Before(cr)| == Rank(c, t) + 1
    ensures c.InLeft? ==> Rank(c.up, Plug1(c, t)) == Rank(c, t) + Size(t.r) + 1
    ensures c.InRight? ==> Rank(c.up, Plug1(c, t)) == Rank(c, t) - Size(t.l) - 1
  {
    InorderNodes(t.l);
    if c.InRight? { InorderNodes(c.l); }
  }

  /** What the walk reads at a node. */
  lemma ReadNode(m: Image, c: Ctx, t: Tree)
    requires Holds(m) && t.Node? && Distinct(Plug(c, t)) && Linked(m, Plug(c, t), null)
    ensures t.n.left == Root(t.l) && t.n.right == Root(t.r) && t.n.parent == CtxParent(c)
    ensures Count(t.n.left) == Size(t.l) && Count(t.n.right) == Size(t.r)
    ensures t.l.Node? ==> Count(t.l.n.right) == Size(t.l.r)
    ensures t.r.Node? ==> Count(t.r.n.left) == Size(t.r.l)
    ensures !c.Top? ==> (c.n.right == t.n <==> c.InRight?)
  {
    WholeTree(m, c, t);
    RootCache(m, t, CtxParent(c));
    RootCache(m, t.l, t.n);
    RootCache(m, t.r, t.n);
    if t.l.Node? { RootCache(m, t.l.r, t.l.n); }
    if t.r.Node? { RootCache(m, t.r.l, t.r.n); }
    if !c.Top? {
      assert c.n in m.Keys;
      assert c.InLeft? && c.r.Node? ==> c.r.n in Nodes(c.r);
    }
  }

  datatype Move = Up | Down

  /** No climb after a descent. */
  ghost predicate UpThenDown(w: seq<Move>) {
    forall i, j :: 0 <= i < j < |w| && w[j].Up? ==> w[i].Up?
  }

  /** A walk that started at depth `d0`, turned (or will turn) at depth `top` and is now
      at depth `d`; `covered` says that the target is below. */
  ghost predicate Trail(w: seq<Move>, d0: nat, top: nat, d: nat, covered: bool) {
    && UpThenDown(w) && top <= d && |w| == d0 - top + d - top
    && (covered || (top == d && forall i :: 0 <= i < |w| ==> w[i].Up?))
  }

  /** The walk of avl_offset: it is at the root of `t`, below `c`, on its way to rank `r`. */
  ghost predicate Walking(whole: Tree, c: Ctx, t: Tree, r: int, d0: nat, top: nat, w: seq<Move>) {
    && t.Node? && Plug(c, t) == whole && d0 < Height(whole) && CtxDepth(c) < Height(whole)
    && Trail(w, d0, top, CtxDepth(c), Covers(c, t, r))
  }

  lemma GoRight(whole: Tree, c: Ctx, t: Tree, r: int, d0: nat, top: nat, w: seq<Move>)
    requires Walking(whole, c, t, r, d0, top, w) && t.r.Node? && Rank(c, t) < r <= Rank(c, t) + Size(t.r)
    ensures Walking(whole, InRight(c, t.l, t.n), t.r, r, d0, top, w + [Down])
    ensures Covers(c, t, r) && Covers(InRight(c, t.l, t.n), t.r, r)
  {
    StepRanks(c, t);
    PlugNodes(InRight(c, t.l, t.n), t.r);
  }

  lemma GoLeft(whole: Tree, c: Ctx, t: Tree, r: int, d0: nat, top: nat, w: seq<Move>)
    requires Walking(whole, c, t, r, d0, top, w) && t.l.Node? && Rank(c, t) - Size(t.l) <= r < Rank(c, t)
    ensures Walking(whole, InLeft(c, t.n, t.r), t.l, r, d0, top, w + [Down])
    ensures Covers(c, t, r) && Covers(InLeft(c, t.n, t.r), t.l, r)
  {
    StepRanks(c, t);
    PlugNodes(InLeft(c, t.n, t.r), t.l);
  }

  lemma GoUp(whole: Tree, c: Ctx, t: Tree, r: int, d0: nat, top: nat, w: seq<Move>)
    requires Walking(whole, c, t, r, d0, top, w) && !c.Top? && !Covers(c, t, r)
    ensures Walking(whole, c.up, Plug1(c, t), r, d0, CtxDepth(c.up), w + [Up]) && CtxDepth(c.up) < CtxDepth(c)
  {
  }

  /** avl_offset: the node `offset` places after (before, if negative) `start` in order, or
      null exactly when there is none. `walk` records the moves: only climbs, then only
      descents, at most twice the height of the tree less one. */
  method Offset(start: ZNode, offset: int, ghost m: Image, ghost c0: Ctx, ghost t0: Tree)
    returns (found: ZNode?, ghost walk: seq<Move>)
    requires Holds(m) && t0.Node? && t0.n == start && Distinct(Plug(c0, t0)) && Linked(m, Plug(c0, t0), null)
    ensures var order, r := Inorder(Plug(c0, t0)), Rank(c0, t0) + offset;
            if 0 <= r < |order| then found == order[r] else found == null
    ensures UpThenDown(walk) && |walk| <= 2 * (Height(Plug(c0, t0)) - 1)
  {
    ghost var whole, r := Plug(c0, t0), Rank(c0, t0) + offset;
    ghost var c, t, top, d0 := c0, t0, CtxDepth(c0), CtxDepth(c0);
    var node: ZNode, pos: int := start, 0;
    walk := [];
    PlugNodes(c, t);
    while offset != pos
      invariant Walking(whole, c, t, r, d0, top, walk) && t.n == node && pos == Rank(c, t) - Rank(c0, t0)
      decreases if Covers(c, t, r) then 0 else CtxDepth(c) + 1, Size(t)
    {
      ReadNode(m, c, t);
      StepRanks(c, t);
      if pos < offset && pos + Count(node.right) >= offset {
        node := node.right;
        pos := pos + Count(node.left) + 1;
        GoRight(whole, c, t, r, d0, top, walk);
        walk, c, t := walk + [Down], InRight(c, t.l, t.n), t.r;
      } else if pos > offset && pos - Count(node.left) <= offset {
        node := node.left;
        pos := pos - (Count(node.right) + 1);
        GoLeft(whole, c, t, r, d0, top, walk);
        walk, c, t := walk + [Down], InLeft(c, t.n, t.r), t.l;
      } else {
        var parent := node.parent;
        if parent == null {
          SizeAtTop(whole);
          return null, walk;
        }
        if parent.right == node {
          pos := pos - (Count(node.left) + 1);
        } else {
          pos := pos + (Count(node.right) + 1);
        }
        node := parent;
        GoUp(whole, c, t, r, d0, top, walk);
        walk, c, t := walk + [Up], c.up, Plug1(c, t);
        top := CtxDepth(c);
      }
    }
    RankIsIndex(c, t);
    found := node;
  }

  lemma {:induction false} Pow2Monotone(m: nat, n: nat)
    requires m <= n
    ensures Pow2(m) <= Pow2(n)
    decreases n - m
  {
    if m < n { Pow2Monotone(m, n - 1); }
  }

  /** The bound of `Offset` is logarithmic in the size of a balanced tree. */
  lemma WalkIsLogarithmic(t: Tree, moves: nat)
    requires Balanced(t) && t.Node? && moves <= 2 * (Height(t) - 1)
    ensures Pow2((moves + 2) / 4) <= Size(t) + 1
  {
    SizeBound(t);
    Pow2Monotone((moves + 2) / 4, Height(t) / 2);
  }
}
