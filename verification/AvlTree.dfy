/** The mathematics of the AVL tree: shapes of nodes, the zipper that stands for
    the walk along parent links, and what each restructuring step does to a shape. */
module AvlTree {
  import opened Keys

  /** `struct ZNode`. Its `AVLNode` is the first member, so a pointer to the one is
      a pointer to the other; the tree code changes the first five fields only. */
  class ZNode {
    var left: ZNode?
    var right: ZNode?
    var parent: ZNode?
    var depth: nat
    var count: nat
    var score: Score
    const name: Bytes

    constructor (name: Bytes, score: Score)
      ensures this.name == name && this.score == score
      ensures left == null && right == null && parent == null && depth == 1 && count == 1
    {
      left, right, parent, depth, count := null, null, null, 1, 1;
      this.name, this.score := name, score;
    }
  }

  datatype Tree = Leaf | Node(l: Tree, n: ZNode, r: Tree)

  /** A tree with a hole: the path from the hole up to the root. */
  datatype Ctx =
    | Top
    | InLeft(up: Ctx, n: ZNode, r: Tree)
    | InRight(up: Ctx, l: Tree, n: ZNode)

  function Max(a: nat, b: nat): nat {
    if a < b then b else a
  }

  ghost function Root(t: Tree): ZNode? {
    if t.Leaf? then null else t.n
  }

  ghost function Height(t: Tree): nat {
    if t.Leaf? then 0 else 1 + Max(Height(t.l), Height(t.r))
  }

  ghost function Size(t: Tree): nat {
    if t.Leaf? then 0 else 1 + Size(t.l) + Size(t.r)
  }

  ghost function Nodes(t: Tree): set<ZNode> {
    if t.Leaf? then {} else Nodes(t.l) + {t.n} + Nodes(t.r)
  }

  ghost function Inorder(t: Tree): seq<ZNode> {
    if t.Leaf? then [] else Inorder(t.l) + [t.n] + Inorder(t.r)
  }

  /** No node occurs twice. */
  ghost predicate Distinct(t: Tree) {
    t.Node? ==>
      && Distinct(t.l) && Distinct(t.r)
      && t.n !in Nodes(t.l) && t.n !in Nodes(t.r) && Nodes(t.l) !! Nodes(t.r)
  }

  predicate Near(a: nat, b: nat) {
    a <= b + 1 && b <= a + 1
  }

  ghost predicate Balanced(t: Tree) {
    t.Node? ==> Balanced(t.l) && Balanced(t.r) && Near(Height(t.l), Height(t.r))
  }

  // ----- the zipper -----

  ghost function CtxParent(c: Ctx): ZNode? {
    if c.Top? then null else c.n
  }

  ghost function CtxNodes(c: Ctx): set<ZNode> {
    match c
    case Top => {}
    case InLeft(up, n, r) => CtxNodes(up) + {n} + Nodes(r)
    case InRight(up, l, n) => CtxNodes(up) + {n} + Nodes(l)
  }

  ghost predicate CtxDistinct(c: Ctx) {
    match c
    case Top => true
    case InLeft(up, n, r) =>
      CtxDistinct(up) && Distinct(r) && n !in Nodes(r) && n !in CtxNodes(up) && CtxNodes(up) !! Nodes(r)
    case InRight(up, l, n) =>
      CtxDistinct(up) && Distinct(l) && n !in Nodes(l) && n !in CtxNodes(up) && CtxNodes(up) !! Nodes(l)
  }

  /** Every node on the path is balanced when the hole holds a tree of height `h`. */
  ghost predicate CtxBalanced(c: Ctx, h: nat) {
    match c
    case Top => true
    case InLeft(up, n, r) => Balanced(r) && Near(h, Height(r)) && CtxBalanced(up, 1 + Max(h, Height(r)))
    case InRight(up, l, n) => Balanced(l) && Near(Height(l), h) && CtxBalanced(up, 1 + Max(Height(l), h))
  }

  ghost function CtxDepth(c: Ctx): nat {
    if c.Top? then 0 else 1 + CtxDepth(c.up)
  }

  /** The nodes in order before, and after, the hole. */
  ghost function Before(c: Ctx): seq<ZNode> {
    match c
    case Top => []
    case InLeft(up, n, r) => Before(up)
    case InRight(up, l, n) => Before(up) + Inorder(l) + [n]
  }

  ghost function After(c: Ctx): seq<ZNode> {
    match c
    case Top => []
    case InLeft(up, n, r) => [n] + Inorder(r) + After(up)
    case InRight(up, l, n) => After(up)
  }

  ghost function Plug(c: Ctx, t: Tree): Tree {
    match c
    case Top => t
    case InLeft(up, n, r) => Plug(up, Node(t, n, r))
    case InRight(up, l, n) => Plug(up, Node(l, n, t))
  }

  lemma Around(a: seq<ZNode>, l: seq<ZNode>, x: ZNode, r: seq<ZNode>, b: seq<ZNode>)
    ensures a + (l + [x] + r) + b == a + l + ([x] + r + b)
    ensures a + (l + [x] + r) + b == (a + l + [x]) + r + b
  {
  }

  lemma {:induction false} PlugInorder(c: Ctx, t: Tree)
    ensures Inorder(Plug(c, t)) == Before(c) + Inorder(t) + After(c)
    decreases c
  {
    match c
    case Top =>
      assert Before(c) + Inorder(t) + After(c) == Inorder(t);
    case InLeft(up, n, r) =>
      PlugInorder(up, Node(t, n, r));
      Around(Before(up), Inorder(t), n, Inorder(r), After(up));
    case InRight(up, l, n) =>
      PlugInorder(up, Node(l, n, t));
      Around(Before(up), Inorder(l), n, Inorder(t), After(up));
  }

  lemma {:induction false} PlugNodes(c: Ctx, t: Tree)
    ensures Nodes(Plug(c, t)) == CtxNodes(c) + Nodes(t)
    ensures Height(t) + CtxDepth(c) <= Height(Plug(c, t))
    decreases c
  {
    match c
    case Top =>
    case InLeft(up, n, r) => PlugNodes(up, Node(t, n, r));
    case InRight(up, l, n) => PlugNodes(up, Node(l, n, t));
  }

  lemma {:induction false} PlugDistinct(c: Ctx, t: Tree)
    ensures Distinct(Plug(c, t)) <==> CtxDistinct(c) && Distinct(t) && CtxNodes(c) !! Nodes(t)
    decreases c
  {
    match c
    case Top =>
    case InLeft(up, n, r) => PlugDistinct(up, Node(t, n, r));
    case InRight(up, l, n) => PlugDistinct(up, Node(l, n, t));
  }

  lemma {:induction false} PlugBalanced(c: Ctx, t: Tree)
    ensures Balanced(Plug(c, t)) <==> CtxBalanced(c, Height(t)) && Balanced(t)
    decreases c
  {
    match c
    case Top =>
    case InLeft(up, n, r) => PlugBalanced(up, Node(t, n, r));
    case InRight(up, l, n) => PlugBalanced(up, Node(l, n, t));
  }

  ghost function Elems(s: seq<ZNode>): set<ZNode> {
    set x | x in s
  }

  lemma ElemsConcat(a: seq<ZNode>, b: seq<ZNode>)
    ensures Elems(a + b) == Elems(a) + Elems(b)
  {
  }

  lemma {:induction false} InorderNodes(t: Tree)
    ensures |Inorder(t)| == Size(t)
    ensures Elems(Inorder(t)) == Nodes(t)
  {
    if t.Node? {
      InorderNodes(t.l);
      InorderNodes(t.r);
      ElemsConcat(Inorder(t.l) + [t.n], Inorder(t.r));
      ElemsConcat(Inorder(t.l), [t.n]);
      assert Elems([t.n]) == {t.n};
    }
  }

  lemma {:induction false} CtxElems(c: Ctx)
    ensures Elems(Before(c)) + Elems(After(c)) == CtxNodes(c)
  {
    match c
    case Top =>
    case InLeft(up, n, r) =>
      CtxElems(up);
      InorderNodes(r);
      ElemsConcat([n] + Inorder(r), After(up));
      ElemsConcat([n], Inorder(r));
      assert Elems([n]) == {n};
    case InRight(up, l, n) =>
      CtxElems(up);
      InorderNodes(l);
      ElemsConcat(Before(up) + Inorder(l), [n]);
      ElemsConcat(Before(up), Inorder(l));
      assert Elems([n]) == {n};
  }

  /** Every node of a tree is the root of some subtree of it. */
  ghost function Locate(c: Ctx, t: Tree, x: ZNode): (p: (Ctx, Tree))
    requires x in Nodes(t)
    ensures p.1.Node? && p.1.n == x && Plug(p.0, p.1) == Plug(c, t)
    decreases t
  {
    if x == t.n then (c, t)
    else if x in Nodes(t.l) then Locate(InLeft(c, t.n, t.r), t.l, x)
    else Locate(InRight(c, t.l, t.n), t.r, x)
  }

  // ----- rotations and rebalancing, as functions on shapes -----

  ghost function RotateLeft(t: Tree): Tree
    requires t.Node?
  {
    if t.r.Leaf? then t else Node(Node(t.l, t.n, t.r.l), t.r.n, t.r.r)
  }

  ghost function RotateRight(t: Tree): Tree
    requires t.Node?
  {
    if t.l.Leaf? then t else Node(t.l.l, t.l.n, Node(t.l.r, t.n, t.r))
  }

  ghost function FixLeft(t: Tree): Tree
    requires t.Node? && t.l.Node?
  {
    if Height(t.l.l) < Height(t.l.r)
    then RotateRight(Node(RotateLeft(t.l), t.n, t.r))
    else RotateRight(t)
  }

  ghost function FixRight(t: Tree): Tree
    requires t.Node? && t.r.Node?
  {
    if Height(t.r.r) < Height(t.r.l)
    then RotateLeft(Node(t.l, t.n, RotateRight(t.r)))
    else RotateLeft(t)
  }

  /** One turn of the loop of `avl_rebalance`, on the subtree at hand. */
  ghost function Fix(t: Tree): Tree
    requires t.Node?
  {
    if Height(t.l) == Height(t.r) + 2 then FixLeft(t)
    else if Height(t.l) + 2 == Height(t.r) then FixRight(t)
    else t
  }

  /** The turns at all ancestors of a finished subtree `t`. */
  ghost function Rebuild(c: Ctx, t: Tree): Tree
    decreases c
  {
    match c
    case Top => t
    case InLeft(up, n, r) => Rebuild(up, Fix(Node(t, n, r)))
    case InRight(up, l, n) => Rebuild(up, Fix(Node(l, n, t)))
  }

  lemma Regroup(a: seq<ZNode>, x: ZNode, b: seq<ZNode>, y: ZNode, c: seq<ZNode>)
    ensures a + [x] + (b + [y] + c) == (a + [x] + b) + [y] + c
  {
  }

  lemma RotateInorder(t: Tree)
    requires t.Node?
    ensures Inorder(RotateLeft(t)) == Inorder(t) == Inorder(RotateRight(t))
  {
    if t.r.Node? {
      Regroup(Inorder(t.l), t.n, Inorder(t.r.l), t.r.n, Inorder(t.r.r));
    }
    if t.l.Node? {
      Regroup(Inorder(t.l.l), t.l.n, Inorder(t.l.r), t.n, Inorder(t.r));
    }
  }

  /** Rebalancing one node moves nothing in order. */
  lemma FixInorder(t: Tree)
    requires t.Node?
    ensures Fix(t).Node?
    ensures Inorder(Fix(t)) == Inorder(t)
  {
    RotateInorder(t);
    if t.l.Node? {
      RotateInorder(t.l);
      RotateInorder(Node(RotateLeft(t.l), t.n, t.r));
    }
    if t.r.Node? {
      RotateInorder(t.r);
      RotateInorder(Node(t.l, t.n, RotateRight(t.r)));
    }
  }

  lemma RotateNodes(t: Tree)
    requires t.Node?
    ensures Nodes(RotateLeft(t)) == Nodes(t) == Nodes(RotateRight(t))
  {
    if t.r.Node? {
      assert Nodes(t) == Nodes(t.l) + {t.n} + (Nodes(t.r.l) + {t.r.n} + Nodes(t.r.r));
    }
    if t.l.Node? {
      assert Nodes(t) == (Nodes(t.l.l) + {t.l.n} + Nodes(t.l.r)) + {t.n} + Nodes(t.r);
    }
  }

  lemma RotateDistinct(t: Tree)
    requires t.Node? && Distinct(t)
    ensures Distinct(RotateLeft(t)) && Distinct(RotateRight(t))
  {
    if t.r.Node? {
      assert Nodes(t.r) == Nodes(t.r.l) + {t.r.n} + Nodes(t.r.r);
    }
    if t.l.Node? {
      assert Nodes(t.l) == Nodes(t.l.l) + {t.l.n} + Nodes(t.l.r);
    }
  }

  lemma {:induction false} FixNodes(t: Tree)
    requires t.Node?
    ensures Nodes(Fix(t)) == Nodes(t)
    ensures Distinct(t) ==> Distinct(Fix(t))
  {
    RotateNodes(t);
    if t.l.Node? {
      RotateNodes(t.l);
      RotateNodes(Node(RotateLeft(t.l), t.n, t.r));
    }
    if t.r.Node? {
      RotateNodes(t.r);
      RotateNodes(Node(t.l, t.n, RotateRight(t.r)));
    }
    if Distinct(t) { FixDistinct(t); }
  }

  lemma FixDistinct(t: Tree)
    requires t.Node? && Distinct(t)
    ensures Distinct(Fix(t))
  {
    RotateDistinct(t);
    if t.l.Node? {
      RotateNodes(t.l);
      RotateDistinct(t.l);
      RotateDistinct(Node(RotateLeft(t.l), t.n, t.r));
    }
    if t.r.Node? {
      RotateNodes(t.r);
      RotateDistinct(t.r);
      RotateDistinct(Node(t.l, t.n, RotateRight(t.r)));
    }
  }

  /** The core of the AVL argument. The subtrees are balanced, and one of them was
      at most one level different from a height (`hl` or `hr`) that was in balance:
      then one step restores balance and changes the height by at most one level
      from what it had been. */
  lemma FixBalanced(t: Tree, hl: nat, hr: nat)
    requires t.Node? && Balanced(t.l) && Balanced(t.r)
    requires Near(hl, hr)
    requires (hl == Height(t.l) && Near(hr, Height(t.r))) || (hr == Height(t.r) && Near(hl, Height(t.l)))
    ensures Balanced(Fix(t))
    ensures Near(Height(Fix(t)), 1 + Max(hl, hr))
  {
    if Height(t.l) == Height(t.r) + 2 {
      FixLeftBalanced(t);
    } else if Height(t.l) + 2 == Height(t.r) {
      FixRightBalanced(t);
    }
  }

  lemma FixLeftBalanced(t: Tree)
    requires t.Node? && Balanced(t.l) && Balanced(t.r) && Height(t.l) == Height(t.r) + 2
    ensures Balanced(FixLeft(t)) && Height(t.l) <= Height(FixLeft(t)) <= Height(t.l) + 1
  {
    assert t.l.Node?;
    if Height(t.l.l) < Height(t.l.r) { assert t.l.r.Node?; }
  }

  lemma FixRightBalanced(t: Tree)
    requires t.Node? && Balanced(t.l) && Balanced(t.r) && Height(t.l) + 2 == Height(t.r)
    ensures Balanced(FixRight(t)) && Height(t.r) <= Height(FixRight(t)) <= Height(t.r) + 1
  {
    assert t.r.Node?;
    if Height(t.r.r) < Height(t.r.l) { assert t.r.l.Node?; }
  }

  /** `avl_rebalance` never reorders, loses or duplicates a node. */
  lemma {:induction false} RebuildInorder(c: Ctx, t: Tree)
    ensures Inorder(Rebuild(c, t)) == Inorder(Plug(c, t))
    decreases c, 1
  {
    match c
    case Top =>
    case InLeft(up, n, r) => RebuildStep(up, Node(t, n, r));
    case InRight(up, l, n) => RebuildStep(up, Node(l, n, t));
  }

  lemma {:induction false} RebuildStep(up: Ctx, s: Tree)
    requires s.Node?
    ensures Inorder(Rebuild(up, Fix(s))) == Inorder(Plug(up, s))
    decreases up, 2
  {
    FixInorder(s);
    RebuildInorder(up, Fix(s));
    PlugInorder(up, s);
    PlugInorder(up, Fix(s));
  }

  lemma {:induction false} RebuildNodes(c: Ctx, t: Tree)
    ensures Nodes(Rebuild(c, t)) == CtxNodes(c) + Nodes(t)
    ensures CtxDistinct(c) && Distinct(t) && CtxNodes(c) !! Nodes(t) ==> Distinct(Rebuild(c, t))
    decreases c
  {
    match c
    case Top =>
    case InLeft(up, n, r) =>
      FixNodes(Node(t, n, r));
      RebuildNodes(up, Fix(Node(t, n, r)));
    case InRight(up, l, n) =>
      FixNodes(Node(l, n, t));
      RebuildNodes(up, Fix(Node(l, n, t)));
  }

  /** One turn at an ancestor: the subtree `s` there, which was in balance with `hl` and `hr`. */
  lemma TurnBalanced(up: Ctx, s: Tree, hl: nat, hr: nat)
    requires s.Node? && Balanced(s.l) && Balanced(s.r) && Near(hl, hr)
    requires (Near(Height(s.l), hl) && Height(s.r) == hr) || (Height(s.l) == hl && Near(Height(s.r), hr))
    requires CtxBalanced(up, 1 + Max(hl, hr))
    ensures Balanced(Rebuild(up, Fix(s)))
    decreases up, 1
  {
    FixBalanced(s, hl, hr);
    RebuildBalanced(up, Fix(s), 1 + Max(hl, hr));
  }

  /** `avl_rebalance` restores balance at every ancestor after the height of one
      subtree changed by at most one level. */
  lemma {:induction false} RebuildBalanced(c: Ctx, t: Tree, h: nat)
    requires CtxBalanced(c, h) && Balanced(t) && Near(Height(t), h)
    ensures Balanced(Rebuild(c, t))
    decreases c, 0
  {
    match c
    case Top =>
    case InLeft(up, n, r) => TurnBalanced(up, Node(t, n, r), h, Height(r));
    case InRight(up, l, n) => TurnBalanced(up, Node(l, n, t), Height(l), h);
  }

  // ----- deletion, as a function on shapes -----

  /** `t` with node `a` swapped for node `b`. */
  ghost function Replace(t: Tree, a: ZNode, b: ZNode): Tree {
    if t.Leaf? then Leaf
    else Node(Replace(t.l, a, b), if t.n == a then b else t.n, Replace(t.r, a, b))
  }

  /** The leftmost node of the tree in the hole. */
  ghost function Leftmost(c: Ctx, t: Tree): (p: (Ctx, Tree))
    requires t.Node?
    ensures p.1.Node? && p.1.l.Leaf? && Plug(p.0, p.1) == Plug(c, t)
    ensures Size(p.1) <= Size(t)
    ensures Before(p.0) == Before(c)
    decreases t
  {
    if t.l.Leaf? then (c, t) else Leftmost(InLeft(c, t.n, t.r), t.l)
  }

  /** What `avl_delete` turns `Plug(c, t)` into when it is given the root of `t`. */
  ghost function Delete(c: Ctx, t: Tree): Tree
    requires t.Node?
    decreases Size(t)
  {
    if t.r.Leaf? then Rebuild(c, t.l)
    else
      var (vc, vt) := Leftmost(InRight(c, t.l, t.n), t.r);
      Replace(Delete(vc, vt), t.n, vt.n)
  }

  ghost function Subst(s: seq<ZNode>, a: ZNode, b: ZNode): seq<ZNode> {
    seq(|s|, i requires 0 <= i < |s| => if s[i] == a then b else s[i])
  }

  lemma {:induction false} ReplaceInorder(t: Tree, a: ZNode, b: ZNode)
    ensures Inorder(Replace(t, a, b)) == Subst(Inorder(t), a, b)
  {
    if t.Node? {
      ReplaceInorder(t.l, a, b);
      ReplaceInorder(t.r, a, b);
      SubstConcat(Inorder(t.l) + [t.n], Inorder(t.r), a, b);
      SubstConcat(Inorder(t.l), [t.n], a, b);
    }
  }

  lemma {:induction false} ReplaceShape(t: Tree, a: ZNode, b: ZNode)
    ensures Height(Replace(t, a, b)) == Height(t)
    ensures Size(Replace(t, a, b)) == Size(t)
    ensures Balanced(Replace(t, a, b)) <==> Balanced(t)
  {
    if t.Node? {
      ReplaceShape(t.l, a, b);
      ReplaceShape(t.r, a, b);
    }
  }

  lemma {:induction false} ReplaceNodes(t: Tree, a: ZNode, b: ZNode)
    requires Distinct(t) && b !in Nodes(t)
    ensures Distinct(Replace(t, a, b))
    ensures Nodes(Replace(t, a, b)) == if a in Nodes(t) then Nodes(t) - {a} + {b} else Nodes(t)
  {
    if t.Node? {
      ReplaceNodes(t.l, a, b);
      ReplaceNodes(t.r, a, b);
    }
  }

  lemma SubstConcat(s: seq<ZNode>, u: seq<ZNode>, a: ZNode, b: ZNode)
    ensures Subst(s + u, a, b) == Subst(s, a, b) + Subst(u, a, b)
  {
  }

  lemma {:induction false} ReplaceAbsent(t: Tree, a: ZNode, b: ZNode)
    requires a !in Nodes(t)
    ensures Replace(t, a, b) == t
  {
    if t.Node? {
      ReplaceAbsent(t.l, a, b);
      ReplaceAbsent(t.r, a, b);
    }
  }

  /** Replacing the root of the subtree at a zipper touches nothing else. */
  lemma {:induction false} ReplaceAt(c: Ctx, t: Tree, a: ZNode, b: ZNode)
    requires a !in CtxNodes(c)
    ensures Replace(Plug(c, t), a, b) == Plug(c, Replace(t, a, b))
    decreases c
  {
    match c
    case Top =>
    case InLeft(up, n, r) =>
      ReplaceAbsent(r, a, b);
      ReplaceAt(up, Node(t, n, r), a, b);
    case InRight(up, l, n) =>
      ReplaceAbsent(l, a, b);
      ReplaceAt(up, Node(l, n, t), a, b);
  }

  /** `avl_delete` takes exactly one node out of the order and keeps all the others,
      with the same identity and in the same order. */
  lemma {:induction false} DeleteInorder(c: Ctx, t: Tree)
    requires t.Node? && Distinct(Plug(c, t))
    ensures Inorder(Delete(c, t)) == Before(c) + Inorder(t.l) + Inorder(t.r) + After(c)
    decreases Size(t)
  {
    if t.r.Leaf? {
      RebuildInorder(c, t.l);
      PlugInorder(c, t.l);
      assert Before(c) + Inorder(t.l) + Inorder(t.r) + After(c) == Before(c) + Inorder(t.l) + After(c);
    } else {
      var (vc, vt) := Leftmost(InRight(c, t.l, t.n), t.r);
      DeleteInorder(vc, vt);
      ReplaceInorder(Delete(vc, vt), t.n, vt.n);
      DeleteSplice(c, t, vc, vt);
    }
  }

  /** The same, as a split of the order at the deleted node. */
  lemma DeleteSplits(c: Ctx, t: Tree) returns (a: seq<ZNode>, b: seq<ZNode>)
    requires t.Node? && Distinct(Plug(c, t))
    ensures Inorder(Plug(c, t)) == a + [t.n] + b && Inorder(Delete(c, t)) == a + b
  {
    DeleteInorder(c, t);
    PlugInorder(c, t);
    a, b := Before(c) + Inorder(t.l), Inorder(t.r) + After(c);
    Splits(Before(c), Inorder(t.l), t.n, Inorder(t.r), After(c));
  }

  lemma Splits(a: seq<ZNode>, l: seq<ZNode>, x: ZNode, r: seq<ZNode>, b: seq<ZNode>)
    ensures a + (l + [x] + r) + b == (a + l) + [x] + (r + b)
    ensures a + l + r + b == (a + l) + (r + b)
  {
  }

  /** The order of nodes in the successor case: deleting the successor `vt.n` and
      putting it where `t.n` was leaves the order without `t.n`. */
  lemma DeleteSplice(c: Ctx, t: Tree, vc: Ctx, vt: Tree)
    requires t.Node? && vt.Node? && vt.l.Leaf?
    requires Plug(vc, vt) == Plug(c, t) && Distinct(Plug(c, t))
    requires Before(vc) == Before(c) + Inorder(t.l) + [t.n]
    ensures Subst(Before(vc) + Inorder(vt.l) + Inorder(vt.r) + After(vc), t.n, vt.n)
         == Before(c) + Inorder(t.l) + Inorder(t.r) + After(c)
  {
    PlugInorder(vc, vt);
    PlugInorder(c, t);
    PlugDistinct(c, t);
    CtxElems(c);
    InorderNodes(t.l);
    InorderNodes(t.r);
    assert t.n !in Elems(Before(c)) && t.n !in Elems(After(c));
    assert t.n !in Elems(Inorder(t.l)) && t.n !in Elems(Inorder(t.r));
    SpliceSeqs(Before(c), Inorder(t.l), t.n, Inorder(t.r), After(c), vt.n, Inorder(vt.r), After(vc));
  }

  lemma SpliceSeqs(a: seq<ZNode>, l: seq<ZNode>, x: ZNode, r: seq<ZNode>, b: seq<ZNode>,
                   v: ZNode, vr: seq<ZNode>, vb: seq<ZNode>)
    requires a + (l + [x] + r) + b == (a + l + [x]) + ([] + [v] + vr) + vb
    requires x !in a && x !in l && x !in r && x !in b
    ensures Subst((a + l + [x]) + [] + vr + vb, x, v) == a + l + r + b
  {
    var pre, post := a + l, vr + vb;
    assert a + (l + [x] + r) + b == (pre + [x]) + (r + b);
    assert (a + l + [x]) + ([] + [v] + vr) + vb == (pre + [x]) + ([v] + post);
    SameTail(pre + [x], r + b, [v] + post);
    assert post == (r + b)[1..];
    SubstSplice(pre, x, v, post);
    assert (a + l + [x]) + [] + vr + vb == pre + [x] + post;
    assert a + l + r + b == pre + (r + b) == pre + [v] + post;
  }

  lemma SubstSplice(pre: seq<ZNode>, x: ZNode, v: ZNode, post: seq<ZNode>)
    requires x !in pre && x !in post
    ensures Subst(pre + [x] + post, x, v) == pre + [v] + post
  {
    SubstConcat(pre + [x], post, x, v);
    SubstConcat(pre, [x], x, v);
    assert Subst(pre, x, v) == pre && Subst(post, x, v) == post && Subst([x], x, v) == [v];
  }

  lemma SameTail(p: seq<ZNode>, a: seq<ZNode>, b: seq<ZNode>)
    requires p + a == p + b
    ensures a == b
  {
    assert a == (p + a)[|p|..] && b == (p + b)[|p|..];
  }

  lemma {:induction false} DeleteNodes(c: Ctx, t: Tree)
    requires t.Node? && Distinct(Plug(c, t))
    ensures Distinct(Delete(c, t))
    ensures Nodes(Delete(c, t)) == Nodes(Plug(c, t)) - {t.n}
    decreases Size(t)
  {
    PlugDistinct(c, t);
    PlugNodes(c, t);
    if t.r.Leaf? {
      RebuildNodes(c, t.l);
      assert Nodes(t) == Nodes(t.l) + {t.n};
    } else {
      var (vc, vt) := Leftmost(InRight(c, t.l, t.n), t.r);
      DeleteNodes(vc, vt);
      PlugNodes(vc, vt);
      PlugDistinct(vc, vt);
      SuccessorElsewhere(c, t);
      SwappedNodes(Delete(vc, vt), Nodes(Plug(c, t)), t.n, vt.n);
    }
  }

  lemma SwappedNodes(d: Tree, all: set<ZNode>, x: ZNode, v: ZNode)
    requires Distinct(d) && Nodes(d) == all - {v} && x in all && v in all && x != v
    ensures Distinct(Replace(d, x, v)) && Nodes(Replace(d, x, v)) == all - {x}
  {
    ReplaceNodes(d, x, v);
  }

  lemma SuccessorElsewhere(c: Ctx, t: Tree)
    requires t.Node? && t.r.Node? && Distinct(t)
    ensures Leftmost(InRight(c, t.l, t.n), t.r).1.n != t.n
    ensures Leftmost(InRight(c, t.l, t.n), t.r).1.n in Nodes(t.r)
  {
    LeftmostInside(InRight(c, t.l, t.n), t.r);
  }

  lemma {:induction false} LeftmostInside(c: Ctx, t: Tree)
    requires t.Node?
    ensures Leftmost(c, t).1.n in Nodes(t)
    decreases t
  {
    if t.l.Node? { LeftmostInside(InLeft(c, t.n, t.r), t.l); }
  }

  /** `avl_delete` keeps every balance factor in {-1, 0, 1}. */
  lemma {:induction false} DeleteBalanced(c: Ctx, t: Tree)
    requires t.Node? && Balanced(Plug(c, t))
    ensures Balanced(Delete(c, t))
    decreases Size(t)
  {
    PlugBalanced(c, t);
    if t.r.Leaf? {
      RebuildBalanced(c, t.l, Height(t));
    } else {
      var (vc, vt) := Leftmost(InRight(c, t.l, t.n), t.r);
      DeleteBalanced(vc, vt);
      ReplaceShape(Delete(vc, vt), t.n, vt.n);
    }
  }

  // ----- how deep a balanced tree can be -----

  function Fib(n: nat): nat {
    if n < 2 then n else Fib(n - 1) + Fib(n - 2)
  }

  function Pow2(n: nat): nat {
    if n == 0 then 1 else 2 * Pow2(n - 1)
  }

  lemma {:induction false} FibMonotone(m: nat, n: nat)
    requires m <= n
    ensures Fib(m) <= Fib(n)
    decreases n - m
  {
    if m < n {
      FibMonotone(m + 1, n);
    }
  }

  lemma {:induction false} FibGrows(h: nat)
    ensures Pow2(h / 2) <= Fib(h + 2)
  {
    if h >= 2 {
      FibGrows(h - 2);
      assert Fib(h + 2) == Fib(h + 1) + Fib(h);
      FibMonotone(h, h + 1);
      assert (h - 2) / 2 == h / 2 - 1;
    }
  }

  lemma {:induction false} FibBound(t: Tree)
    requires Balanced(t)
    ensures Size(t) + 1 >= Fib(Height(t) + 2)
  {
    if t.Node? {
      FibBound(t.l);
      FibBound(t.r);
      var h, hl, hr := Height(t), Height(t.l), Height(t.r);
      FibMonotone(h, hl + 2);
      FibMonotone(h, hr + 2);
      assert Fib(h + 2) == Fib(h + 1) + Fib(h);
      assert h + 1 == hl + 2 || h + 1 == hr + 2;
    }
  }

  /** A balanced tree of height h has at least Fib(h+2) - 1 nodes, hence at least
      2^(h/2) - 1: its height is at most logarithmic in its size. */
  lemma SizeBound(t: Tree)
    requires Balanced(t)
    ensures Size(t) + 1 >= Fib(Height(t) + 2)
    ensures Size(t) + 1 >= Pow2(Height(t) / 2)
  {
    FibBound(t);
    HeightBound(Height(t), Size(t));
  }

  lemma HeightBound(h: nat, n: nat)
    requires n + 1 >= Fib(h + 2)
    ensures n + 1 >= Pow2(h / 2)
  {
    FibGrows(h);
  }
}
