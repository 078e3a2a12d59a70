/** struct ZSet (src/zset.cpp): every node is in an AVL tree ordered by (score, name) and in
    a hash map keyed by name. */
module ZSets {
  import opened Keys
  import opened AvlTree
  import opened Avl
  import opened ZTree
  import HashTable
  import HashMap
  import opened Migration
  import opened SetMachine

  type HNode = HashTable.HNode<ZNode>

  ghost function Items(s: set<HNode>): set<ZNode> {
    set h | h in s :: h.item
  }

  ghost function NameOf(h: HNode): Bytes {
    h.item.name
  }

  /** The name index: one entry for each node, under the hash of its name. */
  ghost predicate Indexed(hs: set<HNode>, nodes: set<ZNode>) {
    && Items(hs) == nodes
    && (forall h <- hs :: h.hcode == StrHash(h.item.name))
    && (forall h <- hs, g <- hs :: h.item == g.item ==> h == g)
  }

  ghost function Names(nodes: set<ZNode>): set<Bytes> {
    set x | x in nodes :: x.name
  }

  /** The abstract value: a map from name to score. */
  ghost function ByName(sc: Scores): map<Bytes, Score> {
    map n | n in Names(sc.Keys) :: var x :| x in sc && x.name == n; sc[x]
  }

  /** hcmp: same hash code, same length, same bytes. */
  predicate Hcmp(node: HNode, hcode: nat, name: Bytes) {
    && node.hcode == hcode && |node.item.name| == |name|
    && Memcmp(node.item.name, name, |name|) == 0
  }

  lemma {:induction false} MemcmpZero(a: Bytes, b: Bytes)
    requires |a| == |b|
    ensures Memcmp(a, b, |a|) == 0 <==> a == b
  {
    if a != [] {
      MemcmpZero(a[1..], b[1..]);
      assert a == [a[0]] + a[1..] && b == [b[0]] + b[1..];
    }
  }

  lemma HcmpIsEquality(hs: set<HNode>, nodes: set<ZNode>, name: Bytes)
    requires Indexed(hs, nodes)
    ensures forall h <- hs :: Hcmp(h, StrHash(name), name) <==> h.item.name == name
  {
    forall h | h in hs ensures Hcmp(h, StrHash(name), name) <==> h.item.name == name {
      if |h.item.name| == |name| { MemcmpZero(h.item.name, name); }
    }
  }

  /** No two nodes of an index have the same name. */
  lemma OneOfName(hs: set<HNode>, nodes: set<ZNode>, x: HNode)
    requires Indexed(hs, nodes) && Unique(nodes) && x in hs
    ensures forall n <- hs :: NameOf(n) == NameOf(x) ==> n == x
  {
    forall n | n in hs && NameOf(n) == NameOf(x) ensures n == x {
      assert n.item in Items(hs) && x.item in Items(hs);
    }
  }

  lemma IndexedAdd(hs: set<HNode>, nodes: set<ZNode>, h: HNode)
    requires Indexed(hs, nodes) && h.item !in nodes && h.hcode == StrHash(h.item.name)
    ensures Indexed(hs + {h}, nodes + {h.item})
  {
    assert Items(hs + {h}) == Items(hs) + {h.item};
    assert forall g <- hs :: g.item in Items(hs);
  }

  lemma IndexedRemove(hs: set<HNode>, nodes: set<ZNode>, h: HNode)
    requires Indexed(hs, nodes) && h in hs
    ensures h.item in nodes && Indexed(hs - {h}, nodes - {h.item})
  {
    assert h.item in Items(hs);
    forall x | x in nodes && x != h.item ensures x in Items(hs - {h}) {
      var g :| g in hs && g.item == x;
      assert g in hs - {h};
    }
    assert Items(hs - {h}) == nodes - {h.item};
  }

  lemma ByNameHas(sc: Scores, x: ZNode)
    requires Unique(sc.Keys) && x in sc
    ensures x.name in ByName(sc) && ByName(sc)[x.name] == sc[x]
  {
  }

  lemma NamesInModel(sc: Scores, name: Bytes)
    ensures name in ByName(sc) <==> exists x :: x in sc && x.name == name
  {
  }

  lemma ByNameAdd(sc: Scores, x: ZNode, score: Score)
    requires Unique(sc.Keys) && Unique(sc.Keys + {x})
    ensures ByName(sc[x := score]) == ByName(sc)[x.name := score]
    ensures x !in sc ==> x.name !in ByName(sc)
  {
    var m := ByName(sc)[x.name := score];
    assert sc[x := score].Keys == sc.Keys + {x};
    assert Names(sc.Keys + {x}) == Names(sc.Keys) + {x.name};
    forall y | y in sc && y != x ensures m[y.name] == sc[y] { ByNameHas(sc, y); }
    ByNameIs(sc[x := score], m);
  }

  lemma ByNameWithout(sc: Scores, node: ZNode?, name: Bytes)
    requires Unique(sc.Keys)
    requires if node == null then forall x <- sc.Keys :: x.name != name else node in sc && node.name == name
    ensures ByName(if node == null then sc else sc - {node}) == ByName(sc) - {name}
    ensures node != null <==> name in ByName(sc)
    ensures node != null ==> ByName(sc)[name] == sc[node]
  {
    if node != null {
      ByNameRemove(sc, node);
      ByNameHas(sc, node);
    } else {
      NamesInModel(sc, name);
    }
  }

  lemma ByNameIs(sc: Scores, m: map<Bytes, Score>)
    requires Unique(sc.Keys) && m.Keys == Names(sc.Keys) && forall x <- sc.Keys :: m[x.name] == sc[x]
    ensures ByName(sc) == m
  {
    forall n | n in m ensures ByName(sc)[n] == m[n] {
      var x :| x in sc && x.name == n;
      ByNameHas(sc, x);
    }
  }

  lemma ByNameRemove(sc: Scores, x: ZNode)
    requires Unique(sc.Keys) && x in sc
    ensures ByName(sc - {x}) == ByName(sc) - {x.name}
  {
    var a, b := ByName(sc - {x}), ByName(sc) - {x.name};
    forall n | n in b ensures n in a && a[n] == b[n] {
      var y :| y in sc && y.name == n;
      assert y in sc - {x};
      ByNameHas(sc, y);
      ByNameHas(sc - {x}, y);
    }
    assert a.Keys == b.Keys;
  }

  class ZSet {
    var tree: ZNode?
    const hmap: HashMap.HMap<ZNode>
    ghost var view: View

    /** The tree part: `view` is sound and the heap holds it. */
    ghost predicate TreeOk()
      reads this, view.image.Keys, view.scores.Keys
    {
      tree == Root(view.shape) && Stands(view)
    }

    /** The index part: the hash map holds exactly these nodes, and nothing of it is one of them. */
    ghost predicate IndexOk(nodes: set<ZNode>)
      reads hmap, hmap.to, hmap.from, hmap.Repr
    {
      && hmap.Valid() && (forall s <- {hmap.Nodes()} :: Indexed(s, nodes))
      && this !in hmap.Repr && nodes !! hmap.Repr
    }

    /** The index and the tree hold the same nodes. */
    ghost predicate Valid()
      reads this, hmap, hmap.to, hmap.from, hmap.Repr, view.image.Keys, view.scores.Keys
    {
      TreeOk() && IndexOk(view.image.Keys)
    }

    /** What the set means: a score for each name in it. */
    ghost function Model(): map<Bytes, Score>
      reads this
    {
      ByName(view.scores)
    }

    /** The index as tables of names. */
    ghost function Held(): Tables<Bytes>
      reads hmap, hmap.to, hmap.from
    {
      Rename(hmap.Held(), NameOf)
    }

    constructor (skipsEmpty: bool)
      ensures Held() == Tables([], [])
      ensures Valid() && view == View(Leaf, map[], map[]) && hmap.skipsEmpty == skipsEmpty && fresh(hmap.Repr)
    {
      tree := null;
      hmap := new HashMap.HMap<ZNode>(skipsEmpty);
      view := View(Leaf, map[], map[]);
      new;
      assert Inorder(view.shape) == [];
    }

    lemma EmptyModel()
      requires TreeOk()
      ensures tree == null <==> Model() == map[]
    {
      assert Sound(view);
      if tree != null {
        assert tree in Nodes(view.shape) && tree in view.scores.Keys;
        assert tree.name in Model();
      } else {
        assert view.scores.Keys == {} && Model().Keys == {};
      }
    }

    /** hm_lookup with hcmp */
    method Consult(name: Bytes) returns (done: bool, node: ZNode?)
      requires IndexOk(view.image.Keys)
      modifies hmap.Repr
      ensures done <==> hmap.skipsEmpty || Ends(old(Held()))
      ensures done && !hmap.skipsEmpty ==> Held() == Helped(old(Held()), StrHash)
      ensures done ==> IndexOk(view.image.Keys) && old(hmap.Repr) <= hmap.Repr && fresh(hmap.Repr - old(hmap.Repr))
      ensures done && node == null ==> forall x <- view.image.Keys :: x.name != name
      ensures done && node != null ==> node in view.image && node.name == name
    {
      assert Indexed(hmap.Nodes(), view.image.Keys);
      var hcode := StrHash(name);
      HcmpIsEquality(hmap.Nodes(), view.image.Keys, name);
      HashMap.KeyedHelped(hmap.Held(), NameOf, StrHash);
      var found;
      done, found := hmap.Lookup(hcode, (h: HNode) => Hcmp(h, hcode, name));
      node := null;
      if found != null {
        node := found.item;
      }
    }

    /** zset_lookup */
    method Lookup(name: Bytes) returns (done: bool, node: ZNode?)
      requires Valid()
      modifies hmap.Repr
      ensures done <==> hmap.skipsEmpty || tree == null || Ends(old(Held()))
      ensures done && !hmap.skipsEmpty ==> Held() == if tree == null then old(Held()) else Helped(old(Held()), StrHash)
      ensures done ==> Valid() && old(hmap.Repr) <= hmap.Repr && fresh(hmap.Repr - old(hmap.Repr))
      ensures done && node == null ==> forall x <- view.image.Keys :: x.name != name
      ensures done && node != null ==> node in view.image && node.name == name
      ensures done ==> (node != null <==> name in Model())
    {
      assert Sound(view);
      NamesInModel(view.scores, name);
      if tree == null {
        return true, null;
      }
      done, node := Consult(name);
      assert done && node != null ==> node in view.scores.Keys;
    }

    /** The set gets a new tree. */
    method SetTree(root: ZNode?, ghost w: View)
      requires Stands(w) && root == Root(w.shape) && IndexOk(w.image.Keys)
      modifies this`tree, this`view
      ensures Valid() && view == w
    {
      tree, view := root, w;
    }

    /** zset_update on this set */
    method Reseat(node: ZNode, score: Score)
      requires Valid() && node in view.image
      modifies this`tree, this`view, view.image.Keys
      ensures Valid() && view.scores == old(view.scores)[node := score]
      ensures view.image.Keys == old(view.image.Keys) && hmap.Repr == old(hmap.Repr) && Held() == old(Held())
    {
      var root, w := TreeUpdate(tree, node, score, view);
      SetTree(root, w);
    }

    method Update(node: ZNode, score: Score)
      requires Valid() && node in view.image
      modifies this`tree, this`view, view.image.Keys
      ensures Valid() && Model() == old(Model())[node.name := score] && node.name in old(Model())
      ensures view.image.Keys == old(view.image.Keys) && hmap.Repr == old(hmap.Repr) && Held() == old(Held())
    {
      ghost var sc := view.scores;
      assert Sound(view) && sc.Keys + {node} == sc.Keys;
      Reseat(node, score);
      ByNameAdd(sc, node, score);
      ByNameHas(sc, node);
    }

    /** zset_add of a name that is not in the set: first the index, */
    method Register(node: ZNode) returns (done: bool)
      requires IndexOk(view.image.Keys) && node !in hmap.Repr && forall x <- view.image.Keys :: x.name != node.name
      modifies hmap.Repr
      ensures done <==> hmap.skipsEmpty || InsertEnds(old(Held()), node.name, StrHash)
      ensures done && !hmap.skipsEmpty ==> Held() == Inserted(old(Held()), node.name, StrHash)
      ensures done ==> IndexOk(view.image.Keys + {node})
      ensures done ==> old(hmap.Repr) <= hmap.Repr && fresh(hmap.Repr - old(hmap.Repr))
    {
      assert Indexed(hmap.Nodes(), view.image.Keys);
      var h := new HashTable.HNode<ZNode>(StrHash(node.name), node);
      ghost var hs := hmap.Nodes();
      HashMap.KeyedInserted(hmap.Held(), h, NameOf, StrHash);
      done := hmap.Insert(h);
      IndexedAdd(hs, view.image.Keys, h);
    }

    /** then the tree. */
    method Graft(node: ZNode)
      requires TreeOk() && IndexOk(view.image.Keys + {node})
      requires node !in view.image && forall x <- view.image.Keys :: x.name != node.name
      requires RecOf(node) == Rec(null, null, null, 1, 1)
      modifies this`tree, this`view, view.image.Keys, node`left, node`right, node`parent, node`depth, node`count
      ensures Valid() && view.scores == old(view.scores)[node := node.score] && hmap.Repr == old(hmap.Repr)
      ensures view.image.Keys == old(view.image.Keys) + {node} && Unique(view.image.Keys) && Held() == old(Held())
    {
      var root, w := TreeJoin(tree, node, view);
      SetTree(root, w);
    }

    method Create(name: Bytes, score: Score) returns (done: bool)
      requires Valid() && forall x <- view.image.Keys :: x.name != name
      modifies this`tree, this`view, view.image.Keys, hmap.Repr
      ensures done <==> hmap.skipsEmpty || InsertEnds(old(Held()), name, StrHash)
      ensures done && !hmap.skipsEmpty ==> Held() == Inserted(old(Held()), name, StrHash)
      ensures done ==> Valid() && fresh(view.image.Keys - old(view.image.Keys))
      ensures done ==> Model() == old(Model())[name := score] && name !in old(Model())
      ensures done ==> old(hmap.Repr) <= hmap.Repr && fresh(hmap.Repr - old(hmap.Repr))
    {
      ghost var sc, nodes := view.scores, view.image.Keys;
      assert Sound(view);
      var node := new ZNode(name, score);
      done := Register(node);
      if done {
        ghost var held := Held();
        Graft(node);
        assert Held() == held && view.image.Keys - nodes == {node};
        ByNameAdd(sc, node, score);
      }
    }

    /** zset_add: the set becomes the one with `name` at `score`. */
    method Add(name: Bytes, score: Score) returns (done: bool, added: bool)
      requires Valid()
      modifies this`tree, this`view, view.image.Keys, hmap.Repr
      ensures done <==> hmap.skipsEmpty || AddEnds(old(Held()), old(Model()), name)
      ensures done && !hmap.skipsEmpty ==> Held() == Added(old(Held()), old(Model()), name)
      ensures done ==> Valid() && fresh(view.image.Keys - old(view.image.Keys))
      ensures done ==> old(hmap.Repr) <= hmap.Repr && fresh(hmap.Repr - old(hmap.Repr))
      ensures done ==> Model() == old(Model())[name := score] && (added <==> name !in old(Model()))
    {
      EmptyModel();
      ghost var r0 := hmap.Repr;
      var node;
      done, node := Lookup(name);
      ghost var r1 := hmap.Repr;
      added := node == null;
      if done {
        if node != null {
          Update(node, score);
        } else {
          done := Create(name, score);
          assert hmap.Repr - r0 <= (hmap.Repr - r1) + (r1 - r0);
        }
      }
    }

    /** zset_pop, past the index: the node leaves the tree. */
    method Prune(node: ZNode)
      requires TreeOk() && IndexOk(view.image.Keys - {node}) && node in view.image && node !in hmap.Repr
      modifies this`tree, this`view, view.image.Keys`left, view.image.Keys`right, view.image.Keys`parent
      modifies view.image.Keys`depth, view.image.Keys`count
      ensures Valid() && view.scores == old(view.scores) - {node}
      ensures hmap.Repr == old(hmap.Repr) && Held() == old(Held())
      ensures view.image.Keys == old(view.image.Keys) - {node}
    {
      var root, w := TreeRemove(node, view);
      SetTree(root, w);
    }

    /** hm_pop with hcmp */
    method Evict(name: Bytes) returns (done: bool, found: HashTable.HNode?<ZNode>)
      requires IndexOk(view.image.Keys) && Unique(view.image.Keys)
      modifies hmap.Repr
      ensures done <==> hmap.skipsEmpty || Ends(old(Held()))
      ensures done && !hmap.skipsEmpty ==>
        var s := Helped(old(Held()), StrHash); Held() == if found == null then s else Taken(s, name)
      ensures done ==> hmap.Valid() && old(hmap.Repr) <= hmap.Repr && fresh(hmap.Repr - old(hmap.Repr))
      ensures done && found == null ==> hmap.Nodes() == old(hmap.Nodes())
      ensures done && found == null ==> forall x <- view.image.Keys :: x.name != name
      ensures done && found != null ==> found in old(hmap.Nodes()) && hmap.Nodes() == old(hmap.Nodes()) - {found}
      ensures done && found != null ==> found.item.name == name
    {
      assert Indexed(hmap.Nodes(), view.image.Keys);
      ghost var s := hmap.Held();
      var hcode := StrHash(name);
      HcmpIsEquality(hmap.Nodes(), view.image.Keys, name);
      HashMap.KeyedHelped(s, NameOf, StrHash);
      done, found := hmap.Pop(hcode, (h: HNode) => Hcmp(h, hcode, name));
      if done && found != null && !hmap.skipsEmpty {
        OneOfName(old(hmap.Nodes()), view.image.Keys, found);
        HashMap.KeyedTaken(Helped(s, HashMap.Code), found, NameOf);
      }
    }

    /** zset_pop, in the index: the node leaves the hash map. */
    method Unregister(name: Bytes) returns (done: bool, node: ZNode?)
      requires IndexOk(view.image.Keys) && Unique(view.image.Keys)
      modifies hmap.Repr
      ensures done <==> hmap.skipsEmpty || Ends(old(Held()))
      ensures done && !hmap.skipsEmpty ==>
        var s := Helped(old(Held()), StrHash); Held() == if node == null then s else Taken(s, name)
      ensures done && node == null ==> IndexOk(view.image.Keys) && forall x <- view.image.Keys :: x.name != name
      ensures done && node != null ==> IndexOk(view.image.Keys - {node}) && node in view.image && node.name == name
      ensures done && node != null ==> node !in hmap.Repr
      ensures done ==> old(hmap.Repr) <= hmap.Repr && fresh(hmap.Repr - old(hmap.Repr))
    {
      ghost var hs := hmap.Nodes();
      assert Indexed(hs, view.image.Keys);
      var found;
      done, found := Evict(name);
      node := null;
      if done && found != null {
        IndexedRemove(hs, view.image.Keys, found);
        node := found.item;
      }
    }

    /** zset_pop of a set that is not empty */
    method Extract(name: Bytes) returns (done: bool, node: ZNode?)
      requires Valid() && tree != null
      modifies this`tree, this`view, view.image.Keys, hmap.Repr
      ensures done <==> hmap.skipsEmpty || Ends(old(Held()))
      ensures done && !hmap.skipsEmpty ==>
        var s := Helped(old(Held()), StrHash); Held() == if node == null then s else Taken(s, name)
      ensures done ==> Valid() && old(hmap.Repr) <= hmap.Repr && fresh(hmap.Repr - old(hmap.Repr))
      ensures done && node == null ==> view == old(view) && forall x <- view.image.Keys :: x.name != name
      ensures done && node != null ==> node in old(view.scores) && node.name == name
      ensures done && node != null ==> node.score == old(view.scores)[node]
      ensures done && node != null ==> view.scores == old(view.scores) - {node}
      ensures done && node != null ==> view.image.Keys <= old(view.image.Keys)
    {
      assert Sound(view) && Mirrors(view);
      ghost var sc := view.scores;
      done, node := Unregister(name);
      if done && node != null {
        assert node.score == sc[node] by { assert node in sc.Keys; }
        Prune(node);
      }
    }

    /** zset_pop: the set loses `name`, and its node is returned. */
    method Pop(name: Bytes) returns (done: bool, node: ZNode?)
      requires Valid()
      modifies this`tree, this`view, view.image.Keys, hmap.Repr
      ensures done <==> hmap.skipsEmpty || LookupEnds(old(Held()), old(Model()))
      ensures done && !hmap.skipsEmpty ==> Held() == Popped(old(Held()), old(Model()), name)
      ensures done ==> Valid() && old(hmap.Repr) <= hmap.Repr && fresh(hmap.Repr - old(hmap.Repr))
      ensures done ==> view.image.Keys <= old(view.image.Keys) && Model() == old(Model()) - {name}
      ensures done ==> (node != null <==> name in old(Model()))
      ensures done && node != null ==> node.name == name && node.score == old(Model())[name]
    {
      EmptyModel();
      assert Sound(view);
      if tree == null {
        return true, null;
      }
      ghost var sc := view.scores;
      done, node := Extract(name);
      if done {
        ByNameWithout(sc, node, name);
      }
    }
  }
}
