/** Whole runs of zset_add, zset_pop and zset_lookup, from an empty set. */
module ZRun {
  import opened Keys
  import opened AvlTree
  import opened ZTree
  import opened ZSets
  import opened SetMachine

  /** Lower scores first, equal scores by the dictionary order of the names. */
  ghost predicate Sorted(ks: seq<Key>) {
    forall i, j :: 0 <= i < j < |ks| ==> Precedes(ks[i], ks[j])
  }

  /** `ks` is the sorted sequence of the tuples of `m`. */
  ghost predicate Presents(ks: seq<Key>, m: map<Bytes, Score>) {
    Sorted(ks) && forall k :: k in ks <==> k.name in m && m[k.name] == k.score
  }

  /** A map has only one such sequence. */
  lemma {:induction false} PresentedOnce(a: seq<Key>, b: seq<Key>)
    requires Sorted(a) && Sorted(b) && forall k :: k in a <==> k in b
    ensures a == b
    decreases |a|
  {
    assert |b| > 0 ==> b[0] in b;
    if a != [] {
      SameFirst(a, b);
      WithoutFirst(a, b);
      PresentedOnce(a[1..], b[1..]);
      assert a == [a[0]] + a[1..] && b == [b[0]] + b[1..];
    }
  }

  lemma SameFirst(a: seq<Key>, b: seq<Key>)
    requires Sorted(a) && Sorted(b) && a != [] && forall k :: k in a <==> k in b
    ensures b != [] && a[0] == b[0]
  {
    assert a[0] in a;
    FirstIsLeast(b, a[0]);
    FirstIsLeast(a, b[0]);
    PrecedesTotal(a[0], b[0]);
  }

  lemma FirstIsLeast(a: seq<Key>, k: Key)
    requires Sorted(a) && k in a
    ensures a[0] == k || Precedes(a[0], k)
  {
  }

  lemma WithoutFirst(a: seq<Key>, b: seq<Key>)
    requires Sorted(a) && Sorted(b) && a != [] && b != [] && a[0] == b[0] && forall k :: k in a <==> k in b
    ensures Sorted(a[1..]) && Sorted(b[1..]) && forall k :: k in a[1..] <==> k in b[1..]
  {
    NotAgain(a);
    NotAgain(b);
    assert forall k :: k in a <==> k == a[0] || k in a[1..];
    assert forall k :: k in b <==> k == b[0] || k in b[1..];
  }

  lemma NotAgain(a: seq<Key>)
    requires Sorted(a) && a != []
    ensures a[0] !in a[1..]
  {
    forall i | 0 < i < |a| ensures a[i] != a[0] {
      PrecedesTotal(a[0], a[i]);
    }
  }

  ghost function Tuples(sc: Scores, s: seq<ZNode>): (ks: seq<Key>)
    requires forall x <- s :: x in sc
    ensures |ks| == |s|
  {
    seq(|s|, i requires 0 <= i < |s| => KeyIn(sc, s[i]))
  }

  /** The in-order sequence of the tree is the sorted sequence of the map the set stands for,
      and the index holds the same nodes. */
  lemma Reading(z: ZSet)
    requires z.Valid()
    ensures forall x <- Inorder(z.view.shape) :: x in z.view.scores
    ensures Presents(Tuples(z.view.scores, Inorder(z.view.shape)), z.Model())
    ensures Items(z.hmap.Nodes()) == Elems(Inorder(z.view.shape))
  {
    var v := z.view;
    assert Sound(v) && Mirrors(v) && Indexed(z.hmap.Nodes(), v.image.Keys);
    InorderNodes(v.shape);
    ReadingOf(v);
  }

  lemma ReadingOf(v: View)
    requires Sound(v) && Elems(Inorder(v.shape)) == v.scores.Keys
    ensures forall x <- Inorder(v.shape) :: x in v.scores
    ensures Presents(Tuples(v.scores, Inorder(v.shape)), ByName(v.scores))
  {
    var s := Inorder(v.shape);
    var ks, m := Tuples(v.scores, s), ByName(v.scores);
    forall i, j | 0 <= i < j < |ks| ensures Precedes(ks[i], ks[j]) {
      ZLessIsPrecedes(ks[i], ks[j]);
    }
    forall k | k in ks ensures k.name in m && m[k.name] == k.score {
      var i :| 0 <= i < |ks| && ks[i] == k;
      ByNameHas(v.scores, s[i]);
    }
    forall k: Key | k.name in m && m[k.name] == k.score ensures k in ks {
      var x :| x in v.scores && x.name == k.name;
      ByNameHas(v.scores, x);
      assert x in Elems(s);
      var i :| 0 <= i < |s| && s[i] == x;
      assert ks[i] == k;
    }
  }

  method Apply(z: ZSet, op: Op) returns (done: bool)
    requires z.Valid()
    modifies z`tree, z`view, z.view.image.Keys, z.hmap.Repr
    ensures done <==> z.hmap.skipsEmpty || StepEnds(old(z.Held()), old(z.Model()), op)
    ensures done && !z.hmap.skipsEmpty ==> z.Held() == StepTables(old(z.Held()), old(z.Model()), op)
    ensures done ==> z.Valid() && z.Model() == Effect(old(z.Model()), op)
    ensures done ==> fresh(z.hmap.Repr - old(z.hmap.Repr)) && fresh(z.view.image.Keys - old(z.view.image.Keys))
  {
    match op
    case Add(name, score) =>
      var added;
      done, added := z.Add(name, score);
    case Pop(name) =>
      var node;
      done, node := z.Pop(name);
    case Find(name) =>
      z.EmptyModel();
      var node;
      done, node := z.Lookup(name);
  }

  /** Every run of add, pop and lookup, as far as its calls return: tree and index hold the same nodes,
      the set stands for the plain map that the operations describe, and its order is that
      map's one sorted sequence. With the intended loop every call returns; with the loop as
      written the calls return exactly when `Machine` says so. */
  method Run(skipsEmpty: bool, ops: seq<Op>) returns (z: ZSet, done: bool)
    ensures done <==> skipsEmpty || Machine(ops).Some?
    ensures done ==> z.Valid() && z.Model() == Replay(ops) && Items(z.hmap.Nodes()) == Elems(Inorder(z.view.shape))
    ensures done ==> forall x <- Inorder(z.view.shape) :: x in z.view.scores
    ensures done ==> Presents(Tuples(z.view.scores, Inorder(z.view.shape)), Replay(ops))
  {
    z := new ZSet(skipsEmpty);
    done := true;
    assert z.Model() == map[];
    var i := 0;
    while done && i < |ops|
      invariant 0 <= i <= |ops| && z.hmap.skipsEmpty == skipsEmpty && fresh(z)
      invariant done ==> z.Valid() && z.Model() == Replay(ops[..i])
      invariant done && !skipsEmpty ==> Machine(ops[..i]) == Some(z.Held())
      invariant !done ==> !skipsEmpty && Machine(ops[..i]).None?
      invariant done ==> fresh(z.hmap.Repr) && fresh(z.view.image.Keys)
    {
      assert ops[..i + 1][..i] == ops[..i];
      done := Apply(z, ops[i]);
      i := i + 1;
    }
    if done {
      assert ops[..i] == ops;
      Reading(z);
    } else {
      MachineStuck(ops, i);
    }
  }

  /** The run itself. */
  method HangingRun() returns (before: bool, after: bool)
    ensures before && !after
  {
    OneByteNamesHang();
    var z;
    z, before := Run(false, OneByteNames(31));
    z, after := Run(false, OneByteNames(32));
  }
}
