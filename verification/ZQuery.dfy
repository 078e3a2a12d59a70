/** zset_query (src/zset.cpp:126-145) and the output loop of do_zquery (src/server.cpp:592-610). */
module ZQuery {
  import opened Keys
  import opened AvlTree
  import opened AvlRank
  import opened ZTree
  import opened ZSets
  import opened ZRun
  import opened Wire
  import opened Response

  /** The node `offset` places away from the one at position `r`, or null outside the order. */
  method Walk(z: ZSet, node: ZNode, offset: int, ghost r: nat) returns (found: ZNode?)
    requires z.TreeOk() && r < |Inorder(z.view.shape)| && Inorder(z.view.shape)[r] == node
    ensures var order := Inorder(z.view.shape);
            found == if 0 <= r + offset < |order| then order[r + offset] else null
  {
    ghost var v := z.view;
    assert Sound(v) && Mirrors(v);
    InorderNodes(v.shape);
    assert node in Elems(Inorder(v.shape));
    ghost var (c, t) := Locate(Top, v.shape, node);
    RankIsIndex(c, t);
    OnePlace(v.scores, Inorder(v.shape), r, Rank(c, t));
    ghost var walk;
    found, walk := Offset(node, offset, v.image, c, t);
  }

  lemma OnePlace(sc: Scores, s: seq<ZNode>, i: nat, j: nat)
    requires Ordered(sc, s) && i < |s| && j < |s| && s[i] == s[j]
    ensures i == j
  {
    ZLessTotal(KeyIn(sc, s[i]), KeyIn(sc, s[j]));
  }

  /** zset_query: with `i` the position of the least tuple that is not below `q`, the result is
      the tuple `offset` places from there. Without such a tuple there is no result. */
  method Query(z: ZSet, q: Key, offset: int) returns (found: ZNode?)
    requires z.TreeOk()
    ensures var order := Inorder(z.view.shape);
            var i := Below(z.view.scores, order, q);
            && StartsAt(z.view.scores, order, q, i)
            && found == if i < |order| && 0 <= i + offset < |order| then order[i + offset] else null
    ensures z.TreeOk() == old(z.TreeOk())
  {
    ghost var v := z.view;
    assert Sound(v) && Mirrors(v);
    found := LowerBound(z.tree, q, v.image, v.shape, v.scores);
    if found != null {
      found := Walk(z, found, offset, Below(v.scores, Inorder(v.shape), q));
    }
  }

  // ----- do_zquery -----

  function OutArr(out: Bytes, n: nat): Bytes {
    out + [SER_ARR] + Le(n, 4)
  }

  /** out_update_arr: the count of an array at the front of `out` is overwritten. */
  function OutUpdateArr(out: Bytes, n: nat): Bytes
    requires |out| >= 5 && out[0] == SER_ARR
  {
    out[..1] + Le(n, 4) + out[5..]
  }

  /** What a run of tuples looks like in a response: name, score, name, score, ... */
  ghost function Rows(sc: Scores, s: seq<ZNode>, bits: Score -> Bytes): seq<Value>
    requires forall x <- s :: x in sc
  {
    if s == [] then [] else [Str(s[0].name), Dbl(bits(sc[s[0]]))] + Rows(sc, s[1..], bits)
  }

  lemma {:induction false} RowsSnoc(sc: Scores, s: seq<ZNode>, x: ZNode, bits: Score -> Bytes)
    requires x in sc && forall y <- s :: y in sc
    ensures Rows(sc, s + [x], bits) == Rows(sc, s, bits) + [Str(x.name), Dbl(bits(sc[x]))]
    ensures |Rows(sc, s, bits)| == 2 * |s|
  {
    if s != [] {
      assert (s + [x])[1..] == s[1..] + [x];
      RowsSnoc(sc, s[1..], x, bits);
    }
  }

  lemma EncodeRow(name: Bytes, b: Bytes)
    ensures EncodeAll([Str(name), Dbl(b)]) == Encode(Str(name)) + Encode(Dbl(b))
  {
    var two := [Str(name), Dbl(b)];
    assert two[1..] == [Dbl(b)] && [Dbl(b)][1..] == [];
    assert EncodeAll([Dbl(b)]) == Encode(Dbl(b)) + EncodeAll([]);
  }

  /** The slice of the order that do_zquery emits. */
  ghost function Slice<T>(order: seq<T>, i: nat, offset: int, limit: int): seq<T>
    requires i <= |order|
  {
    var start := i + offset;
    if limit <= 0 || i == |order| || start < 0 || start >= |order| then []
    else if (limit + 1) / 2 < |order| - start then order[start..start + (limit + 1) / 2]
    else order[start..]
  }

  /** The bytes of do_zquery before its count is patched in. */
  ghost function Draft(sc: Scores, s: seq<ZNode>, bits: Score -> Bytes): Bytes
    requires forall x <- s :: x in sc
  {
    OutArr([], 0) + EncodeAll(Rows(sc, s, bits))
  }

  /** `out` is what do_zquery has written for positions `r` to `k` of the order. */
  ghost predicate Drafted(v: View, out: Bytes, r: nat, k: nat, bits: Score -> Bytes) {
    && r <= k <= |Inorder(v.shape)| && (forall x <- Inorder(v.shape) :: x in v.scores)
    && out == Draft(v.scores, Inorder(v.shape)[r..k], bits)
  }

  /** The same, folded. */
  ghost predicate Written(v: View, out: Bytes, r: nat, k: nat, bits: Score -> Bytes) {
    forall j <- {k} :: Drafted(v, out, r, j, bits)
  }

  /** The node at a position, or null behind the last. */
  ghost function AtRank(v: View, k: nat): ZNode? {
    if k < |Inorder(v.shape)| then Inorder(v.shape)[k] else null
  }

  /** One turn of the output loop of do_zquery: the tuple at position `k`, and on to the next. */
  method EmitOne(z: ZSet, znode: ZNode, out: Bytes, bits: Score -> Bytes, ghost v: View, ghost r: nat, ghost k: nat)
    returns (more: Bytes, next: ZNode?)
    requires z.TreeOk() && z.view == v && Written(v, out, r, k, bits) && AtRank(v, k) == znode
    ensures next == AtRank(v, k + 1) && Written(v, more, r, k + 1, bits) && k < |Inorder(v.shape)|
    ensures z.TreeOk() == old(z.TreeOk())
  {
    assert Drafted(v, out, r, k, bits);
    assert znode.score == v.scores[znode] by { assert Mirrors(v) && znode in v.scores.Keys; }
    Emitted(v.scores, Inorder(v.shape), r, k, bits);
    more := out + Encode(Str(znode.name)) + Encode(Dbl(bits(znode.score)));
    next := Walk(z, znode, 1, k);
  }

  /** Nothing is written yet. */
  lemma Blank(z: ZSet, r: nat, bits: Score -> Bytes)
    requires z.TreeOk() && r <= |Inorder(z.view.shape)|
    ensures Written(z.view, OutArr([], 0), r, r, bits)
  {
    var v := z.view;
    assert forall x <- Inorder(v.shape) :: x in v.scores by { assert Sound(v); }
    assert Drafted(v, OutArr([], 0), r, r, bits);
  }

  /** The output loop, from the tuple at position `r` up to position `k`. */
  method Emit(z: ZSet, start: ZNode, limit: int, bits: Score -> Bytes, ghost v: View, ghost r: nat)
    returns (out: Bytes, n: nat, ghost k: nat)
    requires z.TreeOk() && z.view == v && limit > 0 && AtRank(v, r) == start
    ensures Written(v, out, r, k, bits) && n == 2 * (k - r) && n <= limit + 1
    ensures k == |Inorder(v.shape)| || n >= limit
  {
    Blank(z, r, bits);
    out, n, k := OutArr([], 0), 0, r;
    var znode: ZNode? := start;
    while znode != null && n < limit
      invariant z.TreeOk() && z.view == v && k <= |Inorder(v.shape)| && n == 2 * (k - r) && n <= limit + 1
      invariant znode == AtRank(v, k) && Written(v, out, r, k, bits)
      decreases limit - n
    {
      out, znode := EmitOne(z, znode, out, bits, v, r, k);
      n, k := n + 2, k + 1;
    }
  }

  /** The count is the number of elements. */
  lemma Finished(v: View, out: Bytes, r: nat, k: nat, bits: Score -> Bytes)
    requires Written(v, out, r, k, bits)
    ensures r <= k <= |Inorder(v.shape)| && (forall x <- Inorder(v.shape) :: x in v.scores)
    ensures |out| >= 5 && out[0] == SER_ARR
    ensures OutUpdateArr(out, 2 * (k - r)) == Encode(Arr(Rows(v.scores, Inorder(v.shape)[r..k], bits)))
  {
    assert Drafted(v, out, r, k, bits);
    RowsSize(v.scores, Inorder(v.shape)[r..k], bits);
    Patched(Rows(v.scores, Inorder(v.shape)[r..k], bits));
  }

  /** The output of do_zquery from a tuple that was found: the loop and then the count. */
  method Reply(z: ZSet, start: ZNode, limit: int, bits: Score -> Bytes, ghost v: View, ghost r: nat)
    returns (out: Bytes, ghost k: nat)
    requires z.TreeOk() && z.view == v && limit > 0 && r < |Inorder(v.shape)| && Inorder(v.shape)[r] == start
    ensures r <= k <= |Inorder(v.shape)| && 2 * (k - r) <= limit + 1
    ensures k == |Inorder(v.shape)| || 2 * (k - r) >= limit
    ensures (forall x <- Inorder(v.shape) :: x in v.scores)
    ensures out == Encode(Arr(Rows(v.scores, Inorder(v.shape)[r..k], bits)))
  {
    var n;
    out, n, k := Emit(z, start, limit, bits, v, r);
    Finished(v, out, r, k, bits);
    out := OutUpdateArr(out, n);
  }

  lemma SliceIs(order: seq<ZNode>, i: nat, offset: int, limit: int, k: nat)
    requires i < |order| && limit > 0 && 0 <= i + offset < |order| && i + offset <= k <= |order|
    requires 2 * (k - i - offset) <= limit + 1 && (k == |order| || 2 * (k - i - offset) >= limit)
    ensures order[i + offset..k] == Slice(order, i, offset, limit)
  {
  }

  /** The output is an array of exactly the slice, and the back-patched count is the number of its
      elements. */
  method EmitSlice(z: ZSet, q: Key, offset: int, limit: int, bits: Score -> Bytes) returns (out: Bytes)
    requires z.TreeOk()
    ensures var order := Inorder(z.view.shape);
            var slice := Slice(order, Below(z.view.scores, order, q), offset, limit);
            (forall x <- slice :: x in z.view.scores) && out == Encode(Arr(Rows(z.view.scores, slice, bits)))
  {
    ghost var v := z.view;
    ghost var i := Below(v.scores, Inorder(v.shape), q);
    Patched([]);
    if limit <= 0 {
      return OutArr([], 0);
    }
    var znode := Query(z, q, offset);
    if znode == null {
      out := OutUpdateArr(OutArr([], 0), 0);
    } else {
      ghost var k;
      out, k := Reply(z, znode, limit, bits, v, i + offset);
      SliceIs(Inorder(v.shape), i, offset, limit, k);
    }
  }

  /** A run of tuples in a response, name and score in turn. */
  ghost function Pairs(ks: seq<Key>, bits: Score -> Bytes): seq<Value> {
    if ks == [] then [] else [Str(ks[0].name), Dbl(bits(ks[0].score))] + Pairs(ks[1..], bits)
  }

  /** `out` lists a slice of the tuples `ks` of the map `m` in order, where position `i` is that of
      the first one that does not precede `q`. */
  ghost predicate AnswersBy(
      ks: seq<Key>, i: nat, m: map<Bytes, Score>, q: Key, offset: int, limit: int, bits: Score -> Bytes, out: Bytes)
  {
    && Presents(ks, m) && i <= |ks|
    && (forall j :: 0 <= j < |ks| ==> (j < i <==> Precedes(ks[j], q)))
    && out == Encode(Arr(Pairs(Slice(ks, i, offset, limit), bits)))
  }

  /** What do_zquery answers for a set that stands for `m`. */
  ghost predicate Answers(
      m: map<Bytes, Score>, q: Key, offset: int, limit: int, bits: Score -> Bytes, out: Bytes)
  {
    exists ks: seq<Key>, i: nat :: AnswersBy(ks, i, m, q, offset, limit, bits, out)
  }

  /** The map and the arguments leave only one answer. */
  lemma OneAnswer(
      m: map<Bytes, Score>, q: Key, offset: int, limit: int, bits: Score -> Bytes, out: Bytes, other: Bytes)
    requires Answers(m, q, offset, limit, bits, out) && Answers(m, q, offset, limit, bits, other)
    ensures out == other
  {
    var ks: seq<Key>, i: nat :| AnswersBy(ks, i, m, q, offset, limit, bits, out);
    var ls: seq<Key>, j: nat :| AnswersBy(ls, j, m, q, offset, limit, bits, other);
    OneStart(ks, i, ls, j, m, q);
  }

  lemma OneStart(ks: seq<Key>, i: nat, ls: seq<Key>, j: nat, m: map<Bytes, Score>, q: Key)
    requires Presents(ks, m) && i <= |ks| && forall n :: 0 <= n < |ks| ==> (n < i <==> Precedes(ks[n], q))
    requires Presents(ls, m) && j <= |ls| && forall n :: 0 <= n < |ls| ==> (n < j <==> Precedes(ls[n], q))
    ensures ks == ls && i == j
  {
    PresentedOnce(ks, ls);
    assert (i < |ks| ==> !Precedes(ks[i], q)) && (j < |ls| ==> !Precedes(ls[j], q));
  }

  lemma {:induction false} RowsArePairs(sc: Scores, s: seq<ZNode>, bits: Score -> Bytes)
    requires forall x <- s :: x in sc
    ensures Rows(sc, s, bits) == Pairs(Tuples(sc, s), bits)
  {
    if s != [] {
      RowsArePairs(sc, s[1..], bits);
      assert Tuples(sc, s)[1..] == Tuples(sc, s[1..]);
    }
  }

  lemma SliceOfTuples(sc: Scores, s: seq<ZNode>, i: nat, offset: int, limit: int)
    requires i <= |s| && forall x <- s :: x in sc
    ensures forall x <- Slice(s, i, offset, limit) :: x in sc
    ensures Tuples(sc, Slice(s, i, offset, limit)) == Slice(Tuples(sc, s), i, offset, limit)
  {
  }

  lemma AnswersFromMap(v: View, q: Key, offset: int, limit: int, bits: Score -> Bytes)
    requires Sound(v) && Elems(Inorder(v.shape)) == v.scores.Keys
    ensures var slice := Slice(Inorder(v.shape), Below(v.scores, Inorder(v.shape), q), offset, limit);
            && (forall x <- slice :: x in v.scores)
            && Answers(ByName(v.scores), q, offset, limit, bits, Encode(Arr(Rows(v.scores, slice, bits))))
  {
    var order := Inorder(v.shape);
    var i := Below(v.scores, order, q);
    BelowStarts(v.scores, order, q);
    var slice, ks := Slice(order, i, offset, limit), Tuples(v.scores, order);
    ReadingOf(v);
    SliceOfTuples(v.scores, order, i, offset, limit);
    RowsArePairs(v.scores, slice, bits);
    assert AnswersBy(ks, i, ByName(v.scores), q, offset, limit, bits, Encode(Arr(Rows(v.scores, slice, bits))));
  }

  /** do_zquery after its arguments are parsed and the set is found: the answer depends only on the
      map that the set stands for. */
  method DoZQuery(z: ZSet, q: Key, offset: int, limit: int, bits: Score -> Bytes) returns (out: Bytes)
    requires z.TreeOk()
    ensures Answers(z.Model(), q, offset, limit, bits, out)
  {
    ghost var v := z.view;
    out := EmitSlice(z, q, offset, limit, bits);
    assert Sound(v) && Mirrors(v);
    InorderNodes(v.shape);
    AnswersFromMap(v, q, offset, limit, bits);
  }

  lemma {:induction false} RowsSize(sc: Scores, s: seq<ZNode>, bits: Score -> Bytes)
    requires forall x <- s :: x in sc
    ensures |Rows(sc, s, bits)| == 2 * |s|
  {
    if s != [] { RowsSize(sc, s[1..], bits); }
  }

  lemma Emitted(sc: Scores, order: seq<ZNode>, r: nat, k: nat, bits: Score -> Bytes)
    requires r <= k < |order| && forall y <- order :: y in sc
    ensures Draft(sc, order[r..k + 1], bits)
         == Draft(sc, order[r..k], bits) + Encode(Str(order[k].name)) + Encode(Dbl(bits(sc[order[k]])))
  {
    var s, x := order[r..k], order[k];
    assert order[r..k + 1] == s + [x];
    RowsSnoc(sc, s, x, bits);
    EncodeAllConcat(Rows(sc, s, bits), [Str(x.name), Dbl(bits(sc[x]))]);
    EncodeRow(x.name, bits(sc[x]));
  }

  lemma Patched(vs: seq<Value>)
    ensures var out := OutArr([], 0) + EncodeAll(vs);
            |out| >= 5 && out[0] == SER_ARR && OutUpdateArr(out, |vs|) == Encode(Arr(vs))
  {
    var out := OutArr([], 0) + EncodeAll(vs);
    assert out[..1] == [SER_ARR] && out[5..] == EncodeAll(vs);
  }
}
