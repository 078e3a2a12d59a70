/** struct HMap (src/hashtable.cpp:67-139): two tables and a migration between them. */
module HashMap {
  import opened Keys
  import opened HashTable
  import opened Migration

  /** The hash code in a node. */
  ghost function Code<T>(n: HNode<T>): nat {
    n.hcode
  }

  lemma BucketsLeft<T>(ch: Chains<T>, pos: nat)
    requires Total(ch) > 0 && forall i :: 0 <= i < pos && i < |ch| ==> ch[i] == []
    ensures pos < |ch|
  {
    TotalEmpty(ch);
  }

  /** The test "size / (mask + 1) >= 8", which hm_insert makes after every growth by one. */
  lemma LoadFactor(size: nat, n: nat)
    requires n > 0 && size <= 8 * n
    ensures size / n >= 8 <==> size == 8 * n
  {
    if size == 8 * n {
      Remainder(8 * n, n, 8, 0);
      FarApart(size / n - 8, n);
    } else {
      assert (size / n) * n <= size < 8 * n;
      FarApart(8 - size / n, n);
    }
  }

  /** The first node of a bucket leaves one table for another one. */
  method Transfer<T>(to: HTable<T>, from: HTable<T>, pos: nat) returns (node: HNode<T>)
    requires to != from && to.Nodes() !! from.Nodes() && (forall t <- {to, from} :: t.Valid())
    requires to.table != null && from.table != null && to.table != from.table
    requires pos < |from.chains| && from.chains[pos] != []
    modifies to`size, to`chains, from`size, from`chains, to.table, from.table, (to.Nodes() + from.Nodes())`next
    ensures (forall t <- {to, from} :: t.Valid()) && to.Nodes() !! from.Nodes()
    ensures to.Nodes() + from.Nodes() == old(to.Nodes() + from.Nodes())
    ensures to.size == old(to.size) + 1 && from.size == old(from.size) - 1
    ensures node == old(from.chains[pos][0])
    ensures from.chains == old(from.chains)[pos := Without(old(from.chains)[pos], 0)]
    ensures var b := And(node.hcode, to.mask);
            b < |old(to.chains)| == to.mask + 1 && to.chains == old(to.chains)[b := [node] + old(to.chains)[b]]
  {
    assert to.Valid() && from.Valid();
    node := from.Detach(AtBucket(pos), pos, 0);
    to.Insert(node);
    assert from.Valid();
  }

  /** A node comes into one of two tables. */
  method AddTo<T>(to: HTable<T>, from: HTable<T>, node: HNode<T>)
    requires to != from && to.Nodes() !! from.Nodes() && (forall t <- {to, from} :: t.Valid())
    requires to.table != null && to.table != from.table && node !in to.Nodes() + from.Nodes()
    modifies to`size, to`chains, to.table, node`next
    ensures (forall t <- {to, from} :: t.Valid()) && to.Nodes() == old(to.Nodes()) + {node}
    ensures to.size == old(to.size) + 1 && to.chains == Put(old(to.chains), node, Code)
  {
    assert to.Valid() && from.Valid();
    to.Insert(node);
    assert from.Valid();
  }

  /** A node leaves one of two tables. */
  method DetachFrom<T>(t: HTable<T>, other: HTable<T>, link: From<T>, ghost pos: nat, ghost k: nat)
    returns (node: HNode<T>)
    requires t != other && t.Nodes() !! other.Nodes() && (forall u <- {t, other} :: u.Valid())
    requires t.table != other.table || t.table == null
    requires PointsAt(link, t.chains, pos, k)
    modifies t`size, t`chains, t.table, t.Nodes()`next
    ensures (forall u <- {t, other} :: u.Valid()) && t.size == old(t.size) - 1
    ensures node == old(t.chains[pos][k]) && node in old(t.Nodes()) && t.Nodes() == old(t.Nodes()) - {node}
    ensures |t.chains| == |old(t.chains)| && t.chains == RowsWithout(old(t.chains), node)
    ensures other.chains == RowsWithout(other.chains, node)
    ensures forall i :: 0 <= i < |t.chains| && old(t.chains)[i] == [] ==> t.chains[i] == []
  {
    assert t.Valid() && other.Valid();
    ChainNodes(t.chains, pos);
    RowsWithoutOne(t.chains, t.mask, pos, k);
    RowsWithoutNone(other.chains, t.chains[pos][k]);
    node := DetachBeside(t, other, link, pos, k);
  }

  /** The pointer writes of a removal do not touch the other table. */
  method DetachBeside<T>(t: HTable<T>, other: HTable<T>, link: From<T>, ghost pos: nat, ghost k: nat)
    returns (node: HNode<T>)
    requires t != other && t.Nodes() !! other.Nodes() && t.Valid() && other.Valid()
    requires t.table != other.table || t.table == null
    requires PointsAt(link, t.chains, pos, k) && forall j :: 0 <= j < |t.chains[pos]| ==> t.chains[pos][j] in t.Nodes()
    modifies t`size, t`chains, t.table, t.Nodes()`next
    ensures t.Valid() && other.Valid() && t.size == old(t.size) - 1
    ensures node == old(t.chains[pos][k]) && t.chains == old(t.chains)[pos := Without(old(t.chains)[pos], k)]
    ensures t.Nodes() == old(t.Nodes()) - {node} && node in old(t.Nodes())
  {
    node := t.Detach(link, pos, k);
    assert other.Valid();
  }

  /** What a call found: the length of the first chain, the tables, their nodes, and their sizes. */
  datatype Begun<!T> = Begun(
    first: nat, held: Tables<HNode<T>>, nodes: set<HNode<T>>, rows: nat, size: nat, total: nat)

  /** `skipsEmpty` selects the loop of hm_help_resizing. With `false` it is the loop as
      written, whose branch for an empty bucket repeats without changing anything. With
      `true` it is the loop the code intends, which advances `resizing_pos` there. */
  class HMap<T> {
    var to: HTable<T>
    var from: HTable<T>
    var resizing_pos: nat
    const skipsEmpty: bool
    ghost var Repr: set<object>

    /** The nodes in the map. */
    ghost function Nodes(): set<HNode<T>>
      reads this, to, from
    {
      to.Nodes() + from.Nodes()
    }

    /** Both tables as values. */
    ghost function Held(): Tables<HNode<T>>
      reads this, to, from
    {
      Tables(to.chains, from.chains)
    }

    /** Two well formed tables without a node in common; buckets of the old table below
        `resizing_pos` are done. */
    ghost predicate Core()
      reads this, to, from, to.table, from.table, to.Nodes(), from.Nodes()
    {
      && to != from && to.Nodes() !! from.Nodes() && (forall t <- {to, from} :: t.Valid())
      && (to.table != null ==> |to.chains| >= 4) && Covered()
      && (from.table != null ==> Migrating())
    }

    ghost predicate Migrating()
      reads this, to, from
    {
      && to.table != null && from.table != null && to.table != from.table
      && |to.chains| == 2 * |from.chains|
      && (forall i :: 0 <= i < resizing_pos && i < |from.chains| ==> from.chains[i] == [])
      && (skipsEmpty || resizing_pos == 0) && 0 < |from.chains|
    }

    /** Growth keeps pace: with `slack` 0 this holds between calls. */
    ghost predicate Paced(slack: nat)
      reads this, to, from
    {
      if from.table == null then to.table != null ==> to.size < 8 * |to.chains|
      else 128 * (to.size + from.size - 8 * |from.chains|) <= 8 * |from.chains| - from.size + slack
    }

    /** `Repr` covers everything the map consists of. */
    ghost predicate Covered()
      reads this, to, from
    {
      && {this, to, from} <= Repr && to.Nodes() <= Repr && from.Nodes() <= Repr
      && (to.table != null ==> to.table in Repr) && (from.table != null ==> from.table in Repr)
    }

    ghost predicate Whole()
      reads this, Repr
    {
      to in Repr && from in Repr && Covered() && Core() && Paced(0)
    }

    /** The same, folded. */
    ghost predicate Valid()
      reads this, Repr
    {
      this in Repr && forall m <- {this} :: m.Whole()
    }

    /** The loop of hm_help_resizing comes to an end. */
    ghost predicate Returns()
      reads this, to, from
    {
      skipsEmpty || Ends(Held())
    }

    constructor (skipsEmpty: bool)
      ensures Valid() && Nodes() == {} && this.skipsEmpty == skipsEmpty && fresh(Repr)
      ensures Held() == Tables([], [])
    {
      this.skipsEmpty := skipsEmpty;
      resizing_pos := 0;
      to := new HTable<T>.Empty();
      from := new HTable<T>.Empty();
      new;
      Repr := {this, to, from};
    }

    /** `Core` in the midst of a migration, folded. */
    ghost predicate Underway()
      reads this, to, from, to.table, from.table, to.Nodes(), from.Nodes()
    {
      forall t <- {to} :: UnderwayTo(t)
    }

    ghost predicate UnderwayTo(t: HTable<T>)
      reads this, to, from, to.table, from.table, to.Nodes(), from.Nodes()
    {
      t == to && Core() && Migrating()
    }

    /** The first node of the bucket at `resizing_pos` goes to the new table. */
    method MoveOne()
      requires Underway() && resizing_pos < |from.chains| && from.chains[resizing_pos] != []
      modifies to`size, to`chains, from`size, from`chains, to.table, from.table, Nodes()`next
      ensures Underway() && Nodes() == old(Nodes())
      ensures to.size == old(to.size) + 1 && from.size == old(from.size) - 1
      ensures |from.chains| == old(|from.chains|)
      ensures |from.chains[resizing_pos]| == old(|from.chains[resizing_pos]|) - 1
      ensures resizing_pos == 0 ==> Held() == Move(old(Held()), Code)
    {
      assert UnderwayTo(to);
      ghost var held := Held();
      var node := Transfer(to, from, resizing_pos);
      if resizing_pos == 0 {
        MovedFirst(held, Held(), node);
      }
      assert UnderwayTo(to);
    }

    /** One turn of the loop: `moved` tells whether a node was moved. A turn that does
        not move one has met an empty bucket. */
    method Turn() returns (moved: bool)
      requires Underway() && from.size > 0
      modifies this`resizing_pos, to`size, to`chains, from`size, from`chains, to.table, from.table, Nodes()`next
      ensures Underway() && Nodes() == old(Nodes())
      ensures to.size + from.size == old(to.size + from.size) && |from.chains| == old(|from.chains|)
      ensures moved <==> (old(resizing_pos) < |from.chains| && old(from.chains[resizing_pos]) != [])
      ensures if moved then from.size == old(from.size) - 1 && resizing_pos == old(resizing_pos)
              else unchanged(to) && unchanged(from) && old(resizing_pos) < |from.chains|
      ensures !moved ==> resizing_pos == old(resizing_pos) + (if skipsEmpty then 1 else 0)
      ensures moved && resizing_pos == 0 ==> |from.chains[0]| == old(|from.chains[0]|) - 1
      ensures moved && resizing_pos == 0 ==> Held() == Move(old(Held()), Code)
    {
      assert UnderwayTo(to) && from.Valid();
      BucketsLeft(from.chains, resizing_pos);
      assert Linked(from.table[resizing_pos], from.chains[resizing_pos]);
      if from.table[resizing_pos] == null {
        if skipsEmpty {
          resizing_pos := resizing_pos + 1;
        }
        assert UnderwayTo(to);
        return false;
      }
      MoveOne();
      moved := true;
    }

    /** The migration after `work` moves, from what it was at the start of the call. */
    ghost predicate Advanced(b: Begun<T>, work: nat)
      reads this, to, from, to.table, from.table, to.Nodes(), from.Nodes()
    {
      && Underway() && Nodes() == b.nodes && |from.chains| == b.rows > 0
      && work + from.size == b.size && to.size + from.size == b.total
      && (!skipsEmpty ==> resizing_pos == 0 && |from.chains[0]| + work == b.first)
      && (!skipsEmpty ==> Held() == Moves(b.held, work, Code))
    }

    /** The same, folded. */
    ghost predicate After(b: Begun<T>, work: nat)
      reads this, to, from, to.table, from.table, to.Nodes(), from.Nodes()
    {
      forall w <- {work} :: Advanced(b, w)
    }

    /** A turn of the loop as a step of the call. */
    method Step(ghost b: Begun<T>, ghost work: nat) returns (moved: bool)
      requires After(b, work) && from.size > 0
      modifies this`resizing_pos, to`size, to`chains, from`size, from`chains, to.table, from.table, Nodes()`next
      ensures After(b, if moved then work + 1 else work) && Nodes() == old(Nodes())
      ensures moved ==> from.size == old(from.size) - 1 && resizing_pos == old(resizing_pos)
      ensures !moved ==> from.size == old(from.size)
      ensures !moved ==> resizing_pos == old(resizing_pos) + (if skipsEmpty then 1 else 0)
      ensures !moved && !skipsEmpty ==> work == b.first
      ensures old(resizing_pos) < |from.chains| == old(|from.chains|)
    {
      assert Advanced(b, work);
      moved := Turn();
      assert Advanced(b, if moved then work + 1 else work);
    }

    /** The loop of hm_help_resizing; `done` is false when it never ends. */
    method Loops(ghost b: Begun<T>) returns (done: bool)
      requires After(b, 0)
      modifies this`resizing_pos, to`size, to`chains, from`size, from`chains, to.table, from.table, Nodes()`next
      ensures Nodes() == old(Nodes())
      ensures done ==> After(b, Min(K_RESIZING_WORK, b.size))
      ensures !done ==> !skipsEmpty && Underway() && b.first < Min(K_RESIZING_WORK, b.size)
      ensures !done ==> to.size + from.size == b.total && |from.chains| == b.rows
    {
      var work_done := 0;
      assert from.size == b.size by { assert Advanced(b, 0); }
      while work_done < K_RESIZING_WORK && from.size > 0
        invariant After(b, work_done) && Nodes() == old(Nodes())
        invariant 0 <= work_done <= K_RESIZING_WORK && work_done + from.size == b.size
        decreases from.size + |from.chains| - resizing_pos
      {
        var moved := Step(b, work_done);
        if moved {
          work_done := work_done + 1;
        } else if !skipsEmpty {
          assert Advanced(b, work_done);
          return false;
        }
      }
      done := true;
    }

    /** hm_help_resizing past its first test, up to the end of its loop. */
    method Migrate() returns (done: bool)
      requires Underway()
      modifies this`resizing_pos, to`size, to`chains, from`size, from`chains, to.table, from.table, Nodes()`next
      ensures Underway() && Nodes() == old(Nodes())
      ensures done <==> old(Returns())
      ensures to.size + from.size == old(to.size + from.size) && |from.chains| == old(|from.chains|)
      ensures done ==> from.size == old(from.size) - Min(K_RESIZING_WORK, old(from.size))
      ensures !skipsEmpty && done ==> Held() == Moves(old(Held()), Min(K_RESIZING_WORK, old(from.size)), Code)
    {
      assert UnderwayTo(to) && from.Valid();
      ghost var b := Begun(|from.chains[0]|, Held(), Nodes(), |from.chains|, from.size, to.size + from.size);
      assert Advanced(b, 0);
      done := Loops(b);
      if done {
        assert Advanced(b, Min(K_RESIZING_WORK, b.size));
      }
    }

    /** A call that does not return is one whose loop, turn by turn, never stops. */
    lemma ReturnsWhenLoopStops()
      requires Underway() && !skipsEmpty
      ensures 0 < |from.chains| && |from.chains[0]| <= from.size
      ensures Returns() <==> Stops(Loop(0, from.size, |from.chains[0]|))
    {
      assert UnderwayTo(to) && from.Valid();
      ChainWithinTotal(from.chains, 0);
      EndsExactlyWhen(Loop(0, from.size, |from.chains[0]|));
    }

    /** hm_help_resizing in the midst of a migration. */
    method Advance() returns (done: bool)
      requires Underway()
      modifies this`resizing_pos, to`size, to`chains, from`size, from`chains, to.table, from.table, Nodes()`next
      ensures Underway() && Nodes() == old(Nodes())
      ensures done <==> old(Returns())
      ensures to.size + from.size == old(to.size + from.size) && |from.chains| == old(|from.chains|)
      ensures done ==> from.size == old(from.size) - Min(K_RESIZING_WORK, old(from.size))
      ensures !skipsEmpty ==> 0 < old(|from.chains|) && old(|from.chains[0]|) <= old(from.size)
      ensures !skipsEmpty ==> (done <==> Stops(Loop(0, old(from.size), old(|from.chains[0]|))))
      ensures !skipsEmpty && done ==> Held() == Moves(old(Held()), Min(K_RESIZING_WORK, old(from.size)), Code)
    {
      if !skipsEmpty {
        ReturnsWhenLoopStops();
      }
      done := Migrate();
    }

    /** The old table is empty and is given up. */
    method DropOld()
      requires Underway() && from.size == 0
      modifies this`from, this`Repr
      ensures Core() && from.table == null && Nodes() == old(Nodes()) && from.size == 0
      ensures fresh(from) && Repr == old(Repr) + {from}
      ensures Total(old(from.chains)) == 0 && Held() == Tables(old(to.chains), [])
    {
      assert UnderwayTo(to) && from.Valid();
      TotalEmpty(from.chains);
      assert from.Nodes() == {};
      from := new HTable<T>.Empty();
      Repr := Repr + {from};
    }

    /** hm_help_resizing. `done` is false when its loop never ends. */
    method HelpResizing(ghost slack: nat) returns (done: bool)
      requires Core() && Paced(slack) && slack <= 128
      modifies Repr
      ensures done <==> old(Returns())
      ensures done ==> Core() && Paced(0)
      ensures done ==> from.size == old(from.size) - Min(K_RESIZING_WORK, old(from.size))
      ensures !skipsEmpty && done ==> Held() == Helped(old(Held()), Code)
      ensures Nodes() == old(Nodes()) && to.size + from.size == old(to.size + from.size)
      ensures old(Repr) <= Repr && fresh(Repr - old(Repr))
    {
      assert to.Valid() && from.Valid();
      if from.table == null {
        return true;
      }
      assert UnderwayTo(to);
      done := Advance();
      assert UnderwayTo(to) && from.Valid();
      if done && from.size == 0 {
        DropOld();
      }
    }

    /** The link to a match in either table, the new one first. */
    method Find(hcode: nat, cmp: HNode<T> -> bool)
      returns (inTo: bool, link: From<T>, ghost pos: nat, ghost k: nat)
      requires Core() && forall n <- Nodes() :: cmp(n) ==> n.hcode == hcode
      ensures link == Nowhere ==> forall n <- Nodes() :: !cmp(n)
      ensures link != Nowhere ==> var t := if inTo then to else from;
                PointsAt(link, t.chains, pos, k) && cmp(t.chains[pos][k])
      ensures Core() == old(Core())
    {
      inTo := true;
      link, pos, k := to.Lookup(hcode, cmp);
      if link == Nowhere {
        inTo := false;
        link, pos, k := from.Lookup(hcode, cmp);
      }
    }

    method Seek(hcode: nat, cmp: HNode<T> -> bool) returns (found: HNode?<T>)
      requires Core() && forall n <- Nodes() :: cmp(n) ==> n.hcode == hcode
      ensures found == null ==> forall n <- Nodes() :: !cmp(n)
      ensures found != null ==> found in Nodes() && cmp(found)
      ensures Core() == old(Core())
    {
      found := null;
      var inTo, link, pos, k := Find(hcode, cmp);
      if link != Nowhere {
        if inTo {
          found := to.Get(link, pos, k);
        } else {
          found := from.Get(link, pos, k);
        }
      }
    }

    /** hm_lookup */
    method Lookup(hcode: nat, cmp: HNode<T> -> bool) returns (done: bool, found: HNode?<T>)
      requires Valid() && forall n <- Nodes() :: cmp(n) ==> n.hcode == hcode
      modifies Repr
      ensures done <==> old(Returns())
      ensures done ==> Valid() && Nodes() == old(Nodes()) && old(Repr) <= Repr && fresh(Repr - old(Repr))
      ensures !skipsEmpty && done ==> Held() == Helped(old(Held()), Code)
      ensures done && found == null ==> forall n <- Nodes() :: !cmp(n)
      ensures done && found != null ==> found in Nodes() && cmp(found)
    {
      assert Whole();
      found := null;
      done := HelpResizing(0);
      if done {
        found := Seek(hcode, cmp);
        assert Whole();
      }
    }

    /** h_detach from `to` */
    method DetachNew(link: From<T>, ghost pos: nat, ghost k: nat) returns (node: HNode<T>)
      requires Core() && Paced(0) && PointsAt(link, to.chains, pos, k)
      modifies to`size, to`chains, to.table, to.Nodes()`next
      ensures Core() && Paced(0) && node == old(to.chains[pos][k])
      ensures to.Nodes() == old(to.Nodes()) - {node} && node in old(to.Nodes())
      ensures Held() == Taken(old(Held()), node)
    {
      node := DetachFrom(to, from, link, pos, k);
    }

    /** h_detach from `from` */
    method DetachOld(link: From<T>, ghost pos: nat, ghost k: nat) returns (node: HNode<T>)
      requires Core() && Paced(0) && PointsAt(link, from.chains, pos, k)
      modifies from`size, from`chains, from.table, from.Nodes()`next
      ensures Core() && Paced(0) && node == old(from.chains[pos][k])
      ensures from.Nodes() == old(from.Nodes()) - {node} && node in old(from.Nodes())
      ensures Held() == Taken(old(Held()), node)
    {
      assert from.Valid() && from.table != null;
      node := DetachFrom(from, to, link, pos, k);
    }

    method Take(hcode: nat, cmp: HNode<T> -> bool) returns (found: HNode?<T>)
      requires Core() && Paced(0) && forall n <- Nodes() :: cmp(n) ==> n.hcode == hcode
      modifies to`size, to`chains, from`size, from`chains, to.table, from.table, Nodes()`next
      ensures Core() && Paced(0)
      ensures found == null ==> Nodes() == old(Nodes()) && forall n <- Nodes() :: !cmp(n)
      ensures found != null ==> found in old(Nodes()) && cmp(found) && Nodes() == old(Nodes()) - {found}
      ensures Held() == if found == null then old(Held()) else Taken(old(Held()), found)
    {
      found := null;
      var inTo, link, pos, k := Find(hcode, cmp);
      if link != Nowhere {
        if inTo {
          found := DetachNew(link, pos, k);
        } else {
          found := DetachOld(link, pos, k);
        }
      }
    }

    /** hm_pop */
    method Pop(hcode: nat, cmp: HNode<T> -> bool) returns (done: bool, found: HNode?<T>)
      requires Valid() && forall n <- Nodes() :: cmp(n) ==> n.hcode == hcode
      modifies Repr
      ensures done <==> old(Returns())
      ensures done ==> Valid() && old(Repr) <= Repr && fresh(Repr - old(Repr))
      ensures done && found == null ==> Nodes() == old(Nodes()) && forall n <- Nodes() :: !cmp(n)
      ensures done && found != null ==> found in old(Nodes()) && cmp(found) && Nodes() == old(Nodes()) - {found}
      ensures !skipsEmpty && done ==>
        var s := Helped(old(Held()), Code);
        AllNodes(s) == old(Nodes()) && Held() == if found == null then s else Taken(s, found)
    {
      assert Whole();
      found := null;
      done := HelpResizing(0);
      if done {
        found := Take(hcode, cmp);
        assert Whole();
      }
    }

    /** hm_start_resizing */
    method StartResizing()
      requires Core() && from.table == null && to.table != null && to.size == 8 * |to.chains|
      modifies this`to, this`from, this`resizing_pos, this`Repr
      ensures Core() && Paced(0) && Nodes() == old(Nodes()) && old(Repr) <= Repr && fresh(Repr - old(Repr))
      ensures from == old(to) && from.table != null && fresh(to)
      ensures to.table != null && fresh(to.table) && to.Nodes() == {}
      ensures to.size + from.size == old(to.size) && Held() == Tables(Empty(2 * |old(to.chains)|), old(to.chains))
    {
      assert to.Valid() && from.Valid();
      DoublePower(to.mask + 1);
      from := to;
      to := new HTable<T>.Init((from.mask + 1) * 2);
      Repr := Repr + {to, to.table};
      resizing_pos := 0;
    }
  
    /** The first insertion allocates a table of four buckets. */
    method EnsureTable()
      requires Whole()
      modifies this`to, this`Repr
      ensures Whole() && to.table != null && Nodes() == old(Nodes())
      ensures Held() == Tables(if old(to.chains) == [] then Empty(4) else old(to.chains), old(from.chains))
      ensures old(Repr) <= Repr && fresh(Repr - old(Repr))
    {
      assert to.Valid();
      if to.table == null {
        to := new HTable<T>.Init(4);
        Repr := Repr + {to, to.table};
      }
    }

    /** The node goes into the new table. */
    method Place(node: HNode<T>)
      requires Whole() && to.table != null && node !in Nodes()
      modifies to`size, to`chains, to.table, node`next, this`Repr
      ensures Core() && Nodes() == old(Nodes()) + {node}
      ensures if from.table == null then to.size <= 8 * |to.chains| else Paced(128)
      ensures Held() == Tables(Put(old(to.chains), node, Code), old(from.chains))
      ensures Repr == old(Repr) + {node}
    {
      AddTo(to, from, node);
      Repr := Repr + {node};
    }

    /** The load check of hm_insert. */
    method Grow()
      requires Core() && to.table != null
      requires if from.table == null then to.size <= 8 * |to.chains| else Paced(128)
      modifies this`to, this`from, this`resizing_pos, this`Repr
      ensures Core() && Paced(128) && Nodes() == old(Nodes())
      ensures Held() == Grown(old(Held()))
      ensures old(Repr) <= Repr && fresh(Repr - old(Repr))
    {
      assert to.Valid() && from.Valid();
      if from.table == null {
        LoadFactor(to.size, to.mask + 1);
        var load_factor := to.size / (to.mask + 1);
        if load_factor >= K_MAX_LOAD_FACTOR {
          StartResizing();
        }
      }
    }

    /** hm_insert before the migration step. */
    method PlaceAndGrow(node: HNode<T>)
      requires Whole() && node !in Nodes()
      modifies Repr, node
      ensures Core() && Paced(128) && Nodes() == old(Nodes()) + {node}
      ensures Held() == Migration.Placed(old(Held()), node, Code)
      ensures old(Repr) <= Repr && fresh(Repr - old(Repr) - {node})
    {
      assert to.Valid() && from.Valid();
      EnsureTable();
      Place(node);
      Grow();
    }

    /** hm_insert */
    method Insert(node: HNode<T>) returns (done: bool)
      requires Valid() && node !in Nodes()
      modifies Repr, node
      ensures done <==> old(InsertReturns(node))
      ensures done ==> Valid() && Nodes() == old(Nodes()) + {node}
      ensures done ==> old(Repr) <= Repr && fresh(Repr - old(Repr) - {node})
      ensures !skipsEmpty && done ==> Held() == Inserted(old(Held()), node, Code)
    {
      assert Whole();
      PlaceAndGrow(node);
      done := HelpResizing(128);
      assert done ==> Whole();
    }

    /** hm_insert comes to an end. */
    ghost predicate InsertReturns(node: HNode<T>)
      reads this, to, from
    {
      skipsEmpty || InsertEnds(Held(), node, Code)
    }

    /** Growth never falls behind: at every call boundary the new table holds fewer than
        eight nodes per bucket, although the load check is skipped during a migration. */
    lemma LoadBound()
      requires Valid()
      ensures to.table != null ==> to.size < 8 * (to.mask + 1)
    {
      assert Whole();
      assert to.Valid() && from.Valid();
    }

    /** Both size fields together count the nodes. */
    lemma SizeIsCount()
      requires Valid()
      ensures |Nodes()| == to.size + from.size
    {
      assert Whole();
      assert to.Valid() && from.Valid();
      CountNodes(to.chains, to.mask);
      CountNodes(from.chains, from.mask);
    }
  }

  lemma MovedFirst<T>(s: Tables<HNode<T>>, t: Tables<HNode<T>>, node: HNode<T>)
    requires s.to != [] && s.from != [] && s.from[0] != [] && node == s.from[0][0]
    requires t.from == s.from[0 := Without(s.from[0], 0)]
    requires var b := And(node.hcode, |s.to| - 1); b < |s.to| && t.to == s.to[b := [node] + s.to[b]]
    ensures t == Move(s, Code)
  {
    assert Without(s.from[0], 0) == s.from[0][1..];
  }

  ghost function AllNodes<T>(s: Tables<HNode<T>>): set<HNode<T>> {
    NodesOf(s.to) + NodesOf(s.from)
  }

  // What the operations do to the tables they do to the tables of keys, when `hash` of a node's
  // key is its hash code.

  lemma AgreeOn<T, K>(ch: Chains<T>, key: HNode<T> -> K, hash: K -> nat)
    requires forall n <- NodesOf(ch) :: hash(key(n)) == n.hcode
    ensures Agree(ch, key, Code, hash)
  {
    forall i, j | 0 <= i < |ch| && 0 <= j < |ch[i]| ensures hash(key(ch[i][j])) == Code(ch[i][j]) {
      assert ch[i][j] in ch[i] && ch[i][j] in NodesOf(ch);
    }
  }

  lemma KeyedHelped<T, K>(s: Tables<HNode<T>>, key: HNode<T> -> K, hash: K -> nat)
    requires forall n <- AllNodes(s) :: hash(key(n)) == n.hcode
    ensures Rename(Helped(s, Code), key) == Helped(Rename(s, key), hash)
    ensures Ends(Rename(s, key)) <==> Ends(s)
  {
    AgreeOn(s.from, key, hash);
    RenamedHelped(s, key, Code, hash);
  }

  lemma KeyedInserted<T, K>(s: Tables<HNode<T>>, x: HNode<T>, key: HNode<T> -> K, hash: K -> nat)
    requires forall n <- AllNodes(s) + {x} :: hash(key(n)) == n.hcode
    ensures Rename(Inserted(s, x, Code), key) == Inserted(Rename(s, key), key(x), hash)
    ensures InsertEnds(Rename(s, key), key(x), hash) <==> InsertEnds(s, x, Code)
  {
    assert x in AllNodes(s) + {x};
    AgreeOn(s.to, key, hash);
    AgreeOn(s.from, key, hash);
    RenamedInserted(s, x, key, Code, hash);
  }

  lemma OnlyNameOn<T, K>(ch: Chains<T>, x: HNode<T>, key: HNode<T> -> K)
    requires forall n <- NodesOf(ch) :: key(n) == key(x) ==> n == x
    ensures OnlyName(ch, x, key)
  {
    forall i, j | 0 <= i < |ch| && 0 <= j < |ch[i]| && key(ch[i][j]) == key(x) ensures ch[i][j] == x {
      assert ch[i][j] in ch[i] && ch[i][j] in NodesOf(ch);
    }
  }

  lemma KeyedTaken<T, K>(s: Tables<HNode<T>>, x: HNode<T>, key: HNode<T> -> K)
    requires forall n <- AllNodes(s) :: key(n) == key(x) ==> n == x
    ensures Rename(Taken(s, x), key) == Taken(Rename(s, key), key(x))
  {
    OnlyNameOn(s.to, x, key);
    OnlyNameOn(s.from, x, key);
    RenamedTaken(s, x, key);
  }

  lemma RowsWithoutOne<T>(ch: Chains<T>, mask: nat, pos: nat, k: nat)
    requires InPlace(ch, mask) && pos < |ch| && k < |ch[pos]|
    ensures RowsWithout(ch, ch[pos][k]) == ch[pos := Without(ch[pos], k)]
  {
    var x := ch[pos][k];
    assert InBucket(ch[pos], mask, pos) && x in ch[pos];
    DroppedAt(ch[pos], k);
    PlacedElsewhere(ch, mask, pos, x);
    forall i | 0 <= i < |ch| && i != pos ensures Dropped(ch[i], x) == ch[i] { DroppedNone(ch[i], x); }
  }

  lemma RowsWithoutNone<T>(ch: Chains<T>, x: HNode<T>)
    requires x !in NodesOf(ch)
    ensures RowsWithout(ch, x) == ch
  {
    forall i | 0 <= i < |ch| ensures Dropped(ch[i], x) == ch[i] {
      DroppedNone(ch[i], x);
    }
  }

  lemma CountNodes<T>(ch: Chains<T>, mask: nat)
    requires InPlace(ch, mask)
    ensures |NodesOf(ch)| == Total(ch)
  {
    FlatFacts(ch);
    assert PlacedFrom(ch, mask, 0);
    FlatOnce(ch, mask, 0);
    CountDistinct(Flat(ch));
  }

  lemma {:induction false} CountDistinct<T>(s: seq<HNode<T>>)
    requires NoDup(s)
    ensures |Elems(s)| == |s|
  {
    if s != [] {
      CountDistinct(s[1..]);
      assert forall n :: n in s <==> n == s[0] || n in s[1..];
      assert Elems(s) == {s[0]} + Elems(s[1..]);
    }
  }

  // ----- the migration loop as written, as a machine -----

  /** What the loop of hm_help_resizing as written depends on: the work done so far, the
      size of the old table and the length of its chain at `resizing_pos`. */
  datatype Loop = Loop(work: nat, size: nat, chain: nat)

  predicate Guard(s: Loop) {
    s.work < K_RESIZING_WORK && s.size > 0
  }

  /** One turn; the branch for an empty bucket is a bare `continue`. */
  function Step(s: Loop): Loop
    requires Guard(s) && s.chain <= s.size
  {
    if s.chain == 0 then s else Loop(s.work + 1, s.size - 1, s.chain - 1)
  }

  /** The state after `n` turns, or the final state if the loop ends before. */
  function After(s: Loop, n: nat): (r: Loop)
    requires s.chain <= s.size
    ensures r.chain <= r.size
    decreases n
  {
    if n == 0 || !Guard(s) then s else After(Step(s), n - 1)
  }

  /** Some number of turns brings the loop to its end. */
  ghost predicate Stops(s: Loop)
    requires s.chain <= s.size
  {
    exists n: nat :: !Guard(After(s, n))
  }

  /** The loop as written ends exactly when the chain at `resizing_pos` is long enough for
      all the work this call has left; otherwise it repeats forever. */
  lemma {:induction false} EndsExactlyWhen(s: Loop)
    requires s.chain <= s.size && s.work <= K_RESIZING_WORK
    ensures Stops(s) <==> s.chain >= Min(K_RESIZING_WORK - s.work, s.size)
    decreases s.size
  {
    if !Guard(s) {
      assert !Guard(After(s, 0));
    } else if s.chain == 0 {
      forall n: nat ensures Guard(After(s, n)) { Stuck(s, n); }
    } else {
      EndsExactlyWhen(Step(s));
      if s.chain >= Min(K_RESIZING_WORK - s.work, s.size) {
        var n: nat :| !Guard(After(Step(s), n));
        assert After(s, n + 1) == After(Step(s), n);
      } else {
        forall n: nat ensures Guard(After(s, n)) {
          if n > 0 { assert After(s, n) == After(Step(s), n - 1); }
        }
      }
    }
  }

  lemma {:induction false} Stuck(s: Loop, n: nat)
    requires Guard(s) && s.chain == 0
    ensures After(s, n) == s
  {
    if n > 0 { Stuck(s, n - 1); }
  }

  /** The insertion that fills a table starts a migration which, whatever the size of the table,
      calls without removals complete if and only if every node hashes to bucket 0. For a table of
      at most 16 buckets the insertion itself returns only then. */
  lemma FillingCompletesIff<T>(h: HMap<T>, node: HNode<T>)
    requires h.Valid() && !h.skipsEmpty && h.from.table == null && h.to.table != null
    requires h.to.size + 1 == 8 * |h.to.chains| && node !in h.Nodes()
    ensures Completes(Migration.Placed(h.Held(), node, Code), Code) <==>
            forall n <- h.Nodes() + {node} :: And(n.hcode, h.to.mask) == 0
    ensures |h.to.chains| <= 16 ==>
            (h.InsertReturns(node) <==> forall n <- h.Nodes() + {node} :: And(n.hcode, h.to.mask) == 0)
  {
    assert h.Whole() && h.to.Valid() && h.from.Valid();
    var ch, mask := h.to.chains, h.to.mask;
    assert h.Nodes() == NodesOf(ch);
    AndBound(node.hcode, mask);
    var b := And(node.hcode, mask);
    var full := ch[b := [node] + ch[b]];
    TotalUpdate(ch, b, [node] + ch[b]);
    PlacedElsewhere(ch, mask, b, node);
    InBucketPush(ch[b], mask, b, node);
    PlacedUpdate(ch, mask, b, [node] + ch[b]);
    NodesPush(ch, b, node);
    AllInFirst(full, mask);
    ChainWithinTotal(full, 0);
    CompletesIff(Migration.Placed(h.Held(), node, Code), Code);
  }

  lemma AllInFirst<T>(ch: Chains<T>, mask: nat)
    requires InPlace(ch, mask) && ch != []
    ensures |ch[0]| == Total(ch) <==> forall n <- NodesOf(ch) :: And(n.hcode, mask) == 0
  {
    TotalEmpty(ch[1..]);
    forall i | 0 <= i < |ch[1..]| ensures ch[1..][i] == ch[i + 1] && InBucket(ch[i + 1], mask, i + 1) {}
    if |ch[0]| != Total(ch) {
      var i :| 0 <= i < |ch[1..]| && ch[1..][i] != [];
      var n := ch[i + 1][0];
      assert n in ch[i + 1] && n in NodesOf(ch) && And(n.hcode, mask) == i + 1;
    }
    if |ch[0]| == Total(ch) {
      forall n | n in NodesOf(ch) ensures And(n.hcode, mask) == 0 {
        var i :| 0 <= i < |ch| && n in ch[i];
        assert forall j :: 1 <= j < |ch| ==> ch[j] == ch[1..][j - 1] == [];
        assert InBucket(ch[0], mask, 0);
      }
    }
  }
}
