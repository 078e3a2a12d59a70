/** The TTL timers of src/server.cpp:125-200 and 260-288: an array min-heap of deadlines whose
    items point back into the entries, and entries that know their place in it. */
module TtlHeap {
  import opened Keys
  import opened SetMachine

  /** struct Entry. A sorted set is kept as the value its heap structures stand for. */
  class Entry {
    const key: Bytes
    const isZset: bool
    var val: Bytes
    var zset: SetValue
    /** -1 stands for (size_t)-1: no timer. */
    var heap_idx: int

    constructor (key: Bytes, val: Bytes, isZset: bool)
      ensures this.key == key && this.val == val && this.isZset == isZset && heap_idx == -1
      ensures zset == NO_NAMES
    {
      this.key, this.val, this.isZset, heap_idx, zset := key, val, isZset, -1, NO_NAMES;
    }
  }

  /** struct HeapItem; `ref` points at the heap_idx of an entry. */
  datatype Item = Item(val: nat, ref: Entry)

  function Parent(i: nat): nat
    requires i > 0
  {
    (i + 1) / 2 - 1
  }

  function LeftChild(i: nat): nat { i * 2 + 1 }

  function RightChild(i: nat): nat { i * 2 + 2 }

  ghost function Items(h: seq<Item>): set<Item> {
    set x | x in h
  }

  ghost function Refs(h: seq<Item>): set<Entry> {
    set x | x in h :: x.ref
  }

  /** No entry has two timers. */
  ghost predicate OneEach(h: seq<Item>) {
    forall i, j :: 0 <= i < j < |h| ==> h[i].ref != h[j].ref
  }

  /** Every item is at most its children. */
  ghost predicate Ordered(h: seq<Item>) {
    forall i :: 0 < i < |h| ==> h[Parent(i)].val <= h[i].val
  }

  /** The items on both sides of position `pos` are in order, without the item at `pos`. */
  ghost predicate Bridged(h: seq<Item>, pos: nat) {
    pos > 0 ==> forall i :: 0 < i < |h| && Parent(i) == pos ==> h[Parent(pos)].val <= h[i].val
  }

  /** Ordered but for the item at `pos`: it may be too small for its parent, */
  ghost predicate TooSmallAt(h: seq<Item>, pos: nat) {
    Bridged(h, pos) && forall i :: 0 < i < |h| && i != pos ==> h[Parent(i)].val <= h[i].val
  }

  /** it may be too big for its children, */
  ghost predicate TooBigAt(h: seq<Item>, pos: nat) {
    Bridged(h, pos) && forall i :: 0 < i < |h| && Parent(i) != pos ==> h[Parent(i)].val <= h[i].val
  }

  /** or anything at all. */
  ghost predicate AnyAt(h: seq<Item>, pos: nat) {
    Bridged(h, pos) && forall i :: 0 < i < |h| && i != pos && Parent(i) != pos ==> h[Parent(i)].val <= h[i].val
  }

  /** The smallest deadline is at the front. */
  lemma {:induction false} FrontIsLeast(h: seq<Item>, i: nat)
    requires Ordered(h) && i < |h|
    ensures h[0].val <= h[i].val
    decreases i
  {
    if i > 0 { FrontIsLeast(h, Parent(i)); }
  }

  function Swap(h: seq<Item>, i: nat, j: nat): seq<Item>
    requires i < |h| && j < |h|
  {
    h[i := h[j]][j := h[i]]
  }

  lemma SwapKeeps(h: seq<Item>, i: nat, j: nat)
    requires i < |h| && j < |h|
    ensures Items(Swap(h, i, j)) == Items(h)
    ensures OneEach(h) ==> OneEach(Swap(h, i, j))
  {
    var k := Swap(h, i, j);
    assert forall a :: 0 <= a < |h| ==> k[a] == h[if a == i then j else if a == j then i else a];
    assert forall a :: 0 <= a < |h| ==> h[a] == k[if a == i then j else if a == j then i else a];
    forall x | x in h ensures x in k {
      var a :| 0 <= a < |h| && h[a] == x;
      assert k[if a == i then j else if a == j then i else a] == x;
    }
  }

  /** Moving a too small item up moves the trouble up. */
  lemma SwapUp(h: seq<Item>, pos: nat)
    requires 0 < pos < |h| && TooSmallAt(h, pos) && h[Parent(pos)].val > h[pos].val
    ensures TooSmallAt(Swap(h, pos, Parent(pos)), Parent(pos))
  {
    var p := Parent(pos);
    var k := Swap(h, pos, p);
    forall i | 0 < i < |k| && i != p ensures k[Parent(i)].val <= k[i].val {
      if Parent(i) == pos { assert h[p].val <= h[i].val; }
    }
    if p > 0 {
      forall i | 0 < i < |k| && Parent(i) == p ensures k[Parent(p)].val <= k[i].val {
        assert h[Parent(p)].val <= h[p].val;
      }
    }
  }

  /** Moving a too big item down to its smallest child moves the trouble down. */
  lemma SwapDown(h: seq<Item>, pos: nat, c: nat)
    requires pos < |h| && 0 < c < |h| && Parent(c) == pos && TooBigAt(h, pos)
    requires h[c].val < h[pos].val && forall i :: 0 < i < |h| && Parent(i) == pos ==> h[c].val <= h[i].val
    ensures TooBigAt(Swap(h, pos, c), c)
  {
    var k := Swap(h, pos, c);
    forall i | 0 < i < |k| && Parent(i) != c ensures k[Parent(i)].val <= k[i].val {
      if i == pos { assert h[Parent(pos)].val <= h[c].val; }
    }
    forall i | 0 < i < |k| && Parent(i) == c ensures k[Parent(c)].val <= k[i].val {
      assert h[c].val <= h[i].val;
    }
  }

  lemma NoneSmaller(h: seq<Item>, pos: nat)
    requires pos < |h| && TooBigAt(h, pos) && forall i :: 0 < i < |h| && Parent(i) == pos ==> h[pos].val <= h[i].val
    ensures Ordered(h)
  {
  }

  /** Every entry knows its place, except the one at `pos`. */
  ghost predicate PlacedBut(h: seq<Item>, pos: nat)
    reads Refs(h)`heap_idx
  {
    forall i :: 0 <= i < |h| && i != pos ==> h[i].ref.heap_idx == i
  }

  ghost predicate Placed(h: seq<Item>)
    reads Refs(h)`heap_idx
  {
    forall i :: 0 <= i < |h| ==> h[i].ref.heap_idx == i
  }

  lemma RefsOfItems(h: seq<Item>, k: seq<Item>)
    requires Items(h) == Items(k)
    ensures Refs(h) == Refs(k)
  {
    assert forall x :: x in h <==> x in Items(h);
    assert forall x :: x in k <==> x in Items(k);
  }

  /** One turn of heap_bubble_up or heap_bubble_down: the item at `other` moves to the hole. */
  method MoveInto(h: seq<Item>, pos: nat, other: nat, item: Item, ghost v: seq<Item>) returns (k: seq<Item>)
    requires pos < |h| && other < |h| && pos != other && v == h[pos := item] && OneEach(v) && PlacedBut(v, pos)
    modifies Refs(v)`heap_idx
    ensures |k| == |h| && k[other := item] == Swap(v, pos, other)
    ensures PlacedBut(Swap(v, pos, other), other) && OneEach(Swap(v, pos, other))
    ensures Items(Swap(v, pos, other)) == Items(v)
  {
    k := h[pos := h[other]];
    assert v[other] in v && v[other] == k[pos];
    k[pos].ref.heap_idx := pos;
    SwapKeeps(v, pos, other);
    assert forall i :: 0 <= i < |v| ==> v[i] in v;
  }

  /** The end of both: the item goes into the hole. */
  method FillHole(h: seq<Item>, pos: nat, item: Item) returns (k: seq<Item>)
    requires pos < |h| && OneEach(h[pos := item]) && PlacedBut(h[pos := item], pos)
    modifies item.ref`heap_idx
    ensures k == h[pos := item] && Placed(k)
  {
    k := h[pos := item];
    assert k[pos] in k;
    k[pos].ref.heap_idx := pos;
  }

  /** The abstract value: a deadline for each entry that has a timer. */
  ghost function Deadlines(h: seq<Item>): map<Entry, nat> {
    map e | e in Refs(h) :: var x :| x in h && x.ref == e; x.val
  }

  lemma DeadlineOf(h: seq<Item>, x: Item)
    requires OneEach(h) && x in h
    ensures x.ref in Deadlines(h) && Deadlines(h)[x.ref] == x.val
  {
    assert x.ref in Refs(h);
    var y :| y in h && y.ref == x.ref && y.val == Deadlines(h)[x.ref];
    var i :| 0 <= i < |h| && h[i] == x;
    var j :| 0 <= j < |h| && h[j] == y;
  }

  /** The timers of other entries than `e` are the same in `h` and in `k`. */
  lemma DeadlinesElsewhere(h: seq<Item>, k: seq<Item>, e: Entry, f: Entry)
    requires OneEach(h) && OneEach(k) && f != e
    requires forall x :: x in h && x.ref != e ==> x in k
    ensures f in Deadlines(h) ==> f in Deadlines(k) && Deadlines(k)[f] == Deadlines(h)[f]
  {
    if f in Deadlines(h) {
      var x :| x in h && x.ref == f;
      DeadlineOf(h, x);
      DeadlineOf(k, x);
    }
  }

  /** `k` has the timers of `h` without that of `e`, and with the items `more`. */
  lemma DeadlinesChange(h: seq<Item>, k: seq<Item>, e: Entry, more: set<Item>)
    requires OneEach(h) && OneEach(k) && (forall x <- more :: x.ref == e)
    requires forall x :: x in k <==> (x in h && x.ref != e) || x in more
    ensures more == {} ==> Deadlines(k) == Deadlines(h) - {e}
    ensures forall d :: more == {Item(d, e)} ==> Deadlines(k) == Deadlines(h)[e := d]
  {
    var dh, dk := Deadlines(h), Deadlines(k);
    forall f | f != e ensures f in dh <==> f in dk {
      DeadlinesElsewhere(h, k, e, f);
      DeadlinesElsewhere(k, h, e, f);
    }
    forall f | f in dh && f != e ensures dk[f] == dh[f] { DeadlinesElsewhere(h, k, e, f); }
    forall x | x in more ensures e in dk && dk[e] == x.val { DeadlineOf(k, x); }
    if more == {} { assert dk == dh - {e}; }
    forall d | more == {Item(d, e)} ensures dk == dh[e := d] {
      assert Item(d, e) in more;
    }
  }

  /** Overwriting a position with the last item and dropping the last position. */
  ghost function Erased(h: seq<Item>, pos: nat): seq<Item>
    requires pos < |h|
  {
    h[pos := h[|h| - 1]][..|h| - 1]
  }

  lemma ErasedItems(h: seq<Item>, pos: nat)
    requires pos < |h| && OneEach(h)
    ensures var k := Erased(h, pos); OneEach(k) && forall x :: x in k <==> x in h && x.ref != h[pos].ref
  {
    var k, n := Erased(h, pos), |h| - 1;
    assert forall i :: 0 <= i < n ==> k[i] == if i == pos then h[n] else h[i];
    forall x | x in h && x.ref != h[pos].ref ensures x in k {
      var i :| 0 <= i < |h| && h[i] == x;
      assert k[if i == n then pos else i] == x;
    }
  }

  lemma ErasedOrder(h: seq<Item>, pos: nat)
    requires pos < |h| && Ordered(h)
    ensures var k := Erased(h, pos); if pos < |k| then AnyAt(k, pos) else Ordered(k)
  {
    var k, n := Erased(h, pos), |h| - 1;
    assert forall i :: 0 <= i < n ==> k[i] == if i == pos then h[n] else h[i];
    if 0 < pos < n {
      forall i | 0 < i < n && Parent(i) == pos ensures k[Parent(pos)].val <= k[i].val {
        assert h[Parent(pos)].val <= h[pos].val <= h[i].val;
      }
    }
  }

  lemma ErasedPlaces(h: seq<Item>, pos: nat)
    requires pos < |h| && Placed(h)
    ensures var k := Erased(h, pos); Refs(k) <= Refs(h) && if pos < |k| then PlacedBut(k, pos) else Placed(k)
  {
    var k, n := Erased(h, pos), |h| - 1;
    assert forall i :: 0 <= i < n ==> k[i] == (if i == pos then h[n] else h[i]) && k[i] in h;
  }

  /** `k` is `h` with `item` at position `pos`, which may be one past the end. */
  ghost predicate Changed(h: seq<Item>, k: seq<Item>, pos: nat, item: Item) {
    && pos <= |h| && |k| == (if pos < |h| then |h| else |h| + 1)
    && (forall i :: 0 <= i < |k| ==> k[i] == if i == pos then item else h[i])
    && (if pos < |h| then h[pos].ref == item.ref else item.ref !in Refs(h))
  }

  lemma ChangedOrder(h: seq<Item>, k: seq<Item>, pos: nat, item: Item)
    requires Ordered(h) && Changed(h, k, pos, item)
    ensures AnyAt(k, pos)
  {
    if 0 < pos {
      forall i | 0 < i < |k| && Parent(i) == pos ensures k[Parent(pos)].val <= k[i].val {
        assert h[Parent(pos)].val <= h[pos].val <= h[i].val;
      }
    }
  }

  lemma ChangedItems(h: seq<Item>, k: seq<Item>, pos: nat, item: Item)
    requires OneEach(h) && Changed(h, k, pos, item)
    ensures OneEach(k) && forall x :: x in k <==> (x in h && x.ref != item.ref) || x in {item}
  {
    assert forall i :: 0 <= i < |h| ==> h[i] in h && h[i].ref in Refs(h);
    forall x | x in h && x.ref != item.ref ensures x in k {
      var i :| 0 <= i < |h| && h[i] == x;
      assert k[i] == x;
    }
    forall x | x in k && x != item ensures x in h && x.ref != item.ref {
      var i :| 0 <= i < |k| && k[i] == x;
      assert h[i] == x;
    }
    assert k[pos] == item;
  }

  lemma Rearranged(k: seq<Item>, h: seq<Item>, item: Item, i: int)
    requires Items(k) == Items(h) && item in k && OneEach(h)
    requires forall j :: 0 <= j < |h| && h[j].ref == item.ref ==> i == j
    ensures (forall x :: x in h <==> x in k) && 0 <= i < |h| && h[i] == item
  {
    assert forall x :: x in h <==> x in Items(h);
    assert forall x :: x in k <==> x in Items(k);
    var j :| 0 <= j < |h| && h[j] == item;
  }

  class Timers {
    var heap: seq<Item>

    ghost predicate Valid()
      reads this, Refs(heap)`heap_idx
    {
      Ordered(heap) && OneEach(heap) && Placed(heap)
    }

    /** An entry knows whether it has a timer, and where. */
    ghost predicate Tracks(e: Entry)
      reads this, e`heap_idx
    {
      if e.heap_idx == -1 then e !in Refs(heap) else 0 <= e.heap_idx < |heap| && heap[e.heap_idx].ref == e
    }

    constructor ()
      ensures Valid() && heap == []
    {
      heap := [];
    }

    /** One turn of heap_bubble_up: `item`, which belongs at `pos`, goes above its parent. */
    method Rise(pos: nat, item: Item, ghost v: seq<Item>)
      requires 0 < pos < |heap| && v == heap[pos := item] && OneEach(v) && TooSmallAt(v, pos) && PlacedBut(v, pos)
      requires v[Parent(pos)].val > v[pos].val
      modifies this`heap, Refs(v)`heap_idx
      ensures var p := Parent(pos);
              |heap| == |v| && heap[p := item] == Swap(v, pos, p) && Items(Swap(v, pos, p)) == Items(v)
      ensures var w, p := Swap(v, pos, Parent(pos)), Parent(pos); OneEach(w) && TooSmallAt(w, p) && PlacedBut(w, p)
    {
      SwapUp(v, pos);
      var k := MoveInto(heap, pos, Parent(pos), item, v);
      heap := k;
    }

    /** heap_bubble_up */
    method BubbleUp(start: nat)
      requires start < |heap| && OneEach(heap) && TooSmallAt(heap, start) && PlacedBut(heap, start)
      modifies this`heap, Refs(heap)`heap_idx
      ensures Ordered(heap) && OneEach(heap) && Placed(heap) && Items(heap) == old(Items(heap)) && |heap| == old(|heap|)
    {
      var pos := start;
      var item := heap[pos];
      ghost var v := heap;
      while pos > 0 && heap[Parent(pos)].val > item.val
        invariant 0 <= pos < |heap| && v == heap[pos := item] && OneEach(v) && TooSmallAt(v, pos) && PlacedBut(v, pos)
        invariant Items(v) == old(Items(heap)) && |heap| == old(|heap|)
      {
        RefsOfItems(v, old(heap));
        Rise(pos, item, v);
        v := Swap(v, pos, Parent(pos));
        pos := Parent(pos);
      }
      RefsOfItems(v, old(heap));
      assert v[pos] in v;
      var k := FillHole(heap, pos, item);
      heap := k;
    }

    /** One turn of heap_bubble_down: `item`, which belongs at `pos`, goes below child `c`. */
    method Sink(pos: nat, c: nat, item: Item, ghost v: seq<Item>)
      requires pos < |heap| && v == heap[pos := item] && OneEach(v) && TooBigAt(v, pos) && PlacedBut(v, pos)
      requires 0 < c < |heap| && Parent(c) == pos && v[c].val < v[pos].val
      requires forall i :: 0 < i < |v| && Parent(i) == pos ==> v[c].val <= v[i].val
      modifies this`heap, Refs(v)`heap_idx
      ensures |heap| == |v| && heap[c := item] == Swap(v, pos, c) && Items(Swap(v, pos, c)) == Items(v)
      ensures OneEach(Swap(v, pos, c)) && TooBigAt(Swap(v, pos, c), c) && PlacedBut(Swap(v, pos, c), c)
    {
      SwapDown(v, pos, c);
      var k := MoveInto(heap, pos, c, item, v);
      heap := k;
    }

    /** The same, if there is a smaller child to go below. */
    method SinkOrStay(pos: nat, item: Item, ghost v: seq<Item>) returns (c: int)
      requires pos < |heap| && v == heap[pos := item] && OneEach(v) && TooBigAt(v, pos) && PlacedBut(v, pos)
      modifies this`heap, Refs(v)`heap_idx
      ensures |heap| == |v|
      ensures c == -1 ==> heap == old(heap) && Ordered(v) && PlacedBut(v, pos)
      ensures c != -1 ==> pos < c < |v| && heap[c := item] == Swap(v, pos, c) && Items(Swap(v, pos, c)) == Items(v)
      ensures c != -1 ==> OneEach(Swap(v, pos, c)) && TooBigAt(Swap(v, pos, c), c) && PlacedBut(Swap(v, pos, c), c)
    {
      c := SmallestChild(heap, pos, item.val);
      if c == -1 {
        NoneSmaller(v, pos);
      } else {
        Sink(pos, c, item, v);
      }
    }

    /** heap_bubble_down */
    method BubbleDown(start: nat)
      requires start < |heap| && OneEach(heap) && TooBigAt(heap, start) && PlacedBut(heap, start)
      modifies this`heap, Refs(heap)`heap_idx
      ensures Ordered(heap) && OneEach(heap) && Placed(heap) && Items(heap) == old(Items(heap)) && |heap| == old(|heap|)
    {
      var pos := start;
      var item := heap[pos];
      ghost var v := heap;
      while true
        invariant 0 <= pos < |heap| && v == heap[pos := item] && OneEach(v) && TooBigAt(v, pos) && PlacedBut(v, pos)
        invariant Items(v) == old(Items(heap)) && |heap| == old(|heap|)
        decreases |heap| - pos
      {
        RefsOfItems(v, old(heap));
        var min_pos := SinkOrStay(pos, item, v);
        if min_pos == -1 {
          break;
        }
        v := Swap(v, pos, min_pos);
        pos := min_pos;
      }
      RefsOfItems(v, old(heap));
      assert v[pos] in v;
      var k := FillHole(heap, pos, item);
      heap := k;
    }

    /** heap_update */
    method HeapUpdate(pos: nat)
      requires pos < |heap| && OneEach(heap) && AnyAt(heap, pos) && PlacedBut(heap, pos)
      modifies this`heap, Refs(heap)`heap_idx
      ensures Valid() && Items(heap) == old(Items(heap)) && |heap| == old(|heap|)
    {
      if pos > 0 && heap[Parent(pos)].val > heap[pos].val {
        BubbleUp(pos);
      } else {
        BubbleDown(pos);
      }
    }

    /** The last item takes the place of the one at `pos`, and finds its place from there. */
    method Shrink(pos: nat)
      requires Valid() && pos < |heap|
      modifies this`heap, Refs(heap)`heap_idx
      ensures Valid() && forall x :: x in Items(heap) <==> x in old(heap) && x.ref != old(heap)[pos].ref
    {
      ErasedItems(heap, pos);
      ErasedOrder(heap, pos);
      ErasedPlaces(heap, pos);
      ghost var k := Erased(heap, pos);
      DropItem(pos);
      if pos < |heap| {
        HeapUpdate(pos);
      }
      assert Items(heap) == Items(k);
    }

    method DropItem(pos: nat)
      requires pos < |heap|
      modifies this`heap
      ensures heap == Erased(old(heap), pos)
    {
      heap := heap[pos := heap[|heap| - 1]];
      heap := heap[..|heap| - 1];
    }

    /** entry_set_ttl with a negative time, for an entry that has a timer. */
    method Erase(ent: Entry)
      requires Valid() && Tracks(ent) && ent.heap_idx != -1
      modifies this`heap, Refs(heap)`heap_idx
      ensures Valid() && Tracks(ent) && ent.heap_idx == -1
      ensures forall x :: x in heap <==> x in old(heap) && x.ref != ent
    {
      assert heap[ent.heap_idx] in heap;
      Shrink(ent.heap_idx);
      assert forall x :: x in heap <==> x in Items(heap);
      ent.heap_idx := -1;
    }

    /** entry_set_ttl with a time that is not negative: a new timer, or a new deadline. */
    method Arm(ent: Entry, deadline: nat)
      requires Valid() && Tracks(ent)
      modifies this`heap, Refs(heap)`heap_idx, ent`heap_idx
      ensures Valid() && Tracks(ent)
      ensures forall x :: x in heap <==> (x in old(heap) && x.ref != ent) || x in {Item(deadline, ent)}
    {
      ghost var h := heap;
      var pos := ent.heap_idx;
      if pos == -1 {
        heap := heap + [Item(0, ent)];
        pos := |heap| - 1;
      }
      heap := heap[pos := Item(deadline, ent)];
      ChangedOrder(h, heap, pos, Item(deadline, ent));
      ChangedItems(h, heap, pos, Item(deadline, ent));
      ghost var k := heap;
      assert Refs(heap) <= Refs(h) + {ent};
      HeapUpdate(pos);
      Rearranged(k, heap, Item(deadline, ent), ent.heap_idx);
    }

    /** entry_set_ttl: as a map from entries to deadlines, one entry is removed, set, or (when
        there is nothing to remove) nothing happens. */
    method SetTtl(ent: Entry, ttl_ms: int, now_us: nat, ghost others: set<Entry>)
      requires Valid() && Tracks(ent) && forall e <- others :: Tracks(e)
      modifies this`heap, Refs(heap)`heap_idx, ent`heap_idx
      ensures Valid() && Tracks(ent) && (forall e <- others :: Tracks(e)) && (ttl_ms < 0 ==> ent.heap_idx == -1)
      ensures Deadlines(heap) ==
        if ttl_ms < 0 then old(Deadlines(heap)) - {ent} else old(Deadlines(heap))[ent := now_us + ttl_ms * 1000]
      ensures Refs(heap) == if ttl_ms < 0 then old(Refs(heap)) - {ent} else old(Refs(heap)) + {ent}
    {
      Retime(ent, ttl_ms, now_us);
      forall e | e in others ensures Tracks(e) { Settled(e); }
    }

    /** The same for the entry alone. */
    method Retime(ent: Entry, ttl_ms: int, now_us: nat)
      requires Valid() && Tracks(ent)
      modifies this`heap, Refs(heap)`heap_idx, ent`heap_idx
      ensures Valid() && Tracks(ent) && (ttl_ms < 0 ==> ent.heap_idx == -1)
      ensures Deadlines(heap) ==
        if ttl_ms < 0 then old(Deadlines(heap)) - {ent} else old(Deadlines(heap))[ent := now_us + ttl_ms * 1000]
      ensures Refs(heap) == if ttl_ms < 0 then old(Refs(heap)) - {ent} else old(Refs(heap)) + {ent}
    {
      ghost var h := heap;
      if ttl_ms < 0 && ent.heap_idx != -1 {
        Erase(ent);
        DeadlinesChange(h, heap, ent, {});
      } else if ttl_ms >= 0 {
        Arm(ent, now_us + ttl_ms * 1000);
        DeadlinesChange(h, heap, ent, {Item(now_us + ttl_ms * 1000, ent)});
      }
      assert Refs(heap) == Deadlines(heap).Keys && Refs(h) == Deadlines(h).Keys;
    }

    /** In a valid heap, an entry with a timer knows where it is. */
    lemma Settled(e: Entry)
      requires Valid()
      ensures e in Refs(heap) ==> Tracks(e)
    {
      if e in Refs(heap) {
        var x :| x in heap && x.ref == e;
        var i :| 0 <= i < |heap| && heap[i] == x;
      }
    }
  }

  /** The comparison of heap_bubble_down: the smaller child, if it is below `val`, else -1. */
  method SmallestChild(h: seq<Item>, pos: nat, val: nat) returns (min_pos: int)
    requires pos < |h|
    ensures min_pos == -1 ==> forall i :: 0 < i < |h| && Parent(i) == pos ==> val <= h[i].val
    ensures min_pos != -1 ==> pos < min_pos < |h| && Parent(min_pos) == pos && h[min_pos].val < val
    ensures min_pos != -1 ==> forall i :: 0 < i < |h| && Parent(i) == pos ==> h[min_pos].val <= h[i].val
  {
    var l, r := LeftChild(pos), RightChild(pos);
    min_pos := -1;
    var min_val := val;
    if l < |h| && h[l].val < min_val {
      min_pos, min_val := l, h[l].val;
    }
    if r < |h| && h[r].val < min_val {
      min_pos := r;
    }
    assert forall i :: 0 < i < |h| && Parent(i) == pos ==> i == l || i == r;
  }
}
