/** The key space of src/server.cpp: the hash map of entries, the TTL heap and the queue of
    entries waiting to be destroyed, which must agree with each other. */
module Database {
  import opened Keys
  import opened TtlHeap
  import HashTable
  import HashMap
  import opened Migration
  import opened SetMachine

  type HNode = HashTable.HNode<Entry>

  const K_LARGE_CONTAINER_SIZE: nat := 10000
  const K_MAX_WORKS: nat := 2000

  ghost function KeyOf(h: HNode): Bytes {
    h.item.key
  }

  ghost function Containers(s: set<HNode>): set<Entry> {
    set h | h in s :: h.item
  }

  /** One node for each entry, under the hash of its key; no key twice. */
  ghost predicate Indexed(hs: set<HNode>, es: set<Entry>) {
    && Containers(hs) == es
    && (forall h <- hs :: h.hcode == StrHash(h.item.key))
    && (forall h <- hs, g <- hs :: h.item == g.item ==> h == g)
    && UniqueKeys(es)
  }

  /** No two nodes of the index have the same key. */
  lemma OneOfKey(hs: set<HNode>, es: set<Entry>, x: HNode)
    requires Indexed(hs, es) && x in hs
    ensures forall n <- hs :: KeyOf(n) == KeyOf(x) ==> n == x
  {
    forall n | n in hs && KeyOf(n) == KeyOf(x) ensures n == x {
      assert n.item in Containers(hs) && x.item in Containers(hs);
    }
  }

  lemma IndexedAdd(hs: set<HNode>, es: set<Entry>, h: HNode)
    requires Indexed(hs, es) && h.hcode == StrHash(h.item.key) && forall e <- es :: e.key != h.item.key
    ensures Indexed(hs + {h}, es + {h.item})
  {
    assert Containers(hs + {h}) == Containers(hs) + {h.item};
    assert forall g <- hs :: g.item in Containers(hs);
  }

  lemma IndexedRemove(hs: set<HNode>, es: set<Entry>, h: HNode)
    requires Indexed(hs, es) && h in hs
    ensures h.item in es && Indexed(hs - {h}, es - {h.item})
  {
    assert h.item in Containers(hs);
    forall x | x in es && x != h.item ensures x in Containers(hs - {h}) {
      var g :| g in hs && g.item == x;
      assert g in hs - {h};
    }
    assert Containers(hs - {h}) == es - {h.item};
  }

  /** entry_eq */
  predicate EntryEq(node: HNode, hcode: nat, key: Bytes) {
    node.hcode == hcode && node.item.key == key
  }

  /** hnode_same, with the node that `entry` contains */
  predicate HNodeSame(node: HNode, entry: Entry) {
    node.item == entry
  }

  ghost predicate UniqueKeys(es: set<Entry>) {
    forall e <- es, f <- es :: e.key == f.key ==> e == f
  }

  ghost function KeysOf(es: set<Entry>): set<Bytes> {
    set e | e in es :: e.key
  }

  /** What a key holds: a string, and a sorted set if it was created for one. */
  datatype Content = Content(str: Bytes, zset: Option<SetValue>)

  ghost function ContentOf(e: Entry): Content
    reads e`val, e`zset
  {
    Content(e.val, if e.isZset then Some(e.zset) else None)
  }

  ghost function Data(es: set<Entry>): map<Bytes, Content>
    reads es`val, es`zset
  {
    map k | k in KeysOf(es) :: var e :| e in es && e.key == k; ContentOf(e)
  }

  lemma DataAt(es: set<Entry>, e: Entry)
    requires UniqueKeys(es) && e in es
    ensures e.key in Data(es) && Data(es)[e.key] == ContentOf(e)
  {
  }

  lemma DataIs(es: set<Entry>, m: map<Bytes, Content>)
    requires UniqueKeys(es) && m.Keys == KeysOf(es) && forall e <- es :: m[e.key] == ContentOf(e)
    ensures Data(es) == m
  {
    forall k | k in m ensures Data(es)[k] == m[k] {
      var e :| e in es && e.key == k;
      DataAt(es, e);
    }
  }

  /** Entries that leave take their keys with them, and nothing else changes. */
  lemma DataMinus(es: set<Entry>, out: set<Entry>)
    requires UniqueKeys(es) && out <= es
    ensures Data(es - out) == Data(es) - KeysOf(out)
  {
    var m := Data(es) - KeysOf(out);
    forall e | e in es - out ensures e.key in m && m[e.key] == ContentOf(e) {
      DataAt(es, e);
      assert e.key !in KeysOf(out);
    }
    assert m.Keys == KeysOf(es - out);
    DataIs(es - out, m);
  }

  ghost function Elems(s: seq<Entry>): set<Entry> {
    set e | e in s
  }

  /** A pass over the timers `d0` removed `removed`, in nondecreasing order of deadline, all of
      them due, and left none that is due earlier than one removed. */
  ghost predicate PassSoFar(d0: map<Entry, nat>, d: map<Entry, nat>, removed: seq<Entry>, now_us: nat) {
    && d == d0 - Elems(removed)
    && (forall e <- removed :: e in d0 && d0[e] < now_us)
    && (forall i, j :: 0 <= i < j < |removed| ==> removed[i] != removed[j] && d0[removed[i]] <= d0[removed[j]])
    && (forall e <- removed, f <- d.Keys :: d0[e] <= d[f])
  }

  lemma PassStep(d0: map<Entry, nat>, d: map<Entry, nat>, removed: seq<Entry>, now_us: nat, e: Entry)
    requires PassSoFar(d0, d, removed, now_us) && e in d && d[e] < now_us && forall f <- d.Keys :: d[e] <= d[f]
    ensures PassSoFar(d0, d - {e}, removed + [e], now_us)
  {
    var r := removed + [e];
    assert Elems(r) == Elems(removed) + {e};
    forall i, j | 0 <= i < j < |r| ensures r[i] != r[j] && d0[r[i]] <= d0[r[j]] {
      assert r[i] in removed;
      if j == |removed| { assert r[i] in Elems(removed); }
    }
  }

  /** The deadlines by key. */
  ghost function ByKey(d: map<Entry, nat>): map<Bytes, nat> {
    map k | k in KeysOf(d.Keys) :: var e :| e in d && e.key == k; d[e]
  }

  lemma ByKeyAt(d: map<Entry, nat>, e: Entry)
    requires UniqueKeys(d.Keys) && e in d
    ensures e.key in ByKey(d) && ByKey(d)[e.key] == d[e]
  {
  }

  lemma ByKeyIs(d: map<Entry, nat>, m: map<Bytes, nat>)
    requires UniqueKeys(d.Keys) && m.Keys == KeysOf(d.Keys) && forall e <- d.Keys :: m[e.key] == d[e]
    ensures ByKey(d) == m
  {
    forall k | k in m ensures ByKey(d)[k] == m[k] {
      var e :| e in d && e.key == k;
      ByKeyAt(d, e);
    }
  }

  lemma ByKeySet(d: map<Entry, nat>, e: Entry, t: nat)
    requires UniqueKeys(d.Keys + {e})
    ensures ByKey(d[e := t]) == ByKey(d)[e.key := t]
  {
    var m := ByKey(d)[e.key := t];
    assert d[e := t].Keys == d.Keys + {e} && KeysOf(d.Keys + {e}) == KeysOf(d.Keys) + {e.key};
    forall f | f in d && f != e ensures m[f.key] == d[f] { ByKeyAt(d, f); }
    ByKeyIs(d[e := t], m);
  }

  lemma ByKeyMinus(d: map<Entry, nat>, out: set<Entry>)
    requires UniqueKeys(d.Keys + out)
    ensures ByKey(d - out) == ByKey(d) - KeysOf(out)
  {
    var m := ByKey(d) - KeysOf(out);
    forall f | f in d - out ensures f.key in m && m[f.key] == d[f] {
      ByKeyAt(d, f);
      assert f.key !in KeysOf(out);
    }
    assert m.Keys == KeysOf((d - out).Keys);
    ByKeyIs(d - out, m);
  }

  /** The deadlines by key when the entry of `key`, if there is one, loses its timer */
  lemma DueWithout(d0: map<Entry, nat>, d: map<Entry, nat>, es: set<Entry>, entry: Entry?, key: Bytes)
    requires UniqueKeys(es) && d0.Keys <= es
    requires if entry == null then key !in KeysOf(es) && d == d0
             else entry in es && entry.key == key && d == d0 - {entry}
    ensures ByKey(d) == ByKey(d0) - {key}
  {
    if entry != null {
      ByKeyMinus(d0, {entry});
      assert KeysOf({entry}) == {key};
    }
  }

  /** do_expire on the deadlines of `keys` */
  ghost function Rescheduled(due: map<Bytes, nat>, keys: set<Bytes>, key: Bytes, ttl_ms: int, now_us: nat)
    : map<Bytes, nat>
  {
    if key !in keys then due
    else if ttl_ms < 0 then due - {key}
    else due[key := now_us + ttl_ms * 1000]
  }

  /** and when it gets, changes or loses one by do_expire. */
  lemma DueExpire(
      d0: map<Entry, nat>, d: map<Entry, nat>, es: set<Entry>, entry: Entry?, key: Bytes, ttl_ms: int, now_us: nat)
    requires UniqueKeys(es) && d0.Keys <= es
    requires if entry == null then key !in KeysOf(es) && d == d0 else entry in es && entry.key == key
    requires entry != null ==> d == if ttl_ms < 0 then d0 - {entry} else d0[entry := now_us + ttl_ms * 1000]
    ensures ByKey(d) == Rescheduled(ByKey(d0), KeysOf(es), key, ttl_ms, now_us)
  {
    if entry != null {
      assert key in KeysOf(es);
      if ttl_ms < 0 {
        DueWithout(d0, d, es, entry, key);
      } else {
        assert d0.Keys + {entry} <= es;
        ByKeySet(d0, entry, now_us + ttl_ms * 1000);
      }
    }
  }

  lemma NewKey(es: set<Entry>, key: Bytes)
    requires key !in KeysOf(es)
    ensures forall e <- es :: e.key != key
  {
  }

  // ----- what the operations do to the data -----

  /** do_set: the string under the key; what else the key holds stays. */
  function Stored(data: map<Bytes, Content>, key: Bytes, val: Bytes): map<Bytes, Content> {
    data[key := Content(val, if key in data then data[key].zset else None)]
  }

  /** do_zadd before it adds: a key that is not there gets an empty set. */
  function Opened(data: map<Bytes, Content>, key: Bytes): map<Bytes, Content> {
    if key in data then data else data[key := Content([], Some(NO_NAMES))]
  }

  /** The set that do_zadd, do_zrem or do_zscore works on, if the key has or gets one. */
  function Target(data: map<Bytes, Content>, key: Bytes, op: SetMachine.Op): Option<SetValue> {
    if key in data then data[key].zset else if op.Add? then Some(NO_NAMES) else None
  }

  /** do_zadd, do_zrem and do_zscore */
  function SetChanged(data: map<Bytes, Content>, key: Bytes, op: SetMachine.Op): map<Bytes, Content> {
    match Target(data, key, op)
    case None => data
    case Some(v) => data[key := Content(if key in data then data[key].str else [], Some(SetAfter(v, op)))]
  }

  /** The same in two halves. */
  lemma ReachedThenChanged(data: map<Bytes, Content>, mid: map<Bytes, Content>, key: Bytes, op: SetMachine.Op)
    requires mid == if op.Add? then Opened(data, key) else data
    ensures Target(data, key, op) == if key in mid then mid[key].zset else None
    ensures SetChanged(data, key, op) ==
      if key in mid && mid[key].zset.Some? then
        mid[key := Content(mid[key].str, Some(SetAfter(mid[key].zset.value, op)))]
      else mid
  {
  }

  // ----- when the operations return, with the migration loop as written -----

  /** do_zadd, do_zrem and do_zscore return: from the index of the key space, and from that of
      the set. */
  predicate OnSetEnds(s: Tables<Bytes>, data: map<Bytes, Content>, key: Bytes, op: SetMachine.Op) {
    && (if op.Add? then BindEnds(s, data, key) else Ends(s))
    && var v := Target(data, key, op); v.Some? ==> SetEnds(v.value, op)
  }

  function OnSetTables(s: Tables<Bytes>, data: map<Bytes, Content>, key: Bytes, op: SetMachine.Op): Tables<Bytes> {
    if op.Add? then Bound(s, data, key) else Helped(s, StrHash)
  }

  /** do_set and do_zadd on a key space with tables `s` that holds `data`. */
  predicate BindEnds(s: Tables<Bytes>, data: map<Bytes, Content>, key: Bytes) {
    Ends(s) && (key in data || InsertEnds(Helped(s, StrHash), key, StrHash))
  }

  function Bound(s: Tables<Bytes>, data: map<Bytes, Content>, key: Bytes): Tables<Bytes> {
    if key in data then Helped(s, StrHash) else Inserted(Helped(s, StrHash), key, StrHash)
  }

  /** do_del */
  ghost function Unbound(s: Tables<Bytes>, data: map<Bytes, Content>, key: Bytes): Tables<Bytes> {
    if key in data then Taken(Helped(s, StrHash), key) else Helped(s, StrHash)
  }

  /** The removal of some keys, one after another. */
  ghost function Swept(s: Tables<Bytes>, keys: seq<Bytes>): Tables<Bytes> {
    if keys == [] then s
    else Taken(Helped(Swept(s, keys[..|keys| - 1]), StrHash), keys[|keys| - 1])
  }

  ghost predicate SweepEnds(s: Tables<Bytes>, keys: seq<Bytes>) {
    forall i :: 0 <= i < |keys| ==> Ends(Swept(s, keys[..i]))
  }

  ghost function KeySeq(es: seq<Entry>): (ks: seq<Bytes>)
    ensures |ks| == |es|
  {
    seq(|es|, i requires 0 <= i < |es| => es[i].key)
  }

  lemma SweepStep(s: Tables<Bytes>, removed: seq<Entry>, e: Entry)
    requires SweepEnds(s, KeySeq(removed)) && Ends(Swept(s, KeySeq(removed)))
    ensures SweepEnds(s, KeySeq(removed + [e]))
    ensures Swept(s, KeySeq(removed + [e])) == Taken(Helped(Swept(s, KeySeq(removed)), StrHash), e.key)
  {
    var ks, more := KeySeq(removed), KeySeq(removed + [e]);
    assert more[..|ks|] == ks && more[|ks|] == e.key;
    forall i | 0 <= i < |more| ensures Ends(Swept(s, more[..i])) {
      assert i < |ks| ==> more[..i] == ks[..i];
    }
  }

  lemma LeastFirst(h: seq<Item>)
    requires h != [] && Ordered(h) && OneEach(h)
    ensures h[0].ref in Deadlines(h) && Deadlines(h)[h[0].ref] == h[0].val
    ensures forall f <- Deadlines(h).Keys :: h[0].val <= Deadlines(h)[f]
  {
    assert h[0] in h;
    DeadlineOf(h, h[0]);
    forall f | f in Deadlines(h) ensures h[0].val <= Deadlines(h)[f] {
      var x :| x in h && x.ref == f;
      var i :| 0 <= i < |h| && h[i] == x;
      DeadlineOf(h, x);
      FrontIsLeast(h, i);
    }
  }

  class Db {
    const db: HashMap.HMap<Entry>
    const timers: Timers
    /** Jobs for the thread pool: entries to be destroyed asynchronously. */
    var queue: seq<Entry>
    /** The entries in the key space. */
    ghost var entries: set<Entry>
    /** Entries handed to entry_destroy, at once or through the queue. */
    ghost var gone: set<Entry>

    ghost predicate IndexOk(es: set<Entry>)
      reads db, db.to, db.from, db.Repr
    {
      && db.Valid() && (forall s <- {db.Nodes()} :: Indexed(s, es))
      && this !in db.Repr && timers !in db.Repr && es !! db.Repr
    }

    /** Every timer belongs to an entry of the key space, and every entry knows its timer. */
    ghost predicate TimersOk(es: set<Entry>)
      reads timers, Refs(timers.heap)`heap_idx, es`heap_idx
    {
      && (forall t <- {timers} :: t.Valid()) && Refs(timers.heap) <= es
      && forall e <- es :: timers.Tracks(e)
    }

    /** What is to be destroyed is out of reach of the key space (and so of the timers). */
    ghost predicate QueueOk()
      reads this
    {
      && gone !! entries && (forall e <- queue :: e in gone)
      && forall i, j :: 0 <= i < j < |queue| ==> queue[i] != queue[j]
    }

    ghost predicate Valid()
      reads this, timers, db, db.to, db.from, db.Repr, Refs(timers.heap)`heap_idx, entries`heap_idx
    {
      IndexOk(entries) && TimersOk(entries) && QueueOk()
    }

    /** An entry that waits for its destruction is in no table of the key space and has no timer. */
    lemma QueuedIsUnreachable(e: Entry)
      requires Valid() && e in queue
      ensures e !in Refs(timers.heap) && e !in Deadlines(timers.heap)
      ensures forall h <- db.Nodes() :: h.item != e
    {
      assert Indexed(db.Nodes(), entries);
      forall h | h in db.Nodes() ensures h.item != e {
        assert h.item in Containers(db.Nodes());
      }
    }

    constructor (skipsEmpty: bool)
      ensures Valid() && entries == {} && queue == [] && gone == {} && db.skipsEmpty == skipsEmpty
      ensures Held() == Tables([], []) && timers.heap == []
      ensures fresh(db.Repr) && fresh(timers)
    {
      db := new HashMap.HMap<Entry>(skipsEmpty);
      timers := new Timers();
      queue, entries, gone := [], {}, {};
    }

    /** The index as tables of keys. */
    ghost function Held(): Tables<Bytes>
      reads db, db.to, db.from
    {
      Rename(db.Held(), KeyOf)
    }

    /** hm_lookup with entry_eq */
    method Find(key: Bytes) returns (done: bool, entry: Entry?)
      requires IndexOk(entries)
      modifies db.Repr
      ensures done <==> db.skipsEmpty || Ends(old(Held()))
      ensures done && !db.skipsEmpty ==> Held() == Helped(old(Held()), StrHash)
      ensures done ==> IndexOk(entries) && old(db.Repr) <= db.Repr && fresh(db.Repr - old(db.Repr))
      ensures done && entry == null ==> key !in KeysOf(entries)
      ensures done && entry != null ==> entry in entries && entry.key == key
    {
      assert Indexed(db.Nodes(), entries);
      var hcode := StrHash(key);
      ghost var hs := db.Nodes();
      HashMap.KeyedHelped(db.Held(), KeyOf, StrHash);
      var found;
      done, found := db.Lookup(hcode, (h: HNode) => EntryEq(h, hcode, key));
      entry := null;
      if done {
        if found != null {
          entry := found.item;
          assert found.item in Containers(hs);
        } else {
          assert forall e <- entries :: exists h :: h in hs && h.item == e;
        }
      }
    }

    /** hm_insert of a new entry */
    method InsertNew(entry: Entry) returns (done: bool)
      requires IndexOk(entries) && entry.key !in KeysOf(entries)
      requires entry !in db.Repr
      modifies db.Repr
      ensures done <==> db.skipsEmpty || InsertEnds(old(Held()), entry.key, StrHash)
      ensures done && !db.skipsEmpty ==> Held() == Inserted(old(Held()), entry.key, StrHash)
      ensures done ==> IndexOk(entries + {entry}) && old(db.Repr) <= db.Repr && fresh(db.Repr - old(db.Repr))
    {
      assert Indexed(db.Nodes(), entries);
      var h := new HashTable.HNode<Entry>(StrHash(entry.key), entry);
      ghost var hs := db.Nodes();
      HashMap.KeyedInserted(db.Held(), h, KeyOf, StrHash);
      NewKey(entries, entry.key);
      IndexedAdd(hs, entries, h);
      done := db.Insert(h);
    }

    /** do_get: the value under a key, if any */
    method Get(key: Bytes) returns (done: bool, found: bool, val: Bytes)
      requires Valid()
      modifies db.Repr
      ensures done <==> db.skipsEmpty || Ends(old(Held()))
      ensures done && !db.skipsEmpty ==> Held() == Helped(old(Held()), StrHash)
      ensures done ==> Valid() && old(db.Repr) <= db.Repr && fresh(db.Repr - old(db.Repr))
      ensures done ==> Data(entries) == old(Data(entries)) && (found <==> key in Data(entries))
      ensures done && found ==> val == Data(entries)[key].str
    {
      assert UniqueKeys(entries) by { assert Indexed(db.Nodes(), entries); }
      var entry;
      done, entry := Find(key);
      found, val := entry != null, [];
      if done && entry != null {
        val := entry.val;
        DataAt(entries, entry);
      }
    }

    /** do_set on a key that is there */
    method Overwrite(entry: Entry, val: Bytes)
      requires Valid() && entry in entries
      modifies entry`val
      ensures Valid() && Data(entries) == Stored(old(Data(entries)), entry.key, val)
    {
      assert UniqueKeys(entries) by { assert Indexed(db.Nodes(), entries); }
      ghost var m := Stored(Data(entries), entry.key, val);
      forall e | e in entries ensures e.key in m && (e != entry ==> m[e.key] == ContentOf(e)) { DataAt(entries, e); }
      DataAt(entries, entry);
      assert KeysOf(entries) == m.Keys;
      entry.val := val;
      DataIs(entries, m);
    }

    /** A new entry becomes part of the key space. */
    method Admit(entry: Entry)
      requires IndexOk(entries + {entry}) && TimersOk(entries) && QueueOk()
      requires entry !in entries && entry !in gone && entry.heap_idx == -1
      modifies this`entries
      ensures Valid() && entries == old(entries) + {entry}
      ensures Data(entries) == old(Data(entries))[entry.key := ContentOf(entry)]
    {
      assert UniqueKeys(entries + {entry}) by { assert Indexed(db.Nodes(), entries + {entry}); }
      ghost var m := Data(entries)[entry.key := ContentOf(entry)];
      forall e | e in entries ensures e.key in m && m[e.key] == ContentOf(e) { DataAt(entries, e); }
      assert KeysOf(entries + {entry}) == m.Keys;
      entries := entries + {entry};
      DataIs(entries, m);
    }

    /** do_set, or do_zadd, on a key that is not there */
    method Create(key: Bytes, val: Bytes, isZset: bool) returns (done: bool, entry: Entry)
      requires Valid() && key !in KeysOf(entries)
      modifies this`entries, db.Repr
      ensures done <==> db.skipsEmpty || InsertEnds(old(Held()), key, StrHash)
      ensures done && !db.skipsEmpty ==> Held() == Inserted(old(Held()), key, StrHash)
      ensures done ==> Valid() && old(db.Repr) <= db.Repr && fresh(db.Repr - old(db.Repr))
      ensures done ==> fresh(entry) && entries == old(entries) + {entry} && entry.isZset == isZset && entry.key == key
      ensures done ==> Data(entries) == old(Data(entries))[key := Content(val, if isZset then Some(NO_NAMES) else None)]
    {
      ghost var data := Data(entries);
      entry := new Entry(key, val, isZset);
      done := InsertNew(entry);
      if done {
        assert Data(entries) == data;
        Admit(entry);
      }
    }

    /** do_set */
    method Set(key: Bytes, val: Bytes) returns (done: bool)
      requires Valid()
      modifies this`entries, db.Repr, entries`val
      ensures done <==> db.skipsEmpty || BindEnds(old(Held()), old(Data(entries)), key)
      ensures done && !db.skipsEmpty ==> Held() == Bound(old(Held()), old(Data(entries)), key)
      ensures done ==> Valid() && Data(entries) == Stored(old(Data(entries)), key, val)
      ensures done ==> old(db.Repr) <= db.Repr && fresh(db.Repr - old(db.Repr))
      ensures done ==> old(entries) <= entries && fresh(entries - old(entries))
    {
      ghost var r0 := db.Repr;
      var entry;
      done, entry := Find(key);
      ghost var r1 := db.Repr;
      if done {
        if entry != null {
          assert key in KeysOf(entries);
          Overwrite(entry, val);
        } else {
          done, entry := Create(key, val, false);
          assert db.Repr - r0 <= (db.Repr - r1) + (r1 - r0);
        }
      }
    }

    /** The first half of do_zadd: the entry under the key, a new one if there is none. */
    method Ensure(key: Bytes) returns (done: bool, entry: Entry?)
      requires Valid()
      modifies this`entries, db.Repr
      ensures done <==> db.skipsEmpty || BindEnds(old(Held()), old(Data(entries)), key)
      ensures done && !db.skipsEmpty ==> Held() == Bound(old(Held()), old(Data(entries)), key)
      ensures done ==> Valid() && old(db.Repr) <= db.Repr && fresh(db.Repr - old(db.Repr))
      ensures done ==> entry != null && entry in entries && entry.key == key && fresh(entries - old(entries))
      ensures done ==> old(entries) <= entries <= old(entries) + {entry}
      ensures done && entry !in old(entries) ==> entry.isZset && key !in KeysOf(old(entries))
      ensures done ==> Data(entries) == Opened(old(Data(entries)), key)
    {
      ghost var r0, data := db.Repr, Data(entries);
      done, entry := Find(key);
      ghost var r1 := db.Repr;
      if done {
        assert Data(entries) == data;
        if entry == null {
          done, entry := Create(key, [], true);
          assert db.Repr - r0 <= (db.Repr - r1) + (r1 - r0);
        } else {
          assert key in KeysOf(entries);
        }
      }
    }

    /** The set of an entry changes. */
    method Reset(entry: Entry, v: SetValue)
      requires Valid() && entry in entries && entry.isZset
      modifies entry`zset
      ensures Valid() && Held() == old(Held())
      ensures Data(entries) == old(Data(entries))[entry.key := Content(entry.val, Some(v))]
    {
      assert UniqueKeys(entries) by { assert Indexed(db.Nodes(), entries); }
      ghost var m := Data(entries)[entry.key := Content(entry.val, Some(v))];
      forall e | e in entries ensures e.key in m && (e != entry ==> m[e.key] == ContentOf(e)) { DataAt(entries, e); }
      assert KeysOf(entries) == m.Keys;
      entry.zset := v;
      DataIs(entries, m);
    }

    /** The lookup of do_zadd, do_zrem and do_zscore. */
    method Reach(key: Bytes, op: SetMachine.Op) returns (done: bool, entry: Entry?)
      requires Valid()
      modifies this`entries, db.Repr
      ensures done <==>
        db.skipsEmpty || if op.Add? then BindEnds(old(Held()), old(Data(entries)), key) else Ends(old(Held()))
      ensures done && !db.skipsEmpty ==> Held() == OnSetTables(old(Held()), old(Data(entries)), key, op)
      ensures done ==> Valid() && old(db.Repr) <= db.Repr && fresh(db.Repr - old(db.Repr))
      ensures done ==> old(entries) <= entries && fresh(entries - old(entries))
      ensures done ==> Data(entries) == if op.Add? then Opened(old(Data(entries)), key) else old(Data(entries))
      ensures done ==> (entry == null <==> key !in Data(entries))
      ensures done && entry != null ==> entry in entries && entry.key == key && Data(entries)[key] == ContentOf(entry)
    {
      if op.Add? {
        done, entry := Ensure(key);
      } else {
        ghost var data := Data(entries);
        done, entry := Find(key);
        assert done ==> Data(entries) == data;
      }
      if done && entry != null {
        assert UniqueKeys(entries) by { assert Indexed(db.Nodes(), entries); }
        DataAt(entries, entry);
      }
    }

    /** do_zadd, do_zrem and do_zscore past their arguments: a key that holds no set is left alone,
        and so are all other keys. With the loop as written the call returns exactly when the
        index of the key space and that of the set let it. */
    method OnSet(key: Bytes, op: SetMachine.Op) returns (done: bool, was: Option<SetValue>, typeError: bool)
      requires Valid()
      modifies this`entries, db.Repr, entries`zset
      ensures done <==> db.skipsEmpty || OnSetEnds(old(Held()), old(Data(entries)), key, op)
      ensures done && !db.skipsEmpty ==> Held() == OnSetTables(old(Held()), old(Data(entries)), key, op)
      ensures done ==> Valid() && Data(entries) == SetChanged(old(Data(entries)), key, op)
      ensures done ==> old(db.Repr) <= db.Repr && fresh(db.Repr - old(db.Repr))
      ensures done ==> old(entries) <= entries && fresh(entries - old(entries))
      ensures done ==> was == Target(old(Data(entries)), key, op)
      ensures done ==> typeError == (key in old(Data(entries)) && old(Data(entries))[key].zset.None?)
    {
      ghost var data := Data(entries);
      var entry;
      was, typeError := None, false;
      done, entry := Reach(key, op);
      if done {
        ReachedThenChanged(data, Data(entries), key, op);
        typeError := entry != null && !entry.isZset;
        if entry != null && entry.isZset {
          was := Some(entry.zset);
          done := db.skipsEmpty || SetEnds(entry.zset, op);
          if done {
            Reset(entry, SetAfter(entry.zset, op));
          }
        }
      }
    }

    /** do_expire on an entry that was found */
    method SetTtl(entry: Entry, ttl_ms: int, now_us: nat)
      requires Valid() && entry in entries
      modifies timers`heap, entries`heap_idx
      ensures Valid() && Held() == old(Held()) && Data(entries) == old(Data(entries))
      ensures Deadlines(timers.heap) == if ttl_ms < 0 then old(Deadlines(timers.heap)) - {entry}
                                        else old(Deadlines(timers.heap))[entry := now_us + ttl_ms * 1000]
    {
      ghost var data := Data(entries);
      assert timers.Valid();
      timers.SetTtl(entry, ttl_ms, now_us, entries);
      assert Data(entries) == data;
    }

    /** do_expire */
    method Expire(key: Bytes, ttl_ms: int, now_us: nat) returns (done: bool, entry: Entry?)
      requires Valid()
      modifies db.Repr, timers`heap, entries`heap_idx
      ensures done <==> db.skipsEmpty || Ends(old(Held()))
      ensures done && !db.skipsEmpty ==> Held() == Helped(old(Held()), StrHash)
      ensures done ==> Valid() && old(db.Repr) <= db.Repr && fresh(db.Repr - old(db.Repr))
      ensures done ==> Data(entries) == old(Data(entries))
      ensures done && entry == null ==> key !in KeysOf(entries) && timers.heap == old(timers.heap)
      ensures done && entry != null ==> entry in entries && entry.key == key
      ensures done && entry != null ==>
        Deadlines(timers.heap) == if ttl_ms < 0 then old(Deadlines(timers.heap)) - {entry}
                                     else old(Deadlines(timers.heap))[entry := now_us + ttl_ms * 1000]
    {
      done, entry := Find(key);
      if done && entry != null {
        SetTtl(entry, ttl_ms, now_us);
      }
    }

    /** do_ttl: -2 without such a key, -1 without a timer, else the remaining milliseconds */
    method Ttl(key: Bytes, now_us: nat) returns (done: bool, ms: int, ghost entry: Entry?)
      requires Valid()
      modifies db.Repr
      ensures done <==> db.skipsEmpty || Ends(old(Held()))
      ensures done && !db.skipsEmpty ==> Held() == Helped(old(Held()), StrHash)
      ensures done ==> Valid() && old(db.Repr) <= db.Repr && fresh(db.Repr - old(db.Repr))
      ensures done && entry == null ==> ms == -2 && key !in KeysOf(entries)
      ensures done && entry != null ==> entry in entries && entry.key == key
      ensures done && entry != null ==>
        ms == if entry !in Deadlines(timers.heap) then -1
                 else if Deadlines(timers.heap)[entry] > now_us then (Deadlines(timers.heap)[entry] - now_us) / 1000
                 else 0
    {
      var found;
      done, found := Find(key);
      entry, ms := found, -2;
      if done && found != null {
        assert timers.Valid() && timers.Tracks(found);
        if found.heap_idx == -1 {
          return done, -1, found;
        }
        var expire_at := timers.heap[found.heap_idx].val;
        DeadlineOf(timers.heap, timers.heap[found.heap_idx]);
        ms := if expire_at > now_us then (expire_at - now_us) / 1000 else 0;
      }
    }

    /** The time to live that was set is the one that is told, less the time since. */
    method ExpireThenTtl(key: Bytes, ttl_ms: nat, now_us: nat, later_us: nat) returns (done: bool, ms: int)
      requires Valid()
      modifies db.Repr, timers`heap, entries`heap_idx
      ensures done && key !in KeysOf(old(entries)) ==> ms == -2
      ensures done && key in KeysOf(old(entries)) && later_us < now_us + ttl_ms * 1000 ==>
        ms == (now_us + ttl_ms * 1000 - later_us) / 1000
      ensures done && key in KeysOf(old(entries)) && now_us + ttl_ms * 1000 <= later_us ==> ms == 0
      ensures done || !db.skipsEmpty
    {
      var entry;
      ghost var other;
      ms := 0;
      done, entry := Expire(key, ttl_ms, now_us);
      if done {
        assert UniqueKeys(entries) by { assert Indexed(db.Nodes(), entries); }
        done, ms, other := Ttl(key, later_us);
      }
    }

    /** entry_set_ttl with a negative time for an entry that has just left the hash map */
    method Disarm(entry: Entry)
      requires IndexOk(entries) && TimersOk(entries + {entry}) && entry !in entries && entry !in db.Repr
      modifies timers`heap, entries`heap_idx, entry`heap_idx
      ensures IndexOk(entries) && TimersOk(entries) && Held() == old(Held()) && Data(entries) == old(Data(entries))
      ensures Deadlines(timers.heap) == old(Deadlines(timers.heap)) - {entry}
    {
      ghost var data, held := Data(entries), Held();
      DropTimer(entry);
      assert Data(entries) == data && Held() == held;
    }

    method DropTimer(entry: Entry)
      requires TimersOk(entries + {entry}) && entry !in entries
      modifies timers`heap, entries`heap_idx, entry`heap_idx
      ensures TimersOk(entries) && Deadlines(timers.heap) == old(Deadlines(timers.heap)) - {entry}
    {
      assert timers.Valid() && timers.Tracks(entry);
      timers.SetTtl(entry, -1, 0, entries);
    }

    /** entry_del of an entry that has just left the hash map: its timer goes, and it is
        destroyed at once or, if it is a large set, by a thread. */
    method EntryDel(entry: Entry)
      requires IndexOk(entries) && TimersOk(entries + {entry}) && QueueOk() && entry !in entries && entry !in gone
      requires entry !in db.Repr
      modifies this`queue, this`gone, timers`heap, entries`heap_idx, entry`heap_idx
      ensures Valid() && gone == old(gone) + {entry} && Held() == old(Held())
      ensures Deadlines(timers.heap) == old(Deadlines(timers.heap)) - {entry}
      ensures Data(entries) == old(Data(entries))
      ensures queue == if entry.isZset && |entry.zset.scores| > 10_000 then old(queue) + [entry]
                       else old(queue)
    {
      Disarm(entry);
      Discard(entry);
    }

    /** A large set is destroyed by a thread, anything else at once. */
    method Discard(entry: Entry)
      requires QueueOk() && entry !in entries && entry !in gone
      modifies this`queue, this`gone
      ensures QueueOk() && gone == old(gone) + {entry}
      ensures queue == if entry.isZset && |entry.zset.scores| > K_LARGE_CONTAINER_SIZE then old(queue) + [entry]
                       else old(queue)
    {
      var too_big := entry.isZset && |entry.zset.scores| > K_LARGE_CONTAINER_SIZE;
      if too_big {
        queue := queue + [entry];
      }
      gone := gone + {entry};
    }

    /** hm_pop of the node of `key`, if `cmp` picks it */
    method Evict(key: Bytes, cmp: HNode -> bool) returns (done: bool, found: HashTable.HNode?<Entry>)
      requires IndexOk(entries) && forall h <- db.Nodes() :: cmp(h) ==> h.item.key == key
      modifies db.Repr
      ensures done <==> db.skipsEmpty || Ends(old(Held()))
      ensures done && !db.skipsEmpty ==>
        var s := Helped(old(Held()), StrHash); Held() == if found == null then s else Taken(s, key)
      ensures done ==> db.Valid() && old(db.Repr) <= db.Repr && fresh(db.Repr - old(db.Repr))
      ensures done && found == null ==> db.Nodes() == old(db.Nodes()) && forall h <- db.Nodes() :: !cmp(h)
      ensures done && found != null ==> found in old(db.Nodes()) && cmp(found)
      ensures done && found != null ==> db.Nodes() == old(db.Nodes()) - {found}
    {
      ghost var hs, s := db.Nodes(), db.Held();
      assert Indexed(hs, entries);
      HashMap.KeyedHelped(s, KeyOf, StrHash);
      done, found := db.Pop(StrHash(key), cmp);
      if done && found != null && !db.skipsEmpty {
        OneOfKey(hs, entries, found);
        HashMap.KeyedTaken(Helped(s, HashMap.Code), found, KeyOf);
      }
    }

    /** hm_pop with hnode_same: the assert that follows it in the expiry loop holds, because the
        entry is in the key space. */
    method PopEntry(entry: Entry) returns (done: bool)
      requires IndexOk(entries) && entry in entries
      modifies this`entries, db.Repr
      ensures done <==> db.skipsEmpty || Ends(old(Held()))
      ensures done && !db.skipsEmpty ==> Held() == Taken(Helped(old(Held()), StrHash), entry.key)
      ensures done ==> entries == old(entries) - {entry} && IndexOk(entries) && entry !in db.Repr
      ensures done ==> old(db.Repr) <= db.Repr && fresh(db.Repr - old(db.Repr))
    {
      ghost var hs := db.Nodes();
      assert Indexed(hs, entries);
      var found;
      done, found := Evict(entry.key, (h: HNode) => HNodeSame(h, entry));
      if done {
        assert exists h :: h in hs && h.item == entry;
        assert found != null && found.item == entry;
        IndexedRemove(hs, entries, found);
        entries := entries - {entry};
      }
    }

    /** hm_pop with entry_eq */
    method PopKey(key: Bytes) returns (done: bool, entry: Entry?)
      requires IndexOk(entries)
      modifies this`entries, db.Repr
      ensures done <==> db.skipsEmpty || Ends(old(Held()))
      ensures done && !db.skipsEmpty ==>
        var s := Helped(old(Held()), StrHash); Held() == if entry == null then s else Taken(s, key)
      ensures done ==> IndexOk(entries) && old(db.Repr) <= db.Repr && fresh(db.Repr - old(db.Repr))
      ensures done && entry == null ==> entries == old(entries) && key !in KeysOf(entries)
      ensures done && entry != null ==> entry in old(entries) && entry.key == key && entries == old(entries) - {entry}
      ensures done && entry != null ==> entry !in db.Repr
    {
      ghost var hs := db.Nodes();
      assert Indexed(hs, entries);
      var hcode := StrHash(key);
      var found;
      done, found := Evict(key, (h: HNode) => EntryEq(h, hcode, key));
      entry := null;
      if done {
        if found != null {
          entry := found.item;
          IndexedRemove(hs, entries, found);
          entries := entries - {entry};
        } else {
          assert forall e <- entries :: exists h :: h in hs && h.item == e;
        }
      }
    }

    /** The key leaves what get sees. */
    method Unbind(key: Bytes) returns (done: bool, entry: Entry?)
      requires IndexOk(entries)
      modifies this`entries, db.Repr
      ensures done <==> db.skipsEmpty || Ends(old(Held()))
      ensures done && !db.skipsEmpty ==> Held() == Unbound(old(Held()), old(Data(entries)), key)
      ensures done ==> IndexOk(entries) && old(db.Repr) <= db.Repr && fresh(db.Repr - old(db.Repr))
      ensures done && entry == null ==> entries == old(entries)
      ensures done && entry != null ==> entry in old(entries) && entry.key == key && entries == old(entries) - {entry}
      ensures done && entry != null ==> entry !in db.Repr
      ensures done ==> Data(entries) == old(Data(entries)) - {key} && (entry != null <==> key in old(Data(entries)))
    {
      assert UniqueKeys(entries) by { assert Indexed(db.Nodes(), entries); }
      ghost var es, data := entries, Data(entries);
      done, entry := PopKey(key);
      if done {
        assert Data(es) == data;
        if entry != null {
          DataAt(es, entry);
          DataMinus(es, {entry});
        }
      }
    }

    /** do_del: the key, its entry and its timer go, and nothing else. */
    method Del(key: Bytes) returns (done: bool, entry: Entry?)
      requires Valid()
      modifies this, db.Repr, timers`heap, entries`heap_idx
      ensures done <==> db.skipsEmpty || Ends(old(Held()))
      ensures done && !db.skipsEmpty ==> Held() == Unbound(old(Held()), old(Data(entries)), key)
      ensures done ==> Valid() && old(db.Repr) <= db.Repr && fresh(db.Repr - old(db.Repr))
      ensures done && entry == null ==> entries == old(entries) && gone == old(gone) && timers.heap == old(timers.heap)
      ensures done && entry != null ==> entry in old(entries) && entry.key == key
      ensures done && entry != null ==> entries == old(entries) - {entry} && gone == old(gone) + {entry}
      ensures done && entry != null ==> Deadlines(timers.heap) == old(Deadlines(timers.heap)) - {entry}
      ensures done ==> Data(entries) == old(Data(entries)) - {key} && (entry != null <==> key in old(Data(entries)))
    {
      done, entry := Unbind(key);
      if done && entry != null {
        assert entries + {entry} == old(entries);
        EntryDel(entry);
      }
    }

    /** One turn of the expiry loop */
    method ExpireFront() returns (done: bool, entry: Entry)
      requires Valid() && timers.heap != []
      modifies this, db.Repr, timers`heap, entries`heap_idx
      ensures entry == old(timers.heap[0].ref) && entry in old(entries)
      ensures done <==> db.skipsEmpty || Ends(old(Held()))
      ensures done && !db.skipsEmpty ==> Held() == Taken(Helped(old(Held()), StrHash), entry.key)
      ensures done ==> Valid() && old(db.Repr) <= db.Repr && fresh(db.Repr - old(db.Repr))
      ensures done ==> entries == old(entries) - {entry} && gone == old(gone) + {entry}
      ensures done ==> Deadlines(timers.heap) == old(Deadlines(timers.heap)) - {entry}
    {
      assert timers.heap[0] in timers.heap && timers.heap[0].ref in Refs(timers.heap);
      entry := timers.heap[0].ref;
      done := PopEntry(entry);
      if done {
        assert entries + {entry} == old(entries);
        EntryDel(entry);
      }
    }

    /** The pass may stop here without an end: an entry is due, and removing it never ends. */
    ghost predicate Stuck(d0: map<Entry, nat>, removed: seq<Entry>, now_us: nat, s: Tables<Bytes>) {
      && PassSoFar(d0, d0 - Elems(removed), removed, now_us) && |removed| <= K_MAX_WORKS
      && (exists e :: e in d0 - Elems(removed) && d0[e] < now_us)
      && SweepEnds(s, KeySeq(removed)) && !Ends(Swept(s, KeySeq(removed)))
    }

    /** A pass that began with deadlines `d0`, tables `s`, entries `es` and gave up `g` before has
        removed `removed`. */
    ghost predicate Passing(
        d0: map<Entry, nat>, s: Tables<Bytes>, es: set<Entry>, g: set<Entry>, removed: seq<Entry>, now_us: nat)
      reads this, timers, db, db.to, db.from, db.Repr, Refs(timers.heap)`heap_idx, entries`heap_idx
    {
      && Valid() && PassSoFar(d0, Deadlines(timers.heap), removed, now_us)
      && (!db.skipsEmpty ==> SweepEnds(s, KeySeq(removed)) && Held() == Swept(s, KeySeq(removed)))
      && Elems(removed) <= es && entries == es - Elems(removed) && gone == g + Elems(removed)
    }

    /** The same, folded. */
    ghost predicate InPass(
        d0: map<Entry, nat>, s: Tables<Bytes>, es: set<Entry>, g: set<Entry>, removed: seq<Entry>, now_us: nat)
      reads this, timers, db, db.to, db.from, db.Repr, Refs(timers.heap)`heap_idx, entries`heap_idx
    {
      forall r <- {removed} :: Passing(d0, s, es, g, r, now_us)
    }

    /** A turn of the expiry loop, as a step of a pass. */
    method ExpireNext(
        now_us: nat, ghost d0: map<Entry, nat>, ghost s: Tables<Bytes>, ghost es: set<Entry>, ghost g: set<Entry>,
        ghost removed: seq<Entry>)
      returns (done: bool, entry: Entry)
      requires InPass(d0, s, es, g, removed, now_us) && |removed| <= K_MAX_WORKS
      requires timers.heap != [] && timers.heap[0].val < now_us
      modifies this, db.Repr, timers`heap, entries`heap_idx
      ensures !done ==> !db.skipsEmpty && Stuck(d0, removed, now_us, s)
      ensures done ==> old(db.Repr) <= db.Repr && fresh(db.Repr - old(db.Repr)) && entries <= old(entries)
      ensures done ==> InPass(d0, s, es, g, removed + [entry], now_us)
    {
      assert Passing(d0, s, es, g, removed, now_us);
      assert timers.Valid();
      LeastFirst(timers.heap);
      ghost var d := Deadlines(timers.heap);
      PassStep(d0, d, removed, now_us, timers.heap[0].ref);
      assert timers.heap[0].ref in d0 - Elems(removed);
      done, entry := ExpireFront();
      if done {
        assert Elems(removed + [entry]) == Elems(removed) + {entry};
        if !db.skipsEmpty {
          SweepStep(s, removed, entry);
        }
        assert Passing(d0, s, es, g, removed + [entry], now_us);
      }
    }

    /** The loop of the expiry pass. */
    method ExpireLoop(
        now_us: nat, ghost d0: map<Entry, nat>, ghost s: Tables<Bytes>, ghost es: set<Entry>, ghost g: set<Entry>)
      returns (done: bool, removed: seq<Entry>)
      requires InPass(d0, s, es, g, [], now_us)
      modifies this, db.Repr, timers`heap, entries`heap_idx
      ensures !done ==> !db.skipsEmpty && Stuck(d0, removed, now_us, s)
      ensures done ==> fresh(db.Repr - old(db.Repr)) && |removed| <= K_MAX_WORKS + 1
      ensures done ==> InPass(d0, s, es, g, removed, now_us)
      ensures done && |removed| < K_MAX_WORKS + 1 ==> timers.heap == [] || timers.heap[0].val >= now_us
    {
      removed := [];
      var nworks := 0;
      while timers.heap != [] && timers.heap[0].val < now_us
        invariant InPass(d0, s, es, g, removed, now_us) && |removed| == nworks <= K_MAX_WORKS
        invariant fresh(db.Repr - old(db.Repr)) && entries <= old(entries)
        decreases K_MAX_WORKS - nworks
      {
        var entry;
        done, entry := ExpireNext(now_us, d0, s, es, g, removed);
        if !done {
          return;
        }
        removed := removed + [entry];
        nworks := nworks + 1;
        if nworks - 1 >= K_MAX_WORKS {
          return;
        }
      }
      done := true;
    }

    /** The TTL part of process_timers: entries are removed in nondecreasing order of deadline,
        at most 2001 of them; after a pass that removes fewer, nothing that is due is left; all
        other entries and their deadlines stay. A pass of the code as written that does not
        return is stuck at a due entry. */
    method ProcessTtl(now_us: nat) returns (done: bool, removed: seq<Entry>)
      requires Valid()
      modifies this, db.Repr, timers`heap, entries`heap_idx
      ensures !done ==> !db.skipsEmpty && Stuck(old(Deadlines(timers.heap)), removed, now_us, old(Held()))
      ensures done && !db.skipsEmpty ==>
        SweepEnds(old(Held()), KeySeq(removed)) && Held() == Swept(old(Held()), KeySeq(removed))
      ensures done ==> Valid() && fresh(db.Repr - old(db.Repr)) && |removed| <= 2001
      ensures done ==> PassSoFar(old(Deadlines(timers.heap)), Deadlines(timers.heap), removed, now_us)
      ensures done ==> Elems(removed) <= old(entries)
      ensures done ==> entries == old(entries) - Elems(removed) && gone == old(gone) + Elems(removed)
      ensures done && |removed| < 2001 ==> forall d <- Deadlines(timers.heap).Values :: d >= now_us
    {
      ghost var d0, s, es, g := Deadlines(timers.heap), Held(), entries, gone;
      assert Elems([]) == {} && Passing(d0, s, es, g, [], now_us);
      done, removed := ExpireLoop(now_us, d0, s, es, g);
      if done {
        assert Passing(d0, s, es, g, removed, now_us);
        if |removed| < K_MAX_WORKS + 1 {
          NoneDue(now_us);
        }
      }
    }

    /** The same on what get sees: the keys of the removed entries go, and no others. */
    method ExpireDue(now_us: nat) returns (done: bool, removed: seq<Entry>)
      requires Valid()
      modifies this, db.Repr, timers`heap, entries`heap_idx
      ensures !done ==> !db.skipsEmpty && Stuck(old(Deadlines(timers.heap)), removed, now_us, old(Held()))
      ensures done && !db.skipsEmpty ==>
        SweepEnds(old(Held()), KeySeq(removed)) && Held() == Swept(old(Held()), KeySeq(removed))
      ensures done ==> Valid() && fresh(db.Repr - old(db.Repr)) && |removed| <= K_MAX_WORKS + 1
      ensures done ==> PassSoFar(old(Deadlines(timers.heap)), Deadlines(timers.heap), removed, now_us)
      ensures done ==> entries <= old(entries) && Data(entries) == old(Data(entries)) - KeysOf(Elems(removed))
      ensures done && |removed| < K_MAX_WORKS + 1 ==> forall d <- Deadlines(timers.heap).Values :: d >= now_us
    {
      assert UniqueKeys(entries) by { assert Indexed(db.Nodes(), entries); }
      ghost var es, data := entries, Data(entries);
      done, removed := ProcessTtl(now_us);
      if done {
        assert Data(es) == data;
        DataMinus(es, Elems(removed));
      }
    }

    lemma NoneDue(now_us: nat)
      requires Valid() && (timers.heap == [] || timers.heap[0].val >= now_us)
      ensures forall d <- Deadlines(timers.heap).Values :: d >= now_us
    {
      assert timers.Valid();
      if timers.heap != [] {
        LeastFirst(timers.heap);
      }
    }
  }
}
