/** The string commands of src/server.cpp:349-410 and 462-467 on the key space, and whole runs. */
module Commands {
  import opened Keys
  import opened TtlHeap
  import opened Database
  import opened Response
  import opened Migration
  import SetMachine
  import KeySpace
  import HashTable
  import HashMap
  import Request
  import Wire
  import Session

  // ----- keys -----

  ghost function KeysIn(hs: seq<HNode>): (ks: seq<Bytes>)
    ensures |ks| == |hs|
  {
    seq(|hs|, i requires 0 <= i < |hs| => hs[i].item.key)
  }

  ghost function StrsOf(ks: seq<Bytes>): (vs: seq<Value>)
    ensures |vs| == |ks|
  {
    seq(|ks|, i requires 0 <= i < |ks| => Str(ks[i]))
  }

  /** `ks` lists each of `keys` exactly once. */
  ghost predicate Lists(ks: seq<Bytes>, keys: set<Bytes>) {
    && (forall i, j :: 0 <= i < j < |ks| ==> ks[i] != ks[j])
    && (forall k :: k in ks <==> k in keys)
  }

  lemma KeysOnce(hs: seq<HNode>, nodes: set<HNode>, es: set<Entry>)
    requires Indexed(nodes, es) && HashTable.NoDup(hs) && HashTable.Elems(hs) == nodes
    ensures Lists(KeysIn(hs), KeysOf(es))
  {
    var ks := KeysIn(hs);
    forall i | 0 <= i < |hs| ensures hs[i] in nodes && hs[i].item in es {
      assert hs[i] in HashTable.Elems(hs) && hs[i].item in Containers(nodes);
    }
    forall k | k in KeysOf(es) ensures k in ks {
      var e :| e in es && e.key == k;
      var h :| h in nodes && h.item == e;
      assert h in HashTable.Elems(hs);
      var i :| 0 <= i < |hs| && hs[i] == h;
      assert ks[i] == k;
    }
  }

  /** The strings of a listing on the wire. */
  ghost function Listing(hs: seq<HNode>): Bytes {
    EncodeAll(StrsOf(KeysIn(hs)))
  }

  lemma ListingConcat(a: seq<HNode>, b: seq<HNode>)
    ensures Listing(a + b) == Listing(a) + Listing(b)
  {
    EncodeAllConcat(StrsOf(KeysIn(a)), StrsOf(KeysIn(b)));
    assert StrsOf(KeysIn(a + b)) == StrsOf(KeysIn(a)) + StrsOf(KeysIn(b));
  }

  lemma ListingOne(h: HNode)
    ensures Listing([h]) == Encode(Str(h.item.key))
  {
    var v := Str(h.item.key);
    assert StrsOf(KeysIn([h])) == [v] && [v][1..] == [];
    assert EncodeAll([v]) == Encode(v) + EncodeAll([v][1..]);
  }

  lemma ListingNext(hs: seq<HNode>, i: nat, out: Bytes)
    requires i < |hs|
    ensures out + Listing(hs[..i + 1]) == (out + Listing(hs[..i])) + Encode(Str(hs[i].item.key))
  {
    ListingConcat(hs[..i], [hs[i]]);
    ListingOne(hs[i]);
    assert hs[..i + 1] == hs[..i] + [hs[i]];
    Wire.Assoc(out, Listing(hs[..i]), Encode(Str(hs[i].item.key)));
  }

  /** cb_scan on every node that a scan meets */
  method EmitKeys(hs: seq<HNode>, out: Bytes) returns (r: Bytes)
    ensures r == out + Listing(hs)
  {
    r := out;
    for i := 0 to |hs|
      invariant r == out + Listing(hs[..i])
    {
      ListingNext(hs, i, out);
      r := r + Encode(Str(hs[i].item.key));
    }
    assert hs[..|hs|] == hs;
  }

  /** The nodes of both tables, one after another, are the nodes of the map, once each. */
  lemma ScanOnce(m: HashMap.HMap<Entry>)
    requires m.Valid()
    ensures var hs := HashTable.Flat(m.to.chains) + HashTable.Flat(m.from.chains);
            HashTable.NoDup(hs) && HashTable.Elems(hs) == m.Nodes() && |hs| == m.to.size + m.from.size
  {
    assert m.Whole() && m.to.Valid() && m.from.Valid();
    var a, b := HashTable.Flat(m.to.chains), HashTable.Flat(m.from.chains);
    HashTable.FlatFacts(m.to.chains);
    HashTable.FlatFacts(m.from.chains);
    assert HashTable.PlacedFrom(m.to.chains, m.to.mask, 0) && HashTable.PlacedFrom(m.from.chains, m.from.mask, 0);
    HashTable.FlatOnce(m.to.chains, m.to.mask, 0);
    HashTable.FlatOnce(m.from.chains, m.from.mask, 0);
    forall i, j | 0 <= i < j < |a + b| ensures (a + b)[i] != (a + b)[j] {
      if i < |a| <= j {
        assert a[i] in HashTable.Elems(a) && b[j - |a|] in HashTable.Elems(b);
      }
    }
  }

  lemma ReplyIs(hs: seq<HNode>, out: Bytes)
    requires out == [SER_ARR] + Wire.Le(|hs|, 4) + Listing(hs)
    ensures out == Encode(Arr(StrsOf(KeysIn(hs))))
  {
  }

  /** do_keys: the reply is an array whose declared count is the number of strings in it, each
      key of the key space exactly once, whatever the state of a migration. */
  method DoKeys(d: Db) returns (out: Bytes)
    requires d.IndexOk(d.entries)
    ensures exists keys :: Lists(keys, KeysOf(d.entries)) && out == Encode(Arr(StrsOf(keys)))
  {
    ghost var nodes := d.db.Nodes();
    assert Indexed(nodes, d.entries);
    ScanOnce(d.db);
    var a, b := ScanBoth(d.db);
    out := [SER_ARR] + Wire.Le(d.db.to.size + d.db.from.size, 4);
    out := EmitKeys(a, out);
    out := EmitKeys(b, out);
    KeysReply(a, b, nodes, d.entries, out);
  }

  lemma KeysReply(a: seq<HNode>, b: seq<HNode>, nodes: set<HNode>, es: set<Entry>, out: Bytes)
    requires Indexed(nodes, es) && HashTable.NoDup(a + b) && HashTable.Elems(a + b) == nodes
    requires out == ([SER_ARR] + Wire.Le(|a + b|, 4)) + Listing(a) + Listing(b)
    ensures exists keys :: Lists(keys, KeysOf(es)) && out == Encode(Arr(StrsOf(keys)))
  {
    ListingConcat(a, b);
    Wire.Assoc([SER_ARR] + Wire.Le(|a + b|, 4), Listing(a), Listing(b));
    KeysOnce(a + b, nodes, es);
    ReplyIs(a + b, out);
  }

  method ScanBoth(m: HashMap.HMap<Entry>) returns (a: seq<HNode>, b: seq<HNode>)
    requires m.Valid()
    ensures a == HashTable.Flat(m.to.chains) && b == HashTable.Flat(m.from.chains)
  {
    assert m.Whole() && m.to.Valid() && m.from.Valid();
    a := m.to.Scan();
    b := m.from.Scan();
  }

  // ----- set, get, del -----

  const ERR_TYPE: nat := 3

  /** A value that came in a `set` request: 19 bytes of the message are spoken for. */
  const MAX_VALUE: nat := Session.K_MAX_MSG - 4 - 3 * 4 - 3

  /** A message that is accepted as a `set` carries no longer value, */
  lemma SetValueFits(body: Bytes, cmd: seq<Bytes>)
    requires |body| <= Session.K_MAX_MSG && Request.ParseBody(body) == Some(cmd)
    requires |cmd| == 3 && |cmd[0]| >= 3
    ensures |cmd[1]| + |cmd[2]| <= MAX_VALUE
  {
    Request.BodyOfParse(body);
    assert cmd[1..][1..] == cmd[2..] && cmd[2..][1..] == [];
    assert Request.StrsLen(cmd[2..]) == 4 + |cmd[2]| + Request.StrsLen([]);
    assert Request.StrsLen(cmd[1..]) == 4 + |cmd[1]| + Request.StrsLen(cmd[2..]);
  }

  /** and such a value comes back: it passes the assert of do_get, and the reply is not
      replaced by an error. */
  lemma ValueReplyFits(val: Bytes)
    requires |val| <= MAX_VALUE
    ensures |val| <= Session.K_MAX_MSG && Session.Cap(Encode(Str(val))) == Encode(Str(val))
  {
  }

  ghost predicate Small(data: map<Bytes, Content>) {
    forall k <- data :: |data[k].str| <= MAX_VALUE
  }

  lemma GetReplyFits(data: map<Bytes, Content>, key: Bytes)
    requires Small(data)
    ensures key in data ==>
      |data[key].str| <= Session.K_MAX_MSG && Session.Cap(Encode(Str(data[key].str))) == Encode(Str(data[key].str))
    ensures Session.Cap(Encode(Nil)) == Encode(Nil)
  {
    if key in data {
      ValueReplyFits(data[key].str);
    }
  }

  /** do_get; its assert on the size of the value holds. */
  method DoGet(d: Db, key: Bytes) returns (done: bool, out: Bytes)
    requires d.Valid() && Small(Data(d.entries))
    modifies d.db.Repr
    ensures done <==> d.db.skipsEmpty || Ends(old(d.Held()))
    ensures done && !d.db.skipsEmpty ==> d.Held() == Helped(old(d.Held()), StrHash)
    ensures done ==> d.Valid() && old(d.db.Repr) <= d.db.Repr && fresh(d.db.Repr - old(d.db.Repr))
    ensures done ==> Data(d.entries) == old(Data(d.entries))
    ensures done && key !in Data(d.entries) ==> out == Encode(Nil)
    ensures done && key in Data(d.entries) ==> out == Encode(Str(Data(d.entries)[key].str))
  {
    ghost var data := Data(d.entries);
    GetReplyFits(data, key);
    var found, val;
    done, found, val := d.Get(key);
    out := [];
    if done {
      assert Data(d.entries) == data;
      if !found {
        return done, Encode(Nil);
      }
      assert |val| <= Session.K_MAX_MSG;
      out := Encode(Str(val));
    }
  }

  // ----- the key space as a whole -----

  ghost function StateOf(d: Db): KeySpace.State
    reads d, d.timers, d.db, d.db.to, d.db.from, d.entries`val, d.entries`zset
  {
    KeySpace.State(Data(d.entries), ByKey(Deadlines(d.timers.heap)), d.Held())
  }

  /** The key space at any moment of a run: everything agrees, and every value fits a reply. */
  ghost predicate Healthy(d: Db)
    reads d, d.timers, d.db, d.db.to, d.db.from, d.db.Repr, Refs(d.timers.heap)`heap_idx
    reads d.entries`heap_idx, d.entries`val, d.entries`zset
  {
    d.Valid() && Small(Data(d.entries))
  }

  /** A `set` carries what an accepted request can carry. */
  ghost predicate Fits(op: KeySpace.Op) {
    op.Set? ==> |op.key| + |op.val| <= MAX_VALUE
  }

  /** Each key with a deadline is a key, and no key is twice in the key space. */
  lemma Linked(d: Db)
    requires d.Valid()
    ensures UniqueKeys(d.entries) && Deadlines(d.timers.heap).Keys <= d.entries
    ensures StateOf(d).due.Keys <= StateOf(d).data.Keys
  {
    assert Indexed(d.db.Nodes(), d.entries);
  }

  lemma Conclude(done: bool, a: KeySpace.State, op: KeySpace.Op, b: KeySpace.State, skipsEmpty: bool)
    requires !op.Timers? && (!skipsEmpty ==> done == KeySpace.OpEnds(a, op))
    requires done ==> b.data == KeySpace.NextData(a, op) && b.due == KeySpace.NextDue(a, op)
    requires done && !skipsEmpty ==> b.tables == KeySpace.NextTables(a, op)
    ensures done ==> KeySpace.Steps(a, op, b, skipsEmpty)
    ensures !done && !skipsEmpty ==> KeySpace.Hangs(a, op)
  {
    if done {
      KeySpace.Timeless(a, op, b, skipsEmpty);
    } else if !skipsEmpty {
      KeySpace.Hung(a, op, []);
    }
  }

  /** do_get */
  method ApplyGet(d: Db, key: Bytes) returns (done: bool, out: Bytes)
    requires Healthy(d)
    modifies d.db.Repr
    ensures !done ==> !d.db.skipsEmpty && KeySpace.Hangs(old(StateOf(d)), KeySpace.Get(key))
    ensures done ==> KeySpace.Steps(old(StateOf(d)), KeySpace.Get(key), StateOf(d), d.db.skipsEmpty)
    ensures done && key !in old(Data(d.entries)) ==> out == Encode(Nil)
    ensures done && key in old(Data(d.entries)) ==> out == Encode(Str(old(Data(d.entries))[key].str))
    ensures done ==> Healthy(d) && fresh(d.db.Repr - old(d.db.Repr))
  {
    ghost var a, heap := StateOf(d), d.timers.heap;
    done, out := DoGet(d, key);
    assert d.timers.heap == heap;
    Conclude(done, a, KeySpace.Get(key), StateOf(d), d.db.skipsEmpty);
  }

  /** do_set: the key holds the string; a new key holds nothing else, and an old one what it did. */
  ghost predicate Overwrites(before: map<Bytes, Content>, after: map<Bytes, Content>, key: Bytes, val: Bytes) {
    && key in after && after[key].str == val && after - {key} == before - {key}
    && after[key].zset == if key in before then before[key].zset else None
  }

  /** do_set */
  method ApplySet(d: Db, key: Bytes, val: Bytes) returns (done: bool, out: Bytes)
    requires Healthy(d) && |key| + |val| <= MAX_VALUE
    modifies d`entries, d.db.Repr, d.entries`val
    ensures !done ==> !d.db.skipsEmpty && KeySpace.Hangs(old(StateOf(d)), KeySpace.Set(key, val))
    ensures done ==> KeySpace.Steps(old(StateOf(d)), KeySpace.Set(key, val), StateOf(d), d.db.skipsEmpty)
    ensures done ==> out == Encode(Nil)
    ensures done ==> Overwrites(old(Data(d.entries)), Data(d.entries), key, val)
    ensures done ==> Healthy(d) && fresh(d.db.Repr - old(d.db.Repr)) && fresh(d.entries - old(d.entries))
  {
    ghost var a, heap := StateOf(d), d.timers.heap;
    done := d.Set(key, val);
    assert d.timers.heap == heap;
    ConcludeSet(done, a, key, val, StateOf(d), d.db.skipsEmpty);
    out := Encode(Nil);
  }

  lemma ConcludeSet(done: bool, a: KeySpace.State, key: Bytes, val: Bytes, b: KeySpace.State, skipsEmpty: bool)
    requires !skipsEmpty ==> done == BindEnds(a.tables, a.data, key)
    requires done ==> b.data == Stored(a.data, key, val) && b.due == a.due
    requires done && !skipsEmpty ==> b.tables == Bound(a.tables, a.data, key)
    ensures done ==> KeySpace.Steps(a, KeySpace.Set(key, val), b, skipsEmpty)
    ensures !done && !skipsEmpty ==> KeySpace.Hangs(a, KeySpace.Set(key, val))
    ensures done && Small(a.data) && |val| <= MAX_VALUE ==> Small(b.data)
    ensures done ==> Overwrites(a.data, b.data, key, val)
  {
    assert Stored(a.data, key, val) - {key} == a.data - {key};
    Conclude(done, a, KeySpace.Set(key, val), b, skipsEmpty);
  }

  /** do_del */
  method ApplyDel(d: Db, key: Bytes) returns (done: bool, out: Bytes)
    requires Healthy(d)
    modifies d, d.db.Repr, d.timers`heap, d.entries`heap_idx
    ensures !done ==> !d.db.skipsEmpty && KeySpace.Hangs(old(StateOf(d)), KeySpace.Del(key))
    ensures done ==> KeySpace.Steps(old(StateOf(d)), KeySpace.Del(key), StateOf(d), d.db.skipsEmpty)
    ensures done ==> out == Encode(Int(if key in old(Data(d.entries)) then 1 else 0))
    ensures done ==> Healthy(d) && fresh(d.db.Repr - old(d.db.Repr)) && d.entries <= old(d.entries)
  {
    Linked(d);
    ghost var a, due, es := StateOf(d), Deadlines(d.timers.heap), d.entries;
    var entry;
    done, entry := d.Del(key);
    if done {
      DueWithout(due, Deadlines(d.timers.heap), es, entry, key);
    }
    Conclude(done, a, KeySpace.Del(key), StateOf(d), d.db.skipsEmpty);
    out := Encode(Int(if entry != null then 1 else 0));
  }

  /** The names and scores under a key; without a set there are none. */
  function ScoresAt(data: map<Bytes, Content>, key: Bytes): map<Bytes, Score> {
    if key in data && data[key].zset.Some? then data[key].zset.value.scores else map[]
  }

  /** What zadd, zrem and zscore answer, from the data before and after: how many names have come
      or gone, or the score as the eight bytes `bits` gives. */
  ghost predicate Replies(
      before: map<Bytes, Content>, after: map<Bytes, Content>, key: Bytes, z: SetMachine.Op, bits: Score -> Bytes,
      reply: Value)
  {
    var was, now := ScoresAt(before, key), ScoresAt(after, key);
    if key in before && before[key].zset.None? then
      reply == Err(3, Session.Text("expecting zset")) && after == before
    else if key !in before && !z.Add? then
      reply == Nil && after == before
    else
      && key in after && after[key].zset.Some? && after - {key} == before - {key}
      && after[key].str == (if key in before then before[key].str else [])
      && Answers(was, now, z, bits, reply)
  }

  /** `out` is such an answer on the wire. */
  ghost predicate Replied(
      before: map<Bytes, Content>, after: map<Bytes, Content>, key: Bytes, z: SetMachine.Op, bits: Score -> Bytes,
      out: Bytes)
  {
    exists reply :: Replies(before, after, key, z, bits, reply) && out == Encode(reply)
  }

  ghost predicate Answers(
      was: map<Bytes, Score>, now: map<Bytes, Score>, z: SetMachine.Op, bits: Score -> Bytes, reply: Value)
  {
    match z
    case Add(name, score) => now == was[name := score] && reply.Int? && reply.val == |now| - |was|
    case Pop(name) => now == was - {name} && reply.Int? && reply.val == |was| - |now|
    case Find(name) => now == was && reply == if name in was then Dbl(bits(was[name])) else Nil
  }

  lemma AnswersRight(v: SetMachine.SetValue, z: SetMachine.Op, bits: Score -> Bytes)
    ensures Answers(v.scores, SetMachine.SetAfter(v, z).scores, z, bits, SetAnswer(Some(v), z, bits))
  {
    if z.Add? { SizeWith(v.scores, z.name, z.score); }
    if z.Pop? { SizeWithout(v.scores, z.name); }
  }

  lemma SizeWith<V>(m: map<Bytes, V>, name: Bytes, v: V)
    ensures |m[name := v]| == |m| + if name in m then 0 else 1
  {
    assert m[name := v].Keys == m.Keys + {name} && |m| == |m.Keys| && |m[name := v]| == |m[name := v].Keys|;
  }

  lemma SizeWithout<V>(m: map<Bytes, V>, name: Bytes)
    ensures |m - {name}| == |m| - if name in m then 1 else 0
  {
    assert (m - {name}).Keys == m.Keys - {name} && |m| == |m.Keys| && |m - {name}| == |(m - {name}).Keys|;
  }

  lemma RepliesRight(data: map<Bytes, Content>, key: Bytes, z: SetMachine.Op, bits: Score -> Bytes)
    ensures var reply := if key in data && data[key].zset.None? then WRONG_TYPE
                         else SetAnswer(Target(data, key, z), z, bits);
            Replies(data, SetChanged(data, key, z), key, z, bits, reply)
  {
    match Target(data, key, z)
    case None =>
    case Some(v) =>
      AnswersRight(v, z, bits);
      assert SetChanged(data, key, z) - {key} == data - {key};
  }

  const WRONG_TYPE: Value := Err(ERR_TYPE, Session.Text("expecting zset"))

  /** The answer from the set before the operation. */
  function SetAnswer(was: Option<SetMachine.SetValue>, z: SetMachine.Op, bits: Score -> Bytes): Value {
    if was.None? then Nil
    else
      match z
      case Add(name, _) => Int(if name in was.value.scores then 0 else 1)
      case Pop(name) => Int(if name in was.value.scores then 1 else 0)
      case Find(name) => if name in was.value.scores then Dbl(bits(was.value.scores[name])) else Nil
  }

  /** The operation of do_zadd, do_zrem and do_zscore */
  method ChangeSet(d: Db, key: Bytes, z: SetMachine.Op)
    returns (done: bool, was: Option<SetMachine.SetValue>, typeError: bool)
    requires Healthy(d)
    modifies d`entries, d.db.Repr, d.entries`zset
    ensures !done ==> !d.db.skipsEmpty && KeySpace.Hangs(old(StateOf(d)), KeySpace.OnSet(key, z))
    ensures done ==> KeySpace.Steps(old(StateOf(d)), KeySpace.OnSet(key, z), StateOf(d), d.db.skipsEmpty)
    ensures done ==> was == Target(old(Data(d.entries)), key, z)
    ensures done ==> Data(d.entries) == SetChanged(old(Data(d.entries)), key, z)
    ensures done ==> typeError == (key in old(Data(d.entries)) && old(Data(d.entries))[key].zset.None?)
    ensures done ==> Healthy(d) && fresh(d.db.Repr - old(d.db.Repr)) && fresh(d.entries - old(d.entries))
  {
    ghost var a, heap := StateOf(d), d.timers.heap;
    done, was, typeError := d.OnSet(key, z);
    assert d.timers.heap == heap;
    ConcludeOnSet(done, a, key, z, StateOf(d), d.db.skipsEmpty);
  }

  lemma ConcludeOnSet(
      done: bool, a: KeySpace.State, key: Bytes, z: SetMachine.Op, b: KeySpace.State, skipsEmpty: bool)
    requires !skipsEmpty ==> done == OnSetEnds(a.tables, a.data, key, z)
    requires done ==> b.data == SetChanged(a.data, key, z) && b.due == a.due
    requires done && !skipsEmpty ==> b.tables == OnSetTables(a.tables, a.data, key, z)
    ensures done ==> KeySpace.Steps(a, KeySpace.OnSet(key, z), b, skipsEmpty)
    ensures !done && !skipsEmpty ==> KeySpace.Hangs(a, KeySpace.OnSet(key, z))
    ensures done && Small(a.data) ==> Small(b.data)
  {
    Conclude(done, a, KeySpace.OnSet(key, z), b, skipsEmpty);
    if Small(a.data) { SmallChanged(a.data, key, z); }
  }

  /** do_zadd, do_zrem and do_zscore past their arguments */
  method ApplyOnSet(d: Db, key: Bytes, z: SetMachine.Op, bits: Score -> Bytes) returns (done: bool, out: Bytes)
    requires Healthy(d)
    modifies d`entries, d.db.Repr, d.entries`zset
    ensures !done ==> !d.db.skipsEmpty && KeySpace.Hangs(old(StateOf(d)), KeySpace.OnSet(key, z))
    ensures done ==> KeySpace.Steps(old(StateOf(d)), KeySpace.OnSet(key, z), StateOf(d), d.db.skipsEmpty)
    ensures done ==> Replied(old(Data(d.entries)), Data(d.entries), key, z, bits, out)
    ensures done ==> Healthy(d) && fresh(d.db.Repr - old(d.db.Repr)) && fresh(d.entries - old(d.entries))
  {
    ghost var data := Data(d.entries);
    var was, typeError;
    done, was, typeError := ChangeSet(d, key, z);
    var reply := if typeError then WRONG_TYPE else SetAnswer(was, z, bits);
    if done {
      RepliesRight(data, key, z, bits);
      assert Replies(data, Data(d.entries), key, z, bits, reply);
    }
    out := Encode(reply);
  }

  /** A key made by set is no set: zadd answers so, and leaves it alone. */
  method SetThenZadd(d: Db, key: Bytes, val: Bytes, name: Bytes, score: Score, bits: Score -> Bytes)
    returns (done: bool, out: Bytes)
    requires Healthy(d) && key !in Data(d.entries) && |key| + |val| <= MAX_VALUE
    modifies d`entries, d.db.Repr, d.entries
    ensures done ==> out == Encode(Err(3, Session.Text("expecting zset")))
    ensures done ==> Data(d.entries) == old(Data(d.entries))[key := Content(val, None)]
    ensures done || !d.db.skipsEmpty
  {
    ghost var data := Data(d.entries);
    done, out := ApplySet(d, key, val);
    if done {
      ghost var mid := Data(d.entries);
      done, out := ApplyOnSet(d, key, SetMachine.Add(name, score), bits);
      if done { NoSetThere(data, mid, Data(d.entries), key, val, SetMachine.Add(name, score), bits, out); }
    }
  }

  lemma NoSetThere(
      before: map<Bytes, Content>, mid: map<Bytes, Content>, after: map<Bytes, Content>, key: Bytes, val: Bytes,
      z: SetMachine.Op, bits: Score -> Bytes, out: Bytes)
    requires key !in before && Overwrites(before, mid, key, val) && Replied(mid, after, key, z, bits, out)
    ensures out == Encode(Err(3, Session.Text("expecting zset"))) && after == before[key := Content(val, None)]
  {
    OnlyThat(before, mid, key);
  }

  lemma OnlyThat(before: map<Bytes, Content>, after: map<Bytes, Content>, key: Bytes)
    requires key in after && key !in before && after - {key} == before - {key}
    ensures after == before[key := after[key]]
  {
    assert forall k :: k in after && k != key ==> k in after - {key} && (after - {key})[k] == after[k];
    assert forall k :: k in before && k != key ==> k in before - {key} && (before - {key})[k] == before[k];
  }

  lemma SmallChanged(data: map<Bytes, Content>, key: Bytes, z: SetMachine.Op)
    requires Small(data)
    ensures Small(SetChanged(data, key, z))
  {
    var more := SetChanged(data, key, z);
    forall k | k in more ensures |more[k].str| <= MAX_VALUE { assert k in data ==> |data[k].str| <= MAX_VALUE; }
  }

  /** do_expire */
  method ApplyExpire(d: Db, key: Bytes, ttl_ms: int, now_us: nat) returns (done: bool, out: Bytes)
    requires Healthy(d)
    modifies d.db.Repr, d.timers`heap, d.entries`heap_idx
    ensures !done ==> !d.db.skipsEmpty && KeySpace.Hangs(old(StateOf(d)), KeySpace.Expire(key, ttl_ms, now_us))
    ensures done ==>
      KeySpace.Steps(old(StateOf(d)), KeySpace.Expire(key, ttl_ms, now_us), StateOf(d), d.db.skipsEmpty)
    ensures done ==> out == Encode(Int(if key in old(Data(d.entries)) then 1 else 0))
    ensures done ==> Healthy(d) && fresh(d.db.Repr - old(d.db.Repr))
  {
    Linked(d);
    ghost var due, es := Deadlines(d.timers.heap), d.entries;
    ghost var a, op := StateOf(d), KeySpace.Expire(key, ttl_ms, now_us);
    assert a.data.Keys == KeysOf(es);
    var entry;
    done, entry := d.Expire(key, ttl_ms, now_us);
    if done {
      DueExpire(due, Deadlines(d.timers.heap), es, entry, key, ttl_ms, now_us);
    }
    Conclude(done, a, op, StateOf(d), d.db.skipsEmpty);
    out := Encode(Int(if entry != null then 1 else 0));
  }

  /** What a pass does to the entries it does to their keys. */
  lemma PassByKey(d0: map<Entry, nat>, removed: seq<Entry>, now_us: nat, es: set<Entry>)
    requires UniqueKeys(es) && d0.Keys <= es && PassSoFar(d0, d0 - Elems(removed), removed, now_us)
    ensures KeySpace.KeySet(KeySeq(removed)) == KeysOf(Elems(removed))
    ensures ByKey(d0 - Elems(removed)) == ByKey(d0) - KeySpace.KeySet(KeySeq(removed))
    ensures KeySpace.Earliest(ByKey(d0), KeySeq(removed), now_us)
  {
    SameKeys(removed);
    assert d0.Keys + Elems(removed) <= es;
    ByKeyMinus(d0, Elems(removed));
    DueInOrder(d0, removed, now_us, es);
    forall k, f | k in KeySeq(removed) && f in ByKey(d0).Keys - KeySpace.KeySet(KeySeq(removed))
      ensures ByKey(d0)[k] <= ByKey(d0)[f]
    {
      LaterStays(d0, removed, now_us, es, k, f);
    }
  }

  /** Entry `i` of the removed ones has its deadline under its key. */
  ghost predicate RemovedAt(d0: map<Entry, nat>, removed: seq<Entry>, i: nat)
    requires i < |removed|
  {
    removed[i] in d0 && KeySeq(removed)[i] in ByKey(d0) && ByKey(d0)[KeySeq(removed)[i]] == d0[removed[i]]
  }

  lemma DueInOrder(d0: map<Entry, nat>, removed: seq<Entry>, now_us: nat, es: set<Entry>)
    requires UniqueKeys(es) && d0.Keys <= es && PassSoFar(d0, d0 - Elems(removed), removed, now_us)
    ensures var keys, due := KeySeq(removed), ByKey(d0);
            && (forall k <- keys :: k in due && due[k] < now_us)
            && (forall i, j :: 0 <= i < j < |keys| ==> keys[i] != keys[j] && due[keys[i]] <= due[keys[j]])
  {
    var keys := KeySeq(removed);
    forall i | 0 <= i < |removed| ensures RemovedAt(d0, removed, i) && d0[removed[i]] < now_us {
      assert removed[i] in removed;
      ByKeyAt(d0, removed[i]);
    }
    forall k | k in keys ensures k in ByKey(d0) && ByKey(d0)[k] < now_us {
      var i :| 0 <= i < |keys| && keys[i] == k;
      assert RemovedAt(d0, removed, i);
    }
    forall i, j | 0 <= i < j < |keys| ensures keys[i] != keys[j] && ByKey(d0)[keys[i]] <= ByKey(d0)[keys[j]] {
      assert RemovedAt(d0, removed, i) && RemovedAt(d0, removed, j);
    }
  }

  lemma LaterStays(d0: map<Entry, nat>, removed: seq<Entry>, now_us: nat, es: set<Entry>, k: Bytes, f: Bytes)
    requires UniqueKeys(es) && d0.Keys <= es && PassSoFar(d0, d0 - Elems(removed), removed, now_us)
    requires k in KeySeq(removed) && f in ByKey(d0) && f !in KeysOf(Elems(removed))
    ensures k in ByKey(d0) && ByKey(d0)[k] <= ByKey(d0)[f]
  {
    var i :| 0 <= i < |removed| && KeySeq(removed)[i] == k;
    var x :| x in d0 && x.key == f;
    assert removed[i] in removed;
    ByKeyAt(d0, removed[i]);
    ByKeyAt(d0, x);
    var d := d0 - Elems(removed);
    assert x in d.Keys && d[x] == d0[x];
  }

  lemma SameKeys(removed: seq<Entry>)
    ensures KeySpace.KeySet(KeySeq(removed)) == KeysOf(Elems(removed))
  {
    var keys := KeySeq(removed);
    forall k | k in KeysOf(Elems(removed)) ensures k in keys {
      var e :| e in Elems(removed) && e.key == k;
      var i :| 0 <= i < |removed| && removed[i] == e;
      assert keys[i] == k;
    }
    forall i | 0 <= i < |keys| ensures keys[i] in KeysOf(Elems(removed)) {
      assert removed[i] in Elems(removed);
    }
  }

  /** The TTL pass: the keys it removes are different, due, in nondecreasing order of deadline, at
      most 2001; if fewer, no other key is due; nothing else changes. A pass of the code as
      written that does not return is stuck before a key that is due. */
  method Pass(d: Db, now_us: nat) returns (done: bool, ghost keys: seq<Bytes>)
    requires Healthy(d)
    modifies d, d.db.Repr, d.timers`heap, d.entries`heap_idx
    ensures !done ==> !d.db.skipsEmpty && KeySpace.Sticks(old(StateOf(d)), keys, now_us)
    ensures done ==> KeySpace.Expires(old(StateOf(d)), keys, now_us, StateOf(d))
    ensures done && !d.db.skipsEmpty ==> KeySpace.Sweeps(old(StateOf(d)), keys, StateOf(d))
    ensures done ==> Healthy(d) && fresh(d.db.Repr - old(d.db.Repr)) && d.entries <= old(d.entries)
  {
    Linked(d);
    ghost var es, d0 := d.entries, Deadlines(d.timers.heap);
    var removed;
    done, removed := d.ExpireDue(now_us);
    keys := KeySeq(removed);
    PassByKey(d0, removed, now_us, es);
    if done {
      LeftDue(d0 - Elems(removed), now_us, |removed|);
    } else {
      StuckByKey(d0, removed, now_us, es);
    }
  }

  lemma LeftDue(d: map<Entry, nat>, now_us: nat, n: nat)
    requires n <= K_MAX_WORKS ==> forall t <- d.Values :: t >= now_us
    ensures n <= K_MAX_WORKS ==> forall k <- ByKey(d).Keys :: ByKey(d)[k] >= now_us
  {
    forall k | k in ByKey(d) && n <= K_MAX_WORKS ensures ByKey(d)[k] >= now_us {
      var e :| e in d && e.key == k && ByKey(d)[k] == d[e];
      assert d[e] in d.Values;
    }
  }

  lemma StuckByKey(d0: map<Entry, nat>, removed: seq<Entry>, now_us: nat, es: set<Entry>)
    requires UniqueKeys(es) && d0.Keys <= es && (forall e <- removed :: e in d0)
    requires exists e :: e in d0 - Elems(removed) && d0[e] < now_us
    ensures exists k :: k in ByKey(d0) && k !in KeySeq(removed) && ByKey(d0)[k] < now_us
  {
    var e :| e in d0 - Elems(removed) && d0[e] < now_us;
    ByKeyAt(d0, e);
    forall i | 0 <= i < |removed| ensures removed[i].key != e.key {
      assert removed[i] in removed && removed[i] in Elems(removed);
    }
    assert e.key !in KeySeq(removed);
  }

  /** One step of the server on its key space. */
  method Apply(d: Db, op: KeySpace.Op) returns (done: bool)
    requires Healthy(d) && Fits(op)
    modifies d, d.db.Repr, d.timers`heap, d.entries
    ensures !done ==> !d.db.skipsEmpty && KeySpace.Hangs(old(StateOf(d)), op)
    ensures done ==> KeySpace.Steps(old(StateOf(d)), op, StateOf(d), d.db.skipsEmpty)
    ensures done ==> Healthy(d) && fresh(d.db.Repr - old(d.db.Repr)) && fresh(d.entries - old(d.entries))
  {
    var out;
    match op
    case Get(key) => done, out := ApplyGet(d, key);
    case Set(key, val) => done, out := ApplySet(d, key, val);
    case Del(key) => done, out := ApplyDel(d, key);
    case OnSet(key, z) => done, out := ApplyOnSet(d, key, z, _ => []);
    case Expire(key, ttl_ms, now_us) => done, out := ApplyExpire(d, key, ttl_ms, now_us);
    case Timers(now_us) =>
      ghost var keys;
      ghost var a := StateOf(d);
      done, keys := Pass(d, now_us);
      if done {
        KeySpace.Timely(a, op, keys, StateOf(d), d.db.skipsEmpty);
      } else {
        KeySpace.Hung(a, op, keys);
      }
  }

  /** The key space stands for the last state of the trace. */
  ghost predicate Follows(d: Db, trace: seq<KeySpace.State>, ops: seq<KeySpace.Op>)
    reads d, d.timers, d.db, d.db.to, d.db.from, d.db.Repr, Refs(d.timers.heap)`heap_idx
    reads d.entries`heap_idx, d.entries`val, d.entries`zset
  {
    forall t <- {trace} :: FollowsAt(d, t, ops)
  }

  ghost predicate FollowsAt(d: Db, trace: seq<KeySpace.State>, ops: seq<KeySpace.Op>)
    reads d, d.timers, d.db, d.db.to, d.db.from, d.db.Repr, Refs(d.timers.heap)`heap_idx
    reads d.entries`heap_idx, d.entries`val, d.entries`zset
  {
    KeySpace.IsTrace(trace, ops, d.db.skipsEmpty) && Healthy(d) && StateOf(d) == trace[|trace| - 1]
  }

  /** The next operation of a run. */
  method Next(d: Db, ops: seq<KeySpace.Op>, i: nat, ghost trace: seq<KeySpace.State>)
    returns (done: bool, ghost more: seq<KeySpace.State>)
    requires i < |ops| && |trace| == i + 1 && Follows(d, trace, ops) && Fits(ops[i])
    modifies d, d.db.Repr, d.timers`heap, d.entries
    ensures !done ==> !d.db.skipsEmpty && KeySpace.Hangs(trace[i], ops[i])
    ensures done ==> |more| == i + 2 && more[..i + 1] == trace && Follows(d, more, ops)
    ensures done ==> fresh(d.db.Repr - old(d.db.Repr)) && fresh(d.entries - old(d.entries))
  {
    assert FollowsAt(d, trace, ops);
    done := Apply(d, ops[i]);
    more := trace;
    if done {
      KeySpace.TraceOn(trace, ops, d.db.skipsEmpty, StateOf(d));
      more := trace + [StateOf(d)];
      assert FollowsAt(d, more, ops);
    }
  }

  /** The empty key space. */
  method Begin(skipsEmpty: bool, ghost ops: seq<KeySpace.Op>) returns (d: Db)
    ensures fresh(d) && fresh(d.timers) && fresh(d.db.Repr) && d.entries == {} && d.db.skipsEmpty == skipsEmpty
    ensures Follows(d, [KeySpace.START], ops)
  {
    d := new Db(skipsEmpty);
    assert FollowsAt(d, [KeySpace.START], ops);
  }

  /** All operations of a run, as far as they return. */
  method Drive(d: Db, ops: seq<KeySpace.Op>) returns (done: bool, ghost trace: seq<KeySpace.State>)
    requires Follows(d, [KeySpace.START], ops) && forall op <- ops :: Fits(op)
    modifies d, d.db.Repr, d.timers`heap, d.entries
    ensures KeySpace.IsTrace(trace, ops, d.db.skipsEmpty)
    ensures done ==> |trace| == |ops| + 1 && Follows(d, trace, ops)
    ensures !done ==> !d.db.skipsEmpty && |trace| <= |ops| && KeySpace.Hangs(trace[|trace| - 1], ops[|trace| - 1])
  {
    trace := [KeySpace.START];
    var i := 0;
    while i < |ops|
      invariant 0 <= i <= |ops| && |trace| == i + 1 && Follows(d, trace, ops)
      invariant fresh(d.db.Repr - old(d.db.Repr)) && fresh(d.entries - old(d.entries))
    {
      assert KeySpace.IsTrace(trace, ops, d.db.skipsEmpty) by { assert FollowsAt(d, trace, ops); }
      ghost var more;
      done, more := Next(d, ops, i, trace);
      if !done {
        return;
      }
      trace := more;
      i := i + 1;
    }
    done := true;
    assert FollowsAt(d, trace, ops);
  }

  /** Every run of get, set, del, zadd, zrem, zscore, expire and timer passes from an empty key
      space. `trace` holds what the key space stands for before each operation and after the last:
      data and deadlines change as the operations say. All calls of the intended loop return. With
      the loop as written, a run that ends early ends in an operation that hangs by the state
      before it, which does not happen while fewer than 31 keys are live and fewer than 31 names
      in every set. Throughout, the asserts of do_get and of the expiry loop hold. */
  method Run(skipsEmpty: bool, ops: seq<KeySpace.Op>) returns (d: Db, done: bool, ghost trace: seq<KeySpace.State>)
    requires forall op <- ops :: Fits(op)
    ensures d.db.skipsEmpty == skipsEmpty && KeySpace.IsTrace(trace, ops, skipsEmpty)
    ensures done ==> |trace| == |ops| + 1 && Follows(d, trace, ops)
    ensures !done ==> !skipsEmpty && |trace| <= |ops| && KeySpace.Hangs(trace[|trace| - 1], ops[|trace| - 1])
    ensures (forall i :: 0 <= i < |trace| && i < |ops| ==> KeySpace.Modest(trace[i])) ==> done
  {
    d := Begin(skipsEmpty, ops);
    done, trace := Drive(d, ops);
    if !done {
      NotWithFewKeys(trace, ops);
    }
  }

  lemma NotWithFewKeys(trace: seq<KeySpace.State>, ops: seq<KeySpace.Op>)
    requires KeySpace.IsTrace(trace, ops, false) && |trace| <= |ops|
    requires KeySpace.Hangs(trace[|trace| - 1], ops[|trace| - 1])
    ensures exists i :: 0 <= i < |trace| && !KeySpace.Modest(trace[i])
  {
    if forall i :: 0 <= i < |trace| ==> KeySpace.Modest(trace[i]) {
      KeySpace.TraceUntroubled(trace, ops);
      KeySpace.FewKeysReturn(trace[|trace| - 1], ops[|trace| - 1]);
    }
  }

  /** One key is enough to hang the code as written: 31 names can be added to its set, and with the
      32nd the server does not return. */
  method HangingZadd() returns (before: bool, after: bool)
    ensures before && !after
  {
    var d;
    ghost var trace;
    d, before, trace := Run(false, KeySpace.OneSet(31));
    OnesModest(trace, 31);
    SetMachine.OneByteNamesHang();
    d, after, trace := Run(false, KeySpace.OneSet(32));
    KeySpace.OnesStop(trace, 32);
  }

  lemma OnesModest(trace: seq<KeySpace.State>, n: nat)
    requires n <= 31 && KeySpace.IsTrace(trace, KeySpace.OneSet(n), false)
    ensures forall i :: 0 <= i < |trace| && i < n ==> KeySpace.Modest(trace[i])
  {
    forall i | 0 <= i < |trace| && i < n ensures KeySpace.Modest(trace[i]) {
      KeySpace.TraceStart(trace, KeySpace.OneSet(n), i);
      var v := KeySpace.OnesTrace(trace[..i + 1], n);
      SetMachine.OneByteReplay(i);
    }
  }
}
