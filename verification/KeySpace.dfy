/** What the operations on the key space mean: a map from keys to contents, a map from keys to
    deadlines, and the tables of keys, which decide with those of the sets whether the code as
    written returns. */
module KeySpace {
  import opened Keys
  import opened Migration
  import opened SetMachine
  import opened Database

  datatype State = State(data: map<Bytes, Content>, due: map<Bytes, nat>, tables: Tables<Bytes>)

  datatype Op =
    | Get(key: Bytes)
    | Set(key: Bytes, val: Bytes)
    | Del(key: Bytes)
    | OnSet(key: Bytes, z: SetMachine.Op)     // zadd, zrem and zscore
    | Expire(key: Bytes, ttl_ms: int, now_us: nat)
    | Timers(now_us: nat)

  const START: State := State(map[], map[], Tables([], []))

  // ----- everything but a timer pass -----

  ghost function NextData(a: State, op: Op): map<Bytes, Content> {
    match op
    case Set(key, val) => Stored(a.data, key, val)
    case Del(key) => a.data - {key}
    case OnSet(key, z) => SetChanged(a.data, key, z)
    case _ => a.data
  }

  ghost function NextDue(a: State, op: Op): map<Bytes, nat> {
    match op
    case Del(key) => a.due - {key}
    case Expire(key, ttl_ms, now_us) =>
      Rescheduled(a.due, a.data.Keys, key, ttl_ms, now_us)
    case _ => a.due
  }

  ghost function NextTables(a: State, op: Op): Tables<Bytes> {
    match op
    case Set(key, _) => Bound(a.tables, a.data, key)
    case OnSet(key, z) => OnSetTables(a.tables, a.data, key, z)
    case Del(key) => Unbound(a.tables, a.data, key)
    case _ => Helped(a.tables, StrHash)
  }

  ghost predicate OpEnds(a: State, op: Op) {
    match op
    case Set(key, _) => BindEnds(a.tables, a.data, key)
    case OnSet(key, z) => OnSetEnds(a.tables, a.data, key, z)
    case _ => Ends(a.tables)
  }

  // ----- a timer pass -----

  ghost function KeySet(keys: seq<Bytes>): set<Bytes> {
    set k | k in keys
  }

  /** The keys are different, due, in nondecreasing order of deadline, and none that stays is due
      earlier than one of them. */
  ghost predicate Earliest(due: map<Bytes, nat>, keys: seq<Bytes>, now_us: nat) {
    && (forall k <- keys :: k in due && due[k] < now_us)
    && (forall i, j :: 0 <= i < j < |keys| ==> keys[i] != keys[j] && due[keys[i]] <= due[keys[j]])
    && (forall k <- keys, f <- due.Keys - KeySet(keys) :: due[k] <= due[f])
  }

  /** A pass that removes `keys`: at most 2001, and all that are due if fewer. */
  ghost predicate Expires(a: State, keys: seq<Bytes>, now_us: nat, b: State) {
    && Earliest(a.due, keys, now_us) && |keys| <= 2001
    && b.data == a.data - KeySet(keys) && b.due == a.due - KeySet(keys)
    && (|keys| <= 2000 ==> forall k <- b.due.Keys :: b.due[k] >= now_us)
  }

  /** A pass that gets stuck after it has removed `keys`. */
  ghost predicate Sticks(a: State, keys: seq<Bytes>, now_us: nat) {
    && Earliest(a.due, keys, now_us) && |keys| <= K_MAX_WORKS
    && (exists k :: k in a.due && k !in keys && a.due[k] < now_us)
    && SweepEnds(a.tables, keys) && !Ends(Swept(a.tables, keys))
  }

  ghost predicate Sweeps(a: State, keys: seq<Bytes>, b: State) {
    SweepEnds(a.tables, keys) && b.tables == Swept(a.tables, keys)
  }

  // ----- steps -----

  /** `b` is what the operation makes of `a`. The tables are those of the code as written. */
  ghost predicate StepsBy(a: State, op: Op, b: State, skipsEmpty: bool) {
    if op.Timers? then exists keys :: Expires(a, keys, op.now_us, b) && (skipsEmpty || Sweeps(a, keys, b))
    else
      && b.data == NextData(a, op) && b.due == NextDue(a, op)
      && (skipsEmpty || (OpEnds(a, op) && b.tables == NextTables(a, op)))
  }

  /** The code as written does not return from the operation. */
  ghost predicate HangsIn(a: State, op: Op) {
    if op.Timers? then exists keys :: Sticks(a, keys, op.now_us) else !OpEnds(a, op)
  }

  /** Both, folded. */
  ghost predicate Steps(a: State, op: Op, b: State, skipsEmpty: bool) {
    forall o <- {op} :: StepsBy(a, o, b, skipsEmpty)
  }

  ghost predicate Hangs(a: State, op: Op) {
    forall o <- {op} :: HangsIn(a, o)
  }

  lemma Timeless(a: State, op: Op, b: State, skipsEmpty: bool)
    requires !op.Timers? && b.data == NextData(a, op) && b.due == NextDue(a, op)
    requires !skipsEmpty ==> OpEnds(a, op) && b.tables == NextTables(a, op)
    ensures Steps(a, op, b, skipsEmpty)
  {
    assert StepsBy(a, op, b, skipsEmpty);
  }

  lemma Timely(a: State, op: Op, keys: seq<Bytes>, b: State, skipsEmpty: bool)
    requires op.Timers? && Expires(a, keys, op.now_us, b) && (skipsEmpty || Sweeps(a, keys, b))
    ensures Steps(a, op, b, skipsEmpty)
  {
    assert StepsBy(a, op, b, skipsEmpty);
  }

  lemma Hung(a: State, op: Op, keys: seq<Bytes>)
    requires if op.Timers? then Sticks(a, keys, op.now_us) else !OpEnds(a, op)
    ensures Hangs(a, op)
  {
    assert HangsIn(a, op);
  }

  ghost predicate IsTrace(trace: seq<State>, ops: seq<Op>, skipsEmpty: bool) {
    && 0 < |trace| <= |ops| + 1 && trace[0] == START
    && forall i :: 0 <= i < |trace| - 1 ==> Steps(trace[i], ops[i], trace[i + 1], skipsEmpty)
  }

  lemma TraceBefore(trace: seq<State>, ops: seq<Op>, skipsEmpty: bool)
    requires IsTrace(trace, ops, skipsEmpty) && |trace| > 1
    ensures IsTrace(trace[..|trace| - 1], ops, skipsEmpty)
  {
    var some := trace[..|trace| - 1];
    forall i | 0 <= i < |some| - 1 ensures Steps(some[i], ops[i], some[i + 1], skipsEmpty) {
      assert some[i] == trace[i] && some[i + 1] == trace[i + 1];
    }
  }

  lemma {:induction false} TraceStart(trace: seq<State>, ops: seq<Op>, i: nat)
    requires IsTrace(trace, ops, false) && i < |trace|
    ensures IsTrace(trace[..i + 1], ops, false)
    decreases |trace|
  {
    if i + 1 == |trace| {
      assert trace[..i + 1] == trace;
    } else {
      TraceBefore(trace, ops, false);
      TraceStart(trace[..|trace| - 1], ops, i);
      assert trace[..|trace| - 1][..i + 1] == trace[..i + 1];
    }
  }

  lemma TraceOn(trace: seq<State>, ops: seq<Op>, skipsEmpty: bool, b: State)
    requires IsTrace(trace, ops, skipsEmpty) && |trace| <= |ops|
    requires Steps(trace[|trace| - 1], ops[|trace| - 1], b, skipsEmpty)
    ensures IsTrace(trace + [b], ops, skipsEmpty)
  {
    var more := trace + [b];
    forall i | 0 <= i < |more| - 1 ensures Steps(more[i], ops[i], more[i + 1], skipsEmpty) {
      assert more[i] == trace[i] && (i + 1 < |trace| ==> more[i + 1] == trace[i + 1]);
    }
  }

  // ----- when the code as written returns -----

  ghost predicate ContentCalm(c: Content) {
    c.zset.Some? ==> Calm(c.zset.value.tables, c.zset.value.scores.Keys, StrHash)
  }

  /** No table of a set has ever grown. */
  ghost predicate SetsCalm(data: map<Bytes, Content>) {
    forall k <- data.Keys :: ContentCalm(data[k])
  }

  /** No table has ever grown. */
  ghost predicate Untroubled(a: State) {
    a.due.Keys <= a.data.Keys && Calm(a.tables, a.data.Keys, StrHash) && SetsCalm(a.data)
  }

  /** The operation may bring in a key. */
  predicate Brings(op: Op) {
    op.Set? || (op.OnSet? && op.z.Add?)
  }

  /** There is room for a key and for a name that the operation may bring in. */
  ghost predicate Roomy(a: State, op: Op) {
    && (Brings(op) && op.key !in a.data ==> |a.data| < 31)
    && (op.OnSet? && op.z.Add? && op.key in a.data ==> RoomIn(a.data[op.key], op.z.name))
  }

  ghost predicate RoomIn(c: Content, name: Bytes) {
    c.zset.Some? ==> name in c.zset.value.scores || |c.zset.value.scores| < 31
  }

  lemma CalmBound(s: Tables<Bytes>, data: map<Bytes, Content>, key: Bytes)
    requires Calm(s, data.Keys, StrHash) && (key in data || |data| + 1 < 32)
    ensures BindEnds(s, data, key) && Calm(Bound(s, data, key), data.Keys + {key}, StrHash)
  {
    CalmHelped(s, data.Keys, StrHash);
    if key in data {
      assert data.Keys + {key} == data.Keys;
    } else {
      CalmInserted(s, data.Keys, key, StrHash);
    }
  }

  lemma CalmUnbound(s: Tables<Bytes>, data: map<Bytes, Content>, key: Bytes)
    requires Calm(s, data.Keys, StrHash)
    ensures Calm(Unbound(s, data, key), data.Keys - {key}, StrHash)
  {
    CalmHelped(s, data.Keys, StrHash);
    if key in data {
      CalmTaken(s, data.Keys, key, StrHash);
    } else {
      assert data.Keys - {key} == data.Keys;
    }
  }

  lemma {:induction false} CalmSwept(s: Tables<Bytes>, xs: set<Bytes>, keys: seq<Bytes>)
    requires Calm(s, xs, StrHash) && KeySet(keys) <= xs
    requires forall i, j :: 0 <= i < j < |keys| ==> keys[i] != keys[j]
    ensures Calm(Swept(s, keys), xs - KeySet(keys), StrHash)
  {
    if keys == [] {
      assert xs - KeySet(keys) == xs;
    } else {
      var n := |keys| - 1;
      var some, key := keys[..n], keys[n];
      assert forall k <- some :: k in keys;
      CalmSwept(s, xs, some);
      assert keys == some + [key];
      assert KeySet(keys) == KeySet(some) + {key} && key !in some && key in KeySet(keys);
      CalmHelped(Swept(s, some), xs - KeySet(some), StrHash);
      CalmTaken(Swept(s, some), xs - KeySet(some), key, StrHash);
      assert xs - KeySet(some) - {key} == xs - KeySet(keys);
    }
  }

  /** A set with room: the operation on it returns and leaves it calm. */
  lemma TargetCalm(a: State, key: Bytes, z: SetMachine.Op)
    requires SetsCalm(a.data) && (z.Add? && key in a.data ==> RoomIn(a.data[key], z.name))
    ensures var v := Target(a.data, key, z);
            v.Some? ==> SetEnds(v.value, z) && ContentCalm(Content([], Some(SetAfter(v.value, z))))
  {
    var v := Target(a.data, key, z);
    if v.Some? {
      FiledEmpty(StrHash);
      assert key in a.data ==> ContentCalm(a.data[key]);
      if z.Add? {
        assert Effect(v.value.scores, z).Keys == v.value.scores.Keys + {z.name};
        CalmAdd(v.value.tables, v.value.scores, z.name);
      } else {
        CalmStep(v.value.tables, v.value.scores, z);
      }
    }
  }

  /** With at most 31 keys, and at most 31 names in the set at hand, those to be added included,
      nothing hangs. */
  lemma FewKeysReturn(a: State, op: Op)
    requires Untroubled(a) && Roomy(a, op)
    ensures !Hangs(a, op) && !HangsIn(a, op)
  {
    assert Hangs(a, op) ==> HangsIn(a, op);
    CalmHelped(a.tables, a.data.Keys, StrHash);
    if op.Timers? {
      forall keys | Sticks(a, keys, op.now_us) ensures false {
        CalmSwept(a.tables, a.data.Keys, keys);
        CalmHelped(Swept(a.tables, keys), a.data.Keys - KeySet(keys), StrHash);
      }
    } else {
      if Brings(op) { CalmBound(a.tables, a.data, op.key); }
      if op.OnSet? { TargetCalm(a, op.key, op.z); }
    }
  }

  lemma UntroubledPass(a: State, keys: seq<Bytes>, now_us: nat, b: State)
    requires Untroubled(a) && Expires(a, keys, now_us, b) && Sweeps(a, keys, b)
    ensures Untroubled(b)
  {
    assert forall k <- keys :: k in a.due.Keys;
    CalmSwept(a.tables, a.data.Keys, keys);
    assert b.data.Keys == a.data.Keys - KeySet(keys) && b.due.Keys == a.due.Keys - KeySet(keys);
    forall k | k in b.data ensures ContentCalm(b.data[k]) { assert ContentCalm(a.data[k]); }
  }

  lemma UntroubledSet(a: State, key: Bytes, val: Bytes, b: State)
    requires Untroubled(a) && (key !in a.data ==> |a.data| < 31)
    requires b.data == Stored(a.data, key, val) && b.due == a.due && b.tables == Bound(a.tables, a.data, key)
    ensures Untroubled(b)
  {
    CalmBound(a.tables, a.data, key);
    assert b.data.Keys == a.data.Keys + {key};
    forall k | k in b.data ensures ContentCalm(b.data[k]) { assert k in a.data ==> ContentCalm(a.data[k]); }
  }

  lemma UntroubledOnSet(a: State, key: Bytes, z: SetMachine.Op, b: State)
    requires Untroubled(a) && Roomy(a, OnSet(key, z)) && b.data == SetChanged(a.data, key, z) && b.due == a.due
    requires b.tables == OnSetTables(a.tables, a.data, key, z)
    ensures Untroubled(b)
  {
    ChangedCalm(a, key, z);
    CalmHelped(a.tables, a.data.Keys, StrHash);
    if z.Add? { CalmBound(a.tables, a.data, key); }
  }

  lemma ChangedCalm(a: State, key: Bytes, z: SetMachine.Op)
    requires SetsCalm(a.data) && (z.Add? && key in a.data ==> RoomIn(a.data[key], z.name))
    ensures SetsCalm(SetChanged(a.data, key, z))
    ensures SetChanged(a.data, key, z).Keys == if z.Add? then a.data.Keys + {key} else a.data.Keys
  {
    TargetCalm(a, key, z);
    var data := SetChanged(a.data, key, z);
    forall k | k in data ensures ContentCalm(data[k]) { assert k in a.data ==> ContentCalm(a.data[k]); }
  }

  lemma UntroubledDel(a: State, key: Bytes, b: State)
    requires Untroubled(a) && b.data == a.data - {key} && b.due == a.due - {key}
    requires b.tables == Unbound(a.tables, a.data, key)
    ensures Untroubled(b)
  {
    CalmUnbound(a.tables, a.data, key);
    assert b.data.Keys == a.data.Keys - {key} && b.due.Keys == a.due.Keys - {key};
    forall k | k in b.data ensures ContentCalm(b.data[k]) { assert ContentCalm(a.data[k]); }
  }

  lemma UntroubledStep(a: State, op: Op, b: State)
    requires Untroubled(a) && Steps(a, op, b, false) && Roomy(a, op)
    ensures Untroubled(b)
  {
    assert StepsBy(a, op, b, false);
    match op
    case Timers(now_us) =>
      var keys :| Expires(a, keys, now_us, b) && Sweeps(a, keys, b);
      UntroubledPass(a, keys, now_us, b);
    case Set(key, val) => UntroubledSet(a, key, val, b);
    case OnSet(key, z) => UntroubledOnSet(a, key, z, b);
    case Del(key) => UntroubledDel(a, key, b);
    case _ => CalmHelped(a.tables, a.data.Keys, StrHash);
  }

  /** The operation that brings in the 32nd key hangs unless all keys hash to a multiple of four. */
  lemma ThirtySecondKey(a: State, op: Op)
    requires Untroubled(a) && Brings(op) && op.key !in a.data && |a.data| == 31
    ensures Hangs(a, op) <==> exists k :: k in a.data.Keys + {op.key} && StrHash(k) % 4 != 0
  {
    assert Hangs(a, op) <==> HangsIn(a, op);
    CalmHelped(a.tables, a.data.Keys, StrHash);
    FullInserted(a.tables, a.data.Keys, op.key, StrHash);
    if op.OnSet? { TargetCalm(a, op.key, op.z); }
  }

  /** The zadd that brings in the 32nd name of a set hangs, however few keys there are, unless all
      names of the set hash to a multiple of four. */
  lemma ThirtySecondMember(a: State, key: Bytes, name: Bytes, score: Score)
    requires Untroubled(a) && key in a.data && a.data[key].zset.Some?
    requires var m := a.data[key].zset.value.scores; name !in m && |m| == 31
    ensures Hangs(a, OnSet(key, Add(name, score))) <==>
            exists n :: n in a.data[key].zset.value.scores.Keys + {name} && StrHash(n) % 4 != 0
  {
    var v, op := a.data[key].zset.value, OnSet(key, Add(name, score));
    assert Hangs(a, op) <==> HangsIn(a, op);
    CalmBound(a.tables, a.data, key);
    assert ContentCalm(a.data[key]);
    CalmHelped(v.tables, v.scores.Keys, StrHash);
    FullInserted(v.tables, v.scores.Keys, name, StrHash);
  }

  /** Fewer than 31 keys are live, and fewer than 31 names in every set. */
  ghost predicate Modest(a: State) {
    |a.data| < 31 && forall k <- a.data.Keys :: a.data[k].zset.Some? ==> |a.data[k].zset.value.scores| < 31
  }

  /** A trace whose operations all start in such a state leads to an untroubled one. */
  lemma {:induction false} TraceUntroubled(trace: seq<State>, ops: seq<Op>)
    requires IsTrace(trace, ops, false) && forall i :: 0 <= i < |trace| - 1 ==> Modest(trace[i])
    ensures Untroubled(trace[|trace| - 1])
    decreases |trace|
  {
    var n := |trace| - 1;
    if n == 0 {
      FiledEmpty(StrHash);
    } else {
      TraceBefore(trace, ops, false);
      TraceUntroubled(trace[..n], ops);
      assert Modest(trace[n - 1]);
      UntroubledStep(trace[n - 1], ops[n - 1], trace[n]);
    }
  }

  // ----- one key is enough -----

  /** The names 0, 1, 2, ... are added to the set of one key. */
  function OneSet(n: nat): (ops: seq<Op>)
    requires n <= 256
    ensures |ops| == n
  {
    seq(n, i requires 0 <= i < n => OnSet(KEY, Add(OneByte(i), 0.0)))
  }

  const KEY: Bytes := [115]

  /** A key space with that key alone. */
  function Alone(v: SetValue): map<Bytes, Content> {
    map[KEY := Content([], Some(v))]
  }

  /** The set after `n` of them. */
  ghost predicate HoldsOnes(v: SetValue, n: nat)
    requires n <= 256
  {
    Machine(OneByteNames(n)) == Some(v.tables) && v.scores == Replay(OneByteNames(n))
  }

  lemma AloneChanged(v: SetValue, z: SetMachine.Op)
    ensures Target(Alone(v), KEY, z) == Some(v) && SetChanged(Alone(v), KEY, z) == Alone(SetAfter(v, z))
    ensures z.Add? ==> Target(map[], KEY, z) == Some(NO_NAMES)
    ensures z.Add? ==> SetChanged(map[], KEY, z) == Alone(SetAfter(NO_NAMES, z))
  {
  }

  lemma OneMoreByte(a: State, n: nat, v: SetValue, b: State)
    requires n < 256 && HoldsOnes(v, n) && Steps(a, OnSet(KEY, Add(OneByte(n), 0.0)), b, false)
    requires a.data == Alone(v) || (a.data == map[] && v == NO_NAMES)
    ensures b.data == Alone(SetAfter(v, Add(OneByte(n), 0.0))) && HoldsOnes(SetAfter(v, Add(OneByte(n), 0.0)), n + 1)
  {
    var z := Add(OneByte(n), 0.0);
    assert StepsBy(a, OnSet(KEY, z), b, false);
    AloneChanged(v, z);
    NextOneByte(n, v);
  }

  lemma NextOneByte(n: nat, v: SetValue)
    requires n < 256 && HoldsOnes(v, n) && SetEnds(v, Add(OneByte(n), 0.0))
    ensures HoldsOnes(SetAfter(v, Add(OneByte(n), 0.0)), n + 1)
  {
    var ops := OneByteNames(n + 1);
    assert ops[..n] == OneByteNames(n) && ops[n] == Add(OneByte(n), 0.0);
  }

  lemma {:induction false} OnesTrace(trace: seq<State>, n: nat) returns (v: SetValue)
    requires n <= 256 && IsTrace(trace, OneSet(n), false)
    ensures HoldsOnes(v, |trace| - 1)
    ensures trace[|trace| - 1].data == Alone(v) || (trace[|trace| - 1].data == map[] && v == NO_NAMES)
    decreases |trace|
  {
    var k := |trace| - 1;
    v := NO_NAMES;
    if k > 0 {
      TraceBefore(trace, OneSet(n), false);
      v := OnesTrace(trace[..k], n);
      assert Steps(trace[k - 1], OneSet(n)[k - 1], trace[k], false);
      OneMoreByte(trace[k - 1], k - 1, v, trace[k]);
      v := SetAfter(v, Add(OneByte(k - 1), 0.0));
    }
  }

  lemma OnesStop(trace: seq<State>, n: nat)
    requires n <= 256 && Machine(OneByteNames(n)).None? && IsTrace(trace, OneSet(n), false)
    ensures |trace| <= n
  {
    var v := OnesTrace(trace, n);
  }

  // ----- a timer pass hangs or not -----

  /** No two keys have the same deadline. */
  ghost predicate Apart(due: map<Bytes, nat>) {
    forall k <- due.Keys, f <- due.Keys :: due[k] == due[f] ==> k == f
  }

  lemma EarliestFirst(due: map<Bytes, nat>, keys: seq<Bytes>, n: nat, now_us: nat)
    requires Earliest(due, keys, now_us) && n <= |keys|
    ensures Earliest(due, keys[..n], now_us)
  {
    var some := keys[..n];
    forall j | 0 <= j < n ensures keys[j] in KeySet(some) { assert some[j] == keys[j]; }
    forall k, f | k in some && f in due.Keys - KeySet(some) ensures due[k] <= due[f] {
      var i :| 0 <= i < n && keys[i] == k;
      if f in keys {
        var j :| 0 <= j < |keys| && keys[j] == f;
      }
    }
  }

  lemma SameNext(due: map<Bytes, nat>, p: seq<Bytes>, x: Bytes, y: Bytes, now_us: nat)
    requires Apart(due) && Earliest(due, p + [x], now_us) && Earliest(due, p + [y], now_us)
    ensures x == y
  {
    NextIsEarliest(due, p, x, now_us, y);
    NextIsEarliest(due, p, y, now_us, x);
  }

  /** The next key of a pass is no later than one that another pass takes next. */
  lemma NextIsEarliest(due: map<Bytes, nat>, p: seq<Bytes>, x: Bytes, now_us: nat, y: Bytes)
    requires Earliest(due, p + [x], now_us) && Earliest(due, p + [y], now_us)
    ensures x in due && y in due && due[x] <= due[y]
  {
    assert (p + [x])[|p|] == x && (p + [y])[|p|] == y;
    assert forall i :: 0 <= i < |p| ==> (p + [y])[i] == p[i];
    assert y !in p && x in p + [x] && y in p + [y];
  }

  /** Two passes over different deadlines take the same keys in the same order. */
  lemma {:induction false} SameStart(due: map<Bytes, nat>, x: seq<Bytes>, y: seq<Bytes>, now_us: nat)
    requires Apart(due) && Earliest(due, x, now_us) && Earliest(due, y, now_us) && |x| <= |y|
    ensures x == y[..|x|]
    decreases |x|
  {
    if x != [] {
      var n := |x| - 1;
      EarliestFirst(due, x, n, now_us);
      EarliestFirst(due, y, n + 1, now_us);
      SameStart(due, x[..n], y, now_us);
      assert x == x[..n] + [x[n]] && y[..n + 1] == y[..n] + [y[n]];
      SameNext(due, x[..n], x[n], y[n], now_us);
    }
  }

  lemma {:induction false} LeastDue(due: map<Bytes, nat>, left: set<Bytes>) returns (k: Bytes)
    requires left != {} && left <= due.Keys
    ensures k in left && forall f <- left :: due[k] <= due[f]
    decreases |left|
  {
    var x :| x in left;
    k := x;
    if left != {x} {
      var y := LeastDue(due, left - {x});
      k := if due[x] <= due[y] then x else y;
    }
  }

  lemma EarliestOn(due: map<Bytes, nat>, keys: seq<Bytes>, now_us: nat, k: Bytes)
    requires Earliest(due, keys, now_us) && k in due.Keys - KeySet(keys) && due[k] < now_us
    requires forall f <- due.Keys - KeySet(keys) :: due[k] <= due[f]
    ensures Earliest(due, keys + [k], now_us)
  {
    var more := keys + [k];
    assert KeySet(more) == KeySet(keys) + {k};
    forall i, j | 0 <= i < j < |more| ensures more[i] != more[j] && due[more[i]] <= due[more[j]] {
      assert more[i] in keys;
    }
  }

  lemma SweepOn(s: Tables<Bytes>, keys: seq<Bytes>, k: Bytes)
    requires SweepEnds(s, keys) && Ends(Swept(s, keys))
    ensures SweepEnds(s, keys + [k])
  {
    var more := keys + [k];
    forall i | 0 <= i < |more| ensures Ends(Swept(s, more[..i])) {
      assert more[..i] == if i < |keys| then keys[..i] else keys;
    }
  }

  /** A pass that has come as far as `keys` ends or gets stuck. */
  lemma {:induction false} PassGoesOn(a: State, keys: seq<Bytes>, now_us: nat)
    requires Earliest(a.due, keys, now_us) && |keys| <= K_MAX_WORKS + 1 && SweepEnds(a.tables, keys)
    ensures Hangs(a, Timers(now_us)) || exists b :: Steps(a, Timers(now_us), b, false)
    decreases K_MAX_WORKS + 1 - |keys|
  {
    var left := set k | k in a.due.Keys - KeySet(keys) && a.due[k] < now_us;
    if left == {} || |keys| == K_MAX_WORKS + 1 {
      var b := State(a.data - KeySet(keys), a.due - KeySet(keys), Swept(a.tables, keys));
      forall k | k in b.due && |keys| <= K_MAX_WORKS ensures b.due[k] >= now_us { assert k !in left; }
      Timely(a, Timers(now_us), keys, b, false);
    } else if !Ends(Swept(a.tables, keys)) {
      var k :| k in left;
      Hung(a, Timers(now_us), keys);
    } else {
      var k := LeastDue(a.due, left);
      forall f | f in a.due.Keys - KeySet(keys) ensures a.due[k] <= a.due[f] {
        assert f !in left ==> a.due[f] >= now_us;
      }
      EarliestOn(a.due, keys, now_us, k);
      SweepOn(a.tables, keys, k);
      PassGoesOn(a, keys + [k], now_us);
    }
  }

  lemma LongerPass(a: State, now_us: nat, x: seq<Bytes>, y: seq<Bytes>, b: State)
    requires Apart(a.due) && Sticks(a, x, now_us) && Expires(a, y, now_us, b)
    ensures |x| < |y|
  {
    var k :| k in a.due && k !in x && a.due[k] < now_us;
    if k !in y {
      PassLeaves(a, now_us, y, b, k);
    } else if |y| <= |x| {
      StartInside(a.due, y, x, now_us);
    }
  }

  /** A pass that leaves a due key has removed 2001 others. */
  lemma PassLeaves(a: State, now_us: nat, y: seq<Bytes>, b: State, k: Bytes)
    requires Expires(a, y, now_us, b) && k in a.due && k !in y && a.due[k] < now_us
    ensures |y| == K_MAX_WORKS + 1
  {
    assert k in b.due.Keys && b.due[k] == a.due[k];
  }

  lemma StartInside(due: map<Bytes, nat>, x: seq<Bytes>, y: seq<Bytes>, now_us: nat)
    requires Apart(due) && Earliest(due, x, now_us) && Earliest(due, y, now_us) && |x| <= |y|
    ensures forall k <- x :: k in y
  {
    SameStart(due, x, y, now_us);
  }

  lemma NotBoth(a: State, now_us: nat, x: seq<Bytes>, y: seq<Bytes>, b: State)
    requires Apart(a.due) && Sticks(a, x, now_us) && Expires(a, y, now_us, b)
    ensures !SweepEnds(a.tables, y)
  {
    LongerPass(a, now_us, x, y, b);
    SameStart(a.due, x, y, now_us);
  }

  /** The code as written hangs in an operation if and only if there is no state it could lead to.
      For a timer pass this is when no two keys have the same deadline: then the keys it takes are
      determined. */
  lemma HangsExactly(a: State, op: Op)
    requires op.Timers? ==> Apart(a.due)
    ensures Hangs(a, op) <==> !exists b :: Steps(a, op, b, false)
  {
    if op.Timers? {
      assert Earliest(a.due, [], op.now_us);
      PassGoesOn(a, [], op.now_us);
      if Hangs(a, op) {
        assert HangsIn(a, op);
        var x :| Sticks(a, x, op.now_us);
        forall b, y | Expires(a, y, op.now_us, b) ensures !Sweeps(a, y, b) { NotBoth(a, op.now_us, x, y, b); }
        forall b ensures !Steps(a, op, b, false) { assert Steps(a, op, b, false) ==> StepsBy(a, op, b, false); }
      }
    } else {
      assert Hangs(a, op) <==> HangsIn(a, op);
      var b := State(NextData(a, op), NextDue(a, op), NextTables(a, op));
      if OpEnds(a, op) { Timeless(a, op, b, false); }
      forall c | Steps(a, op, c, false) ensures OpEnds(a, op) { assert StepsBy(a, op, c, false); }
    }
  }
}
