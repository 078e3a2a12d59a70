/** What the operations of src/zset.cpp mean for the map from names to scores and for the name
    tables of the index, with the migration loop as written: when they return, and what they leave. */
module SetMachine {
  import opened Keys
  import opened Migration

  /** The tables of names `s` of a set that stands for `m`, after zset_lookup; an empty set is not
      looked up. */
  function Looked(s: Tables<Bytes>, m: map<Bytes, Score>): Tables<Bytes> {
    if m == map[] then s else Helped(s, StrHash)
  }

  predicate LookupEnds(s: Tables<Bytes>, m: map<Bytes, Score>) {
    m == map[] || Ends(s)
  }

  predicate AddEnds(s: Tables<Bytes>, m: map<Bytes, Score>, name: Bytes) {
    LookupEnds(s, m) && (name in m || InsertEnds(Looked(s, m), name, StrHash))
  }

  function Added(s: Tables<Bytes>, m: map<Bytes, Score>, name: Bytes): Tables<Bytes> {
    if name in m then Looked(s, m) else Inserted(Looked(s, m), name, StrHash)
  }

  function Popped(s: Tables<Bytes>, m: map<Bytes, Score>, name: Bytes): Tables<Bytes> {
    if name in m then Taken(Looked(s, m), name) else Looked(s, m)
  }

  /** zset_add, zset_pop and zset_lookup */
  datatype Op = Add(name: Bytes, score: Score) | Pop(name: Bytes) | Find(name: Bytes)

  function Effect(m: map<Bytes, Score>, op: Op): map<Bytes, Score> {
    match op
    case Add(name, score) => m[name := score]
    case Pop(name) => m - {name}
    case Find(_) => m
  }

  ghost function Replay(ops: seq<Op>): map<Bytes, Score> {
    if ops == [] then map[] else Effect(Replay(ops[..|ops| - 1]), ops[|ops| - 1])
  }

  predicate StepEnds(s: Tables<Bytes>, m: map<Bytes, Score>, op: Op) {
    if op.Add? then AddEnds(s, m, op.name) else LookupEnds(s, m)
  }

  function StepTables(s: Tables<Bytes>, m: map<Bytes, Score>, op: Op): Tables<Bytes> {
    match op
    case Add(name, _) => Added(s, m, name)
    case Pop(name) => Popped(s, m, name)
    case Find(_) => Looked(s, m)
  }

  /** A sorted set as a value. The tables are those of the loop as written. */
  datatype SetValue = SetValue(scores: map<Bytes, Score>, tables: Tables<Bytes>)

  const NO_NAMES: SetValue := SetValue(map[], Tables([], []))

  /** The operation on the set returns, */
  predicate SetEnds(v: SetValue, op: Op) {
    StepEnds(v.tables, v.scores, op)
  }

  /** and what it makes of the set. */
  function SetAfter(v: SetValue, op: Op): SetValue {
    SetValue(Effect(v.scores, op), StepTables(v.tables, v.scores, op))
  }

  /** The name tables after a run of the code as written, or none if one of its calls never
      returns. It depends on the operations only, so it tells beforehand whether they return. */
  ghost function Machine(ops: seq<Op>): Option<Tables<Bytes>> {
    if ops == [] then Some(Tables([], []))
    else
      var before := ops[..|ops| - 1];
      match Machine(before)
      case None => None
      case Some(s) =>
        var op := ops[|ops| - 1];
        if StepEnds(s, Replay(before), op) then Some(StepTables(s, Replay(before), op)) else None
  }

  lemma {:induction false} MachineStuck(ops: seq<Op>, i: nat)
    requires i <= |ops| && Machine(ops[..i]).None?
    ensures Machine(ops).None?
  {
    if i == |ops| {
      assert ops[..i] == ops;
    } else {
      var before := ops[..|ops| - 1];
      assert before[..i] == ops[..i];
      MachineStuck(before, i);
    }
  }

  // ----- When the code as written returns -----

  /** Fewer than 32 names are live at every moment of the run. */
  ghost predicate Few(ops: seq<Op>) {
    forall i :: 0 <= i <= |ops| ==> |Replay(ops[..i])| < 32
  }

  /** Then every call returns: the first table is never full. */
  lemma {:induction false} FewNamesReturn(ops: seq<Op>)
    requires Few(ops)
    ensures Machine(ops).Some? && Calm(Machine(ops).value, Replay(ops).Keys, StrHash)
  {
    if ops == [] {
      FiledEmpty(StrHash);
    } else {
      var before, op := ops[..|ops| - 1], ops[|ops| - 1];
      forall i | 0 <= i <= |before| ensures |Replay(before[..i])| < 32 { assert before[..i] == ops[..i]; }
      FewNamesReturn(before);
      assert ops[..|ops|] == ops;
      CalmStep(Machine(before).value, Replay(before), op);
    }
  }

  lemma CalmAdd(s: Tables<Bytes>, m: map<Bytes, Score>, name: Bytes)
    requires Calm(s, m.Keys, StrHash) && (name in m || |m| + 1 < 32)
    ensures AddEnds(s, m, name) && Calm(Added(s, m, name), m.Keys + {name}, StrHash)
  {
    CalmHelped(s, m.Keys, StrHash);
    if name in m {
      assert m.Keys + {name} == m.Keys;
    } else {
      CalmInserted(s, m.Keys, name, StrHash);
    }
  }

  lemma CalmPop(s: Tables<Bytes>, m: map<Bytes, Score>, name: Bytes)
    requires Calm(s, m.Keys, StrHash)
    ensures LookupEnds(s, m) && Calm(Popped(s, m, name), m.Keys - {name}, StrHash)
  {
    CalmHelped(s, m.Keys, StrHash);
    if name in m {
      CalmTaken(s, m.Keys, name, StrHash);
    } else {
      assert m.Keys - {name} == m.Keys;
    }
  }

  lemma CalmStep(s: Tables<Bytes>, m: map<Bytes, Score>, op: Op)
    requires Calm(s, m.Keys, StrHash) && (op.Add? ==> |Effect(m, op)| < 32)
    ensures StepEnds(s, m, op) && Calm(StepTables(s, m, op), Effect(m, op).Keys, StrHash)
  {
    if op.Add? {
      assert Effect(m, op).Keys == m.Keys + {op.name};
      CalmAdd(s, m, op.name);
    } else if op.Pop? {
      assert Effect(m, op).Keys == m.Keys - {op.name};
      CalmPop(s, m, op.name);
    } else {
      CalmHelped(s, m.Keys, StrHash);
    }
  }

  /** The call that brings in the 32nd name returns if and only if all the names hash to a
      multiple of four. */
  lemma ThirtySecondName(ops: seq<Op>, name: Bytes, score: Score)
    requires Few(ops) && |Replay(ops)| == 31 && name !in Replay(ops)
    ensures Machine(ops + [Add(name, score)]).Some? <==> forall n <- Replay(ops).Keys + {name} :: StrHash(n) % 4 == 0
  {
    FewNamesReturn(ops);
    var all := ops + [Add(name, score)];
    CalmHelped(Machine(ops).value, Replay(ops).Keys, StrHash);
    assert all[..|all| - 1] == ops;
    FullInserted(Machine(ops).value, Replay(ops).Keys, name, StrHash);
  }

  function OneByte(i: nat): Bytes {
    if i < 256 then [i] else []
  }

  /** Adding the one-byte names 0, 1, 2, ... */
  function OneByteNames(n: nat): (ops: seq<Op>)
    requires n <= 256
    ensures |ops| == n
  {
    seq(n, i requires 0 <= i < n => Add(OneByte(i), 0.0))
  }

  ghost function FirstOnes(n: nat): set<Bytes>
    requires n <= 256
  {
    set i: nat | i < n :: OneByte(i)
  }

  lemma NextOne(m: map<Bytes, Score>, n: nat)
    requires 0 < n <= 256 && m.Keys == FirstOnes(n - 1) && |m| == n - 1
    ensures var k := OneByte(n - 1); m[k := 0.0].Keys == FirstOnes(n) && |m[k := 0.0]| == n
  {
    var k := OneByte(n - 1);
    assert k !in FirstOnes(n - 1);
    assert FirstOnes(n) == FirstOnes(n - 1) + {k};
    assert m[k := 0.0].Keys == m.Keys + {k};
  }

  lemma {:induction false} OneByteReplay(n: nat)
    requires n <= 256
    ensures |Replay(OneByteNames(n))| == n && Replay(OneByteNames(n)).Keys == FirstOnes(n)
  {
    if n > 0 {
      OneByteReplay(n - 1);
      var ops := OneByteNames(n);
      assert ops[..n - 1] == OneByteNames(n - 1) && ops[n - 1] == Add(OneByte(n - 1), 0.0);
      NextOne(Replay(OneByteNames(n - 1)), n);
    }
  }

  lemma OneByteFew(n: nat)
    requires n < 32
    ensures Few(OneByteNames(n))
  {
    var ops := OneByteNames(n);
    forall i | 0 <= i <= n ensures |Replay(ops[..i])| < 32 {
      assert ops[..i] == OneByteNames(i);
      OneByteReplay(i);
    }
  }

  /** 32 of them make the code as written hang in the last call, and only there. */
  lemma OneByteNamesHang()
    ensures Machine(OneByteNames(31)).Some? && Machine(OneByteNames(32)).None?
  {
    var ops := OneByteNames(31);
    OneByteFew(31);
    FewNamesReturn(ops);
    OneByteReplay(31);
    assert OneByte(0) in Replay(ops).Keys;
    HashOfZero();
    ThirtySecondName(ops, OneByte(31), 0.0);
    assert OneByteNames(32) == ops + [Add(OneByte(31), 0.0)];
  }

  lemma HashOfZero()
    ensures StrHash([0]) % 4 == 1
  {
    var h := 0x811C_9DC5 * 0x811C_9DC5 % 0x1_0000_0000;
    assert h == 1_850_947_993;
    HashOne(FNV, 0, h);
  }

  lemma HashOne(start: nat, b: byte, h: nat)
    requires h == (start + b as nat) * FNV % 0x1_0000_0000
    ensures HashFrom(start, [b]) == h
  {
    assert [b][1..] == [];
  }
}
