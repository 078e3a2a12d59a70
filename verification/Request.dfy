/** Requests: send_req in src/client.cpp:62-86 and parse_req in src/server.cpp:412-443. */
module Request {
  import opened Keys
  import opened Wire

  const K_MAX_MSG: nat := 4096
  const K_MAX_ARGS: nat := 1024

  function StrsLen(cmd: seq<Bytes>): nat {
    if cmd == [] then 0 else 4 + |cmd[0]| + StrsLen(cmd[1..])
  }

  /** A string behind its length. */
  function One(s: Bytes): (b: Bytes)
    ensures |b| == 4 + |s|
  {
    Le(|s|, 4) + s
  }

  /** The strings of a command, each behind its length. */
  function Strs(cmd: seq<Bytes>): (b: Bytes)
    ensures |b| == StrsLen(cmd)
  {
    if cmd == [] then [] else One(cmd[0]) + Strs(cmd[1..])
  }

  /** The body of a request: how many strings, and the strings. */
  function Body(cmd: seq<Bytes>): Bytes {
    Le(|cmd|, 4) + Strs(cmd)
  }

  /** A body behind its length, on the wire. */
  function Frame(body: Bytes): Bytes {
    Le(|body|, 4) + body
  }

  /** The reference decoder for `n` strings that fill `data`. */
  function ParseStrs(data: Bytes, n: nat): Option<seq<Bytes>>
    decreases n
  {
    if n == 0 then (if data == [] then Some([]) else None)
    else if |data| < 4 then None
    else
      var sz := Un(data[..4]);
      if |data| < 4 + sz then None
      else
        match ParseStrs(data[4 + sz..], n - 1)
        case None => None
        case Some(rest) => Some([data[4..4 + sz]] + rest)
  }

  function ParseBody(data: Bytes): Option<seq<Bytes>> {
    if |data| < 4 then None
    else if Un(data[..4]) > K_MAX_ARGS then None
    else ParseStrs(data[4..], Un(data[..4]))
  }

  lemma {:induction false} StrsAtLeast(cmd: seq<Bytes>)
    ensures StrsLen(cmd) >= 4 * |cmd|
    ensures forall s <- cmd :: |s| <= StrsLen(cmd)
  {
    if cmd != [] { StrsAtLeast(cmd[1..]); }
  }

  /** A command that fits in a message has at most 1023 strings, below the server's limit. */
  lemma FewStrings(cmd: seq<Bytes>)
    requires |Body(cmd)| <= K_MAX_MSG
    ensures |cmd| <= 1023 < K_MAX_ARGS
  {
    StrsAtLeast(cmd);
  }

  lemma {:induction false} ParseStrsOfStrs(cmd: seq<Bytes>)
    requires forall s <- cmd :: |s| < U32
    ensures ParseStrs(Strs(cmd), |cmd|) == Some(cmd)
  {
    if cmd != [] {
      var s, rest := cmd[0], Strs(cmd[1..]);
      var data := Strs(cmd);
      Assoc(Le(|s|, 4), s, rest);
      assert data == Le(|s|, 4) + (s + rest);
      U32Front(|s|, s + rest);
      assert data[4..4 + |s|] == s && data[4 + |s|..] == rest;
      ParseStrsOfStrs(cmd[1..]);
      assert cmd == [cmd[0]] + cmd[1..];
    }
  }

  /** Every command list that fits in a message parses back to itself. */
  lemma ParseOfBody(cmd: seq<Bytes>)
    requires |Body(cmd)| <= K_MAX_MSG
    ensures ParseBody(Body(cmd)) == Some(cmd)
  {
    FewStrings(cmd);
    StrsAtLeast(cmd);
    U32Front(|cmd|, Strs(cmd));
    ParseStrsOfStrs(cmd);
  }

  lemma StrsCons(s: Bytes, more: seq<Bytes>)
    ensures Strs([s] + more) == One(s) + Strs(more)
  {
    assert ([s] + more)[1..] == more;
  }

  /** The bytes of the first string are its encoding. */
  lemma FirstString(data: Bytes)
    requires |data| >= 4 && |data| >= 4 + Un(data[..4])
    ensures var sz := Un(data[..4]); data == One(data[4..4 + sz]) + data[4 + sz..]
  {
    var sz := Un(data[..4]);
    LeUn(data[..4]);
    assert data == (data[..4] + data[4..4 + sz]) + data[4 + sz..];
  }

  lemma {:induction false} StrsOfParse(data: Bytes, n: nat)
    requires ParseStrs(data, n).Some?
    ensures |ParseStrs(data, n).value| == n && Strs(ParseStrs(data, n).value) == data
    decreases n
  {
    if n > 0 {
      var sz := Un(data[..4]);
      var s, rest := data[4..4 + sz], data[4 + sz..];
      StrsOfParse(rest, n - 1);
      FirstString(data);
      StrsCons(s, ParseStrs(rest, n - 1).value);
    }
  }

  /** Every accepted body is the encoding of what it parses to, byte for byte. */
  lemma BodyOfParse(data: Bytes)
    requires ParseBody(data).Some?
    ensures Body(ParseBody(data).value) == data
  {
    StrsOfParse(data[4..], Un(data[..4]));
    LeUn(data[..4]);
    assert data == data[..4] + data[4..];
  }

  /** What the loop of parse_req still has to do agrees with what was asked for. */
  ghost predicate OnTrack(want: Option<seq<Bytes>>, out: seq<Bytes>, rest: Option<seq<Bytes>>) {
    want.Some? == rest.Some? && (want.Some? ==> want.value == out + rest.value)
  }

  /** One string of the loop. */
  lemma ParseStep(data: Bytes, pos: nat, n: nat, want: Option<seq<Bytes>>, out: seq<Bytes>)
    requires pos <= |data| && n > 0 && OnTrack(want, out, ParseStrs(data[pos..], n))
    ensures pos + 4 > |data| ==> want.None?
    ensures pos + 4 <= |data| && pos + 4 + Un(data[pos..pos + 4]) > |data| ==> want.None?
    ensures pos + 4 <= |data| && pos + 4 + Un(data[pos..pos + 4]) <= |data| ==>
      var next := pos + 4 + Un(data[pos..pos + 4]);
      OnTrack(want, out + [data[pos + 4..next]], ParseStrs(data[next..], n - 1))
  {
    var rest := data[pos..];
    if |rest| >= 4 {
      assert rest[..4] == data[pos..pos + 4];
      var sz := Un(rest[..4]);
      if |rest| >= 4 + sz {
        var s := data[pos + 4..pos + 4 + sz];
        assert rest[4..4 + sz] == s && rest[4 + sz..] == data[pos + 4 + sz..];
        var more := ParseStrs(data[pos + 4 + sz..], n - 1);
        if more.Some? { assert out + ([s] + more.value) == (out + [s]) + more.value; }
      }
    }
  }

  /** parse_req: the strings on success, nothing otherwise; it agrees with the reference
      decoder on every input. */
  method ParseReq(data: Bytes) returns (rc: int, out: seq<Bytes>)
    ensures rc == (if ParseBody(data).Some? then 0 else -1)
    ensures rc == 0 ==> out == ParseBody(data).value
  {
    out := [];
    if |data| < 4 {
      return -1, out;
    }
    var n := Un(data[..4]);
    if n > K_MAX_ARGS {
      return -1, out;
    }
    var pos := 4;
    ghost var want := ParseStrs(data[4..], n);
    while n > 0
      invariant 4 <= pos <= |data| && n >= 0
      invariant OnTrack(want, out, ParseStrs(data[pos..], n))
      decreases n
    {
      ParseStep(data, pos, n, want, out);
      if pos + 4 > |data| {
        return -1, out;
      }
      var sz := Un(data[pos..pos + 4]);
      if pos + 4 + sz > |data| {
        return -1, out;
      }
      out := out + [data[pos + 4..pos + 4 + sz]];
      pos := pos + 4 + sz;
      n := n - 1;
    }
    if pos != |data| {
      return -1, out;
    }
    rc := 0;
  }

  // ----- send_req -----

  /** memcpy into the write buffer */
  method Put(buf: array<byte>, pos: nat, src: Bytes)
    requires pos + |src| <= buf.Length
    modifies buf
    ensures buf[..pos] == old(buf[..pos]) && buf[pos..pos + |src|] == src
  {
    forall i | 0 <= i < |src| {
      buf[pos + i] := src[i];
    }
  }

  lemma {:induction false} StrsSnoc(cmd: seq<Bytes>, s: Bytes)
    ensures Strs(cmd + [s]) == Strs(cmd) + One(s)
    ensures StrsLen(cmd + [s]) == StrsLen(cmd) + 4 + |s|
  {
    if cmd == [] {
      assert [] + [s] == [s] && [s][1..] == [];
      assert Strs([s]) == One(s) + Strs([]);
    } else {
      StrsSnoc(cmd[1..], s);
      assert (cmd + [s])[1..] == cmd[1..] + [s];
      Assoc(One(cmd[0]), Strs(cmd[1..]), One(s));
    }
  }

  lemma {:induction false} StrsLenPrefix(cmd: seq<Bytes>, i: nat)
    requires i <= |cmd|
    ensures StrsLen(cmd[..i]) <= StrsLen(cmd)
    decreases |cmd| - i
  {
    if i == |cmd| {
      assert cmd[..i] == cmd;
    } else {
      StrsSnoc(cmd[..i], cmd[i]);
      assert cmd[..i + 1] == cmd[..i] + [cmd[i]];
      StrsLenPrefix(cmd, i + 1);
    }
  }

  lemma NextString(cmd: seq<Bytes>, i: nat)
    requires i < |cmd|
    ensures Strs(cmd[..i + 1]) == Strs(cmd[..i]) + One(cmd[i])
    ensures StrsLen(cmd[..i + 1]) == StrsLen(cmd[..i]) + 4 + |cmd[i]| <= StrsLen(cmd)
  {
    assert cmd[..i + 1] == cmd[..i] + [cmd[i]];
    StrsSnoc(cmd[..i], cmd[i]);
    StrsLenPrefix(cmd, i + 1);
  }

  lemma NextLength(cmd: seq<Bytes>, i: nat)
    requires i < |cmd|
    ensures StrsLen(cmd[..i + 1]) == StrsLen(cmd[..i]) + 4 + |cmd[i]| <= StrsLen(cmd)
  {
    NextString(cmd, i);
  }

  lemma NoWrap(n: nat)
    requires n < U32
    ensures n % U32 == n
  {
  }

  /** The first loop of send_req: the length of the body, in 32 bits. */
  method BodyLength(cmd: seq<Bytes>) returns (len: nat)
    requires 4 + StrsLen(cmd) < U32
    ensures len == 4 + StrsLen(cmd)
  {
    len := 4;
    for i := 0 to |cmd|
      invariant len == 4 + StrsLen(cmd[..i])
    {
      NextLength(cmd, i);
      NoWrap(len + 4 + |cmd[i]|);
      len := (len + 4 + |cmd[i]|) % U32;
    }
    assert cmd[..|cmd|] == cmd;
  }

  /** send_req up to its write_all: nothing is sent when the body is longer than a message,
      otherwise exactly the framed body. */
  method SendReq(cmd: seq<Bytes>) returns (rc: int, sent: Bytes)
    requires |Body(cmd)| < U32
    ensures rc == (if |Body(cmd)| <= K_MAX_MSG then 0 else -1)
    ensures sent == if rc == 0 then Frame(Body(cmd)) else []
  {
    var len := BodyLength(cmd);
    if len > K_MAX_MSG {
      return -1, [];
    }
    sent := Fill(cmd, len);
    rc := 0;
  }

  /** One string goes into the buffer behind its length. */
  method PutString(buf: array<byte>, pos: nat, s: Bytes)
    requires pos + 4 + |s| <= buf.Length
    modifies buf
    ensures buf[..pos + 4 + |s|] == old(buf[..pos]) + One(s)
  {
    ghost var was := buf[..pos];
    Append(buf, pos, Le(|s|, 4));
    Append(buf, pos + 4, s);
    Assoc(was, Le(|s|, 4), s);
  }

  /** memcpy behind what is there */
  method Append(buf: array<byte>, pos: nat, src: Bytes)
    requires pos + |src| <= buf.Length
    modifies buf
    ensures buf[..pos + |src|] == old(buf[..pos]) + src
  {
    Put(buf, pos, src);
    assert buf[..pos + |src|] == buf[..pos] + buf[pos..pos + |src|];
  }

  /** The part of send_req that fills its buffer. */
  method Fill(cmd: seq<Bytes>, len: nat) returns (sent: Bytes)
    requires len == |Body(cmd)| <= K_MAX_MSG
    ensures sent == Frame(Body(cmd))
  {
    var wbuf := new byte[4 + K_MAX_MSG](_ => 0);
    Append(wbuf, 0, Le(len, 4));
    Append(wbuf, 4, Le(|cmd|, 4));
    ghost var front := Le(len, 4) + Le(|cmd|, 4);
    assert wbuf[..8] == front;
    var curr_pos := 8;
    for i := 0 to |cmd|
      invariant curr_pos == 8 + StrsLen(cmd[..i]) && curr_pos <= 4 + len
      invariant wbuf[..curr_pos] == front + Strs(cmd[..i])
    {
      NextString(cmd, i);
      Assoc(front, Strs(cmd[..i]), One(cmd[i]));
      PutString(wbuf, curr_pos, cmd[i]);
      curr_pos := curr_pos + 4 + |cmd[i]|;
    }
    assert cmd[..|cmd|] == cmd;
    Assoc(Le(len, 4), Le(|cmd|, 4), Strs(cmd));
    sent := wbuf[..4 + len];
  }
}
