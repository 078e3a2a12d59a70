/** The connection state machine of src/server.cpp:202-241 and 660-785 on values: what one wake-up
    does, for given answers of the kernel, to the bytes buffered, the reply still to be sent, the
    database and the requests served. */
module Session {
  import opened Keys
  import opened Wire
  import opened Framing
  import Request
  import Response

  const K_MAX_MSG: nat := Request.K_MAX_MSG
  const BUF: nat := 4 + K_MAX_MSG
  const ERR_2BIG: nat := 2

  datatype State = STATE_REQ | STATE_RES | STATE_END

  /** What a `read` answers. A buffer without room for all of `Data` takes a part of it, and the rest
      stays in the kernel. */
  datatype ReadOutcome = Data(bytes: Bytes) | ReadInterrupted | ReadAgain | ReadError

  /** What a `write` of a remainder answers; a successful one moves at least a byte. */
  datatype WriteOutcome = Wrote(n: nat) | WriteInterrupted | WriteAgain | WriteError

  const TOO_BIG: Bytes := Text("response is too big")

  function Text(s: string): (b: Bytes)
    ensures |b| == |s| && forall i :: 0 <= i < |s| ==> b[i] == s[i] as int % 256
  {
    if s == [] then [] else [(s[0] as int) % 256] + Text(s[1..])
  }

  /** A response that would not fit with its length is replaced by an error. */
  function Cap(out: Bytes): (b: Bytes)
    ensures 4 + |b| <= K_MAX_MSG
  {
    if 4 + |out| > K_MAX_MSG then Response.Encode(Response.Err(ERR_2BIG, TOO_BIG)) else out
  }

  /** What a client decodes of a response: what was written, or the error if that does not fit. */
  lemma CapDecodes(out: Bytes)
    ensures 4 + |out| <= 4096 ==> Cap(out) == out
    ensures 4 + |out| > 4096 ==>
      Response.Parse(Cap(out)) == Response.Ok(Response.Err(2, Text("response is too big")), |Cap(out)|)
  {
    if 4 + |out| > 4096 {
      Response.RoundTrip(Response.Err(ERR_2BIG, TOO_BIG), []);
      assert Cap(out) + [] == Cap(out);
    }
  }

  /** do_request as a function on the database. */
  type Exec<!D> = (D, seq<Bytes>) -> (D, Bytes)

  /** A request that was executed: its body, the database it met, and its reply. */
  datatype Served<!D> = Served(body: Bytes, db: D, reply: Bytes)

  /** `buf` is what was read and not yet executed, `unsent` the rest of the last reply. The
      kernel's answers are used up from the front; after the last of them it says "try again". */
  datatype Link<!D> = Link(
    state: State, buf: Bytes, unsent: Bytes, db: D, log: seq<Served<D>>,
    rs: seq<ReadOutcome>, ws: seq<WriteOutcome>)

  // ----- writing -----

  datatype Flushed = Flushed(state: State, unsent: Bytes, ws: seq<WriteOutcome>)

  function Moved(n: nat, remaining: nat): nat {
    if n < 1 then 1 else if n > remaining then remaining else n
  }

  /** state_res: the reply goes out until it is gone, a write would block, or one fails. */
  ghost function Flush(unsent: Bytes, ws: seq<WriteOutcome>): Flushed
    decreases |ws|, 0
  {
    if ws == [] then Flushed(STATE_RES, unsent, [])
    else
      match ws[0]
      case WriteInterrupted => Flush(unsent, ws[1..])
      case WriteAgain => Flushed(STATE_RES, unsent, ws[1..])
      case WriteError => Flushed(STATE_END, unsent, ws[1..])
      case Wrote(n) => AfterWrite(unsent, Moved(n, |unsent|), ws[1..])
  }

  /** After a write that moved `n` bytes. */
  ghost function AfterWrite(unsent: Bytes, n: nat, ws: seq<WriteOutcome>): Flushed
    decreases |ws|, 1
  {
    if n >= |unsent| then Flushed(STATE_REQ, [], ws) else Flush(unsent[n..], ws)
  }

  // ----- executing -----

  /** The frame in front is too long, or its body is malformed. */
  ghost predicate Refused(b: Bytes) {
    && 4 <= |b|
    && var len := Un(b[..4]);
       len > K_MAX_MSG || (4 + len <= |b| && Request.ParseBody(b[4..4 + len]).None?)
  }

  /** No client would send what is in front: a frame that is too long, or whose body is that of no
      command. */
  ghost predicate Unfit(b: Bytes) {
    && 4 <= |b|
    && var len := Un(b[..4]);
       len > 4096 || (4 + len <= |b| && forall cmd :: Request.Body(cmd) != b[4..4 + len])
  }

  /** Exactly that is refused. */
  lemma RefusedIsUnfit(b: Bytes)
    ensures Refused(b) <==> Unfit(b)
  {
    if 4 <= |b| && Un(b[..4]) <= K_MAX_MSG && 4 + Un(b[..4]) <= |b| {
      var body := b[4..4 + Un(b[..4])];
      if Request.ParseBody(body).Some? {
        Request.BodyOfParse(body);
      }
      forall cmd | Request.Body(cmd) == body ensures Request.ParseBody(body) == Some(cmd) {
        Request.ParseOfBody(cmd);
      }
    }
  }

  /** The request in front is executed and leaves the buffer, and its reply is framed. */
  ghost function Enacted<D>(l: Link<D>, body: Bytes, cmd: seq<Bytes>, exec: Exec<D>): Link<D>
    requires 4 + |body| <= |l.buf|
  {
    var (db, out) := exec(l.db, cmd);
    var log := l.log + [Served(body, l.db, Cap(out))];
    Link(STATE_RES, l.buf[4 + |body|..], Request.Frame(Cap(out)), db, log, l.rs, l.ws)
  }

  /** The reply is flushed as far as possible. */
  ghost function Sent<D>(l: Link<D>): Link<D> {
    var f := Flush(l.unsent, l.ws);
    l.(state := f.state, unsent := f.unsent, ws := f.ws)
  }

  /** Both. */
  ghost function Execute<D>(l: Link<D>, body: Bytes, cmd: seq<Bytes>, exec: Exec<D>): (r: Link<D>)
    requires 4 + |body| <= |l.buf|
    ensures |r.buf| < |l.buf| && r.rs == l.rs
  {
    Sent(Enacted(l, body, cmd, exec))
  }

  /** The loop over try_one_request. */
  ghost function Requests<D>(l: Link<D>, exec: Exec<D>): (r: Link<D>)
    ensures r.rs == l.rs
    decreases |l.buf|
  {
    if Refused(l.buf) then l.(state := STATE_END)
    else if Incomplete(l.buf) then l
    else
      var body := l.buf[4..4 + Un(l.buf[..4])];
      var r := Execute(l, body, Request.ParseBody(body).value, exec);
      if r.state == STATE_REQ then Requests(r, exec) else r
  }

  // ----- reading -----

  /** What the kernel has for the connection. */
  function Stream(rs: seq<ReadOutcome>): Bytes {
    if rs == [] then [] else (if rs[0].Data? then rs[0].bytes else []) + Stream(rs[1..])
  }

  function Weight(rs: seq<ReadOutcome>): nat {
    |rs| + |Stream(rs)|
  }

  /** The kernel's answers after a read took `n` bytes of the first one. */
  function Consumed(rs: seq<ReadOutcome>, n: nat): (r: seq<ReadOutcome>)
    requires rs != [] && rs[0].Data? && n <= |rs[0].bytes| && (n == 0 ==> rs[0].bytes == [])
    ensures Weight(r) < Weight(rs) && rs[0].bytes[..n] + Stream(r) == Stream(rs)
  {
    ConsumedStream(rs, n);
    if n == |rs[0].bytes| then rs[1..] else [Data(rs[0].bytes[n..])] + rs[1..]
  }

  lemma ConsumedStream(rs: seq<ReadOutcome>, n: nat)
    requires rs != [] && rs[0].Data? && n <= |rs[0].bytes|
    ensures rs[0].bytes[..n] + Stream([Data(rs[0].bytes[n..])] + rs[1..]) == Stream(rs)
    ensures n == |rs[0].bytes| ==> rs[0].bytes[..n] + Stream(rs[1..]) == Stream(rs)
  {
    StreamOn(rs[0].bytes[n..], rs[1..]);
    Resplit(rs[0].bytes, n, Stream(rs[1..]));
  }

  lemma StreamOn(bytes: Bytes, rest: seq<ReadOutcome>)
    ensures Stream([Data(bytes)] + rest) == bytes + Stream(rest)
  {
    assert ([Data(bytes)] + rest)[1..] == rest;
  }

  lemma Resplit(bytes: Bytes, n: nat, rest: Bytes)
    requires n <= |bytes|
    ensures bytes[..n] + (bytes[n..] + rest) == bytes + rest
    ensures n == |bytes| ==> bytes[..n] == bytes
  {
  }

  /** What of the answer fits behind what is buffered. */
  function Fitting(bytes: Bytes, used: nat): (b: Bytes)
    requires used < BUF
    ensures b <= bytes && used + |b| <= BUF && (b == [] <==> bytes == [])
  {
    if |bytes| > BUF - used then bytes[..BUF - used] else bytes
  }

  /** state_req: reads and executes until there is nothing to read, a reply is blocked, or the
      connection ends. */
  ghost function Receive<D>(l: Link<D>, exec: Exec<D>): Link<D>
    requires |l.buf| < BUF
    decreases Weight(l.rs), 0
  {
    if l.rs == [] then l
    else
      var rest := l.(rs := l.rs[1..]);
      match l.rs[0]
      case ReadInterrupted => Receive(rest, exec)
      case ReadAgain => rest
      case ReadError => rest.(state := STATE_END)
      case Data(bytes) =>
        var some := Fitting(bytes, |l.buf|);
        AfterRead(l.(rs := Consumed(l.rs, |some|)), some, exec)
  }

  /** The buffer after a read, and what is left to read. */
  ghost function Filled<D>(l: Link<D>): (m: Link<D>)
    requires |l.buf| < BUF && l.rs != [] && l.rs[0].Data? && l.rs[0].bytes != []
    ensures Weight(m.rs) < Weight(l.rs) && |m.buf| <= BUF
  {
    var some := Fitting(l.rs[0].bytes, |l.buf|);
    l.(rs := Consumed(l.rs, |some|), buf := l.buf + some)
  }

  /** After a read that delivered `bytes`; none is the end of the input. */
  ghost function AfterRead<D>(l: Link<D>, bytes: Bytes, exec: Exec<D>): Link<D>
    requires |l.buf| + |bytes| <= BUF
    decreases Weight(l.rs), 1
  {
    if bytes == [] then l.(state := STATE_END)
    else
      var r := Requests(l.(buf := l.buf + bytes), exec);
      RoomAfter(l.(buf := l.buf + bytes), exec);
      if r.state == STATE_REQ then Receive(r, exec) else r
  }

  /** A full buffer holds a complete frame or ends the connection, so a connection that waits has
      room, and no complete frame. */
  lemma {:induction false} RoomAfter<D>(l: Link<D>, exec: Exec<D>)
    requires |l.buf| <= BUF
    ensures var r := Requests(l, exec);
            && (r.state == STATE_REQ ==> Incomplete(r.buf) && |r.buf| < BUF)
            && (r.state == STATE_RES && l.state == STATE_REQ ==> |r.buf| < BUF)
    decreases |l.buf|
  {
    if !Refused(l.buf) && !Incomplete(l.buf) {
      var body := l.buf[4..4 + Un(l.buf[..4])];
      var r := Execute(l, body, Request.ParseBody(body).value, exec);
      if r.state == STATE_REQ { RoomAfter(r, exec); }
    }
  }

  /** connection_io */
  ghost function Io<D>(l: Link<D>, exec: Exec<D>): Link<D>
    requires |l.buf| < BUF
  {
    if l.state == STATE_REQ then Receive(l, exec)
    else Sent(l)
  }

  // ----- why a wake-up stops -----

  /** What is left of a script, and what was last taken from it. */
  ghost predicate Left<T>(script: seq<T>, rest: seq<T>) {
    |rest| <= |script| && script[|script| - |rest|..] == rest
  }

  ghost predicate Took<T>(script: seq<T>, rest: seq<T>, last: T) {
    Left(script, rest) && |rest| < |script| && script[|script| - |rest| - 1] == last
  }

  /** `b` is the answer `a`, or what is left of it in the kernel. */
  ghost predicate PartOf(a: ReadOutcome, b: ReadOutcome) {
    || a == b
    || (a.Data? && b.Data? && 0 < |b.bytes| <= |a.bytes| && a.bytes[|a.bytes| - |b.bytes|..] == b.bytes)
  }

  /** The same for reads, which may leave a part of an answer. */
  ghost predicate Unread(script: seq<ReadOutcome>, rest: seq<ReadOutcome>) {
    && |rest| <= |script| && (rest != [] ==> PartOf(script[|script| - |rest|], rest[0]))
    && forall n :: 0 < n < |rest| ==> rest[n] == script[|script| - |rest| + n]
  }

  ghost predicate TookRead(script: seq<ReadOutcome>, rest: seq<ReadOutcome>, last: ReadOutcome) {
    Unread(script, rest) && |rest| < |script| && script[|script| - |rest| - 1] == last
  }

  lemma UnreadThrough(a: seq<ReadOutcome>, b: seq<ReadOutcome>, c: seq<ReadOutcome>, last: ReadOutcome)
    requires Unread(a, b) && Unread(b, c) && (last.Data? ==> last.bytes == [])
    ensures Unread(a, c) && (TookRead(b, c, last) ==> TookRead(a, c, last))
  {
    if c != [] {
      PartOfPart(a[|a| - |b|], b[0], c[0]);
    }
  }

  lemma PartOfPart(a: ReadOutcome, b: ReadOutcome, c: ReadOutcome)
    ensures PartOf(a, b) && PartOf(b, c) ==> PartOf(a, c)
  {
    if PartOf(a, b) && PartOf(b, c) && a.Data? && b.Data? && c.Data? {
      assert |c.bytes| <= |b.bytes| ==> b.bytes[|b.bytes| - |c.bytes|..] == a.bytes[|a.bytes| - |c.bytes|..];
    }
  }

  lemma UnreadOn(script: seq<ReadOutcome>, n: nat)
    requires script != []
    ensures Unread(script, script) && Unread(script, script[1..])
    ensures script[0].Data? && 0 < n <= |script[0].bytes| ==> Unread(script, Consumed(script, n))
  {
  }

  lemma LeftOn<T>(script: seq<T>, rest: seq<T>, last: T)
    requires script != []
    ensures Left(script[1..], rest) ==> Left(script, rest)
    ensures Took(script[1..], rest, last) ==> Took(script, rest, last)
  {
    if Left(script[1..], rest) {
      assert script[1..][|script| - 1 - |rest|..] == script[|script| - |rest|..];
    }
  }

  /** A reply is left unsent only by a write that would block or failed. */
  lemma {:induction false} FlushCause(unsent: Bytes, ws: seq<WriteOutcome>)
    ensures var f := Flush(unsent, ws);
            && Left(ws, f.ws)
            && (f.state == STATE_RES ==> f.ws == [] || Took(ws, f.ws, WriteAgain))
            && (f.state == STATE_END ==> Took(ws, f.ws, WriteError))
            && (f.state == STATE_REQ ==> f.unsent == [])
    decreases |ws|
  {
    if ws != [] {
      var f := Flush(unsent, ws);
      LeftOn(ws, f.ws, WriteAgain);
      LeftOn(ws, f.ws, WriteError);
      match ws[0]
      case WriteInterrupted => FlushCause(unsent, ws[1..]);
      case Wrote(n) =>
        var k := Moved(n, |unsent|);
        if k < |unsent| { FlushCause(unsent[k..], ws[1..]); }
      case _ =>
    }
  }

  /** The causes for which a wake-up leaves a connection with a reply unsent, or ended. */
  ghost predicate CausedBy<D>(l: Link<D>, r: Link<D>, s: State) {
    && s == r.state && Unread(l.rs, r.rs) && Left(l.ws, r.ws)
    && (r.state == STATE_RES ==> r.ws == [] || Took(l.ws, r.ws, WriteAgain))
    && (r.state == STATE_END ==>
          || Took(l.ws, r.ws, WriteError) || TookRead(l.rs, r.rs, ReadError) || TookRead(l.rs, r.rs, Data([]))
          || Unfit(r.buf))
  }

  /** The same, folded. */
  ghost predicate Caused<D>(l: Link<D>, r: Link<D>) {
    forall s <- {r.state} :: CausedBy(l, r, s)
  }

  lemma LeftThrough<T>(a: seq<T>, b: seq<T>, c: seq<T>, last: T)
    requires Left(a, b) && Left(b, c)
    ensures Left(a, c) && (Took(b, c, last) ==> Took(a, c, last))
  {
    assert b[|b| - |c|..] == a[|a| - |c|..];
  }

  lemma CausedThrough<D>(l: Link<D>, m: Link<D>, r: Link<D>)
    requires Unread(l.rs, m.rs) && Left(l.ws, m.ws) && Caused(m, r)
    ensures Caused(l, r)
  {
    assert CausedBy(m, r, r.state);
    LeftThrough(l.ws, m.ws, r.ws, WriteAgain);
    LeftThrough(l.ws, m.ws, r.ws, WriteError);
    UnreadThrough(l.rs, m.rs, r.rs, ReadError);
    UnreadThrough(l.rs, m.rs, r.rs, Data([]));
    assert CausedBy(l, r, r.state);
  }

  /** A wake-up that goes on where another one stopped. */
  lemma CausedAfter<D>(l: Link<D>, m: Link<D>, r: Link<D>)
    requires Caused(l, m) && Caused(m, r)
    ensures Caused(l, r)
  {
    assert CausedBy(l, m, m.state);
    CausedThrough(l, m, r);
  }

  lemma ExecuteCaused<D>(l: Link<D>, body: Bytes, cmd: seq<Bytes>, exec: Exec<D>)
    requires 4 + |body| <= |l.buf|
    ensures Caused(l, Execute(l, body, cmd, exec))
  {
    FlushCause(Request.Frame(Cap(exec(l.db, cmd).1)), l.ws);
    var r := Execute(l, body, cmd, exec);
    assert CausedBy(l, r, r.state);
  }

  lemma {:induction false} RequestsCaused<D>(l: Link<D>, exec: Exec<D>)
    requires l.state == STATE_REQ
    ensures Caused(l, Requests(l, exec))
    decreases |l.buf|
  {
    var q := Requests(l, exec);
    if Refused(l.buf) || Incomplete(l.buf) {
      RefusedIsUnfit(l.buf);
      assert CausedBy(l, q, q.state);
    } else {
      var body := l.buf[4..4 + Un(l.buf[..4])];
      var cmd := Request.ParseBody(body).value;
      var r := Execute(l, body, cmd, exec);
      ExecuteCaused(l, body, cmd, exec);
      if r.state == STATE_REQ {
        RequestsCaused(r, exec);
        CausedAfter(l, r, q);
      }
    }
  }

  /** The first answer of the kernel is taken, or a part of it. */
  lemma ReadCaused<D>(l: Link<D>, m: Link<D>, r: Link<D>)
    requires Unread(l.rs, m.rs) && m.ws == l.ws && Caused(m, r)
    ensures Caused(l, r)
  {
    CausedThrough(l, m, r);
  }

  /** What a read that delivers something leads to. */
  lemma ReceiveData<D>(l: Link<D>, exec: Exec<D>)
    requires |l.buf| < BUF && l.rs != [] && l.rs[0].Data? && l.rs[0].bytes != []
    ensures var n := Requests(Filled(l), exec);
            && n.rs == Filled(l).rs && (n.state == STATE_REQ ==> |n.buf| < BUF)
            && Receive(l, exec) == if n.state == STATE_REQ then Receive(n, exec) else n
  {
    var bytes := Fitting(l.rs[0].bytes, |l.buf|);
    var rest := l.(rs := Consumed(l.rs, |bytes|));
    RoomAfter(rest.(buf := l.buf + bytes), exec);
    assert Receive(l, exec) == AfterRead(rest, bytes, exec);
  }

  /** A read that delivers nothing. */
  lemma ReadStops<D>(l: Link<D>, exec: Exec<D>)
    requires l.state == STATE_REQ && |l.buf| < BUF && l.rs != []
    requires l.rs[0].ReadAgain? || l.rs[0].ReadError? || l.rs[0] == Data([])
    ensures Caused(l, Receive(l, exec))
  {
    var r := Receive(l, exec);
    assert l.rs[0].Data? ==> Fitting(l.rs[0].bytes, |l.buf|) == [] && r == AfterRead(l.(rs := l.rs[1..]), [], exec);
    assert r == if l.rs[0].ReadAgain? then l.(rs := l.rs[1..]) else l.(rs := l.rs[1..], state := STATE_END);
    assert CausedBy(l, r, r.state);
  }

  lemma {:induction false} ReceiveCaused<D>(l: Link<D>, exec: Exec<D>)
    requires l.state == STATE_REQ && |l.buf| < BUF
    ensures Caused(l, Receive(l, exec))
    decreases Weight(l.rs)
  {
    var r := Receive(l, exec);
    if l.rs == [] {
      assert CausedBy(l, r, r.state);
    } else if l.rs[0].ReadInterrupted? {
      UnreadOn(l.rs, 0);
      ReceiveCaused(l.(rs := l.rs[1..]), exec);
      ReadCaused(l, l.(rs := l.rs[1..]), r);
    } else if l.rs[0].Data? && l.rs[0].bytes != [] {
      ReceiveData(l, exec);
      UnreadOn(l.rs, |Fitting(l.rs[0].bytes, |l.buf|)|);
      var m := Filled(l);
      var n := Requests(m, exec);
      RequestsCaused(m, exec);
      if n.state == STATE_REQ {
        ReceiveCaused(n, exec);
        CausedAfter(m, n, r);
      }
      ReadCaused(l, m, r);
    } else {
      ReadStops(l, exec);
    }
  }

  lemma {:induction false} ReceiveDrains<D>(l: Link<D>, exec: Exec<D>)
    requires l.state == STATE_REQ && |l.buf| < BUF
    ensures var r := Receive(l, exec);
            && Unread(l.rs, r.rs)
            && (r.state == STATE_REQ ==> r.rs == [] || TookRead(l.rs, r.rs, ReadAgain))
    decreases Weight(l.rs)
  {
    if l.rs != [] {
      var rest := l.(rs := l.rs[1..]);
      var r := Receive(l, exec);
      UnreadOn(l.rs, 0);
      if l.rs[0].ReadInterrupted? {
        ReceiveDrains(rest, exec);
        UnreadThrough(l.rs, rest.rs, r.rs, ReadAgain);
      } else if l.rs[0].Data? && l.rs[0].bytes != [] {
        ReceiveData(l, exec);
        UnreadOn(l.rs, |Fitting(l.rs[0].bytes, |l.buf|)|);
        var n := Requests(Filled(l), exec);
        if n.state == STATE_REQ {
          ReceiveDrains(n, exec);
          UnreadThrough(l.rs, n.rs, r.rs, ReadAgain);
        }
      }
    }
  }

  /** Whatever the kernel answers: a reply stays unsent only when a write would block, the
      connection ends only by a failed call, the end of the input or a refused request, and a
      connection that waited and still waits has read all there was. */
  lemma IoCaused<D>(l: Link<D>, exec: Exec<D>)
    requires l.state != STATE_END && |l.buf| < BUF
    ensures var r := Io(l, exec);
            && Caused(l, r)
            && (l.state == STATE_REQ && r.state == STATE_REQ ==> r.rs == [] || TookRead(l.rs, r.rs, ReadAgain))
  {
    if l.state == STATE_REQ {
      ReceiveCaused(l, exec);
      ReceiveDrains(l, exec);
    } else {
      FlushCause(l.unsent, l.ws);
      var r := Io(l, exec);
      if l.rs != [] { UnreadOn(l.rs, 0); }
      assert CausedBy(l, r, r.state);
    }
  }

  // ----- what a wake-up leaves in the buffer -----

  /** The first read that is not interrupted delivers something. */
  predicate Delivers(rs: seq<ReadOutcome>) {
    rs != [] && (if rs[0].ReadInterrupted? then Delivers(rs[1..]) else rs[0].Data? && rs[0].bytes != [])
  }

  lemma {:induction false} ReceiveBare<D>(l: Link<D>, exec: Exec<D>)
    requires l.state == STATE_REQ && |l.buf| < BUF
    ensures var r := Receive(l, exec);
            && (Delivers(l.rs) && r.state == STATE_REQ ==> Incomplete(r.buf))
            && (!Delivers(l.rs) ==> r.buf == l.buf && r.log == l.log)
    decreases Weight(l.rs)
  {
    if l.rs != [] {
      var rest := l.(rs := l.rs[1..]);
      if l.rs[0].ReadInterrupted? {
        ReceiveBare(rest, exec);
      } else if Delivers(l.rs) {
        var m := Filled(l);
        ReceiveData(l, exec);
        RoomAfter(m, exec);
        var n := Requests(m, exec);
        if n.state == STATE_REQ { ReceiveBare(n, exec); }
      }
    }
  }

  /** A connection left waiting holds no complete request if and only if it held none before, or
      it was waiting and the kernel had something for it. */
  lemma WaitsBare<D>(l: Link<D>, exec: Exec<D>)
    requires l.state != STATE_END && |l.buf| < BUF && Io(l, exec).state == STATE_REQ
    ensures Incomplete(Io(l, exec).buf) <==> Incomplete(l.buf) || (l.state == STATE_REQ && Delivers(l.rs))
  {
    if l.state == STATE_REQ { ReceiveBare(l, exec); }
  }

  // ----- the database -----

  /** Executed one after another, the requests take the database from `before` to `after`. */
  ghost predicate Chain<D>(before: D, log: seq<Served<D>>, after: D, exec: Exec<D>) {
    if log == [] then after == before else
      var s := log[|log| - 1];
      && Chain(before, log[..|log| - 1], s.db, exec)
      && Request.ParseBody(s.body).Some? && after == exec(s.db, Request.ParseBody(s.body).value).0
  }

  /** `r` has served some more requests than `l`, from the database of `l` to that of `r`. */
  ghost predicate Chained<D>(l: Link<D>, r: Link<D>, exec: Exec<D>) {
    l.log <= r.log && Chain(l.db, r.log[|l.log|..], r.db, exec)
  }

  lemma {:induction false} ChainJoin<D>(a: D, s: seq<Served<D>>, b: D, t: seq<Served<D>>, c: D, exec: Exec<D>)
    requires Chain(a, s, b, exec) && Chain(b, t, c, exec)
    ensures Chain(a, s + t, c, exec)
    decreases |t|
  {
    if t == [] {
      assert s + t == s;
    } else {
      var n := |t| - 1;
      ChainJoin(a, s, b, t[..n], t[n].db, exec);
      assert (s + t)[..|s + t| - 1] == s + t[..n] && (s + t)[|s + t| - 1] == t[n];
    }
  }

  lemma ChainedThrough<D>(l: Link<D>, m: Link<D>, r: Link<D>, exec: Exec<D>)
    requires Chained(l, m, exec) && Chained(m, r, exec)
    ensures Chained(l, r, exec)
  {
    var s, t := m.log[|l.log|..], r.log[|m.log|..];
    assert r.log[|l.log|..] == s + t;
    ChainJoin(l.db, s, m.db, t, r.db, exec);
  }

  lemma ExecuteChained<D>(l: Link<D>, body: Bytes, cmd: seq<Bytes>, exec: Exec<D>)
    requires 4 + |body| <= |l.buf| && Request.ParseBody(body) == Some(cmd)
    ensures Chained(l, Execute(l, body, cmd, exec), exec)
  {
    var r := Execute(l, body, cmd, exec);
    var one := r.log[|l.log|..];
    assert one == [Served(body, l.db, Cap(exec(l.db, cmd).1))] && one[..0] == [];
  }

  lemma {:induction false} RequestsChained<D>(l: Link<D>, exec: Exec<D>)
    ensures Chained(l, Requests(l, exec), exec)
    decreases |l.buf|
  {
    assert l.log[|l.log|..] == [];
    if !Refused(l.buf) && !Incomplete(l.buf) {
      var body := l.buf[4..4 + Un(l.buf[..4])];
      var cmd := Request.ParseBody(body).value;
      var r := Execute(l, body, cmd, exec);
      ExecuteChained(l, body, cmd, exec);
      if r.state == STATE_REQ {
        RequestsChained(r, exec);
        ChainedThrough(l, r, Requests(r, exec), exec);
      }
    }
  }

  lemma {:induction false} ReceiveChained<D>(l: Link<D>, exec: Exec<D>)
    requires |l.buf| < BUF
    ensures Chained(l, Receive(l, exec), exec)
    decreases Weight(l.rs)
  {
    assert l.log[|l.log|..] == [];
    if l.rs != [] {
      var rest := l.(rs := l.rs[1..]);
      if l.rs[0].ReadInterrupted? {
        ReceiveChained(rest, exec);
      } else if l.rs[0].Data? && l.rs[0].bytes != [] {
        var m := Filled(l);
        RequestsChained(m, exec);
        ReceiveData(l, exec);
        var n := Requests(m, exec);
        if n.state == STATE_REQ {
          ReceiveChained(n, exec);
          ChainedThrough(m, n, Receive(n, exec), exec);
        }
      }
    }
  }

  /** The requests served in a wake-up take the database from the one found to the one left. */
  lemma IoChained<D>(l: Link<D>, exec: Exec<D>)
    requires |l.buf| < BUF
    ensures Chained(l, Io(l, exec), exec)
  {
    assert l.log[|l.log|..] == [];
    if l.state == STATE_REQ { ReceiveChained(l, exec); }
  }

  // ----- a request is served -----

  /** A connection that waits with an empty buffer and reads the frame of a command executes that
      command, once, and ends only by a failed write. */
  lemma RequestServed<D>(l: Link<D>, cmd: seq<Bytes>, exec: Exec<D>)
    requires l.state == STATE_REQ && l.buf == [] && |Request.Body(cmd)| <= K_MAX_MSG
    requires l.rs == [Data(Request.Frame(Request.Body(cmd)))]
    ensures var r := Io(l, exec);
            && r.log == l.log + [Served(Request.Body(cmd), l.db, Cap(exec(l.db, cmd).1))]
            && r.db == exec(l.db, cmd).0 && r.buf == []
            && (r.state == STATE_END ==> Took(l.ws, r.ws, WriteError))
  {
    var body := Request.Body(cmd);
    var frame := Request.Frame(body);
    var m := l.(rs := [], buf := frame);
    assert Fitting(frame, 0) == frame && [] + frame == frame && l.rs[1..] == [];
    assert Filled(l) == m;
    ReceiveData(l, exec);
    OneServed(m, body, cmd, exec);
  }

  lemma OneServed<D>(m: Link<D>, body: Bytes, cmd: seq<Bytes>, exec: Exec<D>)
    requires body == Request.Body(cmd) && |body| <= K_MAX_MSG && m.buf == Request.Frame(body) && m.rs == []
    ensures var r := Requests(m, exec);
            && r == Execute(m, body, cmd, exec) && r.buf == []
            && (r.state == STATE_END ==> Took(m.ws, r.ws, WriteError))
  {
    FrameParts(body, []);
    assert m.buf + [] == m.buf;
    Request.ParseOfBody(cmd);
    FlushCause(Request.Frame(Cap(exec(m.db, cmd).1)), m.ws);
  }

  // ----- a request that waits in the buffer -----

  /** The frame of a command of no strings. */
  const EMPTY: Bytes := [4, 0, 0, 0, 0, 0, 0, 0]

  lemma EmptyFrame(rest: Bytes)
    ensures var b := EMPTY + rest; !Refused(b) && !Incomplete(b) && Un(b[..4]) == 4 && b[4..8] == [0, 0, 0, 0]
    ensures Request.ParseBody([0, 0, 0, 0]) == Some([])
  {
    var b, z: Bytes := EMPTY + rest, [0, 0, 0, 0];
    Zero();
    assert z[..4] == z && z[4..] == [];
    assert b[..4] == [4, 0, 0, 0] && b[4..8] == z;
  }

  lemma Zero()
    ensures Un([4, 0, 0, 0]) == 4 && Un([0, 0, 0, 0]) == 0
  {
    var a: Bytes, z: Bytes := [4, 0, 0, 0], [0, 0, 0, 0];
    assert a[1..] == [0, 0, 0] && z[1..] == [0, 0, 0];
    var y: Bytes, x: Bytes, w: Bytes := [0, 0, 0], [0, 0], [0];
    assert y[1..] == x && x[1..] == w && w[1..] == [];
    assert Un(w) == 0 && Un(x) == 0 && Un(y) == 0;
  }

  /** Two requests arrive in one read and the first reply is blocked; then the reply goes out. The
      connection waits for input with the second request in its buffer, whatever the server does
      with the first. */
  lemma StalledRequest<D>(db: D, exec: Exec<D>) returns (a: Link<D>, b: Link<D>)
    ensures a == Io(Link(STATE_REQ, [], [], db, [], [Data(EMPTY + EMPTY)], []), exec)
    ensures |a.buf| < BUF && a.state == STATE_RES
    ensures b == Io(a.(ws := [Wrote(K_MAX_MSG)]), exec)
    ensures b.state == STATE_REQ && b.buf == EMPTY && !Incomplete(b.buf) && |b.log| == 1
  {
    FirstOfTwo(db, exec);
    EmptyFrame([]);
    assert EMPTY + [] == EMPTY && [] + (EMPTY + EMPTY) == EMPTY + EMPTY;
    var start := Link(STATE_REQ, [], [], db, [], [Data(EMPTY + EMPTY)], []);
    ReceiveData(start, exec);
    a := Receive(start, exec);
    FlushAll(a.unsent);
    b := Io(a.(ws := [Wrote(K_MAX_MSG)]), exec);
  }

  lemma FlushAll(unsent: Bytes)
    requires |unsent| <= K_MAX_MSG
    ensures Flush(unsent, [Wrote(K_MAX_MSG)]) == Flushed(STATE_REQ, [], [])
  {
    var ws := [Wrote(K_MAX_MSG)];
    assert Flush(unsent, ws) == AfterWrite(unsent, Moved(K_MAX_MSG, |unsent|), ws[1..]);
  }

  lemma FirstOfTwo<D>(db: D, exec: Exec<D>)
    ensures var a := Requests(Link(STATE_REQ, EMPTY + EMPTY, [], db, [], [], []), exec);
            a.state == STATE_RES && a.buf == EMPTY && |a.log| == 1 && 0 < |a.unsent| <= K_MAX_MSG && a.rs == []
  {
    EmptyFrame(EMPTY);
    var l := Link(STATE_REQ, EMPTY + EMPTY, [], db, [], [], []);
    assert (EMPTY + EMPTY)[8..] == EMPTY;
    assert Requests(l, exec) == Execute(l, [0, 0, 0, 0], [], exec);
  }
}
