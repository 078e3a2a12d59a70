/** The connection of src/server.cpp:108-123 with its fixed buffers, pipelined length-prefixed
    requests, and reads and writes split anywhere. Its code does to the buffers what `Session` does
    to values. */
module Connection {
  import opened Keys
  import opened Wire
  import opened Framing
  import opened Session
  import Request

  /** The database behind do_request, and do_request as a function on it. */
  class World<D(!new)> {
    var db: D
    const exec: Exec<D>

    constructor (db: D, exec: Exec<D>)
      ensures this.db == db && this.exec == exec
    {
      this.db, this.exec := db, exec;
    }
  }

  /** The reply is what do_request answers to the parsed body on that database. */
  ghost predicate Right<D>(s: Served<D>, exec: Exec<D>) {
    && |s.body| <= K_MAX_MSG && Request.ParseBody(s.body).Some?
    && s.reply == Cap(exec(s.db, Request.ParseBody(s.body).value).1)
  }

  ghost function Bodies<D>(log: seq<Served<D>>): (b: seq<Bytes>)
    ensures |b| == |log|
  {
    seq(|log|, i requires 0 <= i < |log| => log[i].body)
  }

  ghost function Answers<D>(log: seq<Served<D>>): (b: seq<Bytes>)
    ensures |b| == |log|
  {
    seq(|log|, i requires 0 <= i < |log| => log[i].reply)
  }

  /** The frames of a log of correctly answered requests. */
  ghost predicate Accounts<D>(log: seq<Served<D>>, taken: Bytes, owed: Bytes, last: Bytes, exec: Exec<D>) {
    && taken == Framed(Bodies(log)) && owed == Framed(Answers(log))
    && (log != [] ==> last == Request.Frame(log[|log| - 1].reply))
    && forall s <- log :: Right(s, exec)
  }

  lemma FramesOn<D>(log: seq<Served<D>>, one: Served<D>)
    ensures Framed(Bodies(log + [one])) == Framed(Bodies(log)) + Request.Frame(one.body)
    ensures Framed(Answers(log + [one])) == Framed(Answers(log)) + Request.Frame(one.reply)
  {
    var l := log + [one];
    assert Bodies(l) == Bodies(log) + [one.body] && Answers(l) == Answers(log) + [one.reply];
    FramedOn(Bodies(log), one.body);
    FramedOn(Answers(log), one.reply);
  }

  lemma AccountsOn<D>(log: seq<Served<D>>, one: Served<D>, taken: Bytes, owed: Bytes, last: Bytes, exec: Exec<D>)
    requires Accounts(log, taken, owed, last, exec) && Right(one, exec)
    ensures Accounts(
      log + [one], taken + Request.Frame(one.body), owed + Request.Frame(one.reply), Request.Frame(one.reply), exec)
  {
    FramesOn(log, one);
  }

  lemma ShortLog<D>(log: seq<Served<D>>, exec: Exec<D>)
    requires forall s <- log :: Right(s, exec)
    ensures Short(Bodies(log)) && Short(Answers(log))
  {
    forall i | 0 <= i < |log|
      ensures |Bodies(log)[i]| < U32 && |Answers(log)[i]| < U32
    {
      assert Right(log[i], exec);
    }
  }

  /** What is still to be flushed after an answer of the kernel. */
  ghost function OnWrite(unsent: Bytes, rv: WriteOutcome, ws: seq<WriteOutcome>): Flushed {
    match rv
    case WriteInterrupted => Flush(unsent, ws)
    case WriteAgain => Flushed(STATE_RES, unsent, ws)
    case WriteError => Flushed(STATE_END, unsent, ws)
    case Wrote(n) => AfterWrite(unsent, n, ws)
  }

  /** What is still to be received after one. */
  ghost function OnRead<D>(l: Link<D>, rv: ReadOutcome, exec: Exec<D>): Link<D>
    requires |l.buf| < BUF && (rv.Data? ==> |l.buf| + |rv.bytes| <= BUF)
  {
    match rv
    case ReadInterrupted => Receive(l, exec)
    case ReadAgain => l
    case ReadError => l.(state := STATE_END)
    case Data(bytes) => AfterRead(l, bytes, exec)
  }

  /** The kernel's answers behind the interrupted reads. */
  ghost function Uninterrupted(rs: seq<ReadOutcome>): (r: seq<ReadOutcome>)
    ensures Weight(r) <= Weight(rs) && Stream(r) == Stream(rs) && (r != [] ==> !r[0].ReadInterrupted?)
  {
    if rs != [] && rs[0].ReadInterrupted? then Uninterrupted(rs[1..]) else rs
  }

  lemma {:induction false} InterruptsSkipped<D>(l: Link<D>, rest: seq<ReadOutcome>, exec: Exec<D>)
    requires |l.buf| < BUF && rest == Uninterrupted(l.rs)
    ensures Receive(l, exec) == Receive(l.(rs := rest), exec)
    decreases |l.rs|
  {
    if l.rs != [] && l.rs[0].ReadInterrupted? {
      InterruptsSkipped(l.(rs := l.rs[1..]), rest, exec);
    }
  }

  ghost function Got(rv: ReadOutcome): Bytes {
    if rv.Data? then rv.bytes else []
  }

  /** The first answer that is not an interruption, as far as it fits behind `used` bytes, and what
      the kernel has left. */
  ghost function FirstRead(rs: seq<ReadOutcome>, used: nat): (r: (ReadOutcome, seq<ReadOutcome>))
    requires used < BUF
    ensures used + |Got(r.0)| <= BUF && !r.0.ReadInterrupted? && Got(r.0) + Stream(r.1) == Stream(rs)
    ensures Weight(r.1) <= Weight(rs) && (r.0.Data? ==> Weight(r.1) < Weight(rs))
  {
    var u := Uninterrupted(rs);
    if u == [] then (ReadAgain, [])
    else if u[0].Data? then
      var some := Fitting(u[0].bytes, used);
      (Data(some), Consumed(u, |some|))
    else (u[0], u[1..])
  }

  lemma ReadIs<D>(l: Link<D>, exec: Exec<D>)
    requires |l.buf| < BUF
    ensures var (rv, rest) := FirstRead(l.rs, |l.buf|); Receive(l, exec) == OnRead(l.(rs := rest), rv, exec)
  {
    InterruptsSkipped(l, Uninterrupted(l.rs), exec);
  }

  /** What the first half of try_one_request finds in the buffer: a complete frame with its body, a
      frame that is too long, or neither. */
  ghost predicate Finds(b: Bytes, complete: bool, ended: bool, body: Bytes) {
    if complete then
      && !ended && |body| <= K_MAX_MSG && 4 + |body| <= |b| && |body| == Un(b[..4]) && body == b[4..4 + |body|]
      && b[..4 + |body|] == Request.Frame(body)
    else if ended then Refused(b)
    else Incomplete(b) && !Refused(b)
  }

  /** The same, folded. */
  ghost predicate Found(b: Bytes, complete: bool, ended: bool, body: Bytes) {
    forall c <- {complete} :: Finds(b, c, ended, body)
  }

  lemma FindsNone(b: Bytes)
    requires |b| < 4 || (Un(b[..4]) <= K_MAX_MSG && 4 + Un(b[..4]) > |b|)
    ensures Found(b, false, false, [])
  {
    assert Finds(b, false, false, []);
  }

  lemma FindsLong(b: Bytes)
    requires |b| >= 4 && Un(b[..4]) > K_MAX_MSG
    ensures Found(b, false, true, [])
  {
    assert Finds(b, false, true, []);
  }

  /** A complete frame in front is the frame of its body. */
  lemma FindsFrame(b: Bytes)
    requires |b| >= 4 && Un(b[..4]) <= K_MAX_MSG && 4 + Un(b[..4]) <= |b|
    ensures Found(b, true, false, b[4..4 + Un(b[..4])])
  {
    LeUn(b[..4]);
    var len := Un(b[..4]);
    assert b[..4 + len] == b[..4] + b[4..4 + len];
    assert Finds(b, true, false, b[4..4 + len]);
  }

  /** One turn of the loop over requests. */
  lemma RequestsStep<D>(l: Link<D>, complete: bool, ended: bool, body: Bytes, exec: Exec<D>)
    requires Found(l.buf, complete, ended, body)
    ensures !complete ==> Requests(l, exec) == if ended then l.(state := STATE_END) else l
    ensures complete ==> !ended && |body| <= K_MAX_MSG && 4 + |body| <= |l.buf|
    ensures complete ==> l.buf[..4 + |body|] == Request.Frame(body)
    ensures complete && Request.ParseBody(body).None? ==> Requests(l, exec) == l.(state := STATE_END)
    ensures complete && Request.ParseBody(body).Some? ==>
      var r := Execute(l, body, Request.ParseBody(body).value, exec);
      |body| >= 4 && Requests(l, exec) == if r.state == STATE_REQ then Requests(r, exec) else r
  {
    assert Finds(l.buf, complete, ended, body);
  }

  lemma EnactedIs<D>(l: Link<D>, e: Link<D>, body: Bytes, cmd: seq<Bytes>, exec: Exec<D>)
    requires 4 + |body| <= |l.buf| && e.state == STATE_RES && e.buf == l.buf[4 + |body|..]
    requires e.unsent == Request.Frame(Cap(exec(l.db, cmd).1)) && e.db == exec(l.db, cmd).0
    requires e.log == l.log + [Served(body, l.db, Cap(exec(l.db, cmd).1))] && e.rs == l.rs && e.ws == l.ws
    ensures e == Enacted(l, body, cmd, exec)
  {
  }

  class Conn<D(!new)> {
    var state: State
    const rbuf: array<byte>
    var rbuf_size: nat
    const wbuf: array<byte>
    var wbuf_size: nat
    var wbuf_sent: nat
    /** What the kernel will answer until the next wake-up; after that, "try again". */
    var readScript: seq<ReadOutcome>
    var writeScript: seq<WriteOutcome>

    ghost var received: Bytes
    ghost var sent: Bytes
    ghost var log: seq<Served<D>>
    /** The frames of all executed requests, of all replies, and of the last reply. */
    ghost var taken: Bytes
    ghost var owed: Bytes
    ghost var last: Bytes

    /** What was read and not yet executed, and what is still to be sent. */
    ghost function Kept(): Bytes
      reads this`rbuf_size, rbuf
    {
      if rbuf_size <= rbuf.Length then rbuf[..rbuf_size] else []
    }

    ghost function Unsent(): Bytes
      reads this`wbuf_size, this`wbuf_sent, wbuf
    {
      if wbuf_sent <= wbuf_size <= wbuf.Length then wbuf[wbuf_sent..wbuf_size] else []
    }

    /** The connection as a value. */
    ghost function Here(world: World<D>): Link<D>
      reads this`state, this`rbuf_size, this`wbuf_size, this`wbuf_sent, this`log, rbuf, wbuf
      reads this`readScript, this`writeScript, world`db
    {
      Link(state, Kept(), Unsent(), world.db, log, readScript, writeScript)
    }

    /** The books balance: what came in is the executed requests and the read buffer; what
        went out and the unsent part of the write buffer are the replies. */
    ghost predicate Balanced()
      reads this`rbuf_size, this`wbuf_size, this`wbuf_sent, this`received, this`sent
      reads this`taken, this`owed, rbuf, wbuf
    {
      && rbuf.Length == BUF == wbuf.Length && rbuf != wbuf
      && rbuf_size <= BUF && wbuf_sent <= wbuf_size <= K_MAX_MSG
      && received == taken + Kept() && sent + Unsent() == owed
    }

    /** Whatever is unsent is a part of the last reply; while it is being written, the read
        buffer has room. */
    ghost predicate Staged()
      reads this`state, this`rbuf_size, this`wbuf_size, this`wbuf_sent, this`log, this`last, wbuf
    {
      && wbuf_size <= wbuf.Length
      && (state == STATE_REQ ==> wbuf_size == wbuf_sent == 0)
      && (state == STATE_RES ==> 0 < wbuf_size && rbuf_size < BUF)
      && (wbuf_size > 0 ==> wbuf_sent < wbuf_size && log != [] && wbuf[..wbuf_size] == last)
    }

    /** The log: every request was parsed, executed and answered. */
    ghost predicate Logged(world: World<D>)
      reads this`log, this`taken, this`owed, this`last
    {
      forall l <- {log} :: Accounts(l, taken, owed, last, world.exec)
    }

    ghost predicate Books(s: State, world: World<D>)
      reads this`state, this`rbuf_size, this`wbuf_size, this`wbuf_sent, this`received, this`sent
      reads this`log, this`taken, this`owed, this`last, rbuf, wbuf
    {
      s == state && Balanced() && Staged() && Logged(world)
    }

    ghost predicate Core(world: World<D>)
      reads this`state, this`rbuf_size, this`wbuf_size, this`wbuf_sent, this`received, this`sent
      reads this`log, this`taken, this`owed, this`last, rbuf, wbuf
    {
      forall s <- {state} :: Books(s, world)
    }

    /** What holds whenever the event loop looks at the connection. */
    ghost predicate Valid(world: World<D>)
      reads this`state, this`rbuf_size, this`wbuf_size, this`wbuf_sent, this`received, this`sent
      reads this`log, this`taken, this`owed, this`last, rbuf, wbuf
    {
      Core(world) && (state == STATE_REQ ==> rbuf_size < BUF)
    }

    constructor (world: World<D>)
      ensures Valid(world) && received == [] && sent == [] && log == []
      ensures state == STATE_REQ && Kept() == [] && Unsent() == []
      ensures fresh(rbuf) && fresh(wbuf)
    {
      state := STATE_REQ;
      rbuf := new byte[BUF](_ => 0);
      wbuf := new byte[BUF](_ => 0);
      rbuf_size, wbuf_size, wbuf_sent := 0, 0, 0;
      readScript, writeScript, received, sent, log, taken, owed, last := [], [], [], [], [], [], [], [];
    }

    /** write(2) of the unsent part, with the retry after a signal */
    method Write() returns (rv: WriteOutcome)
      requires wbuf_sent < wbuf_size <= wbuf.Length
      modifies this`writeScript
      ensures |writeScript| <= |old(writeScript)| && !rv.WriteInterrupted?
      ensures rv.Wrote? ==> |writeScript| < |old(writeScript)| && 1 <= rv.n <= wbuf_size - wbuf_sent
      ensures Flush(Unsent(), old(writeScript)) == OnWrite(Unsent(), rv, writeScript)
    {
      rv := WriteInterrupted;
      while rv.WriteInterrupted?
        invariant |writeScript| <= |old(writeScript)|
        invariant rv.Wrote? ==> |writeScript| < |old(writeScript)| && 1 <= rv.n <= wbuf_size - wbuf_sent
        invariant Flush(Unsent(), old(writeScript)) == OnWrite(Unsent(), rv, writeScript)
        decreases |writeScript|, rv.WriteInterrupted?
      {
        if writeScript == [] {
          return WriteAgain;
        }
        rv := writeScript[0];
        if rv.Wrote? {
          rv := Wrote(Moved(rv.n, wbuf_size - wbuf_sent));
        }
        writeScript := writeScript[1..];
      }
    }

    /** The connection is given up: the event loop will close it. */
    method End(world: World<D>)
      requires Core(world)
      modifies this`state
      ensures Core(world) && state == STATE_END
    {
      assert Books(state, world);
      state := STATE_END;
      assert Books(state, world);
    }

    /** After a write: the bytes are sent, and perhaps all of the reply. */
    method Advance(n: nat, world: World<D>) returns (again: bool)
      requires Core(world) && state == STATE_RES && 1 <= n <= wbuf_size - wbuf_sent
      modifies this`state, this`wbuf_size, this`wbuf_sent, this`sent
      ensures Core(world) && again == (state == STATE_RES)
      ensures (if again then Flush(Unsent(), writeScript) else Flushed(state, Unsent(), writeScript))
           == AfterWrite(old(Unsent()), n, writeScript)
    {
      assert Books(state, world);
      SplitUnsent(n, sent);
      assert Unsent()[n..] == wbuf[wbuf_sent + n..wbuf_size];
      sent := sent + wbuf[wbuf_sent..wbuf_sent + n];
      wbuf_sent := wbuf_sent + n;
      if wbuf_sent == wbuf_size {
        state := STATE_REQ;
        wbuf_sent := 0;
        wbuf_size := 0;
        assert Books(state, world);
        return false;
      }
      assert Books(state, world);
      return true;
    }

    lemma SplitUnsent(n: nat, before: Bytes)
      requires wbuf_sent <= wbuf_size <= wbuf.Length && n <= wbuf_size - wbuf_sent
      ensures before + Unsent() == (before + wbuf[wbuf_sent..wbuf_sent + n]) + wbuf[wbuf_sent + n..wbuf_size]
    {
      assert Unsent() == wbuf[wbuf_sent..wbuf_sent + n] + wbuf[wbuf_sent + n..wbuf_size];
    }

    /** try_flush_buffer */
    method TryFlush(world: World<D>) returns (again: bool)
      requires Core(world) && state == STATE_RES
      modifies this`state, this`wbuf_size, this`wbuf_sent, this`writeScript, this`sent
      ensures Core(world) && |writeScript| <= |old(writeScript)|
      ensures again ==> state == STATE_RES && |writeScript| < |old(writeScript)|
      ensures (if again then Flush(Unsent(), writeScript) else Flushed(state, Unsent(), writeScript))
           == old(Flush(Unsent(), writeScript))
    {
      assert Books(state, world);
      var rv := Write();
      if rv.WriteAgain? {
        return false;
      }
      if rv.WriteError? {
        End(world);
        return false;
      }
      again := Advance(rv.n, world);
    }

    /** state_res */
    method StateRes(world: World<D>)
      requires Core(world) && state == STATE_RES
      modifies this`state, this`wbuf_size, this`wbuf_sent, this`writeScript, this`sent
      ensures Core(world) && Here(world) == Sent(old(Here(world)))
    {
      ghost var kept, served := Kept(), log;
      var again := true;
      while again
        invariant Core(world) && (again ==> state == STATE_RES)
        invariant (if again then Flush(Unsent(), writeScript) else Flushed(state, Unsent(), writeScript))
               == old(Flush(Unsent(), writeScript))
        decreases |writeScript|, again
      {
        again := TryFlush(world);
      }
      assert Kept() == kept && log == served;
    }

    /** The reply goes into the write buffer behind its length. */
    method PackReply(out: Bytes)
      requires wbuf.Length == BUF && 4 + |out| <= K_MAX_MSG
      modifies wbuf, this`wbuf_size
      ensures wbuf_size == 4 + |out| && wbuf[..wbuf_size] == Request.Frame(out)
    {
      Request.Put(wbuf, 0, Le(|out|, 4));
      Request.Put(wbuf, 4, out);
      assert wbuf[..4 + |out|] == wbuf[..4] + wbuf[4..4 + |out|];
      wbuf_size := 4 + |out|;
    }

    /** The request leaves the read buffer: the rest moves to its front. */
    method DropRequest(n: nat)
      requires rbuf.Length == BUF && n <= rbuf_size <= BUF
      modifies rbuf, this`rbuf_size
      ensures rbuf_size == old(rbuf_size) - n && rbuf[..rbuf_size] == old(rbuf[n..rbuf_size])
    {
      var remaining := rbuf_size - n;
      forall i | 0 <= i < remaining {
        rbuf[i] := rbuf[n + i];
      }
      rbuf_size := remaining;
    }

    /** The reply is packed and the request dropped, after both were booked. */
    method Stage(out: Bytes, n: nat, world: World<D>)
      requires rbuf.Length == BUF == wbuf.Length && rbuf != wbuf && wbuf_size == wbuf_sent == 0
      requires 0 < n <= rbuf_size <= BUF && 4 + |out| <= K_MAX_MSG && log != [] && Logged(world)
      requires last == Request.Frame(out) && owed == sent + last
      requires received == taken + rbuf[n..rbuf_size]
      modifies this`state, this`rbuf_size, this`wbuf_size, rbuf, wbuf
      ensures Core(world) && state == STATE_RES
      ensures Kept() == old(rbuf[n..rbuf_size]) && Unsent() == Request.Frame(out)
    {
      PackReply(out);
      DropRequest(n);
      state := STATE_RES;
      assert wbuf[0..wbuf_size] == wbuf[..wbuf_size];
      assert Books(state, world);
    }

    /** do_request on the database, and the reply cut to size. */
    method DoRequest(world: World<D>, body: Bytes, cmd: seq<Bytes>) returns (out: Bytes)
      requires Logged(world) && |body| <= K_MAX_MSG && Request.ParseBody(body) == Some(cmd)
      modifies this`log, this`taken, this`owed, this`last, world`db
      ensures Logged(world) && out == Cap(world.exec(old(world.db), cmd).1)
      ensures world.db == world.exec(old(world.db), cmd).0
      ensures log == old(log) + [Served(body, old(world.db), out)] && last == Request.Frame(out)
      ensures taken == old(taken) + Request.Frame(body) && owed == old(owed) + last
    {
      var (db, o) := world.exec(world.db, cmd);
      out := Cap(o);
      Book(Served(body, world.db, out), world);
      world.db := db;
    }

    /** The request and its reply are booked. */
    ghost method Book(one: Served<D>, world: World<D>)
      requires Logged(world) && Right(one, world.exec)
      modifies this`log, this`taken, this`owed, this`last
      ensures Logged(world) && log == old(log) + [one]
      ensures taken == old(taken) + Request.Frame(one.body) && owed == old(owed) + Request.Frame(one.reply)
      ensures last == Request.Frame(one.reply)
    {
      assert Accounts(log, taken, owed, last, world.exec);
      AccountsOn(log, one, taken, owed, last, world.exec);
      log, taken, owed := log + [one], taken + Request.Frame(one.body), owed + Request.Frame(one.reply);
      last := Request.Frame(one.reply);
    }

    /** From a parsed request to STATE_RES: execute, pack the reply, drop the request. */
    method Enact(world: World<D>, body: Bytes, cmd: seq<Bytes>)
      requires Core(world) && state == STATE_REQ && 8 <= 4 + |body| <= rbuf_size
      requires |body| <= K_MAX_MSG && Request.ParseBody(body) == Some(cmd)
      requires rbuf_size <= rbuf.Length && Kept()[..4 + |body|] == Request.Frame(body)
      modifies this`state, this`rbuf_size, this`wbuf_size, this`log, this`taken, this`owed, this`last
      modifies rbuf, wbuf, world`db
      ensures Core(world) && state == STATE_RES
      ensures |old(Kept())| >= 4 + |body| && Kept() == old(Kept())[4 + |body|..]
      ensures world.db == world.exec(old(world.db), cmd).0
      ensures Unsent() == Request.Frame(Cap(world.exec(old(world.db), cmd).1))
      ensures log == old(log) + [Served(body, old(world.db), Cap(world.exec(old(world.db), cmd).1))]
    {
      assert Books(state, world);
      ghost var rest := Kept()[4 + |body|..];
      assert rbuf[4 + |body|..rbuf_size] == rest && Kept() == Request.Frame(body) + rest;
      Assoc(taken, Request.Frame(body), rest);
      assert Unsent() == [] && sent + [] == sent;
      var out := DoRequest(world, body, cmd);
      Stage(out, 4 + |body|, world);
    }

    /** The same, and the reply flushed as far as possible. */
    method Answer(world: World<D>, body: Bytes, cmd: seq<Bytes>)
      requires Core(world) && state == STATE_REQ && 8 <= 4 + |body| <= rbuf_size
      requires |body| <= K_MAX_MSG && Request.ParseBody(body) == Some(cmd)
      requires rbuf_size <= rbuf.Length && Kept()[..4 + |body|] == Request.Frame(body)
      modifies this`state, this`rbuf_size, this`wbuf_size, this`wbuf_sent, this`writeScript
      modifies this`sent, this`log, this`taken, this`owed, this`last, rbuf, wbuf, world`db
      ensures Core(world) && Here(world) == Execute(old(Here(world)), body, cmd, world.exec)
    {
      ghost var l := Here(world);
      Enact(world, body, cmd);
      EnactedIs(l, Here(world), body, cmd, world.exec);
      StateRes(world);
    }

    /** The first half of try_one_request: is there a complete frame? */
    method NextFrame(world: World<D>) returns (complete: bool, body: Bytes)
      requires Core(world) && state == STATE_REQ
      modifies this`state
      ensures Core(world) && rbuf_size <= BUF == rbuf.Length && (state == STATE_REQ || state == STATE_END)
      ensures Found(Kept(), complete, state == STATE_END, body)
    {
      assert rbuf_size <= BUF == rbuf.Length by { assert Books(state, world); }
      ghost var kept := Kept();
      complete, body := false, [];
      if rbuf_size < 4 {
        FindsNone(kept);
        return;
      }
      assert kept[..4] == rbuf[..4];
      var len := Un(rbuf[..4]);
      if len > K_MAX_MSG {
        FindsLong(kept);
        End(world);
        return;
      }
      if 4 + len > rbuf_size {
        FindsNone(kept);
        return;
      }
      FindsFrame(kept);
      complete, body := true, rbuf[4..4 + len];
      assert kept[4..4 + len] == body;
    }

    /** try_one_request */
    method TryOneRequest(world: World<D>) returns (again: bool)
      requires Core(world) && state == STATE_REQ
      modifies this`state, this`rbuf_size, this`wbuf_size, this`wbuf_sent, this`writeScript
      modifies this`sent, this`log, this`taken, this`owed, this`last, rbuf, wbuf, world`db
      ensures Core(world) && |Kept()| <= |old(Kept())| && (again ==> state == STATE_REQ && |Kept()| < |old(Kept())|)
      ensures (if again then Requests(Here(world), world.exec) else Here(world))
           == old(Requests(Here(world), world.exec))
    {
      ghost var l := Here(world);
      var complete, body := NextFrame(world);
      RequestsStep(l, complete, state == STATE_END, body, world.exec);
      if !complete {
        return false;
      }
      var rc, cmd := Request.ParseReq(body);
      if rc != 0 {
        End(world);
        return false;
      }
      Answer(world, body, cmd);
      return state == STATE_REQ;
    }

    /** The loop over try_one_request. */
    method TryRequests(world: World<D>)
      requires Core(world) && state == STATE_REQ
      modifies this`state, this`rbuf_size, this`wbuf_size, this`wbuf_sent, this`writeScript
      modifies this`sent, this`log, this`taken, this`owed, this`last, rbuf, wbuf, world`db
      ensures Valid(world) && Here(world) == old(Requests(Here(world), world.exec))
    {
      ghost var l := Here(world);
      assert |l.buf| <= BUF by { assert Books(state, world); }
      RoomAfter(l, world.exec);
      var more := true;
      while more
        invariant Core(world) && (more ==> state == STATE_REQ)
        invariant (if more then Requests(Here(world), world.exec) else Here(world)) == Requests(l, world.exec)
        decreases |Kept()| + if more then 1 else 0
      {
        more := TryOneRequest(world);
      }
      assert |Kept()| == rbuf_size by { assert Books(state, world); }
    }

    /** read(2) into the free part of the buffer, with the retry after a signal */
    method Read() returns (rv: ReadOutcome)
      requires rbuf_size < BUF == rbuf.Length
      modifies this`readScript, this`received, rbuf
      ensures (rv, readScript) == FirstRead(old(readScript), rbuf_size) && received == old(received) + Got(rv)
      ensures rbuf_size + |Got(rv)| <= BUF
      ensures rbuf[..rbuf_size + |Got(rv)|] == old(rbuf[..rbuf_size]) + Got(rv)
    {
      SkipInterrupts();
      if readScript == [] {
        return ReadAgain;
      }
      if readScript[0].Data? {
        rv := Deliver();
      } else {
        rv := readScript[0];
        readScript := readScript[1..];
      }
    }

    /** The retries after a signal. */
    method SkipInterrupts()
      modifies this`readScript
      ensures readScript == Uninterrupted(old(readScript))
    {
      while readScript != [] && readScript[0].ReadInterrupted?
        invariant Uninterrupted(readScript) == Uninterrupted(old(readScript))
        decreases |readScript|
      {
        readScript := readScript[1..];
      }
    }

    /** What arrives goes behind what is there, as far as there is room; the rest stays in the kernel. */
    method Deliver() returns (rv: ReadOutcome)
      requires rbuf_size < BUF == rbuf.Length && readScript != [] && readScript[0].Data?
      modifies this`received, this`readScript, rbuf
      ensures rv == Data(Fitting(old(readScript)[0].bytes, rbuf_size)) && received == old(received) + rv.bytes
      ensures readScript == Consumed(old(readScript), |rv.bytes|)
      ensures rbuf[..rbuf_size + |rv.bytes|] == old(rbuf[..rbuf_size]) + rv.bytes
    {
      var taken := Fitting(readScript[0].bytes, rbuf_size);
      Request.Put(rbuf, rbuf_size, taken);
      assert rbuf[..rbuf_size + |taken|] == rbuf[..rbuf_size] + rbuf[rbuf_size..rbuf_size + |taken|];
      readScript := Consumed(readScript, |taken|);
      received := received + taken;
      rv := Data(taken);
    }

    /** The read, and what it added counted. */
    method Fill(world: World<D>) returns (rv: ReadOutcome)
      requires Core(world) && state == STATE_REQ && rbuf_size < BUF
      modifies this`readScript, this`received, this`rbuf_size, rbuf
      ensures Core(world) && !rv.ReadInterrupted? && |old(Kept())| < BUF && |old(Kept())| == old(rbuf_size)
      ensures Weight(readScript) <= Weight(old(readScript))
      ensures rv.Data? ==> Weight(readScript) < Weight(old(readScript))
      ensures received + Stream(readScript) == old(received + Stream(readScript))
      ensures received == old(received) + Got(rv) && Kept() == old(Kept()) + Got(rv) && |Kept()| <= BUF
      ensures !rv.Data? ==> rbuf_size == old(rbuf_size)
      ensures Unsent() == old(Unsent())
      ensures old(Receive(Here(world), world.exec)) == OnRead(old(Here(world)).(rs := readScript), rv, world.exec)
    {
      assert Books(state, world);
      ghost var kept := Kept();
      ReadIs(Here(world), world.exec);
      rv := Read();
      if rv.Data? {
        rbuf_size := rbuf_size + |rv.bytes|;
      }
      assert Kept() == kept + Got(rv);
      Assoc(taken, kept, Got(rv));
      Assoc(old(received), Got(rv), Stream(readScript));
      assert Books(state, world);
    }

    /** try_fill_buffer; its assert that the buffer has room is the first precondition. */
    method TryFill(world: World<D>) returns (again: bool)
      requires rbuf_size < BUF
      requires Valid(world) && state == STATE_REQ
      modifies this, rbuf, wbuf, world`db
      ensures Valid(world) && (again ==> state == STATE_REQ && Weight(readScript) < Weight(old(readScript)))
      ensures old(received) <= received && received + Stream(readScript) == old(received + Stream(readScript))
      ensures (|Kept()| < BUF || !again) && Weight(readScript) <= Weight(old(readScript))
      ensures (if again then Receive(Here(world), world.exec) else Here(world)) == old(Receive(Here(world), world.exec))
    {
      ghost var l := Here(world);
      var rv := Fill(world);
      if rv.ReadAgain? {
        return false;
      }
      if rv.ReadError? || rv.bytes == [] {
        End(world);
        return false;
      }
      TryRequests(world);
      return state == STATE_REQ;
    }

    /** state_req */
    method StateReq(world: World<D>)
      requires Valid(world) && state == STATE_REQ && |Kept()| < BUF
      modifies this, rbuf, wbuf, world`db
      ensures Valid(world) && old(received) <= received && Here(world) == old(Receive(Here(world), world.exec))
      ensures received + Stream(readScript) == old(received + Stream(readScript))
    {
      ghost var l := Here(world);
      var again := true;
      while again
        invariant Valid(world) && old(received) <= received && (again ==> state == STATE_REQ && |Kept()| < BUF)
        invariant received + Stream(readScript) == old(received + Stream(readScript))
        invariant (if again then Receive(Here(world), world.exec) else Here(world)) == Receive(l, world.exec)
        decreases Weight(readScript), again
      {
        again := TryFill(world);
      }
    }

    /** connection_io, with what the kernel will answer in this wake-up. Its assert that the state
        is not STATE_END is the first precondition. */
    method ConnectionIo(world: World<D>, rs: seq<ReadOutcome>, ws: seq<WriteOutcome>)
      requires state != STATE_END
      requires Valid(world)
      modifies this, rbuf, wbuf, world`db
      ensures Valid(world) && old(received) <= received && |old(Kept())| < BUF
      ensures received + Stream(readScript) == old(received) + Stream(rs)
      ensures Here(world) == Io(old(Here(world)).(rs := rs, ws := ws), world.exec)
    {
      assert |Kept()| < BUF by { assert Books(state, world); }
      readScript, writeScript := rs, ws;
      if state == STATE_REQ {
        StateReq(world);
      } else {
        StateRes(world);
        assert rbuf_size < BUF by { assert Books(state, world); }
      }
    }

    /** One wake-up, for any answers of the kernel. Each way of stopping has its cause, and the
        requests served take the database found to the database left. If the connection is left
        waiting, it has served every complete request it received, if and only if none was
        waiting in its buffer before or it could read. */
    method WakeUp(world: World<D>, rs: seq<ReadOutcome>, ws: seq<WriteOutcome>)
      requires state != STATE_END
      requires Valid(world)
      modifies this, rbuf, wbuf, world`db
      ensures Valid(world) && old(received) <= received
      ensures Caused(old(Here(world)).(rs := rs, ws := ws), Here(world))
      ensures received + Stream(readScript) == old(received) + Stream(rs)
      ensures old(state) == STATE_REQ && state == STATE_REQ ==> readScript == [] || TookRead(rs, readScript, ReadAgain)
      ensures Chained(old(Here(world)).(rs := rs, ws := ws), Here(world), world.exec)
      ensures state == STATE_REQ ==>
        (Bodies(log) == Frames(received) <==> old(Incomplete(Kept())) || (old(state) == STATE_REQ && Delivers(rs)))
    {
      ghost var l := Here(world).(rs := rs, ws := ws);
      ConnectionIo(world, rs, ws);
      IoCaused(l, world.exec);
      IoChained(l, world.exec);
      ExecutedIsPrefix(this, world, received);
      if state == STATE_REQ {
        WaitsBare(l, world.exec);
      }
    }
  }

  /** The executed requests are the first frames of whatever the stream turns out to be; they
      are all the complete ones received exactly when the read buffer holds none. */
  lemma ExecutedIsPrefix<D(!new)>(c: Conn<D>, world: World<D>, stream: Bytes)
    requires c.Valid(world) && c.received <= stream
    ensures Bodies(c.log) <= Frames(stream)
    ensures Bodies(c.log) == Frames(c.received) <==> Incomplete(c.Kept())
  {
    assert c.Books(c.state, world);
    assert Accounts(c.log, c.taken, c.owed, c.last, world.exec);
    ShortLog(c.log, world.exec);
    FirstFrames(Bodies(c.log), c.Kept(), c.received, stream);
  }

  /** What the client can decode of what was sent is the replies in order: all of them, or all
      but the last one while that one is unsent in part. */
  lemma SentIsPrefix<D(!new)>(c: Conn<D>, world: World<D>)
    requires c.Valid(world)
    ensures c.wbuf_size == 0 ==> Frames(c.sent) == Answers(c.log) && c.sent == Framed(Answers(c.log))
    ensures c.wbuf_size > 0 ==> c.log != [] && Frames(c.sent) == Answers(c.log)[..|c.log| - 1]
    ensures c.state == STATE_REQ ==> c.wbuf_size == 0
    ensures c.state == STATE_RES ==> c.wbuf_sent < c.wbuf_size <= K_MAX_MSG
  {
    assert c.Books(c.state, world);
    assert Accounts(c.log, c.taken, c.owed, c.last, world.exec);
    ShortLog(c.log, world.exec);
    if c.wbuf_size == 0 {
      AllSent(Answers(c.log), c.sent);
    } else {
      var part, rest := c.wbuf[..c.wbuf_sent], c.Unsent();
      assert c.last == part + rest;
      AllButLast(Answers(c.log), part, rest, c.sent);
    }
  }

  lemma AllSent(replies: seq<Bytes>, sent: Bytes)
    requires Short(replies) && sent + [] == Framed(replies)
    ensures sent == Framed(replies) && Frames(sent) == replies
  {
    assert sent + [] == sent && Framed(replies) + [] == Framed(replies);
    FramesOfFramed(replies, []);
    assert replies + [] == replies;
  }

  // ----- a client that sends commands -----

  ghost function BodiesOf(cmds: seq<seq<Bytes>>): (b: seq<Bytes>)
    ensures |b| == |cmds|
  {
    seq(|cmds|, i requires 0 <= i < |cmds| => Request.Body(cmds[i]))
  }

  ghost predicate FitAll(cmds: seq<seq<Bytes>>) {
    forall cmd <- cmds :: |Request.Body(cmd)| <= K_MAX_MSG
  }

  lemma FitIsShort(cmds: seq<seq<Bytes>>)
    requires FitAll(cmds)
    ensures Short(BodiesOf(cmds)) && Frames(Framed(BodiesOf(cmds))) == BodiesOf(cmds)
  {
    var bodies := BodiesOf(cmds);
    forall i | 0 <= i < |bodies| ensures |bodies[i]| < U32 { assert cmds[i] in cmds; }
    FramesOfFramed(bodies, []);
    assert Framed(bodies) + [] == Framed(bodies) && bodies + [] == bodies;
  }

  /** What is behind some of the frames begins with a fit one, or with a part of one. */
  lemma AheadIsFit(cmds: seq<seq<Bytes>>, n: nat, kept: Bytes)
    requires FitAll(cmds) && n <= |cmds| && Framed(BodiesOf(cmds)[..n]) + kept <= Framed(BodiesOf(cmds))
    ensures !Unfit(kept)
  {
    var bodies := BodiesOf(cmds);
    FramedFrom(bodies, n);
    Behind(Framed(bodies[..n]), kept, Framed(bodies[n..]));
    if n < |cmds| {
      assert cmds[n] in cmds;
      FramedNext(bodies, n);
      FrontIsFit(cmds[n], Framed(bodies[n + 1..]), kept);
    }
  }

  lemma Behind(done: Bytes, kept: Bytes, rest: Bytes)
    requires done + kept <= done + rest
    ensures kept <= rest
  {
    assert kept == (done + kept)[|done|..] && rest == (done + rest)[|done|..];
  }

  lemma FrontIsFit(cmd: seq<Bytes>, rest: Bytes, kept: Bytes)
    requires |Request.Body(cmd)| <= K_MAX_MSG && kept <= Request.Frame(Request.Body(cmd)) + rest
    ensures !Unfit(kept)
  {
    var body := Request.Body(cmd);
    var b := Request.Frame(body) + rest;
    FrameParts(body, rest);
    assert |kept| >= 4 ==> kept[..4] == b[..4];
    assert |kept| >= 4 + |body| ==> kept[4..4 + |body|] == b[4..4 + |body|];
  }

  /** Of a client that sends commands, nothing is refused. */
  lemma NoneUnfit<D(!new)>(c: Conn<D>, world: World<D>, cmds: seq<seq<Bytes>>)
    requires c.Valid(world) && FitAll(cmds) && c.received <= Framed(BodiesOf(cmds))
    ensures !Unfit(c.Kept()) && Bodies(c.log) <= BodiesOf(cmds)
  {
    var bodies := BodiesOf(cmds);
    FitIsShort(cmds);
    ExecutedIsPrefix(c, world, Framed(bodies));
    assert c.Books(c.state, world) && Accounts(c.log, c.taken, c.owed, c.last, world.exec);
    assert Bodies(c.log) == bodies[..|c.log|];
    AheadIsFit(cmds, |c.log|, c.Kept());
  }

  /** Nothing fails, and nothing is missing. */
  ghost predicate Reliable(rs: seq<ReadOutcome>, ws: seq<WriteOutcome>) {
    && (forall r <- rs :: r.ReadInterrupted? || (r.Data? && r.bytes != []))
    && (forall w <- ws :: !w.WriteError?)
  }

  lemma NotTaken(rs: seq<ReadOutcome>, ws: seq<WriteOutcome>, r: seq<ReadOutcome>, w: seq<WriteOutcome>)
    requires Reliable(rs, ws)
    ensures !Took(ws, w, WriteError)
    ensures !TookRead(rs, r, ReadAgain) && !TookRead(rs, r, ReadError) && !TookRead(rs, r, Data([]))
  {
    assert |w| < |ws| ==> ws[|ws| - |w| - 1] in ws;
    assert |r| < |rs| ==> rs[|rs| - |r| - 1] in rs;
  }

  /** A client sends commands, in pieces of any size, and no call fails: the connection does not end,
      and unless a write blocks, all of them are executed, in order, and all replies sent. */
  method ServeAll<D(!new)>(
      c: Conn<D>, world: World<D>, rs: seq<ReadOutcome>, ws: seq<WriteOutcome>, ghost cmds: seq<seq<Bytes>>)
    requires c.Valid(world) && c.state == STATE_REQ && Delivers(rs) && Reliable(rs, ws)
    requires FitAll(cmds) && c.received + Stream(rs) == Framed(BodiesOf(cmds))
    modifies c, c.rbuf, c.wbuf, world`db
    ensures c.Valid(world) && c.state != STATE_END && Bodies(c.log) <= BodiesOf(cmds)
    ensures c.state == STATE_RES ==> c.writeScript == [] || Took(ws, c.writeScript, WriteAgain)
    ensures c.state == STATE_REQ ==> Bodies(c.log) == BodiesOf(cmds) && c.sent == Framed(Answers(c.log))
  {
    ghost var l := c.Here(world).(rs := rs, ws := ws);
    c.WakeUp(world, rs, ws);
    assert CausedBy(l, c.Here(world), c.state);
    NotTaken(rs, ws, c.readScript, c.writeScript);
    assert c.received <= c.received + Stream(c.readScript);
    NoneUnfit(c, world, cmds);
    if c.state == STATE_REQ {
      SentIsPrefix(c, world);
      FitIsShort(cmds);
      assert c.readScript == [] && c.received + [] == c.received;
    }
  }

  /** A wake-up: the database as the other connections left it, and the kernel's answers. */
  datatype Event<!D> = Event(db: D, rs: seq<ReadOutcome>, ws: seq<WriteOutcome>)

  /** The life of a connection in the event loop: it is driven while it has not ended, so
      connection_io never meets STATE_END and the read buffer always has room. */
  method Serve<D(!new)>(world: World<D>, events: seq<Event<D>>) returns (c: Conn<D>)
    modifies world`db
    ensures fresh(c) && c.Valid(world)
    ensures forall stream :: c.received <= stream ==> Bodies(c.log) <= Frames(stream)
    ensures Frames(c.sent) <= Answers(c.log) && |Frames(c.sent)| >= |c.log| - 1
    ensures c.state == STATE_REQ ==> Frames(c.sent) == Answers(c.log)
  {
    c := new Conn(world);
    var i := 0;
    while i < |events| && c.state != STATE_END
      invariant 0 <= i <= |events| && c.Valid(world) && fresh(c) && fresh(c.rbuf) && fresh(c.wbuf)
    {
      world.db := events[i].db;
      c.ConnectionIo(world, events[i].rs, events[i].ws);
      i := i + 1;
    }
    forall stream | c.received <= stream
      ensures Bodies(c.log) <= Frames(stream)
    {
      ExecutedIsPrefix(c, world, stream);
    }
    SentIsPrefix(c, world);
  }

  /** The same for a connection that is alone with its database: the requests it has served are all
      that ever happened to the database. */
  method ServeAlone<D(!new)>(world: World<D>, events: seq<Event<D>>) returns (c: Conn<D>)
    modifies world`db
    ensures fresh(c) && c.Valid(world) && Chain(old(world.db), c.log, world.db, world.exec)
  {
    c := new Conn(world);
    var i := 0;
    while i < |events| && c.state != STATE_END
      invariant 0 <= i <= |events| && c.Valid(world) && fresh(c) && fresh(c.rbuf) && fresh(c.wbuf)
      invariant Chain(old(world.db), c.log, world.db, world.exec)
    {
      ghost var l := c.Here(world).(rs := events[i].rs, ws := events[i].ws);
      c.ConnectionIo(world, events[i].rs, events[i].ws);
      ChainOn(old(world.db), l, world.exec);
      i := i + 1;
    }
  }

  /** What a wake-up adds to a chain. */
  lemma ChainOn<D>(db: D, l: Link<D>, exec: Exec<D>)
    requires |l.buf| < BUF && Chain(db, l.log, l.db, exec)
    ensures var r := Io(l, exec); Chain(db, r.log, r.db, exec)
  {
    IoChained(l, exec);
    var r := Io(l, exec);
    assert r.log == l.log + r.log[|l.log|..];
    ChainJoin(db, l.log, l.db, r.log[|l.log|..], r.db, exec);
  }

  /** Two requests in one read and a blocked write, then a wake-up that only finishes the write:
      the connection waits for input and has not executed the second request, which it holds. */
  method Stall<D(!new)>(world: World<D>) returns (c: Conn<D>)
    modifies world`db
    ensures fresh(c) && c.Valid(world) && c.state == STATE_REQ
    ensures |c.log| == 1 && Bodies(c.log) != Frames(c.received) && !Incomplete(c.Kept())
  {
    c := new Conn(world);
    ghost var a, b := StalledRequest(world.db, world.exec);
    c.ConnectionIo(world, [Data(EMPTY + EMPTY)], []);
    c.ConnectionIo(world, [], [Wrote(K_MAX_MSG)]);
    ExecutedIsPrefix(c, world, c.received);
  }
}
