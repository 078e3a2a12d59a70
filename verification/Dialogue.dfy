/** The string commands of do_request (src/server.cpp:637-658) behind a connection: what a client
    sees of the data, however its requests and the replies are split on the wire. */
module Dialogue {
  import opened Keys
  import opened Database
  import KeySpace
  import opened Response
  import opened Wire
  import opened Framing
  import opened Session
  import opened Connection
  import Request
  import Commands

  type Map = map<Bytes, Content>

  const SET: Bytes := [115, 101, 116]
  const GET: Bytes := [103, 101, 116]
  const DEL: Bytes := [100, 101, 108]

  function Lower(b: byte): byte {
    if 65 <= b <= 90 then b + 32 else b
  }

  /** cmd_is, for a name in lower case: letters of either case, up to a zero byte */
  predicate CmdIs(word: Bytes, name: Bytes) {
    if name == [] then word == [] || word[0] == 0
    else word != [] && Lower(word[0]) == name[0] && CmdIs(word[1..], name[1..])
  }

  /** That is, the letters of the name in either case, and then nothing or a zero byte. */
  lemma {:induction false} CmdIsExactly(word: Bytes, name: Bytes)
    ensures CmdIs(word, name) <==>
      && |word| >= |name| && (forall i :: 0 <= i < |name| ==> Lower(word[i]) == name[i])
      && (|word| == |name| || word[|name|] == 0)
    decreases |name|
  {
    if word != [] && name != [] {
      var w, n := word[1..], name[1..];
      CmdIsExactly(w, n);
      assert |word| > |name| ==> word[|name|] == w[|n|];
      assert (forall i :: 0 <= i < |n| && i < |w| ==> Lower(w[i]) == n[i]) ==>
        forall i :: 0 < i < |name| && i < |word| ==> word[i] == w[i - 1] && name[i] == n[i - 1];
    }
  }

  /** do_request on the data; `others` answers what is not get, set or del. */
  function Dispatch(data: Map, cmd: seq<Bytes>, others: Exec<Map>): (Map, Bytes) {
    if |cmd| == 2 && CmdIs(cmd[0], GET) then (data, Encode(if cmd[1] in data then Str(data[cmd[1]].str) else Nil))
    else if |cmd| == 3 && CmdIs(cmd[0], SET) then (Stored(data, cmd[1], cmd[2]), Encode(Nil))
    else if |cmd| == 2 && CmdIs(cmd[0], DEL) then (data - {cmd[1]}, Encode(Int(if cmd[1] in data then 1 else 0)))
    else others(data, cmd)
  }

  predicate OnStrings(cmd: seq<Bytes>) {
    (|cmd| == 2 && (CmdIs(cmd[0], GET) || CmdIs(cmd[0], DEL))) || (|cmd| == 3 && CmdIs(cmd[0], SET))
  }

  /** The operation a command asks for. */
  ghost function OpOf(cmd: seq<Bytes>): KeySpace.Op
    requires OnStrings(cmd)
  {
    if |cmd| == 2 && CmdIs(cmd[0], GET) then KeySpace.Get(cmd[1])
    else if |cmd| == 3 then KeySpace.Set(cmd[1], cmd[2])
    else KeySpace.Del(cmd[1])
  }

  /** do_request on the key space, for the commands on strings: the handlers do to the data and
      answer what `Dispatch` says. */
  method DoRequest(d: Db, body: Bytes, cmd: seq<Bytes>, ghost others: Exec<Map>) returns (done: bool, out: Bytes)
    requires Commands.Healthy(d) && OnStrings(cmd)
    requires |body| <= K_MAX_MSG && Request.ParseBody(body) == Some(cmd)
    modifies d, d.db.Repr, d.timers`heap, d.entries
    ensures done || !d.db.skipsEmpty
    ensures done ==> Commands.Healthy(d)
    ensures done ==>
      Commands.StateOf(d).data == Dispatch(old(Commands.StateOf(d)).data, cmd, others).0
      && out == Dispatch(old(Commands.StateOf(d)).data, cmd, others).1
  {
    ghost var a, op := Commands.StateOf(d), OpOf(cmd);
    if |cmd| == 2 && CmdIs(cmd[0], GET) {
      done, out := Commands.ApplyGet(d, cmd[1]);
    } else if |cmd| == 3 && CmdIs(cmd[0], SET) {
      NameFits(cmd[0], SET);
      Commands.SetValueFits(body, cmd);
      done, out := Commands.ApplySet(d, cmd[1], cmd[2]);
    } else {
      done, out := Commands.ApplyDel(d, cmd[1]);
    }
    if done {
      StepIsDispatch(a, Commands.StateOf(d), d.db.skipsEmpty, cmd, others);
    }
  }

  lemma StepIsDispatch(a: KeySpace.State, b: KeySpace.State, skipsEmpty: bool, cmd: seq<Bytes>, others: Exec<Map>)
    requires OnStrings(cmd) && KeySpace.Steps(a, OpOf(cmd), b, skipsEmpty)
    ensures b.data == Dispatch(a.data, cmd, others).0
  {
    assert KeySpace.StepsBy(a, OpOf(cmd), b, skipsEmpty);
  }

  /** The server behind the connection answers that way. */
  ghost predicate DispatchesTo(exec: Exec<Map>, others: Exec<Map>) {
    forall data, cmd :: exec(data, cmd) == Dispatch(data, cmd, others)
  }

  /** The same, folded. */
  ghost predicate Dispatches(exec: Exec<Map>, others: Exec<Map>) {
    forall o <- {others} :: DispatchesTo(exec, o)
  }

  lemma {:induction false} NameFits(word: Bytes, name: Bytes)
    requires CmdIs(word, name)
    ensures |word| >= |name|
    decreases |name|
  {
    if name != [] { NameFits(word[1..], name[1..]); }
  }

  /** The database that each request of a chain met. */
  lemma {:induction false} ChainAt<D>(before: D, log: seq<Served<D>>, after: D, exec: Exec<D>, i: nat)
    requires Chain(before, log, after, exec) && i < |log|
    ensures Request.ParseBody(log[i].body).Some?
    ensures i == 0 ==> log[i].db == before
    ensures i > 0 ==> Request.ParseBody(log[i - 1].body).Some?
    ensures i > 0 ==> log[i].db == exec(log[i - 1].db, Request.ParseBody(log[i - 1].body).value).0
    decreases |log|
  {
    var n := |log| - 1;
    if i < n {
      ChainAt(before, log[..n], log[n].db, exec, i);
    } else if n > 0 {
      assert log[..n][n - 1] == log[n - 1] && log[..n] != [];
    }
  }

  /** The client sends these commands, and perhaps more. */
  ghost predicate Sends(frames: seq<Bytes>, cmds: seq<seq<Bytes>>) {
    && |cmds| <= |frames|
    && forall i :: 0 <= i < |cmds| ==> frames[i] == Request.Body(cmds[i]) && |frames[i]| <= K_MAX_MSG
  }

  /** The data after some commands, */
  ghost function DataAfter(data: Map, cmds: seq<seq<Bytes>>, others: Exec<Map>): Map {
    if cmds == [] then data
    else Dispatch(DataAfter(data, cmds[..|cmds| - 1], others), cmds[|cmds| - 1], others).0
  }

  /** and the reply to each. */
  ghost function ReplyTo(data: Map, cmds: seq<seq<Bytes>>, i: nat, others: Exec<Map>): Bytes
    requires i < |cmds|
  {
    Cap(Dispatch(DataAfter(data, cmds[..i], others), cmds[i], others).1)
  }

  /** A served request with the body of a command was answered by the dispatcher. */
  lemma ServedBy(s: Served<Map>, exec: Exec<Map>, others: Exec<Map>, cmd: seq<Bytes>)
    requires Dispatches(exec, others) && Right(s, exec) && s.body == Request.Body(cmd) && |s.body| <= K_MAX_MSG
    ensures Request.ParseBody(s.body) == Some(cmd) && exec(s.db, cmd) == Dispatch(s.db, cmd, others)
    ensures s.reply == Cap(Dispatch(s.db, cmd, others).1)
  {
    assert DispatchesTo(exec, others);
    Request.ParseOfBody(cmd);
  }

  lemma ServedAt(
      log: seq<Served<Map>>, exec: Exec<Map>, others: Exec<Map>, frames: seq<Bytes>, cmds: seq<seq<Bytes>>, i: nat)
    requires Dispatches(exec, others) && (forall s <- log :: Right(s, exec))
    requires Sends(frames, cmds) && Bodies(log) <= frames && i < |log| && i < |cmds|
    ensures Request.ParseBody(log[i].body) == Some(cmds[i])
    ensures exec(log[i].db, cmds[i]).0 == Dispatch(log[i].db, cmds[i], others).0
    ensures log[i].reply == Cap(Dispatch(log[i].db, cmds[i], others).1)
  {
    assert Bodies(log)[i] == frames[i] && log[i] in log;
    ServedBy(log[i], exec, others, cmds[i]);
  }

  /** What the connection has answered so far. */
  lemma {:induction false} AnsweredAt(
      db: Map, log: seq<Served<Map>>, after: Map, exec: Exec<Map>, others: Exec<Map>,
      frames: seq<Bytes>, cmds: seq<seq<Bytes>>, i: nat)
    requires Dispatches(exec, others) && Chain(db, log, after, exec) && (forall s <- log :: Right(s, exec))
    requires Sends(frames, cmds) && Bodies(log) <= frames && i < |log| && i < |cmds|
    ensures log[i].db == DataAfter(db, cmds[..i], others) && log[i].reply == ReplyTo(db, cmds, i, others)
    decreases i
  {
    ChainAt(db, log, after, exec, i);
    ServedAt(log, exec, others, frames, cmds, i);
    if i > 0 {
      AnsweredAt(db, log, after, exec, others, frames, cmds, i - 1);
      ServedAt(log, exec, others, frames, cmds, i - 1);
      OneMore(db, cmds, i, others);
    }
  }

  lemma OneMore(db: Map, cmds: seq<seq<Bytes>>, i: nat, others: Exec<Map>)
    requires 0 < i <= |cmds|
    ensures DataAfter(db, cmds[..i], others)
         == Dispatch(DataAfter(db, cmds[..i - 1], others), cmds[i - 1], others).0
  {
    assert cmds[..i][..i - 1] == cmds[..i - 1];
  }

  /** The replies a client has are those to its commands, as far as they go. */
  ghost predicate Reads(replies: seq<Bytes>, db: Map, cmds: seq<seq<Bytes>>, others: Exec<Map>) {
    forall i :: 0 <= i < |replies| && i < |cmds| ==> replies[i] == ReplyTo(db, cmds, i, others)
  }

  /** A client reads the replies to its commands in order, executed one after another on the data,
      for every way its requests and the replies are split, delayed or cut off. */
  lemma ClientReads(
      c: Conn<Map>, world: World<Map>, db: Map, others: Exec<Map>, stream: Bytes, cmds: seq<seq<Bytes>>)
    requires c.Valid(world) && Chain(db, c.log, world.db, world.exec) && Dispatches(world.exec, others)
    requires c.received <= stream && Sends(Frames(stream), cmds)
    ensures Reads(Frames(c.sent), db, cmds, others)
  {
    ExecutedIsPrefix(c, world, stream);
    SentIsPrefix(c, world);
    assert c.Books(c.state, world) && Accounts(c.log, c.taken, c.owed, c.last, world.exec);
    forall i | 0 <= i < |Frames(c.sent)| && i < |cmds|
      ensures Frames(c.sent)[i] == ReplyTo(db, cmds, i, others)
    {
      AnsweredAt(db, c.log, world.db, world.exec, others, Frames(stream), cmds, i);
      assert Frames(c.sent)[i] == Answers(c.log)[i];
    }
  }

  /** The whole conversation of a client that is alone with the server. */
  method Converse(
      world: World<Map>, events: seq<Event<Map>>, ghost others: Exec<Map>, ghost stream: Bytes,
      ghost cmds: seq<seq<Bytes>>)
    returns (c: Conn<Map>)
    requires Dispatches(world.exec, others) && Sends(Frames(stream), cmds)
    modifies world`db
    ensures fresh(c) && c.Valid(world)
    ensures c.received <= stream ==> Reads(Frames(c.sent), old(world.db), cmds, others)
  {
    ghost var db := world.db;
    c := ServeAlone(world, events);
    if c.received <= stream {
      ClientReads(c, world, db, others, stream, cmds);
    }
  }

  // ----- two conversations -----

  /** The values that a client decodes, as far as replies have arrived. */
  ghost predicate Sees(replies: seq<Bytes>, vs: seq<Value>) {
    forall i :: 0 <= i < |replies| && i < |vs| ==> Parse(replies[i]) == Ok(vs[i], |replies[i]|)
  }

  lemma Decoded(v: Value)
    requires Response.Fits(v)
    ensures Parse(Encode(v)) == Ok(v, |Encode(v)|)
  {
    RoundTrip(v, []);
    assert Encode(v) + [] == Encode(v);
  }

  lemma SmallReplies()
    ensures Cap(Encode(Nil)) == Encode(Nil) && Cap(Encode(Int(1))) == Encode(Int(1))
    ensures Parse(Encode(Nil)) == Ok(Nil, |Encode(Nil)|) && Parse(Encode(Int(1))) == Ok(Int(1), |Encode(Int(1))|)
  {
    Decoded(Nil);
    Decoded(Int(1));
  }

  lemma SetStep(data: Map, set_: Bytes, k: Bytes, v: Bytes, others: Exec<Map>)
    requires CmdIs(set_, SET) && |Request.Body([set_, k, v])| <= K_MAX_MSG
    ensures var r := Dispatch(data, [set_, k, v], others);
            && k in r.0 && r.0[k].str == v && Cap(r.1) == Encode(Nil)
    ensures |v| <= Commands.MAX_VALUE
  {
    SmallReplies();
    NameFits(set_, SET);
    Request.ParseOfBody([set_, k, v]);
    Commands.SetValueFits(Request.Body([set_, k, v]), [set_, k, v]);
  }

  lemma GetStep(data: Map, get_: Bytes, k: Bytes, others: Exec<Map>)
    requires CmdIs(get_, GET) && (k in data ==> |data[k].str| <= Commands.MAX_VALUE)
    ensures var out := Cap(Dispatch(data, [get_, k], others).1);
            Parse(out) == Ok(if k in data then Str(data[k].str) else Nil, |out|)
  {
    SmallReplies();
    if k in data {
      Commands.ValueReplyFits(data[k].str);
      Decoded(Str(data[k].str));
    }
  }

  lemma DelStep(data: Map, del_: Bytes, k: Bytes, others: Exec<Map>)
    requires CmdIs(del_, DEL) && k in data
    ensures var r := Dispatch(data, [del_, k], others); k !in r.0 && Cap(r.1) == Encode(Int(1))
  {
    SmallReplies();
    CmdIsExactly(del_, DEL);
    CmdIsExactly(del_, GET);
  }

  /** The replies to the first commands, one after another. */
  lemma FirstReplies(replies: seq<Bytes>, db: Map, others: Exec<Map>, cmds: seq<seq<Bytes>>)
    requires Reads(replies, db, cmds, others)
    ensures |replies| > 0 && |cmds| > 0 ==> replies[0] == Cap(Dispatch(db, cmds[0], others).1)
    ensures |replies| > 1 && |cmds| > 1 ==>
      replies[1] == Cap(Dispatch(Dispatch(db, cmds[0], others).0, cmds[1], others).1)
    ensures |replies| > 2 && |cmds| > 2 ==>
      replies[2] == Cap(Dispatch(Dispatch(Dispatch(db, cmds[0], others).0, cmds[1], others).0, cmds[2], others).1)
  {
    if |cmds| > 0 { assert cmds[..0] == [] && (|replies| > 0 ==> replies[0] == ReplyTo(db, cmds, 0, others)); }
    if |cmds| > 1 {
      OneMore(db, cmds, 1, others);
      assert |replies| > 1 ==> replies[1] == ReplyTo(db, cmds, 1, others);
    }
    if |cmds| > 2 {
      OneMore(db, cmds, 2, others);
      assert |replies| > 2 ==> replies[2] == ReplyTo(db, cmds, 2, others);
    }
  }

  /** A client that sends set k v and then get k decodes nil and v. */
  lemma SetThenGet(
      replies: seq<Bytes>, db: Map, others: Exec<Map>, set_: Bytes, get_: Bytes, k: Bytes, v: Bytes)
    requires CmdIs(set_, SET) && CmdIs(get_, GET) && |Request.Body([set_, k, v])| <= K_MAX_MSG
    requires Reads(replies, db, [[set_, k, v], [get_, k]], others)
    ensures Sees(replies, [Nil, Str(v)])
  {
    FirstReplies(replies, db, others, [[set_, k, v], [get_, k]]);
    SmallReplies();
    var data := Dispatch(db, [set_, k, v], others).0;
    SetStep(db, set_, k, v, others);
    GetStep(data, get_, k, others);
  }

  /** A client that sends set k v, del k and then get k decodes nil, 1 and nil. */
  lemma SetDelGet(
      replies: seq<Bytes>, db: Map, others: Exec<Map>, set_: Bytes, del_: Bytes, get_: Bytes, k: Bytes, v: Bytes)
    requires CmdIs(set_, SET) && CmdIs(del_, DEL) && CmdIs(get_, GET)
    requires |Request.Body([set_, k, v])| <= K_MAX_MSG
    requires Reads(replies, db, [[set_, k, v], [del_, k], [get_, k]], others)
    ensures Sees(replies, [Nil, Int(1), Nil])
  {
    FirstReplies(replies, db, others, [[set_, k, v], [del_, k], [get_, k]]);
    SmallReplies();
    var data := Dispatch(db, [set_, k, v], others).0;
    SetStep(db, set_, k, v, others);
    DelStep(data, del_, k, others);
    GetStep(Dispatch(data, [del_, k], others).0, get_, k, others);
  }
}
