/** Length-prefixed frames on a byte stream, as both sides of a connection use them. */
module Framing {
  import opened Keys
  import opened Wire
  import Request

  /** Bodies on the wire, one frame after another. */
  ghost function Framed(bodies: seq<Bytes>): Bytes {
    if bodies == [] then [] else Framed(bodies[..|bodies| - 1]) + Request.Frame(bodies[|bodies| - 1])
  }

  /** There is no complete frame in front. */
  ghost predicate Incomplete(b: Bytes) {
    |b| < 4 || 4 + Un(b[..4]) > |b|
  }

  lemma FramedOn(bodies: seq<Bytes>, body: Bytes)
    ensures Framed(bodies + [body]) == Framed(bodies) + Request.Frame(body)
  {
    assert (bodies + [body])[..|bodies|] == bodies;
  }

  /** The reference decoder: the complete frames at the front of a stream. */
  ghost function Frames(b: Bytes): seq<Bytes>
    decreases |b|
  {
    if Incomplete(b) then [] else
      var n := 4 + Un(b[..4]);
      [b[4..n]] + Frames(b[n..])
  }

  lemma FrontFrame(body: Bytes, rest: Bytes)
    requires |body| < U32
    ensures Frames(Request.Frame(body) + rest) == [body] + Frames(rest)
  {
    Sizes();
    UnLe(|body|, 4);
    var b := Request.Frame(body) + rest;
    assert b[..4] == Le(|body|, 4) && b[4..4 + |body|] == body && b[4 + |body|..] == rest;
  }

  lemma {:induction false} FramedJoin(a: seq<Bytes>, b: seq<Bytes>)
    ensures Framed(a + b) == Framed(a) + Framed(b)
    decreases |b|
  {
    if b == [] {
      assert a + b == a;
    } else {
      var n := |b| - 1;
      FramedJoin(a, b[..n]);
      assert (a + b)[..|a + b| - 1] == a + b[..n] && (a + b)[|a + b| - 1] == b[n];
      Assoc(Framed(a), Framed(b[..n]), Request.Frame(b[n]));
    }
  }

  /** The frames from one on. */
  lemma {:induction false} FramedFrom(bodies: seq<Bytes>, n: nat)
    requires n <= |bodies|
    ensures Framed(bodies) == Framed(bodies[..n]) + Framed(bodies[n..])
  {
    assert bodies == bodies[..n] + bodies[n..];
    FramedParts(bodies, bodies[..n], bodies[n..]);
  }

  lemma FramedParts(bodies: seq<Bytes>, a: seq<Bytes>, b: seq<Bytes>)
    requires bodies == a + b
    ensures Framed(bodies) == Framed(a) + Framed(b)
  {
    FramedJoin(a, b);
  }

  lemma FramedNext(bodies: seq<Bytes>, n: nat)
    requires n < |bodies|
    ensures Framed(bodies[n..]) == Request.Frame(bodies[n]) + Framed(bodies[n + 1..])
  {
    var body, rest := bodies[n], bodies[n + 1..];
    assert [body] + rest == bodies[n..];
    FramedJoin([body], rest);
    FramedOne(body);
  }

  lemma FramedOne(body: Bytes)
    ensures Framed([body]) == Request.Frame(body)
  {
    var none: seq<Bytes>, frame := [], Request.Frame(body);
    FramedOn(none, body);
    assert none + [body] == [body] && Framed(none) + frame == frame;
  }

  /** What a frame and what follows it begins with. */
  lemma FrameParts(body: Bytes, rest: Bytes)
    requires |body| < U32
    ensures var b := Request.Frame(body) + rest;
            |b| >= 4 + |body| && Un(b[..4]) == |body| && b[4..4 + |body|] == body && b[4 + |body|..] == rest
  {
    Sizes();
    UnLe(|body|, 4);
    var b := Request.Frame(body) + rest;
    assert b[..4] == Le(|body|, 4);
  }

  ghost predicate Short(bodies: seq<Bytes>) {
    forall i :: 0 <= i < |bodies| ==> |bodies[i]| < U32
  }

  /** The framed bodies are the first frames of what they are followed by. */
  ghost predicate DecodesTo(bodies: seq<Bytes>, rest: Bytes) {
    Frames(Framed(bodies) + rest) == bodies + Frames(rest)
  }

  /** The same, folded. */
  ghost predicate Decodes(bodies: seq<Bytes>, rest: Bytes) {
    forall r <- {rest} :: DecodesTo(bodies, r)
  }

  lemma FramesOfFramed(bodies: seq<Bytes>, rest: Bytes)
    requires Short(bodies)
    ensures DecodesTo(bodies, rest)
  {
    DecodesAll(bodies, rest);
  }

  lemma {:induction false} DecodesAll(bodies: seq<Bytes>, rest: Bytes)
    requires Short(bodies)
    ensures Decodes(bodies, rest)
  {
    if bodies == [] {
      DecodesNone(rest);
    } else {
      var n := |bodies| - 1;
      var first, body := bodies[..n], bodies[n];
      assert Short(first) && |body| < U32;
      DecodesAll(first, Request.Frame(body) + rest);
      DecodesMore(first, body, rest);
      assert bodies == first + [body];
    }
  }

  lemma DecodesNone(rest: Bytes)
    ensures Decodes([], rest)
  {
    assert [] + rest == rest;
    assert DecodesTo([], rest);
  }

  lemma DecodesMore(first: seq<Bytes>, body: Bytes, rest: Bytes)
    requires |body| < U32 && Decodes(first, Request.Frame(body) + rest)
    ensures Decodes(first + [body], rest)
  {
    assert DecodesTo(first, Request.Frame(body) + rest);
    FrontFrame(body, rest);
    FramedOn(first, body);
    Assoc(Framed(first), Request.Frame(body), rest);
    Assoc(first, [body], Frames(rest));
    assert DecodesTo(first + [body], rest);
  }

  /** A part of a frame that is not all of it has no complete frame. */
  lemma PartOfFrame(body: Bytes, part: Bytes)
    requires |body| < U32 && part <= Request.Frame(body) && part != Request.Frame(body)
    ensures Frames(part) == []
  {
    Sizes();
    UnLe(|body|, 4);
    assert |part| >= 4 ==> part[..4] == Request.Frame(body)[..4] == Le(|body|, 4);
  }

  lemma FirstFrames(bodies: seq<Bytes>, kept: Bytes, received: Bytes, stream: Bytes)
    requires Short(bodies) && received == Framed(bodies) + kept && received <= stream
    ensures bodies <= Frames(stream)
    ensures bodies == Frames(received) <==> Incomplete(kept)
  {
    FramesOfFramed(bodies, kept);
    assert Frames(kept) == [] <==> Incomplete(kept);
    var tail := stream[|received|..];
    assert stream == received + tail;
    Assoc(Framed(bodies), kept, tail);
    FramesOfFramed(bodies, kept + tail);
  }

  lemma AllButLast(replies: seq<Bytes>, part: Bytes, rest: Bytes, sent: Bytes)
    requires replies != [] && Short(replies) && rest != []
    requires part + rest == Request.Frame(replies[|replies| - 1]) && sent + rest == Framed(replies)
    ensures Frames(sent) == replies[..|replies| - 1]
  {
    var n := |replies| - 1;
    SameHead(sent, Framed(replies[..n]) + part, rest);
    FramesOfFramed(replies[..n], part);
    PartOfFrame(replies[n], part);
  }

  lemma SameHead(a: Bytes, b: Bytes, tail: Bytes)
    requires a + tail == b + tail
    ensures a == b
  {
    assert |a| == |b|;
    assert a == (a + tail)[..|a|] && b == (b + tail)[..|b|];
  }
}
