/** The tagged values of responses: out_* in src/utils.h, on_response in src/client.cpp. */
module Response {
  import opened Keys
  import opened Wire

  const SER_NIL: byte := 0
  const SER_ERR: byte := 1
  const SER_STR: byte := 2
  const SER_INT: byte := 3
  const SER_DBL: byte := 4
  const SER_ARR: byte := 5

  const U64: nat := 0x1_0000_0000_0000_0000

  /** `code` and `val` as raw two's complement; a double as its eight bytes. */
  datatype Value =
    | Nil
    | Err(code: nat, msg: Bytes)
    | Str(s: Bytes)
    | Int(val: nat)
    | Dbl(bits: Bytes)
    | Arr(vs: seq<Value>)

  ghost predicate Fits(v: Value) {
    match v
    case Nil => true
    case Err(code, msg) => code < U32 && |msg| < U32
    case Str(s) => |s| < U32
    case Int(n) => n < U64
    case Dbl(bits) => |bits| == 8
    case Arr(vs) => |vs| < U32 && forall x <- vs :: Fits(x)
  }

  /** out_nil, out_err, out_str, out_int, out_double, and out_arr followed by its elements. */
  function Encode(v: Value): (b: Bytes)
    ensures |b| >= 1
    decreases v, 0
  {
    match v
    case Nil => [SER_NIL]
    case Err(code, msg) => [SER_ERR] + Le(code, 4) + Le(|msg|, 4) + msg
    case Str(s) => [SER_STR] + Le(|s|, 4) + s
    case Int(n) => [SER_INT] + Le(n, 8)
    case Dbl(bits) => [SER_DBL] + bits
    case Arr(vs) => [SER_ARR] + Le(|vs|, 4) + EncodeAll(vs)
  }

  /** The first byte tells the kind. */
  lemma TagOf(v: Value)
    ensures Encode(v)[0] == match v
                            case Nil => 0
                            case Err(_, _) => 1
                            case Str(_) => 2
                            case Int(_) => 3
                            case Dbl(_) => 4
                            case Arr(_) => 5
  {
  }

  function EncodeAll(vs: seq<Value>): Bytes
    decreases vs, 1
  {
    if vs == [] then [] else Encode(vs[0]) + EncodeAll(vs[1..])
  }

  lemma {:induction false} EncodeAllConcat(a: seq<Value>, b: seq<Value>)
    ensures EncodeAll(a + b) == EncodeAll(a) + EncodeAll(b)
  {
    if a == [] {
      assert a + b == b;
    } else {
      EncodeAllConcat(a[1..], b);
      assert (a + b)[1..] == a[1..] + b && (a + b)[0] == a[0];
      assert EncodeAll(a + b) == Encode(a[0]) + EncodeAll((a + b)[1..]);
      Assoc(Encode(a[0]), EncodeAll(a[1..]), EncodeAll(b));
    }
  }

  datatype Parsed = Bad | Ok(v: Value, used: nat)
  datatype ParsedAll = BadAll | OkAll(vs: seq<Value>, used: nat)

  /** The reference decoder: the value at the front of `data`, and how many bytes it takes. */
  function Parse(data: Bytes): (p: Parsed)
    ensures p.Ok? ==> 1 <= p.used <= |data|
    decreases |data|, 1, 0
  {
    if |data| < 1 then Bad
    else if data[0] == SER_NIL then Ok(Nil, 1)
    else if data[0] == SER_ERR then
      if |data| < 9 then Bad
      else
        var len := Un(data[5..9]);
        if |data| < 9 + len then Bad else Ok(Err(Un(data[1..5]), data[9..9 + len]), 9 + len)
    else if data[0] == SER_STR then
      if |data| < 5 then Bad
      else
        var len := Un(data[1..5]);
        if |data| < 5 + len then Bad else Ok(Str(data[5..5 + len]), 5 + len)
    else if data[0] == SER_INT then
      if |data| < 9 then Bad else Ok(Int(Un(data[1..9])), 9)
    else if data[0] == SER_DBL then
      if |data| < 9 then Bad else Ok(Dbl(data[1..9]), 9)
    else if data[0] == SER_ARR then
      if |data| < 5 then Bad
      else
        match ParseAll(data[5..], Un(data[1..5]))
        case BadAll => Bad
        case OkAll(vs, used) => Ok(Arr(vs), 5 + used)
    else Bad
  }

  function ParseAll(data: Bytes, n: nat): (p: ParsedAll)
    ensures p.OkAll? ==> p.used <= |data| && |p.vs| == n
    decreases |data|, 2, n
  {
    if n == 0 then OkAll([], 0)
    else
      match Parse(data)
      case Bad => BadAll
      case Ok(v, used) =>
        match ParseAll(data[used..], n - 1)
        case BadAll => BadAll
        case OkAll(vs, more) => OkAll([v] + vs, used + more)
  }

  lemma Fields(tag: byte, n: nat, rest: Bytes)
    requires n < U32
    ensures var d := [tag] + Le(n, 4) + rest;
            |d| >= 5 && d[0] == tag && Un(d[1..5]) == n && d[5..] == rest
  {
    U32Front(n, rest);
    var d := [tag] + Le(n, 4) + rest;
    assert d[1..] == Le(n, 4) + rest;
    assert d[1..5] == Le(n, 4);
  }

  lemma RoundTripErr(code: nat, msg: Bytes, suffix: Bytes)
    requires code < U32 && |msg| < U32
    ensures Parse(Encode(Err(code, msg)) + suffix) == Ok(Err(code, msg), |Encode(Err(code, msg))|)
  {
    ErrParts([SER_ERR], Le(code, 4), Le(|msg|, 4), msg, suffix);
    Sizes();
    UnLe(code, 4);
    UnLe(|msg|, 4);
  }

  lemma ErrParts(tag: Bytes, code: Bytes, len: Bytes, msg: Bytes, suffix: Bytes)
    requires |tag| == 1 && |code| == |len| == 4
    ensures var d := (tag + code + len + msg) + suffix;
            |d| >= 9 + |msg| && d[..1] == tag && d[1..5] == code && d[5..9] == len && d[9..9 + |msg|] == msg
  {
  }

  lemma RoundTripStr(s: Bytes, suffix: Bytes)
    requires |s| < U32
    ensures Parse(Encode(Str(s)) + suffix) == Ok(Str(s), |Encode(Str(s))|)
  {
    StrParts([SER_STR], Le(|s|, 4), s, suffix);
    Sizes();
    UnLe(|s|, 4);
  }

  lemma StrParts(tag: Bytes, len: Bytes, s: Bytes, suffix: Bytes)
    requires |tag| == 1 && |len| == 4
    ensures var d := (tag + len + s) + suffix;
            |d| >= 5 + |s| && d[..1] == tag && d[1..5] == len && d[5..5 + |s|] == s
  {
  }

  lemma RoundTripNumber(n: nat, bits: Bytes, suffix: Bytes)
    requires n < U64 && |bits| == 8
    ensures Parse(Encode(Int(n)) + suffix) == Ok(Int(n), 9)
    ensures Parse(Encode(Dbl(bits)) + suffix) == Ok(Dbl(bits), 9)
  {
    Sizes();
    UnLe(n, 8);
    assert (Encode(Int(n)) + suffix)[1..9] == Le(n, 8);
    assert (Encode(Dbl(bits)) + suffix)[1..9] == bits;
  }

  /** Any serialized value, followed by anything, decodes to itself and to exactly its bytes. */
  lemma {:induction false} RoundTrip(v: Value, suffix: Bytes)
    requires Fits(v)
    ensures Parse(Encode(v) + suffix) == Ok(v, |Encode(v)|)
    decreases v, 0
  {
    match v
    case Nil =>
    case Err(code, msg) => RoundTripErr(code, msg, suffix);
    case Str(s) => RoundTripStr(s, suffix);
    case Int(n) => RoundTripNumber(n, Le(n, 8), suffix);
    case Dbl(bits) => RoundTripNumber(0, bits, suffix);
    case Arr(vs) =>
      RoundTripAll(vs, suffix);
      RoundTripArr(vs, suffix);
  }

  lemma RoundTripArr(vs: seq<Value>, suffix: Bytes)
    requires |vs| < U32 && ParseAll(EncodeAll(vs) + suffix, |vs|) == OkAll(vs, |EncodeAll(vs)|)
    ensures Parse(Encode(Arr(vs)) + suffix) == Ok(Arr(vs), |Encode(Arr(vs))|)
  {
    var d := Encode(Arr(vs)) + suffix;
    Assoc([SER_ARR] + Le(|vs|, 4), EncodeAll(vs), suffix);
    Fields(SER_ARR, |vs|, EncodeAll(vs) + suffix);
  }

  lemma {:induction false} RoundTripAll(vs: seq<Value>, suffix: Bytes)
    requires forall x <- vs :: Fits(x)
    ensures ParseAll(EncodeAll(vs) + suffix, |vs|) == OkAll(vs, |EncodeAll(vs)|)
    decreases vs, 1
  {
    if vs != [] {
      RoundTrip(vs[0], EncodeAll(vs[1..]) + suffix);
      RoundTripAll(vs[1..], suffix);
      AllParts(Encode(vs[0]), EncodeAll(vs[1..]), suffix);
      ParseCons(EncodeAll(vs) + suffix, vs[0], |Encode(vs[0])|, vs[1..], |EncodeAll(vs[1..])|);
      assert vs == [vs[0]] + vs[1..];
    }
  }

  lemma ParseCons(data: Bytes, v: Value, used: nat, vs: seq<Value>, more: nat)
    requires Parse(data) == Ok(v, used) && used <= |data| && ParseAll(data[used..], |vs|) == OkAll(vs, more)
    ensures ParseAll(data, |vs| + 1) == OkAll([v] + vs, used + more)
  {
  }

  lemma AllParts(first: Bytes, more: Bytes, suffix: Bytes)
    ensures (first + more) + suffix == first + (more + suffix)
    ensures (first + (more + suffix))[|first|..] == more + suffix
  {
  }

  /** Two different values never serialize to strings of which one extends the other. */
  lemma PrefixFree(v: Value, w: Value, s: Bytes, t: Bytes)
    requires Fits(v) && Fits(w) && Encode(v) + s == Encode(w) + t
    ensures v == w && s == t
  {
    RoundTrip(v, s);
    RoundTrip(w, t);
    assert s == (Encode(v) + s)[|Encode(v)|..] && t == (Encode(w) + t)[|Encode(w)|..];
  }

  /** on_response, with its 32-bit sums: how many bytes it consumed, or -1. On anything that
      starts with a serialized value this is exactly the length of that value. */
  method OnResponse(data: Bytes) returns (rv: int)
    requires |data| < 0x8000_0000
    ensures rv <= |data|
    ensures Parse(data).Ok? ==> rv == Parse(data).used
    decreases |data|, 1
  {
    if |data| < 1 {
      return -1;
    }
    if data[0] == SER_NIL {
      return 1;
    } else if data[0] == SER_ERR {
      if |data| < 1 + 8 {
        return -1;
      }
      var len := Un(data[5..9]);
      if |data| < (1 + 8 + len) % U32 {
        return -1;
      }
      return (1 + 8 + len) % U32;
    } else if data[0] == SER_STR {
      if |data| < 1 + 4 {
        return -1;
      }
      var len := Un(data[1..5]);
      if |data| < (1 + 4 + len) % U32 {
        return -1;
      }
      return (1 + 4 + len) % U32;
    } else if data[0] == SER_INT || data[0] == SER_DBL {
      if |data| < 1 + 8 {
        return -1;
      }
      return 1 + 8;
    } else if data[0] == SER_ARR {
      if |data| < 1 + 4 {
        return -1;
      }
      ghost var end := if Parse(data).Ok? then Parse(data).used else 0;
      assert Parse(data).Ok? ==> ElementsLeft(data, 5, Un(data[1..5]), end);
      rv := OnElements(data, Un(data[1..5]), end);
    } else {
      return -1;
    }
  }

  /** From byte `done` on come `n` elements, the last of which ends at `end`. */
  ghost predicate ElementsLeft(data: Bytes, done: nat, n: nat, end: nat)
  {
    done <= |data| && var left := ParseAll(data[done..], n); left.OkAll? && done + left.used == end
  }

  /** The same, folded. */
  ghost predicate Left(data: Bytes, done: nat, n: nat, end: nat)
  {
    forall e <- {end} :: ElementsLeft(data, done, n, e)
  }

  /** The first element of `n` takes `used` bytes, and the others `rest`. */
  lemma {:induction false} FirstOf(data: Bytes, n: nat) returns (used: nat, rest: nat)
    requires n > 0 && ParseAll(data, n).OkAll?
    ensures Parse(data).Ok? && used == Parse(data).used <= |data| && ParseAll(data, n).used == used + rest
    ensures ParseAll(data[used..], n - 1).OkAll? && ParseAll(data[used..], n - 1).used == rest
  {
    used := Parse(data).used;
    rest := ParseAll(data[used..], n - 1).used;
  }

  /** Elements that follow one of `used` bytes. */
  lemma {:induction false} Behind(data: Bytes, done: nat, here: Bytes, used: nat, n: nat, end: nat)
    requires done + used <= |data| && here == data[done..]
    requires var left := ParseAll(here[used..], n); left.OkAll? && done + used + left.used == end
    ensures Left(data, done + used, n, end)
  {
    assert here[used..] == data[done + used..];
  }

  lemma NoneLeft(data: Bytes, done: nat, end: nat)
    requires Left(data, done, 0, end)
    ensures done == end
  {
    assert ElementsLeft(data, done, 0, end);
  }

  /** The first of the elements left. */
  lemma {:induction false} Peel(data: Bytes, done: nat, n: nat, end: nat)
    requires n > 0 && Left(data, done, n, end)
    ensures done <= |data|
    ensures var p := Parse(data[done..]); p.Ok? && Left(data, done + p.used, n - 1, end)
  {
    assert ElementsLeft(data, done, n, end);
    PeelHere(data, done, data[done..], n, end);
  }

  lemma {:induction false} PeelHere(data: Bytes, done: nat, here: Bytes, n: nat, end: nat)
    requires n > 0 && done <= |data| && here == data[done..]
    requires ParseAll(here, n).OkAll? && done + ParseAll(here, n).used == end
    ensures Parse(here).Ok? && Left(data, done + Parse(here).used, n - 1, end)
  {
    var used, rest := FirstOf(here, n);
    Behind(data, done, here, used, n - 1, end);
  }

  /** The loop over the elements of an array. */
  method OnElements(data: Bytes, len: nat, ghost end: nat) returns (rv: int)
    requires 5 <= |data| < 0x8000_0000
    ensures rv <= |data|
    ensures Left(data, 5, len, end) ==> rv == end
    decreases |data|, 0
  {
    var arr_bytes := 1 + 4;
    for i := 0 to len
      invariant 5 <= arr_bytes <= |data|
      invariant Left(data, 5, len, end) ==> Left(data, arr_bytes, len - i, end)
    {
      if Left(data, arr_bytes, len - i, end) { Peel(data, arr_bytes, len - i, end); }
      var more := OnResponse(data[arr_bytes..]);
      if more < 0 {
        return more;
      }
      arr_bytes := arr_bytes + more;
    }
    if Left(data, arr_bytes, 0, end) { NoneLeft(data, arr_bytes, end); }
    rv := arr_bytes;
  }
}
