/** Bytes, sort keys and the order `zless` puts on them. */
module Keys {

  type byte = x: int | 0 <= x < 256

  type Bytes = seq<byte>

  /** A `double` that is not NaN, kept only as a point of a total order. */
  type Score = real

  datatype Option<T> = None | Some(value: T)

  datatype Key = Key(score: Score, name: Bytes)

  function Min(a: nat, b: nat): nat {
    if a < b then a else b
  }

  /** `memcmp` over the first `n` bytes: the sign of the first difference, as unsigned bytes. */
  function Memcmp(a: Bytes, b: Bytes, n: nat): int
    requires n <= |a| && n <= |b|
    decreases n
  {
    if n == 0 then 0
    else if a[0] != b[0] then a[0] - b[0]
    else Memcmp(a[1..], b[1..], n - 1)
  }

  predicate NameLess(a: Bytes, b: Bytes) {
    var rv := Memcmp(a, b, Min(|a|, |b|));
    if rv != 0 then rv < 0 else |a| < |b|
  }

  predicate ZLess(a: Key, b: Key) {
    if a.score != b.score then a.score < b.score else NameLess(a.name, b.name)
  }

  /** Byte strings in dictionary order, said without `memcmp`: at the first
      position where they differ, `a` has ended or holds the smaller byte. */
  ghost predicate Dictionary(a: Bytes, b: Bytes) {
    exists i: nat :: DiffersAt(a, b, i)
  }

  ghost predicate DiffersAt(a: Bytes, b: Bytes, i: nat) {
    i <= |a| && i < |b| && a[..i] == b[..i] && (i == |a| || a[i] < b[i])
  }

  lemma {:induction false} NameLessIsDictionary(a: Bytes, b: Bytes)
    ensures NameLess(a, b) <==> Dictionary(a, b)
    decreases |a|
  {
    if a == [] || b == [] {
      if a == [] && b != [] { assert DiffersAt(a, b, 0); }
    } else if a[0] != b[0] {
      if a[0] < b[0] { assert DiffersAt(a, b, 0); }
      forall i: nat | DiffersAt(a, b, i) ensures a[0] < b[0] {
        if i > 0 { assert a[..i][0] == b[..i][0]; }
      }
    } else {
      NameLessIsDictionary(a[1..], b[1..]);
      NameLessTail(a, b);
      if Dictionary(a[1..], b[1..]) {
        var i: nat :| DiffersAt(a[1..], b[1..], i);
        assert a[..i + 1] == [a[0]] + a[1..][..i] && b[..i + 1] == [b[0]] + b[1..][..i];
        assert DiffersAt(a, b, i + 1);
      }
      if Dictionary(a, b) {
        var i: nat :| DiffersAt(a, b, i);
        assert a[1..][..i - 1] == a[..i][1..] && b[1..][..i - 1] == b[..i][1..];
        assert DiffersAt(a[1..], b[1..], i - 1);
      }
    }
  }

  lemma NameLessTail(a: Bytes, b: Bytes)
    requires a != [] && b != [] && a[0] == b[0]
    ensures NameLess(a, b) <==> NameLess(a[1..], b[1..])
  {
    assert Min(|a|, |b|) == Min(|a[1..]|, |b[1..]|) + 1;
  }

  lemma {:induction false} NameLessTrichotomy(a: Bytes, b: Bytes)
    ensures !NameLess(a, a)
    ensures NameLess(a, b) ==> !NameLess(b, a)
    ensures NameLess(a, b) || NameLess(b, a) || a == b
    decreases |a|
  {
    if a != [] {
      NameLessTail(a, a);
      if b == [] || a[0] != b[0] {
        NameLessTrichotomy(a[1..], []);
      } else {
        NameLessTrichotomy(a[1..], b[1..]);
        NameLessTail(a, b);
        NameLessTail(b, a);
        assert a == [a[0]] + a[1..] && b == [b[0]] + b[1..];
      }
    }
  }

  lemma {:induction false} NameLessTransitive(a: Bytes, b: Bytes, c: Bytes)
    requires NameLess(a, b) && NameLess(b, c)
    ensures NameLess(a, c)
    decreases |a|
  {
    if a != [] && b != [] && c != [] && a[0] == b[0] == c[0] {
      NameLessTail(a, b);
      NameLessTail(b, c);
      NameLessTail(a, c);
      NameLessTransitive(a[1..], b[1..], c[1..]);
    }
  }

  /** The order of the tuples of a sorted set, said without `zless`: lower scores first, equal
      scores by the dictionary order of the names. */
  ghost predicate Precedes(a: Key, b: Key) {
    a.score < b.score || (a.score == b.score && Dictionary(a.name, b.name))
  }

  /** That is the order of `zless`. */
  lemma ZLessIsPrecedes(a: Key, b: Key)
    ensures ZLess(a, b) <==> Precedes(a, b)
  {
    NameLessIsDictionary(a.name, b.name);
  }

  lemma PrecedesTotal(a: Key, b: Key)
    ensures !Precedes(a, a)
    ensures Precedes(a, b) ==> !Precedes(b, a)
    ensures Precedes(a, b) || Precedes(b, a) || a == b
  {
    ZLessTotal(a, b);
    ZLessIsPrecedes(a, a);
    ZLessIsPrecedes(a, b);
    ZLessIsPrecedes(b, a);
  }

  /** `zless` is a strict total order on (score, name) pairs. */
  lemma ZLessTotal(a: Key, b: Key)
    ensures !ZLess(a, a)
    ensures ZLess(a, b) ==> !ZLess(b, a)
    ensures ZLess(a, b) || ZLess(b, a) || a == b
  {
    NameLessTrichotomy(a.name, b.name);
    NameLessTrichotomy(a.name, a.name);
  }

  lemma ZLessTransitive(a: Key, b: Key, c: Key)
    requires ZLess(a, b) && ZLess(b, c)
    ensures ZLess(a, c)
  {
    if a.score == b.score == c.score {
      NameLessTransitive(a.name, b.name, c.name);
    }
  }

  // ----- str_hash -----

  const FNV: nat := 0x811C9DC5

  /** str_hash: a 32-bit hash in wrap-around arithmetic. */
  function StrHash(data: Bytes): nat {
    HashFrom(FNV, data)
  }

  function HashFrom(hash: nat, data: Bytes): nat
    decreases |data|
  {
    if data == [] then hash else HashFrom((hash + data[0]) * FNV % 0x1_0000_0000, data[1..])
  }

  /** The same without wrap-around, built up from the front. */
  ghost function ExactHash(data: Bytes): nat {
    if data == [] then FNV else (ExactHash(data[..|data| - 1]) + data[|data| - 1]) * FNV
  }

  /** Wrapping around at every byte is wrapping around at the end. */
  method HashLoop(data: Bytes) returns (hash: nat)
    ensures hash == ExactHash(data) % 0x1_0000_0000 && hash == StrHash(data)
  {
    hash := FNV;
    for i := 0 to |data|
      invariant hash == ExactHash(data[..i]) % 0x1_0000_0000
      invariant HashFrom(hash, data[i..]) == StrHash(data)
    {
      assert data[..i + 1][..i] == data[..i] && data[i..][1..] == data[i + 1..];
      WrapLate(ExactHash(data[..i]), data[i]);
      hash := (hash + data[i]) * FNV % 0x1_0000_0000;
    }
    assert data[..|data|] == data;
  }

  lemma WrapLate(exact: nat, b: nat)
    ensures (exact % 0x1_0000_0000 + b) * FNV % 0x1_0000_0000 == (exact + b) * FNV % 0x1_0000_0000
  {
    var q, r := exact / 0x1_0000_0000, exact % 0x1_0000_0000;
    assert (exact + b) * FNV == (r + b) * FNV + (q * FNV) * 0x1_0000_0000;
    WrapAway((r + b) * FNV, q * FNV);
  }

  lemma WrapAway(a: nat, k: nat)
    ensures (a + k * 0x1_0000_0000) % 0x1_0000_0000 == a % 0x1_0000_0000
  {
  }
}
