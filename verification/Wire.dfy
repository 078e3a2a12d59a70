/** Little-endian integers, as memcpy puts them on the wire. */
module Wire {
  import opened Keys

  const U32: nat := 0x1_0000_0000

  lemma Assoc<T>(a: seq<T>, b: seq<T>, c: seq<T>)
    ensures (a + b) + c == a + (b + c)
  {
  }

  function Pow256(k: nat): nat {
    if k == 0 then 1 else 256 * Pow256(k - 1)
  }

  /** The low `k` bytes of `n`. */
  function Le(n: nat, k: nat): (b: Bytes)
    ensures |b| == k
    decreases k
  {
    if k == 0 then [] else [n % 256] + Le(n / 256, k - 1)
  }

  function Un(b: Bytes): nat {
    if b == [] then 0 else b[0] + 256 * Un(b[1..])
  }

  lemma {:induction false} UnLe(n: nat, k: nat)
    requires n < Pow256(k)
    ensures Un(Le(n, k)) == n
    decreases k
  {
    if k > 0 {
      UnLe(n / 256, k - 1);
      assert Le(n, k)[1..] == Le(n / 256, k - 1);
    }
  }

  lemma {:induction false} LeUn(b: Bytes)
    ensures Le(Un(b), |b|) == b && Un(b) < Pow256(|b|)
  {
    if b != [] {
      LeUn(b[1..]);
      assert (b[0] + 256 * Un(b[1..])) / 256 == Un(b[1..]);
      assert b == [b[0]] + b[1..];
    }
  }

  /** The lowest byte comes first. */
  lemma FourBytes(a: byte, b: byte, c: byte, d: byte)
    ensures Un([a, b, c, d]) == a + 0x100 * b + 0x1_0000 * c + 0x100_0000 * d
  {
    UnOn(d, []);
    UnOn(c, [d]);
    UnOn(b, [c, d]);
    UnOn(a, [b, c, d]);
    assert [d] + [] == [d] && [c] + [d] == [c, d] && [b] + [c, d] == [b, c, d] && [a] + [b, c, d] == [a, b, c, d];
  }

  lemma UnOn(a: byte, rest: Bytes)
    ensures Un([a] + rest) == a + 256 * Un(rest)
  {
    assert ([a] + rest)[1..] == rest;
  }

  lemma Sizes()
    ensures Pow256(4) == 0x1_0000_0000 && Pow256(8) == 0x1_0000_0000_0000_0000
  {
    assert Pow256(2) == 0x1_0000;
    assert Pow256(3) == 256 * Pow256(2);
    assert Pow256(4) == 256 * Pow256(3);
    assert Pow256(5) == 256 * Pow256(4);
    assert Pow256(6) == 256 * Pow256(5);
    assert Pow256(7) == 256 * Pow256(6);
  }

  /** A 32-bit length field in front of more bytes reads back. */
  lemma U32Front(n: nat, rest: Bytes)
    requires n < 0x1_0000_0000
    ensures |Le(n, 4) + rest| >= 4 && (Le(n, 4) + rest)[..4] == Le(n, 4) && Un((Le(n, 4) + rest)[..4]) == n
    ensures (Le(n, 4) + rest)[4..] == rest
  {
    Sizes();
    UnLe(n, 4);
  }
}
