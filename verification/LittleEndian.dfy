/**
 Machine words in memory: the low-order-first byte strings that the runtime reads and writes
 through casted pointers on its (little-endian) targets.
 */
module LittleEndian {

  type byte = b: int | 0 <= b < 256

  const U64_LIMIT := 0x1_0000_0000_0000_0000

  /** `mem` holds the bytes `bs` from position `p` on. */
  ghost predicate Holds(mem: seq<byte>, p: nat, bs: seq<byte>) {
    p + |bs| <= |mem| && mem[p..p + |bs|] == bs
  }

  lemma HoldsParts(mem: seq<byte>, p: nat, a: seq<byte>, b: seq<byte>)
    requires Holds(mem, p, a + b)
    ensures Holds(mem, p, a) && Holds(mem, p + |a|, b)
  {
    var whole := mem[p..p + |a + b|];
    assert whole[..|a|] == a && whole[|a|..] == b;
    assert mem[p..p + |a|] == whole[..|a|];
    assert mem[p + |a|..p + |a| + |b|] == whole[|a|..];
  }

  lemma HoldsFour(mem: seq<byte>, p: nat, a: seq<byte>, b: seq<byte>, c: seq<byte>, d: seq<byte>)
    requires Holds(mem, p, a + (b + (c + d)))
    ensures Holds(mem, p, a) && Holds(mem, p + |a|, b)
    ensures Holds(mem, p + |a| + |b|, c) && Holds(mem, p + |a| + |b| + |c|, d)
  {
    HoldsParts(mem, p, a, b + (c + d));
    HoldsParts(mem, p + |a|, b, c + d);
    HoldsParts(mem, p + |a| + |b|, c, d);
  }

  /** How many numbers `k` bytes can tell apart. */
  function Limit(k: nat): (m: nat)
    ensures m > 0
  {
    if k == 0 then 1 else 256 * Limit(k - 1)
  }

  /** The `k` low-order bytes of `n`, low-order first. */
  function Encode(n: nat, k: nat): (bs: seq<byte>)
    ensures |bs| == k
  {
    if k == 0 then [] else [n % 256] + Encode(n / 256, k - 1)
  }

  function Decode(bs: seq<byte>): (n: nat)
    ensures n < Limit(|bs|)
  {
    if bs == [] then 0 else bs[0] + 256 * Decode(bs[1..])
  }

  lemma {:induction false} DecodeEncode(n: nat, k: nat)
    requires n < Limit(k)
    ensures Decode(Encode(n, k)) == n
  {
    if k == 0 {
    } else {
      DecodeEncode(n / 256, k - 1);
      assert Encode(n, k)[1..] == Encode(n / 256, k - 1);
    }
  }

  lemma EightBytes()
    ensures Limit(8) == U64_LIMIT
  {
    assert Limit(4) == 0x1_0000_0000;
  }

  function Pow2(k: nat): (m: nat)
    ensures m > 0
  {
    if k == 0 then 1 else 2 * Pow2(k - 1)
  }

  lemma Bit56()
    ensures Pow2(56) == 0x100_0000_0000_0000
  {
    assert Pow2(28) == 0x1000_0000 by {
      assert Pow2(14) == 0x4000;
    }
    assert Pow2(42) == 0x400_0000_0000;
  }

  lemma Bit64()
    ensures Pow2(64) == U64_LIMIT
  {
    Bit56();
    assert Pow2(60) == 16 * Pow2(56);
  }

  /** Four bytes, low-order first, in numbers; and what one more byte in front adds. */
  lemma DecodeInNumbers(a: nat, b: nat, c: nat, d: nat, rest: seq<byte>)
    requires a < 0x100 && b < 0x100 && c < 0x100 && d < 0x100
    ensures Decode([a]) == a && Decode([a, b]) == a + 0x100 * b
    ensures Decode([a, b, c, d]) == a + 0x100 * b + 0x1_0000 * c + 0x100_0000 * d
    ensures Decode([a] + rest) == a + 0x100 * Decode(rest)
  {
    DecodeFirst(a, rest);
    DecodeFirst(a, []);
    DecodeFirst(b, []);
    DecodeFirst(d, []);
    DecodeFirst(c, [d]);
    DecodeFirst(b, [c, d]);
    DecodeFirst(a, [b, c, d]);
    DecodeFirst(a, [b]);
    hide Decode;
    assert [a] + [] == [a] && [b] + [] == [b] && [d] + [] == [d] && [c] + [d] == [c, d];
    assert [b] + [c, d] == [b, c, d] && [a] + [b, c, d] == [a, b, c, d] && [a] + [b] == [a, b];
  }

  lemma DecodeFirst(a: nat, rest: seq<byte>)
    requires a < 0x100
    ensures Decode([a] + rest) == a + 0x100 * Decode(rest) && Decode([]) == 0
  {
    assert ([a] + rest)[1..] == rest;
  }
}
