/** The type ids by which exceptions are matched: the 64-bit FNV-1a hash of a type name. */
module TypeHash {
  import opened LittleEndian

  const FNV_OFFSET := 0xcbf29ce484222325
  const FNV_PRIME := 0x100000001b3

  /** The inverse of FNV_PRIME modulo 2^64. */
  const FNV_INVERSE := 0xce965057aff6957b

  /** Bitwise exclusive or. */
  function Xor(a: nat, b: nat): nat {
    if a == 0 && b == 0 then 0 else (a + b) % 2 + 2 * Xor(a / 2, b / 2)
  }

  function Step(hash: nat, b: byte): (next: nat)
    ensures next < U64_LIMIT
  {
    Xor(hash, b) * FNV_PRIME % U64_LIMIT
  }

  function HashFrom(hash: nat, name: seq<byte>): nat
    decreases |name|
  {
    if name == [] then hash else HashFrom(Step(hash, name[0]), name[1..])
  }

  function Hash(name: seq<byte>): nat {
    HashFrom(FNV_OFFSET, name)
  }

  method HashTypeName(name: seq<byte>) returns (hash: nat)
    ensures hash == Hash(name)
  {
    hash := FNV_OFFSET;
    for i := 0 to |name|
      invariant HashFrom(hash, name[i..]) == Hash(name)
    {
      assert name[i..][1..] == name[i + 1..];
      hash := Xor(hash, name[i]);
      hash := hash * FNV_PRIME % U64_LIMIT;
    }
  }

  lemma XorBits(a: nat, b: nat)
    ensures Xor(a, b) % 2 == (a + b) % 2 && Xor(a, b) / 2 == Xor(a / 2, b / 2)
  {
    Halves((a + b) % 2, Xor(a / 2, b / 2));
  }

  lemma Halves(low: nat, high: nat)
    requires low < 2
    ensures (low + 2 * high) % 2 == low && (low + 2 * high) / 2 == high
  {
  }

  lemma {:induction false} XorSeparates(a: nat, b: nat, x: nat, y: nat)
    requires Xor(a, x) == Xor(b, y)
    ensures a == b <==> x == y
    decreases a + b + x + y
  {
    hide Xor;
    if a + b + x + y > 0 {
      XorBits(a, x);
      XorBits(b, y);
      XorSeparates(a / 2, b / 2, x / 2, y / 2);
    }
  }

  lemma {:induction false} XorFits(a: nat, b: nat, k: nat)
    requires a < Pow2(k) && b < Pow2(k)
    ensures Xor(a, b) < Pow2(k)
  {
    if k > 0 {
      XorFits(a / 2, b / 2, k - 1);
    }
  }

  lemma SameRemainder(x: nat, a: nat, t: int)
    requires a < U64_LIMIT && x == a + t * U64_LIMIT
    ensures x % U64_LIMIT == a
  {
  }

  lemma Regroup(a: int, p: int, q: int, wraps: int, k: int)
    requires p * q == 1 + k * U64_LIMIT
    ensures (a * p - wraps * U64_LIMIT) * q == a + (a * k - wraps * q) * U64_LIMIT
  {
    assert a * p * q == a * (p * q);
    assert a * (1 + k * U64_LIMIT) == a + a * k * U64_LIMIT;
    assert wraps * U64_LIMIT * q == wraps * q * U64_LIMIT;
  }

  /** Factors that are inverse modulo 2^64 undo each other. */
  lemma UnitInverts(a: nat, p: nat, q: nat, k: nat)
    requires a < U64_LIMIT && p * q == 1 + k * U64_LIMIT
    ensures a * p % U64_LIMIT * q % U64_LIMIT == a
  {
    var rest, wraps := a * p % U64_LIMIT, a * p / U64_LIMIT;
    assert rest == a * p - wraps * U64_LIMIT;
    Regroup(a, p, q, wraps, k);
    SameRemainder(rest * q, a, a * k - wraps * q);
  }

  lemma PrimeHasInverse() returns (k: nat)
    ensures FNV_PRIME * FNV_INVERSE == 1 + k * U64_LIMIT == FNV_INVERSE * FNV_PRIME
  {
    k := FNV_PRIME * FNV_INVERSE / U64_LIMIT;
  }

  /** Multiplication by the prime loses nothing modulo 2^64, because the prime is odd. */
  lemma PrimeSeparates(a: nat, b: nat)
    requires a < U64_LIMIT && b < U64_LIMIT
    requires a * FNV_PRIME % U64_LIMIT == b * FNV_PRIME % U64_LIMIT
    ensures a == b
  {
    var k := PrimeHasInverse();
    UnitInverts(a, FNV_PRIME, FNV_INVERSE, k);
    UnitInverts(b, FNV_PRIME, FNV_INVERSE, k);
  }

  /** A step separates: no two 64-bit states go to one under a byte, and no two bytes take a state to one. */
  lemma StepSeparates(g: nat, h: nat, x: byte, y: byte)
    requires g < U64_LIMIT && h < U64_LIMIT && Step(g, x) == Step(h, y)
    ensures g == h <==> x == y
  {
    Bit64();
    XorFits(g, x, 64);
    XorFits(h, y, 64);
    PrimeSeparates(Xor(g, x), Xor(h, y));
    XorSeparates(g, h, x, y);
  }

  /** A step taken back. */
  function StepBack(hash: nat, b: byte): nat {
    Xor(hash * FNV_INVERSE % U64_LIMIT, b)
  }

  lemma ParityAgain(x: nat, a: nat, b: nat)
    requires x % 2 == (a + b) % 2
    ensures (x + b) % 2 == a % 2
  {
  }

  lemma HalvesDecide(x: nat, y: nat)
    requires x / 2 == y / 2 && x % 2 == y % 2
    ensures x == y
  {
  }

  lemma {:induction false} XorTwice(a: nat, b: nat)
    ensures Xor(Xor(a, b), b) == a
    decreases a + b
  {
    if a + b > 0 {
      hide Xor;
      XorBits(a, b);
      XorBits(Xor(a, b), b);
      XorTwice(a / 2, b / 2);
      ParityAgain(Xor(a, b), a, b);
      HalvesDecide(Xor(Xor(a, b), b), a);
    }
  }

  /** For a fixed byte a step is a bijection on 64-bit states. */
  lemma StepIsABijection(hash: nat, b: byte)
    requires hash < U64_LIMIT
    ensures StepBack(hash, b) < U64_LIMIT
    ensures StepBack(Step(hash, b), b) == hash && Step(StepBack(hash, b), b) == hash
  {
    Bit64();
    var k := PrimeHasInverse();
    hide Xor;
    XorFits(hash, b, 64);
    XorFits(hash * FNV_INVERSE % U64_LIMIT, b, 64);
    UnitInverts(Xor(hash, b), FNV_PRIME, FNV_INVERSE, k);
    XorTwice(hash, b);
    XorTwice(hash * FNV_INVERSE % U64_LIMIT, b);
    UnitInverts(hash, FNV_INVERSE, FNV_PRIME, k);
  }

  /** Two states stay distinct under a common suffix of any length, and only then. */
  lemma {:induction false} SuffixKeepsDistinct(g: nat, h: nat, suffix: seq<byte>)
    requires g < U64_LIMIT && h < U64_LIMIT
    ensures HashFrom(g, suffix) == HashFrom(h, suffix) <==> g == h
    decreases |suffix|
  {
    hide Step;
    if suffix != [] {
      if Step(g, suffix[0]) == Step(h, suffix[0]) {
        StepSeparates(g, h, suffix[0], suffix[0]);
      }
      SuffixKeepsDistinct(Step(g, suffix[0]), Step(h, suffix[0]), suffix[1..]);
    }
  }

  lemma {:induction false} HashConcat(hash: nat, a: seq<byte>, b: seq<byte>)
    ensures HashFrom(hash, a + b) == HashFrom(HashFrom(hash, a), b)
    decreases |a|
  {
    hide Step;
    if a == [] {
      assert a + b == b;
    } else {
      assert (a + b)[1..] == a[1..] + b;
      HashConcat(Step(hash, a[0]), a[1..], b);
    }
  }

  lemma {:induction false} HashIsAWord(hash: nat, name: seq<byte>)
    requires hash < U64_LIMIT
    ensures HashFrom(hash, name) < U64_LIMIT
    decreases |name|
  {
    hide Step;
    if name != [] {
      HashIsAWord(Step(hash, name[0]), name[1..]);
    }
  }

  /** Names of any length that differ in exactly one byte have different type ids. */
  lemma OneByteApart(a: seq<byte>, b: seq<byte>, i: nat)
    requires i < |a| == |b| && a[i] != b[i]
    requires forall j :: 0 <= j < |a| && j != i ==> a[j] == b[j]
    ensures Hash(a) != Hash(b)
  {
    hide Step;
    var h := HashFrom(FNV_OFFSET, a[..i]);
    assert a[..i] == b[..i] && a[i + 1..] == b[i + 1..];
    assert a == a[..i] + a[i..] && b == b[..i] + b[i..];
    HashConcat(FNV_OFFSET, a[..i], a[i..]);
    HashConcat(FNV_OFFSET, b[..i], b[i..]);
    assert a[i..][1..] == a[i + 1..] && b[i..][1..] == b[i + 1..];
    HashIsAWord(FNV_OFFSET, a[..i]);
    if Step(h, a[i]) == Step(h, b[i]) {
      StepSeparates(h, h, a[i], b[i]);
    }
    SuffixKeepsDistinct(Step(h, a[i]), Step(h, b[i]), a[i + 1..]);
  }

  /** Appending the same text to two names neither makes nor breaks a collision. */
  lemma CommonSuffix(a: seq<byte>, b: seq<byte>, suffix: seq<byte>)
    ensures Hash(a + suffix) == Hash(b + suffix) <==> Hash(a) == Hash(b)
  {
    HashConcat(FNV_OFFSET, a, suffix);
    HashConcat(FNV_OFFSET, b, suffix);
    HashIsAWord(FNV_OFFSET, a);
    HashIsAWord(FNV_OFFSET, b);
    SuffixKeepsDistinct(Hash(a), Hash(b), suffix);
  }

  /** Exclusive or of two bits. */
  function XorBit(r: nat, t: nat): nat {
    if r == t then 0 else 1
  }

  lemma JoinBit(q: nat, s: nat, r: nat, t: nat)
    requires r < 2 && t < 2
    ensures Xor(2 * q + r, 2 * s + t) == 2 * Xor(q, s) + XorBit(r, t)
  {
    var a, b := 2 * q + r, 2 * s + t;
    assert a / 2 == q && b / 2 == s && (a + b) % 2 == XorBit(r, t);
    assert Xor(0, 0) == 0;
  }

  lemma JoinFour(q: nat, s: nat, r3: nat, r2: nat, r1: nat, r0: nat, t3: nat, t2: nat, t1: nat, t0: nat)
    requires r3 < 2 && r2 < 2 && r1 < 2 && r0 < 2 && t3 < 2 && t2 < 2 && t1 < 2 && t0 < 2
    ensures Xor(16 * q + 8 * r3 + 4 * r2 + 2 * r1 + r0, 16 * s + 8 * t3 + 4 * t2 + 2 * t1 + t0)
         == 16 * Xor(q, s) + 8 * XorBit(r3, t3) + 4 * XorBit(r2, t2) + 2 * XorBit(r1, t1) + XorBit(r0, t0)
  {
    hide Xor, XorBit;
    JoinBit(8 * q + 4 * r3 + 2 * r2 + r1, 8 * s + 4 * t3 + 2 * t2 + t1, r0, t0);
    JoinBit(4 * q + 2 * r3 + r2, 4 * s + 2 * t3 + t2, r1, t1);
    JoinBit(2 * q + r3, 2 * s + t3, r2, t2);
    JoinBit(q, s, r3, t3);
  }

  lemma {:induction false} XorNothing(a: nat)
    ensures Xor(a, 0) == a
    decreases a
  {
    if a > 0 {
      XorNothing(a / 2);
    }
  }

  /** The last byte of the first state, and "a", bit by bit: 0x25 and 0x61 give 0x44. */
  lemma LastByte(q: nat)
    ensures Xor(0x100 * q + 0x25, 0x61) == 0x100 * q + 0x44
  {
    hide Xor;
    JoinFour(0x10 * q + 2, 6, 0, 1, 0, 1, 0, 0, 0, 1);
    JoinFour(q, 0, 0, 0, 1, 0, 0, 1, 1, 0);
    XorNothing(q);
  }

  lemma StepOfA(hash: nat, a: byte)
    requires hash == 0xcbf29ce484222325 && a == 0x61
    ensures Step(hash, a) == 0xaf63dc4c8601ec8c
  {
    hide Xor;
    LastByte(0xcbf29ce4842223);
    assert Xor(hash, a) == 0xcbf29ce484222344;
    assert 0xcbf29ce484222344 * 0x100000001b3 % 0x1_0000_0000_0000_0000 == 0xaf63dc4c8601ec8c;
  }

  lemma HashOfOne(hash: nat, a: byte)
    ensures HashFrom(hash, []) == hash && HashFrom(hash, [a]) == Step(hash, a)
  {
    hide Step;
    assert [a][1..] == [];
  }

  /** Published values of the hash: of no bytes, and of "a". */
  lemma KnownHashes(a: byte)
    requires a == 0x61
    ensures Hash([]) == 0xcbf29ce484222325
    ensures Hash([a]) == 0xaf63dc4c8601ec8c
  {
    hide HashFrom, Step;
    HashOfOne(FNV_OFFSET, a);
    StepOfA(FNV_OFFSET, a);
  }
}
