/**
 Base64 in its two alphabets (sections 4 and 5 of RFC 4648).  The padded decoder works on groups
 of four symbols, the URL decoder on a bit accumulator.  Both are specified by which bits of the
 symbols make up which byte.
 */
module Base64 {
  import opened Options

  // ---------------------------------------------------------------------------------------
  // Symbols
  // ---------------------------------------------------------------------------------------

  /** The alphabets differ in their last two characters only. */
  datatype Alphabet = Alphabet(c62: bv8, c63: bv8)

  const STANDARD := Alphabet('+' as bv8, '/' as bv8)
  const URL_SAFE := Alphabet('-' as bv8, '_' as bv8)

  const PAD := '=' as bv8

  /** What the decoding tables hold for '=' and for characters outside the alphabet. */
  const PADDING: bv8 := 64
  const INVALID: bv8 := 255

  function EncodeSymbol(a: Alphabet, v: bv8): bv8 {
    if v < 26 then v + 65 else if v < 52 then v + 71 else if v < 62 then v - 4
    else if v == 62 then a.c62 else a.c63
  }

  function DecodeSymbol(a: Alphabet, c: bv8): bv8 {
    if 65 <= c <= 90 then c - 65 else if 97 <= c <= 122 then c - 71 else if 48 <= c <= 57 then c + 4
    else if c == a.c62 then 62 else if c == a.c63 then 63
    else if c == PAD then PADDING else INVALID
  }

  predicate IsAlphabet(a: Alphabet) {
    a == STANDARD || a == URL_SAFE
  }

  lemma SymbolsInvert(a: Alphabet, v: bv8)
    requires IsAlphabet(a) && v < 64
    ensures DecodeSymbol(a, EncodeSymbol(a, v)) == v && EncodeSymbol(a, v) != PAD
  {
  }

  /** The alphabet in the order of the values (table 1 of RFC 4648). */
  lemma StandardInCharacters(v: nat)
    requires v < 64
    ensures var s := "ABCDEFGHIJKLMNOPQRSTUVWXYZ" + "abcdefghijklmnopqrstuvwxyz" + "0123456789" + "+/";
            |s| == 64 && EncodeSymbol(STANDARD, v as bv8) as int == s[v] as int
    ensures PAD as int == '=' as int
  {
    SymbolCodes(STANDARD, v);
    LastCharacters();
    LetterCodes(v);
    hide EncodeSymbol;
  }

  /** The URL-safe one (table 2 of RFC 4648). */
  lemma UrlSafeInCharacters(v: nat)
    requires v < 64
    ensures var s := "ABCDEFGHIJKLMNOPQRSTUVWXYZ" + "abcdefghijklmnopqrstuvwxyz" + "0123456789" + "-_";
            |s| == 64 && EncodeSymbol(URL_SAFE, v as bv8) as int == s[v] as int
  {
    SymbolCodes(URL_SAFE, v);
    LastCharacters();
    LetterCodes(v);
    hide EncodeSymbol;
  }

  lemma LetterCodes(v: nat)
    ensures |"ABCDEFGHIJKLMNOPQRSTUVWXYZ"| == |"abcdefghijklmnopqrstuvwxyz"| == 26 && |"0123456789"| == 10
    ensures v < 26 ==> "ABCDEFGHIJKLMNOPQRSTUVWXYZ"[v] as int == 65 + v
    ensures 26 <= v < 52 ==> "abcdefghijklmnopqrstuvwxyz"[v - 26] as int == 71 + v
    ensures 52 <= v < 62 ==> "0123456789"[v - 52] as int == v - 4
  {
    UpperCodes(v);
    LowerCodes(v);
  }

  lemma UpperCodes(v: nat)
    ensures |"ABCDEFGHIJKLMNOPQRSTUVWXYZ"| == 26
    ensures v < 26 ==> "ABCDEFGHIJKLMNOPQRSTUVWXYZ"[v] as int == 65 + v
  {
  }

  lemma LowerCodes(v: nat)
    ensures |"abcdefghijklmnopqrstuvwxyz"| == 26
    ensures 26 <= v < 52 ==> "abcdefghijklmnopqrstuvwxyz"[v - 26] as int == 71 + v
  {
  }

  lemma SymbolCodes(a: Alphabet, v: nat)
    requires IsAlphabet(a) && v < 64
    ensures EncodeSymbol(a, v as bv8) as int
         == if v < 26 then 65 + v else if v < 52 then 71 + v else if v < 62 then v - 4
            else if v == 62 then a.c62 as int else a.c63 as int
  {
    if v < 26 {
      UpperSymbols(a, v);
    } else if v < 52 {
      LowerSymbols(a, v);
    } else if v < 62 {
      DigitSymbols(a, v);
    } else {
      LastSymbols(a, v);
    }
    hide EncodeSymbol;
  }

  lemma UpperSymbols(a: Alphabet, v: nat)
    requires v < 26
    ensures EncodeSymbol(a, v as bv8) as int == 65 + v
  {
  }

  lemma LowerSymbols(a: Alphabet, v: nat)
    requires 26 <= v < 52
    ensures EncodeSymbol(a, v as bv8) as int == 71 + v
  {
  }

  lemma DigitSymbols(a: Alphabet, v: nat)
    requires 52 <= v < 62
    ensures EncodeSymbol(a, v as bv8) as int == v - 4
  {
  }

  lemma LastSymbols(a: Alphabet, v: nat)
    requires v in {62, 63}
    ensures EncodeSymbol(a, v as bv8) == if v == 62 then a.c62 else a.c63
  {
  }

  lemma LastCharacters()
    ensures STANDARD.c62 as int == 43 && STANDARD.c63 as int == 47 && URL_SAFE.c62 as int == 45 && URL_SAFE.c63 as int == 95
  {
  }

  /** Exactly the 64 characters have values; all others but '=' are bad. */
  lemma OnlyTheAlphabetDecodes(a: Alphabet, c: bv8)
    requires IsAlphabet(a)
    ensures DecodeSymbol(a, c) < 64 <==> exists v: bv8 :: v < 64 && EncodeSymbol(a, v) == c
    ensures DecodeSymbol(a, c) >= 64 ==> DecodeSymbol(a, c) == if c == PAD then PADDING else INVALID
  {
    hide *;
    SymbolRange(a, c);
    if DecodeSymbol(a, c) < 64 {
      CharactersInvert(a, c);
    }
    if v: bv8 :| v < 64 && EncodeSymbol(a, v) == c {
      SymbolsInvert(a, v);
    }
  }

  lemma CharactersInvert(a: Alphabet, c: bv8)
    requires IsAlphabet(a) && DecodeSymbol(a, c) < 64
    ensures EncodeSymbol(a, DecodeSymbol(a, c)) == c
  {
  }

  lemma SymbolRange(a: Alphabet, c: bv8)
    requires IsAlphabet(a)
    ensures DecodeSymbol(a, c) < 64 || DecodeSymbol(a, c) in {PADDING, INVALID}
    ensures DecodeSymbol(a, c) == PADDING <==> c == PAD
  {
  }

  // ---------------------------------------------------------------------------------------
  // Bits
  // ---------------------------------------------------------------------------------------

  /** The four symbols of three bytes. */
  function Sextet0(a: bv8): bv8 { a >> 2 }

  function Sextet1(a: bv8, b: bv8): bv8 { ((a & 0x03) << 4) | (b >> 4) }

  function Sextet2(b: bv8, c: bv8): bv8 { ((b & 0x0f) << 2) | (c >> 6) }

  function Sextet3(c: bv8): bv8 { c & 0x3f }

  /** The three bytes of four symbols. */
  function Octet0(s: bv8, t: bv8): bv8 { (s << 2) | (t >> 4) }

  function Octet1(t: bv8, u: bv8): bv8 { ((t & 0x0f) << 4) | (u >> 2) }

  function Octet2(u: bv8, w: bv8): bv8 { ((u & 0x03) << 6) | w }

  /** The item at `p`, or zero bits past the end. */
  function Item(s: seq<bv8>, p: nat): bv8 {
    if p < |s| then s[p] else 0
  }

  /** Bits 6i to 6i+5 of the bytes `x`. */
  function SymbolAt(x: seq<bv8>, i: nat): bv8 {
    var p := i / 4 * 3;
    match i % 4
    case 0 => Sextet0(Item(x, p))
    case 1 => Sextet1(Item(x, p), Item(x, p + 1))
    case 2 => Sextet2(Item(x, p + 1), Item(x, p + 2))
    case _ => Sextet3(Item(x, p + 2))
  }

  /** Bits 8k to 8k+7 of the six-bit values `v`. */
  function ByteAt(v: seq<bv8>, k: nat): bv8 {
    var p := k / 3 * 4;
    match k % 3
    case 0 => Octet0(Item(v, p), Item(v, p + 1))
    case 1 => Octet1(Item(v, p + 1), Item(v, p + 2))
    case _ => Octet2(Item(v, p + 2), Item(v, p + 3))
  }

  function SymbolCount(bytes: nat): nat {
    (bytes * 4 + 2) / 3
  }

  function ByteCount(symbols: nat): nat {
    symbols * 3 / 4
  }

  function ToSymbols(x: seq<bv8>): seq<bv8> {
    seq(SymbolCount(|x|), i requires i >= 0 => SymbolAt(x, i))
  }

  function ToBytes(v: seq<bv8>): seq<bv8> {
    seq(ByteCount(|v|), k requires k >= 0 => ByteAt(v, k))
  }

  ghost predicate AreSymbols(v: seq<bv8>) {
    forall i :: 0 <= i < |v| ==> v[i] < 64
  }

  lemma SymbolIsSixBits(x: seq<bv8>, i: nat)
    ensures SymbolAt(x, i) < 64
  {
  }

  lemma SymbolsAreSymbols(x: seq<bv8>)
    ensures AreSymbols(ToSymbols(x))
  {
    hide SymbolAt;
    forall i | 0 <= i < |ToSymbols(x)| ensures ToSymbols(x)[i] < 64 {
      SymbolIsSixBits(x, i);
    }
  }

  lemma OctetsSurvive(a: bv8, b: bv8, c: bv8)
    ensures Octet0(Sextet0(a), Sextet1(a, b)) == a
    ensures Octet1(Sextet1(a, b), Sextet2(b, c)) == b
    ensures Octet2(Sextet2(b, c), Sextet3(c)) == c
  {
  }

  /** The symbols of the `j`-th group of three bytes. */
  lemma SymbolsOfGroup(x: seq<bv8>, j: nat)
    ensures SymbolAt(x, 4 * j) == Sextet0(Item(x, 3 * j))
    ensures SymbolAt(x, 4 * j + 1) == Sextet1(Item(x, 3 * j), Item(x, 3 * j + 1))
    ensures SymbolAt(x, 4 * j + 2) == Sextet2(Item(x, 3 * j + 1), Item(x, 3 * j + 2))
    ensures SymbolAt(x, 4 * j + 3) == Sextet3(Item(x, 3 * j + 2))
  {
    hide Sextet0, Sextet1, Sextet2, Sextet3, Item;
    Quarter(j, 0);
    Quarter(j, 1);
    Quarter(j, 2);
    Quarter(j, 3);
  }

  lemma Quarter(j: nat, r: nat)
    requires r < 4
    ensures (4 * j + r) / 4 == j && (4 * j + r) % 4 == r
  {
  }

  /** The bytes of the `j`-th group of four symbols. */
  lemma BytesOfGroup(v: seq<bv8>, j: nat)
    ensures ByteAt(v, 3 * j) == Octet0(Item(v, 4 * j), Item(v, 4 * j + 1))
    ensures ByteAt(v, 3 * j + 1) == Octet1(Item(v, 4 * j + 1), Item(v, 4 * j + 2))
    ensures ByteAt(v, 3 * j + 2) == Octet2(Item(v, 4 * j + 2), Item(v, 4 * j + 3))
  {
    hide Octet0, Octet1, Octet2, Item;
    Third(j, 0);
    Third(j, 1);
    Third(j, 2);
  }

  lemma Third(j: nat, r: nat)
    requires r < 3
    ensures (3 * j + r) / 3 == j && (3 * j + r) % 3 == r
  {
  }

  lemma ByteSurvives(x: seq<bv8>, k: nat)
    requires k < |x|
    ensures ByteAt(ToSymbols(x), k) == x[k]
  {
    hide Octet0, Octet1, Octet2, Sextet0, Sextet1, Sextet2, Sextet3, SymbolAt, ByteAt;
    var v, j := ToSymbols(x), k / 3;
    SymbolsOfGroup(x, j);
    BytesOfGroup(v, j);
    OctetsSurvive(Item(x, 3 * j), Item(x, 3 * j + 1), Item(x, 3 * j + 2));
  }

  /** Cutting bytes into symbols and joining them again gives the bytes. */
  lemma BytesSurvive(x: seq<bv8>)
    ensures ToBytes(ToSymbols(x)) == x
  {
    hide ByteAt;
    forall k | 0 <= k < |x| ensures ByteAt(ToSymbols(x), k) == x[k] {
      ByteSurvives(x, k);
    }
  }

  lemma SextetsSurvive(s: bv8, t: bv8, u: bv8, w: bv8)
    requires s < 64 && t < 64 && u < 64 && w < 64
    ensures Sextet0(Octet0(s, t)) == s
    ensures Sextet1(Octet0(s, t), Octet1(t, u)) == t
    ensures Sextet2(Octet1(t, u), Octet2(u, w)) == u
    ensures Sextet3(Octet2(u, w)) == w
  {
  }

  lemma LastSextet(s: bv8, t: bv8, u: bv8)
    requires t < 64 && u < 64
    ensures Sextet1(Octet0(s, t), 0) == t <==> t & 0x0f == 0
    ensures Sextet2(Octet1(t, u), 0) == u <==> u & 0x03 == 0
  {
  }

  /** The bits of the last symbol that belong to no byte are zero (section 3.5 of RFC 4648). */
  predicate CanonicalValues(v: seq<bv8>) {
    && |v| % 4 != 1
    && (|v| % 4 == 2 ==> v[|v| - 1] & 0x0f == 0)
    && (|v| % 4 == 3 ==> v[|v| - 1] & 0x03 == 0)
  }

  lemma InnerSymbolSurvives(v: seq<bv8>, i: nat)
    requires AreSymbols(v) && i < |v| && |v| % 4 != 1
    requires i < |v| - 1 || |v| % 4 == 0
    ensures SymbolAt(ToBytes(v), i) == v[i]
  {
    hide Octet0, Octet1, Octet2, Sextet0, Sextet1, Sextet2, Sextet3, SymbolAt, ByteAt;
    var x, j := ToBytes(v), i / 4;
    SymbolsOfGroup(x, j);
    BytesOfGroup(v, j);
    SextetsSurvive(Item(v, 4 * j), Item(v, 4 * j + 1), Item(v, 4 * j + 2), Item(v, 4 * j + 3));
  }

  lemma LastSymbolSurvives(v: seq<bv8>)
    requires AreSymbols(v) && |v| % 4 in {2, 3}
    ensures SymbolAt(ToBytes(v), |v| - 1) == v[|v| - 1] <==> CanonicalValues(v)
  {
    hide Octet0, Octet1, Octet2, Sextet0, Sextet1, Sextet2, Sextet3, SymbolAt, ByteAt;
    var x, j := ToBytes(v), |v| / 4;
    SymbolsOfGroup(x, j);
    BytesOfGroup(v, j);
    LastSextet(Item(v, 4 * j), Item(v, 4 * j + 1), Item(v, 4 * j + 2));
  }

  /** Joining symbols to bytes and cutting them again gives the symbols exactly when they are canonical. */
  lemma SymbolsSurviveIffCanonical(v: seq<bv8>)
    requires AreSymbols(v) && |v| % 4 != 1
    ensures ToSymbols(ToBytes(v)) == v <==> CanonicalValues(v)
  {
    hide SymbolAt, ToSymbols, ToBytes, AreSymbols;
    var w := ToSymbols(ToBytes(v));
    SymbolsAgain(v);
    forall i | 0 <= i < |v| && (i < |v| - 1 || |v| % 4 == 0) ensures w[i] == v[i] {
      InnerSymbolSurvives(v, i);
    }
    if |v| % 4 in {2, 3} {
      LastSymbolSurvives(v);
    }
  }

  lemma SymbolsAgain(v: seq<bv8>)
    requires |v| % 4 != 1
    ensures |ToSymbols(ToBytes(v))| == |v|
    ensures forall i :: 0 <= i < |v| ==> ToSymbols(ToBytes(v))[i] == SymbolAt(ToBytes(v), i)
  {
    hide SymbolAt, ByteAt;
    CountsInvert(|v|);
  }

  lemma CountsInvert(n: nat)
    requires n % 4 != 1
    ensures SymbolCount(ByteCount(n)) == n
  {
  }

  // ---------------------------------------------------------------------------------------
  // Texts
  // ---------------------------------------------------------------------------------------

  function Characters(a: Alphabet, v: seq<bv8>): (s: seq<bv8>)
    ensures |s| == |v|
  {
    seq(|v|, i requires 0 <= i < |v| => EncodeSymbol(a, v[i]))
  }

  function Pads(n: nat): (s: seq<bv8>)
    ensures |s| == n
  {
    seq(n, _ => PAD)
  }

  /** What padding brings `n` symbols to a multiple of four; none can follow a lone symbol. */
  function PadCount(n: nat): nat {
    (4 - n % 4) % 4
  }

  function PaddedText(v: seq<bv8>): seq<bv8> {
    Characters(STANDARD, v) + Pads(PadCount(|v|))
  }

  function EncodeText(x: seq<bv8>): seq<bv8> {
    PaddedText(ToSymbols(x))
  }

  function UrlEncodeText(x: seq<bv8>): seq<bv8> {
    Characters(URL_SAFE, ToSymbols(x))
  }

  /** What the padded decoder makes of one group. */
  function GroupBytes(c0: bv8, c1: bv8, c2: bv8, c3: bv8): seq<bv8> {
    if c2 == PADDING then [Octet0(c0, c1)]
    else if c3 == PADDING then [Octet0(c0, c1), Octet1(c1, c2)]
    else [Octet0(c0, c1), Octet1(c1, c2), Octet2(c2, c3)]
  }

  function Decoded(s: seq<bv8>, i: nat): bv8
    requires i < |s|
  {
    DecodeSymbol(STANDARD, s[i])
  }

  predicate ValidGroup(s: seq<bv8>)
    requires |s| >= 4
  {
    Decoded(s, 0) != INVALID && Decoded(s, 1) != INVALID && Decoded(s, 2) != INVALID && Decoded(s, 3) != INVALID
  }

  /** The padded decoder, group by group; it takes '=' wherever it stands. */
  function DecodeGroups(s: seq<bv8>): Option<seq<bv8>>
    requires |s| % 4 == 0
    decreases |s|
  {
    if s == [] then Some([])
    else if !ValidGroup(s) then None
    else
      var rest := DecodeGroups(s[4..]);
      if rest.None? then None
      else Some(GroupBytes(Decoded(s, 0), Decoded(s, 1), Decoded(s, 2), Decoded(s, 3)) + rest.value)
  }

  function DecodeText(s: seq<bv8>): Option<seq<bv8>> {
    if |s| % 4 != 0 then None else DecodeGroups(s)
  }

  /** The padded decoder takes a text exactly if it comes in fours and each character is '=' or of the alphabet. */
  lemma {:induction false} DecodesIff(s: seq<bv8>)
    ensures DecodeText(s).Some? <==> |s| % 4 == 0 && forall i :: 0 <= i < |s| ==> DecodeSymbol(STANDARD, s[i]) != INVALID
    decreases |s|
  {
    hide DecodeSymbol, GroupBytes;
    if |s| % 4 == 0 && s != [] {
      DecodesIff(s[4..]);
      assert forall i :: 4 <= i < |s| ==> s[i] == s[4..][i - 4];
    }
  }

  /** The values up to the first '='; `None` if a character before it is not in the alphabet. */
  function UrlValues(s: seq<bv8>): (r: Option<seq<bv8>>)
    ensures r.Some? ==> |r.value| <= |s|
    decreases |s|
  {
    if s == [] then Some([])
    else
      var v := DecodeSymbol(URL_SAFE, s[0]);
      if v == INVALID then None
      else if v == PADDING then Some([])
      else
        var rest := UrlValues(s[1..]);
        if rest.None? then None else Some([v] + rest.value)
  }

  function UrlDecodeText(s: seq<bv8>): Option<seq<bv8>> {
    var v := UrlValues(s);
    if v.None? then None else Some(ToBytes(v.value))
  }

  /** `v[4..]` from byte 3 on: groups are independent. */
  lemma FirstGroup(v: seq<bv8>)
    requires |v| >= 4
    ensures ToBytes(v) == [ByteAt(v, 0), ByteAt(v, 1), ByteAt(v, 2)] + ToBytes(v[4..])
  {
    var w := v[4..];
    assert ByteCount(|v|) == 3 + ByteCount(|w|);
    forall k | 0 <= k < ByteCount(|w|) ensures ByteAt(v, k + 3) == ByteAt(w, k) {
      LaterByte(v, k);
    }
    hide ByteAt;
  }

  lemma LaterByte(v: seq<bv8>, k: nat)
    requires |v| >= 4
    ensures ByteAt(v, k + 3) == ByteAt(v[4..], k)
  {
    hide Octet0, Octet1, Octet2, ByteAt;
    var w, j := v[4..], k / 3;
    BytesOfGroup(v, j + 1);
    BytesOfGroup(w, j);
    assert forall p: nat :: Item(v, p + 4) == Item(w, p);
    assert 3 * (j + 1) == 3 * j + 3 && 4 * (j + 1) == 4 * j + 4;
  }

  lemma CharactersDecode(v: seq<bv8>, i: nat)
    requires AreSymbols(v) && i < |PaddedText(v)|
    ensures Decoded(PaddedText(v), i) == if i < |v| then v[i] else PADDING
  {
    if i < |v| {
      SymbolsInvert(STANDARD, v[i]);
    }
  }

  lemma GroupStep(s: seq<bv8>, c0: bv8, c1: bv8, c2: bv8, c3: bv8)
    requires |s| >= 4 && |s| % 4 == 0
    requires Decoded(s, 0) == c0 && Decoded(s, 1) == c1 && Decoded(s, 2) == c2 && Decoded(s, 3) == c3
    requires c0 <= PADDING && c1 <= PADDING && c2 <= PADDING && c3 <= PADDING
    ensures DecodeGroups(s[4..]).Some? ==>
              DecodeGroups(s) == Some(GroupBytes(c0, c1, c2, c3) + DecodeGroups(s[4..]).value)
  {
    hide DecodeSymbol, GroupBytes;
  }

  lemma ShortTextDecodes(v: seq<bv8>)
    requires AreSymbols(v) && |v| in {2, 3}
    ensures DecodeText(PaddedText(v)) == Some(ToBytes(v))
  {
    hide DecodeSymbol, EncodeSymbol, DecodeGroups, GroupBytes, ToBytes, Decoded;
    var s := PaddedText(v);
    CharactersDecode(v, 0);
    CharactersDecode(v, 1);
    CharactersDecode(v, 2);
    CharactersDecode(v, 3);
    assert s[4..] == [];
    NoGroups();
    GroupStep(s, v[0], v[1], if |v| == 3 then v[2] else PADDING, PADDING);
    ShortBytes(v);
  }

  lemma ShortBytes(v: seq<bv8>)
    requires AreSymbols(v) && |v| in {2, 3}
    ensures ToBytes(v) == GroupBytes(v[0], v[1], if |v| == 3 then v[2] else PADDING, PADDING) + []
  {
    hide Octet0, Octet1, Octet2, ByteAt;
    BytesOfGroup(v, 0);
    if |v| == 2 {
      assert ToBytes(v) == [ByteAt(v, 0)];
    } else {
      assert ToBytes(v) == [ByteAt(v, 0), ByteAt(v, 1)];
    }
  }

  lemma FullGroup(v: seq<bv8>)
    requires AreSymbols(v) && |v| >= 4
    ensures ToBytes(v) == GroupBytes(v[0], v[1], v[2], v[3]) + ToBytes(v[4..])
  {
    hide Octet0, Octet1, Octet2, ByteAt, ToBytes;
    BytesOfGroup(v, 0);
    FirstGroup(v);
  }

  lemma NoBytes()
    ensures ToBytes([]) == []
  {
  }

  lemma NoGroups()
    ensures DecodeGroups([]) == Some([])
  {
  }

  lemma {:induction false} PaddedTextDecodes(v: seq<bv8>)
    requires AreSymbols(v) && |v| % 4 != 1
    ensures DecodeText(PaddedText(v)) == Some(ToBytes(v))
    decreases |v|
  {
    hide DecodeSymbol, EncodeSymbol, DecodeGroups, GroupBytes, ToBytes, Decoded;
    if v == [] {
      NoGroups();
      NoBytes();
      assert PaddedText(v) == [];
    } else if |v| < 4 {
      ShortTextDecodes(v);
    } else {
      var s := PaddedText(v);
      CharactersDecode(v, 0);
      CharactersDecode(v, 1);
      CharactersDecode(v, 2);
      CharactersDecode(v, 3);
      assert s[4..] == PaddedText(v[4..]);
      PaddedTextDecodes(v[4..]);
      GroupStep(s, v[0], v[1], v[2], v[3]);
      FullGroup(v);
    }
  }

  lemma UrlTextDecodes(v: seq<bv8>, pads: nat)
    requires AreSymbols(v)
    ensures UrlDecodeText(Characters(URL_SAFE, v) + Pads(pads)) == Some(ToBytes(v))
  {
    UrlValuesInvert(v, pads);
  }

  lemma {:induction false} UrlValuesInvert(v: seq<bv8>, pads: nat)
    requires AreSymbols(v)
    ensures UrlValues(Characters(URL_SAFE, v) + Pads(pads)) == Some(v)
    decreases |v|
  {
    hide EncodeSymbol, DecodeSymbol, UrlValues;
    var s := Characters(URL_SAFE, v) + Pads(pads);
    if v == [] {
      if s != [] {
        assert s[0] == PAD;
        UrlPadStops(s);
      } else {
        UrlEmpty();
      }
    } else {
      SymbolsInvert(URL_SAFE, v[0]);
      assert s[1..] == Characters(URL_SAFE, v[1..]) + Pads(pads);
      UrlValuesInvert(v[1..], pads);
      UrlStep(s, v[0]);
      assert [v[0]] + v[1..] == v;
    }
  }

  lemma UrlEmpty()
    ensures UrlValues([]) == Some([])
  {
  }

  lemma UrlPadStops(s: seq<bv8>)
    requires s != [] && s[0] == PAD
    ensures UrlValues(s) == Some([])
  {
  }

  lemma UrlStep(s: seq<bv8>, v: bv8)
    requires s != [] && DecodeSymbol(URL_SAFE, s[0]) == v < 64
    ensures UrlValues(s) == match UrlValues(s[1..]) case None => None case Some(rest) => Some([v] + rest)
  {
    hide DecodeSymbol;
  }

  // ---------------------------------------------------------------------------------------
  // Round trips and agreement
  // ---------------------------------------------------------------------------------------

  lemma TextLengths(x: seq<bv8>)
    ensures |ToSymbols(x)| == (|x| * 4 + 2) / 3
    ensures |ToSymbols(x)| + PadCount(|ToSymbols(x)|) == (|x| + 2) / 3 * 4
  {
    hide SymbolAt;
    PaddedCount(|x|);
  }

  lemma PaddedCount(n: nat)
    ensures (n * 4 + 2) / 3 + PadCount((n * 4 + 2) / 3) == (n + 2) / 3 * 4
  {
    var j, rest := n / 3, n % 3;
    assert n == 3 * j + rest;
    assert (n * 4 + 2) / 3 == 4 * j + if rest == 0 then 0 else rest + 1;
  }

  /** Decoding what was encoded gives the bytes back, in both alphabets, padded or not. */
  lemma RoundTrip(x: seq<bv8>, pads: nat)
    ensures DecodeText(EncodeText(x)) == Some(x)
    ensures UrlDecodeText(UrlEncodeText(x) + Pads(pads)) == Some(x)
    ensures |EncodeText(x)| == (|x| + 2) / 3 * 4
    ensures |UrlEncodeText(x)| == (|x| * 4 + 2) / 3
  {
    hide ToBytes, ToSymbols, DecodeText, UrlDecodeText, AreSymbols, PadCount, SymbolCount;
    TextLengths(x);
    SymbolsAreSymbols(x);
    BytesSurvive(x);
    SymbolCountNeverLone(x);
    PaddedTextDecodes(ToSymbols(x));
    UrlTextDecodes(ToSymbols(x), pads);
  }

  /** How many '=' end a text, at most two of them counted. */
  function PadSuffix(s: seq<bv8>): (n: nat)
    ensures n <= |s|
  {
    if |s| >= 2 && s[|s| - 1] == PAD && s[|s| - 2] == PAD then 2
    else if |s| >= 1 && s[|s| - 1] == PAD then 1
    else 0
  }

  function Values(a: Alphabet, s: seq<bv8>): (v: seq<bv8>)
    ensures |v| == |s|
  {
    seq(|s|, i requires 0 <= i < |s| => DecodeSymbol(a, s[i]))
  }

  /** Only '=' at the end, the right number of them, and unused bits zero. */
  ghost predicate CanonicalText(s: seq<bv8>) {
    var v := Values(STANDARD, s[..|s| - PadSuffix(s)]);
    |s| % 4 == 0 && AreSymbols(v) && CanonicalValues(v)
  }

  lemma CanonicalIsPadded(s: seq<bv8>)
    requires CanonicalText(s)
    ensures s == PaddedText(Values(STANDARD, s[..|s| - PadSuffix(s)]))
  {
    var v := Values(STANDARD, s[..|s| - PadSuffix(s)]);
    forall i | 0 <= i < |v| ensures EncodeSymbol(STANDARD, v[i]) == s[i] {
      assert DecodeSymbol(STANDARD, s[i]) == v[i];
      CharactersInvert(STANDARD, s[i]);
    }
    hide EncodeSymbol, DecodeSymbol;
    assert PadCount(|v|) == PadSuffix(s);
  }

  lemma PaddedCharacters(v: seq<bv8>)
    requires AreSymbols(v)
    ensures Values(STANDARD, Characters(STANDARD, v)) == v
    ensures PAD !in Characters(STANDARD, v)
  {
    var s := Characters(STANDARD, v);
    forall i | 0 <= i < |v| ensures DecodeSymbol(STANDARD, s[i]) == v[i] && s[i] != PAD {
      SymbolsInvert(STANDARD, v[i]);
    }
    hide EncodeSymbol, DecodeSymbol;
  }

  lemma PadSuffixIs(chars: seq<bv8>, n: nat)
    requires PAD !in chars && n <= 2
    ensures PadSuffix(chars + Pads(n)) == n
  {
    assert |chars| > 0 ==> chars[|chars| - 1] in chars;
    assert |chars| > 1 ==> chars[|chars| - 2] in chars;
  }

  lemma PadsFillGroups(n: nat)
    requires n % 4 != 1
    ensures PadCount(n) <= 2 && (n + PadCount(n)) % 4 == 0
  {
  }

  lemma PaddedIsCanonical(v: seq<bv8>)
    requires AreSymbols(v) && CanonicalValues(v)
    ensures CanonicalText(PaddedText(v))
  {
    hide EncodeSymbol, DecodeSymbol, CanonicalValues, Characters, Values, PadCount, Pads, PadSuffix;
    PaddedCharacters(v);
    NeverLone(v);
    PadsFillGroups(|v|);
    var chars := Characters(STANDARD, v);
    PadSuffixIs(chars, PadCount(|v|));
    assert PaddedText(v)[..|v|] == chars;
  }

  /** Among the texts the decoder takes, encoding gives back exactly the canonical ones. */
  lemma ReencodesIffCanonical(s: seq<bv8>)
    ensures CanonicalText(s) ==> DecodeText(s).Some?
    ensures DecodeText(s).Some? ==> (EncodeText(DecodeText(s).value) == s <==> CanonicalText(s))
  {
    hide ToSymbols, ToBytes, DecodeText, PaddedText, CanonicalValues;
    if CanonicalText(s) {
      var v := Values(STANDARD, s[..|s| - PadSuffix(s)]);
      CanonicalIsPadded(s);
      NeverLone(v);
      PaddedTextDecodes(v);
      SymbolsSurviveIffCanonical(v);
    }
    if DecodeText(s).Some? && EncodeText(DecodeText(s).value) == s {
      var x := DecodeText(s).value;
      SymbolsAreSymbols(x);
      SymbolCountNeverLone(x);
      BytesSurvive(x);
      SymbolsSurviveIffCanonical(ToSymbols(x));
      PaddedIsCanonical(ToSymbols(x));
    }
  }

  /** Accepted all the same: "QQ==QQ==", with padding inside, and "QR==", with a loose bit set. */
  lemma NonCanonicalIsAccepted()
    ensures DecodeText([81, 81, PAD, PAD, 81, 81, PAD, PAD]) == Some([0x41, 0x41])
    ensures DecodeText([81, 82, PAD, PAD]) == DecodeText([81, 81, PAD, PAD]) == Some([0x41])
    ensures DecodeText([81, 81, PAD, 81]) == Some([0x41])
  {
    OddPadding();
    NoGroups();
    assert DecodeText([]) == Some([]);
    hide *;
    PaddedByte(81, []);
    PaddedByte(82, []);
    assert [0x41 as bv8] + [] == [0x41] && [0x41 as bv8] + [0x41] == [0x41, 0x41];
    assert [81 as bv8, 81, PAD, PAD] + [] == [81, 81, PAD, PAD] && [81 as bv8, 82, PAD, PAD] + [] == [81, 82, PAD, PAD];
    PaddedByte(81, [81, 81, PAD, PAD]);
    assert [81 as bv8, 81, PAD, PAD] + [81, 81, PAD, PAD] == [81, 81, PAD, PAD, 81, 81, PAD, PAD];
  }

  /** "QQ=Q": padding in the third place alone ends the group after one byte. */
  lemma OddPadding()
    ensures DecodeText([81, 81, PAD, 81]) == Some([0x41])
  {
    var s := [81 as bv8, 81, PAD, 81];
    SymbolsOfQR();
    assert Octet0(16, 16) == 0x41;
    hide DecodeSymbol, Octet0, Octet1, Octet2;
    assert s[4..] == [] && [0x41 as bv8] + [] == [0x41];
    NoGroups();
  }

  lemma SymbolsOfQR()
    ensures DecodeSymbol(STANDARD, 81) == 16 && DecodeSymbol(STANDARD, 82) == 17 && DecodeSymbol(STANDARD, PAD) == PADDING
  {
  }

  lemma BytesOfQR()
    ensures GroupBytes(16, 16, PADDING, PADDING) == [0x41] == GroupBytes(16, 17, PADDING, PADDING)
  {
  }

  lemma PaddedByte(c: bv8, rest: seq<bv8>)
    requires c in {81, 82} && |rest| % 4 == 0 && DecodeText(rest).Some?
    ensures DecodeText([81, c, PAD, PAD] + rest) == Some([0x41] + DecodeText(rest).value)
  {
    var s := [81, c, PAD, PAD] + rest;
    assert s[4..] == rest;
    SymbolsOfQR();
    BytesOfQR();
    hide DecodeGroups, DecodeSymbol, GroupBytes;
    GroupStep(s, 16, Decoded(s, 1), PADDING, PADDING);
  }

  /** URL-safe symbols only, no padding, and unused bits zero. */
  ghost predicate CanonicalUrlText(u: seq<bv8>) {
    var v := Values(URL_SAFE, u);
    AreSymbols(v) && CanonicalValues(v)
  }

  lemma UrlCharacters(v: seq<bv8>)
    requires AreSymbols(v)
    ensures Values(URL_SAFE, Characters(URL_SAFE, v)) == v
  {
    var s := Characters(URL_SAFE, v);
    forall i | 0 <= i < |v| ensures DecodeSymbol(URL_SAFE, s[i]) == v[i] {
      SymbolsInvert(URL_SAFE, v[i]);
    }
    hide EncodeSymbol, DecodeSymbol;
  }

  lemma UrlValuesOfSymbols(u: seq<bv8>)
    requires AreSymbols(Values(URL_SAFE, u))
    ensures Characters(URL_SAFE, Values(URL_SAFE, u)) == u && UrlValues(u) == Some(Values(URL_SAFE, u))
  {
    var v := Values(URL_SAFE, u);
    forall i | 0 <= i < |u| ensures EncodeSymbol(URL_SAFE, v[i]) == u[i] {
      assert DecodeSymbol(URL_SAFE, u[i]) == v[i];
      CharactersInvert(URL_SAFE, u[i]);
    }
    hide EncodeSymbol, DecodeSymbol;
    assert Characters(URL_SAFE, v) == u;
    assert u + Pads(0) == u;
    UrlValuesInvert(v, 0);
  }

  /** The URL-safe pair: encoding gives back exactly the canonical unpadded texts. */
  lemma UrlReencodesIffCanonical(u: seq<bv8>)
    ensures CanonicalUrlText(u) ==> UrlDecodeText(u).Some?
    ensures UrlDecodeText(u).Some? ==> (UrlEncodeText(UrlDecodeText(u).value) == u <==> CanonicalUrlText(u))
  {
    hide ToSymbols, ToBytes, UrlValues, CanonicalValues, Characters, Values, AreSymbols;
    if CanonicalUrlText(u) {
      var v := Values(URL_SAFE, u);
      UrlValuesOfSymbols(u);
      NeverLone(v);
      SymbolsSurviveIffCanonical(v);
    }
    if UrlDecodeText(u).Some? && UrlEncodeText(UrlDecodeText(u).value) == u {
      var x := UrlDecodeText(u).value;
      var w := ToSymbols(x);
      SymbolsAreSymbols(x);
      SymbolCountNeverLone(x);
      UrlCharacters(w);
      BytesSurvive(x);
      SymbolsSurviveIffCanonical(w);
    }
  }

  lemma NeverLone(v: seq<bv8>)
    requires CanonicalValues(v)
    ensures |v| % 4 != 1
  {
  }

  lemma SymbolCountNeverLone(x: seq<bv8>)
    ensures |ToSymbols(x)| % 4 != 1
  {
  }

  /** A URL-safe character in the standard alphabet. */
  function Translate(c: bv8): bv8 {
    if c == URL_SAFE.c62 then STANDARD.c62 else if c == URL_SAFE.c63 then STANDARD.c63 else c
  }

  lemma TranslateKeepsValue(c: bv8)
    requires DecodeSymbol(URL_SAFE, c) < 64
    ensures EncodeSymbol(STANDARD, DecodeSymbol(URL_SAFE, c)) == Translate(c)
    ensures EncodeSymbol(URL_SAFE, DecodeSymbol(URL_SAFE, c)) == c
  {
    CharactersInvert(URL_SAFE, c);
    if c == URL_SAFE.c62 {
    } else if c == URL_SAFE.c63 {
    } else {
      SharedCharacter(c);
      hide EncodeSymbol;
      CharactersInvert(STANDARD, c);
    }
  }

  lemma SharedCharacter(c: bv8)
    requires c != URL_SAFE.c62 && c != URL_SAFE.c63 && DecodeSymbol(URL_SAFE, c) < 64
    ensures DecodeSymbol(STANDARD, c) == DecodeSymbol(URL_SAFE, c)
  {
  }

  /**
   The two decoders agree: on every text over the URL alphabet that can be padded, the accumulator
   gives what the group decoder gives for the translated and padded text, canonical or not.
   */
  lemma DecodersAgree(u: seq<bv8>)
    requires AreSymbols(Values(URL_SAFE, u)) && |u| % 4 != 1
    ensures var s := seq(|u|, i requires 0 <= i < |u| => Translate(u[i])) + Pads(PadCount(|u|));
            DecodeText(s).Some? && UrlDecodeText(u) == DecodeText(s)
  {
    var v := Values(URL_SAFE, u);
    var s := seq(|u|, i requires 0 <= i < |u| => Translate(u[i])) + Pads(PadCount(|u|));
    forall i | 0 <= i < |u| ensures EncodeSymbol(STANDARD, v[i]) == Translate(u[i]) && EncodeSymbol(URL_SAFE, v[i]) == u[i] {
      assert DecodeSymbol(URL_SAFE, u[i]) == v[i];
      TranslateKeepsValue(u[i]);
    }
    hide EncodeSymbol, DecodeSymbol, ToBytes, Translate;
    assert s == PaddedText(v);
    assert u == Characters(URL_SAFE, v) + Pads(0);
    PaddedTextDecodes(v);
    UrlTextDecodes(v, 0);
  }

  // ---------------------------------------------------------------------------------------
  // The same, bit by bit
  // ---------------------------------------------------------------------------------------

  /** Bit `i` of a byte, high-order bit first. */
  function Bit(b: bv8, i: nat): bool {
    match i
    case 0 => b & 0x80 != 0
    case 1 => b & 0x40 != 0
    case 2 => b & 0x20 != 0
    case 3 => b & 0x10 != 0
    case 4 => b & 0x08 != 0
    case 5 => b & 0x04 != 0
    case 6 => b & 0x02 != 0
    case _ => b & 0x01 != 0
  }

  lemma GroupBits(s: bv8, t: bv8, u: bv8, w: bv8, i: nat)
    requires s < 64 && t < 64 && u < 64 && w < 64 && i < 8
    ensures Bit(Octet0(s, t), i) == if i < 6 then Bit(s, i + 2) else Bit(t, i - 4)
    ensures Bit(Octet1(t, u), i) == if i < 4 then Bit(t, i + 4) else Bit(u, i - 2)
    ensures Bit(Octet2(u, w), i) == if i < 2 then Bit(u, i + 6) else Bit(w, i)
  {
    Octet0Bits(s, t, i);
    Octet1Bits(t, u, i);
    Octet2Bits(u, w, i);
    hide Octet0, Octet1, Octet2, Bit;
  }

  lemma Octet0Bits(s: bv8, t: bv8, i: nat)
    requires t < 64 && i < 8
    ensures Bit(Octet0(s, t), i) == if i < 6 then Bit(s, i + 2) else Bit(t, i - 4)
  {
    if i < 2 {
    } else if i < 4 {
    } else if i < 6 {
    } else {
    }
  }

  lemma Octet1Bits(t: bv8, u: bv8, i: nat)
    requires u < 64 && i < 8
    ensures Bit(Octet1(t, u), i) == if i < 4 then Bit(t, i + 4) else Bit(u, i - 2)
  {
    if i < 2 {
    } else if i < 4 {
    } else if i < 6 {
    } else {
    }
  }

  lemma Octet2Bits(u: bv8, w: bv8, i: nat)
    requires w < 64 && i < 8
    ensures Bit(Octet2(u, w), i) == if i < 2 then Bit(u, i + 6) else Bit(w, i)
  {
    if i < 2 {
    } else if i < 4 {
    } else if i < 6 {
    } else {
    }
  }

  lemma BitIndex(j: nat, r: nat, i: nat)
    requires r < 3 && i < 8
    ensures (24 * j + 8 * r + i) / 6 == 4 * j + (8 * r + i) / 6
    ensures (24 * j + 8 * r + i) % 6 == (8 * r + i) % 6
  {
  }

  lemma BitOfGroup(v: seq<bv8>, j: nat, r: nat, i: nat)
    requires AreSymbols(v) && r < 3 && i < 8
    ensures Bit(ByteAt(v, 3 * j + r), i) == Bit(Item(v, 4 * j + (8 * r + i) / 6), (8 * r + i) % 6 + 2)
  {
    hide Octet0, Octet1, Octet2, Bit, ByteAt;
    BytesOfGroup(v, j);
    GroupBits(Item(v, 4 * j), Item(v, 4 * j + 1), Item(v, 4 * j + 2), Item(v, 4 * j + 3), i);
    if r == 0 {
      assert (8 * r + i) / 6 == if i < 6 then 0 else 1;
    } else if r == 1 {
      assert (8 * r + i) / 6 == if i < 4 then 1 else 2;
    } else {
      assert (8 * r + i) / 6 == if i < 2 then 2 else 3;
    }
  }

  /** Bytes and symbols are one stream of bits: bit `n` of the bytes is bit `n` of the symbols. */
  lemma SameBits(v: seq<bv8>, n: nat)
    requires AreSymbols(v) && n < 8 * ByteCount(|v|)
    ensures n / 6 < |v|
    ensures Bit(ToBytes(v)[n / 8], n % 8) == Bit(v[n / 6], n % 6 + 2)
  {
    hide Bit, ByteAt, AreSymbols;
    var k, i := n / 8, n % 8;
    var j, r := k / 3, k % 3;
    BitOfGroup(v, j, r, i);
    BitIndex(j, r, i);
  }

  /** Encoding regroups the bits of the bytes and keeps their order. */
  lemma EncodingKeepsBits(x: seq<bv8>, n: nat)
    requires n < 8 * |x|
    ensures n / 6 < |ToSymbols(x)|
    ensures Bit(x[n / 8], n % 8) == Bit(ToSymbols(x)[n / 6], n % 6 + 2)
  {
    hide Bit, SymbolAt, ByteAt, AreSymbols;
    SymbolsAreSymbols(x);
    BytesSurvive(x);
    SameBits(ToSymbols(x), n);
  }
}
