/** Hexadecimal (section 8 of RFC 4648): lower case out, either case in. */
module Hex {
  import opened Options

  const BUFFER_TOO_SMALL := -1
  const NULL_POINTER := -2
  const INVALID_INPUT := -3
  const ODD_LENGTH := -4

  const NO_DIGIT: bv8 := 255

  function EncodeDigit(d: bv8): bv8 {
    if d < 10 then d + 48 else d + 87
  }

  function DecodeDigit(c: bv8): bv8 {
    if 48 <= c <= 57 then c - 48
    else if 97 <= c <= 102 then c - 87
    else if 65 <= c <= 70 then c - 55
    else NO_DIGIT
  }

  function Lower(c: bv8): bv8 {
    if 65 <= c <= 90 then c + 32 else c
  }

  /** The digits in characters: lower case out, either case in, nothing else. */
  lemma DigitsInCharacters(d: bv8, c: bv8)
    ensures d < 16 ==> EncodeDigit(d) as int == "0123456789abcdef"[d as int] as int
    ensures DecodeDigit(c) != NO_DIGIT <==>
              '0' as int <= c as int <= '9' as int || 'a' as int <= c as int <= 'f' as int || 'A' as int <= c as int <= 'F' as int
    ensures d < 16 ==> DecodeDigit(EncodeDigit(d)) == d
    ensures 10 <= d < 16 ==> DecodeDigit("ABCDEF"[d as int - 10] as bv8) == d
  {
  }

  /** The two digits of a byte, high-order digit first. */
  function Digit(b: bv8, i: nat): bv8 {
    EncodeDigit(if i == 0 then b >> 4 else b & 0x0f)
  }

  function Pair(hi: bv8, lo: bv8): bv8 {
    (hi << 4) | lo
  }

  function EncodeText(x: seq<bv8>): (s: seq<bv8>)
    ensures |s| == 2 * |x|
  {
    seq(2 * |x|, i requires 0 <= i < 2 * |x| => Digit(x[i / 2], i % 2))
  }

  predicate IsHex(s: seq<bv8>) {
    forall i :: 0 <= i < |s| ==> DecodeDigit(s[i]) != NO_DIGIT
  }

  function DecodeText(s: seq<bv8>): (r: Option<seq<bv8>>)
    ensures r.Some? ==> |r.value| == |s| / 2
  {
    if |s| % 2 != 0 || !IsHex(s) then None
    else Some(seq(|s| / 2, i requires 0 <= i < |s| / 2 => Pair(DecodeDigit(s[2 * i]), DecodeDigit(s[2 * i + 1]))))
  }

  /** The pairs of digits before the first that holds a character that is none. */
  function GoodPairs(s: seq<bv8>): (k: nat)
    ensures 2 * k <= |s| && IsHex(s[..2 * k])
    ensures 2 * k + 1 < |s| ==> DecodeDigit(s[2 * k]) == NO_DIGIT || DecodeDigit(s[2 * k + 1]) == NO_DIGIT
  {
    if |s| < 2 || DecodeDigit(s[0]) == NO_DIGIT || DecodeDigit(s[1]) == NO_DIGIT then 0
    else
      var k := 1 + GoodPairs(s[2..]);
      assert s[..2 * k] == s[..2] + s[2..][..2 * k - 2];
      k
  }

  lemma DigitsInvert(b: bv8)
    ensures DecodeDigit(Digit(b, 0)) == b >> 4 && DecodeDigit(Digit(b, 1)) == b & 0x0f
    ensures Pair(b >> 4, b & 0x0f) == b
  {
  }

  lemma PairInverts(c: bv8, d: bv8)
    requires DecodeDigit(c) != NO_DIGIT && DecodeDigit(d) != NO_DIGIT
    ensures Digit(Pair(DecodeDigit(c), DecodeDigit(d)), 0) == Lower(c)
    ensures Digit(Pair(DecodeDigit(c), DecodeDigit(d)), 1) == Lower(d)
  {
  }

  lemma DigitsAreHex(b: bv8, i: nat)
    requires i < 2
    ensures DecodeDigit(Digit(b, i)) != NO_DIGIT
  {
  }

  lemma EncodedIsHex(x: seq<bv8>)
    ensures IsHex(EncodeText(x))
  {
    hide Digit, DecodeDigit;
    forall i | 0 <= i < 2 * |x| ensures DecodeDigit(EncodeText(x)[i]) != NO_DIGIT {
      DigitsAreHex(x[i / 2], i % 2);
    }
  }

  lemma DigitsOfByte(x: seq<bv8>, i: nat)
    requires i < |x|
    ensures EncodeText(x)[2 * i] == Digit(x[i], 0) && EncodeText(x)[2 * i + 1] == Digit(x[i], 1)
  {
    hide Digit;
  }

  lemma RoundTrip(x: seq<bv8>)
    ensures DecodeText(EncodeText(x)) == Some(x)
  {
    hide DecodeDigit, Digit, Pair, EncodeText, IsHex;
    var s := EncodeText(x);
    EncodedIsHex(x);
    forall i | 0 <= i < |x| ensures Pair(DecodeDigit(s[2 * i]), DecodeDigit(s[2 * i + 1])) == x[i] {
      DigitsOfByte(x, i);
      DigitsInvert(x[i]);
    }
    assert DecodeText(s).value == x;
  }

  function LowerText(s: seq<bv8>): (t: seq<bv8>)
    ensures |t| == |s| && forall i :: 0 <= i < |s| ==> t[i] == Lower(s[i])
  {
    seq(|s|, i requires 0 <= i < |s| => Lower(s[i]))
  }

  /** Encoding a decoded text gives its lower-case form, hence the text itself exactly when it is lower case. */
  lemma ReencodesInLowerCase(s: seq<bv8>)
    requires DecodeText(s).Some?
    ensures EncodeText(DecodeText(s).value) == LowerText(s)
    ensures EncodeText(DecodeText(s).value) == s <==> forall i :: 0 <= i < |s| ==> Lower(s[i]) == s[i]
  {
    var x := DecodeText(s).value;
    forall i | 0 <= i < |s| ensures EncodeText(x)[i] == Lower(s[i]) {
      PairInverts(s[i / 2 * 2], s[i / 2 * 2 + 1]);
      hide Digit, Pair, Lower, DecodeDigit;
    }
    hide Lower, EncodeText, DecodeText;
    assert EncodeText(x) == LowerText(s);
  }

  method Encode(input: array?<bv8>, output: array?<bv8>) returns (n: int)
    requires input == null || input != output
    modifies if output == null then {} else {output}
    ensures input == null || output == null ==> n == NULL_POINTER
    ensures input != null && output != null ==>
              if output.Length < 2 * input.Length then n == BUFFER_TOO_SMALL && output[..] == old(output[..])
              else n == 2 * input.Length && output[..] == EncodeText(input[..]) + old(output[2 * input.Length..])
  {
    hide Digit;
    if input == null || output == null {
      return NULL_POINTER;
    }
    var x := input[..];
    var needed := |x| * 2;
    if output.Length < needed {
      return BUFFER_TOO_SMALL;
    }
    for i := 0 to |x|
      invariant forall k :: 0 <= k < 2 * i ==> output[k] == EncodeText(x)[k]
      invariant forall k :: 2 * i <= k < output.Length ==> output[k] == old(output[k])
    {
      output[i * 2] := Digit(x[i], 0);
      output[i * 2 + 1] := Digit(x[i], 1);
    }
    n := needed;
  }

  /** The pairs before `k` are good, and their bytes are `bytes`. */
  ghost predicate PairsDecoded(s: seq<bv8>, k: nat, bytes: seq<bv8>) {
    && 2 * k <= |s| && |bytes| == k
    && (forall i :: 0 <= i < 2 * k ==> DecodeDigit(s[i]) != NO_DIGIT)
    && forall i :: 0 <= i < k ==> bytes[i] == Pair(DecodeDigit(s[2 * i]), DecodeDigit(s[2 * i + 1]))
  }

  lemma AnotherPair(s: seq<bv8>, k: nat, bytes: seq<bv8>)
    requires PairsDecoded(s, k, bytes) && 2 * k + 2 <= |s|
    requires DecodeDigit(s[2 * k]) != NO_DIGIT && DecodeDigit(s[2 * k + 1]) != NO_DIGIT
    ensures PairsDecoded(s, k + 1, bytes + [Pair(DecodeDigit(s[2 * k]), DecodeDigit(s[2 * k + 1]))])
  {
    hide DecodeDigit, Pair;
  }

  lemma PairsDecode(s: seq<bv8>, k: nat, bytes: seq<bv8>)
    requires PairsDecoded(s, k, bytes)
    ensures DecodeText(s[..2 * k]) == Some(bytes)
  {
    hide DecodeDigit, Pair;
    var t := s[..2 * k];
    assert IsHex(t);
    assert DecodeText(t).value == bytes;
  }

  /** Only one number of pairs is that of the good ones. */
  lemma BadPairAt(s: seq<bv8>, k: nat, bytes: seq<bv8>)
    requires PairsDecoded(s, k, bytes) && 2 * k + 1 < |s|
    requires DecodeDigit(s[2 * k]) == NO_DIGIT || DecodeDigit(s[2 * k + 1]) == NO_DIGIT
    ensures GoodPairs(s) == k && DecodeText(s[..2 * k]) == Some(bytes) && DecodeText(s) == None
  {
    hide DecodeDigit, GoodPairs, Pair;
    var g := GoodPairs(s);
    assert forall i :: 0 <= i < 2 * g ==> s[..2 * g][i] == s[i];
    assert !IsHex(s);
    PairsDecode(s, k, bytes);
  }

  /** A bad digit leaves the bytes of the pairs before its own. */
  method Decode(input: array?<bv8>, output: array?<bv8>) returns (n: int)
    requires input == null || input != output
    modifies if output == null then {} else {output}
    ensures input == null || output == null ==> n == NULL_POINTER
    ensures input != null && output != null ==>
              var decoded := DecodeText(input[..]);
              if input.Length % 2 != 0 then n == ODD_LENGTH && output[..] == old(output[..])
              else if output.Length < input.Length / 2 then n == BUFFER_TOO_SMALL && output[..] == old(output[..])
              else if decoded.None? then
                var good := GoodPairs(input[..]);
                n == INVALID_INPUT && DecodeText(input[..2 * good]).Some?
                && output[..] == DecodeText(input[..2 * good]).value + old(output[good..])
              else n == |decoded.value| && output[..] == decoded.value + old(output[input.Length / 2..])
  {
    hide *;
    if input == null || output == null {
      return NULL_POINTER;
    }
    var s := input[..];
    if |s| % 2 != 0 {
      return ODD_LENGTH;
    }
    var outLen := |s| / 2;
    if output.Length < outLen {
      return BUFFER_TOO_SMALL;
    }
    n := PutPairs(s, output);
    assert input[..2 * GoodPairs(s)] == s[..2 * GoodPairs(s)];
  }

  /** The loop of the decoder. */
  method PutPairs(s: seq<bv8>, output: array<bv8>) returns (n: int)
    requires |s| % 2 == 0 && |s| / 2 <= output.Length
    modifies output
    ensures var decoded, good := DecodeText(s), GoodPairs(s);
            if decoded.None? then
              n == INVALID_INPUT && DecodeText(s[..2 * good]).Some?
              && output[..] == DecodeText(s[..2 * good]).value + old(output[good..])
            else n == |decoded.value| && output[..] == decoded.value + old(output[|s| / 2..])
  {
    hide *;
    var outLen := |s| / 2;
    NoPairs(s);
    ghost var bytes: seq<bv8> := [];
    for i := 0 to outLen
      invariant |bytes| == i && PairsDecoded(s, i, bytes)
      invariant forall k :: 0 <= k < i ==> output[k] == bytes[k]
      invariant forall k :: i <= k < output.Length ==> output[k] == old(output[k])
    {
      var hi, lo := DecodeDigit(s[i * 2]), DecodeDigit(s[i * 2 + 1]);
      if hi == NO_DIGIT || lo == NO_DIGIT {
        BadPairAt(s, i, bytes);
        assert output[..] == bytes + old(output[i..]);
        return INVALID_INPUT;
      }
      AnotherPair(s, i, bytes);
      output[i] := Pair(hi, lo);
      bytes := bytes + [Pair(hi, lo)];
    }
    PairsDecode(s, outLen, bytes);
    assert s[..2 * outLen] == s;
    assert output[..] == bytes + old(output[outLen..]);
    n := outLen;
  }

  lemma NoPairs(s: seq<bv8>)
    ensures PairsDecoded(s, 0, [])
  {
  }

  /** The error codes, and what the decoder takes: an even number of digits. */
  lemma CodesAndDigits(s: seq<bv8>)
    ensures BUFFER_TOO_SMALL == -1 && NULL_POINTER == -2 && INVALID_INPUT == -3 && ODD_LENGTH == -4
    ensures DecodeText(s).Some? <==> |s| % 2 == 0 && forall i :: 0 <= i < |s| ==> DecodeDigit(s[i]) != NO_DIGIT
    ensures DecodeText(s).Some? ==>
              forall i :: 0 <= i < |s| / 2 ==> DecodeText(s).value[i] == 16 * DecodeDigit(s[2 * i]) + DecodeDigit(s[2 * i + 1])
  {
    hide DecodeDigit, Pair;
    if DecodeText(s).Some? {
      forall i | 0 <= i < |s| / 2 ensures DecodeText(s).value[i] == 16 * DecodeDigit(s[2 * i]) + DecodeDigit(s[2 * i + 1]) {
        DigitRange(s[2 * i]);
        DigitRange(s[2 * i + 1]);
        PairInNumbers(DecodeDigit(s[2 * i]), DecodeDigit(s[2 * i + 1]));
      }
    }
  }

  lemma DigitRange(c: bv8)
    ensures DecodeDigit(c) < 16 || DecodeDigit(c) == NO_DIGIT
  {
  }

  lemma PairInNumbers(hi: bv8, lo: bv8)
    requires hi < 16 && lo < 16
    ensures Pair(hi, lo) == 16 * hi + lo
  {
  }
}
