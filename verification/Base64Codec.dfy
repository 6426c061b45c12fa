/**
 The base64 entry points of the runtime: they read an input buffer and write an output buffer in
 place, and report a length or a negative error code.
 */
module Base64Codec {
  import opened Options
  import opened Base64

  const BUFFER_TOO_SMALL := -1
  const NULL_POINTER := -2
  const INVALID_INPUT := -3

  function EncodeLen(inputLen: nat): nat {
    if inputLen == 0 then 0 else (inputLen + 2) / 3 * 4
  }

  function DecodeLen(inputLen: nat): nat {
    if inputLen == 0 then 0 else inputLen / 4 * 3
  }

  function UrlEncodeLen(inputLen: nat): nat {
    (inputLen * 4 + 2) / 3
  }

  /** The text for `x`, with '=' at the end or without. */
  function TextFor(a: Alphabet, padded: bool, x: seq<bv8>): seq<bv8> {
    var v := ToSymbols(x);
    Characters(a, v) + Pads(if padded then PadCount(|v|) else 0)
  }

  lemma TextLength(a: Alphabet, padded: bool, x: seq<bv8>)
    ensures |TextFor(a, padded, x)| == if padded then EncodeLen(|x|) else UrlEncodeLen(|x|)
  {
    hide ToSymbols, Characters, Pads;
    assert |ToSymbols(x)| == UrlEncodeLen(|x|) by {
      LengthOfSymbols(x);
    }
    PaddedLength(|x|);
  }

  lemma LengthOfSymbols(x: seq<bv8>)
    ensures |ToSymbols(x)| == UrlEncodeLen(|x|)
  {
  }

  lemma PaddedLength(n: nat)
    ensures UrlEncodeLen(n) + PadCount(UrlEncodeLen(n)) == EncodeLen(n)
  {
    var j, r := n / 3, n % 3;
    assert n == 3 * j + r;
    assert UrlEncodeLen(n) == 4 * j + if r == 0 then 0 else r + 1;
  }

  /** `after` is `before` with `bytes` written at its start. */
  ghost predicate Wrote(before: seq<bv8>, bytes: seq<bv8>, after: seq<bv8>) {
    |bytes| <= |before| && after == bytes + before[|bytes|..]
  }

  lemma WroteMore(before: seq<bv8>, done: seq<bv8>, more: seq<bv8>, between: seq<bv8>, after: seq<bv8>)
    requires Wrote(before, done, between) && |done + more| <= |before|
    requires after == between[..|done|] + more + between[|done + more|..]
    ensures Wrote(before, done + more, after)
  {
  }

  lemma WroteNothing(before: seq<bv8>)
    ensures Wrote(before, [], before)
  {
    assert before == [] + before;
  }

  /** Stores `bytes` at `at`, one after the other. */
  method Put(output: array<bv8>, at: nat, bytes: seq<bv8>)
    requires at + |bytes| <= output.Length
    modifies output
    ensures output[..] == old(output[..at]) + bytes + old(output[at + |bytes|..])
  {
    for i := 0 to |bytes|
      invariant forall k :: 0 <= k < i ==> output[at + k] == bytes[k]
      invariant forall k :: 0 <= k < at || at + i <= k < output.Length ==> output[k] == old(output[k])
    {
      output[at + i] := bytes[i];
    }
    assert output[at..at + |bytes|] == bytes;
  }

  /** Stores `bytes` right behind those written so far. */
  method PutMore(ghost before: seq<bv8>, ghost done: seq<bv8>, output: array<bv8>, at: nat, bytes: seq<bv8>)
    requires at == |done| && at + |bytes| <= output.Length == |before|
    requires Wrote(before, done, output[..])
    modifies output
    ensures Wrote(before, done + bytes, output[..])
  {
    ghost var between := output[..];
    Put(output, at, bytes);
    WroteMore(before, done, bytes, between, output[..]);
  }

  /** The characters of the `j`-th full group. */
  lemma GroupCharacters(a: Alphabet, x: seq<bv8>, j: nat)
    requires 3 * j + 3 <= |x|
    ensures 4 * j + 4 <= |ToSymbols(x)|
    ensures Characters(a, ToSymbols(x))[..4 * j + 4]
         == Characters(a, ToSymbols(x))[..4 * j]
          + [EncodeSymbol(a, Sextet0(x[3 * j])), EncodeSymbol(a, Sextet1(x[3 * j], x[3 * j + 1])),
             EncodeSymbol(a, Sextet2(x[3 * j + 1], x[3 * j + 2])), EncodeSymbol(a, Sextet3(x[3 * j + 2]))]
  {
    hide EncodeSymbol, SymbolAt, Sextet0, Sextet1, Sextet2, Sextet3;
    SymbolsOfGroup(x, j);
  }

  /** The characters and padding after the last full group. */
  function Tail(a: Alphabet, padded: bool, x: seq<bv8>): seq<bv8>
    requires |x| < 3
  {
    if x == [] then []
    else if |x| == 1 then
      [EncodeSymbol(a, Sextet0(x[0])), EncodeSymbol(a, (x[0] & 0x03) << 4)] + if padded then [PAD, PAD] else []
    else
      [EncodeSymbol(a, Sextet0(x[0])), EncodeSymbol(a, Sextet1(x[0], x[1])), EncodeSymbol(a, (x[1] & 0x0f) << 2)]
      + if padded then [PAD] else []
  }

  lemma TailSymbols(x: seq<bv8>, j: nat)
    requires 3 * j <= |x| < 3 * j + 3
    ensures |ToSymbols(x)| == 4 * j + if |x| == 3 * j then 0 else |x| - 3 * j + 1
    ensures |x| > 3 * j ==> ToSymbols(x)[4 * j] == Sextet0(x[3 * j])
    ensures |x| == 3 * j + 1 ==> ToSymbols(x)[4 * j + 1] == (x[3 * j] & 0x03) << 4
    ensures |x| == 3 * j + 2 ==> ToSymbols(x)[4 * j + 1] == Sextet1(x[3 * j], x[3 * j + 1])
    ensures |x| == 3 * j + 2 ==> ToSymbols(x)[4 * j + 2] == (x[3 * j + 1] & 0x0f) << 2
  {
    SymbolsOfGroup(x, j);
    ZeroBits(Item(x, 3 * j));
    ZeroBits(Item(x, 3 * j + 1));
    hide SymbolAt, Sextet0, Sextet1, Sextet2, Sextet3;
  }

  lemma TailCharacters(a: Alphabet, padded: bool, x: seq<bv8>, j: nat)
    requires 3 * j <= |x| < 3 * j + 3
    ensures 4 * j <= |ToSymbols(x)|
    ensures TextFor(a, padded, x) == Characters(a, ToSymbols(x))[..4 * j] + Tail(a, padded, x[3 * j..])
  {
    hide EncodeSymbol, ToSymbols, Sextet0, Sextet1;
    TailSymbols(x, j);
    var chars := Characters(a, ToSymbols(x));
    assert chars == chars[..4 * j] + chars[4 * j..];
    assert PadCount(|chars|) == if |x| == 3 * j then 0 else 3 * j + 3 - |x|;
    assert chars[4 * j..] + Pads(if padded then PadCount(|chars|) else 0) == Tail(a, padded, x[3 * j..]);
  }

  lemma ZeroBits(b: bv8)
    ensures Sextet1(b, 0) == (b & 0x03) << 4
    ensures Sextet2(b, 0) == (b & 0x0f) << 2
  {
  }

  /** Encodes the one or two bytes that remain after the last full group. */
  method PutTail(a: Alphabet, padded: bool, input: array<bv8>, inIdx: nat, output: array<bv8>, outIdx: nat)
    returns (end: nat)
    requires input != output && inIdx <= input.Length < inIdx + 3
    requires outIdx + |Tail(a, padded, input[inIdx..])| <= output.Length
    modifies output
    ensures var tail := Tail(a, padded, input[inIdx..]);
            && end == outIdx + |tail|
            && output[..] == old(output[..outIdx]) + tail + old(output[end..])
  {
    hide *;
    var tail := TailOf(a, padded, input, inIdx);
    Put(output, outIdx, tail);
    end := outIdx + |tail|;
  }

  method TailOf(a: Alphabet, padded: bool, input: array<bv8>, inIdx: nat) returns (tail: seq<bv8>)
    requires inIdx <= input.Length < inIdx + 3
    ensures tail == Tail(a, padded, input[inIdx..])
  {
    hide EncodeSymbol, Sextet0, Sextet1, Sextet2, Sextet3;
    var remaining := input.Length - inIdx;
    tail := [];
    if remaining == 1 {
      var b0 := input[inIdx];
      tail := [EncodeSymbol(a, Sextet0(b0)), EncodeSymbol(a, (b0 & 0x03) << 4)] + if padded then [PAD, PAD] else [];
    } else if remaining == 2 {
      var b0, b1 := input[inIdx], input[inIdx + 1];
      tail := [EncodeSymbol(a, Sextet0(b0)), EncodeSymbol(a, Sextet1(b0, b1)), EncodeSymbol(a, (b1 & 0x0f) << 2)]
        + if padded then [PAD] else [];
    }
  }

  /** Encodes the three bytes at `inIdx`. */
  method PutGroup(a: Alphabet, ghost x: seq<bv8>, ghost j: nat, ghost before: seq<bv8>,
                  input: array<bv8>, inIdx: nat, output: array<bv8>, outIdx: nat)
    requires input != output && x == input[..] && inIdx == 3 * j && inIdx + 3 <= input.Length
    requires outIdx == 4 * j && outIdx + 4 <= output.Length == |before| && outIdx <= |ToSymbols(x)|
    requires Wrote(before, Characters(a, ToSymbols(x))[..outIdx], output[..])
    modifies output
    ensures 4 * j + 4 <= |ToSymbols(x)|
    ensures Wrote(before, Characters(a, ToSymbols(x))[..4 * j + 4], output[..])
  {
    hide EncodeSymbol, Sextet0, Sextet1, Sextet2, Sextet3, ToSymbols, Characters, Wrote;
    var b0, b1, b2 := input[inIdx], input[inIdx + 1], input[inIdx + 2];
    GroupCharacters(a, x, j);
    PutMore(before, Characters(a, ToSymbols(x))[..outIdx], output, outIdx,
            [EncodeSymbol(a, Sextet0(b0)), EncodeSymbol(a, Sextet1(b0, b1)),
             EncodeSymbol(a, Sextet2(b1, b2)), EncodeSymbol(a, Sextet3(b2))]);
  }

  lemma RoomForCharacters(x: seq<bv8>, j: nat)
    requires 3 * j + 3 <= |x|
    ensures 4 * j + 4 <= |ToSymbols(x)|
  {
    GroupCharacters(STANDARD, x, j);
  }

  /** Encodes the full groups of three bytes. */
  method PutGroups(a: Alphabet, input: array<bv8>, output: array<bv8>) returns (inIdx: nat, outIdx: nat)
    requires input != output && UrlEncodeLen(input.Length) <= output.Length
    modifies output
    ensures inIdx % 3 == 0 && inIdx <= input.Length < inIdx + 3 && 3 * outIdx == 4 * inIdx
    ensures var chars := Characters(a, ToSymbols(input[..]));
            outIdx <= |chars| && Wrote(old(output[..]), chars[..outIdx], output[..])
  {
    hide *;
    ghost var x := input[..];
    ghost var before := output[..];
    ghost var chars := Characters(a, ToSymbols(x));
    LengthOfSymbols(x);
    WroteNothing(before);
    assert chars[..0] == [];
    inIdx, outIdx := 0, 0;
    ghost var j := 0;
    while inIdx + 3 <= input.Length
      invariant inIdx == 3 * j <= input.Length && outIdx == 4 * j <= |ToSymbols(x)|
      invariant Wrote(before, chars[..outIdx], output[..])
      decreases input.Length - inIdx
    {
      RoomForCharacters(x, j);
      PutGroup(a, x, j, before, input, inIdx, output, outIdx);
      inIdx, outIdx, j := inIdx + 3, outIdx + 4, j + 1;
    }
  }

  /** Both encoders: the padded standard one and the unpadded URL-safe one. */
  method Encode(a: Alphabet, padded: bool, input: array?<bv8>, output: array?<bv8>) returns (n: int)
    requires input == null || input != output
    modifies if output == null then {} else {output}
    ensures input == null || output == null ==> n == NULL_POINTER
    ensures input != null && output != null ==>
              var text := TextFor(a, padded, input[..]);
              if output.Length < |text| then n == BUFFER_TOO_SMALL && output[..] == old(output[..])
              else n == |text| && Wrote(old(output[..]), text, output[..])
  {
    hide *;
    if input == null || output == null {
      return NULL_POINTER;
    }
    ghost var x := input[..];
    TextLength(a, padded, x);
    if input.Length == 0 {
      assert x == [];
      NoText(a, padded);
      WroteNothing(output[..]);
      return 0;
    }
    var required := if padded then EncodeLen(input.Length) else UrlEncodeLen(input.Length);
    if output.Length < required {
      return BUFFER_TOO_SMALL;
    }
    n := PutText(a, padded, input, output);
  }

  lemma NoText(a: Alphabet, padded: bool)
    ensures TextFor(a, padded, []) == []
  {
  }

  lemma GroupIndices(inIdx: nat, outIdx: nat)
    requires inIdx % 3 == 0 && 3 * outIdx == 4 * inIdx
    ensures 3 * (inIdx / 3) == inIdx && 4 * (inIdx / 3) == outIdx
  {
  }

  /** Groups first, then what remains. */
  method PutText(a: Alphabet, padded: bool, input: array<bv8>, output: array<bv8>) returns (n: nat)
    requires input != output && |TextFor(a, padded, input[..])| <= output.Length
    modifies output
    ensures var text := TextFor(a, padded, input[..]); n == |text| && Wrote(old(output[..]), text, output[..])
  {
    hide *;
    ghost var x := input[..];
    ghost var before := output[..];
    TextLength(a, padded, x);
    PaddedLength(|x|);
    var inIdx, outIdx := PutGroups(a, input, output);
    GroupIndices(inIdx, outIdx);
    TailCharacters(a, padded, x, inIdx / 3);
    assert input[inIdx..] == x[inIdx..];
    ghost var between := output[..];
    n := PutTail(a, padded, input, inIdx, output, outIdx);
    WroteMore(before, Characters(a, ToSymbols(x))[..outIdx], Tail(a, padded, x[inIdx..]), between, output[..]);
  }

  /** What decoding the rest of a text adds to what is already decoded. */
  ghost function Resume(done: seq<bv8>, rest: Option<seq<bv8>>): Option<seq<bv8>> {
    if rest.None? then None else Some(done + rest.value)
  }

  lemma ResumeNothing(rest: Option<seq<bv8>>)
    ensures Resume([], rest) == rest
  {
    if rest.Some? {
      assert [] + rest.value == rest.value;
    }
  }

  lemma ResumeFault(done: seq<bv8>)
    ensures Resume(done, None) == None
  {
  }

  lemma ResumeEnd(done: seq<bv8>)
    ensures Resume(done, Some([])) == Some(done)
  {
    assert done + [] == done;
  }

  lemma ResumeTwice(a: seq<bv8>, b: seq<bv8>, rest: Option<seq<bv8>>)
    ensures Resume(a, Resume(b, rest)) == Resume(a + b, rest)
  {
    if rest.Some? {
      assert a + (b + rest.value) == a + b + rest.value;
    }
  }

  lemma NextGroup(s: seq<bv8>)
    requires |s| % 4 == 0 && s != []
    ensures DecodeGroups(s)
         == if !ValidGroup(s) then None
            else Resume(GroupBytes(Decoded(s, 0), Decoded(s, 1), Decoded(s, 2), Decoded(s, 3)), DecodeGroups(s[4..]))
  {
  }

  /** The bytes of the groups before the first one with a character that is no symbol. */
  function Salvaged(s: seq<bv8>): seq<bv8>
    requires |s| % 4 == 0
    decreases |s|
  {
    if s == [] || !ValidGroup(s) then []
    else GroupBytes(Decoded(s, 0), Decoded(s, 1), Decoded(s, 2), Decoded(s, 3)) + Salvaged(s[4..])
  }

  /** Where the first such group begins, or the length. */
  function GoodLength(s: seq<bv8>): (k: nat)
    requires |s| % 4 == 0
    ensures k % 4 == 0 && k <= |s|
    decreases |s|
  {
    if s == [] || !ValidGroup(s) then 0 else 4 + GoodLength(s[4..])
  }

  lemma {:induction false} BadGroupAt(s: seq<bv8>, k: nat)
    requires |s| % 4 == 0 && k == GoodLength(s) && k + 4 <= |s|
    ensures !ValidGroup(s[k..])
    decreases |s|
  {
    hide ValidGroup;
    if !ValidGroup(s) {
      assert s[0..] == s;
    } else {
      BadGroupAt(s[4..], k - 4);
      assert s[k..] == s[4..][k - 4..];
    }
  }

  /** They are what the text before that group decodes to, and fit where the decoded text would. */
  lemma {:induction false} SalvagedIsTheGoodPart(s: seq<bv8>)
    requires |s| % 4 == 0
    ensures DecodeText(s[..GoodLength(s)]) == Some(Salvaged(s)) && |Salvaged(s)| <= DecodeLen(|s|)
    ensures DecodeText(s).None? <==> GoodLength(s) < |s|
    decreases |s|
  {
    hide GroupBytes, Decoded;
    if s == [] || !ValidGroup(s) {
      NoGroups();
      assert s[..0] == [];
    } else {
      var k := GoodLength(s);
      SalvagedIsTheGoodPart(s[4..]);
      assert s[..k][4..] == s[4..][..k - 4];
      SameGroup(s, s[..k]);
      NextGroup(s[..k]);
      NextGroup(s);
      GroupLength(Decoded(s, 0), Decoded(s, 1), Decoded(s, 2), Decoded(s, 3));
      RoomForAGroup(|s|, 0);
    }
  }

  lemma SameGroup(s: seq<bv8>, t: seq<bv8>)
    requires |s| >= 4 && |t| >= 4 && s[..4] == t[..4]
    ensures ValidGroup(s) == ValidGroup(t)
    ensures forall i :: 0 <= i < 4 ==> Decoded(s, i) == Decoded(t, i)
  {
    hide DecodeSymbol;
    assert s[0] == s[..4][0] && s[1] == s[..4][1] && s[2] == s[..4][2] && s[3] == s[..4][3];
  }

  lemma SalvagesNext(s: seq<bv8>)
    requires |s| % 4 == 0
    ensures Salvaged(s)
         == if s == [] || !ValidGroup(s) then []
            else GroupBytes(Decoded(s, 0), Decoded(s, 1), Decoded(s, 2), Decoded(s, 3)) + Salvaged(s[4..])
  {
  }

  /** Decodes the first group of `s`; `None` if it holds a character that is no symbol. */
  method DecodeGroup(s: seq<bv8>) returns (group: Option<seq<bv8>>)
    requires |s| >= 4
    ensures group == if !ValidGroup(s) then None
                     else Some(GroupBytes(Decoded(s, 0), Decoded(s, 1), Decoded(s, 2), Decoded(s, 3)))
  {
    hide DecodeSymbol, Octet0, Octet1, Octet2;
    var c0, c1 := DecodeSymbol(STANDARD, s[0]), DecodeSymbol(STANDARD, s[1]);
    var c2, c3 := DecodeSymbol(STANDARD, s[2]), DecodeSymbol(STANDARD, s[3]);
    if c0 == INVALID || c1 == INVALID || (c2 == INVALID && c2 != PADDING) || (c3 == INVALID && c3 != PADDING) {
      return None;
    }
    var bytes := [Octet0(c0, c1)];
    if c2 != PADDING {
      bytes := bytes + [Octet1(c1, c2)];
      if c3 != PADDING {
        bytes := bytes + [Octet2(c2, c3)];
      }
    }
    assert bytes == GroupBytes(c0, c1, c2, c3);
    group := Some(bytes);
  }

  lemma GroupLength(c0: bv8, c1: bv8, c2: bv8, c3: bv8)
    ensures |GroupBytes(c0, c1, c2, c3)| <= 3
  {
  }

  /** The padded decoder; a bad symbol leaves the bytes of the groups before its own. */
  method Decode(input: array?<bv8>, output: array?<bv8>) returns (n: int)
    requires input == null || input != output
    modifies if output == null then {} else {output}
    ensures input == null || output == null ==> n == NULL_POINTER
    ensures input != null && output != null ==>
              var decoded := DecodeText(input[..]);
              if input.Length % 4 != 0 then n == INVALID_INPUT && output[..] == old(output[..])
              else if output.Length < DecodeLen(input.Length) then n == BUFFER_TOO_SMALL && output[..] == old(output[..])
              else if decoded.None? then n == INVALID_INPUT && Wrote(old(output[..]), Salvaged(input[..]), output[..])
              else n == |decoded.value| && Wrote(old(output[..]), decoded.value, output[..])
  {
    if input == null || output == null {
      return NULL_POINTER;
    }
    var text := input[..];
    NoGroups();
    if |text| == 0 {
      assert text == [];
      return 0;
    }
    if |text| % 4 != 0 {
      return INVALID_INPUT;
    }
    if output.Length < DecodeLen(|text|) {
      return BUFFER_TOO_SMALL;
    }
    n := PutDecoded(text, output);
  }

  /** The groups before `inIdx` decode to `done`, which is written. */
  ghost predicate Progress(text: seq<bv8>, inIdx: nat, before: seq<bv8>, done: seq<bv8>, after: seq<bv8>) {
    && |text| % 4 == 0 && inIdx % 4 == 0 && inIdx <= |text| && |done| <= DecodeLen(inIdx)
    && DecodeGroups(text) == Resume(done, DecodeGroups(text[inIdx..]))
    && Salvaged(text) == done + Salvaged(text[inIdx..])
    && Wrote(before, done, after)
  }

  lemma RoomForAGroup(len: nat, inIdx: nat)
    requires len % 4 == 0 && inIdx % 4 == 0 && inIdx < len
    ensures inIdx + 4 <= len && DecodeLen(inIdx + 4) == DecodeLen(inIdx) + 3 <= DecodeLen(len)
  {
    var j, m := inIdx / 4, len / 4;
    assert inIdx == 4 * j && len == 4 * m;
  }

  lemma Progresses(text: seq<bv8>, inIdx: nat, before: seq<bv8>, done: seq<bv8>, middle: seq<bv8>,
                   rest: seq<bv8>, tail: seq<bv8>, group: seq<bv8>, after: seq<bv8>)
    requires Progress(text, inIdx, before, done, middle) && inIdx < |text| && |group| <= 3
    requires rest == text[inIdx..] && |rest| >= 4 && |rest| % 4 == 0 && tail == rest[4..] && |tail| % 4 == 0
    requires DecodeGroups(rest) == Resume(group, DecodeGroups(tail)) && Salvaged(rest) == group + Salvaged(tail)
    requires Wrote(before, done + group, after)
    ensures Progress(text, inIdx + 4, before, done + group, after)
  {
    hide DecodeGroups, Salvaged, Resume, Wrote, DecodeLen;
    RoomForAGroup(|text|, inIdx);
    assert tail == text[inIdx + 4..];
    assert done + (group + Salvaged(tail)) == done + group + Salvaged(tail);
    ResumeTwice(done, group, DecodeGroups(tail));
  }

  /** One round of the decoder's loop; `None` ends it. */
  method PutNextGroup(text: seq<bv8>, inIdx: nat, output: array<bv8>, ghost before: seq<bv8>, ghost done: seq<bv8>,
                      outIdx: nat) returns (group: Option<seq<bv8>>)
    requires Progress(text, inIdx, before, done, output[..]) && inIdx < |text| && outIdx == |done|
    requires DecodeLen(|text|) <= output.Length == |before|
    modifies output
    ensures group.None? ==> DecodeGroups(text) == None && Wrote(before, Salvaged(text), output[..])
    ensures group.Some? ==> Progress(text, inIdx + 4, before, done + group.value, output[..])
  {
    hide *;
    ProgressRoom(text, inIdx, before, done, output[..]);
    ghost var middle := output[..];
    var rest := text[inIdx..];
    NextGroup(rest);
    SalvagesNext(rest);
    group := DecodeGroup(rest);
    if group.None? {
      BadGroupEnds(text, inIdx, before, done, middle);
    } else {
      GroupLength(Decoded(rest, 0), Decoded(rest, 1), Decoded(rest, 2), Decoded(rest, 3));
      PutMore(before, done, output, outIdx, group.value);
      Progresses(text, inIdx, before, done, middle, rest, rest[4..], group.value, output[..]);
    }
  }

  lemma ProgressRoom(text: seq<bv8>, inIdx: nat, before: seq<bv8>, done: seq<bv8>, after: seq<bv8>)
    requires Progress(text, inIdx, before, done, after) && inIdx < |text|
    ensures inIdx + 4 <= |text| && |text[inIdx..]| % 4 == 0 && |text[inIdx + 4..]| % 4 == 0
    ensures |done| + 3 <= DecodeLen(|text|) && Wrote(before, done, after)
  {
    hide DecodeGroups, Salvaged, Wrote, DecodeLen;
    RoomForAGroup(|text|, inIdx);
  }

  lemma BadGroupEnds(text: seq<bv8>, inIdx: nat, before: seq<bv8>, done: seq<bv8>, after: seq<bv8>)
    requires Progress(text, inIdx, before, done, after) && inIdx + 4 <= |text| && |text[inIdx..]| % 4 == 0
    requires !ValidGroup(text[inIdx..])
    ensures DecodeGroups(text) == None && Wrote(before, Salvaged(text), after)
  {
    hide DecodeGroups, Salvaged, Resume, Wrote, ValidGroup;
    NextGroup(text[inIdx..]);
    SalvagesNext(text[inIdx..]);
    ResumeFault(done);
    assert done + [] == done;
  }

  lemma Finished(text: seq<bv8>, before: seq<bv8>, done: seq<bv8>, after: seq<bv8>)
    requires Progress(text, |text|, before, done, after)
    ensures DecodeGroups(text) == Some(done) && Wrote(before, done, after)
  {
    hide DecodeGroups, Salvaged, Resume, Wrote;
    assert text[|text|..] == [];
    NoGroups();
    ResumeEnd(done);
  }

  /** The loop of the padded decoder. */
  method PutDecoded(text: seq<bv8>, output: array<bv8>) returns (n: int)
    requires |text| % 4 == 0 && DecodeLen(|text|) <= output.Length
    modifies output
    ensures var decoded := DecodeGroups(text);
            if decoded.None? then n == INVALID_INPUT && Wrote(old(output[..]), Salvaged(text), output[..])
            else n == |decoded.value| && Wrote(old(output[..]), decoded.value, output[..])
  {
    ghost var before := output[..];
    ghost var done: seq<bv8> := [];
    assert Progress(text, 0, before, done, output[..]) by {
      assert text[0..] == text;
      ResumeNothing(DecodeGroups(text));
      assert [] + Salvaged(text) == Salvaged(text);
    }
    hide DecodeGroups, Salvaged, Progress, Wrote;
    var outIdx, inIdx := 0, 0;
    while inIdx < |text|
      invariant inIdx % 4 == 0 && inIdx <= |text| && outIdx == |done|
      invariant Progress(text, inIdx, before, done, output[..])
      decreases |text| - inIdx
    {
      var group := PutNextGroup(text, inIdx, output, before, done, outIdx);
      if group.None? {
        return INVALID_INPUT;
      }
      done := done + group.value;
      outIdx, inIdx := outIdx + |group.value|, inIdx + 4;
    }
    Finished(text, before, done, output[..]);
    n := outIdx;
  }

  // ---------------------------------------------------------------------------------------
  // The accumulator
  // ---------------------------------------------------------------------------------------

  /** Shifting a symbol into the accumulator leaves it in the low six bits, whatever was above. */
  lemma ShiftIn(accum: bv32, value: bv8)
    requires value < 64
    ensures ((accum << 6) | value as bv32) & 0x3f == value as bv32
  {
  }

  /** The byte above the `bits` low bits of the accumulator; `bits` is 0, 2 or 4. */
  function Take(accum: bv32, bits: nat): bv8 {
    match bits
    case 4 => ((accum >> 4) & 0xff) as bv8
    case 2 => ((accum >> 2) & 0xff) as bv8
    case _ => (accum & 0xff) as bv8
  }

  /** The byte taken out depends on the last two symbols only. */
  lemma TakeOut(accum: bv32, last: bv8, value: bv8)
    requires accum & 0x3f == last as bv32 && value < 64
    ensures var shifted := (accum << 6) | value as bv32;
            && Take(shifted, 4) == Octet0(last, value)
            && Take(shifted, 2) == Octet1(last, value)
            && Take(shifted, 0) == Octet2(last, value)
  {
  }

  /** The bits that `symbols` symbols leave over after the last full byte. */
  function LeftOver(symbols: nat): nat {
    symbols * 6 % 8
  }

  /** One symbol more: the bits left over, and the byte it completes, if any. */
  lemma AnotherSymbol(v: seq<bv8>, accum: bv32, value: bv8)
    requires v != [] ==> accum & 0x3f == v[|v| - 1] as bv32
    requires value < 64
    ensures var bits := LeftOver(|v|) + 6;
            var shifted := (accum << 6) | value as bv32;
            if bits < 8 then LeftOver(|v| + 1) == bits && ToBytes(v + [value]) == ToBytes(v)
            else
              && LeftOver(|v| + 1) == bits - 8
              && ToBytes(v + [value]) == ToBytes(v) + [Take(shifted, bits - 8)]
  {
    hide Octet0, Octet1, Octet2, ByteAt, Take, ToBytes;
    NewByte(v, value);
    if |v| % 4 != 0 {
      TakeOut(accum, v[|v| - 1], value);
    }
  }

  lemma NewByte(v: seq<bv8>, value: bv8)
    ensures var w := v + [value];
            if |v| % 4 == 0 then ToBytes(w) == ToBytes(v)
            else
              var last := v[|v| - 1];
              ToBytes(w) == ToBytes(v) + [match |v| % 4
                                          case 1 => Octet0(last, value)
                                          case 2 => Octet1(last, value)
                                          case _ => Octet2(last, value)]
  {
    hide Octet0, Octet1, Octet2, ByteAt;
    var w, j := v + [value], |v| / 4;
    EarlierBytes(v, value);
    BytesOfGroup(w, j);
    if |v| % 4 == 0 {
      assert ByteCount(|w|) == ByteCount(|v|);
    } else {
      assert ByteCount(|w|) == ByteCount(|v|) + 1;
      assert ByteCount(|v|) == 3 * j + |v| % 4 - 1;
    }
  }

  lemma EarlierBytes(v: seq<bv8>, value: bv8)
    ensures ByteCount(|v|) <= ByteCount(|v| + 1)
    ensures ToBytes(v + [value])[..ByteCount(|v|)] == ToBytes(v)
  {
    hide ByteAt;
    forall k | 0 <= k < ByteCount(|v|) ensures ByteAt(v + [value], k) == ByteAt(v, k) {
      hide Octet0, Octet1, Octet2, ByteAt;
      BytesOfGroup(v, k / 3);
      BytesOfGroup(v + [value], k / 3);
    }
  }

  // ---------------------------------------------------------------------------------------
  // The URL-safe decoder
  // ---------------------------------------------------------------------------------------

  /** `s` without the '=' at its end. */
  function Stripped(s: seq<bv8>): (t: seq<bv8>)
    ensures |t| <= |s| && t == s[..|t|]
    ensures t != [] ==> t[|t| - 1] != PAD
    ensures forall i :: |t| <= i < |s| ==> s[i] == PAD
  {
    if s != [] && s[|s| - 1] == PAD then Stripped(s[..|s| - 1]) else s
  }

  /** The values up to the first character that is no symbol of the alphabet. */
  function UrlPrefix(s: seq<bv8>): (v: seq<bv8>)
    ensures |v| <= |s| && forall i :: 0 <= i < |v| ==> v[i] == DecodeSymbol(URL_SAFE, s[i]) != PADDING
    decreases |s|
  {
    if s == [] then []
    else
      var v := DecodeSymbol(URL_SAFE, s[0]);
      if v == INVALID || v == PADDING then [] else [v] + UrlPrefix(s[1..])
  }

  /** They are the values of the text before that character, and all values if the text has no bad one. */
  lemma {:induction false} UrlPrefixIsTheGoodPart(s: seq<bv8>)
    ensures UrlValues(s[..|UrlPrefix(s)|]) == Some(UrlPrefix(s))
    ensures UrlValues(s).Some? ==> UrlValues(s).value == UrlPrefix(s)
    ensures UrlValues(s).None? <==> |UrlPrefix(s)| < |s| && DecodeSymbol(URL_SAFE, s[|UrlPrefix(s)|]) == INVALID
    decreases |s|
  {
    if s == [] {
      UrlEmpty();
    } else {
      hide UrlPrefix, UrlValues, DecodeSymbol, Resume;
      PrefixNext(s);
      UrlNext(s);
      var k := |UrlPrefix(s)|;
      if k == 0 {
        assert s[..0] == [];
        UrlEmpty();
      } else {
        assert s[..k][1..] == s[1..][..k - 1];
        UrlPrefixIsTheGoodPart(s[1..]);
        UrlNext(s[..k]);
        ResumeOne(DecodeSymbol(URL_SAFE, s[0]), UrlValues(s[1..]));
        ResumeOne(DecodeSymbol(URL_SAFE, s[0]), UrlValues(s[..k][1..]));
      }
    }
  }

  lemma ResumeOne(v: bv8, rest: Option<seq<bv8>>)
    ensures Resume([v], rest) == if rest.None? then None else Some([v] + rest.value)
  {
  }

  /** Their bytes fit the output size computed up front. */
  lemma UrlPrefixFits(s: seq<bv8>)
    ensures |ToBytes(UrlPrefix(s))| <= ByteCount(|Stripped(s)|)
  {
    var v, t := UrlPrefix(s), Stripped(s);
    BytesLength(v);
    if v != [] {
      SymbolRange(URL_SAFE, s[|v| - 1]);
      assert |v| <= |t|;
    }
  }

  lemma PaddingStops(pads: seq<bv8>)
    requires forall i :: 0 <= i < |pads| ==> pads[i] == PAD
    ensures UrlValues(pads) == Some([]) && UrlPrefix(pads) == []
  {
    if pads == [] {
      UrlEmpty();
    } else {
      UrlPadStops(pads);
    }
  }

  /** Taking the padding off first changes nothing. */
  lemma {:induction false} StrippingKeepsValues(s: seq<bv8>, pads: seq<bv8>)
    requires forall i :: 0 <= i < |pads| ==> pads[i] == PAD
    ensures UrlValues(s + pads) == UrlValues(s) && UrlPrefix(s + pads) == UrlPrefix(s)
    decreases |s|
  {
    hide DecodeSymbol;
    if s == [] {
      assert s + pads == pads;
      PaddingStops(pads);
    } else {
      assert (s + pads)[1..] == s[1..] + pads;
      StrippingKeepsValues(s[1..], pads);
    }
  }

  lemma PrefixNext(s: seq<bv8>)
    requires s != []
    ensures var v := DecodeSymbol(URL_SAFE, s[0]);
            UrlPrefix(s) == if v == INVALID || v == PADDING then [] else [v] + UrlPrefix(s[1..])
  {
    hide DecodeSymbol;
  }

  lemma UrlNext(s: seq<bv8>)
    requires s != []
    ensures var v := DecodeSymbol(URL_SAFE, s[0]);
            UrlValues(s) == if v == INVALID then None else if v == PADDING then Some([]) else Resume([v], UrlValues(s[1..]))
  {
    hide DecodeSymbol;
  }

  /** Where the padding at the end of the input begins. */
  method FindPadding(input: array<bv8>) returns (actualLen: nat)
    ensures actualLen <= input.Length && input[..actualLen] == Stripped(input[..])
  {
    ghost var whole := input[..];
    actualLen := input.Length;
    assert whole[..actualLen] == whole;
    while actualLen > 0
      invariant actualLen <= input.Length
      invariant Stripped(whole[..actualLen]) == Stripped(whole)
    {
      assert whole[..actualLen][..actualLen - 1] == whole[..actualLen - 1];
      if input[actualLen - 1] != PAD {
        break;
      }
      actualLen := actualLen - 1;
    }
  }

  /** The decoder's accumulator, the bits pending in it, and the next position in the output. */
  datatype Accumulator = Accumulator(accum: bv32, accumBits: nat, outIdx: nat) {

    /** It is the accumulator after the symbols `v`. */
    ghost predicate After(v: seq<bv8>) {
      && (v != [] ==> accum & 0x3f == v[|v| - 1] as bv32)
      && accumBits == LeftOver(|v|) && outIdx == ByteCount(|v|)
    }

    lemma AtTheStart(before: seq<bv8>)
      requires accum == 0 && accumBits == 0 && outIdx == 0
      ensures After([]) && Wrote(before, ToBytes([]), before)
    {
      NoBytes();
      WroteNothing(before);
    }

    lemma AtTheEnd(v: seq<bv8>)
      requires After(v)
      ensures outIdx == |ToBytes(v)|
    {
      BytesLength(v);
    }
  }

  /** Shifts one symbol in, and writes the byte that it completes, if any. */
  method Accumulate(acc: Accumulator, value: bv8, output: array<bv8>, ghost before: seq<bv8>, ghost v: seq<bv8>)
    returns (next: Accumulator)
    requires acc.After(v) && value < 64
    requires Wrote(before, ToBytes(v), output[..]) && ByteCount(|v| + 1) <= output.Length == |before|
    modifies output
    ensures next.After(v + [value])
    ensures Wrote(before, ToBytes(v + [value]), output[..])
  {
    hide Take, ToBytes, Wrote;
    AnotherSymbol(v, acc.accum, value);
    ShiftIn(acc.accum, value);
    BytesLength(v);
    BytesLength(v + [value]);
    var accum := (acc.accum << 6) | value as bv32;
    var accumBits := acc.accumBits + 6;
    var outIdx := acc.outIdx;
    if accumBits >= 8 {
      accumBits := accumBits - 8;
      PutMore(before, ToBytes(v), output, outIdx, [Take(accum, accumBits)]);
      outIdx := outIdx + 1;
    }
    next := Accumulator(accum, accumBits, outIdx);
  }

  lemma BytesLength(v: seq<bv8>)
    ensures |ToBytes(v)| == ByteCount(|v|)
  {
  }

  /**
   The URL-safe decoder.  After `i` symbols it has written the ByteCount(i) bytes they determine,
   and nothing beyond the output size computed up front; LeftOver(i) bits are pending.  A bad symbol
   leaves the bytes that the symbols before it determine.
   */
  method UrlDecode(input: array?<bv8>, output: array?<bv8>) returns (n: int)
    requires input == null || input != output
    modifies if output == null then {} else {output}
    ensures input == null || output == null ==> n == NULL_POINTER
    ensures input != null && output != null ==>
              var decoded := UrlDecodeText(input[..]);
              if output.Length < ByteCount(|Stripped(input[..])|) then n == BUFFER_TOO_SMALL && output[..] == old(output[..])
              else if decoded.None? then n == INVALID_INPUT && Wrote(old(output[..]), ToBytes(UrlPrefix(input[..])), output[..])
              else n == |decoded.value| && Wrote(old(output[..]), decoded.value, output[..])
  {
    if input == null || output == null {
      return NULL_POINTER;
    }
    ghost var whole := input[..];
    ghost var before := output[..];
    NoBytes();
    UrlEmpty();
    assert Wrote(before, [], output[..]);
    var actualLen := FindPadding(input);
    ghost var s := input[..actualLen];
    assert whole == s + whole[actualLen..];
    StrippingKeepsValues(s, whole[actualLen..]);
    hide DecodeSymbol, UrlValues, UrlPrefix, Resume, ToBytes, Stripped, Wrote;
    if actualLen == 0 {
      assert s == [];
      return 0;
    }
    if output.Length < ByteCount(actualLen) {
      return BUFFER_TOO_SMALL;
    }
    n := PutUrlDecoded(input[..actualLen], output);
  }

  /** The symbols before `i` are `v`, and none of them is padding. */
  ghost predicate UrlProgress(text: seq<bv8>, i: nat, v: seq<bv8>) {
    && i <= |text|
    && UrlValues(text) == Resume(v, UrlValues(text[i..]))
    && UrlPrefix(text) == v + UrlPrefix(text[i..])
  }

  lemma UrlStarts(text: seq<bv8>)
    ensures UrlProgress(text, 0, [])
  {
    assert text[0..] == text && [] + UrlPrefix(text) == UrlPrefix(text);
    ResumeNothing(UrlValues(text));
  }

  /** What the symbol at `i` does: go on, or end the text, well or not. */
  lemma UrlProgresses(text: seq<bv8>, i: nat, v: seq<bv8>)
    requires UrlProgress(text, i, v) && i < |text|
    ensures var value := DecodeSymbol(URL_SAFE, text[i]);
            if value == INVALID then UrlDecodeText(text) == None && UrlPrefix(text) == v
            else if value == PADDING then UrlDecodeText(text) == Some(ToBytes(v))
            else value < 64 && UrlProgress(text, i + 1, v + [value])
  {
    hide DecodeSymbol, UrlValues, UrlPrefix, Resume, ToBytes;
    var rest, value := text[i..], DecodeSymbol(URL_SAFE, text[i]);
    UrlNext(rest);
    PrefixNext(rest);
    SymbolRange(URL_SAFE, text[i]);
    if value == INVALID {
      ResumeFault(v);
      assert v + [] == v;
    } else if value == PADDING {
      ResumeEnd(v);
    } else {
      var tail := text[i + 1..];
      assert rest[1..] == tail;
      ResumeTwice(v, [value], UrlValues(tail));
      assert v + ([value] + UrlPrefix(tail)) == v + [value] + UrlPrefix(tail);
    }
  }

  lemma UrlFinished(text: seq<bv8>, v: seq<bv8>)
    requires UrlProgress(text, |text|, v)
    ensures UrlDecodeText(text) == Some(ToBytes(v))
  {
    assert text[|text|..] == [];
    UrlEmpty();
    ResumeEnd(v);
  }

  lemma RoomForASymbol(i: nat, n: nat)
    requires i < n
    ensures ByteCount(i + 1) <= ByteCount(n)
  {
  }

  /** The loop of the URL-safe decoder. */
  method PutUrlDecoded(text: seq<bv8>, output: array<bv8>) returns (n: int)
    requires ByteCount(|text|) <= output.Length
    modifies output
    ensures var decoded := UrlDecodeText(text);
            if decoded.None? then n == INVALID_INPUT && Wrote(old(output[..]), ToBytes(UrlPrefix(text)), output[..])
            else n == |decoded.value| && Wrote(old(output[..]), decoded.value, output[..])
  {
    hide *;
    ghost var before := output[..];
    var acc := Accumulator(0, 0, 0);
    ghost var v: seq<bv8> := [];
    acc.AtTheStart(before);
    UrlStarts(text);
    for i := 0 to |text|
      invariant |v| == i && acc.After(v) && UrlProgress(text, i, v)
      invariant Wrote(before, ToBytes(v), output[..])
    {
      UrlProgresses(text, i, v);
      var value := DecodeSymbol(URL_SAFE, text[i]);
      if value == INVALID {
        return INVALID_INPUT;
      }
      if value == PADDING {
        acc.AtTheEnd(v);
        return acc.outIdx;
      }
      RoomForASymbol(i, |text|);
      acc := Accumulate(acc, value, output, before, v);
      v := v + [value];
    }
    UrlFinished(text, v);
    acc.AtTheEnd(v);
    n := acc.outIdx;
  }

  /** What the encoders write is what the decoders take back, padded to any extent for the URL-safe pair. */
  lemma CodecRoundTrip(x: seq<bv8>, pads: nat)
    ensures DecodeText(TextFor(STANDARD, true, x)) == Some(x)
    ensures UrlDecodeText(TextFor(URL_SAFE, false, x) + Pads(pads)) == Some(x)
  {
    hide DecodeText, UrlDecodeText, Characters, ToSymbols;
    RoundTrip(x, pads);
    assert TextFor(STANDARD, true, x) == EncodeText(x);
    assert TextFor(URL_SAFE, false, x) == UrlEncodeText(x);
  }

  /** The lengths and the error codes, in numbers. */
  lemma CodesAndLengths(n: nat)
    ensures BUFFER_TOO_SMALL == -1 && NULL_POINTER == -2 && INVALID_INPUT == -3
    ensures EncodeLen(3 * n) == 4 * n && EncodeLen(3 * n + 1) == 4 * n + 4 == EncodeLen(3 * n + 2)
    ensures DecodeLen(4 * n) == 3 * n && ByteCount(4 * n + 2) == 3 * n + 1 && ByteCount(4 * n + 3) == 3 * n + 2
  {
  }
}
