/** Text operations of the standard library that the other modules rely on, for ASCII text. */
module Text {
  import opened Options

  predicate IsSpace(c: char) {
    9 <= c as int <= 13 || c == ' '
  }

  function TrimStart(s: string): (t: string)
    ensures |t| <= |s|
    ensures t != "" ==> !IsSpace(t[0])
  {
    if s != "" && IsSpace(s[0]) then TrimStart(s[1..]) else s
  }

  function TrimEnd(s: string): (t: string)
    ensures |t| <= |s| && t == s[..|t|]
    ensures t != "" ==> !IsSpace(t[|t| - 1])
  {
    if s != "" && IsSpace(s[|s| - 1]) then TrimEnd(s[..|s| - 1]) else s
  }

  function Trim(s: string): string {
    TrimEnd(TrimStart(s))
  }

  /** Nothing to trim. */
  predicate Trimmed(s: string) {
    s == "" || (!IsSpace(s[0]) && !IsSpace(s[|s| - 1]))
  }

  predicate Blank(s: string) {
    forall i :: 0 <= i < |s| ==> IsSpace(s[i])
  }

  lemma {:induction false} TrimStartSkips(blank: string, s: string)
    requires Blank(blank) && Trimmed(s)
    ensures TrimStart(blank + s) == s
    decreases |blank|
  {
    if blank == "" {
      assert blank + s == s;
    } else {
      assert (blank + s)[1..] == blank[1..] + s;
      TrimStartSkips(blank[1..], s);
    }
  }

  lemma {:induction false} TrimEndSkips(s: string, blank: string)
    requires Blank(blank) && (s == "" || !IsSpace(s[|s| - 1]))
    ensures TrimEnd(s + blank) == s
    decreases |blank|
  {
    if blank == "" {
      assert s + blank == s;
    } else {
      assert (s + blank)[..|s + blank| - 1] == s + blank[..|blank| - 1];
      TrimEndSkips(s, blank[..|blank| - 1]);
    }
  }

  lemma TrimTakesBlanks(s: string, blank: string)
    requires Trimmed(s) && Blank(blank)
    ensures Trim(s + blank) == s && Trim(blank + s) == s
  {
    if s == "" {
      assert s + blank == blank + "" == blank + s;
      TrimStartSkips(blank, "");
    } else {
      assert TrimStart(s + blank) == s + blank;
      TrimStartSkips(blank, s);
      assert s + "" == s;
      TrimEndSkips(s, "");
    }
    TrimEndSkips(s, blank);
  }

  /** The position of the first `c`, or the length if there is none. */
  function Find(s: string, c: char): (k: nat)
    ensures k <= |s| && c !in s[..k]
    ensures k < |s| ==> s[k] == c
  {
    if s == "" || s[0] == c then 0
    else
      var k := 1 + Find(s[1..], c);
      assert s[..k] == [s[0]] + s[1..][..k - 1];
      k
  }

  lemma {:induction false} FindAfter(a: string, c: char, b: string)
    requires c !in a
    ensures Find(a + [c] + b, c) == |a|
    decreases |a|
  {
    if a == "" {
      assert a + [c] + b == [c] + b;
    } else {
      assert (a + [c] + b)[1..] == a[1..] + [c] + b;
      FindAfter(a[1..], c, b);
    }
  }

  lemma {:induction false} FindNone(a: string, c: char)
    requires c !in a
    ensures Find(a, c) == |a|
    decreases |a|
  {
    if a != "" {
      FindNone(a[1..], c);
    }
  }

  function LowerChar(c: char): char {
    if 'A' <= c <= 'Z' then (c as int + 32) as char else c
  }

  predicate EqualIgnoringCase(a: string, b: string) {
    |a| == |b| && forall i :: 0 <= i < |a| ==> LowerChar(a[i]) == LowerChar(b[i])
  }

  // ---------------------------------------------------------------------------------------
  // Numbers
  // ---------------------------------------------------------------------------------------

  function DigitValue(c: char): nat {
    if '0' <= c <= '9' then c as int - '0' as int
    else if 'a' <= c <= 'z' then c as int - 'a' as int + 10
    else if 'A' <= c <= 'Z' then c as int - 'A' as int + 10
    else 36
  }

  function Shift(n: nat, radix: nat): nat {
    n * radix
  }

  /** The number that a non-empty string of digits stands for. */
  function ParseDigits(s: string, radix: nat): Option<nat>
    requires 2 <= radix <= 36
  {
    if s == "" || DigitValue(s[|s| - 1]) >= radix then None
    else if |s| == 1 then Some(DigitValue(s[0]))
    else
      var high := ParseDigits(s[..|s| - 1], radix);
      if high.None? then None else Some(Shift(high.value, radix) + DigitValue(s[|s| - 1]))
  }

  /** Unsigned 64-bit parsing: an optional '+', digits, no overflow. */
  function ParseUsize(s: string, radix: nat): (r: Option<nat>)
    requires 2 <= radix <= 36
    ensures r.Some? ==> r.value < 0x1_0000_0000_0000_0000
  {
    var n := ParseDigits(if s != "" && s[0] == '+' then s[1..] else s, radix);
    if n.Some? && n.value < 0x1_0000_0000_0000_0000 then n else None
  }

  function Negative(n: nat): int {
    0 - n
  }

  /** Signed 32-bit parsing. */
  function ParseI32(s: string): Option<int> {
    if s != "" && s[0] == '-' then
      var n := ParseDigits(s[1..], 10);
      if n.Some? && n.value <= 0x8000_0000 then Some(Negative(n.value)) else None
    else
      var n := ParseDigits(if s != "" && s[0] == '+' then s[1..] else s, 10);
      if n.Some? && n.value < 0x8000_0000 then Some(n.value) else None
  }

  function DigitChar(d: nat): char
    requires d < 36
  {
    if d < 10 then (d + '0' as int) as char else (d - 10 + 'a' as int) as char
  }

  /** The shortest numeral for `n`, in lower case. */
  function Numeral(n: nat, radix: nat): (s: string)
    requires 2 <= radix <= 36
    ensures s != ""
  {
    if n < radix then [DigitChar(n)] else Numeral(Quotient(n, radix), radix) + [DigitChar(Remainder(n, radix))]
  }

  function Quotient(n: nat, radix: nat): (q: nat)
    requires radix >= 2
    ensures n > 0 ==> q < n
  {
    Halved(n, radix);
    n / radix
  }

  lemma Halved(n: nat, radix: nat)
    requires radix >= 2
    ensures 2 * (n / radix) <= n
  {
    var q := n / radix;
    assert q * radix + n % radix == n;
    AtLeastTwice(q, radix);
  }

  lemma AtLeastTwice(q: nat, radix: nat)
    requires radix >= 2
    ensures 2 * q <= q * radix
  {
  }

  function Remainder(n: nat, radix: nat): (r: nat)
    requires radix >= 2
    ensures r < radix
  {
    n % radix
  }

  lemma DigitCharacters(d: nat)
    requires d < 36
    ensures DigitValue(DigitChar(d)) == d && DigitChar(d) != '+' && DigitChar(d) != '-'
    ensures DigitChar(d) as int < 128 && !IsSpace(DigitChar(d))
  {
  }

  lemma {:induction false} NumeralParses(n: nat, radix: nat)
    requires 2 <= radix <= 36
    ensures ParseDigits(Numeral(n, radix), radix) == Some(n)
  {
    hide DigitChar, DigitValue, Shift, Quotient, Remainder;
    DigitCharacters(Remainder(n, radix));
    if n < radix {
      DigitCharacters(n);
    } else {
      var q := Quotient(n, radix);
      NumeralParses(q, radix);
      assert Numeral(n, radix)[..|Numeral(n, radix)| - 1] == Numeral(q, radix);
      Recompose(n, radix);
    }
  }

  lemma Recompose(n: nat, radix: nat)
    requires radix >= 2
    ensures Shift(Quotient(n, radix), radix) + Remainder(n, radix) == n
  {
  }

  /** Numerals are made of digits: no sign, no blank. */
  lemma {:induction false} NumeralIsPlain(n: nat, radix: nat)
    requires 2 <= radix <= 36
    ensures Numeral(n, radix)[0] != '+' && Numeral(n, radix)[0] != '-'
    ensures forall i :: 0 <= i < |Numeral(n, radix)| ==>
              Numeral(n, radix)[i] as int < 128 && !IsSpace(Numeral(n, radix)[i])
  {
    hide DigitChar, IsSpace, Quotient, Remainder;
    DigitCharacters(Remainder(n, radix));
    if n < radix {
      DigitCharacters(n);
    } else {
      NumeralIsPlain(Quotient(n, radix), radix);
    }
  }

  /** Numerals below 2^64 are read back as what they stand for. */
  lemma NumeralIsUsize(n: nat, radix: nat)
    requires 2 <= radix <= 36 && n < 0x1_0000_0000_0000_0000
    ensures ParseUsize(Numeral(n, radix), radix) == Some(n)
  {
    NumeralParses(n, radix);
    NumeralIsPlain(n, radix);
  }

  /** And no others: a larger number is out of range, and a sign is taken once. */
  lemma UsizeRange(n: nat, radix: nat)
    requires 2 <= radix <= 36
    ensures n >= 0x1_0000_0000_0000_0000 ==> ParseUsize(Numeral(n, radix), radix) == None
    ensures n < 0x1_0000_0000_0000_0000 ==> ParseUsize("+" + Numeral(n, radix), radix) == Some(n)
    ensures ParseUsize("-" + Numeral(n, radix), radix) == None && ParseUsize("", radix) == None
  {
    NumeralParses(n, radix);
    NumeralIsPlain(n, radix);
    SignIsNoDigit("-", Numeral(n, radix), radix);
    assert ("+" + Numeral(n, radix))[1..] == Numeral(n, radix);
    hide Numeral;
  }

  lemma {:induction false} SignIsNoDigit(sign: string, s: string, radix: nat)
    requires |sign| == 1 && DigitValue(sign[0]) >= radix && 2 <= radix <= 36
    ensures ParseDigits(sign + s, radix) == None
    decreases |s|
  {
    hide DigitValue;
    if s == "" {
      assert sign + s == sign;
    } else {
      assert (sign + s)[..|s|] == sign + s[..|s| - 1];
      SignIsNoDigit(sign, s[..|s| - 1], radix);
    }
  }

  /** The decimal numerals of 32-bit numbers are read back, with a minus for the negative ones; no others are. */
  lemma NumeralIsI32(n: nat, minus: int)
    requires minus == 0 - n
    ensures ParseI32(Numeral(n, 10)) == if n < 0x8000_0000 then Some(n) else None
    ensures ParseI32("+" + Numeral(n, 10)) == if n < 0x8000_0000 then Some(n) else None
    ensures ParseI32("-" + Numeral(n, 10)) == if n <= 0x8000_0000 then Some(minus) else None
  {
    hide *;
    PlainIsI32(n);
    PlusIsI32(n);
    MinusIsI32(n, minus);
  }

  lemma PlainIsI32(n: nat)
    ensures ParseI32(Numeral(n, 10)) == if n < 0x8000_0000 then Some(n) else None
  {
    hide Numeral, ParseDigits;
    NumeralParses(n, 10);
    NumeralIsPlain(n, 10);
  }

  lemma PlusIsI32(n: nat)
    ensures ParseI32("+" + Numeral(n, 10)) == if n < 0x8000_0000 then Some(n) else None
  {
    hide Numeral, ParseDigits;
    NumeralParses(n, 10);
    assert ("+" + Numeral(n, 10))[1..] == Numeral(n, 10);
  }

  lemma MinusIsI32(n: nat, minus: int)
    requires minus == 0 - n
    ensures ParseI32("-" + Numeral(n, 10)) == if n <= 0x8000_0000 then Some(minus) else None
  {
    hide Numeral, ParseDigits;
    NumeralParses(n, 10);
    assert ("-" + Numeral(n, 10))[1..] == Numeral(n, 10);
  }

  /** Numerals in the usual characters: a digit alone, and a digit more behind a numeral. */
  lemma NumeralsInCharacters(n: nat, d: nat, radix: nat)
    requires radix in {10, 16} && d < radix
    ensures Numeral(d, radix) == [(if d < 10 then 48 + d else 87 + d) as char]
    ensures n > 0 ==> Numeral(n * radix + d, radix) == Numeral(n, radix) + Numeral(d, radix)
  {
    Divides(n, d, radix);
    hide DigitChar, Quotient, Remainder;
    assert Numeral(d, radix) == [DigitChar(d)];
    DigitCode(d);
  }

  lemma DigitCode(d: nat)
    requires d < 16
    ensures DigitChar(d) == (if d < 10 then 48 + d else 87 + d) as char
  {
  }

  lemma Divides(n: nat, d: nat, radix: nat)
    requires radix in {10, 16} && d < radix
    ensures Quotient(n * radix + d, radix) == n && Remainder(n * radix + d, radix) == d && (n > 0 ==> n * radix + d >= radix)
  {
    assert radix == 10 || radix == 16;
  }

  /** Hexadecimal digits count in either case, and nothing else does. */
  lemma HexDigits(c: char)
    ensures DigitValue(c) < 16 <==> '0' <= c <= '9' || 'a' <= c <= 'f' || 'A' <= c <= 'F'
    ensures DigitValue(c) < 10 ==> c as int == 48 + DigitValue(c)
    ensures 10 <= DigitValue(c) < 16 ==> c as int == 87 + DigitValue(c) || c as int == 55 + DigitValue(c)
  {
  }

  /** What is trimmed: blank, tab, newline, vertical tab, form feed and carriage return. */
  lemma SpacesAre(c: char)
    ensures IsSpace(c) <==> c as int in {32, 9, 10, 11, 12, 13}
  {
  }

  /** The letters of a case-insensitive comparison: A to Z count as a to z, all others as themselves. */
  lemma CasesAre(c: char, d: char)
    ensures EqualIgnoringCase([c], [d])
       <==> c == d || (65 <= c as int <= 90 && d as int == c as int + 32) || (65 <= d as int <= 90 && c as int == d as int + 32)
  {
    var a, b := [c], [d];
    assert a[0] == c && b[0] == d;
  }
}
