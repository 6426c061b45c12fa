/**
 The language-specific data area of a frame: the byte cursor that reads it, and the search for
 the call site that covers an instruction pointer.  Words are 64 bits wide, as in a build with
 overflow checks: a sum or a shift that leaves 64 bits ends the program.  So does, in the model,
 a read outside `mem`, which is undefined in the original.  Both are the outcome `Fault`.
 */
module Lsda {
  import opened Options
  import opened LittleEndian

  // ---------------------------------------------------------------------------------------
  // Numbers: what the encodings are, and what the cursor reads
  // ---------------------------------------------------------------------------------------

  const OMIT: byte := 0xff

  /** What a read at some position yields: a value and the position after it, or a fault. */
  datatype Read<+T> = At(value: T, next: nat) | Fault

  /** The ULEB128 encoding of `n` (section 7.6 of DWARF 5). */
  function Uleb128(n: nat): (bs: seq<byte>)
    ensures |bs| > 0
  {
    if n < 0x80 then [n] else [n % 0x80 + 0x80] + Uleb128(n / 0x80)
  }

  /**
   The loop of the ULEB128 reader.  All of `result` lies below bit `shift`, so the original's
   bitwise or is a sum; a bit shifted beyond the word is dropped.
   */
  function ReadUlebFrom(mem: seq<byte>, p: nat, result: nat, shift: nat): (r: Read<nat>)
    ensures r.At? ==> p < r.next <= |mem| && r.value < U64_LIMIT
    decreases |mem| - p
  {
    if p >= |mem| || shift >= 64 then Fault
    else
      var result' := (result + mem[p] % 0x80 * Pow2(shift)) % U64_LIMIT;
      if mem[p] < 0x80 then At(result', p + 1)
      else ReadUlebFrom(mem, p + 1, result', shift + 7)
  }

  function ReadUleb(mem: seq<byte>, p: nat): (r: Read<nat>)
    ensures r.At? ==> p < r.next <= |mem| && r.value < U64_LIMIT
  {
    ReadUlebFrom(mem, p, 0, 0)
  }

  function ReadWord(mem: seq<byte>, p: nat, width: nat): (r: Read<nat>)
    ensures r.At? ==> r.next == p + width <= |mem|
  {
    if p + width > |mem| then Fault else At(Decode(mem[p..p + width]), p + width)
  }

  /** Bytes taken by a fixed-width encoding; 0 for the variable-width ones. */
  function Width(encoding: byte): nat {
    match encoding % 0x10
    case 0x00 => 8
    case 0x02 => 2
    case 0x03 => 4
    case 0x04 => 8
    case _ => 0
  }

  function ReadField(mem: seq<byte>, p: nat, encoding: byte): (r: Read<nat>)
    ensures r.At? ==> p <= r.next && (p <= |mem| ==> r.next <= |mem|)
  {
    if encoding == OMIT then At(0, p)
    else if Width(encoding) != 0 then ReadWord(mem, p, Width(encoding))
    else ReadUleb(mem, p)
  }

  /** The bytes a compiler emits for `n` under `encoding`. */
  function Field(encoding: byte, n: nat): seq<byte> {
    if encoding == OMIT then []
    else if Width(encoding) != 0 then Encode(n, Width(encoding))
    else Uleb128(n)
  }

  predicate Encodable(encoding: byte, n: nat) {
    if encoding == OMIT then n == 0
    else if Width(encoding) != 0 then n < Limit(Width(encoding))
    else n < U64_LIMIT
  }

  lemma SevenBits(shift: nat)
    ensures Pow2(shift + 7) == 0x80 * Pow2(shift)
  {
    assert Pow2(shift + 2) == 4 * Pow2(shift);
    assert Pow2(shift + 4) == 4 * Pow2(shift + 2);
    assert Pow2(shift + 6) == 4 * Pow2(shift + 4);
  }

  lemma {:induction false} TopPlace(shift: nat)
    requires 57 <= shift
    ensures Pow2(shift) >= 0x200_0000_0000_0000
  {
    if shift > 57 {
      TopPlace(shift - 1);
    } else {
      Bit56();
    }
  }

  lemma AtLeast(m: nat, n: nat, place: nat)
    requires m >= n
    ensures m * place >= n * place
  {
  }

  lemma Distribute(low: nat, high: nat, place: nat)
    ensures (low + high * 0x80) * place == low * place + high * (0x80 * place)
  {
  }

  /** Splitting off the low seven bits of what is still to be read. */
  lemma NextGroup(m: nat, shift: nat)
    requires m >= 0x80 && m * Pow2(shift) < U64_LIMIT
    ensures shift + 7 < 64
    ensures m * Pow2(shift) == m % 0x80 * Pow2(shift) + m / 0x80 * Pow2(shift + 7)
  {
    AtLeast(m, 0x80, Pow2(shift));
    if 57 <= shift {
      TopPlace(shift);
    }
    SevenBits(shift);
    Distribute(m % 0x80, m / 0x80, Pow2(shift));
  }

  lemma FirstByte(mem: seq<byte>, p: nat, m: nat)
    requires Holds(mem, p, Uleb128(m))
    ensures p < |mem| && mem[p] == if m < 0x80 then m else m % 0x80 + 0x80
    ensures m >= 0x80 ==> Holds(mem, p + 1, Uleb128(m / 0x80))
    ensures |Uleb128(m)| == if m < 0x80 then 1 else 1 + |Uleb128(m / 0x80)|
  {
    assert mem[p..p + |Uleb128(m)|][0] == mem[p];
    if m >= 0x80 {
      HoldsParts(mem, p, [m % 0x80 + 0x80], Uleb128(m / 0x80));
    }
  }

  lemma ReadUlebStep(mem: seq<byte>, p: nat, result: nat, shift: nat)
    requires p < |mem| && shift < 64
    requires result + mem[p] % 0x80 * Pow2(shift) < U64_LIMIT
    ensures ReadUlebFrom(mem, p, result, shift)
         == var result' := result + mem[p] % 0x80 * Pow2(shift);
            if mem[p] < 0x80 then At(result', p + 1) else ReadUlebFrom(mem, p + 1, result', shift + 7)
  {
    hide Pow2;
    var result' := result + mem[p] % 0x80 * Pow2(shift);
    NotBelowZero(mem[p] % 0x80, Pow2(shift));
    NoWrap(result');
  }

  lemma NotBelowZero(low: nat, place: nat)
    ensures low * place >= 0
  {
  }

  lemma NoWrap(n: nat)
    requires n < U64_LIMIT
    ensures n % U64_LIMIT == n
  {
  }

  lemma {:induction false} UlebInvertsFrom(mem: seq<byte>, p: nat, result: nat, shift: nat, m: nat)
    requires Holds(mem, p, Uleb128(m))
    requires result + m * Pow2(shift) < U64_LIMIT && shift < 64
    ensures ReadUlebFrom(mem, p, result, shift) == At(result + m * Pow2(shift), p + |Uleb128(m)|)
    decreases m
  {
    hide ReadUlebFrom, Uleb128, Holds, Pow2;
    FirstByte(mem, p, m);
    if m < 0x80 {
      ReadUlebStep(mem, p, result, shift);
    } else {
      NextGroup(m, shift);
      var low, high := m % 0x80 * Pow2(shift), m / 0x80 * Pow2(shift + 7);
      assert low >= 0 && high >= 0;
      assert mem[p] % 0x80 == m % 0x80;
      ReadUlebStep(mem, p, result, shift);
      UlebInvertsFrom(mem, p + 1, result + low, shift + 7, m / 0x80);
    }
  }

  /** Reading inverts writing for every 64-bit number, and stops exactly behind it. */
  lemma UlebInverts(mem: seq<byte>, p: nat, n: nat)
    requires Holds(mem, p, Uleb128(n)) && n < U64_LIMIT
    ensures ReadUleb(mem, p) == At(n, p + |Uleb128(n)|)
  {
    UlebInvertsFrom(mem, p, 0, 0, n);
  }

  lemma FieldInverts(mem: seq<byte>, p: nat, encoding: byte, n: nat)
    requires Holds(mem, p, Field(encoding, n)) && Encodable(encoding, n)
    ensures ReadField(mem, p, encoding) == At(n, p + |Field(encoding, n)|)
  {
    if encoding == OMIT {
    } else if Width(encoding) != 0 {
      DecodeEncode(n, Width(encoding));
    } else {
      UlebInverts(mem, p, n);
    }
  }

  // ---------------------------------------------------------------------------------------
  // The call-site search
  // ---------------------------------------------------------------------------------------

  /** A ULEB128 number in numbers: seven bits a byte, low-order first, the last byte below 128. */
  lemma UlebInNumbers(mem: seq<byte>, p: nat, a: nat, b: nat, c: nat)
    requires a < 0x80 && b < 0x80 && c < 0x80
    ensures Holds(mem, p, [a]) ==> ReadUleb(mem, p) == At(a, p + 1)
    ensures Holds(mem, p, [0x80 + a, b]) ==> ReadUleb(mem, p) == At(a + 0x80 * b, p + 2)
    ensures Holds(mem, p, [0x80 + a, 0x80 + b, c]) ==> ReadUleb(mem, p) == At(a + 0x80 * b + 0x4000 * c, p + 3)
  {
    OneGroup(mem, p, a);
    TwoGroups(mem, p, a, b);
    ThreeGroups(mem, p, a, b, c);
  }

  lemma FirstPlaces()
    ensures Pow2(0) == 1 && Pow2(7) == 0x80 && Pow2(14) == 0x4000
  {
    SevenBits(0);
    SevenBits(7);
  }

  lemma OneGroup(mem: seq<byte>, p: nat, a: nat)
    requires a < 0x80
    ensures Holds(mem, p, [a]) ==> ReadUleb(mem, p) == At(a, p + 1)
  {
    FirstPlaces();
    if Holds(mem, p, [a]) {
      assert mem[p] == mem[p..p + 1][0];
      ReadUlebStep(mem, p, 0, 0);
    }
  }

  lemma TwoGroups(mem: seq<byte>, p: nat, a: nat, b: nat)
    requires a < 0x80 && b < 0x80
    ensures Holds(mem, p, [0x80 + a, b]) ==> ReadUleb(mem, p) == At(a + 0x80 * b, p + 2)
  {
    FirstPlaces();
    hide Pow2, ReadUlebFrom;
    if Holds(mem, p, [0x80 + a, b]) {
      var bs := mem[p..p + 2];
      assert mem[p] == bs[0] && mem[p + 1] == bs[1];
      ReadUlebStep(mem, p, 0, 0);
      ReadUlebStep(mem, p + 1, a, 7);
    }
  }

  lemma ThreeGroups(mem: seq<byte>, p: nat, a: nat, b: nat, c: nat)
    requires a < 0x80 && b < 0x80 && c < 0x80
    ensures Holds(mem, p, [0x80 + a, 0x80 + b, c]) ==> ReadUleb(mem, p) == At(a + 0x80 * b + 0x4000 * c, p + 3)
  {
    FirstPlaces();
    hide Pow2, ReadUlebFrom;
    if Holds(mem, p, [0x80 + a, 0x80 + b, c]) {
      var bs := mem[p..p + 3];
      assert mem[p] == bs[0] && mem[p + 1] == bs[1] && mem[p + 2] == bs[2];
      ReadUlebStep(mem, p, 0, 0);
      ReadUlebStep(mem, p + 1, a, 7);
      ReadUlebStep(mem, p + 2, a + 0x80 * b, 14);
    }
  }

  /** What an encoding byte makes the cursor read, by its low four bits, and how far it moves. */
  lemma FieldByEncoding(mem: seq<byte>, p: nat, encoding: byte)
    ensures encoding == 0xff ==> ReadField(mem, p, encoding) == At(0, p)
    ensures encoding != 0xff ==>
              var width := match encoding % 16 case 0 => 8 case 2 => 2 case 3 => 4 case 4 => 8 case _ => 0;
              ReadField(mem, p, encoding) == (
                if width == 0 then ReadUleb(mem, p)
                else if p + width > |mem| then Fault
                else At(Decode(mem[p..p + width]), p + width))
  {
  }

  /** The numbers that an encoding byte can carry. */
  lemma EncodableIs(encoding: byte, n: nat)
    ensures Encodable(encoding, n) <==>
              if encoding == 0xff then n == 0
              else if encoding % 16 == 2 then n < 0x1_0000
              else if encoding % 16 == 3 then n < 0x1_0000_0000
              else n < 0x1_0000_0000_0000_0000
  {
    assert Limit(2) == 0x1_0000;
    assert Limit(4) == 0x1_0000_0000;
    assert Limit(8) == 0x1_0000_0000_0000_0000;
  }

  /** Bytes without a last one, and numbers of more than 64 bits, are faults. */
  lemma {:induction false} EndlessIsAFault(mem: seq<byte>, p: nat, result: nat, shift: nat)
    requires forall i :: p <= i < |mem| ==> mem[i] >= 0x80
    ensures ReadUlebFrom(mem, p, result, shift) == Fault
    decreases |mem| - p
  {
    hide Pow2;
    if p < |mem| && shift < 64 {
      EndlessIsAFault(mem, p + 1, (result + mem[p] % 0x80 * Pow2(shift)) % U64_LIMIT, shift + 7);
    }
  }

  lemma {:induction false} TenBytesAtMost(mem: seq<byte>, p: nat, result: nat, k: nat)
    requires k <= 10 && p + 10 - k <= |mem| && forall i :: p <= i < p + 10 - k ==> mem[i] >= 0x80
    ensures ReadUlebFrom(mem, p, result, 7 * k) == Fault
    decreases 10 - k
  {
    hide Pow2;
    if k < 10 {
      TenBytesAtMost(mem, p + 1, (result + mem[p] % 0x80 * Pow2(7 * k)) % U64_LIMIT, k + 1);
    }
  }

  /** What a frame does with an exception: the original's `LsdaResult`. */
  datatype Verdict = NoHandler | Cleanup(landingPad: nat) | Catch(landingPad: nat, selector: int)

  /** One record of the call-site table. */
  datatype CallSite = CallSite(start: nat, length: nat, pad: nat, action: nat)

  function ReadCallSite(mem: seq<byte>, p: nat, encoding: byte): (r: Read<CallSite>)
    ensures r.At? ==> p < r.next && (p <= |mem| ==> r.next <= |mem|)
  {
    var start := ReadField(mem, p, encoding);
    if start.Fault? then Fault else
    var length := ReadField(mem, start.next, encoding);
    if length.Fault? then Fault else
    var pad := ReadField(mem, length.next, encoding);
    if pad.Fault? then Fault else
    var action := ReadUleb(mem, pad.next);
    if action.Fault? then Fault else
    At(CallSite(start.value, length.value, pad.value, action.value), action.next)
  }

  /** The verdict of a record whose range holds the instruction pointer. */
  function SiteVerdict(site: CallSite, base: nat): Option<Verdict> {
    if site.pad == 0 then Some(NoHandler)
    else if base + site.pad >= U64_LIMIT then None
    else if site.action == 0 then Some(Cleanup(base + site.pad))
    else Some(Catch(base + site.pad, 1))
  }

  /** The search loop from position `p` on; `None` is a fault. */
  function SearchFrom(mem: seq<byte>, p: nat, end: nat, encoding: byte, base: nat, ip: nat): Option<Verdict>
    decreases end - p
  {
    if p >= end then Some(NoHandler)
    else
      var r := ReadCallSite(mem, p, encoding);
      if r.Fault? then None
      else if ip < r.value.start then SearchFrom(mem, r.next, end, encoding, base, ip)
      else if r.value.start + r.value.length >= U64_LIMIT then None
      else if ip < r.value.start + r.value.length then SiteVerdict(r.value, base)
      else SearchFrom(mem, r.next, end, encoding, base, ip)
  }

  /** Where in its function a frame is executing: one before the return address. */
  function RelativeIp(ip: nat, funcStart: nat): nat {
    if ip <= funcStart then 0 else ip - funcStart - 1
  }

  /** A header number that is present unless its encoding byte says otherwise. */
  function ReadOptional(mem: seq<byte>, p: nat, default: nat): (r: Read<nat>)
    ensures r.At? ==> p < r.next <= |mem|
  {
    if p >= |mem| then Fault
    else if mem[p] == OMIT then At(default, p + 1)
    else ReadUleb(mem, p + 1)
  }

  function FindHandler(mem: seq<byte>, ip: nat, funcStart: nat): Option<Verdict> {
    var base := ReadOptional(mem, 0, funcStart);
    if base.Fault? then None else
    var typeTable := ReadOptional(mem, base.next, 0);
    if typeTable.Fault? then None else
    if typeTable.next >= |mem| then None else
    var length := ReadUleb(mem, typeTable.next + 1);
    if length.Fault? then None else
    SearchFrom(mem, length.next, length.next + length.value, mem[typeTable.next], base.value,
               RelativeIp(ip, funcStart))
  }

  // ---------------------------------------------------------------------------------------
  // The same search on the table that the bytes stand for
  // ---------------------------------------------------------------------------------------

  /** What a compiler lays down for one function. */
  datatype Table = Table(
    baseEncoding: byte, base: nat,
    typeEncoding: byte, typeOffset: nat,
    siteEncoding: byte, sites: seq<CallSite>)

  ghost predicate WellFormed(t: Table) {
    && t.base < U64_LIMIT && t.typeOffset < U64_LIMIT
    && |SitesBytes(t.siteEncoding, t.sites)| < U64_LIMIT
    && forall i :: 0 <= i < |t.sites| ==> SiteWellFormed(t.siteEncoding, t.sites[i])
  }

  predicate SiteWellFormed(encoding: byte, site: CallSite) {
    && SiteEncodable(encoding, site)
    && site.start + site.length < U64_LIMIT
  }

  predicate SiteEncodable(encoding: byte, site: CallSite) {
    && Encodable(encoding, site.start) && Encodable(encoding, site.length) && Encodable(encoding, site.pad)
    && site.action < U64_LIMIT
  }

  function SiteBytes(encoding: byte, site: CallSite): seq<byte> {
    Field(encoding, site.start) + (Field(encoding, site.length) + (Field(encoding, site.pad) + Uleb128(site.action)))
  }

  function SitesBytes(encoding: byte, sites: seq<CallSite>): seq<byte> {
    if sites == [] then [] else SiteBytes(encoding, sites[0]) + SitesBytes(encoding, sites[1..])
  }

  function OptionalBytes(encoding: byte, n: nat): seq<byte> {
    if encoding == OMIT then [OMIT] else [encoding] + Uleb128(n)
  }

  function TableBytes(t: Table): seq<byte> {
    var sites := SitesBytes(t.siteEncoding, t.sites);
    OptionalBytes(t.baseEncoding, t.base)
    + (OptionalBytes(t.typeEncoding, t.typeOffset) + ([t.siteEncoding] + (Uleb128(|sites|) + sites)))
  }

  predicate Covers(site: CallSite, ip: nat) {
    site.start <= ip < site.start + site.length
  }

  /** Where landing pads are measured from. */
  function Base(t: Table, funcStart: nat): nat {
    if t.baseEncoding == OMIT then funcStart else t.base
  }

  /** The index of the first record that covers `ip`, or the number of records. */
  function FirstCovering(sites: seq<CallSite>, ip: nat): (k: nat)
    ensures k <= |sites|
    ensures forall i :: 0 <= i < k ==> !Covers(sites[i], ip)
    ensures k < |sites| ==> Covers(sites[k], ip)
  {
    if sites == [] || Covers(sites[0], ip) then 0 else 1 + FirstCovering(sites[1..], ip)
  }

  function Lookup(sites: seq<CallSite>, base: nat, ip: nat): Option<Verdict> {
    var k := FirstCovering(sites, ip);
    if k == |sites| then Some(NoHandler) else SiteVerdict(sites[k], base)
  }

  lemma CallSiteInverts(mem: seq<byte>, p: nat, encoding: byte, site: CallSite)
    requires Holds(mem, p, SiteBytes(encoding, site)) && SiteEncodable(encoding, site)
    ensures ReadCallSite(mem, p, encoding) == At(site, p + |SiteBytes(encoding, site)|)
  {
    hide Field, ReadField, Encodable, Uleb128, ReadUleb;
    var a, b, c := Field(encoding, site.start), Field(encoding, site.length), Field(encoding, site.pad);
    HoldsFour(mem, p, a, b, c, Uleb128(site.action));
    FieldInverts(mem, p, encoding, site.start);
    FieldInverts(mem, p + |a|, encoding, site.length);
    FieldInverts(mem, p + |a| + |b|, encoding, site.pad);
    UlebInverts(mem, p + |a| + |b| + |c|, site.action);
  }

  lemma SiteSum(encoding: byte, site: CallSite)
    requires SiteWellFormed(encoding, site)
    ensures site.start + site.length < U64_LIMIT
  {
  }

  lemma SearchStep(
      mem: seq<byte>, p: nat, end: nat, encoding: byte, base: nat, ip: nat, site: CallSite, next: nat)
    requires p < end && ReadCallSite(mem, p, encoding) == At(site, next)
    requires site.start + site.length < U64_LIMIT
    ensures SearchFrom(mem, p, end, encoding, base, ip)
         == if Covers(site, ip) then SiteVerdict(site, base) else SearchFrom(mem, next, end, encoding, base, ip)
  {
  }

  lemma LookupStep(sites: seq<CallSite>, base: nat, ip: nat)
    requires sites != []
    ensures Lookup(sites, base, ip)
         == if Covers(sites[0], ip) then SiteVerdict(sites[0], base) else Lookup(sites[1..], base, ip)
  {
  }

  lemma FirstRecord(mem: seq<byte>, p: nat, encoding: byte, sites: seq<CallSite>) returns (next: nat)
    requires sites != [] && Holds(mem, p, SitesBytes(encoding, sites)) && SiteWellFormed(encoding, sites[0])
    ensures p < next && ReadCallSite(mem, p, encoding) == At(sites[0], next)
    ensures Holds(mem, next, SitesBytes(encoding, sites[1..]))
    ensures next + |SitesBytes(encoding, sites[1..])| == p + |SitesBytes(encoding, sites)|
  {
    hide SiteBytes, ReadCallSite, Encodable;
    var site, rest := SiteBytes(encoding, sites[0]), SitesBytes(encoding, sites[1..]);
    HoldsParts(mem, p, site, rest);
    CallSiteInverts(mem, p, encoding, sites[0]);
    next := p + |site|;
  }

  /**
   The search started on a record boundary answers for the records that remain: it moves from
   boundary to boundary and never into the middle of a record.
   */
  lemma {:induction false} SearchRefinesLookup(
      mem: seq<byte>, p: nat, encoding: byte, sites: seq<CallSite>, base: nat, ip: nat)
    requires Holds(mem, p, SitesBytes(encoding, sites))
    requires forall i :: 0 <= i < |sites| ==> SiteWellFormed(encoding, sites[i])
    ensures SearchFrom(mem, p, p + |SitesBytes(encoding, sites)|, encoding, base, ip) == Lookup(sites, base, ip)
    decreases |sites|
  {
    hide SiteBytes, Field, SiteVerdict, ReadCallSite, SiteWellFormed;
    if sites == [] {
    } else {
      assert SiteWellFormed(encoding, sites[0]);
      SiteSum(encoding, sites[0]);
      var next := FirstRecord(mem, p, encoding, sites);
      SearchStep(mem, p, p + |SitesBytes(encoding, sites)|, encoding, base, ip, sites[0], next);
      LookupStep(sites, base, ip);
      SearchRefinesLookup(mem, next, encoding, sites[1..], base, ip);
    }
  }

  lemma OptionalInverts(mem: seq<byte>, p: nat, encoding: byte, n: nat, default: nat)
    requires Holds(mem, p, OptionalBytes(encoding, n)) && n < U64_LIMIT
    ensures ReadOptional(mem, p, default)
         == At(if encoding == OMIT then default else n, p + |OptionalBytes(encoding, n)|)
  {
    assert mem[p] == mem[p..p + |OptionalBytes(encoding, n)|][0] == encoding;
    if encoding != OMIT {
      HoldsParts(mem, p, [encoding], Uleb128(n));
      UlebInverts(mem, p + 1, n);
    }
  }

  /**
   For every table in every encoding and whatever bytes follow it, parsing the bytes gives the
   verdict of the first record that covers the instruction pointer.
   */
  lemma ParserRefinesLookup(t: Table, after: seq<byte>, ip: nat, funcStart: nat)
    requires WellFormed(t)
    ensures FindHandler(TableBytes(t) + after, ip, funcStart)
         == Lookup(t.sites, Base(t, funcStart), RelativeIp(ip, funcStart))
  {
    hide TableBytes, SitesBytes, SearchFrom, Lookup, ReadUleb, ReadOptional, SiteWellFormed, RelativeIp;
    var mem := TableBytes(t) + after;
    var p := HeaderInverts(t, mem, funcStart);
    SearchRefinesLookup(mem, p, t.siteEncoding, t.sites, Base(t, funcStart), RelativeIp(ip, funcStart));
  }

  /**
   The same in numbers.  `at` is where the frame executes in its function, one before the return address;
   the first record whose range holds it decides, and its landing pad lies at the declared base, or at
   the start of the function, plus its offset.  A pad beyond 64 bits is a fault.
   */
  lemma VerdictInNumbers(t: Table, after: seq<byte>, ip: nat, funcStart: nat, k: nat)
    requires WellFormed(t) && k < |t.sites|
    requires var at := if ip > funcStart then ip - funcStart - 1 else 0;
             && t.sites[k].start <= at < t.sites[k].start + t.sites[k].length
             && forall i :: 0 <= i < k ==> !(t.sites[i].start <= at < t.sites[i].start + t.sites[i].length)
    ensures var site := t.sites[k];
            var p := (if t.baseEncoding == 0xff then funcStart else t.base) + site.pad;
            FindHandler(TableBytes(t) + after, ip, funcStart) == (
              if site.pad == 0 then Some(NoHandler)
              else if p >= 0x1_0000_0000_0000_0000 then None
              else if site.action == 0 then Some(Cleanup(p))
              else Some(Catch(p, 1)))
  {
    hide FindHandler, TableBytes, WellFormed;
    ParserRefinesLookup(t, after, ip, funcStart);
    FirstIs(t.sites, RelativeIp(ip, funcStart), k);
  }

  lemma FirstIs(sites: seq<CallSite>, ip: nat, k: nat)
    requires k <= |sites| && (forall i :: 0 <= i < k ==> !Covers(sites[i], ip)) && (k < |sites| ==> Covers(sites[k], ip))
    ensures FirstCovering(sites, ip) == k
  {
    hide Covers, FirstCovering;
    var f := FirstCovering(sites, ip);
    assert !(f < k) && !(k < f);
  }

  /** And where no record holds it, there is no handler. */
  lemma NoVerdictInNumbers(t: Table, after: seq<byte>, ip: nat, funcStart: nat)
    requires WellFormed(t)
    requires var at := if ip > funcStart then ip - funcStart - 1 else 0;
             forall i :: 0 <= i < |t.sites| ==> !(t.sites[i].start <= at < t.sites[i].start + t.sites[i].length)
    ensures FindHandler(TableBytes(t) + after, ip, funcStart) == Some(NoHandler)
  {
    hide FindHandler, TableBytes, WellFormed;
    ParserRefinesLookup(t, after, ip, funcStart);
    FirstIs(t.sites, RelativeIp(ip, funcStart), |t.sites|);
  }

  /** A record whose range would end past 2^64 has no end to compare with: reaching one with a pointer behind its start faults. */
  lemma RangeBeyondTheWord(mem: seq<byte>, p: nat, end: nat, encoding: byte, site: CallSite, base: nat, ip: nat)
    requires Holds(mem, p, SiteBytes(encoding, site)) && SiteEncodable(encoding, site) && p < end
    requires site.start + site.length >= 0x1_0000_0000_0000_0000
    ensures SearchFrom(mem, p, end, encoding, base, ip)
         == if site.start <= ip then None else SearchFrom(mem, p + |SiteBytes(encoding, site)|, end, encoding, base, ip)
  {
    hide ReadCallSite, SiteBytes, SiteVerdict, Encodable;
    CallSiteInverts(mem, p, encoding, site);
  }

  lemma HeaderInverts(t: Table, mem: seq<byte>, funcStart: nat) returns (p: nat)
    requires WellFormed(t) && TableBytes(t) <= mem
    ensures Holds(mem, p, SitesBytes(t.siteEncoding, t.sites))
    ensures var base := ReadOptional(mem, 0, funcStart);
            base.At? && base.value == Base(t, funcStart) &&
            var typeTable := ReadOptional(mem, base.next, 0);
            typeTable.At? && typeTable.next < |mem| && mem[typeTable.next] == t.siteEncoding &&
            ReadUleb(mem, typeTable.next + 1) == At(|SitesBytes(t.siteEncoding, t.sites)|, p)
  {
    hide ReadUleb, ReadOptional, Uleb128, OptionalBytes, SitesBytes, SiteWellFormed;
    var sites := SitesBytes(t.siteEncoding, t.sites);
    var a, b := OptionalBytes(t.baseEncoding, t.base), OptionalBytes(t.typeEncoding, t.typeOffset);
    var l := Uleb128(|sites|);
    HoldsFour(mem, 0, a, b, [t.siteEncoding], l + sites);
    HoldsParts(mem, |a| + |b| + 1, l, sites);
    OptionalInverts(mem, 0, t.baseEncoding, t.base, funcStart);
    OptionalInverts(mem, |a|, t.typeEncoding, t.typeOffset, 0);
    UlebInverts(mem, |a| + |b| + 1, |sites|);
    assert mem[|a| + |b|] == mem[|a| + |b|..|a| + |b| + 1][0] == t.siteEncoding;
    p := |a| + |b| + 1 + |l|;
  }

  // ---------------------------------------------------------------------------------------
  // The cursor as the runtime has it
  // ---------------------------------------------------------------------------------------

  /** The cursor's new position and answer, given what a read was specified to yield. */
  ghost predicate Moved<T>(spec: Read<T>, answer: Option<T>, ptr: nat) {
    match spec
    case At(value, next) => answer == Some(value) && ptr == next
    case Fault => answer == None
  }

  class LsdaReader {
    const mem: seq<byte>
    var ptr: nat

    constructor (mem: seq<byte>)
      ensures this.mem == mem && ptr == 0
    {
      this.mem := mem;
      ptr := 0;
    }

    method ReadU8() returns (r: Option<byte>)
      modifies this`ptr
      ensures old(ptr) < |mem| ==> r == Some(mem[old(ptr)]) && ptr == old(ptr) + 1
      ensures old(ptr) >= |mem| ==> r == None
    {
      if ptr >= |mem| {
        return None;
      }
      r := Some(mem[ptr]);
      ptr := ptr + 1;
    }

    method ReadUleb128() returns (r: Option<nat>)
      modifies this`ptr
      ensures Moved(ReadUleb(mem, old(ptr)), r, ptr)
    {
      var result: nat := 0;
      var shift: nat := 0;
      while true
        invariant ReadUlebFrom(mem, ptr, result, shift) == ReadUleb(mem, old(ptr))
        decreases |mem| - ptr
      {
        var next := ReadU8();
        if next.None? || shift >= 64 {
          return None;
        }
        result := (result + next.value % 0x80 * Pow2(shift)) % U64_LIMIT;
        if next.value < 0x80 {
          return Some(result);
        }
        shift := shift + 7;
      }
    }

    method ReadFixed(width: nat) returns (r: Option<nat>)
      modifies this`ptr
      ensures Moved(ReadWord(mem, old(ptr), width), r, ptr)
    {
      if ptr + width > |mem| {
        return None;
      }
      r := Some(Decode(mem[ptr..ptr + width]));
      ptr := ptr + width;
    }

    method ReadEncoded(encoding: byte) returns (r: Option<nat>)
      modifies this`ptr
      ensures Moved(ReadField(mem, old(ptr), encoding), r, ptr)
    {
      if encoding == OMIT {
        return Some(0);
      }
      match encoding % 0x10
      case 0x00 => r := ReadFixed(8);
      case 0x02 => r := ReadFixed(2);
      case 0x03 => r := ReadFixed(4);
      case 0x04 => r := ReadFixed(8);
      case _ => r := ReadUleb128();
    }

    method ReadHeaderNumber(default: nat) returns (r: Option<nat>)
      modifies this`ptr
      ensures Moved(ReadOptional(mem, old(ptr), default), r, ptr)
    {
      var encoding := ReadU8();
      if encoding.None? {
        return None;
      }
      if encoding.value == OMIT {
        return Some(default);
      }
      r := ReadUleb128();
    }

    method ReadSite(encoding: byte) returns (r: Option<CallSite>)
      modifies this`ptr
      ensures Moved(ReadCallSite(mem, old(ptr), encoding), r, ptr)
    {
      var start := ReadEncoded(encoding);
      if start.None? {
        return None;
      }
      var length := ReadEncoded(encoding);
      if length.None? {
        return None;
      }
      var pad := ReadEncoded(encoding);
      if pad.None? {
        return None;
      }
      var action := ReadUleb128();
      if action.None? {
        return None;
      }
      r := Some(CallSite(start.value, length.value, pad.value, action.value));
    }
  }

  /** The parser; by its contract and the lemma above it refines the table lookup. */
  method ParseLsda(lsda: seq<byte>, ip: nat, funcStart: nat) returns (verdict: Option<Verdict>)
    ensures verdict == FindHandler(lsda, ip, funcStart)
  {
    hide ReadOptional, ReadUleb, ReadCallSite, RelativeIp;
    var reader := new LsdaReader(lsda);
    var base := reader.ReadHeaderNumber(funcStart);
    if base.None? {
      return None;
    }
    var typeTable := reader.ReadHeaderNumber(0);
    if typeTable.None? {
      return None;
    }
    var encoding := reader.ReadU8();
    if encoding.None? {
      return None;
    }
    var length := reader.ReadUleb128();
    if length.None? {
      return None;
    }
    var end := reader.ptr + length.value;
    var relativeIp := RelativeIp(ip, funcStart);
    ghost var first := reader.ptr;
    while reader.ptr < end
      invariant SearchFrom(lsda, reader.ptr, end, encoding.value, base.value, relativeIp)
             == SearchFrom(lsda, first, end, encoding.value, base.value, relativeIp)
      invariant reader.mem == lsda && fresh(reader)
      decreases end - reader.ptr
    {
      var site := reader.ReadSite(encoding.value);
      if site.None? {
        return None;
      }
      var CallSite(start, size, pad, action) := site.value;
      if relativeIp >= start {
        if start + size >= U64_LIMIT {
          return None;
        }
        if relativeIp < start + size {
          if pad == 0 {
            return Some(NoHandler);
          }
          if base.value + pad >= U64_LIMIT {
            return None;
          }
          if action == 0 {
            return Some(Cleanup(base.value + pad));
          }
          return Some(Catch(base.value + pad, 1));
        }
      }
    }
    verdict := Some(NoHandler);
  }
}
