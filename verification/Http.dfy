/**
 Reading HTTP/1.1 responses off a connection (sections 6 and 7 of RFC 9112).  The connection is
 the string of bytes still to come, each byte a character below 256; the functions return what
 they leave of it.  A head line with a byte above 127 is an error here.
 */
module Http {
  import opened Options
  import opened Text

  datatype Error = InvalidStatusLine | InvalidStatusCode | InvalidChunkSize | UnexpectedEof | NotText

  datatype Result<+T> = Ok(value: T) | Err(error: Error)

  /** A result, and the bytes left on the connection. */
  datatype Read<+T> = Read(result: Result<T>, rest: string)

  datatype Header = Header(name: string, value: string)

  datatype Response = Response(status: int, text: string, headers: seq<Header>, body: string)

  const CONTENT_LENGTH := "content-length"
  const TRANSFER_ENCODING := "transfer-encoding"
  const CHUNKED := "chunked"
  const CRLF := "\r\n"

  // ---------------------------------------------------------------------------------------
  // The buffered reader
  // ---------------------------------------------------------------------------------------

  predicate IsAscii(s: string) {
    forall i :: 0 <= i < |s| ==> s[i] as int < 128
  }

  /** The length of the first line with its newline, or of all there is. */
  function LineLength(s: string): (n: nat)
    ensures n <= |s| && (s != "" ==> n > 0)
  {
    var k := Find(s, '\n');
    if k < |s| then k + 1 else k
  }

  function ReadLine(s: string): (r: Read<string>)
    ensures |r.rest| <= |s| && (s != "" ==> |r.rest| < |s|)
  {
    var line := s[..LineLength(s)];
    Read(if IsAscii(line) then Ok(line) else Err(NotText), s[LineLength(s)..])
  }

  function ReadExact(s: string, n: nat): (r: Read<string>)
    ensures |r.rest| <= |s|
  {
    if n <= |s| then Read(Ok(s[..n]), s[n..]) else Read(Err(UnexpectedEof), "")
  }

  /** Behind the last byte there is an empty line, and that is no chunk size. */
  lemma ChunksShrink(s: string)
    ensures s == "" ==> var line := ReadLine(s);
                        line.result.Ok? && ParseUsize(Trim(line.result.value), 16).None?
  {
  }

  lemma HeadersShrink(s: string)
    ensures s == "" ==> var line := ReadLine(s); line.result.Ok? && Trim(line.result.value) == ""
  {
  }

  // ---------------------------------------------------------------------------------------
  // The head of a response
  // ---------------------------------------------------------------------------------------

  /** Status code and text of a trimmed status line. */
  function ParseStatusLine(line: string): Result<(int, string)> {
    var a := Find(line, ' ');
    if a == |line| then Err(InvalidStatusLine)
    else
      var tail := line[a + 1..];
      var b := Find(tail, ' ');
      var code := ParseI32(tail[..b]);
      if code.None? then Err(InvalidStatusCode)
      else Ok((code.value, if b < |tail| then tail[b + 1..] else ""))
  }

  /** The headers so far, and how they frame the body. */
  datatype Head = Head(headers: seq<Header>, contentLength: Option<nat>, chunked: bool)

  const NO_HEADERS := Head([], None, false)

  /** A header changes the framing when it is a Content-Length or a chunked Transfer-Encoding. */
  function AddHeader(head: Head, h: Header): Head {
    var more := head.(headers := head.headers + [h]);
    if EqualIgnoringCase(h.name, CONTENT_LENGTH) then more.(contentLength := ParseUsize(h.value, 10))
    else if EqualIgnoringCase(h.name, TRANSFER_ENCODING) && EqualIgnoringCase(h.value, CHUNKED)
    then more.(chunked := true)
    else more
  }

  /** A trimmed, non-empty header line; without a colon it is ignored. */
  function AddLine(head: Head, line: string): Head {
    var k := Find(line, ':');
    if k == |line| then head else AddHeader(head, Header(Trim(line[..k]), Trim(line[k + 1..])))
  }

  function ReadHeaders(s: string, head: Head): (r: Read<Head>)
    ensures |r.rest| <= |s|
    decreases |s|
  {
    HeadersShrink(s);
    hide ReadLine, Trim, AddLine;
    var line := ReadLine(s);
    if line.result.Err? then Read(Err(line.result.error), line.rest)
    else
      var text := Trim(line.result.value);
      if text == "" then Read(Ok(head), line.rest)
      else ReadHeaders(line.rest, AddLine(head, text))
  }

  // ---------------------------------------------------------------------------------------
  // The body
  // ---------------------------------------------------------------------------------------

  /** The chunks from here on, behind the `body` read so far. */
  function ReadChunks(s: string, body: string): (r: Read<string>)
    decreases |s|
  {
    ChunksShrink(s);
    hide ReadLine, ReadExact, ParseUsize, Trim;
    var line := ReadLine(s);
    if line.result.Err? then Read(Err(line.result.error), line.rest)
    else
      var size := ParseUsize(Trim(line.result.value), 16);
      if size.None? then Read(Err(InvalidChunkSize), line.rest)
      else if size.value == 0 then Read(Ok(body), ReadLine(line.rest).rest)
      else
        var chunk := ReadExact(line.rest, size.value);
        if chunk.result.Err? then Read(Err(chunk.result.error), chunk.rest)
        else ReadChunks(ReadExact(chunk.rest, 2).rest, body + chunk.result.value)
  }

  function ReadBody(s: string, status: int, head: Head): Read<string> {
    if head.chunked then ReadChunks(s, "")
    else if head.contentLength.Some? then ReadExact(s, head.contentLength.value)
    else if status == 204 || status == 304 then Read(Ok(""), s)
    else Read(Ok(s), "")
  }

  function ReadResponse(s: string): Read<Response> {
    var line := ReadLine(s);
    if line.result.Err? then Read(Err(line.result.error), line.rest) else
    var status := ParseStatusLine(Trim(line.result.value));
    if status.Err? then Read(Err(status.error), line.rest) else
    var head := ReadHeaders(line.rest, NO_HEADERS);
    if head.result.Err? then Read(Err(head.result.error), head.rest) else
    var body := ReadBody(head.rest, status.value.0, head.result.value);
    if body.result.Err? then Read(Err(body.result.error), body.rest)
    else Read(Ok(Response(status.value.0, status.value.1, head.result.value.headers, body.result.value)), body.rest)
  }

  /** Reads `n` responses one after the other; stops at the first error. */
  function ReadResponses(s: string, n: nat): Read<seq<Response>>
    decreases n
  {
    hide ReadResponse;
    if n == 0 then Read(Ok([]), s)
    else
      var first := ReadResponse(s);
      if first.result.Err? then Read(Err(first.result.error), first.rest)
      else
        var others := ReadResponses(first.rest, n - 1);
        if others.result.Err? then others else Read(Ok([first.result.value] + others.result.value), others.rest)
  }

  // ---------------------------------------------------------------------------------------
  // What a server sends
  // ---------------------------------------------------------------------------------------

  /** One chunk: its size as written, and its data. */
  datatype Chunk = Chunk(size: string, data: string)

  datatype Content = Plain(body: string) | Chunks(chunks: seq<Chunk>, last: string)

  datatype Message = Message(version: string, code: string, reason: string, headers: seq<Header>, content: Content)

  function ChunkBytes(c: Chunk): string {
    c.size + CRLF + (c.data + CRLF)
  }

  function ChunksBytes(cs: seq<Chunk>): string {
    if cs == [] then "" else ChunkBytes(cs[0]) + ChunksBytes(cs[1..])
  }

  function ChunksData(cs: seq<Chunk>): string {
    if cs == [] then "" else cs[0].data + ChunksData(cs[1..])
  }

  function ContentBytes(c: Content): string {
    match c
    case Plain(body) => body
    case Chunks(chunks, last) => ChunksBytes(chunks) + (last + CRLF + CRLF)
  }

  function ContentData(c: Content): string {
    match c
    case Plain(body) => body
    case Chunks(chunks, _) => ChunksData(chunks)
  }

  function HeadersBytes(hs: seq<Header>): string {
    if hs == [] then CRLF else hs[0].name + ": " + hs[0].value + CRLF + HeadersBytes(hs[1..])
  }

  function StatusBytes(m: Message): string {
    m.version + " " + m.code + " " + m.reason + CRLF
  }

  function MessageBytes(m: Message): string {
    StatusBytes(m) + (HeadersBytes(m.headers) + ContentBytes(m.content))
  }

  function MessagesBytes(ms: seq<Message>): string {
    if ms == [] then "" else MessageBytes(ms[0]) + MessagesBytes(ms[1..])
  }

  /** Text of one line, with nothing to trim. */
  predicate LineText(s: string) {
    IsAscii(s) && '\n' !in s && Trimmed(s)
  }

  predicate Token(s: string) {
    s != "" && LineText(s) && ' ' !in s
  }

  predicate WellFormedChunk(c: Chunk) {
    c.data != "" && LineText(c.size) && ParseUsize(c.size, 16) == Some(|c.data|)
  }

  predicate WellFormedHeader(h: Header) {
    LineText(h.name) && LineText(h.value) && ':' !in h.name
  }

  /** `head` after the headers `hs`. */
  function AddAll(head: Head, hs: seq<Header>): Head
    decreases |hs|
  {
    if hs == [] then head else AddAll(AddHeader(head, hs[0]), hs[1..])
  }

  /** The framing that a list of headers declares. */
  function Declared(hs: seq<Header>): Head {
    AddAll(NO_HEADERS, hs)
  }

  predicate IsLength(h: Header) {
    EqualIgnoringCase(h.name, CONTENT_LENGTH)
  }

  predicate IsChunkedCoding(h: Header) {
    EqualIgnoringCase(h.name, TRANSFER_ENCODING) && EqualIgnoringCase(h.value, CHUNKED)
  }

  /** The last Content-Length counts, also when its value is no number. */
  function LastLength(hs: seq<Header>, before: Option<nat>): Option<nat>
    decreases |hs|
  {
    if hs == [] then before
    else LastLength(hs[1..], if IsLength(hs[0]) then ParseUsize(hs[0].value, 10) else before)
  }

  /** The content is framed as the headers say: a chunked coding overrides a Content-Length. */
  predicate FramedAsDeclared(m: Message) {
    var head := Declared(m.headers);
    if head.chunked then
      && m.content.Chunks?
      && LineText(m.content.last) && ParseUsize(m.content.last, 16) == Some(0)
      && forall i :: 0 <= i < |m.content.chunks| ==> WellFormedChunk(m.content.chunks[i])
    else
      && m.content.Plain?
      && if head.contentLength.Some? then |m.content.body| == head.contentLength.value
         else m.content.body == "" && ParseI32(m.code) in {Some(204), Some(304)}
  }

  predicate WellFormed(m: Message) {
    && Token(m.version) && Token(m.code) && ParseI32(m.code).Some? && LineText(m.reason)
    && (forall i :: 0 <= i < |m.headers| ==> WellFormedHeader(m.headers[i]))
    && FramedAsDeclared(m)
  }

  function StatusOf(m: Message): int {
    match ParseI32(m.code)
    case Some(status) => status
    case None => 0
  }

  function Meaning(m: Message): Response {
    Response(StatusOf(m), m.reason, m.headers, ContentData(m.content))
  }

  function Meanings(ms: seq<Message>): seq<Response> {
    if ms == [] then [] else [Meaning(ms[0])] + Meanings(ms[1..])
  }

  // ---------------------------------------------------------------------------------------
  // Lines and chunks
  // ---------------------------------------------------------------------------------------

  /** A line that was sent is read, trimmed to its text, and nothing behind it is touched. */
  lemma SentLine(text: string, rest: string)
    requires IsAscii(text) && '\n' !in text
    ensures ReadLine(text + CRLF + rest) == Read(Ok(text + CRLF), rest)
  {
    var s := text + CRLF + rest;
    assert s == (text + "\r") + ['\n'] + rest;
    FindAfter(text + "\r", '\n', rest);
    assert s[..|text| + 2] == text + CRLF && s[|text| + 2..] == rest;
    assert IsAscii(text + CRLF);
  }

  lemma SentText(text: string, rest: string)
    requires LineText(text)
    ensures var r := ReadLine(text + CRLF + rest);
            r.result.Ok? && Trim(r.result.value) == text && r.rest == rest
  {
    SentLine(text, rest);
    TrimTakesBlanks(text, CRLF);
  }

  lemma ExactlyAll(a: string, rest: string)
    ensures ReadExact(a + rest, |a|) == Read(Ok(a), rest)
  {
    assert (a + rest)[..|a|] == a && (a + rest)[|a|..] == rest;
  }

  lemma NoSuchHeader(h: Header)
    ensures !(IsLength(h) && IsChunkedCoding(h))
  {
  }

  /** What the declared framing means, header by header. */
  lemma {:induction false} WhatIsDeclared(head: Head, hs: seq<Header>)
    ensures AddAll(head, hs).headers == head.headers + hs
    ensures AddAll(head, hs).chunked <==> head.chunked || exists i :: 0 <= i < |hs| && IsChunkedCoding(hs[i])
    ensures AddAll(head, hs).contentLength == LastLength(hs, head.contentLength)
    decreases |hs|
  {
    if hs != [] {
      NoSuchHeader(hs[0]);
      var next := AddHeader(head, hs[0]);
      assert next.chunked <==> head.chunked || IsChunkedCoding(hs[0]);
      assert next.contentLength == if IsLength(hs[0]) then ParseUsize(hs[0].value, 10) else head.contentLength;
      hide IsChunkedCoding, IsLength, AddHeader, ParseUsize;
      WhatIsDeclared(next, hs[1..]);
      assert head.headers + [hs[0]] + hs[1..] == head.headers + hs;
      if exists i :: 0 <= i < |hs| && IsChunkedCoding(hs[i]) {
        var i :| 0 <= i < |hs| && IsChunkedCoding(hs[i]);
        assert i > 0 ==> hs[1..][i - 1] == hs[i];
      }
    }
  }

  /** The text of a header line once trimmed: a missing value takes the blank behind the colon with it. */
  lemma HeaderText(h: Header, rest: string)
    requires WellFormedHeader(h)
    ensures var r := ReadLine(h.name + ": " + h.value + CRLF + rest);
            && r.result.Ok? && r.rest == rest
            && Trim(r.result.value) == h.name + if h.value == "" then ":" else ": " + h.value
  {
    var line := h.name + ": " + h.value;
    SentLine(line, rest);
    hide ReadLine, Trim;
    if h.value == "" {
      assert line + CRLF == (h.name + ":") + (" " + CRLF);
      TrimTakesBlanks(h.name + ":", " " + CRLF);
    } else {
      assert line == h.name + (": " + h.value);
      TrimTakesBlanks(line, CRLF);
    }
  }

  lemma ColonSplits(name: string, tail: string)
    requires ':' !in name
    ensures var text := name + [':'] + tail;
            Find(text, ':') == |name| < |text| && text[..|name|] == name && text[|name| + 1..] == tail
  {
    hide Find;
    FindAfter(name, ':', tail);
  }

  lemma PartsTrim(h: Header)
    requires WellFormedHeader(h)
    ensures Trim(h.name) == h.name && Trim(if h.value == "" then "" else " " + h.value) == h.value
  {
    hide Trim;
    TrimTakesBlanks(h.name, "");
    assert h.name + "" == h.name;
    TrimTakesBlanks(h.value, " ");
    TrimTakesBlanks("", "");
    assert "" + "" == "";
  }

  lemma LineSplits(head: Head, name: string, tail: string)
    requires ':' !in name
    ensures AddLine(head, name + [':'] + tail) == AddHeader(head, Header(Trim(name), Trim(tail)))
  {
    hide AddHeader, Find, Trim;
    ColonSplits(name, tail);
  }

  lemma HeaderParsed(h: Header, head: Head)
    requires WellFormedHeader(h)
    ensures AddLine(head, h.name + if h.value == "" then ":" else ": " + h.value) == AddHeader(head, h)
  {
    var tail := if h.value == "" then "" else " " + h.value;
    assert ':' !in h.name;
    PartsTrim(h);
    hide *;
    assert h.name + (if h.value == "" then ":" else ": " + h.value) == h.name + [':'] + tail;
    LineSplits(head, h.name, tail);
  }

  lemma {:induction false} HeadersRead(hs: seq<Header>, head: Head, rest: string)
    requires forall i :: 0 <= i < |hs| ==> WellFormedHeader(hs[i])
    ensures ReadHeaders(HeadersBytes(hs) + rest, head) == Read(Ok(AddAll(head, hs)), rest)
    decreases |hs|
  {
    hide ReadLine, Trim, AddLine, AddHeader;
    if hs == [] {
      SentText("", rest);
      assert "" + CRLF + rest == HeadersBytes(hs) + rest;
    } else {
      var h, more := hs[0], HeadersBytes(hs[1..]) + rest;
      assert HeadersBytes(hs) + rest == h.name + ": " + h.value + CRLF + more;
      HeaderText(h, more);
      HeaderParsed(h, head);
      HeadersRead(hs[1..], AddHeader(head, h), rest);
    }
  }

  lemma StatusText(m: Message, rest: string)
    requires Token(m.version) && Token(m.code) && LineText(m.reason)
    ensures var r := ReadLine(StatusBytes(m) + rest);
            && r.result.Ok? && r.rest == rest
            && Trim(r.result.value) == m.version + " " + m.code + if m.reason == "" then "" else " " + m.reason
  {
    var line := m.version + " " + m.code + " " + m.reason;
    assert StatusBytes(m) + rest == line + CRLF + rest;
    SentLine(line, rest);
    hide ReadLine, Trim;
    if m.reason == "" {
      assert line + CRLF == (m.version + " " + m.code) + (" " + CRLF);
      TrimTakesBlanks(m.version + " " + m.code, " " + CRLF);
      assert m.version + " " + m.code + "" == m.version + " " + m.code;
    } else {
      assert line == m.version + " " + m.code + (" " + m.reason);
      TrimTakesBlanks(line, CRLF);
    }
  }

  lemma StatusParsed(m: Message)
    requires Token(m.version) && Token(m.code) && ParseI32(m.code).Some?
    ensures ParseStatusLine(m.version + " " + m.code + if m.reason == "" then "" else " " + m.reason)
         == Ok((ParseI32(m.code).value, m.reason))
  {
    hide ParseI32;
    var tail := m.code + if m.reason == "" then "" else " " + m.reason;
    var line := m.version + " " + m.code + if m.reason == "" then "" else " " + m.reason;
    assert line == m.version + [' '] + tail;
    FindAfter(m.version, ' ', tail);
    assert line[|m.version| + 1..] == tail;
    if m.reason == "" {
      assert tail == m.code;
      FindNone(m.code, ' ');
    } else {
      assert tail == m.code + [' '] + m.reason;
      FindAfter(m.code, ' ', m.reason);
      assert tail[|m.code| + 1..] == m.reason;
    }
    assert tail[..|m.code|] == m.code;
  }

  /**
   A chunked body is read to its end, and after the last chunk exactly one more line is taken,
   whatever it is: the end of the message if there are no trailers.
   */
  lemma {:induction false} ChunksRead(cs: seq<Chunk>, last: string, body: string, after: string)
    requires forall i :: 0 <= i < |cs| ==> WellFormedChunk(cs[i])
    requires LineText(last) && ParseUsize(last, 16) == Some(0)
    ensures ReadChunks(ChunksBytes(cs) + (last + CRLF + after), body)
         == Read(Ok(body + ChunksData(cs)), ReadLine(after).rest)
    decreases |cs|
  {
    hide ReadLine, Trim, ParseUsize, LineText, ReadExact;
    var end := last + CRLF + after;
    if cs == [] {
      assert ChunksBytes(cs) + end == end;
      SentText(last, after);
      assert body + "" == body;
    } else {
      var c, more := cs[0], ChunksBytes(cs[1..]) + end;
      assert ChunksBytes(cs) + end == c.size + CRLF + (c.data + (CRLF + more));
      FirstChunk(c, more, body);
      ChunksRead(cs[1..], last, body + c.data, after);
      assert body + c.data + ChunksData(cs[1..]) == body + ChunksData(cs);
    }
  }

  /**
   Behind any whole chunks, a line that is no hexadecimal number is an invalid size, and a chunk whose
   data ends early is an unexpected end: no part of the body is returned.
   */
  lemma {:induction false} ChunkFaults(cs: seq<Chunk>, line: string, body: string, after: string)
    requires forall i :: 0 <= i < |cs| ==> WellFormedChunk(cs[i])
    requires LineText(line) && ParseUsize(line, 16) != Some(0)
    requires ParseUsize(line, 16).Some? ==> |after| < ParseUsize(line, 16).value
    ensures ReadChunks(ChunksBytes(cs) + (line + CRLF + after), body)
         == if ParseUsize(line, 16).None? then Read(Err(InvalidChunkSize), after) else Read(Err(UnexpectedEof), "")
    decreases |cs|
  {
    hide ReadLine, Trim, ParseUsize, LineText;
    var end := line + CRLF + after;
    if cs == [] {
      assert ChunksBytes(cs) + end == end;
      SentText(line, after);
    } else {
      var c, more := cs[0], ChunksBytes(cs[1..]) + end;
      assert ChunksBytes(cs) + end == c.size + CRLF + (c.data + (CRLF + more));
      FirstChunk(c, more, body);
      ChunkFaults(cs[1..], line, body + c.data, after);
    }
  }

  lemma FirstChunk(c: Chunk, more: string, body: string)
    requires WellFormedChunk(c)
    ensures ReadChunks(c.size + CRLF + (c.data + (CRLF + more)), body) == ReadChunks(more, body + c.data)
  {
    hide ReadLine, Trim, ParseUsize, LineText, ReadExact;
    SentText(c.size, c.data + (CRLF + more));
    ExactlyAll(c.data, CRLF + more);
    ExactlyAll(CRLF, more);
  }

  lemma PlainRead(m: Message, rest: string)
    requires FramedAsDeclared(m) && m.content.Plain? && ParseI32(m.code).Some?
    ensures ReadBody(m.content.body + rest, StatusOf(m), Declared(m.headers)) == Read(Ok(m.content.body), rest)
  {
    hide ReadExact, ParseI32, Declared;
    ExactlyAll(m.content.body, rest);
    assert "" + rest == rest;
  }

  lemma ChunksThenEnd(chunks: seq<Chunk>, last: string, rest: string)
    requires forall i :: 0 <= i < |chunks| ==> WellFormedChunk(chunks[i])
    requires LineText(last) && ParseUsize(last, 16) == Some(0)
    ensures ReadChunks(ContentBytes(Chunks(chunks, last)) + rest, "") == Read(Ok(ChunksData(chunks)), rest)
  {
    SentText("", rest);
    hide ReadLine, ReadChunks, ParseUsize, WellFormedChunk, LineText, ChunksBytes, ChunksData;
    assert "" + CRLF + rest == CRLF + rest;
    ChunksRead(chunks, last, "", CRLF + rest);
    Regroup(ChunksBytes(chunks), last, CRLF, rest);
    assert "" + ChunksData(chunks) == ChunksData(chunks);
  }

  lemma Regroup(a: string, b: string, c: string, d: string)
    ensures a + (b + c + c) + d == a + (b + c + (c + d))
  {
  }

  lemma ChunkedRead(m: Message, rest: string)
    requires FramedAsDeclared(m) && m.content.Chunks?
    ensures ReadBody(ContentBytes(m.content) + rest, StatusOf(m), Declared(m.headers))
         == Read(Ok(ContentData(m.content)), rest)
  {
    hide ReadChunks, ParseI32, ParseUsize, WellFormedChunk, LineText, Declared, ContentBytes, ChunksData;
    ChunksThenEnd(m.content.chunks, m.content.last, rest);
  }

  lemma ContentRead(m: Message, rest: string)
    requires WellFormed(m)
    ensures ReadBody(ContentBytes(m.content) + rest, StatusOf(m), Declared(m.headers))
         == Read(Ok(ContentData(m.content)), rest)
  {
    hide ReadBody, FramedAsDeclared, WellFormedHeader;
    match m.content {
      case Plain(_) => PlainRead(m, rest);
      case Chunks(_, _) => ChunkedRead(m, rest);
    }
  }

  /** One response is read as what it means, and reading stops on the first byte behind it. */
  lemma MessageRead(m: Message, rest: string)
    requires WellFormed(m)
    ensures ReadResponse(MessageBytes(m) + rest) == Read(Ok(Meaning(m)), rest)
  {
    hide ReadLine, Trim, ReadHeaders, ReadBody, ParseStatusLine, AddAll, StatusBytes, HeadersBytes, ContentBytes,
         FramedAsDeclared, ContentData;
    var afterHead := ContentBytes(m.content) + rest;
    var afterStatus := HeadersBytes(m.headers) + afterHead;
    assert MessageBytes(m) + rest == StatusBytes(m) + afterStatus;
    StatusText(m, afterStatus);
    StatusParsed(m);
    HeadersRead(m.headers, NO_HEADERS, afterHead);
    WhatIsDeclared(NO_HEADERS, m.headers);
    assert [] + m.headers == m.headers;
    ContentRead(m, rest);
  }

  /**
   Framing is exact over a kept-alive connection: reading as many responses as were sent returns
   exactly these, in order, whatever follows, and leaves exactly what follows.
   */
  lemma {:induction false} ConnectionRead(ms: seq<Message>, rest: string)
    requires forall i :: 0 <= i < |ms| ==> WellFormed(ms[i])
    ensures ReadResponses(MessagesBytes(ms) + rest, |ms|)
         == Read(Ok(Meanings(ms)), rest)
    decreases |ms|
  {
    hide ReadResponse, MessageBytes, Meaning, WellFormed;
    if ms == [] {
      assert MessagesBytes(ms) + rest == rest;
    } else {
      var more := MessagesBytes(ms[1..]) + rest;
      assert MessagesBytes(ms) + rest == MessageBytes(ms[0]) + more;
      MessageRead(ms[0], more);
      ConnectionRead(ms[1..], rest);
    }
  }

  // ---------------------------------------------------------------------------------------
  // Messages as servers write them, and where the reader leaves the standard
  // ---------------------------------------------------------------------------------------

  lemma LengthName()
    ensures LineText("Content-Length") && ':' !in "Content-Length"
    ensures EqualIgnoringCase("Content-Length", CONTENT_LENGTH)
  {
  }

  lemma NumeralIsLineText(n: nat, radix: nat)
    requires 2 <= radix <= 36
    ensures LineText(Numeral(n, radix))
  {
    NumeralIsPlain(n, radix);
    hide Numeral;
    var s := Numeral(n, radix);
    assert forall i :: 0 <= i < |s| ==> s[i] != '\n';
  }

  /** The numerals of sizes and lengths below 2^64 are read back. */
  lemma SizesAreUnderstood(data: string)
    requires |data| < 0x1_0000_0000_0000_0000
    ensures var h := Header("Content-Length", Numeral(|data|, 10));
            WellFormedHeader(h) && IsLength(h) && ParseUsize(h.value, 10) == Some(|data|)
    ensures data != "" ==> WellFormedChunk(Chunk(Numeral(|data|, 16), data))
  {
    hide Numeral, ParseUsize, LineText, EqualIgnoringCase;
    LengthName();
    NumeralIsUsize(|data|, 10);
    NumeralIsUsize(|data|, 16);
    NumeralIsLineText(|data|, 10);
    NumeralIsLineText(|data|, 16);
  }

  /** A message whose status or request forbids a body: section 6.3 of RFC 9112 ends it with its head. */
  ghost predicate BodilessHead(m: Message) {
    && Token(m.version) && Token(m.code) && ParseI32(m.code).Some? && LineText(m.reason)
    && (forall i :: 0 <= i < |m.headers| ==> WellFormedHeader(m.headers[i]))
    && m.content == Plain("") && !Declared(m.headers).chunked
  }

  /** How many bytes behind such a head the reader takes for its body: all, without a length and for most statuses. */
  function Taken(m: Message, next: string): nat {
    var length := Declared(m.headers).contentLength;
    if length.Some? then length.value
    else if StatusOf(m) == 204 || StatusOf(m) == 304 then 0
    else |next|
  }

  /** What the reader makes of such a head, whatever follows. */
  lemma BodilessHeadRead(m: Message, next: string)
    requires BodilessHead(m)
    ensures var body := ReadBody(next, StatusOf(m), Declared(m.headers));
            ReadResponse(MessageBytes(m) + next) == (
              if body.result.Err? then Read(Err(body.result.error), body.rest)
              else Read(Ok(Response(StatusOf(m), m.reason, m.headers, body.result.value)), body.rest))
  {
    hide ReadLine, Trim, ReadHeaders, ParseStatusLine, AddAll, StatusBytes, HeadersBytes, ParseI32, ReadBody;
    var afterStatus := HeadersBytes(m.headers) + next;
    assert MessageBytes(m) + next == StatusBytes(m) + afterStatus;
    StatusText(m, afterStatus);
    StatusParsed(m);
    HeadersRead(m.headers, NO_HEADERS, next);
    WhatIsDeclared(NO_HEADERS, m.headers);
    assert [] + m.headers == m.headers;
  }

  /**
   The reader takes a Content-Length for a body whatever the status, and knows no bodiless status but
   204 and 304: behind other bodiless responses it eats what follows.  It stops on the boundary
   exactly when it takes nothing.
   */
  lemma BodilessBoundary(m: Message, next: string)
    requires BodilessHead(m)
    ensures var n, r := Taken(m, next), ReadResponse(MessageBytes(m) + next);
            if n <= |next|
            then r == Read(Ok(Response(StatusOf(m), m.reason, m.headers, next[..n])), next[n..])
                 && (r.rest == next <==> n == 0)
            else r.result == Err(UnexpectedEof)
  {
    hide ReadResponse, MessageBytes, Declared, StatusOf;
    BodilessHeadRead(m, next);
    assert next[..|next|] == next && next[|next|..] == "" && next[..0] == "" && next[0..] == next;
  }

  // ---------------------------------------------------------------------------------------
  // Responses as they are on the wire
  // ---------------------------------------------------------------------------------------

  lemma VersionIsToken()
    ensures Token("HTTP/1.1")
  {
  }

  lemma CodeIsRead(n: nat)
    requires n < 0x8000_0000
    ensures Token(Numeral(n, 10)) && ParseI32(Numeral(n, 10)) == Some(n)
  {
    hide Numeral, ParseI32;
    NumeralIsI32(n, 0 - n);
    NumeralIsLineText(n, 10);
    NumeralHasNoBlank(n);
  }

  lemma NumeralHasNoBlank(n: nat)
    ensures ' ' !in Numeral(n, 10)
  {
    hide Numeral;
    NumeralIsPlain(n, 10);
  }

  lemma ChunkedNames()
    ensures WellFormedHeader(Header("Transfer-Encoding", "chunked")) && IsChunkedCoding(Header("Transfer-Encoding", "chunked"))
    ensures LineText("0")
  {
    CodingText();
    hide LineText;
    assert ':' !in "Transfer-Encoding";
  }

  lemma CodingText()
    ensures LineText("Transfer-Encoding") && LineText("chunked") && LineText("0")
  {
  }

  /** Heads without a header and with one, in characters. */
  lemma BareHeadBytes(code: string, reason: string, content: Content)
    ensures MessageBytes(Message("HTTP/1.1", code, reason, [], content))
         == "HTTP/1.1 " + code + " " + reason + "\r\n\r\n" + ContentBytes(content)
  {
    hide ContentBytes;
    assert "HTTP/1.1" + " " == "HTTP/1.1 " && "\r\n\r\n" == "\r\n" + "\r\n";
  }

  lemma OneHeaderBytes(code: string, reason: string, h: Header, content: Content)
    ensures MessageBytes(Message("HTTP/1.1", code, reason, [h], content))
         == "HTTP/1.1 " + code + " " + reason + "\r\n" + h.name + ": " + h.value + "\r\n\r\n" + ContentBytes(content)
  {
    hide ContentBytes;
    assert [h][1..] == [];
    assert HeadersBytes([h]) == h.name + ": " + h.value + "\r\n" + "\r\n";
    assert "HTTP/1.1" + " " == "HTTP/1.1 " && "\r\n\r\n" == "\r\n" + "\r\n";
    var status := "HTTP/1.1 " + code + " " + reason + "\r\n";
    var bytes := ContentBytes(content);
    assert status + (h.name + ": " + h.value + "\r\n" + "\r\n" + bytes)
        == status + h.name + ": " + h.value + ("\r\n" + "\r\n") + bytes;
  }

  /** A response with a length, from its characters: its status is the number written, and its body the next bytes. */
  lemma LengthOnTheWire(n: nat, reason: string, body: string, next: string)
    requires n < 0x8000_0000 && LineText(reason) && |body| < 0x1_0000_0000_0000_0000
    ensures ReadResponse("HTTP/1.1 " + Numeral(n, 10) + " " + reason + "\r\n"
                         + "Content-Length" + ": " + Numeral(|body|, 10) + "\r\n\r\n" + body + next)
         == Read(Ok(Response(n, reason, [Header("Content-Length", Numeral(|body|, 10))], body)), next)
  {
    hide *;
    var h := Header("Content-Length", Numeral(|body|, 10));
    var m := Message("HTTP/1.1", Numeral(n, 10), reason, [h], Plain(body));
    OneHeaderBytes(m.code, reason, h, m.content);
    LengthIsWellFormed(m, n, h);
    CodeIsRead(n);
    MessageRead(m, next);
    MeaningOf(m, n);
  }

  lemma LengthIsWellFormed(m: Message, n: nat, h: Header)
    requires n < 0x8000_0000 && LineText(m.reason) && m.version == "HTTP/1.1" && m.code == Numeral(n, 10)
    requires m.content.Plain? && |m.content.body| < 0x1_0000_0000_0000_0000
    requires m.headers == [h] && h == Header("Content-Length", Numeral(|m.content.body|, 10))
    ensures WellFormed(m) && ContentBytes(m.content) == m.content.body == ContentData(m.content)
  {
    hide Numeral, ParseUsize, ParseI32, LineText, Token, IsLength, WellFormedHeader, AddAll, IsChunkedCoding, LastLength;
    VersionIsToken();
    CodeIsRead(n);
    SizesAreUnderstood(m.content.body);
    WhatIsDeclared(NO_HEADERS, [h]);
    OneLength(h);
    NoSuchHeader(h);
  }

  lemma OneLength(h: Header)
    ensures LastLength([h], None) == if IsLength(h) then ParseUsize(h.value, 10) else None
  {
    hide ParseUsize, IsLength;
    assert [h][1..] == [];
  }

  /** A chunked response of one chunk, from its characters. */
  lemma ChunkedOnTheWire(n: nat, reason: string, data: string, next: string)
    requires n < 0x8000_0000 && LineText(reason) && 0 < |data| < 0x1_0000_0000_0000_0000
    ensures ReadResponse("HTTP/1.1 " + Numeral(n, 10) + " " + reason + "\r\n"
                         + "Transfer-Encoding" + ": " + "chunked" + "\r\n\r\n"
                         + (Numeral(|data|, 16) + "\r\n" + data + "\r\n" + "0" + "\r\n\r\n") + next)
         == Read(Ok(Response(n, reason, [Header("Transfer-Encoding", "chunked")], data)), next)
  {
    hide *;
    var h := Header("Transfer-Encoding", "chunked");
    var c := Chunk(Numeral(|data|, 16), data);
    var m := Message("HTTP/1.1", Numeral(n, 10), reason, [h], Chunks([c], "0"));
    OneHeaderBytes(m.code, reason, h, m.content);
    OneChunk(c);
    ChunkedIsWellFormed(m, n, data);
    CodeIsRead(n);
    MessageRead(m, next);
    MeaningOf(m, n);
  }

  lemma MeaningOf(m: Message, n: nat)
    requires ParseI32(m.code) == Some(n)
    ensures Meaning(m) == Response(n, m.reason, m.headers, ContentData(m.content))
  {
  }

  lemma ChunkedIsWellFormed(m: Message, n: nat, data: string)
    requires n < 0x8000_0000 && LineText(m.reason) && 0 < |data| < 0x1_0000_0000_0000_0000
    requires m.version == "HTTP/1.1" && m.code == Numeral(n, 10) && m.headers == [Header("Transfer-Encoding", "chunked")]
    requires m.content == Chunks([Chunk(Numeral(|data|, 16), data)], "0")
    ensures WellFormed(m)
  {
    hide *;
    VersionIsToken();
    CodeIsRead(n);
    SizesAreUnderstood(data);
    ChunkedNames();
    ZeroIsRead();
    OneChunkFramed(m, Header("Transfer-Encoding", "chunked"), Chunk(Numeral(|data|, 16), data), "0");
  }

  lemma OneChunkFramed(m: Message, h: Header, c: Chunk, last: string)
    requires Token(m.version) && Token(m.code) && ParseI32(m.code).Some? && LineText(m.reason)
    requires WellFormedHeader(h) && IsChunkedCoding(h) && WellFormedChunk(c) && LineText(last) && ParseUsize(last, 16) == Some(0)
    requires m.headers == [h] && m.content == Chunks([c], last)
    ensures WellFormed(m)
  {
    hide ParseUsize, ParseI32, LineText, Token, WellFormedHeader, AddAll, IsChunkedCoding, WellFormedChunk, LastLength;
    WhatIsDeclared(NO_HEADERS, m.headers);
    assert IsChunkedCoding(m.headers[0]);
  }

  lemma ZeroIsRead()
    ensures ParseUsize("0", 16) == Some(0)
  {
    NumeralIsUsize(0, 16);
    NumeralsInCharacters(0, 0, 16);
    assert ['0'] == "0";
  }

  lemma OneChunk(c: Chunk)
    ensures ContentBytes(Chunks([c], "0")) == c.size + "\r\n" + c.data + "\r\n" + "0" + "\r\n\r\n"
    ensures ContentData(Chunks([c], "0")) == c.data
  {
    assert [c][1..] == [] && "\r\n" + "\r\n" == "\r\n\r\n";
    assert ChunksBytes([c]) == ChunkBytes(c) && ChunksData([c]) == c.data;
    var front := c.size + "\r\n" + c.data + "\r\n";
    assert ChunkBytes(c) == front;
    assert front + ("0" + "\r\n" + "\r\n") == front + "0" + ("\r\n" + "\r\n");
  }

  /** A response with no framing header: 204 and 304 end with their head, any other with the connection. */
  lemma BareOnTheWire(n: nat, reason: string, next: string)
    requires n < 0x8000_0000 && LineText(reason)
    ensures ReadResponse("HTTP/1.1 " + Numeral(n, 10) + " " + reason + "\r\n\r\n" + next)
         == if n == 204 || n == 304 then Read(Ok(Response(n, reason, [], "")), next)
            else Read(Ok(Response(n, reason, [], next)), "")
  {
    hide *;
    var m := Message("HTTP/1.1", Numeral(n, 10), reason, [], Plain(""));
    BareHeadBytes(m.code, reason, m.content);
    BareIsBodiless(m, n);
    assert MessageBytes(m) == "HTTP/1.1 " + Numeral(n, 10) + " " + reason + "\r\n\r\n";
    BodilessBoundary(m, next);
    assert next[..0] == "" && next[0..] == next && next[..|next|] == next && next[|next|..] == "";
  }

  lemma BareIsBodiless(m: Message, n: nat)
    requires n < 0x8000_0000 && LineText(m.reason)
    requires m.version == "HTTP/1.1" && m.code == Numeral(n, 10) && m.headers == [] && m.content == Plain("")
    ensures BodilessHead(m) && ContentBytes(m.content) == "" && StatusOf(m) == n
    ensures forall next :: Taken(m, next) == if n == 204 || n == 304 then 0 else |next|
  {
    hide Numeral, ParseI32, LineText, Token;
    VersionIsToken();
    CodeIsRead(n);
    assert Declared([]) == NO_HEADERS;
  }

  /** What is not a status line: one without a blank, and one whose second word is no 32-bit number. */
  lemma StatusLineFaults(version: string, code: string, reason: string)
    requires ' ' !in version && ' ' !in code
    ensures ParseStatusLine(version) == Err(InvalidStatusLine)
    ensures ParseI32(code).None? ==>
              ParseStatusLine(version + [' '] + code) == Err(InvalidStatusCode) == ParseStatusLine(version + [' '] + (code + [' '] + reason))
  {
    FindNone(version, ' ');
    FindNone(code, ' ');
    FindAfter(version, ' ', code);
    FindAfter(version, ' ', code + [' '] + reason);
    FindAfter(code, ' ', reason);
    hide Find, ParseI32;
    assert (version + [' '] + code)[|version| + 1..] == code && code[..|code|] == code;
    var tail := code + [' '] + reason;
    assert (version + [' '] + tail)[|version| + 1..] == tail && tail[..|code|] == code;
  }

  /** Lines: a header line without a colon is passed over, and one with a byte above 127 ends the reading. */
  lemma OddLines(head: Head, line: string, text: string, rest: string)
    requires ':' !in line && '\n' !in text && exists i :: 0 <= i < |text| && text[i] as int >= 128
    ensures AddLine(head, line) == head
    ensures ReadLine(text + ['\n'] + rest) == Read(Err(NotText), rest)
    ensures ReadHeaders(text + ['\n'] + rest, head) == Read(Err(NotText), rest)
  {
    FindNone(line, ':');
    FindAfter(text, '\n', rest);
    hide Find, Trim, AddLine;
    var s := text + ['\n'] + rest;
    assert s[..|text| + 1] == text + ['\n'] && s[|text| + 1..] == rest;
    var i :| 0 <= i < |text| && text[i] as int >= 128;
    assert (text + ['\n'])[i] == text[i];
    assert !IsAscii(text + ['\n']);
  }

  /** A Content-Length that is no number is none. */
  lemma {:induction false} NoLength(hs: seq<Header>)
    requires forall i :: 0 <= i < |hs| && IsLength(hs[i]) ==> ParseUsize(hs[i].value, 10).None?
    ensures LastLength(hs, None) == None
    decreases |hs|
  {
    hide ParseUsize, IsLength;
    if hs != [] {
      NoLength(hs[1..]);
    }
  }

  lemma ListIsNotChunked(h: Header)
    requires ',' in h.value
    ensures !IsChunkedCoding(h)
  {
    var i :| 0 <= i < |h.value| && h.value[i] == ',';
    assert |h.value| == |CHUNKED| ==> LowerChar(h.value[i]) != LowerChar(CHUNKED[i]);
  }

  /**
   The framing the reader does not see: a list of codings such as "gzip, chunked", and a Content-Length
   that is no number.  With no other framing header, all that follows is taken for the body.
   */
  lemma UnseenFramingReadsAll(m: Message, next: string)
    requires Token(m.version) && Token(m.code) && ParseI32(m.code).Some? && LineText(m.reason) && m.content == Plain("")
    requires StatusOf(m) != 204 && StatusOf(m) != 304
    requires forall i :: 0 <= i < |m.headers| ==> WellFormedHeader(m.headers[i])
    requires forall i :: 0 <= i < |m.headers| && EqualIgnoringCase(m.headers[i].name, TRANSFER_ENCODING) ==> ',' in m.headers[i].value
    requires forall i :: 0 <= i < |m.headers| && IsLength(m.headers[i]) ==> ParseUsize(m.headers[i].value, 10).None?
    ensures ReadResponse(MessageBytes(m) + next) == Read(Ok(Response(StatusOf(m), m.reason, m.headers, next)), "")
  {
    forall i | 0 <= i < |m.headers| ensures !IsChunkedCoding(m.headers[i]) {
      if ',' in m.headers[i].value {
        ListIsNotChunked(m.headers[i]);
      }
    }
    NoLength(m.headers);
    hide ReadResponse, MessageBytes, LastLength, IsChunkedCoding, IsLength, WellFormedHeader, ParseUsize, EqualIgnoringCase, AddAll;
    WhatIsDeclared(NO_HEADERS, m.headers);
    hide ParseI32, Token, LineText, StatusOf;
    BodilessBoundary(m, next);
    assert next[..|next|] == next && next[|next|..] == "";
  }

  function TrailerLines(ts: seq<string>): string {
    if ts == [] then "" else ts[0] + CRLF + TrailerLines(ts[1..])
  }

  /**
   Trailer fields behind the last chunk: the first is taken for the end of the message, the others and
   the empty line are left.  Reading stops on the boundary exactly when there are none.
   */
  lemma TrailersAreLeft(cs: seq<Chunk>, last: string, ts: seq<string>, next: string)
    requires forall i :: 0 <= i < |cs| ==> WellFormedChunk(cs[i])
    requires LineText(last) && ParseUsize(last, 16) == Some(0)
    requires forall i :: 0 <= i < |ts| ==> LineText(ts[i]) && ts[i] != ""
    ensures var r := ReadChunks(ChunksBytes(cs) + (last + CRLF + (TrailerLines(ts) + (CRLF + next))), "");
            && r.result == Ok(ChunksData(cs))
            && r.rest == (if ts == [] then next else TrailerLines(ts[1..]) + (CRLF + next))
            && (r.rest == next <==> ts == [])
  {
    hide ReadLine, ReadChunks, ParseUsize, WellFormedChunk, LineText, ChunksBytes, ChunksData, TrailerLines;
    ChunksRead(cs, last, "", TrailerLines(ts) + (CRLF + next));
    OneLineTaken(ts, next);
    assert "" + ChunksData(cs) == ChunksData(cs);
  }

  lemma OneLineTaken(ts: seq<string>, next: string)
    requires ts != [] ==> LineText(ts[0])
    ensures var rest := ReadLine(TrailerLines(ts) + (CRLF + next)).rest;
            rest == (if ts == [] then next else TrailerLines(ts[1..]) + (CRLF + next)) && (rest == next <==> ts == [])
  {
    hide ReadLine, LineText;
    if ts == [] {
      EmptyText();
      SentText("", next);
      assert TrailerLines(ts) + (CRLF + next) == "" + CRLF + next;
    } else {
      var rest := TrailerLines(ts[1..]) + (CRLF + next);
      assert TrailerLines(ts) + (CRLF + next) == ts[0] + CRLF + rest;
      SentText(ts[0], rest);
      assert |rest| > |next|;
    }
  }

  lemma EmptyText()
    ensures LineText("")
  {
  }

  // ---------------------------------------------------------------------------------------
  // The connection
  // ---------------------------------------------------------------------------------------

  class Connection {
    const data: string
    var pos: nat

    ghost predicate Valid()
      reads this
    {
      pos <= |data|
    }

    /** The bytes still to come. */
    ghost function Rest(): string
      requires Valid()
      reads this
    {
      data[pos..]
    }

    constructor (data: string)
      ensures Valid() && Rest() == data
    {
      this.data := data;
      pos := 0;
    }

    method NextLine() returns (r: Result<string>)
      requires Valid()
      modifies this
      ensures Valid() && Read(r, Rest()) == ReadLine(old(Rest()))
    {
      var n := LineLength(data[pos..]);
      var line := data[pos..][..n];
      assert data[pos..][n..] == data[pos + n..];
      pos := pos + n;
      r := if IsAscii(line) then Ok(line) else Err(NotText);
    }

    method NextBytes(n: nat) returns (r: Result<string>)
      requires Valid()
      modifies this
      ensures Valid() && Read(r, Rest()) == ReadExact(old(Rest()), n)
    {
      if n > |data| - pos {
        pos := |data|;
        assert data[pos..] == "";
        return Err(UnexpectedEof);
      }
      r := Ok(data[pos..pos + n]);
      assert data[pos..][..n] == data[pos..pos + n];
      assert data[pos..][n..] == data[pos + n..];
      pos := pos + n;
    }

    method ReadChunkedBody() returns (r: Result<string>)
      requires Valid()
      modifies this
      ensures Valid() && Read(r, Rest()) == ReadChunks(old(Rest()), "")
    {
      hide ReadLine, ReadExact, Trim, ParseUsize;
      var body := "";
      while true
        invariant Valid()
        invariant ReadChunks(Rest(), body) == ReadChunks(old(Rest()), "")
        decreases |Rest()|
      {
        ChunksShrink(Rest());
        var sizeLine := NextLine();
        if sizeLine.Err? {
          return Err(sizeLine.error);
        }
        var chunkSize := ParseUsize(Trim(sizeLine.value), 16);
        if chunkSize.None? {
          return Err(InvalidChunkSize);
        }
        if chunkSize.value == 0 {
          var _ := NextLine();
          return Ok(body);
        }
        var chunk := NextBytes(chunkSize.value);
        if chunk.Err? {
          return Err(chunk.error);
        }
        body := body + chunk.value;
        var _ := NextBytes(2);
      }
    }

    method ReadHeaderLines() returns (r: Result<Head>)
      requires Valid()
      modifies this
      ensures Valid() && Read(r, Rest()) == ReadHeaders(old(Rest()), NO_HEADERS)
    {
      hide ReadLine, Trim, ParseUsize, EqualIgnoringCase, Find;
      var headers: seq<Header> := [];
      var contentLength: Option<nat> := None;
      var chunked := false;
      while true
        invariant Valid()
        invariant ReadHeaders(Rest(), Head(headers, contentLength, chunked)) == ReadHeaders(old(Rest()), NO_HEADERS)
        decreases |Rest()|
      {
        HeadersShrink(Rest());
        var next := NextLine();
        if next.Err? {
          return Err(next.error);
        }
        var line := Trim(next.value);
        if line == "" {
          return Ok(Head(headers, contentLength, chunked));
        }
        var k := Find(line, ':');
        if k < |line| {
          var name, value := Trim(line[..k]), Trim(line[k + 1..]);
          if EqualIgnoringCase(name, CONTENT_LENGTH) {
            contentLength := ParseUsize(value, 10);
          } else if EqualIgnoringCase(name, TRANSFER_ENCODING) && EqualIgnoringCase(value, CHUNKED) {
            chunked := true;
          }
          headers := headers + [Header(name, value)];
        }
      }
    }

    method ReadHttpResponse() returns (r: Result<Response>)
      requires Valid()
      modifies this
      ensures Valid() && Read(r, Rest()) == ReadResponse(old(Rest()))
    {
      hide ReadLine, ReadHeaders, ReadChunks, ReadExact, ParseStatusLine, Trim;
      var statusLine := NextLine();
      if statusLine.Err? {
        return Err(statusLine.error);
      }
      var status := ParseStatusLine(Trim(statusLine.value));
      if status.Err? {
        return Err(status.error);
      }
      var (code, text) := status.value;
      var head := ReadHeaderLines();
      if head.Err? {
        return Err(head.error);
      }
      var body: Result<string>;
      if head.value.chunked {
        body := ReadChunkedBody();
      } else if head.value.contentLength.Some? {
        body := NextBytes(head.value.contentLength.value);
      } else if code == 204 || code == 304 {
        body := Ok("");
      } else {
        body := Ok(data[pos..]);
        pos := |data|;
        assert data[pos..] == "";
      }
      if body.Err? {
        return Err(body.error);
      }
      r := Ok(Response(code, text, head.value.headers, body.value));
    }
  }
}
