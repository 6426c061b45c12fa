# Verified model of the Arth native runtime

Arth programs compiled to native code call a runtime library, `crates/arth-rt`; the compiler keeps an
index of its standard library; the language server maps offsets to positions and finds the call at the
cursor. This project models the parts of the three that carry the hardest promises, and proves them
for all inputs and all runs. `dafny verify dfyconfig.toml` checks everything.

| file | models | main results |
|---|---|---|
| `LittleEndian.dfy`, `Lsda.dfy` | the byte cursor over a frame's language-specific data area, and the call-site search | `ParserRefinesLookup` |
| `Unwind.dfy` | the personality function under a two-phase unwinder | `TwoPhases`, `ThrowReachesTheInnermostHandler` |
| `Exceptions.dfy` | throw, begin and end of a catch, rethrow | `EveryExceptionHasOnePlace`, `OnlyNestingLoses` |
| `TypeHash.dfy` | the type ids by which exceptions are told apart | `OneByteApart` |
| `Base64.dfy`, `Base64Codec.dfy`, `Hex.dfy` | the three encoder and decoder pairs | `CodecRoundTrip`, `DecodersAgree`, `ReencodesIffCanonical` |
| `Text.dfy`, `Http.dfy` | reading HTTP/1.1 responses off a connection | `ConnectionRead`, `BodilessBoundary` |
| `AsyncRt.dfy` | frames, tasks and the poll loop of await | `AwaitReturnsTheLastStore`, `TerminalForGood` |
| `Closures.dfy` | closure environments and the ten ways to call | `EnvironmentIsTheCaptures`, `CallSeesTheCaptures` |
| `Structs.dfy`, `Providers.dfy` | structs, cells and shared fields behind integer handles | `FieldsAreSeparate`, `FreedFieldsStayDead` |
| `Stdlib.dfy` | the index of the standard library | `IntrinsicLookupIsAScan`, `OrderDoesNotMatter` |
| `LineIndex.dfy`, `CallContext.dfy` | line tables and the call at the cursor | `TablesAgree`, `AnyCallIsUnderstoodIff`, `CallIsUnderstoodIff` |
| `Executor.dfy` | the executor's task table and its Fibonacci work | `LedgerBalances`, `ExactUpTo92` |

Most files follow one pattern. Functions on values say what each operation means; a class with the
original's fields, or a method with its loops, is proved to compute those functions; lemmas then prove
what the operations promise together, over whole inputs and whole runs.
So that function and method cannot be wrong in the same way, further lemmas say what they give in
literal numbers and characters: addresses, offsets, status codes, alphabets, limits and answers
(`Lsda.VerdictInNumbers`, `Http.LengthOnTheWire`, `AsyncRt.AwaitReturnsTheLastStore`).

## What the code does not do

Where the code meets its intent only under a condition, the condition is stated exactly.

- Catch regions must not nest: there is one slot for the caught exception, and an object is lost if and
  only if a catch begins before an earlier one has ended (`Exceptions.OnlyNestingLoses`).
- A rethrow calls `_Unwind_Resume`, which section 1.6 of the Itanium C++ ABI: Exception Handling does not
  mean for it: phase 2 goes on in the frame that is recorded as handler, without a new search. The
  exception reaches the next catching frame if and only if its own frame has a cleanup at the rethrow
  (`Unwind.RethrowReachesIff`); with nothing there it ends in a protocol error at once
  (`Unwind.RethrowInItsFrame`). Once under way with no frame left that catches, it enters the cleanups
  and then gives up, while a throw that no frame catches enters none (`Unwind.ResumedRunsCleanups`,
  `Unwind.TwoPhases`).
- Captured values should not be zero, since zero marks a free slot. The environment is the captured list
  if and only if no captured zero is overtaken by a later value (`Closures.EnvironmentIsTheCaptures`).
- Setting a struct field by index ignores the index and goes by the name. Set and get by index agree if
  and only if the index is the position of the name (`Structs.IndexSetThenGet`).
- Shared fields are plain struct fields that hold a handle. A plain write to one keeps the fields separate
  if and only if it is a given-out handle of no other (`Providers.PlainWriteKeepsSeparateIff`).
- A Content-Length is read as a body even where section 6.3 of RFC 9112 says that the response has none,
  and only 204 and 304 are known to have none. The reader stops on the message boundary if and only if
  that takes no byte (`Http.BodilessBoundary`). Trailer fields are not read: it stops on the boundary of
  a chunked message if and only if there are none (`Http.TrailersAreLeft`). A list of codings such as
  "gzip, chunked" is not seen as chunked, and a Content-Length that is no number is taken for none; then
  the body runs to the end of the connection (`Http.UnseenFramingReadsAll`).
- The comma counters of the call context use saturating subtraction on signed numbers, which does not
  stop at zero. A comma counts if and only if for each kind as many closers before it close nothing as
  openers wait (`CallContext.CommaCountsIff`). So behind a stray closer a comma outside every pair is
  missed, and one inside an open pair can count (`CallContext.StrayBracketHidesAComma`,
  `CallContext.StrayBracketCountsAnInnerComma`); with no stray closer the count is right
  (`CallContext.CountersSeeOuterCommas`).
- The call context knows no string literals: a comma in one counts, and a parenthesis in one is taken for
  the call's (`CallContext.QuotesAreNotSeen`). Whatever the arguments hold, the call is taken if and only
  if the parentheses behind its own pair up, literals included, and its index is right if and only if as
  many commas behind arguments are missed as commas inside of arguments are counted
  (`CallContext.AnyCallIsUnderstoodIff`). When the arguments pair up, literals included, that is so if and
  only if none of their commas stands outside every pair (`CallContext.CallIsUnderstoodIff`).
- The base64 decoder takes padding characters anywhere and ignores unused bits
  (`Base64.NonCanonicalIsAccepted`); encoding gives back exactly the canonical texts
  (`Base64.ReencodesIffCanonical`).
- The two line tables differ on the offsets behind the end of a text that ends in a newline, and only
  there (`LineIndex.TablesAgree`).
- The intrinsic lookup can be misled by an overloaded function or a redeclared module
  (`Stdlib.OverloadsMislead`, `Stdlib.RedeclaringLosesIntrinsics`). It is right if and only if, in the
  last declaration of the listed module, the first function of the listed name carries the intrinsic
  (`Stdlib.LookupIsRightIff`); with unique names it always is (`Stdlib.IntrinsicLookupIsAScan`).
- A cancel overwrites the state of a task that has already completed. Its result stays available to await
  and join if and only if the run does not cancel it, or the exception field happens to be equal; the
  result query reads it either way (`AsyncRt.CancelHidesTheResult`).
- An executor init starts the handles over, so that a stale handle can reach a new task
  (`Executor.HandlesAreReused`). What a join answers is decided by the calls since the last init alone
  (`Executor.JoinAnswers`); it cannot tell a task that delivers -1 from no task.

## Model

| member | source | states |
|---|---|---|
| `Lsda.UlebInverts` | crates/arth-rt/src/exception.rs:446-460 | Reading a ULEB128 number gives back every number below 2^64 that was written and stops exactly behind its last byte |
| `Lsda.UlebInNumbers` | crates/arth-rt/src/exception.rs:446-460 | In literal bytes: one, two and three of them give their low seven bits times 1, 0x80 and 0x4000, and the cursor moves by as many |
| `Lsda.EndlessIsAFault` | crates/arth-rt/src/exception.rs:446-460 | A ULEB128 number that runs to the end of the memory without a last byte is a fault |
| `Lsda.FieldInverts` | crates/arth-rt/src/exception.rs:462-501 | The same for every encoding byte by its low four bits: absptr, udata2, udata4, udata8, and ULEB128 for all others; an omitted value takes no bytes and reads as 0 |
| `Lsda.FieldByEncoding` | crates/arth-rt/src/exception.rs:462-501 | What each encoding byte makes the cursor read, for any memory: 8, 2, 4 or 8 bytes for the low bits 0, 2, 3 and 4, nothing for 0xff, a ULEB128 number for the rest, a fault where the bytes are missing |
| `Lsda.EncodableIs` | crates/arth-rt/src/exception.rs:462-501 | The numbers each encoding byte can carry, in literal bounds: 0 for 0xff, below 2^16 and 2^32 for the low bits 2 and 3, below 2^64 otherwise |
| `LittleEndian.DecodeInNumbers` | crates/arth-rt/src/exception.rs:467-495 | Fixed-width numbers have their low-order byte first, in literal powers of 0x100 |
| `Lsda.CallSiteInverts` | crates/arth-rt/src/exception.rs:375-378 | One written call-site record is read back whole, and the cursor ends on the next record |
| `Lsda.FirstCovering` | crates/arth-rt/src/exception.rs:381 | The reference lookup: the first record whose range holds the instruction pointer, or none |
| `Lsda.SearchRefinesLookup` | crates/arth-rt/src/exception.rs:374-404 | For any list of records the search loop gives the verdict of the first record that covers the pointer, and no handler if there is none; what that verdict is in numbers is VerdictInNumbers |
| `Lsda.ParserRefinesLookup` | crates/arth-rt/src/exception.rs:333-406 | For any well-formed table in any of the encodings, followed by any bytes, the parser's verdict is that of the abstract lookup at ip-1 with the declared or default landing-pad base; VerdictInNumbers and NoVerdictInNumbers say it without the lookup |
| `Lsda.VerdictInNumbers` | crates/arth-rt/src/exception.rs:333-406 | The same from bytes to the address: with record k the first whose start and length hold ip - start of function - 1, the parser answers no handler for pad 0, and else a cleanup for action 0 or a catch with selector 1, at p = the declared base, or the start of the function if it is omitted (0xff), plus the pad; p beyond 64 bits is a fault |
| `Lsda.NoVerdictInNumbers` | crates/arth-rt/src/exception.rs:374-406 | If no record holds the pointer, the parser answers no handler |
| `Lsda.RangeBeyondTheWord` | crates/arth-rt/src/exception.rs:375-381 | A record whose start plus length leaves 64 bits is a fault exactly if the pointer is not before its start; else the search goes on with the next record |
| `Lsda.LsdaReader.ReadU8` | crates/arth-rt/src/exception.rs:438-444 | Returns the byte under the cursor and advances by one |
| `Lsda.LsdaReader.ReadUleb128` | crates/arth-rt/src/exception.rs:446-460 | The loop over `result` and `shift` reads what the ULEB128 specification reads, with the same cursor, or faults with it |
| `Lsda.LsdaReader.ReadEncoded` | crates/arth-rt/src/exception.rs:462-501 | Reads one field by its encoding byte as specified, cursor included |
| `Lsda.ParseLsda` | crates/arth-rt/src/exception.rs:333-406 | The imperative parser computes the specified verdict for every byte string, fault included; with VerdictInNumbers its landing pad is the base plus the record's pad, in numbers |
| `Unwind.SelectorIsOne` | crates/arth-rt/src/exception.rs:394-400 | Every catch verdict carries selector 1, whatever the bytes of the table |
| `Unwind.SearchStops` | crates/arth-rt/src/exception.rs:266-320 | Phase 1 asks the frames in order and stops at the first that catches |
| `Unwind.UnwindingReaches` | crates/arth-rt/src/exception.rs:266-320 | Phase 2 enters exactly the cleanup frames before the handler, each once and in stack order, then installs at the handler frame and does not pass it |
| `Unwind.TwoPhases` | crates/arth-rt/src/exception.rs:266-320 | The whole throw over any stack: caught at the first catching frame after the cleanups before it; with no catching frame no landing pad is entered at all |
| `Unwind.RethrowInItsFrame` | crates/arth-rt/src/exception.rs:598-611 | A rethrow in the frame recorded as handler, by what that frame says at the rethrow: caught there, crashed, at once a protocol error, or, after a cleanup, resumed from the next frame |
| `Unwind.RethrowReachesIff` | crates/arth-rt/src/exception.rs:598-611 | A rethrow reaches the next catching frame if and only if its own frame has a cleanup at the rethrow |
| `Unwind.ResumedRunsCleanups` | crates/arth-rt/src/exception.rs:617-625 | Phase 2 resumed behind the recorded handler enters the cleanups in order and is caught in the first catching frame like a throw; with no such frame the cleanups are entered nevertheless before the unwinder gives up |
| `Unwind.AlwaysStops` | crates/arth-rt/src/exception.rs:266-320 | Every stack has the stopping point that the theorem speaks of, so it covers every stack |
| `Unwind.CallCatches` | crates/arth-rt/src/exception.rs:381-404 | A frame with a written table catches exactly when the first record that covers its pointer has a landing pad and a non-zero action |
| `Unwind.ThrowReachesTheInnermostHandler` | crates/arth-rt/src/exception.rs:266-406 | From written tables to the outcome: a throw is caught in the innermost call that has a handler, and is uncaught exactly when none has |
| `Unwind.EntriesInNumbers` | crates/arth-rt/src/exception.rs:266-406 | Every landing pad that a throw enters, cleanup or handler, is at the declared base or the start of the function plus the pad of the first record that holds its frame's pointer, with the exception and with selector 0 for a cleanup, 1 for a handler |
| `Unwind.PersonalityAnswers` | crates/arth-rt/src/exception.rs:266-320 | The personality function by literal action bits: a version other than 1 is fatal, no table goes on, a handler is found under bit 1 and installed without it, a cleanup is installed under bit 2 only |
| `TypeHash.HashTypeName` | crates/arth-rt/src/exception.rs:186-195 | The loop computes FNV-1a over the bytes of the name |
| `TypeHash.KnownHashes` | crates/arth-rt/src/exception.rs:186-195 | Two published values of 64-bit FNV-1a: 0xcbf29ce484222325 for no bytes and 0xaf63dc4c8601ec8c for the byte 0x61 |
| `TypeHash.XorSeparates` | crates/arth-rt/src/exception.rs:191-192 | If two exclusive-ors are equal, then one pair of operands is equal exactly when the other is |
| `TypeHash.PrimeSeparates` | crates/arth-rt/src/exception.rs:193 | Multiplication by the FNV prime modulo 2^64 is injective |
| `TypeHash.StepSeparates` | crates/arth-rt/src/exception.rs:190-194 | Two hash steps with one result have equal states exactly if they have equal bytes |
| `TypeHash.StepIsABijection` | crates/arth-rt/src/exception.rs:190-194 | For a fixed byte a step is a bijection on 64-bit states, with the inverse step given |
| `TypeHash.SuffixKeepsDistinct` | crates/arth-rt/src/exception.rs:190-194 | Two states stay distinct under any common suffix, and only distinct ones do |
| `TypeHash.OneByteApart` | crates/arth-rt/src/exception.rs:186-195 | Names of any length that differ in exactly one byte have different type ids |
| `TypeHash.CommonSuffix` | crates/arth-rt/src/exception.rs:186-195 | Appending the same text to two names neither makes nor breaks a collision |
| `Exceptions.RunKeeps` | crates/arth-rt/src/exception.rs:520-611 | In every run each object is live or destroyed once, in flight and current are disjoint, and every live object keeps the payload and type it was thrown with |
| `Exceptions.OnlyNestingLoses` | crates/arth-rt/src/exception.rs:205-207 | A run loses an exception object if and only if some catch begins before an earlier one has ended |
| `Exceptions.EveryExceptionHasOnePlace` | crates/arth-rt/src/exception.rs:520-611 | In a run whose catch regions do not nest, every thrown exception is in exactly one place: in flight, current, or destroyed once; when nothing is in flight or current it was destroyed exactly once |
| `Exceptions.HandlerSeesWhatWasThrown` | crates/arth-rt/src/exception.rs:566-611 | In every run, after any number of rethrows, the current exception has the payload bytes, type id and name of the throw it came from, and nothing is destroyed twice |
| `Exceptions.ThrowPutsInFlight` | crates/arth-rt/src/exception.rs:520-554 | After any run a throw adds one object under a new number, with the type, the name and the bytes it was given, none for an absent payload, and puts it in flight; current and destroyed stay |
| `Exceptions.CatchMakesCurrent` | crates/arth-rt/src/exception.rs:566-578 | After any run, beginning a catch takes the exception out of flight, marks it caught and makes it current; null leaves the state as it is |
| `Exceptions.EndDestroys` | crates/arth-rt/src/exception.rs:584-592 | After any run, the end of a catch appends the current object to the destroyed ones and removes it, and nothing else; without one it leaves the state as it is |
| `Exceptions.RethrowPutsBack` | crates/arth-rt/src/exception.rs:598-611 | After any run with p current, a rethrow puts p back in flight, not caught, empties the slot and destroys nothing; with nothing current it aborts |
| `Exceptions.RethrownIsCaught` | crates/arth-rt/src/exception.rs:566-611 | A catch that follows the rethrow makes the same object current again, with the payload, type and name of its throw |
| `Exceptions.OnlyEndDestroys` | crates/arth-rt/src/exception.rs:520-611 | In every run a call destroys something if and only if it is the end of a catch with an exception current |
| `Exceptions.CaughtIsNotInFlight` | crates/arth-rt/src/exception.rs:566-611 | In every run the caught flag of a live object is set exactly if it is not in flight |
| `Exceptions.NestedRegionsLeak` | crates/arth-rt/src/exception.rs:584-592 | The smallest nested run: both catches end, and the outer exception is never destroyed |
| `Exceptions.ExceptionRuntime.Throw` | crates/arth-rt/src/exception.rs:520-554 | Puts a new object with a copy of the payload in flight |
| `Exceptions.ExceptionRuntime.BeginCatch` | crates/arth-rt/src/exception.rs:566-578 | Makes the exception current, whatever was current before; null changes nothing |
| `Exceptions.ExceptionRuntime.EndCatch` | crates/arth-rt/src/exception.rs:584-592 | Destroys the current exception once and empties the slot |
| `Exceptions.ExceptionRuntime.Rethrow` | crates/arth-rt/src/exception.rs:598-611 | Puts the current exception back in flight and empties the slot; aborts exactly when there is none. RethrowPutsBack and RethrownIsCaught say what that means in a run |
| `Exceptions.ExceptionRuntime.CurrentPayload` | crates/arth-rt/src/exception.rs:646-667 | Reads the payload of the current exception, nothing without one |
| `Base64.SymbolsInvert` | crates/arth-rt/src/encoding.rs:7-20 | The decoding tables invert the encoding tables, in both alphabets, and no symbol is the padding character |
| `Base64.StandardInCharacters` | crates/arth-rt/src/encoding.rs:7-8 | The standard alphabet and the padding character, against the literal string of RFC 4648 |
| `Base64.UrlSafeInCharacters` | crates/arth-rt/src/encoding.rs:346-347 | The URL-safe alphabet, against the literal string of RFC 4648 |
| `Base64.OnlyTheAlphabetDecodes` | crates/arth-rt/src/encoding.rs:11-20 | Exactly the 64 characters of the alphabet decode to a value; '=' is padding and every other byte is bad |
| `Base64.SameBits` | crates/arth-rt/src/encoding.rs:133-194 | Bit n of the decoded bytes is bit n of the symbols, high-order bit first |
| `Base64.EncodingKeepsBits` | crates/arth-rt/src/encoding.rs:57-117 | Bit n of the symbols is bit n of the bytes, high-order bit first: encoding regroups bits and keeps their order |
| `Base64.BytesSurvive` | crates/arth-rt/src/encoding.rs:57-194 | Cutting bytes into six-bit symbols and joining these gives the bytes back |
| `Base64.SymbolsSurviveIffCanonical` | crates/arth-rt/src/encoding.rs:133-194 | Joining symbols and cutting again gives the symbols exactly when the unused bits of the last one are zero |
| `Base64.PaddedTextDecodes` | crates/arth-rt/src/encoding.rs:133-194 | The quad decoder returns the bytes of any symbols written with their padding, non-zero unused bits included |
| `Base64.DecodesIff` | crates/arth-rt/src/encoding.rs:133-194 | The padded decoder takes a text if and only if its length is a multiple of four and each character is in the alphabet or '=' |
| `Base64.UrlTextDecodes` | crates/arth-rt/src/encoding.rs:443-505 | The URL-safe decoder returns the bytes of any symbols, with any number of padding characters behind them |
| `Base64.RoundTrip` | crates/arth-rt/src/encoding.rs:57-194 | Decoding inverts encoding for all byte strings in both alphabets, with the exact text lengths |
| `Base64.ReencodesIffCanonical` | crates/arth-rt/src/encoding.rs:57-194 | Every canonical text is accepted, and among the accepted texts encoding gives back exactly the canonical ones |
| `Base64.UrlReencodesIffCanonical` | crates/arth-rt/src/encoding.rs:371-505 | Among the texts that the URL-safe decoder takes, encoding gives back exactly the canonical unpadded ones |
| `Base64.NonCanonicalIsAccepted` | crates/arth-rt/src/encoding.rs:133-194 | Texts that the decoder accepts though they are not canonical: two with padding inside, one with a loose bit set |
| `Base64.DecodersAgree` | crates/arth-rt/src/encoding.rs:443-505 | For every URL-safe text of length not 1 modulo 4, the accumulator decoder returns what the quad decoder returns on the translated and padded text |
| `Base64Codec.TextLength` | crates/arth-rt/src/encoding.rs:25-51 | The length functions give the exact length of the encoded text, padded and unpadded |
| `Base64Codec.CodesAndLengths` | crates/arth-rt/src/encoding.rs:25-75 | The error codes -1, -2 and -3, and the text and data lengths for each remainder, in numbers |
| `Base64Codec.PutGroups` | crates/arth-rt/src/encoding.rs:79-95 | The encoding loop writes the symbols of all full groups and nothing else |
| `Base64Codec.PutTail` | crates/arth-rt/src/encoding.rs:97-116 | The one or two bytes after the last full group are written with the padding they need, or none in the URL-safe form |
| `Base64Codec.Encode` | crates/arth-rt/src/encoding.rs:57-117 | Writes the encoded text at the start of the output and leaves the rest; too small an output stays unchanged and is reported, and null is reported |
| `Base64Codec.Decode` | crates/arth-rt/src/encoding.rs:133-194 | Every outcome of the quad decoder, with the whole output array: unchanged on bad length or too small an output, the bytes of the groups before the first bad one on a bad symbol, else the decoded bytes; nothing is written behind them |
| `Base64Codec.SalvagedIsTheGoodPart` | crates/arth-rt/src/encoding.rs:155-191 | The bytes left by a failed decoding are what the text before the first bad group decodes to, and fit the computed output size |
| `Base64Codec.ShiftIn` | crates/arth-rt/src/encoding.rs:494 | After a shift the low six bits of the unmasked 32-bit accumulator are the last symbol, whatever was above them |
| `Base64Codec.TakeOut` | crates/arth-rt/src/encoding.rs:497-501 | The byte taken out depends on the last two symbols only, so that the unmasked bits above never matter |
| `Base64Codec.AnotherSymbol` | crates/arth-rt/src/encoding.rs:494-501 | After i symbols the pending bits are 6i mod 8, and a further symbol completes the next byte exactly when eight bits are pending |
| `Base64Codec.Accumulate` | crates/arth-rt/src/encoding.rs:485-502 | One round of the accumulator loop: after i symbols exactly floor(6i/8) right bytes are written, and no other byte of the output changes |
| `Base64Codec.StrippingKeepsValues` | crates/arth-rt/src/encoding.rs:457-466 | Taking the padding off first does not change what is decoded |
| `Base64Codec.UrlDecode` | crates/arth-rt/src/encoding.rs:443-505 | Every outcome of the URL-safe decoder, with the whole output array: unchanged when too small, the bytes that the symbols before a bad one determine, else the decoded bytes; nothing is written behind them |
| `Base64Codec.UrlPrefixIsTheGoodPart` | crates/arth-rt/src/encoding.rs:485-502 | The symbols before a bad one are those of the text before it, and decoding fails exactly if the first character that is no symbol is not padding |
| `Base64Codec.UrlPrefixFits` | crates/arth-rt/src/encoding.rs:472-502 | Their bytes fit the output size computed up front, so that no write passes it, in failure as in success |
| `Base64Codec.CodecRoundTrip` | crates/arth-rt/src/encoding.rs:57-505 | What the encoders write, the decoders take back, for all byte strings |
| `Hex.RoundTrip` | crates/arth-rt/src/encoding.rs:265-339 | Decoding inverts encoding for all byte strings |
| `Hex.ReencodesInLowerCase` | crates/arth-rt/src/encoding.rs:265-339 | Encoding a decoded text gives its lower-case form, hence the text itself exactly when it is lower case |
| `Hex.DigitsInCharacters` | crates/arth-rt/src/encoding.rs:201-228 | The digits against literal strings: lower case is written, both cases are read, no other byte is |
| `Hex.CodesAndDigits` | crates/arth-rt/src/encoding.rs:265-339 | The error codes, and for every text: it decodes if and only if its length is even and all its bytes are digits, and byte i is 16 times digit 2i plus digit 2i+1 |
| `Hex.Encode` | crates/arth-rt/src/encoding.rs:265-289 | Writes two lower-case digits per byte and leaves the rest of the output; too small an output stays unchanged |
| `Hex.Decode` | crates/arth-rt/src/encoding.rs:305-339 | Every outcome, with the whole output array: unchanged on odd length or too small an output, the bytes of the pairs before a bad digit, else the decoded bytes with the rest untouched |
| `Text.NumeralIsUsize` | crates/arth-rt/src/http.rs:344-426 | The written numeral of any number below 2^64 is parsed back, in any radix |
| `Text.UsizeRange` | crates/arth-rt/src/http.rs:344-426 | A numeral of 2^64 or more is no length, a plus sign is taken once, a minus sign never |
| `Text.NumeralIsI32` | crates/arth-rt/src/http.rs:310 | The decimal numeral of any n is parsed back if n < 2^31, with a minus sign if n <= 2^31, and rejected otherwise |
| `Text.NumeralsInCharacters` | crates/arth-rt/src/http.rs:310-426 | The numerals that these speak of, in literal character codes, for radix 10 and 16 |
| `Text.HexDigits` | crates/arth-rt/src/http.rs:423-426 | The hexadecimal digits in characters: both cases count, nothing else does |
| `Text.SpacesAre` | crates/arth-rt/src/http.rs:304-342 | What trimming takes off: the six ASCII characters of white space |
| `Text.CasesAre` | crates/arth-rt/src/http.rs:344-348 | The comparison of header names identifies A to Z with a to z and nothing else |
| `Http.WhatIsDeclared` | crates/arth-rt/src/http.rs:343-353 | The framing that a list of headers declares: the last Content-Length counts, and chunked is declared if any header says so |
| `Http.HeadersRead` | crates/arth-rt/src/http.rs:317-354 | Any list of well-formed headers is read back in order, with the framing it declares, and reading stops behind the empty line |
| `Http.ChunksRead` | crates/arth-rt/src/http.rs:405-470 | Any list of chunks, sizes in any hexadecimal spelling, is read to its data, and reading stops behind one line after the last chunk |
| `Http.MessageRead` | crates/arth-rt/src/http.rs:286-402 | One response in either framing is read as what it means, and reading stops on the first byte behind it; a chunked coding overrides a Content-Length. LengthOnTheWire, ChunkedOnTheWire and BareOnTheWire fix the status and the bytes in literal text |
| `Http.LengthOnTheWire` | crates/arth-rt/src/http.rs:286-402 | From literal characters: a response whose code is the numeral of any n < 2^31, with a Content-Length, is read with status n, its reason, its header and exactly the declared bytes |
| `Http.ChunkedOnTheWire` | crates/arth-rt/src/http.rs:286-470 | From literal characters: the same for a chunked response of one chunk of any size |
| `Http.BareOnTheWire` | crates/arth-rt/src/http.rs:363-380 | With no framing header the status is n and the body empty if n is 204 or 304, and all that follows on the connection otherwise |
| `Http.StatusLineFaults` | crates/arth-rt/src/http.rs:303-310 | A status line without a blank is invalid, and one whose second word is no 32-bit number has an invalid code |
| `Http.OddLines` | crates/arth-rt/src/http.rs:317-354 | A header line without a colon is passed over, and one with a byte above 127 ends the reading with an error |
| `Http.ConnectionRead` | crates/arth-rt/src/http.rs:286-470 | Any list of responses on one kept-alive connection is read back exactly, in order, and what follows is left untouched; the status of each is the number whose numeral it carries (Text.NumeralIsI32) |
| `Http.SizesAreUnderstood` | crates/arth-rt/src/http.rs:344-426 | Bodies of any length below 2^64 can be written in both framings so that the theorem applies |
| `Http.BodilessBoundary` | crates/arth-rt/src/http.rs:356-380 | For a response that ends with its head (section 6.3 of RFC 9112) the exact number of following bytes that the reader takes; it stops on the boundary if and only if that number is zero |
| `Http.UnseenFramingReadsAll` | crates/arth-rt/src/http.rs:343-380 | With a list of codings such as gzip, chunked, or a Content-Length that is no number, and no other framing header, all that follows on the connection is taken for the body |
| `Http.ChunkFaults` | crates/arth-rt/src/http.rs:408-456 | Behind any whole chunks, a size line that is no hexadecimal number is an invalid size, and chunk data that ends early an unexpected end |
| `Http.TrailersAreLeft` | crates/arth-rt/src/http.rs:428-441 | For any list of trailer fields the body is read, the first field is taken for the end and the rest is left; reading stops on the boundary if and only if there are none |
| `Http.Connection.ReadChunkedBody` | crates/arth-rt/src/http.rs:405-470 | The loop computes the specified body, error or not, and moves the cursor as specified |
| `Http.Connection.ReadHeaderLines` | crates/arth-rt/src/http.rs:317-354 | The header loop computes the specified headers and framing |
| `Http.Connection.ReadHttpResponse` | crates/arth-rt/src/http.rs:286-387 | For every byte sequence on the connection, the method returns the specified response or error and leaves the specified rest; the lemmas on literal text say which |
| `AsyncRt.LoadAfterStore` | crates/arth-rt/src/async_rt.rs:244-269 | A frame slot loads what was stored in it, and slots that do not overlap are independent |
| `AsyncRt.StateIsApart` | crates/arth-rt/src/async_rt.rs:209-233 | The state id shares no byte with the slots behind it, and both survive writes of the other |
| `AsyncRt.SlotsInBytes` | crates/arth-rt/src/async_rt.rs:209-269 | A slot is the eight bytes at its offset, low-order first, in two's complement, and the state id the first four bytes; writes leave all other bytes alone |
| `AsyncRt.StoresInTheFrame` | crates/arth-rt/src/async_rt.rs:209-269 | A store of a slot or of the state id through the runtime is read back from the frame it names; all other frames and the rest of the registry stay |
| `AsyncRt.SlotsHoldTheLastStore` | crates/arth-rt/src/async_rt.rs:244-269 | After any sequence of stores at whole slots each slot holds the last value stored in it |
| `AsyncRt.AwaitWaits` | crates/arth-rt/src/async_rt.rs:502-596 | As long as the poll function answers 1, await has not returned |
| `AsyncRt.AwaitPolls` | crates/arth-rt/src/async_rt.rs:502-596 | With the first answer other than 1 on call k+1, await polls exactly k+1 times, leaves the task terminal and every other task as it was, and returns the slot at offset 8 for answer 0 and at offset 16 for 3 and 4, or the task's own field when it has no frame |
| `AsyncRt.AwaitReturnsTheLastStore` | crates/arth-rt/src/async_rt.rs:502-596 | With answers 1 up to the last, which is 0, 3 or 4, that value is the last one that any of the k+1 calls stored at offset 8 if it is 0 and at offset 16 otherwise, or what was there before |
| `AsyncRt.AwaitEndsIn` | crates/arth-rt/src/async_rt.rs:502-596 | The first answer other than 1 decides how the task ends: 0 completed, 2 cancelled, 3 panicked, any other an error; the other fields stay |
| `AsyncRt.AwaitWithoutPoll` | crates/arth-rt/src/async_rt.rs:502-596 | An unknown handle gives 0 at once, and a task without a poll function completes with its own result |
| `AsyncRt.JoinIsAwait` | crates/arth-rt/src/async_rt.rs:606-618 | Join returns what await returned, also for a failed task |
| `AsyncRt.TerminalAfter` | crates/arth-rt/src/async_rt.rs:346-618 | After any run a terminal task is as it was, or marked cancelled if and only if the run cancels it |
| `AsyncRt.TerminalForGood` | crates/arth-rt/src/async_rt.rs:502-618 | Over every run without a cancel of the task, a terminal task keeps its state, and later awaits and joins poll zero times and return the same value |
| `AsyncRt.CancelHidesTheResult` | crates/arth-rt/src/async_rt.rs:346-356 | For a completed task and any run: await and join return the result until the run cancels the task and the exception field afterwards, so the result stays available to them if and only if there is no cancel or the two are equal; the result query reads it either way |
| `AsyncRt.CallsInTheRegistry` | crates/arth-rt/src/async_rt.rs:284-356 | What spawn, register, cancel, allocation and stores to a null frame leave in the registry |
| `AsyncRt.AsyncRuntime.SpawnWithPoll` | crates/arth-rt/src/async_rt.rs:284-302 | Registers a ready task under a handle that was not in use |
| `AsyncRt.AsyncRuntime.CancelTask` | crates/arth-rt/src/async_rt.rs:346-356 | Marks the task cancelled, whatever its state; an unknown handle changes nothing |
| `AsyncRt.AsyncRuntime.GetResult` | crates/arth-rt/src/async_rt.rs:428-436 | Reads the result field whatever the state; 0 for an unknown handle |
| `AsyncRt.AsyncRuntime.AwaitTask` | crates/arth-rt/src/async_rt.rs:502-596 | The poll loop computes the specified registry, value and number of polls; AwaitReturnsTheLastStore says in literal offsets which value |
| `AsyncRt.AsyncRuntime.JoinTask` | crates/arth-rt/src/async_rt.rs:606-618 | Join leaves and returns what await leaves and returns |
| `Closures.CapturesFillTheEnvironment` | crates/arth-rt/src/closure.rs:100-121 | After any sequence of captures the slots hold the first n of the non-zero values in order, padded with zeros |
| `Closures.EnvironmentIsTheCaptures` | crates/arth-rt/src/closure.rs:100-121 | After capturing any values into n free slots, the environment is the captured list itself, cut or padded to n, if and only if no captured zero is overtaken by a later non-zero value |
| `Closures.NonZeroCapturesAreKept` | crates/arth-rt/src/closure.rs:100-121 | A closure given as many non-zero values as it has slots holds exactly these |
| `Closures.FixedAgreesWithVariadic` | crates/arth-rt/src/closure_variadic.rs:195-236 | The specifications of the ten entry points agree: a call with up to eight arguments panics exactly when the closure has more captures than that entry point handles, or a negative number; otherwise it returns what the variadic call returns. The work is in the methods, each proved against these |
| `Closures.CallSeesTheCaptures` | crates/arth-rt/src/closure.rs:100-439 | From captures to the result: a closure made for some values and given them, with no zero overtaken, applies its lambda to the values and then the arguments by either way to call |
| `Closures.LimitsInNumbers` | crates/arth-rt/src/closure.rs:136-439 | The limits in literal numbers: the entry points for 0 to 8 arguments take up to 4, 3, 2, 2, 1, 1, 0, 0 and 0 captures and panic beyond, and the variadic one applies the lambda for up to sixteen values and gives 0 beyond |
| `Closures.VariadicInNumbers` | crates/arth-rt/src/closure_variadic.rs:195-236 | The variadic calls with no or many arguments: an absent list is allowed exactly for no arguments, and an unknown handle or a negative count gives 0 |
| `Closures.ClosureRuntime.New` | crates/arth-rt/src/closure.rs:64-89 | Makes a closure with zeroed slots under a new handle |
| `Closures.ClosureRuntime.CaptureValue` | crates/arth-rt/src/closure.rs:100-121 | The scan stores into the first zero slot; without one, or without the closure, nothing changes |
| `Closures.ClosureRuntime.Call0` | crates/arth-rt/src/closure.rs:136-181 | Passes up to four captures, and panics beyond; what is returned is what the variadic call returns |
| `Closures.ClosureRuntime.Call1` | crates/arth-rt/src/closure.rs:185-219 | Passes up to three captures and then the argument, and panics beyond; what is returned is what the variadic call returns |
| `Closures.ClosureRuntime.Call2` | crates/arth-rt/src/closure.rs:223-250 | The branches on the number of captures pass captures first, then the two arguments, and panic beyond the limit; what is returned is what the variadic call returns |
| `Closures.ClosureRuntime.Call3` | crates/arth-rt/src/closure.rs:254-287 | The same for three arguments |
| `Closures.ClosureRuntime.Call4` | crates/arth-rt/src/closure.rs:291-319 | The same for four arguments |
| `Closures.ClosureRuntime.Call5` | crates/arth-rt/src/closure.rs:323-352 | The same for five arguments |
| `Closures.ClosureRuntime.Call6` | crates/arth-rt/src/closure.rs:356-380 | The same for six arguments |
| `Closures.ClosureRuntime.Call7` | crates/arth-rt/src/closure.rs:384-409 | The same for seven arguments |
| `Closures.ClosureRuntime.Call8` | crates/arth-rt/src/closure.rs:413-439 | The same for eight arguments |
| `Closures.ClosureRuntime.InvokeVariadic` | crates/arth-rt/src/closure_variadic.rs:10-236 | Collects captures and arguments in order and dispatches on their number; zero for an unknown handle, a bad argument list or too many arguments |
| `Closures.ClosureRuntime.Free` | crates/arth-rt/src/closure.rs:443-457 | Removes that closure only |
| `Structs.SetKeepsForm` | crates/arth-rt/src/struct_rt.rs:96-124 | In every state the order list is a duplicate-free enumeration of the fields |
| `Structs.SetRefinesPut` | crates/arth-rt/src/struct_rt.rs:96-124 | Setting a field is putting into the insertion-ordered map that the struct stands for |
| `Structs.SetAllRefines` | crates/arth-rt/src/struct_rt.rs:96-183 | So it is for any sequence of sets |
| `Structs.IndexReadsTheOrder` | crates/arth-rt/src/struct_rt.rs:135-143 | In every reachable struct, getting by index i is getting by the i-th first-set name, and out of range gives zero |
| `Structs.IndexSetThenGet` | crates/arth-rt/src/struct_rt.rs:96-143 | Setting by index and name and getting by that index agree for every value if and only if the index is the position of the name after the set |
| `Structs.SetInOrderThenGet` | crates/arth-rt/src/struct_rt.rs:96-143 | A struct whose fields are first set in index order, under distinct names, gives back at each index the value set there |
| `Structs.CopyOverrides` | crates/arth-rt/src/struct_rt.rs:227-249 | Copy overrides the destination's fields with the source's, keeps the destination's order as a prefix, and is putting all source entries in order |
| `Structs.CopyIsIdempotent` | crates/arth-rt/src/struct_rt.rs:227-249 | A second copy changes nothing, nor does copying a struct onto itself |
| `Structs.Untouched` | crates/arth-rt/src/struct_rt.rs:96-249 | What a set and a copy leave alone: the type, all other fields, and 0 for what is not there |
| `Providers.StepKeepsValid` | crates/arth-rt/src/lib.rs:98-104 | Every call keeps all handles below the one counter, which never goes back |
| `Providers.StepKeepsDead` | crates/arth-rt/src/shared.rs:139-146 | A freed cell does not come back, whatever is called |
| `Providers.StepKeepsCell` | crates/arth-rt/src/provider.rs:142-207 | If shared fields are written by init only, every call leaves a shared field's cell handle in place, unless it initialises the field or frees its struct |
| `Providers.StepKeepsSeparate` | crates/arth-rt/src/provider.rs:142-207 | If shared fields are written by init only, no two of them ever hold the same cell, whatever is called on cells by handle |
| `Providers.PlainWriteKeepsSeparateIff` | crates/arth-rt/src/struct_rt.rs:96-124 | A plain write to a shared field keeps the fields separate if and only if it writes a given-out handle that no other shared field holds |
| `Providers.OtherCells` | crates/arth-rt/src/shared.rs:60-189 | No call touches a cell other than the one it names or reaches through the field it names |
| `Providers.FieldsAreSeparate` | crates/arth-rt/src/provider.rs:142-207 | Over every run in which shared fields are written by init only, no call on another shared field changes the value loaded through a shared field, nor does any other call that is not given the handle of its cell |
| `Providers.RunKeepsSeparate` | crates/arth-rt/src/provider.rs:142-207 | Every run keeps the separation on which the theorem rests |
| `Providers.StoreThenLoad` | crates/arth-rt/src/provider.rs:180-207 | A store through a field is loaded back exactly while its cell exists; afterwards it is rejected and changes nothing |
| `Providers.InitThenLoad` | crates/arth-rt/src/provider.rs:142-166 | A freshly initialised field has a fresh cell and loads its initial value |
| `Providers.FreedFieldsStayDead` | crates/arth-rt/src/provider.rs:247-253 | In every such run a field whose cell is gone reads 0 and rejects stores forever, until it is initialised anew; it never reaches a later object. FreedForGood says it from the free on |
| `Providers.FreeFrees` | crates/arth-rt/src/provider.rs:247-280 | Freeing a field by index, by name or by its cell handle takes exactly that cell out of the table, after which the field loads 0 |
| `Providers.FreeAnswers` | crates/arth-rt/src/provider.rs:247-280 | The three frees answer 0 if the cell was there and -1 if not |
| `Providers.FreedForGood` | crates/arth-rt/src/provider.rs:247-280 | Every disciplined run that begins with one of the three frees and does not initialise the field again ends with a field that loads 0 and rejects every store |
| `Providers.AddsAmountToTheSum` | crates/arth-rt/src/shared.rs:182-189 | Any number of additions to a cell, wrapping or not, amount to adding their sum once modulo 2^64 and touch nothing else |
| `Providers.SwapsIffExpected` | crates/arth-rt/src/shared.rs:158-171 | A compare-and-swap answers 1 if and only if the cell holds the expected value, and then stores; -1 if and only if there is no cell; otherwise nothing changes |
| `Providers.CellsInTheTable` | crates/arth-rt/src/shared.rs:60-189 | What each cell call leaves in the table and answers, handles counted from 1, new cells at 0 |
| `Providers.FieldsInTheTable` | crates/arth-rt/src/provider.rs:142-280 | What the shared-field calls leave and answer, without a struct, without a name and without a cell included |
| `Providers.StepKeepsNames` | crates/arth-rt/src/shared.rs:108-129 | Every call keeps the handles of named cells, each name its own |
| `Providers.NamesKeepTheirCells` | crates/arth-rt/src/shared.rs:108-129 | Over every run a name keeps its cell handle, also after the cell was freed, and shares it with no other name |
| `Providers.ProviderRuntime.SetStructField` | crates/arth-rt/src/struct_rt.rs:96-124 | Updates the field map and appends a new name to the order |
| `Providers.ProviderRuntime.CopyStruct` | crates/arth-rt/src/struct_rt.rs:227-249 | The loop over the source's order computes the copy |
| `Providers.ProviderRuntime.CompareAndSwapCell` | crates/arth-rt/src/shared.rs:158-171 | Stores and answers 1 on a match, answers 0 without storing otherwise, -1 without the cell |
| `Providers.ProviderRuntime.AddToCell` | crates/arth-rt/src/shared.rs:182-189 | Adds modulo 2^64 in the signed range and answers the previous value |
| `Providers.ProviderRuntime.NamedCell` | crates/arth-rt/src/shared.rs:108-129 | One cell per name: made on first use, the same handle from then on |
| `Providers.ProviderRuntime.SharedFieldInit` | crates/arth-rt/src/provider.rs:142-166 | Makes a cell, stores the value and points the field to it; the index argument has no effect, and the cell is left behind if there is no struct |
| `Providers.ProviderRuntime.SharedFieldSet` | crates/arth-rt/src/provider.rs:201-207 | Stores through the handle in the field, or answers -1 and changes nothing |
| `Providers.ProviderRuntime.SharedFieldFree` | crates/arth-rt/src/provider.rs:247-253 | Frees the cell that the field points to and leaves the handle in the field; FreeFrees and FreedForGood say that the cell is gone |
| `Providers.ProviderRuntime.SharedFieldFreeNamed` | crates/arth-rt/src/provider.rs:269-280 | The same by field name; FreeFrees and FreedForGood hold for it as well |
| `Stdlib.IndexHoldsTheLast` | src/compiler/stdlib.rs:185-382 | For any files, every query finds the last declaration of its key in load order, and a package is known exactly if a file declares it |
| `Stdlib.LastDeclarationWins` | src/compiler/stdlib.rs:185-382 | Said on the files themselves: if nothing behind a module or type in its file and no later file of its package declares the name again, the query finds exactly it, whatever was loaded before |
| `Stdlib.SourceFilesAre` | src/compiler/stdlib.rs:185-283 | A package remembers exactly the paths of the files loaded for it, in load order |
| `Stdlib.OrderDoesNotMatter` | src/compiler/stdlib.rs:185-197 | With unique names, every order of the loaded files gives the same answers to every module, type, package and intrinsic query |
| `Stdlib.LookupFindsTheLast` | src/compiler/stdlib.rs:421-428 | For any files, names unique or not, the intrinsic lookup takes the place listed last for the name, the last declaration of that module, and its first function of that name |
| `Stdlib.LookupIsRightIff` | src/compiler/stdlib.rs:421-428 | For any files: an intrinsic is listed exactly if some declared function carries it; an unlisted one finds nothing, and a listed one finds a carrier if and only if, in the last declaration of its module, the first function of the listed name carries it |
| `Stdlib.IntrinsicLookupIsAScan` | src/compiler/stdlib.rs:421-428 | With unique names, where that condition always holds, the lookup returns a function if and only if a loaded module declares it with that intrinsic name |
| `Stdlib.OverloadsMislead` | src/compiler/stdlib.rs:421-428 | With two functions of one name in a module, the lookup can return one that does not carry the intrinsic |
| `Stdlib.RedeclaringLosesIntrinsics` | src/compiler/stdlib.rs:286-327 | With a module declared twice, an intrinsic can stay listed and be found no more |
| `Stdlib.StdlibIndex.ProcessModule` | src/compiler/stdlib.rs:286-327 | Updates both maps as specified for one module |
| `Stdlib.StdlibIndex.ProcessType` | src/compiler/stdlib.rs:330-382 | Adds one struct, enum or interface to its package |
| `Stdlib.StdlibIndex.LoadFiles` | src/compiler/stdlib.rs:185-283 | Loading any list of files builds the specified index |
| `LineIndex.Starts` | src/bin/arth_lsp.rs:1683-1691 | The line table: starts at 0, increases, has one entry more than there are newlines, stays within the text |
| `LineIndex.StartsAre` | src/bin/arth_lsp.rs:1683-1691 | An offset is in the table if and only if it is 0 or the character before it has code 10 |
| `LineIndex.ComputeLineOffsets` | src/bin/arth_lsp.rs:1683-1691 | The scan over the text computes the line table |
| `LineIndex.SplitOffsets` | src/bin/arth_lsp.rs:1495-1504 | Splitting into lines with their newlines computes the table without the empty line behind a newline at the end; an empty text has one entry |
| `LineIndex.ToPosition` | src/bin/arth_lsp.rs:1506-1524 | The binary search returns what the linear search for the last entry not above the offset returns, on any increasing table |
| `LineIndex.LineIsNewlinesBefore` | src/bin/arth_lsp.rs:1694-1702 | The line of every offset is the number of newlines before it, and line start plus character is the offset |
| `LineIndex.TablesAgree` | src/bin/arth_lsp.rs:1495-1524 | The two tables give the same position for an offset if and only if it is not at or behind the end of a text that ends in a newline |
| `CallContext.FindOpenParen` | src/bin/arth_lsp.rs:1236-1254 | The backward scan finds the innermost unmatched parenthesis, and finds none exactly when every parenthesis is matched |
| `CallContext.BalancedBehind` | src/bin/arth_lsp.rs:1254-1266 | Behind the innermost open parenthesis the parentheses pair up: the forward counter never drops below zero and ends at zero |
| `CallContext.CountCommas` | src/bin/arth_lsp.rs:1256-1276 | The loop with its three counters counts the commas before which all three stand at zero |
| `CallContext.CountersSeeOuterCommas` | src/bin/arth_lsp.rs:1256-1276 | If no bracket, brace or parenthesis is closed that was not opened, these are exactly the commas outside every pair |
| `CallContext.OuterCommaCountsIffClean` | src/bin/arth_lsp.rs:1263-1276 | A comma outside every pair is counted if and only if nothing before it closes what was not opened |
| `CallContext.InnerCommaIsSkipped` | src/bin/arth_lsp.rs:1263-1276 | A comma inside a pair is not counted, if nothing before it closes what was not opened |
| `CallContext.PairsAre` | src/bin/arth_lsp.rs:1240-1300 | The characters that pair up and those of a name, by code |
| `CallContext.LevelCountsUnmatched` | src/bin/arth_lsp.rs:1259-1270 | Each counter stands, on any text, at the openers that wait for their closer minus the closers that close nothing |
| `CallContext.CommaCountsIff` | src/bin/arth_lsp.rs:1263-1276 | Any comma, inside a pair or not, is counted if and only if for each kind as many closers before it close nothing as openers wait |
| `CallContext.StrayBracketHidesAComma` | src/bin/arth_lsp.rs:1267-1268 | The counters go below zero: behind a stray bracket a comma outside every pair is missed |
| `CallContext.StrayBracketCountsAnInnerComma` | src/bin/arth_lsp.rs:1267-1268 | Behind a stray bracket and an open one, a comma inside is counted |
| `CallContext.QuotesAreNotSeen` | src/bin/arth_lsp.rs:1240-1276 | Two texts that show it: a comma in a string literal is counted, and a parenthesis in one is taken for that of a call |
| `CallContext.LastWord` | src/bin/arth_lsp.rs:1288-1302 | The two loops find the last identifier of a text and where it begins |
| `CallContext.NameIsRead` | src/bin/arth_lsp.rs:1279-1332 | The name before the parenthesis is read, blanks between them skipped, without a qualifier if no dot stands before it |
| `CallContext.QualifiedNameIsRead` | src/bin/arth_lsp.rs:1307-1332 | A qualifier written before the name with a dot is read with it |
| `CallContext.NoNameNoContext` | src/bin/arth_lsp.rs:1282-1296 | Without an identifier character before the parenthesis there is no context, and without one before the dot no qualifier |
| `CallContext.ParseCallContext` | src/bin/arth_lsp.rs:1228-1340 | For every line and column: nothing for a column out of range or when every parenthesis is matched; otherwise the context at the innermost open parenthesis |
| `CallContext.CallIsTakenIff` | src/bin/arth_lsp.rs:1236-1254 | A parenthesis is taken for that of the call if and only if the parentheses behind it pair up, in string literals or not |
| `CallContext.AnyCallIsUnderstoodIff` | src/bin/arth_lsp.rs:1228-1340 | For a call with any arguments at all: it is taken if and only if the parentheses behind its own pair up, and the index is right if and only if as many commas behind arguments are missed as commas inside of arguments are counted |
| `CallContext.CallIsUnderstoodIff` | src/bin/arth_lsp.rs:1228-1340 | For a call whose arguments pair up, the index is off by exactly the commas of the arguments that stand outside every pair, so it is right if and only if there are none |
| `CallContext.CallIsUnderstood` | src/bin/arth_lsp.rs:1228-1340 | So a call whose finished arguments pair up and keep their commas inside of pairs is read with its name and qualifier and the index of the argument at the cursor |
| `Executor.Fib` | crates/arth-rt/src/executor_rt.rs:33-45 | The saturating loop computes the Fibonacci number cut off at 2^63-1, for every argument; 0 for negative ones |
| `Executor.ExactUpTo92` | crates/arth-rt/src/executor_rt.rs:33-45 | The result is the Fibonacci number itself if and only if n is at most 92, and 2^63-1 from 93 on |
| `Executor.TableTracksHistory` | crates/arth-rt/src/executor_rt.rs:47-110 | After any run, the task table holds exactly the handles issued since the last init and not yet joined or cancelled, with the results of their spawns |
| `Executor.JoinAnswers` | crates/arth-rt/src/executor_rt.rs:97-100 | Join answers the result of the spawn that issued the handle if no call took it before, and -1 otherwise |
| `Executor.ResultsInNumbers` | crates/arth-rt/src/executor_rt.rs:47-141 | The results in numbers: the id itself, the argument, the Fibonacci number for work type 2, and sums saturated at 64 bits |
| `Executor.AnswersInNumbers` | crates/arth-rt/src/executor_rt.rs:47-110 | The other answers: handles counted from 1 since the last init, 1 or 0 for an init, 0 for a cancel of a pending task and -1 otherwise |
| `Executor.SettledForGood` | crates/arth-rt/src/executor_rt.rs:87-100 | A handle once joined or cancelled stays so under any further calls before the next init |
| `Executor.DeliveredAtMostOnce` | crates/arth-rt/src/executor_rt.rs:97-100 | Of two joins on one handle that both find their task in the table, an init lies between: otherwise at most one delivers |
| `Executor.LedgerBalances` | crates/arth-rt/src/executor_rt.rs:47-110 | In every run, live plus delivered plus cancelled tasks are the handles issued since the last init |
| `Executor.WorkerZeroCountsSpawns` | crates/arth-rt/src/executor_rt.rs:47-54 | The counter of worker 0 is the number of spawns since the last init or reset |
| `Executor.HandlesAreReused` | crates/arth-rt/src/executor_rt.rs:57-64 | An init starts the handles over, so that an old handle reaches a new task |
| `Executor.ExecutorRuntime.DoInit` | crates/arth-rt/src/executor_rt.rs:57-64 | Clears both tables and starts the handles over |
| `Executor.ExecutorRuntime.DoSpawnWithArg` | crates/arth-rt/src/executor_rt.rs:103-110 | Allocates a task with the computed work, or with the argument itself for other work types |
| `Executor.ExecutorRuntime.DoSpawnAwait` | crates/arth-rt/src/executor_rt.rs:135-141 | Allocates a task with the saturated sum of the accumulator and the work |
| `Executor.ExecutorRuntime.DoJoin` | crates/arth-rt/src/executor_rt.rs:97-100 | Takes the task out of the table and answers its result, or -1 |
| `Executor.ExecutorRuntime.DoCancel` | crates/arth-rt/src/executor_rt.rs:87-94 | Takes the task out of the table and answers 0, or -1 |

## Left out

- Lsda.ParseLsda: models a build with overflow checks on a 64-bit target; a sum or shift that leaves 64 bits, and a read outside the table, are one outcome, a fault, where the original is undefined or, without the checks, wraps around.
- Lsda.LsdaReader.ReadEncoded: the upper four bits of an encoding byte, such as pc-relative, are ignored as the code ignores them; tables whose writer gives them a meaning are not modelled.
- Unwind.TwoPhases: the unwinder is the two-phase driver of the ABI. Its internals, the registers beyond the three that a landing pad receives, forced unwinding, a cleanup that itself throws, and revisiting one frame for a second record after its cleanup are not modelled.
- Exceptions.EveryExceptionHasOnePlace: objects are numbered by throw and memory never runs out; reuse of addresses, foreign exceptions, several threads sharing the one slot and `arth_rt_resume_unwind` are not modelled.
- Base64Codec.Encode: input and output do not overlap, as the runtime demands, and a length that does not fit 64 bits is out of scope.
- Http.ConnectionRead: bytes above 127 in a status, header or chunk-size line are an error, where the original accepts them when they form UTF-8; chunk extensions and trailers are not part of the serialised messages, since the reader does not understand them.
- Http.Connection.ReadHttpResponse: the connection is the finite byte sequence that will arrive. Sockets, TLS, timeouts and allocation of huge bodies are not modelled.
- HTTP requests, `parse_url` and the accessors of a response: only easy members.
- AsyncRt.AwaitPolls: each call is atomic, and a poll function is a function of its own frame. Overlapping awaits, polls that call the runtime, the task handle argument and stores outside the frame (which have no effect here) are not modelled.
- AsyncRt.TerminalForGood: frames are not freed during a run, and handles do not run out.
- The yield, cancelled-error and status queries of the async runtime: finite members that read one field.
- Closures.FixedAgreesWithVariadic: a lambda is a function of its argument list; the calling convention, function pointers of the wrong arity, a null environment and handles that run out are not modelled.
- Providers.ProviderRuntime.AddToCell: each call is atomic; the memory orderings of the original's atomics are not modelled. Field names and type names that are null or no UTF-8 are one case.
- Stdlib.IndexHoldsTheLast: files come parsed, with intrinsic attributes already read off; reading directories, parse errors and the printed summaries are not modelled. Signatures and the bodies of structs, enums and interfaces are opaque text.
- LineIndex.ToPosition: columns count bytes, and the truncation of lines and columns to 32 bits is not modelled.
- CallContext.ParseCallContext: the line is ASCII, so that every column is a character boundary, and shorter than 2^31 bytes, so that the counters do not overflow.
- Executor.LedgerBalances: handles and worker counts are unbounded, and each call is atomic under the executor's lock. The queries for active workers and thread count only read one field.
- Network, TLS, PostgreSQL, SQLite, file, time and allocation wrappers: thin layers over code that is not part of this model.
- HTML parsing, controller generation, cryptography, panic and error values, strings and enums of the runtime: substance elsewhere or only easy members.
- The rest of the language server (hover, completion, search over the workspace), the command lines and the benches.
