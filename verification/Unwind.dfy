/**
 The personality function, and the two-phase unwinder that calls it for every frame
 (sections 1.3 and 1.6 of the Itanium C++ ABI: Exception Handling).
 */
module Unwind {
  import opened Options
  import opened LittleEndian
  import opened Lsda

  const SEARCH_PHASE: bv32 := 1
  const CLEANUP_PHASE: bv32 := 2
  const HANDLER_FRAME: bv32 := 4

  /** The reason codes that the personality function returns. */
  datatype Reason = FatalPhase1Error | HandlerFound | InstallContext | ContinueUnwind

  /** What the registers of a frame are set to when its landing pad is installed. */
  datatype Landing = Landing(exception: nat, selector: int, pad: nat)

  datatype Response = Response(reason: Reason, landing: Option<Landing>)

  /** A stack frame, innermost first in a stack. */
  datatype Frame = Frame(lsda: Option<seq<byte>>, ip: nat, funcStart: nat) {

    /** What the frame's data area says; `None` when it cannot be parsed. */
    function Verdict(): Option<Verdict> {
      match lsda
      case None => Some(NoHandler)
      case Some(bytes) => FindHandler(bytes, ip, funcStart)
    }

    predicate Catches() {
      Verdict().Some? && Verdict().value.Catch?
    }

    predicate CleansUp() {
      Verdict().Some? && Verdict().value.Cleanup?
    }
  }

  function Personality(version: int, actions: bv32, exception: nat, frame: Frame): Option<Response> {
    if version != 1 then Some(Response(FatalPhase1Error, None))
    else
      match frame.Verdict()
      case None => None
      case Some(NoHandler) => Some(Response(ContinueUnwind, None))
      case Some(Cleanup(pad)) =>
        if actions & CLEANUP_PHASE != 0
        then Some(Response(InstallContext, Some(Landing(exception, 0, pad))))
        else Some(Response(ContinueUnwind, None))
      case Some(Catch(pad, selector)) =>
        if actions & SEARCH_PHASE != 0
        then Some(Response(HandlerFound, None))
        else Some(Response(InstallContext, Some(Landing(exception, selector, pad))))
  }

  // ---------------------------------------------------------------------------------------
  // The unwinder
  // ---------------------------------------------------------------------------------------

  /** How a throw ends: in a handler, with no handler, in a parse fault, or in a protocol error. */
  datatype Outcome = Caught(frame: nat) | Uncaught | Crashed | ProtocolError

  datatype Found = Handler(frame: nat) | EndOfStack | SearchCrash | SearchError

  /** Phase 1 from frame `i` on. */
  function Search(frames: seq<Frame>, exception: nat, i: nat): Found
    decreases |frames| - i
  {
    if i >= |frames| then EndOfStack
    else
      match Personality(1, SEARCH_PHASE, exception, frames[i])
      case None => SearchCrash
      case Some(Response(ContinueUnwind, _)) => Search(frames, exception, i + 1)
      case Some(Response(HandlerFound, _)) => Handler(i)
      case Some(_) => SearchError
  }

  /** A landing pad entered in phase 2. */
  datatype Entry = Entry(frame: nat, landing: Landing)

  datatype Trace = Trace(outcome: Outcome, entries: seq<Entry>)

  /**
   Phase 2 from frame `i` on.  A pad entered with selector 0 runs its cleanup and resumes
   unwinding in the next frame; a pad entered with another selector takes the exception.
   */
  function Unwinding(frames: seq<Frame>, exception: nat, handler: nat, i: nat): Trace
    decreases |frames| - i
  {
    if i >= |frames| then Trace(ProtocolError, [])
    else
      var actions := if i == handler then CLEANUP_PHASE | HANDLER_FRAME else CLEANUP_PHASE;
      match Personality(1, actions, exception, frames[i])
      case None => Trace(Crashed, [])
      case Some(Response(ContinueUnwind, _)) =>
        if i == handler then Trace(ProtocolError, []) else Unwinding(frames, exception, handler, i + 1)
      case Some(Response(InstallContext, Some(landing))) =>
        if landing.selector != 0 then Trace(Caught(i), [Entry(i, landing)])
        else
          var rest := Unwinding(frames, exception, handler, i + 1);
          Trace(rest.outcome, [Entry(i, landing)] + rest.entries)
      case Some(_) => Trace(ProtocolError, [])
  }

  /** A throw: phase 1, then phase 2 towards the handler it found. */
  function Raise(frames: seq<Frame>, exception: nat): Trace {
    match Search(frames, exception, 0)
    case Handler(h) => Unwinding(frames, exception, h, 0)
    case EndOfStack => Trace(Uncaught, [])
    case SearchCrash => Trace(Crashed, [])
    case SearchError => Trace(ProtocolError, [])
  }

  // ---------------------------------------------------------------------------------------
  // What a throw does, said without the protocol
  // ---------------------------------------------------------------------------------------

  /** No frame before `h` stops the search, and `h` is the end of the stack or a frame that does. */
  ghost predicate StopsAt(frames: seq<Frame>, h: nat) {
    && h <= |frames|
    && (forall i :: 0 <= i < h ==> frames[i].Verdict().Some? && !frames[i].Catches())
    && (h < |frames| ==> frames[h].Verdict().None? || frames[h].Catches())
  }

  /** The entries `es` are those of the cleanup frames in `[i, h)`, each once and in stack order. */
  ghost predicate AreTheCleanups(frames: seq<Frame>, exception: nat, i: nat, h: nat, es: seq<Entry>)
    requires h <= |frames|
  {
    && (forall k :: 0 <= k < |es| ==>
          && i <= es[k].frame < h && frames[es[k].frame].CleansUp()
          && es[k].landing == Landing(exception, 0, frames[es[k].frame].Verdict().value.landingPad))
    && (forall j, k :: 0 <= j < k < |es| ==> es[j].frame < es[k].frame)
    && (forall f :: i <= f < h && frames[f].CleansUp() ==> Enters(es, f))
  }

  ghost predicate Enters(es: seq<Entry>, f: nat) {
    exists k :: 0 <= k < |es| && es[k].frame == f
  }

  lemma {:induction false} SearchStops(frames: seq<Frame>, exception: nat, h: nat, i: nat)
    requires StopsAt(frames, h) && i <= h
    ensures Search(frames, exception, i)
         == if h == |frames| then EndOfStack else if frames[h].Catches() then Handler(h) else SearchCrash
    decreases h - i
  {
    hide FindHandler;
    if i < h {
      SearchStops(frames, exception, h, i + 1);
    }
  }

  lemma UnwindingStep(frames: seq<Frame>, exception: nat, h: nat, i: nat)
    requires StopsAt(frames, h) && h < |frames| && frames[h].Catches() && i <= h
    ensures var t := Unwinding(frames, exception, h, i);
            if i == h then t == Trace(Caught(h), [Entry(h, Landing(exception, 1, frames[h].Verdict().value.landingPad))])
            else
              var rest := Unwinding(frames, exception, h, i + 1);
              if frames[i].CleansUp()
              then t == Trace(rest.outcome, [Entry(i, Landing(exception, 0, frames[i].Verdict().value.landingPad))] + rest.entries)
              else t == rest
  {
    hide FindHandler;
    SelectorIsOne(frames[h]);
  }

  lemma SkipPlain(frames: seq<Frame>, exception: nat, i: nat, h: nat, es: seq<Entry>)
    requires i < h <= |frames| && AreTheCleanups(frames, exception, i + 1, h, es) && !frames[i].CleansUp()
    ensures AreTheCleanups(frames, exception, i, h, es)
  {
    hide FindHandler;
    assert forall f :: i <= f < h && frames[f].CleansUp() ==> f != i;
  }

  lemma {:induction false} UnwindingReaches(frames: seq<Frame>, exception: nat, h: nat, i: nat)
    requires StopsAt(frames, h) && h < |frames| && frames[h].Catches() && i <= h
    ensures var t := Unwinding(frames, exception, h, i);
            && t.outcome == Caught(h) && t.entries != []
            && t.entries[|t.entries| - 1] == Entry(h, Landing(exception, 1, frames[h].Verdict().value.landingPad))
            && AreTheCleanups(frames, exception, i, h, t.entries[..|t.entries| - 1])
    decreases h - i
  {
    hide FindHandler;
    UnwindingStep(frames, exception, h, i);
    if i < h {
      UnwindingReaches(frames, exception, h, i + 1);
      hide Unwinding, AreTheCleanups;
      var t, rest := Unwinding(frames, exception, h, i), Unwinding(frames, exception, h, i + 1);
      var es := rest.entries[..|rest.entries| - 1];
      if frames[i].CleansUp() {
        var e := Entry(i, Landing(exception, 0, frames[i].Verdict().value.landingPad));
        assert t.entries[..|t.entries| - 1] == [e] + es;
        Prepend(frames, exception, i, h, e, es);
      } else {
        SkipPlain(frames, exception, i, h, es);
      }
    }
  }

  lemma Prepend(frames: seq<Frame>, exception: nat, i: nat, h: nat, e: Entry, es: seq<Entry>)
    requires i < h <= |frames| && AreTheCleanups(frames, exception, i + 1, h, es)
    requires frames[i].CleansUp() && e == Entry(i, Landing(exception, 0, frames[i].Verdict().value.landingPad))
    ensures AreTheCleanups(frames, exception, i, h, [e] + es)
  {
    hide FindHandler;
    var all := [e] + es;
    forall f | i <= f < h && frames[f].CleansUp() ensures Enters(all, f) {
      if f == i {
        assert all[0].frame == f;
      } else {
        assert Enters(es, f);
        var k :| 0 <= k < |es| && es[k].frame == f;
        assert all[k + 1].frame == f;
      }
    }
  }

  /** Every catch verdict carries selector 1, whatever the bytes. */
  lemma SelectorIsOne(frame: Frame)
    ensures frame.Catches() ==> frame.Verdict().value.selector == 1
  {
    if frame.Catches() {
      FoundSelector(frame.lsda.value, frame.ip, frame.funcStart);
    }
  }

  lemma FoundSelector(mem: seq<byte>, ip: nat, funcStart: nat)
    ensures var v := FindHandler(mem, ip, funcStart);
            v.Some? && v.value.Catch? ==> v.value.selector == 1
  {
    hide ReadOptional, ReadUleb, SearchFrom;
    var base := ReadOptional(mem, 0, funcStart);
    if base.At? {
      var typeTable := ReadOptional(mem, base.next, 0);
      if typeTable.At? && typeTable.next < |mem| {
        var length := ReadUleb(mem, typeTable.next + 1);
        if length.At? {
          SearchSelector(mem, length.next, length.next + length.value, mem[typeTable.next], base.value,
                         RelativeIp(ip, funcStart));
        }
      }
    }
  }

  lemma {:induction false} SearchSelector(mem: seq<byte>, p: nat, end: nat, encoding: byte, base: nat, ip: nat)
    ensures var v := SearchFrom(mem, p, end, encoding, base, ip);
            v.Some? && v.value.Catch? ==> v.value.selector == 1
    decreases end - p
  {
    hide ReadCallSite;
    if p < end {
      var r := ReadCallSite(mem, p, encoding);
      if r.At? {
        SearchSelector(mem, r.next, end, encoding, base, ip);
      }
    }
  }

  /**
   Over every stack.  Both phases agree on one frame: the first that catches.  On the way, phase 2
   enters the pad of every cleanup frame before it, in order, and nothing else; it installs the
   handler last and goes no further.  Without a handler, or when a data area ahead of the handler
   cannot be parsed, no pad is entered at all.  A protocol error never happens.
   */
  lemma TwoPhases(frames: seq<Frame>, exception: nat, h: nat)
    requires StopsAt(frames, h)
    ensures var t := Raise(frames, exception);
            if h == |frames| then t == Trace(Uncaught, [])
            else if frames[h].Verdict().None? then t == Trace(Crashed, [])
            else
              && t.outcome == Caught(h) && t.entries != []
              && t.entries[|t.entries| - 1] == Entry(h, Landing(exception, 1, frames[h].Verdict().value.landingPad))
              && AreTheCleanups(frames, exception, 0, h, t.entries[..|t.entries| - 1])
  {
    hide FindHandler;
    SearchStops(frames, exception, h, 0);
    if h < |frames| && frames[h].Catches() {
      UnwindingReaches(frames, exception, h, 0);
    }
  }

  /** As StopsAt, for the frames from `i` on. */
  ghost predicate StopsFrom(frames: seq<Frame>, i: nat, h: nat) {
    && i <= h <= |frames|
    && (forall k :: i <= k < h ==> frames[k].Verdict().Some? && !frames[k].Catches())
    && (h < |frames| ==> frames[h].Verdict().None? || frames[h].Catches())
  }

  lemma ResumeStep(frames: seq<Frame>, exception: nat, handler: nat, i: nat)
    requires i < |frames| && i != handler && frames[i].Verdict().Some? && !frames[i].Catches()
    ensures var rest := Unwinding(frames, exception, handler, i + 1);
            Unwinding(frames, exception, handler, i) == (
              if frames[i].CleansUp()
              then Trace(rest.outcome, [Entry(i, Landing(exception, 0, frames[i].Verdict().value.landingPad))] + rest.entries)
              else rest)
  {
    hide FindHandler;
  }

  lemma ResumeEnd(frames: seq<Frame>, exception: nat, handler: nat, h: nat)
    requires StopsFrom(frames, h, h) && h != handler
    ensures Unwinding(frames, exception, handler, h)
         == if h == |frames| then Trace(ProtocolError, [])
            else if frames[h].Verdict().None? then Trace(Crashed, [])
            else Trace(Caught(h), [Entry(h, Landing(exception, 1, frames[h].Verdict().value.landingPad))])
  {
    hide FindHandler;
    if h < |frames| {
      SelectorIsOne(frames[h]);
    }
  }

  /**
   Phase 2 resumed without a new search, from frame `i`, the recorded handler not ahead.  The exception is
   caught in the first catching frame after the cleanups before it, like a throw.  But with no such
   frame the cleanups are entered nevertheless, and then the unwinder gives up.
   */
  lemma {:induction false} ResumedRunsCleanups(frames: seq<Frame>, exception: nat, handler: nat, i: nat, h: nat)
    requires StopsFrom(frames, i, h) && (handler < i || handler > h)
    ensures var t := Unwinding(frames, exception, handler, i);
            if h < |frames| && frames[h].Catches() then
              && t.outcome == Caught(h) && t.entries != []
              && t.entries[|t.entries| - 1] == Entry(h, Landing(exception, 1, frames[h].Verdict().value.landingPad))
              && AreTheCleanups(frames, exception, i, h, t.entries[..|t.entries| - 1])
            else
              && t.outcome == (if h == |frames| then ProtocolError else Crashed)
              && AreTheCleanups(frames, exception, i, h, t.entries)
    decreases h - i
  {
    hide Unwinding, FindHandler;
    if i == h {
      ResumeEnd(frames, exception, handler, h);
    } else {
      ResumeStep(frames, exception, handler, i);
      ResumedRunsCleanups(frames, exception, handler, i + 1, h);
      var rest := Unwinding(frames, exception, handler, i + 1);
      var caught := h < |frames| && frames[h].Catches();
      var cleanups := if caught then rest.entries[..|rest.entries| - 1] else rest.entries;
      if frames[i].CleansUp() {
        var e := Entry(i, Landing(exception, 0, frames[i].Verdict().value.landingPad));
        Prepend(frames, exception, i, h, e, cleanups);
        assert caught ==> ([e] + rest.entries)[..|rest.entries|] == [e] + cleanups;
      } else {
        SkipPlain(frames, exception, i, h, cleanups);
      }
    }
  }

  /**
   A rethrow from frame `i`, the recorded handler of the exception: phase 2 resumed in that very frame.
   What the frame says at the rethrow decides.  It leaves the frame exactly if there is a cleanup there,
   and is then resumed from the next frame; without one, a rethrow that is not caught in its own
   frame ends in a protocol error at once.
   */
  lemma RethrowInItsFrame(frames: seq<Frame>, exception: nat, i: nat)
    requires i < |frames|
    ensures var t, rest := Unwinding(frames, exception, i, i), Unwinding(frames, exception, i, i + 1);
            var verdict := frames[i].Verdict();
            if verdict.None? then t == Trace(Crashed, [])
            else if verdict.value.NoHandler? then t == Trace(ProtocolError, [])
            else if verdict.value.Cleanup?
            then t == Trace(rest.outcome, [Entry(i, Landing(exception, 0, verdict.value.landingPad))] + rest.entries)
            else t == Trace(Caught(i), [Entry(i, Landing(exception, 1, verdict.value.landingPad))])
  {
    hide FindHandler;
    SelectorIsOne(frames[i]);
  }

  /** So a rethrow reaches the next catching frame exactly if its own frame has a cleanup there. */
  lemma {:induction false} RethrowReachesIff(frames: seq<Frame>, exception: nat, i: nat, h: nat)
    requires i < |frames| && StopsFrom(frames, i + 1, h) && h < |frames| && frames[h].Catches()
    ensures Unwinding(frames, exception, i, i).outcome == Caught(h) <==> frames[i].CleansUp()
  {
    hide FindHandler, Unwinding;
    RethrowInItsFrame(frames, exception, i);
    ResumedRunsCleanups(frames, exception, i, i + 1, h);
  }

  /** Every stack has a frame, or its end, at which the search stops. */
  lemma {:induction false} AlwaysStops(frames: seq<Frame>, i: nat) returns (h: nat)
    requires i <= |frames| && forall k :: 0 <= k < i ==> frames[k].Verdict().Some? && !frames[k].Catches()
    ensures StopsAt(frames, h)
    decreases |frames| - i
  {
    hide FindHandler;
    if i == |frames| || frames[i].Verdict().None? || frames[i].Catches() {
      h := i;
    } else {
      h := AlwaysStops(frames, i + 1);
    }
  }

  // ---------------------------------------------------------------------------------------
  // From the tables a compiler lays down to the frame that catches
  // ---------------------------------------------------------------------------------------

  /** A function with its table, if it has one, and where in it a frame is executing. */
  datatype Call = Call(table: Option<Table>, after: seq<byte>, ip: nat, funcStart: nat) {

    ghost predicate Valid() {
      table.Some? ==> WellFormed(table.value)
    }

    function AsFrame(): Frame {
      Frame(if table.None? then None else Some(TableBytes(table.value) + after), ip, funcStart)
    }

    /** The first record that covers the call has a landing pad and a non-zero action. */
    predicate HasHandler() {
      && table.Some?
      && var sites := table.value.sites;
         var k := FirstCovering(sites, RelativeIp(ip, funcStart));
         k < |sites| && sites[k].pad != 0 && sites[k].action != 0
    }

    /** Landing pads stay within 64 bits. */
    predicate PadsFit() {
      table.Some? ==>
        forall i :: 0 <= i < |table.value.sites| ==> Base(table.value, funcStart) + table.value.sites[i].pad < U64_LIMIT
    }
  }

  lemma CallCatches(c: Call)
    requires c.Valid() && c.PadsFit()
    ensures c.AsFrame().Verdict().Some?
    ensures c.AsFrame().Catches() <==> c.HasHandler()
  {
    if c.table.Some? {
      ParserRefinesLookup(c.table.value, c.after, c.ip, c.funcStart);
      hide FindHandler, TableBytes;
    }
  }

  function Frames(calls: seq<Call>): (frames: seq<Frame>)
    ensures |frames| == |calls| && forall i :: 0 <= i < |calls| ==> frames[i] == calls[i].AsFrame()
  {
    if calls == [] then [] else [calls[0].AsFrame()] + Frames(calls[1..])
  }

  /**
   End to end: an exception thrown through functions compiled with these tables is caught by the
   innermost call whose first covering record names a handler, and by none if there is none.
   */
  lemma ThrowReachesTheInnermostHandler(calls: seq<Call>, exception: nat, h: nat)
    requires forall i :: 0 <= i < |calls| ==> calls[i].Valid() && calls[i].PadsFit()
    requires h <= |calls| && (forall i :: 0 <= i < h ==> !calls[i].HasHandler())
    requires h < |calls| ==> calls[h].HasHandler()
    ensures Raise(Frames(calls), exception).outcome == if h == |calls| then Uncaught else Caught(h)
  {
    hide *;
    var frames := Frames(calls);
    forall i | 0 <= i < |calls|
      ensures frames[i].Verdict().Some? && (frames[i].Catches() <==> calls[i].HasHandler())
    {
      CallCatches(calls[i]);
    }
    StopsAtFirst(frames, h);
    TwoPhases(frames, exception, h);
  }

  lemma StopsAtFirst(frames: seq<Frame>, h: nat)
    requires h <= |frames| && forall i :: 0 <= i < |frames| ==> frames[i].Verdict().Some?
    requires forall i :: 0 <= i < h ==> !frames[i].Catches()
    requires h < |frames| ==> frames[h].Catches()
    ensures StopsAt(frames, h)
  {
    hide FindHandler;
  }

  /** Record `k` is the first that holds where the call executes, one before its return address. */
  ghost predicate ExecutesIn(c: Call, k: nat)
    requires c.table.Some?
  {
    var sites := c.table.value.sites;
    var at := if c.ip > c.funcStart then c.ip - c.funcStart - 1 else 0;
    && k < |sites| && sites[k].start <= at < sites[k].start + sites[k].length
    && forall i :: 0 <= i < k ==> !(sites[i].start <= at < sites[i].start + sites[i].length)
  }

  /** The landing of a call by record `k`, in numbers. */
  ghost predicate LandsBy(c: Call, k: nat, exception: nat, landing: Landing)
    requires c.table.Some? && k < |c.table.value.sites|
  {
    var t := c.table.value;
    && t.sites[k].pad != 0
    && landing.exception == exception && landing.selector == (if t.sites[k].action == 0 then 0 else 1)
    && landing.pad == (if t.baseEncoding == 0xff then c.funcStart else t.base) + t.sites[k].pad
  }

  ghost predicate LandsByItsTable(c: Call, exception: nat, landing: Landing) {
    c.table.Some? && exists k :: ExecutesIn(c, k) && LandsBy(c, k, exception, landing)
  }

  lemma VerdictLands(c: Call, exception: nat)
    requires c.Valid() && (c.AsFrame().CleansUp() || c.AsFrame().Catches())
    ensures var v := c.AsFrame().Verdict().value;
            LandsByItsTable(c, exception, Landing(exception, if v.Catch? then 1 else 0, v.landingPad))
  {
    hide FindHandler, TableBytes, WellFormed;
    var t := c.table.value;
    var k := FirstCovering(t.sites, RelativeIp(c.ip, c.funcStart));
    if k == |t.sites| {
      NoVerdictInNumbers(t, c.after, c.ip, c.funcStart);
    } else {
      VerdictInNumbers(t, c.after, c.ip, c.funcStart, k);
      assert ExecutesIn(c, k);
    }
  }

  /**
   Every landing pad that a throw enters is that of the record in which its frame executes: at the
   declared base or the start of the function plus the record's offset, with the exception, and with
   selector 0 for a cleanup and 1 for a handler.
   */
  lemma EntriesInNumbers(calls: seq<Call>, exception: nat, h: nat, j: nat)
    requires forall i :: 0 <= i < |calls| ==> calls[i].Valid() && calls[i].PadsFit()
    requires h <= |calls| && (forall i :: 0 <= i < h ==> !calls[i].HasHandler()) && (h < |calls| ==> calls[h].HasHandler())
    requires j < |Raise(Frames(calls), exception).entries|
    ensures var e := Raise(Frames(calls), exception).entries[j];
            e.frame < |calls| && LandsByItsTable(calls[e.frame], exception, e.landing)
  {
    hide *;
    var frames := Frames(calls);
    forall i | 0 <= i < |calls|
      ensures frames[i].Verdict().Some? && (frames[i].Catches() <==> calls[i].HasHandler())
    {
      CallCatches(calls[i]);
    }
    StopsAtFirst(frames, h);
    EntryAt(frames, exception, h, j);
    var e := Raise(frames, exception).entries[j];
    VerdictLands(calls[e.frame], exception);
  }

  lemma EntryAt(frames: seq<Frame>, exception: nat, h: nat, j: nat)
    requires StopsAt(frames, h) && j < |Raise(frames, exception).entries|
    ensures var e := Raise(frames, exception).entries[j];
            e.frame < |frames| && (frames[e.frame].CleansUp() || frames[e.frame].Catches())
            && var v := frames[e.frame].Verdict().value; e.landing == Landing(exception, if v.Catch? then 1 else 0, v.landingPad)
  {
    hide Raise, FindHandler;
    TwoPhases(frames, exception, h);
  }

  /** The personality function by itself: a foreign version is fatal, and no phase installs a frame without a handler. */
  lemma PersonalityAnswers(version: int, actions: bv32, exception: nat, frame: Frame)
    ensures version != 1 ==> Personality(version, actions, exception, frame) == Some(Response(FatalPhase1Error, None))
    ensures version == 1 && frame.lsda.None? ==>
              Personality(version, actions, exception, frame) == Some(Response(ContinueUnwind, None))
    ensures version == 1 && frame.Catches() ==>
              Personality(version, actions, exception, frame).value.reason
              == if actions & 1 != 0 then HandlerFound else InstallContext
    ensures version == 1 && frame.CleansUp() ==>
              Personality(version, actions, exception, frame).value.reason
              == if actions & 2 != 0 then InstallContext else ContinueUnwind
  {
  }
}
