/**
 The async runtime: byte-addressed frames, the task registry, and the poll loop of await.  Calls
 are atomic.  A poll function is an oracle over its own frame: from the bytes it finds there it
 decides what to store and what to answer.
 */
module AsyncRt {
  import opened Options
  import opened LittleEndian

  // ---------------------------------------------------------------------------------------
  // Frames
  // ---------------------------------------------------------------------------------------

  const STATE_OFFSET := 0
  const RESULT_OFFSET := 8
  const EXCEPTION_OFFSET := 16
  const HEADER_SIZE := 32

  predicate IsI64(v: int) {
    -0x8000_0000_0000_0000 <= v < 0x8000_0000_0000_0000
  }

  function ToWord(v: int): nat
    requires IsI64(v)
  {
    if v < 0 then v + U64_LIMIT else v
  }

  function FromWord(n: nat): int {
    if n >= 0x8000_0000_0000_0000 then n - U64_LIMIT else n
  }

  function Load(frame: seq<byte>, offset: nat): int
    requires offset + 8 <= |frame|
  {
    FromWord(Decode(frame[offset..offset + 8]))
  }

  function Overwrite(frame: seq<byte>, offset: nat, bytes: seq<byte>): (after: seq<byte>)
    requires offset + |bytes| <= |frame|
    ensures |after| == |frame|
  {
    frame[..offset] + bytes + frame[offset + |bytes|..]
  }

  function Store(frame: seq<byte>, offset: nat, v: int): (after: seq<byte>)
    requires offset + 8 <= |frame| && IsI64(v)
    ensures |after| == |frame|
  {
    Overwrite(frame, offset, Encode(ToWord(v), 8))
  }

  function GetState(frame: seq<byte>): nat
    requires 4 <= |frame|
  {
    Decode(frame[STATE_OFFSET..STATE_OFFSET + 4])
  }

  function SetState(frame: seq<byte>, id: nat): (after: seq<byte>)
    requires 4 <= |frame|
    ensures |after| == |frame|
  {
    Overwrite(frame, STATE_OFFSET, Encode(id, 4))
  }

  lemma OverwriteReads(frame: seq<byte>, offset: nat, bytes: seq<byte>, p: nat, n: nat)
    requires offset + |bytes| <= |frame| && p + n <= |frame|
    ensures p == offset && n == |bytes| ==> Overwrite(frame, offset, bytes)[p..p + n] == bytes
    ensures p + n <= offset || offset + |bytes| <= p ==> Overwrite(frame, offset, bytes)[p..p + n] == frame[p..p + n]
  {
  }

  lemma WordsInvert(v: int)
    requires IsI64(v)
    ensures Decode(Encode(ToWord(v), 8)) == ToWord(v) && FromWord(ToWord(v)) == v
  {
    EightBytes();
    DecodeEncode(ToWord(v), 8);
  }

  /** A stored value is loaded back; a slot that does not overlap keeps its value. */
  lemma LoadAfterStore(frame: seq<byte>, offset: nat, v: int, p: nat)
    requires offset + 8 <= |frame| && p + 8 <= |frame| && IsI64(v)
    ensures p == offset ==> Load(Store(frame, offset, v), p) == v
    ensures p + 8 <= offset || offset + 8 <= p ==> Load(Store(frame, offset, v), p) == Load(frame, p)
  {
    WordsInvert(v);
    hide Encode, Decode, FromWord, ToWord, Overwrite;
    OverwriteReads(frame, offset, Encode(ToWord(v), 8), p, 8);
  }

  /** The state id shares no byte with the slots behind it, and the slots keep it. */
  lemma StateIsApart(frame: seq<byte>, id: nat, offset: nat, v: int)
    requires 8 <= offset && offset + 8 <= |frame| && IsI64(v) && id < 0x1_0000_0000
    ensures Load(SetState(frame, id), offset) == Load(frame, offset)
    ensures GetState(SetState(frame, id)) == id
    ensures GetState(Store(frame, offset, v)) == GetState(frame)
  {
    assert Limit(4) == 0x1_0000_0000;
    DecodeEncode(id, 4);
    hide Encode, Decode, FromWord, ToWord, Overwrite;
    OverwriteReads(frame, 0, Encode(id, 4), offset, 8);
    OverwriteReads(frame, 0, Encode(id, 4), 0, 4);
    OverwriteReads(frame, offset, Encode(ToWord(v), 8), 0, 4);
  }

  // ---------------------------------------------------------------------------------------
  // Poll functions
  // ---------------------------------------------------------------------------------------

  const READY := 0
  const PENDING := 1
  const CANCELLED := 2
  const PANICKED := 3
  const ERROR := 4

  datatype Write = Write(offset: nat, value: int)

  /** One call of a poll function: its stores in order, and its answer. */
  datatype PollStep = PollStep(writes: seq<Write>, answer: int)

  type PollFn = seq<byte> -> PollStep

  /** A store that leaves the frame, or a value that is no i64, is undefined; it has no effect here. */
  predicate Fits(frame: seq<byte>, w: Write) {
    w.offset + 8 <= |frame| && IsI64(w.value)
  }

  function Apply(frame: seq<byte>, writes: seq<Write>): (after: seq<byte>)
    ensures |after| == |frame|
    decreases |writes|
  {
    if writes == [] then frame
    else Apply(if Fits(frame, writes[0]) then Store(frame, writes[0].offset, writes[0].value) else frame, writes[1..])
  }

  /** The last value stored at `offset`, or `before`. */
  function LastStored(writes: seq<Write>, offset: nat, before: int): int
    decreases |writes|
  {
    if writes == [] then before
    else LastStored(writes[1..], offset, if writes[0].offset == offset then writes[0].value else before)
  }

  /** Only stores at multiples of eight, within the frame. */
  ghost predicate WholeSlots(frame: seq<byte>, writes: seq<Write>) {
    forall i :: 0 <= i < |writes| ==> Fits(frame, writes[i]) && writes[i].offset % 8 == 0
  }

  /** A slot then holds what was stored in it last. */
  lemma {:induction false} SlotsHoldTheLastStore(frame: seq<byte>, writes: seq<Write>, offset: nat)
    requires offset % 8 == 0 && offset + 8 <= |frame|
    requires WholeSlots(frame, writes)
    ensures Load(Apply(frame, writes), offset) == LastStored(writes, offset, Load(frame, offset))
    decreases |writes|
  {
    hide Load, Store;
    if writes != [] {
      var w := writes[0];
      LoadAfterStore(frame, w.offset, w.value, offset);
      SlotsHoldTheLastStore(Store(frame, w.offset, w.value), writes[1..], offset);
    }
  }

  /** The frame after `n` calls. */
  function FrameAfter(poll: PollFn, frame: seq<byte>, n: nat): (after: seq<byte>)
    ensures |after| == |frame|
    decreases n
  {
    if n == 0 then frame else FrameAfter(poll, Apply(frame, poll(frame).writes), n - 1)
  }

  /** What call number `i` answers, counting from 0. */
  function Answer(poll: PollFn, frame: seq<byte>, i: nat): int {
    poll(FrameAfter(poll, frame, i)).answer
  }

  // ---------------------------------------------------------------------------------------
  // The registry
  // ---------------------------------------------------------------------------------------

  datatype TaskState = Ready | Waiting | Completed | Cancelled | Panicked | Error

  datatype Task = Task(framePtr: nat, pollFnId: int, state: TaskState, result: int, exception: int, cancelled: bool)

  /** The registry, and the frames in memory by address; address 0 is null. */
  datatype Registry = Registry(
    tasks: map<int, Task>, nextHandle: int, pollFunctions: map<int, PollFn>, frames: map<nat, seq<byte>>)

  predicate Terminal(state: TaskState) {
    state.Completed? || state.Cancelled? || state.Panicked? || state.Error?
  }

  /** Null, or a frame with room for the header. */
  predicate IsFrame(r: Registry, ptr: nat) {
    ptr == 0 || (ptr in r.frames && |r.frames[ptr]| >= HEADER_SIZE)
  }

  /** Every task has no frame or a whole one, and handles are used in order. */
  ghost predicate Valid(r: Registry) {
    && 0 !in r.frames
    && forall h :: h in r.tasks ==> h < r.nextHandle && IsFrame(r, r.tasks[h].framePtr)
  }

  function FrameOf(r: Registry, t: Task): seq<byte> {
    if t.framePtr in r.frames then r.frames[t.framePtr] else []
  }

  /** The task record after a poll, given the frame that the poll left. */
  function AfterPoll(t: Task, answer: int, frame: seq<byte>): Task {
    var loads := |frame| >= HEADER_SIZE;
    if answer == READY then t.(state := Completed, result := if loads then Load(frame, RESULT_OFFSET) else t.result)
    else if answer == PENDING then t.(state := Waiting)
    else if answer == CANCELLED then t.(state := Cancelled)
    else if answer == PANICKED then
      t.(state := Panicked, exception := if loads then Load(frame, EXCEPTION_OFFSET) else t.exception)
    else if answer == ERROR then
      t.(state := Error, exception := if loads then Load(frame, EXCEPTION_OFFSET) else t.exception)
    else t.(state := Error)
  }

  /** What await returns for a terminal task. */
  function Value(t: Task): int {
    if t.state.Completed? then t.result else t.exception
  }

  function Polled(r: Registry, h: int): Registry
    requires h in r.tasks && r.tasks[h].pollFnId in r.pollFunctions
  {
    var t := r.tasks[h];
    var step := r.pollFunctions[t.pollFnId](FrameOf(r, t));
    var frame := Apply(FrameOf(r, t), step.writes);
    r.(frames := if t.framePtr in r.frames then r.frames[t.framePtr := frame] else r.frames,
       tasks := r.tasks[h := AfterPoll(t, step.answer, frame)])
  }

  /** How an await ends: the registry it leaves, its value, and how often it polled. */
  datatype Awaited = Awaited(registry: Registry, value: int, polls: nat)

  /** The loop of await, `rounds` rounds at most; `None` if it is not over by then. */
  function Await(r: Registry, h: int, rounds: nat): Option<Awaited>
    decreases rounds
  {
    if rounds == 0 then None
    else if h !in r.tasks then Some(Awaited(r, 0, 0))
    else
      var t := r.tasks[h];
      if Terminal(t.state) then Some(Awaited(r, Value(t), 0))
      else if t.pollFnId !in r.pollFunctions
      then Some(Awaited(r.(tasks := r.tasks[h := t.(state := Completed)]), t.result, 0))
      else
        match Await(Polled(r, h), h, rounds - 1)
        case None => None
        case Some(a) => Some(a.(polls := a.polls + 1))
  }

  /** Join awaits and, for a failed task, returns its error. */
  function Joined(a: Awaited, h: int): int {
    var tasks := a.registry.tasks;
    if h in tasks && (tasks[h].state.Error? || tasks[h].state.Panicked?) then tasks[h].exception else a.value
  }

  function Cancel(r: Registry, h: int): Registry {
    if h !in r.tasks then r
    else r.(tasks := r.tasks[h := r.tasks[h].(cancelled := true, state := Cancelled)])
  }

  lemma AwaitNeedsNoMoreRounds(r: Registry, h: int, m: nat, n: nat)
    requires m <= n && Await(r, h, m).Some?
    ensures Await(r, h, n) == Await(r, h, m)
    decreases m
  {
    hide Polled;
    if h in r.tasks && !Terminal(r.tasks[h].state) && r.tasks[h].pollFnId in r.pollFunctions {
      AwaitNeedsNoMoreRounds(Polled(r, h), h, m - 1, n - 1);
    }
  }

  /** As long as the poll function answers PENDING, await goes on. */
  lemma {:induction false} AwaitWaits(r: Registry, h: int, k: nat)
    requires Valid(r) && h in r.tasks && !Terminal(r.tasks[h].state)
    requires r.tasks[h].pollFnId in r.pollFunctions
    requires forall i :: 0 <= i < k ==> Answer(r.pollFunctions[r.tasks[h].pollFnId], FrameOf(r, r.tasks[h]), i) == 1
    ensures Await(r, h, k) == None
    decreases k
  {
    hide Load, Apply;
    if k > 0 {
      var poll, frame := r.pollFunctions[r.tasks[h].pollFnId], FrameOf(r, r.tasks[h]);
      assert Answer(poll, frame, 0) == poll(frame).answer;
      var next := Polled(r, h);
      var after := Apply(frame, poll(frame).writes);
      assert FrameOf(next, next.tasks[h]) == after;
      forall i | 0 <= i < k - 1 ensures Answer(poll, after, i) == Answer(poll, frame, i + 1) {
      }
      AwaitWaits(next, h, k - 1);
    }
  }

  /**
   The poll function answers 1 (PENDING) to the first `k` calls and something else to the next.  Then
   await polls exactly k+1 times.  It returns the value at offset 8 of the frame on 0 (READY), at offset
   16 on 3 (PANICKED) or 4 (ERROR), and the task's own exception otherwise; a task without a frame
   keeps its own result and exception.  The task is terminal, its frame is what k+1 calls make of it,
   and no other task changes.
   */
  lemma {:induction false} AwaitPolls(r: Registry, h: int, k: nat)
    requires Valid(r) && h in r.tasks && !Terminal(r.tasks[h].state)
    requires r.tasks[h].pollFnId in r.pollFunctions
    requires var poll, frame := r.pollFunctions[r.tasks[h].pollFnId], FrameOf(r, r.tasks[h]);
             (forall i :: 0 <= i < k ==> Answer(poll, frame, i) == 1) && Answer(poll, frame, k) != 1
    ensures var poll, frame := r.pollFunctions[r.tasks[h].pollFnId], FrameOf(r, r.tasks[h]);
            var last, answer := FrameAfter(poll, frame, k + 1), Answer(poll, frame, k);
            var a := Await(r, h, k + 2);
            && a.Some? && a.value.polls == k + 1
            && h in a.value.registry.tasks && Terminal(a.value.registry.tasks[h].state)
            && a.value.value == Value(a.value.registry.tasks[h])
            && (if r.tasks[h].framePtr == 0
                then a.value.value == (if answer == 0 then r.tasks[h].result else r.tasks[h].exception)
                     && a.value.registry.frames == r.frames
                else a.value.value == (if answer == 0 then Load(last, 8)
                                       else if answer in {3, 4} then Load(last, 16)
                                       else r.tasks[h].exception)
                     && a.value.registry.frames == r.frames[r.tasks[h].framePtr := last])
            && (forall g :: g in r.tasks && g != h ==> g in a.value.registry.tasks && a.value.registry.tasks[g] == r.tasks[g])
    decreases k
  {
    hide Load, Apply, Polled, AfterPoll, Await, FrameOf, Answer, FrameAfter, Value, Valid;
    var t := r.tasks[h];
    var poll, frame := r.pollFunctions[t.pollFnId], FrameOf(r, t);
    var next := Polled(r, h);
    PollOnce(r, h);
    AwaitRound(r, h, k + 1);
    FirstPoll(poll, frame, k);
    if k == 0 {
      PollEnds(r, h);
      AwaitEnds(next, h);
    } else {
      var after := Apply(frame, poll(frame).writes);
      assert Answer(poll, frame, 0) == PENDING;
      PollWaits(r, h);
      forall i | 0 <= i < k ensures Answer(poll, after, i) == Answer(poll, frame, i + 1) {
        FirstPoll(poll, frame, i + 1);
      }
      AwaitPolls(next, h, k - 1);
    }
  }

  /** What one poll does to the registry. */
  lemma PollOnce(r: Registry, h: int)
    requires Valid(r) && h in r.tasks && r.tasks[h].pollFnId in r.pollFunctions
    ensures var next, t := Polled(r, h), r.tasks[h];
            var frame := Apply(FrameOf(r, t), r.pollFunctions[t.pollFnId](FrameOf(r, t)).writes);
            && Valid(next) && next.tasks.Keys == r.tasks.Keys && next.pollFunctions == r.pollFunctions
            && next.tasks[h].framePtr == t.framePtr && next.tasks[h].pollFnId == t.pollFnId
            && FrameOf(next, next.tasks[h]) == frame
            && next.frames == (if t.framePtr == 0 then r.frames else r.frames[t.framePtr := frame])
            && (forall g :: g in r.tasks && g != h ==> next.tasks[g] == r.tasks[g])
  {
    hide Load, Apply;
  }

  /** One round of await, case by case. */
  lemma AwaitUnfolds(r: Registry, h: int, rounds: nat)
    requires Await(r, h, rounds).Some?
    ensures rounds > 0
    ensures h !in r.tasks ==> Await(r, h, rounds) == Some(Awaited(r, 0, 0))
    ensures h in r.tasks ==>
              var t := r.tasks[h];
              if Terminal(t.state) then Await(r, h, rounds) == Some(Awaited(r, Value(t), 0))
              else if t.pollFnId !in r.pollFunctions
              then Await(r, h, rounds) == Some(Awaited(r.(tasks := r.tasks[h := t.(state := Completed)]), t.result, 0))
              else Await(Polled(r, h), h, rounds - 1).Some?
                   && var a := Await(Polled(r, h), h, rounds - 1).value; Await(r, h, rounds) == Some(a.(polls := a.polls + 1))
  {
    hide Polled;
  }

  lemma AwaitRound(r: Registry, h: int, rounds: nat)
    requires h in r.tasks && !Terminal(r.tasks[h].state) && r.tasks[h].pollFnId in r.pollFunctions
    ensures Await(r, h, rounds + 1)
         == match Await(Polled(r, h), h, rounds) case None => None case Some(a) => Some(a.(polls := a.polls + 1))
  {
    hide Polled;
  }

  lemma AwaitEnds(r: Registry, h: int)
    requires h in r.tasks && Terminal(r.tasks[h].state)
    ensures Await(r, h, 1) == Some(Awaited(r, Value(r.tasks[h]), 0))
  {
  }

  lemma FirstPoll(poll: PollFn, frame: seq<byte>, k: nat)
    ensures var after := Apply(frame, poll(frame).writes);
            && Answer(poll, frame, 0) == poll(frame).answer
            && (k > 0 ==> Answer(poll, frame, k) == Answer(poll, after, k - 1))
            && FrameAfter(poll, frame, k + 1) == FrameAfter(poll, after, k) && FrameAfter(poll, after, 0) == after
  {
    hide Apply;
  }

  /** The task after a poll that ends it. */
  lemma PollEnds(r: Registry, h: int)
    requires Valid(r) && h in r.tasks && r.tasks[h].pollFnId in r.pollFunctions && !Terminal(r.tasks[h].state)
    requires r.pollFunctions[r.tasks[h].pollFnId](FrameOf(r, r.tasks[h])).answer != PENDING
    ensures var t, after := r.tasks[h], Polled(r, h).tasks[h];
            var step := r.pollFunctions[t.pollFnId](FrameOf(r, t));
            var frame := Apply(FrameOf(r, t), step.writes);
            && Terminal(after.state)
            && (t.framePtr != 0 ==> |frame| >= HEADER_SIZE)
            && Value(after) == (if t.framePtr == 0 then if step.answer == READY then t.result else t.exception
                                else if step.answer == READY then Load(frame, RESULT_OFFSET)
                                else if step.answer == ERROR || step.answer == PANICKED then Load(frame, EXCEPTION_OFFSET)
                                else t.exception)
  {
    hide Load, Apply;
  }

  lemma PollWaits(r: Registry, h: int)
    requires h in r.tasks && r.tasks[h].pollFnId in r.pollFunctions
    requires r.pollFunctions[r.tasks[h].pollFnId](FrameOf(r, r.tasks[h])).answer == PENDING
    ensures Polled(r, h).tasks[h] == r.tasks[h].(state := Waiting)
  {
    hide Load, Apply;
  }

  /** Everything that the first `n` calls store, in order. */
  function AllWrites(poll: PollFn, frame: seq<byte>, n: nat): seq<Write>
    decreases n
  {
    if n == 0 then []
    else
      var writes := poll(frame).writes;
      writes + AllWrites(poll, Apply(frame, writes), n - 1)
  }

  lemma {:induction false} ApplyTwice(frame: seq<byte>, a: seq<Write>, b: seq<Write>)
    ensures Apply(frame, a + b) == Apply(Apply(frame, a), b)
    decreases |a|
  {
    hide Store;
    if a == [] {
      assert a + b == b;
    } else {
      assert (a + b)[1..] == a[1..] + b;
      ApplyTwice(if Fits(frame, a[0]) then Store(frame, a[0].offset, a[0].value) else frame, a[1..], b);
    }
  }

  lemma {:induction false} FrameIsAllWrites(poll: PollFn, frame: seq<byte>, n: nat)
    ensures FrameAfter(poll, frame, n) == Apply(frame, AllWrites(poll, frame, n))
    decreases n
  {
    hide Apply;
    if n == 0 {
      NoWrites(frame);
    } else {
      var writes := poll(frame).writes;
      var after := Apply(frame, writes);
      FrameIsAllWrites(poll, after, n - 1);
      ApplyTwice(frame, writes, AllWrites(poll, after, n - 1));
    }
  }

  lemma NoWrites(frame: seq<byte>)
    ensures Apply(frame, []) == frame
  {
  }

  /**
   The poll function stores whole slots and answers 1 (PENDING) to the first `k` calls.  If it then answers
   0 (READY), await returns the last value ever stored at offset 8, and at offset 16 if it answers
   3 (PANICKED) or 4 (ERROR).
   */
  lemma AwaitReturnsTheLastStore(r: Registry, h: int, k: nat)
    requires Valid(r) && h in r.tasks && !Terminal(r.tasks[h].state)
    requires r.tasks[h].framePtr in r.frames && r.tasks[h].pollFnId in r.pollFunctions
    requires var poll, frame := r.pollFunctions[r.tasks[h].pollFnId], FrameOf(r, r.tasks[h]);
             && (forall i :: 0 <= i < k ==> Answer(poll, frame, i) == 1)
             && Answer(poll, frame, k) in {0, 3, 4}
             && WholeSlots(frame, AllWrites(poll, frame, k + 1))
    ensures var poll, frame := r.pollFunctions[r.tasks[h].pollFnId], FrameOf(r, r.tasks[h]);
            var slot := if Answer(poll, frame, k) == 0 then 8 else 16;
            var a := Await(r, h, k + 2);
            a.Some? && a.value.value == LastStored(AllWrites(poll, frame, k + 1), slot, Load(frame, slot))
  {
    var poll, frame := r.pollFunctions[r.tasks[h].pollFnId], FrameOf(r, r.tasks[h]);
    WholeFrame(r, r.tasks[h].framePtr);
    hide *;
    AwaitLoads(r, h, k);
    SlotAfterAllWrites(poll, frame, k + 1, if Answer(poll, frame, k) == READY then RESULT_OFFSET else EXCEPTION_OFFSET);
  }

  /** How the task ends, by the first answer that is not 1: 0 completed, 2 cancelled, 3 panicked, any other an error. */
  lemma {:induction false} AwaitEndsIn(r: Registry, h: int, k: nat)
    requires Valid(r) && h in r.tasks && !Terminal(r.tasks[h].state) && r.tasks[h].pollFnId in r.pollFunctions
    requires var poll, frame := r.pollFunctions[r.tasks[h].pollFnId], FrameOf(r, r.tasks[h]);
             (forall i :: 0 <= i < k ==> Answer(poll, frame, i) == 1) && Answer(poll, frame, k) != 1
    ensures var poll, frame := r.pollFunctions[r.tasks[h].pollFnId], FrameOf(r, r.tasks[h]);
            var a, answer := Await(r, h, k + 2), Answer(poll, frame, k);
            && a.Some? && h in a.value.registry.tasks
            && var t := a.value.registry.tasks[h];
               && t.state == (if answer == 0 then Completed else if answer == 2 then Cancelled
                              else if answer == 3 then Panicked else Error)
               && t.cancelled == r.tasks[h].cancelled
               && (answer != 0 ==> t.result == r.tasks[h].result)
               && (answer !in {3, 4} ==> t.exception == r.tasks[h].exception)
    decreases k
  {
    hide Load, Apply, Polled, Await, FrameOf, Answer, FrameAfter, Value, Valid;
    var poll, frame := r.pollFunctions[r.tasks[h].pollFnId], FrameOf(r, r.tasks[h]);
    var next := Polled(r, h);
    PollOnce(r, h);
    AwaitRound(r, h, k + 1);
    FirstPoll(poll, frame, k);
    if k == 0 {
      PolledTask(r, h);
      AwaitEnds(next, h);
    } else {
      var after := Apply(frame, poll(frame).writes);
      assert Answer(poll, frame, 0) == 1;
      PollWaits(r, h);
      forall i | 0 <= i < k ensures Answer(poll, after, i) == Answer(poll, frame, i + 1) {
        FirstPoll(poll, frame, i + 1);
      }
      AwaitEndsIn(next, h, k - 1);
    }
  }

  lemma PolledTask(r: Registry, h: int)
    requires h in r.tasks && r.tasks[h].pollFnId in r.pollFunctions
    ensures var t := r.tasks[h];
            var step := r.pollFunctions[t.pollFnId](FrameOf(r, t));
            Polled(r, h).tasks[h] == AfterPoll(t, step.answer, Apply(FrameOf(r, t), step.writes))
  {
    hide Apply, AfterPoll, FrameOf;
  }

  /** Await that polls nothing: an unknown handle gives 0, and a task without a poll function completes with its own result. */
  lemma AwaitWithoutPoll(r: Registry, h: int)
    ensures h !in r.tasks ==> Await(r, h, 1) == Some(Awaited(r, 0, 0))
    ensures h in r.tasks && !Terminal(r.tasks[h].state) && r.tasks[h].pollFnId !in r.pollFunctions ==>
              Await(r, h, 1)
              == Some(Awaited(r.(tasks := r.tasks[h := r.tasks[h].(state := Completed)]), r.tasks[h].result, 0))
  {
  }

  lemma WholeFrame(r: Registry, ptr: nat)
    requires Valid(r) && ptr in r.frames
    ensures ptr != 0 && (forall h :: h in r.tasks && r.tasks[h].framePtr == ptr ==> |FrameOf(r, r.tasks[h])| >= HEADER_SIZE)
  {
  }

  lemma AwaitLoads(r: Registry, h: int, k: nat)
    requires Valid(r) && h in r.tasks && !Terminal(r.tasks[h].state)
    requires r.tasks[h].framePtr in r.frames && r.tasks[h].pollFnId in r.pollFunctions
    requires |FrameOf(r, r.tasks[h])| >= HEADER_SIZE
    requires var poll, frame := r.pollFunctions[r.tasks[h].pollFnId], FrameOf(r, r.tasks[h]);
             && (forall i :: 0 <= i < k ==> Answer(poll, frame, i) == PENDING)
             && Answer(poll, frame, k) in {READY, ERROR, PANICKED}
    ensures var poll, frame := r.pollFunctions[r.tasks[h].pollFnId], FrameOf(r, r.tasks[h]);
            var a := Await(r, h, k + 2);
            a.Some? && a.value.value == Load(FrameAfter(poll, frame, k + 1),
                                             if Answer(poll, frame, k) == READY then RESULT_OFFSET else EXCEPTION_OFFSET)
  {
    WholeFrame(r, r.tasks[h].framePtr);
    hide *;
    AwaitPolls(r, h, k);
  }

  lemma SlotAfterAllWrites(poll: PollFn, frame: seq<byte>, n: nat, slot: nat)
    requires slot % 8 == 0 && slot + 8 <= |frame| && WholeSlots(frame, AllWrites(poll, frame, n))
    ensures Load(FrameAfter(poll, frame, n), slot) == LastStored(AllWrites(poll, frame, n), slot, Load(frame, slot))
  {
    hide *;
    FrameIsAllWrites(poll, frame, n);
    SlotsHoldTheLastStore(frame, AllWrites(poll, frame, n), slot);
  }

  /** Join returns what await returned. */
  lemma {:induction false} JoinIsAwait(r: Registry, h: int, rounds: nat)
    requires Await(r, h, rounds).Some?
    ensures Joined(Await(r, h, rounds).value, h) == Await(r, h, rounds).value.value
    decreases rounds
  {
    hide Polled;
    if h in r.tasks && !Terminal(r.tasks[h].state) && r.tasks[h].pollFnId in r.pollFunctions {
      JoinIsAwait(Polled(r, h), h, rounds - 1);
    }
  }

  // ---------------------------------------------------------------------------------------
  // Runs
  // ---------------------------------------------------------------------------------------

  /** The calls that change the registry or a frame.  Join changes what await changes. */
  datatype Op =
    | Alloc(ptr: nat, size: nat)
    | StoreSlot(ptr: nat, offset: nat, v: int)
    | StoreState(ptr: nat, id: nat)
    | Register(pollFnId: int, poll: PollFn)
    | Spawn(framePtr: nat, pollFnId: int)
    | CancelTask(handle: int)
    | AwaitTask(handle: int, rounds: nat)

  /** What the runtime demands of a call; an await must end. */
  predicate Enabled(r: Registry, op: Op) {
    match op
    case Alloc(ptr, _) => ptr != 0 && ptr !in r.frames
    case StoreSlot(ptr, offset, v) => IsI64(v) && (ptr == 0 || (ptr in r.frames && offset + 8 <= |r.frames[ptr]|))
    case StoreState(ptr, _) => ptr == 0 || (ptr in r.frames && 4 <= |r.frames[ptr]|)
    case Register(_, _) => true
    case Spawn(ptr, _) => IsFrame(r, ptr)
    case CancelTask(_) => true
    case AwaitTask(h, rounds) => Await(r, h, rounds).Some?
  }

  function Step(r: Registry, op: Op): Registry
    requires Enabled(r, op)
  {
    match op
    case Alloc(ptr, size) => r.(frames := r.frames[ptr := seq(size, _ => 0)])
    case StoreSlot(ptr, offset, v) =>
      if ptr == 0 then r else r.(frames := r.frames[ptr := Store(r.frames[ptr], offset, v)])
    case StoreState(ptr, id) =>
      if ptr == 0 then r else r.(frames := r.frames[ptr := SetState(r.frames[ptr], id)])
    case Register(id, poll) => r.(pollFunctions := r.pollFunctions[id := poll])
    case Spawn(ptr, id) =>
      r.(nextHandle := r.nextHandle + 1, tasks := r.tasks[r.nextHandle := Task(ptr, id, Ready, 0, 0, false)])
    case CancelTask(h) => Cancel(r, h)
    case AwaitTask(h, rounds) => Await(r, h, rounds).value.registry
  }

  /** `later` is reached from `r` by `ops`, each enabled where it happens. */
  ghost predicate Reaches(r: Registry, ops: seq<Op>, later: Registry)
    decreases |ops|
  {
    if ops == [] then later == r else Enabled(r, ops[0]) && Reaches(Step(r, ops[0]), ops[1..], later)
  }

  lemma {:induction false} AwaitKeeps(r: Registry, h: int, rounds: nat, g: int)
    requires Valid(r) && Await(r, h, rounds).Some?
    ensures Valid(Await(r, h, rounds).value.registry)
    ensures g in r.tasks && Terminal(r.tasks[g].state) ==>
              var s := Await(r, h, rounds).value.registry; g in s.tasks && s.tasks[g] == r.tasks[g]
    decreases rounds
  {
    hide Apply;
    if h in r.tasks && !Terminal(r.tasks[h].state) && r.tasks[h].pollFnId in r.pollFunctions {
      hide AfterPoll;
      PollKeepsTheFrame(r, h);
      AwaitKeeps(Polled(r, h), h, rounds - 1, g);
    }
  }

  lemma PollKeepsTheFrame(r: Registry, h: int)
    requires Valid(r) && h in r.tasks && r.tasks[h].pollFnId in r.pollFunctions
    ensures Valid(Polled(r, h))
  {
    hide Load, Apply;
  }

  lemma StepKeeps(r: Registry, op: Op, g: int)
    requires Valid(r) && Enabled(r, op)
    ensures Valid(Step(r, op))
    ensures g in r.tasks && Terminal(r.tasks[g].state) && op != CancelTask(g) ==>
              g in Step(r, op).tasks && Step(r, op).tasks[g] == r.tasks[g]
  {
    hide Await, Store, SetState;
    if op.AwaitTask? {
      AwaitKeeps(r, op.handle, op.rounds, g);
    }
  }

  /** A terminal task after a run: as it was, or cancelled if the run cancels it. */
  lemma {:induction false} TerminalAfter(r: Registry, ops: seq<Op>, later: Registry, h: int)
    requires Valid(r) && h in r.tasks && Terminal(r.tasks[h].state) && Reaches(r, ops, later)
    ensures h in later.tasks
    ensures later.tasks[h]
         == if CancelTask(h) in ops then r.tasks[h].(cancelled := true, state := Cancelled) else r.tasks[h]
    decreases |ops|
  {
    if ops != [] {
      StepKeeps(r, ops[0], h);
      if ops[0] == CancelTask(h) {
        assert Step(r, ops[0]) == Cancel(r, h);
      }
      hide Step, Enabled;
      TerminalAfter(Step(r, ops[0]), ops[1..], later, h);
      assert CancelTask(h) in ops <==> ops[0] == CancelTask(h) || CancelTask(h) in ops[1..];
    }
  }

  /**
   A terminal task stays as it is over every run in which it is not cancelled, so that every later
   await and join returns the same value without polling.
   */
  lemma {:induction false} TerminalForGood(r: Registry, ops: seq<Op>, later: Registry, h: int)
    requires Valid(r) && h in r.tasks && Terminal(r.tasks[h].state)
    requires Reaches(r, ops, later) && CancelTask(h) !in ops
    ensures h in later.tasks && later.tasks[h] == r.tasks[h]
    ensures Await(later, h, 1) == Some(Awaited(later, Value(r.tasks[h]), 0))
    ensures Joined(Awaited(later, Value(r.tasks[h]), 0), h) == Value(r.tasks[h])
  {
    TerminalAfter(r, ops, later, h);
  }

  /** What a task's result field holds, whatever its state. */
  function TaskResult(r: Registry, h: int): int {
    if h in r.tasks then r.tasks[h].result else 0
  }

  /**
   A completed result over any run: await and join return it until a cancel, and the exception field
   from then on.  So it stays available to them exactly if the task is not cancelled, or if the two are
   equal.  The result query still reads it.
   */
  lemma {:induction false} CancelHidesTheResult(r: Registry, ops: seq<Op>, later: Registry, h: int)
    requires Valid(r) && h in r.tasks && r.tasks[h].state.Completed? && Reaches(r, ops, later)
    ensures var value := if CancelTask(h) in ops then r.tasks[h].exception else r.tasks[h].result;
            Await(later, h, 1) == Some(Awaited(later, value, 0)) && Joined(Awaited(later, value, 0), h) == value
    ensures Await(later, h, 1).value.value == r.tasks[h].result
       <==> CancelTask(h) !in ops || r.tasks[h].exception == r.tasks[h].result
    ensures TaskResult(later, h) == r.tasks[h].result
  {
    TerminalAfter(r, ops, later, h);
  }

  /** What the other calls leave in the registry: a spawn a ready task, a cancel a cancelled one; null frames nothing. */
  lemma CallsInTheRegistry(r: Registry, ptr: nat, id: int, h: int, v: int, poll: PollFn)
    ensures ptr != 0 && ptr !in r.frames ==>
              var frame := Step(r, Alloc(ptr, 32)).frames[ptr];
              |frame| == 32 && (forall i :: 0 <= i < 32 ==> frame[i] == 0) && IsFrame(Step(r, Alloc(ptr, 32)), ptr)
    ensures IsFrame(r, ptr) ==>
              Step(r, Spawn(ptr, id))
              == r.(nextHandle := r.nextHandle + 1, tasks := r.tasks[r.nextHandle := Task(ptr, id, Ready, 0, 0, false)])
    ensures Step(r, Register(id, poll)) == r.(pollFunctions := r.pollFunctions[id := poll])
    ensures h !in r.tasks ==> Step(r, CancelTask(h)) == r && TaskResult(r, h) == 0
    ensures h in r.tasks ==>
              var t := Step(r, CancelTask(h));
              t.tasks == r.tasks[h := r.tasks[h].(cancelled := true, state := Cancelled)]
              && t.frames == r.frames && t.pollFunctions == r.pollFunctions && t.nextHandle == r.nextHandle
    ensures IsI64(v) ==> Step(r, StoreSlot(0, ptr, v)) == r == Step(r, StoreState(0, ptr))
  {
  }

  /** A store reaches the frame it names, and nothing else. */
  lemma StoresInTheFrame(r: Registry, ptr: nat, offset: nat, v: int, id: nat)
    requires ptr in r.frames && ptr != 0 && 16 <= |r.frames[ptr]| && offset + 8 <= |r.frames[ptr]| && IsI64(v) && id < 0x1_0000_0000
    ensures var t := Step(r, StoreSlot(ptr, offset, v));
            && Load(t.frames[ptr], offset) == v && t.frames - {ptr} == r.frames - {ptr} && t.(frames := r.frames) == r
    ensures var t := Step(r, StoreState(ptr, id));
            && GetState(t.frames[ptr]) == id && t.frames - {ptr} == r.frames - {ptr} && t.(frames := r.frames) == r
  {
    hide Load, Store, GetState, SetState;
    LoadAfterStore(r.frames[ptr], offset, v, offset);
    StateIsApart(r.frames[ptr], id, 8, v);
  }

  /** A slot is eight bytes, low-order first, in two's complement; the state id is the first four bytes. */
  lemma SlotsInBytes(frame: seq<byte>, offset: nat, v: int, id: nat)
    requires 8 <= offset && offset + 8 <= |frame| && IsI64(v) && id < 0x1_0000_0000
    ensures var n := Decode(frame[offset..offset + 8]);
            Load(frame, offset) == if n < 0x8000_0000_0000_0000 then n else n - 0x1_0000_0000_0000_0000
    ensures Store(frame, offset, v)[..offset] == frame[..offset] && Store(frame, offset, v)[offset + 8..] == frame[offset + 8..]
    ensures GetState(frame) == Decode(frame[0..4]) && SetState(frame, id)[4..] == frame[4..]
  {
    hide Decode, Encode;
  }

  // ---------------------------------------------------------------------------------------
  // The runtime
  // ---------------------------------------------------------------------------------------

  class AsyncRuntime {
    var tasks: map<int, Task>
    var nextHandle: int
    var pollFunctions: map<int, PollFn>
    var frames: map<nat, seq<byte>>

    ghost function View(): Registry
      reads this
    {
      Registry(tasks, nextHandle, pollFunctions, frames)
    }

    constructor ()
      ensures Valid(View()) && View() == Registry(map[], 1, map[], map[])
    {
      tasks, nextHandle, pollFunctions, frames := map[], 1, map[], map[];
    }

    method FrameStore(ptr: nat, offset: nat, v: int)
      requires Enabled(View(), StoreSlot(ptr, offset, v))
      modifies this
      ensures View() == Step(old(View()), StoreSlot(ptr, offset, v))
    {
      if ptr == 0 {
        return;
      }
      frames := frames[ptr := Store(frames[ptr], offset, v)];
    }

    method FrameLoad(ptr: nat, offset: nat) returns (v: int)
      requires ptr == 0 || (ptr in frames && offset + 8 <= |frames[ptr]|)
      ensures v == if ptr == 0 then 0 else Load(frames[ptr], offset)
    {
      v := if ptr == 0 then 0 else Load(frames[ptr], offset);
    }

    method SpawnWithPoll(framePtr: nat, pollFnId: int) returns (handle: int)
      requires Valid(View()) && Enabled(View(), Spawn(framePtr, pollFnId))
      modifies this
      ensures View() == Step(old(View()), Spawn(framePtr, pollFnId)) && Valid(View())
      ensures handle == old(nextHandle) && handle !in old(tasks)
    {
      handle := nextHandle;
      nextHandle := nextHandle + 1;
      tasks := tasks[handle := Task(framePtr, pollFnId, Ready, 0, 0, false)];
    }

    method RegisterPollFn(pollFnId: int, poll: PollFn)
      modifies this
      ensures View() == Step(old(View()), Register(pollFnId, poll))
    {
      pollFunctions := pollFunctions[pollFnId := poll];
    }

    method GetResult(handle: int) returns (result: int)
      ensures result == TaskResult(View(), handle)
    {
      result := if handle in tasks then tasks[handle].result else 0;
    }

    method CancelTask(handle: int) returns (r: int)
      modifies this
      ensures View() == Cancel(old(View()), handle)
      ensures r == if handle in tasks then 0 else -1
    {
      if handle in tasks {
        tasks := tasks[handle := tasks[handle].(cancelled := true, state := Cancelled)];
        r := 0;
      } else {
        r := -1;
      }
    }

    /** The poll loop.  `rounds` witnesses that it ends. */
    method AwaitTask(handle: int, ghost rounds: nat) returns (value: int, ghost polls: nat)
      requires Await(View(), handle, rounds).Some?
      modifies this
      ensures Some(Awaited(View(), value, polls)) == Await(old(View()), handle, rounds)
    {
      hide Apply, AfterPoll, Await;
      ghost var left := rounds;
      polls := 0;
      while true
        invariant Await(View(), handle, left).Some?
        invariant var a := Await(View(), handle, left).value;
                  Await(old(View()), handle, rounds) == Some(a.(polls := a.polls + polls))
        decreases left
      {
        AwaitUnfolds(View(), handle, left);
        if handle !in tasks {
          return 0, polls;
        }
        var task := tasks[handle];
        match task.state {
          case Completed => return task.result, polls;
          case Error => return task.exception, polls;
          case Panicked => return task.exception, polls;
          case Cancelled => return task.exception, polls;
          case _ =>
        }
        if task.pollFnId !in pollFunctions {
          tasks := tasks[handle := task.(state := Completed)];
          return task.result, polls;
        }
        var frame := if task.framePtr in frames then frames[task.framePtr] else [];
        var step := pollFunctions[task.pollFnId](frame);
        frame := Apply(frame, step.writes);
        if task.framePtr in frames {
          frames := frames[task.framePtr := frame];
        }
        tasks := tasks[handle := AfterPoll(task, step.answer, frame)];
        left, polls := left - 1, polls + 1;
      }
    }

    method JoinTask(handle: int, ghost rounds: nat) returns (value: int)
      requires Await(View(), handle, rounds).Some?
      modifies this
      ensures var a := Await(old(View()), handle, rounds).value; View() == a.registry && value == a.value
    {
      ghost var polls;
      ghost var before := View();
      value, polls := AwaitTask(handle, rounds);
      JoinIsAwait(before, handle, rounds);
      if handle in tasks && (tasks[handle].state.Error? || tasks[handle].state.Panicked?) {
        value := tasks[handle].exception;
      }
    }
  }
}
