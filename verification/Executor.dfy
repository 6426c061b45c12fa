/**
 The native executor: Fibonacci work that saturates at 64 bits, and the table of task handles.
 Handles are taken as unbounded numbers.
 */
module Executor {

  const MAX := 0x7FFF_FFFF_FFFF_FFFF
  const MIN := -0x8000_0000_0000_0000

  // ---------------------------------------------------------------------------------------
  // Fibonacci
  // ---------------------------------------------------------------------------------------

  function Fibonacci(n: nat): nat {
    if n < 2 then n else Fibonacci(n - 1) + Fibonacci(n - 2)
  }

  function Clamp(x: int): int {
    if x > MAX then MAX else if x < MIN then MIN else x
  }

  /** What the work function gives for any argument. */
  function Work(n: int): int {
    if n < 0 then 0 else Clamp(Fibonacci(n))
  }

  /** Saturating at every step is the same as cutting the true number off once. */
  method Fib(n: int) returns (f: int)
    ensures f == Work(n)
  {
    if n <= 1 {
      return if n > 0 then n else 0;
    }
    var a, b := 0, 1;
    for i := 0 to n
      invariant a == Clamp(Fibonacci(i)) && b == Clamp(Fibonacci(i + 1))
    {
      var next := Clamp(a + b);
      a := b;
      b := next;
    }
    f := a;
  }

  lemma {:induction false} FibonacciGrows(m: nat, n: nat)
    requires m <= n
    ensures Fibonacci(m) <= Fibonacci(n)
    decreases n
  {
    if m < n {
      FibonacciGrows(m, n - 1);
    }
  }

  lemma NextFibonacci(n: nat)
    ensures Fibonacci(n + 2) == Fibonacci(n + 1) + Fibonacci(n)
  {
  }

  lemma FiveOn(n: nat)
    ensures Fibonacci(n + 5) == 3 * Fibonacci(n) + 5 * Fibonacci(n + 1)
    ensures Fibonacci(n + 6) == 5 * Fibonacci(n) + 8 * Fibonacci(n + 1)
  {
    hide Fibonacci;
    NextFibonacci(n);
    NextFibonacci(n + 1);
    NextFibonacci(n + 2);
    NextFibonacci(n + 3);
    NextFibonacci(n + 4);
  }

  lemma ThirtyOn(n: nat)
    ensures Fibonacci(n + 30) == 514_229 * Fibonacci(n) + 832_040 * Fibonacci(n + 1)
    ensures Fibonacci(n + 31) == 832_040 * Fibonacci(n) + 1_346_269 * Fibonacci(n + 1)
  {
    hide Fibonacci;
    FiveOn(n);
    FiveOn(n + 5);
    FiveOn(n + 10);
    FiveOn(n + 15);
    FiveOn(n + 20);
    FiveOn(n + 25);
  }

  lemma FibonacciAtTheLimit(zero: nat)
    requires zero == 0
    ensures Fibonacci(zero + 92) == 7_540_113_804_746_346_429
    ensures Fibonacci(zero + 93) == 12_200_160_415_121_876_738
  {
    assert Fibonacci(zero) == 0 && Fibonacci(zero + 1) == 1;
    hide Fibonacci;
    ThirtyOn(zero);
    ThirtyOn(zero + 30);
    ThirtyOn(zero + 60);
    NextFibonacci(zero + 90);
    NextFibonacci(zero + 91);
  }

  /** The work is exact up to 92 and saturates from 93 on. */
  lemma {:induction false} ExactUpTo92(n: nat)
    ensures Work(n) == Fibonacci(n) <==> n <= 92
    ensures n > 92 ==> Work(n) == MAX
  {
    hide Fibonacci;
    FibonacciAtTheLimit(0);
    if n <= 92 {
      FibonacciGrows(n, 92);
    } else {
      FibonacciGrows(93, n);
    }
  }

  // ---------------------------------------------------------------------------------------
  // The task table
  // ---------------------------------------------------------------------------------------

  datatype State = State(threadCount: int, nextHandle: int, tasks: map<int, int>, workerTasks: map<int, int>)

  function Fresh(threadCount: int): State {
    State(if threadCount > 0 then threadCount else 0, 1, map[], map[])
  }

  datatype Op =
    | Init(threadCount: int)
    | Spawn(fnId: int)
    | SpawnWithArg(fnId: int, arg: int)
    | SpawnAwait(subFnId: int, subArg: int, accum: int)
    | Join(handle: int)
    | Cancel(handle: int)
    | ResetStats
  {
    predicate Spawns() {
      Spawn? || SpawnWithArg? || SpawnAwait?
    }

    /** What the spawned task will deliver. */
    function Result(): int
      requires Spawns()
    {
      match this
      case Spawn(fnId) => fnId
      case SpawnWithArg(fnId, arg) => if fnId == 2 then Work(arg) else arg
      case SpawnAwait(fnId, arg, accum) => Clamp(accum + if fnId == 2 then Work(arg) else arg)
    }
  }

  function TasksOf(counts: map<int, int>, worker: int): int {
    if worker in counts then counts[worker] else 0
  }

  function Allocate(s: State, result: int): State {
    s.(nextHandle := s.nextHandle + 1,
       tasks := s.tasks[s.nextHandle := result],
       workerTasks := s.workerTasks[0 := TasksOf(s.workerTasks, 0) + 1])
  }

  /** The state after a call, and what the call answers. */
  function Step(s: State, op: Op): (State, int) {
    if op.Spawns() then (Allocate(s, op.Result()), s.nextHandle)
    else
      match op
      case Init(n) => (Fresh(n), if n > 0 then 1 else 0)
      case Join(h) => (s.(tasks := s.tasks - {h}), if h in s.tasks then s.tasks[h] else -1)
      case Cancel(h) => (s.(tasks := s.tasks - {h}), if h in s.tasks then 0 else -1)
      case ResetStats => (s.(workerTasks := map[]), 0)
  }

  function After(s: State, ops: seq<Op>): State
    decreases |ops|
  {
    if ops == [] then s else Step(After(s, ops[..|ops| - 1]), ops[|ops| - 1]).0
  }

  class ExecutorRuntime {
    var threadCount: int
    var nextHandle: int
    var tasks: map<int, int>
    var workerTasks: map<int, int>

    ghost function Value(): State
      reads this
    {
      State(threadCount, nextHandle, tasks, workerTasks)
    }

    constructor ()
      ensures Value() == Fresh(0)
    {
      threadCount, nextHandle, tasks, workerTasks := 0, 1, map[], map[];
    }

    method AllocateTask(result: int) returns (handle: int)
      modifies this
      ensures Value() == Allocate(old(Value()), result) && handle == old(nextHandle)
    {
      handle := nextHandle;
      nextHandle := nextHandle + 1;
      tasks := tasks[handle := result];
      var count := if 0 in workerTasks then workerTasks[0] else 0;
      workerTasks := workerTasks[0 := count + 1];
    }

    method DoInit(count: int) returns (ok: int)
      modifies this
      ensures (Value(), ok) == Step(old(Value()), Init(count))
    {
      threadCount := if count > 0 then count else 0;
      tasks := map[];
      workerTasks := map[];
      nextHandle := 1;
      ok := if count > 0 then 1 else 0;
    }

    method DoSpawn(fnId: int) returns (handle: int)
      modifies this
      ensures (Value(), handle) == Step(old(Value()), Spawn(fnId))
    {
      handle := AllocateTask(fnId);
    }

    method DoSpawnWithArg(fnId: int, arg: int) returns (handle: int)
      modifies this
      ensures (Value(), handle) == Step(old(Value()), SpawnWithArg(fnId, arg))
    {
      var result := arg;
      if fnId == 2 {
        result := Fib(arg);
      }
      handle := AllocateTask(result);
    }

    method DoSpawnAwait(subFnId: int, subArg: int, accum: int) returns (handle: int)
      modifies this
      ensures (Value(), handle) == Step(old(Value()), SpawnAwait(subFnId, subArg, accum))
    {
      var sub := subArg;
      if subFnId == 2 {
        sub := Fib(subArg);
      }
      handle := AllocateTask(Clamp(accum + sub));
    }

    method DoJoin(handle: int) returns (result: int)
      modifies this
      ensures (Value(), result) == Step(old(Value()), Join(handle))
    {
      result := if handle in tasks then tasks[handle] else -1;
      tasks := tasks - {handle};
    }

    method DoCancel(handle: int) returns (status: int)
      modifies this
      ensures (Value(), status) == Step(old(Value()), Cancel(handle))
    {
      status := if handle in tasks then 0 else -1;
      tasks := tasks - {handle};
    }

    method DoResetStats() returns (status: int)
      modifies this
      ensures (Value(), status) == Step(old(Value()), ResetStats)
    {
      workerTasks := map[];
      status := 0;
    }
  }

  // ---------------------------------------------------------------------------------------
  // The ledger
  // ---------------------------------------------------------------------------------------

  /** The calls since the last init. */
  function SinceInit(ops: seq<Op>): (r: seq<Op>)
    ensures forall i :: 0 <= i < |r| ==> !r[i].Init?
    decreases |ops|
  {
    if ops == [] || ops[|ops| - 1].Init? then [] else SinceInit(ops[..|ops| - 1]) + [ops[|ops| - 1]]
  }

  function Issued(ops: seq<Op>): nat
    decreases |ops|
  {
    if ops == [] then 0
    else Issued(ops[..|ops| - 1]) + if ops[|ops| - 1].Spawns() then 1 else 0
  }

  datatype Fate = Unborn | Pending(result: int) | Delivered(result: int) | Cancelled

  /** The history of one handle, without the table: the h-th spawn, then its first join or cancel. */
  function FateOf(ops: seq<Op>, h: int): Fate
    decreases |ops|
  {
    if ops == [] then Unborn
    else
      var before, fate, op := ops[..|ops| - 1], FateOf(ops[..|ops| - 1], h), ops[|ops| - 1];
      if op.Spawns() && h == Issued(before) + 1 then Pending(op.Result())
      else if fate.Pending? && op == Join(h) then Delivered(fate.result)
      else if fate.Pending? && op == Cancel(h) then Cancelled
      else fate
  }

  /** The table holds the pending handles with their results, and nothing else. */
  ghost predicate Tracks(s: State, ops: seq<Op>) {
    && s.nextHandle == Issued(ops) + 1
    && (forall h :: h in s.tasks <==> FateOf(ops, h).Pending?)
    && (forall h :: h in s.tasks ==> s.tasks[h] == FateOf(ops, h).result)
  }

  lemma {:induction false} UnbornAhead(ops: seq<Op>, h: int)
    ensures FateOf(ops, h).Unborn? <==> !(1 <= h <= Issued(ops))
    decreases |ops|
  {
    if ops != [] {
      UnbornAhead(ops[..|ops| - 1], h);
    }
  }

  /** The table follows the history of the calls since the last init, whatever came before it. */
  lemma {:induction false} TableTracksHistory(ops: seq<Op>)
    ensures Tracks(After(Fresh(0), ops), SinceInit(ops))
    decreases |ops|
  {
    if ops != [] && !ops[|ops| - 1].Init? {
      var front, op := ops[..|ops| - 1], ops[|ops| - 1];
      TableTracksHistory(front);
      StepTracks(After(Fresh(0), front), SinceInit(front), op);
    }
  }

  lemma StepTracks(s: State, seg: seq<Op>, op: Op)
    requires Tracks(s, seg) && !op.Init?
    ensures Tracks(Step(s, op).0, seg + [op])
  {
    assert (seg + [op])[..|seg|] == seg;
    UnbornAhead(seg, Issued(seg) + 1);
  }

  /** A join delivers the result of the spawn that issued the handle, if no call took it before. */
  lemma {:induction false} JoinAnswers(ops: seq<Op>, h: int)
    ensures var fate := FateOf(SinceInit(ops), h);
            Step(After(Fresh(0), ops), Join(h)).1 == if fate.Pending? then fate.result else -1
  {
    hide After, FateOf, SinceInit, Issued;
    TableTracksHistory(ops);
  }

  /** What was delivered or cancelled stays so: no later join delivers it again. */
  lemma {:induction false} SettledForGood(ops: seq<Op>, more: seq<Op>, h: int)
    requires FateOf(ops, h).Delivered? || FateOf(ops, h).Cancelled?
    ensures FateOf(ops + more, h) == FateOf(ops, h)
    decreases |more|
  {
    if more == [] {
      assert ops + more == ops;
    } else {
      var front := ops + more[..|more| - 1];
      assert (ops + more)[..|ops + more| - 1] == front;
      SettledForGood(ops, more[..|more| - 1], h);
      UnbornAhead(front, h);
    }
  }

  /** The join at `i` finds its task in the table. */
  ghost predicate Delivers(ops: seq<Op>, i: nat) {
    i < |ops| && ops[i].Join? && ops[i].handle in After(Fresh(0), ops[..i]).tasks
  }

  lemma {:induction false} SinceInitContinues(ops: seq<Op>, i: nat, j: nat)
    requires i <= j <= |ops| && forall k :: i <= k < j ==> !ops[k].Init?
    ensures SinceInit(ops[..j]) == SinceInit(ops[..i]) + ops[i..j]
    decreases j
  {
    if i < j {
      assert ops[..j][..j - 1] == ops[..j - 1];
      assert ops[i..j] == ops[i..j - 1] + [ops[j - 1]];
      SinceInitContinues(ops, i, j - 1);
    }
  }

  /** Of two joins on one handle at most one delivers, unless an init between them starts the handles over. */
  lemma {:induction false} DeliveredAtMostOnce(ops: seq<Op>, i: nat, j: nat)
    requires i < j && Delivers(ops, i) && Delivers(ops, j)
    ensures ops[i].handle == ops[j].handle ==> exists k :: i < k < j && ops[k].Init?
  {
    if !(exists k :: i < k < j && ops[k].Init?) {
      NoSecondDelivery(ops, i, j);
    }
  }

  lemma NoSecondDelivery(ops: seq<Op>, i: nat, j: nat)
    requires i < j && Delivers(ops, i) && Delivers(ops, j)
    requires forall k :: i < k < j ==> !ops[k].Init?
    ensures ops[i].handle != ops[j].handle
  {
    var h, seg, more := ops[i].handle, SinceInit(ops[..i]), ops[i + 1..j];
    InTable(ops[..i], h);
    InTable(ops[..j], ops[j].handle);
    assert ops[i] == Join(h);
    hide *;
    SinceInitContinues(ops, i, j);
    assert ops[i..j] == [Join(h)] + more;
    assert seg + ([Join(h)] + more) == seg + [Join(h)] + more;
    SecondFindsNone(seg, h, more);
  }

  lemma SecondFindsNone(seg: seq<Op>, h: int, more: seq<Op>)
    requires FateOf(seg, h).Pending?
    ensures !FateOf(seg + [Join(h)] + more, h).Pending?
  {
    hide FateOf;
    JoinDelivers(seg, h);
    SettledForGood(seg + [Join(h)], more, h);
  }

  lemma InTable(ops: seq<Op>, h: int)
    ensures h in After(Fresh(0), ops).tasks <==> FateOf(SinceInit(ops), h).Pending?
  {
    hide After, SinceInit, FateOf, Issued;
    TableTracksHistory(ops);
  }

  lemma JoinDelivers(seg: seq<Op>, h: int)
    requires FateOf(seg, h).Pending?
    ensures FateOf(seg + [Join(h)], h).Delivered?
  {
    UnbornAhead(seg, h);
    assert (seg + [Join(h)])[..|seg|] == seg;
  }

  /** How many joins found their task, and how many cancels. */
  function Deliveries(ops: seq<Op>): nat
    decreases |ops|
  {
    if ops == [] then 0
    else
      var before, op := ops[..|ops| - 1], ops[|ops| - 1];
      Deliveries(before) + if op.Join? && FateOf(before, op.handle).Pending? then 1 else 0
  }

  function Cancellations(ops: seq<Op>): nat
    decreases |ops|
  {
    if ops == [] then 0
    else
      var before, op := ops[..|ops| - 1], ops[|ops| - 1];
      Cancellations(before) + if op.Cancel? && FateOf(before, op.handle).Pending? then 1 else 0
  }

  /** Live, delivered and cancelled tasks are the handles issued since the last init. */
  lemma {:induction false} LedgerBalances(ops: seq<Op>)
    ensures var seg := SinceInit(ops);
            |After(Fresh(0), ops).tasks| + Deliveries(seg) + Cancellations(seg) == Issued(seg)
    decreases |ops|
  {
    if ops != [] && !ops[|ops| - 1].Init? {
      var front, op := ops[..|ops| - 1], ops[|ops| - 1];
      LedgerBalances(front);
      TableTracksHistory(front);
      LedgerSteps(After(Fresh(0), front), SinceInit(front), op);
    }
  }

  lemma LedgerSteps(s: State, seg: seq<Op>, op: Op)
    requires !op.Init? && Tracks(s, seg)
    requires |s.tasks| + Deliveries(seg) + Cancellations(seg) == Issued(seg)
    ensures var next := seg + [op];
            |Step(s, op).0.tasks| + Deliveries(next) + Cancellations(next) == Issued(next)
  {
    hide FateOf;
    assert (seg + [op])[..|seg|] == seg;
    if op.Spawns() {
      UnbornAhead(seg, s.nextHandle);
    } else if op.Join? || op.Cancel? {
      RemovalCounts(s.tasks, op.handle);
    }
  }

  lemma RemovalCounts(m: map<int, int>, h: int)
    ensures |m - {h}| == |m| - if h in m then 1 else 0
  {
    if h in m {
      assert m == (m - {h})[h := m[h]];
    } else {
      assert m - {h} == m;
    }
  }

  /** The counter of worker 0 counts the spawns since the last init or reset. */
  function SinceReset(ops: seq<Op>): seq<Op>
    decreases |ops|
  {
    if ops == [] || ops[|ops| - 1].Init? || ops[|ops| - 1].ResetStats? then []
    else SinceReset(ops[..|ops| - 1]) + [ops[|ops| - 1]]
  }

  lemma {:induction false} WorkerZeroCountsSpawns(ops: seq<Op>)
    ensures TasksOf(After(Fresh(0), ops).workerTasks, 0) == Issued(SinceReset(ops))
    decreases |ops|
  {
    if ops != [] {
      var front, op := ops[..|ops| - 1], ops[|ops| - 1];
      WorkerZeroCountsSpawns(front);
      var seg := SinceReset(front);
      assert (seg + [op])[..|seg|] == seg;
    }
  }

  /** What is delivered, in numbers: the id or the argument itself, Fibonacci work for id 2, saturating sums. */
  lemma ResultsInNumbers(fnId: int, arg: int, accum: int)
    ensures Spawn(fnId).Result() == fnId
    ensures fnId != 2 ==> SpawnWithArg(fnId, arg).Result() == arg
    ensures SpawnWithArg(2, arg).Result()
         == if arg < 0 then 0 else if Fibonacci(arg) < 0x8000_0000_0000_0000 then Fibonacci(arg) else 0x7fff_ffff_ffff_ffff
    ensures var sum := accum + if fnId == 2 then SpawnWithArg(2, arg).Result() else arg;
            SpawnAwait(fnId, arg, accum).Result()
            == if sum > 0x7fff_ffff_ffff_ffff then 0x7fff_ffff_ffff_ffff
               else if sum < -0x8000_0000_0000_0000 then -0x8000_0000_0000_0000 else sum
  {
  }

  /** What the calls answer: handles from 1 on, 1 for an init with threads, 0 or -1 for a cancel. */
  lemma AnswersInNumbers(ops: seq<Op>, op: Op)
    ensures var (t, r) := Step(After(Fresh(0), ops), op);
            && (op.Spawns() ==> r == Issued(SinceInit(ops)) + 1)
            && (op.Init? ==> r == (if op.threadCount > 0 then 1 else 0) && t.threadCount == (if op.threadCount > 0 then op.threadCount else 0))
            && (op.Cancel? ==> r == if FateOf(SinceInit(ops), op.handle).Pending? then 0 else -1)
            && (op.ResetStats? ==> r == 0 && t.tasks == After(Fresh(0), ops).tasks)
            && (!op.Init? ==> t.threadCount == After(Fresh(0), ops).threadCount)
  {
    hide After, FateOf, SinceInit, Issued;
    TableTracksHistory(ops);
  }

  /** An init starts the handles over: an old handle then reaches a new task. */
  lemma {:induction false} HandlesAreReused(ops: seq<Op>, n: int, op: Op)
    requires op.Spawns()
    ensures Step(After(Fresh(0), ops + [Init(n), op]), Join(1)).1 == op.Result()
  {
    var all := ops + [Init(n), op];
    assert all[..|all| - 1] == ops + [Init(n)];
    assert (ops + [Init(n)])[..|ops|] == ops;
  }
}
