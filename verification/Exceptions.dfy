/**
 The life of exception objects: thrown, in flight, caught, rethrown, destroyed.  The runtime has
 one slot for the caught exception.  Objects are numbered in the order they are thrown; the
 number stands for the address, 0 for null.
 */
module Exceptions {
  import opened Options
  import opened LittleEndian

  datatype ArthException = ArthException(typeId: nat, typeName: string, payload: seq<byte>, caught: bool)

  /** The calls of the runtime's interface that touch exception objects. */
  datatype Op =
    | Throw(typeId: nat, typeName: string, data: Option<seq<byte>>)
    | BeginCatch(ptr: nat)
    | EndCatch
    | Rethrow

  /** `inFlight` are the objects the unwinder holds, `destroyed` those it was told to delete, in order. */
  datatype State = State(
    next: nat, objects: map<nat, ArthException>, current: nat, inFlight: set<nat>, destroyed: seq<nat>)

  const INITIAL := State(1, map[], 0, {}, [])

  /** An absent or empty payload is not copied: the object then has none. */
  function Payload(data: Option<seq<byte>>): seq<byte> {
    if data.None? then [] else data.value
  }

  /** The unwinder hands a landing pad null or an exception that is in flight. */
  predicate Legal(s: State, op: Op) {
    op.BeginCatch? ==> op.ptr == 0 || op.ptr in s.inFlight * s.objects.Keys
  }

  /** `None` when the call aborts the program. */
  function Step(s: State, op: Op): Option<State>
    requires Legal(s, op)
  {
    match op
    case Throw(id, name, data) =>
      Some(s.(next := s.next + 1,
              objects := s.objects[s.next := ArthException(id, name, Payload(data), false)],
              inFlight := s.inFlight + {s.next}))
    case BeginCatch(ptr) =>
      if ptr == 0 then Some(s)
      else Some(s.(objects := s.objects[ptr := s.objects[ptr].(caught := true)],
                   current := ptr, inFlight := s.inFlight - {ptr}))
    case EndCatch =>
      if s.current == 0 then Some(s)
      else Some(s.(objects := s.objects - {s.current}, destroyed := s.destroyed + [s.current], current := 0))
    case Rethrow =>
      if s.current == 0 || s.current !in s.objects then None
      else Some(s.(objects := s.objects[s.current := s.objects[s.current].(caught := false)],
                   inFlight := s.inFlight + {s.current}, current := 0))
  }

  /** The state after a run of calls; `None` if one of them is illegal or aborts. */
  function Run(ops: seq<Op>): Option<State> {
    if ops == [] then Some(INITIAL)
    else
      var op, s := ops[|ops| - 1], Run(ops[..|ops| - 1]);
      if s.Some? && Legal(s.value, op) then Step(s.value, op) else None
  }

  // ---------------------------------------------------------------------------------------
  // What runs keep
  // ---------------------------------------------------------------------------------------

  /** The throws of a run: the `p`-th is the origin of object `p`. */
  function Throws(ops: seq<Op>): (ts: seq<Op>)
    ensures forall i :: 0 <= i < |ts| ==> ts[i].Throw?
  {
    if ops == [] then []
    else if ops[|ops| - 1].Throw? then Throws(ops[..|ops| - 1]) + [ops[|ops| - 1]]
    else Throws(ops[..|ops| - 1])
  }

  /** Objects that nothing refers to any more, and that were never deleted. */
  function Lost(s: State): set<nat> {
    s.objects.Keys - s.inFlight - {s.current}
  }

  ghost predicate Distinct(ids: seq<nat>) {
    forall i, j :: 0 <= i < j < |ids| ==> ids[i] != ids[j]
  }

  /** Where each thrown object is. */
  ghost predicate Accounted(s: State) {
    && s.next >= 1
    && (forall p :: 1 <= p < s.next <==> p in s.objects || p in s.destroyed)
    && (forall p :: p in s.objects ==> p !in s.destroyed)
    && Distinct(s.destroyed)
    && s.inFlight <= s.objects.Keys
    && (s.current != 0 ==> s.current in s.objects && s.current !in s.inFlight)
  }

  ghost predicate KeepsOrigins(s: State, origins: seq<Op>)
    requires forall i :: 0 <= i < |origins| ==> origins[i].Throw?
  {
    && s.next == |origins| + 1
    && forall p :: p in s.objects && 1 <= p <= |origins| ==>
         && s.objects[p].payload == Payload(origins[p - 1].data)
         && s.objects[p].typeId == origins[p - 1].typeId
         && s.objects[p].typeName == origins[p - 1].typeName
  }

  lemma StepAccounts(s: State, op: Op)
    requires Accounted(s) && Legal(s, op) && Step(s, op).Some?
    ensures Accounted(Step(s, op).value)
  {
  }

  lemma StepKeepsOrigins(s: State, op: Op, origins: seq<Op>)
    requires forall i :: 0 <= i < |origins| ==> origins[i].Throw?
    requires Accounted(s) && KeepsOrigins(s, origins) && Legal(s, op) && Step(s, op).Some?
    ensures KeepsOrigins(Step(s, op).value, if op.Throw? then origins + [op] else origins)
  {
  }

  lemma {:induction false} RunKeeps(ops: seq<Op>)
    requires Run(ops).Some?
    ensures Accounted(Run(ops).value) && KeepsOrigins(Run(ops).value, Throws(ops))
  {
    if ops != [] {
      var before := ops[..|ops| - 1];
      RunKeeps(before);
      StepAccounts(Run(before).value, ops[|ops| - 1]);
      StepKeepsOrigins(Run(before).value, ops[|ops| - 1], Throws(before));
    }
  }

  /** Some catch of the run begins while an earlier one has not ended. */
  predicate Nests(ops: seq<Op>) {
    if ops == [] then false
    else
      var before, op := ops[..|ops| - 1], ops[|ops| - 1];
      Nests(before) || (Run(before).Some? && op.BeginCatch? && op.ptr != 0 && Run(before).value.current != 0)
  }

  lemma StepLoses(s: State, op: Op)
    requires Accounted(s) && Legal(s, op) && Step(s, op).Some?
    ensures Lost(Step(s, op).value)
         == Lost(s) + if op.BeginCatch? && op.ptr != 0 && s.current != 0 then {s.current} else {}
  {
    var t := Step(s, op).value;
    if op.BeginCatch? && op.ptr != 0 && s.current != 0 {
      assert s.current in Lost(t);
    }
    match op {
      case EndCatch => assert Lost(t) == Lost(s);
      case _ =>
    }
  }

  /** An object is lost exactly by a catch that begins before an earlier one has ended. */
  lemma {:induction false} OnlyNestingLoses(ops: seq<Op>)
    requires Run(ops).Some?
    ensures Lost(Run(ops).value) == {} <==> !Nests(ops)
  {
    if ops != [] {
      var before := ops[..|ops| - 1];
      RunKeeps(before);
      OnlyNestingLoses(before);
      StepLoses(Run(before).value, ops[|ops| - 1]);
    }
  }

  /** How often object `p` occurs among the places an exception can be. */
  function Places(s: State, p: nat): nat {
    (if p in s.inFlight then 1 else 0) + (if p == s.current then 1 else 0) + multiset(s.destroyed)[p]
  }

  lemma {:induction false} DistinctCounts(ids: seq<nat>, p: nat)
    requires Distinct(ids)
    ensures multiset(ids)[p] == if p in ids then 1 else 0
  {
    if ids != [] {
      var init, last := ids[..|ids| - 1], ids[|ids| - 1];
      DistinctCounts(init, p);
      assert ids == init + [last];
    }
  }

  /**
   Ownership.  In every run in which catch regions do not nest, every thrown exception is in exactly
   one place: in flight, current, or destroyed once.  Once nothing is in flight or current, all of
   them have been destroyed, once each.
   */
  lemma EveryExceptionHasOnePlace(ops: seq<Op>, p: nat)
    requires Run(ops).Some? && !Nests(ops)
    requires 1 <= p <= |Throws(ops)|
    ensures Places(Run(ops).value, p) == 1
    ensures Run(ops).value.inFlight == {} && Run(ops).value.current == 0
        ==> multiset(Run(ops).value.destroyed)[p] == 1
  {
    var s := Run(ops).value;
    RunKeeps(ops);
    OnlyNestingLoses(ops);
    DistinctCounts(s.destroyed, p);
    assert p !in Lost(s);
  }

  /**
   Whether or not regions nest, no object is destroyed twice, and a live object carries the payload,
   type id and name of the throw it came from, however often it was caught and rethrown.
   */
  lemma HandlerSeesWhatWasThrown(ops: seq<Op>)
    requires Run(ops).Some?
    ensures forall p :: multiset(Run(ops).value.destroyed)[p] <= 1
    ensures var s := Run(ops).value;
            s.current != 0 ==>
              && s.current in s.objects && 1 <= s.current <= |Throws(ops)|
              && var origin := Throws(ops)[s.current - 1];
                 && s.objects[s.current].payload == Payload(origin.data)
                 && s.objects[s.current].typeId == origin.typeId
                 && s.objects[s.current].typeName == origin.typeName
  {
    RunKeeps(ops);
    var s := Run(ops).value;
    forall p ensures multiset(s.destroyed)[p] <= 1 {
      DistinctCounts(s.destroyed, p);
    }
  }

  /** The smallest nested run: the outer exception is never destroyed, although both catches end. */
  lemma NestedRegionsLeak(first: Op, second: Op)
    requires first.Throw? && second.Throw?
    ensures var run := Run([first, second, BeginCatch(1), BeginCatch(2), EndCatch, EndCatch]);
            run.Some? && run.value.current == 0 && run.value.inFlight == {}
            && run.value.destroyed == [2] && Lost(run.value) == {1}
  {
    var a := ArthException(first.typeId, first.typeName, Payload(first.data), false);
    var b := ArthException(second.typeId, second.typeName, Payload(second.data), false);
    var caught := a.(caught := true);
    StartsInitial();
    hide Run;
    var s1 := State(2, map[1 := a], 0, {1}, []);
    var s2 := State(3, map[1 := a, 2 := b], 0, {1, 2}, []);
    var s3 := State(3, map[1 := caught, 2 := b], 1, {2}, []);
    var s4 := State(3, map[1 := caught, 2 := b.(caught := true)], 2, {}, []);
    var s5 := State(3, map[1 := caught], 0, {}, [2]);
    var ops := Extends([], INITIAL, first, s1);
    ops := Extends(ops, s1, second, s2);
    ops := Extends(ops, s2, BeginCatch(1), s3);
    ops := Extends(ops, s3, BeginCatch(2), s4);
    ops := Extends(ops, s4, EndCatch, s5);
    ops := Extends(ops, s5, EndCatch, s5);
    assert ops == [first, second, BeginCatch(1), BeginCatch(2), EndCatch, EndCatch];
  }

  lemma StartsInitial()
    ensures Run([]) == Some(INITIAL)
  {
  }

  lemma Extends(ops: seq<Op>, s: State, op: Op, t: State) returns (longer: seq<Op>)
    requires Run(ops) == Some(s) && Legal(s, op) && Step(s, op).Some?
    requires var u := Step(s, op).value;
             && u.next == t.next && u.objects == t.objects && u.current == t.current
             && u.inFlight == t.inFlight && u.destroyed == t.destroyed
    ensures longer == ops + [op] && Run(longer) == Some(t)
  {
    longer := ops + [op];
    assert longer[..|longer| - 1] == ops;
  }

  // ---------------------------------------------------------------------------------------
  // What each call does at the end of a run
  // ---------------------------------------------------------------------------------------

  lemma RunExtends(ops: seq<Op>, op: Op)
    ensures Run(ops + [op]) == if Run(ops).Some? && Legal(Run(ops).value, op) then Step(Run(ops).value, op) else None
  {
    assert (ops + [op])[..|ops|] == ops;
  }

  /** A throw puts a new object in flight, with its type, its name and the bytes it was given, and touches nothing else. */
  lemma ThrowPutsInFlight(ops: seq<Op>, typeId: nat, typeName: string, data: Option<seq<byte>>)
    requires Run(ops).Some?
    ensures var s, p, run := Run(ops).value, |Throws(ops)| + 1, Run(ops + [Throw(typeId, typeName, data)]);
            var bytes := if data.None? then [] else data.value;
            && run.Some? && p !in s.objects
            && run.value.objects == s.objects[p := ArthException(typeId, typeName, bytes, false)]
            && run.value.inFlight == s.inFlight + {p} && run.value.current == s.current && run.value.destroyed == s.destroyed
  {
    RunKeeps(ops);
    hide Run;
    RunExtends(ops, Throw(typeId, typeName, data));
  }

  /** A catch takes the exception out of flight and makes it current; null does nothing. */
  lemma CatchMakesCurrent(ops: seq<Op>, p: nat)
    requires Run(ops).Some? && (p == 0 || p in Run(ops).value.inFlight)
    ensures var s, run := Run(ops).value, Run(ops + [BeginCatch(p)]);
            && run.Some? && run.value.destroyed == s.destroyed && run.value.objects.Keys == s.objects.Keys
            && (p == 0 ==> run.value == s)
            && (p != 0 ==> run.value.current == p && run.value.inFlight == s.inFlight - {p}
                           && p in s.objects && run.value.objects[p] == s.objects[p].(caught := true))
  {
    RunKeeps(ops);
    hide Run;
    RunExtends(ops, BeginCatch(p));
  }

  /** The end of a catch destroys the current exception, once; without one it does nothing. */
  lemma EndDestroys(ops: seq<Op>)
    requires Run(ops).Some?
    ensures var s, run := Run(ops).value, Run(ops + [EndCatch]);
            && run.Some? && run.value.inFlight == s.inFlight && run.value.current == 0
            && (s.current == 0 ==> run.value == s)
            && (s.current != 0 ==> run.value.destroyed == s.destroyed + [s.current] && run.value.objects == s.objects - {s.current})
  {
    hide Run;
    RunExtends(ops, EndCatch);
  }

  /** A rethrow puts the current exception back in flight, not destroyed; without one the program is aborted. */
  lemma RethrowPutsBack(ops: seq<Op>)
    requires Run(ops).Some?
    ensures var s, run := Run(ops).value, Run(ops + [Rethrow]);
            && (s.current == 0 ==> run == None)
            && (s.current != 0 ==>
                  && run.Some? && run.value.inFlight == s.inFlight + {s.current} && run.value.current == 0
                  && run.value.destroyed == s.destroyed
                  && s.current in s.objects
                  && run.value.objects == s.objects[s.current := s.objects[s.current].(caught := false)])
  {
    RunKeeps(ops);
    hide Run;
    RunExtends(ops, Rethrow);
  }

  /** So an outer handler then catches the same exception, with the payload of its throw. */
  lemma RethrownIsCaught(ops: seq<Op>)
    requires Run(ops).Some? && Run(ops).value.current != 0
    ensures var p, run := Run(ops).value.current, Run(ops + [Rethrow] + [BeginCatch(Run(ops).value.current)]);
            && run.Some? && run.value.current == p && p !in run.value.inFlight && run.value.destroyed == Run(ops).value.destroyed
            && 1 <= p <= |Throws(ops)| && p in run.value.objects
            && var origin := Throws(ops)[p - 1];
               && run.value.objects[p].payload == (if origin.data.None? then [] else origin.data.value)
               && run.value.objects[p].typeId == origin.typeId && run.value.objects[p].typeName == origin.typeName
  {
    hide Run, Throws;
    var p := Run(ops).value.current;
    RethrowPutsBack(ops);
    CatchMakesCurrent(ops + [Rethrow], p);
    HandlerSeesWhatWasThrown(ops);
  }

  /** Nothing but the end of a catch destroys an exception. */
  lemma OnlyEndDestroys(ops: seq<Op>, op: Op)
    requires Run(ops + [op]).Some?
    ensures Run(ops).Some?
    ensures Run(ops + [op]).value.destroyed != Run(ops).value.destroyed <==> op == EndCatch && Run(ops).value.current != 0
  {
    hide Run;
    RunExtends(ops, op);
  }

  /** The mark of a live object tells that it is not in flight. */
  lemma {:induction false} CaughtIsNotInFlight(ops: seq<Op>, p: nat)
    requires Run(ops).Some? && p in Run(ops).value.objects
    ensures Run(ops).value.objects[p].caught <==> p !in Run(ops).value.inFlight
  {
    if ops != [] {
      var before, op := ops[..|ops| - 1], ops[|ops| - 1];
      assert ops == before + [op];
      RunKeeps(before);
      RunExtends(before, op);
      if p in Run(before).value.objects {
        CaughtIsNotInFlight(before, p);
      }
      hide Run;
    }
  }

  // ---------------------------------------------------------------------------------------
  // The runtime
  // ---------------------------------------------------------------------------------------

  class ExceptionRuntime {
    var objects: map<nat, ArthException>
    var current: nat
    var next: nat
    ghost var inFlight: set<nat>
    ghost var destroyed: seq<nat>

    ghost function View(): State
      reads this
    {
      State(next, objects, current, inFlight, destroyed)
    }

    constructor ()
      ensures View() == INITIAL
    {
      objects, current, next := map[], 0, 1;
      inFlight, destroyed := {}, [];
    }

    method Throw(typeId: nat, typeName: string, data: Option<seq<byte>>) returns (ptr: nat)
      modifies this
      ensures Some(View()) == Step(old(View()), Op.Throw(typeId, typeName, data))
      ensures ptr == old(next)
    {
      ptr := next;
      next := next + 1;
      var exception := ArthException(typeId, typeName, [], false);
      if data.Some? && |data.value| > 0 {
        exception := exception.(payload := data.value);
      }
      objects := objects[ptr := exception];
      inFlight := inFlight + {ptr};
    }

    method BeginCatch(ptr: nat) returns (exception: nat)
      requires Legal(View(), Op.BeginCatch(ptr))
      modifies this
      ensures Some(View()) == Step(old(View()), Op.BeginCatch(ptr))
      ensures exception == ptr
    {
      if ptr != 0 {
        objects := objects[ptr := objects[ptr].(caught := true)];
        current := ptr;
        inFlight := inFlight - {ptr};
      }
      exception := ptr;
    }

    method EndCatch()
      modifies this
      ensures Some(View()) == Step(old(View()), Op.EndCatch)
    {
      if current != 0 {
        objects := objects - {current};
        destroyed := destroyed + [current];
        current := 0;
      }
    }

    method Rethrow() returns (aborts: bool)
      requires Accounted(View())
      modifies this
      ensures Step(old(View()), Op.Rethrow) == if aborts then None else Some(View())
    {
      if current == 0 {
        return true;
      }
      objects := objects[current := objects[current].(caught := false)];
      inFlight := inFlight + {current};
      current := 0;
      aborts := false;
    }

    /** The payload of the current exception; empty without one. */
    method CurrentPayload() returns (payload: seq<byte>)
      requires Accounted(View())
      ensures payload == if current == 0 then [] else objects[current].payload
    {
      payload := [];
      if current != 0 {
        payload := objects[current].payload;
      }
    }
  }
}
