/**
 Closures behind integer handles: an environment of captured values filled by a scan for the first
 zero slot, calls with up to eight arguments, and the variadic call.  A lambda is a function of the
 list of its arguments, captures first.  Handles do not run out.
 */
module Closures {
  import opened Options

  const MAX_TOTAL_ARITY := 16

  type Lambda = seq<int> -> int

  datatype Closure = Closure(lambda: Lambda, env: seq<int>, numCaptures: int)

  datatype Table = Table(closures: map<int, Closure>, next: int)

  /** The environment has a slot per capture; a negative count allocates none. */
  ghost predicate Valid(t: Table) {
    forall h :: h in t.closures ==>
      h < t.next && |t.closures[h].env| == if t.closures[h].numCaptures > 0 then t.closures[h].numCaptures else 0
  }

  /** What a call yields: a value, or the panic of a call with too many captures. */
  datatype Outcome = Returned(value: int) | Panicked

  // ---------------------------------------------------------------------------------------
  // Environments
  // ---------------------------------------------------------------------------------------

  function Zeros(n: nat): (env: seq<int>)
    ensures |env| == n
  {
    seq(n, _ => 0)
  }

  /** The index of the first zero slot, or the number of slots. */
  function FirstZero(env: seq<int>): (k: nat)
    ensures k <= |env| && (forall i :: 0 <= i < k ==> env[i] != 0)
    ensures k < |env| ==> env[k] == 0
  {
    if env == [] || env[0] == 0 then 0 else 1 + FirstZero(env[1..])
  }

  function Capture(env: seq<int>, value: int): (after: seq<int>)
    ensures |after| == |env|
  {
    var k := FirstZero(env);
    if k < |env| then env[k := value] else env
  }

  function CaptureAll(env: seq<int>, values: seq<int>): (after: seq<int>)
    ensures |after| == |env|
    decreases |values|
  {
    if values == [] then env else CaptureAll(Capture(env, values[0]), values[1..])
  }

  function NonZero(values: seq<int>): (kept: seq<int>)
    ensures forall i :: 0 <= i < |kept| ==> kept[i] != 0
  {
    if values == [] then []
    else if values[0] == 0 then NonZero(values[1..])
    else [values[0]] + NonZero(values[1..])
  }

  /** The first `n` of `values`, padded with zeros to `n`. */
  function Padded(values: seq<int>, n: nat): (env: seq<int>)
    ensures |env| == n
  {
    if |values| >= n then values[..n] else values + Zeros(n - |values|)
  }

  lemma CaptureAppends(kept: seq<int>, n: nat, value: int)
    requires forall i :: 0 <= i < |kept| ==> kept[i] != 0
    ensures Capture(Padded(kept, n), value) == if value == 0 then Padded(kept, n) else Padded(kept + [value], n)
  {
    var env := Padded(kept, n);
    if |kept| < n {
      assert env[|kept|] == 0;
      assert FirstZero(env) == |kept|;
    } else {
      assert FirstZero(env) == n;
    }
  }

  lemma {:induction false} CapturesFrom(kept: seq<int>, n: nat, values: seq<int>)
    requires forall i :: 0 <= i < |kept| ==> kept[i] != 0
    ensures CaptureAll(Padded(kept, n), values) == Padded(kept + NonZero(values), n)
    decreases |values|
  {
    hide Padded, Capture;
    if values == [] {
      assert kept + NonZero(values) == kept;
    } else {
      CaptureAppends(kept, n, values[0]);
      if values[0] == 0 {
        CapturesFrom(kept, n, values[1..]);
      } else {
        CapturesFrom(kept + [values[0]], n, values[1..]);
        assert kept + [values[0]] + NonZero(values[1..]) == kept + NonZero(values);
      }
    }
  }

  /** After any captures, the slots hold the first of the non-zero values in order, then zeros. */
  lemma CapturesFillTheEnvironment(n: nat, values: seq<int>)
    ensures CaptureAll(Zeros(n), values) == Padded(NonZero(values), n)
  {
    assert Zeros(n) == Padded([], n);
    assert [] + NonZero(values) == NonZero(values);
    CapturesFrom([], n, values);
  }

  /** No captured zero among the first `n` is followed by a non-zero value. */
  predicate NoZeroOvertaken(values: seq<int>, n: nat) {
    forall i, j :: 0 <= i < j < |values| && i < n && values[i] == 0 ==> values[j] == 0
  }

  lemma {:induction false} PaddedSteps(v: int, rest: seq<int>, n: nat)
    ensures n > 0 ==> Padded([v] + rest, n) == [v] + Padded(rest, n - 1)
  {
  }

  lemma {:induction false} AllZero(values: seq<int>)
    requires forall j :: 0 <= j < |values| ==> values[j] == 0
    ensures NonZero(values) == []
    decreases |values|
  {
    if values != [] {
      AllZero(values[1..]);
    }
  }

  lemma {:induction false} SomeNonZero(values: seq<int>, j: nat)
    requires j < |values| && values[j] != 0
    ensures NonZero(values) != []
    decreases |values|
  {
    if values[0] == 0 {
      SomeNonZero(values[1..], j - 1);
    }
  }

  lemma KeptHead(values: seq<int>, n: nat)
    requires values != [] && values[0] != 0 && n > 0
    ensures Padded(NonZero(values), n) == Padded(values, n)
       <==> Padded(NonZero(values[1..]), n - 1) == Padded(values[1..], n - 1)
  {
    var v, rest := values[0], values[1..];
    PaddedSteps(v, rest, n);
    PaddedSteps(v, NonZero(rest), n);
    assert values == [v] + rest && NonZero(values) == [v] + NonZero(rest);
    hide Padded, NonZero;
    var a, b := Padded(NonZero(rest), n - 1), Padded(rest, n - 1);
    assert ([v] + a)[1..] == a && ([v] + b)[1..] == b;
  }

  lemma LostHead(values: seq<int>, n: nat)
    requires values != [] && values[0] == 0 && n > 0
    ensures Padded(NonZero(values), n) == Padded(values, n) <==> NoZeroOvertaken(values, n)
  {
    if j: nat :| j < |values| && values[j] != 0 {
      SomeNonZero(values, j);
      assert Padded(NonZero(values), n)[0] != 0 && Padded(values, n)[0] == 0;
    } else {
      AllZero(values);
      assert Padded(values, n) == Zeros(n) == Padded([], n);
    }
  }

  /** The environment is the captured list itself, cut or padded to its slots, exactly when no zero is overtaken. */
  lemma EnvironmentIsTheCaptures(n: nat, values: seq<int>)
    ensures CaptureAll(Zeros(n), values) == Padded(values, n) <==> NoZeroOvertaken(values, n)
  {
    hide *;
    CapturesFillTheEnvironment(n, values);
    NothingLostIff(n, values);
  }

  lemma {:induction false} NothingLostIff(n: nat, values: seq<int>)
    ensures Padded(NonZero(values), n) == Padded(values, n) <==> NoZeroOvertaken(values, n)
    decreases |values|
  {
    if values == [] || n == 0 {
      NothingToLose(n, values);
    } else if values[0] != 0 {
      hide *;
      NothingLostIff(n - 1, values[1..]);
      KeptHead(values, n);
      TailOvertakes(values, n);
    } else {
      hide *;
      LostHead(values, n);
    }
  }

  lemma NothingToLose(n: nat, values: seq<int>)
    requires values == [] || n == 0
    ensures Padded(NonZero(values), n) == Padded(values, n) && NoZeroOvertaken(values, n)
  {
    hide Padded;
    if n == 0 {
      assert Padded(NonZero(values), n) == [] == Padded(values, n);
    }
  }

  lemma TailOvertakes(values: seq<int>, n: nat)
    requires values != [] && values[0] != 0 && n > 0
    ensures NoZeroOvertaken(values, n) <==> NoZeroOvertaken(values[1..], n - 1)
  {
    var rest := values[1..];
    if NoZeroOvertaken(rest, n - 1) {
      forall i, j | 0 <= i < j < |values| && i < n && values[i] == 0 ensures values[j] == 0 {
        assert rest[i - 1] == 0 && rest[j - 1] == values[j];
      }
    }
    if NoZeroOvertaken(values, n) {
      forall i, j | 0 <= i < j < |rest| && i < n - 1 && rest[i] == 0 ensures rest[j] == 0 {
        assert values[i + 1] == 0 && values[j + 1] == rest[j];
      }
    }
  }

  /** A closure made for `n` captures and given `n` non-zero values holds exactly these. */
  lemma NonZeroCapturesAreKept(values: seq<int>)
    requires forall i :: 0 <= i < |values| ==> values[i] != 0
    ensures CaptureAll(Zeros(|values|), values) == values
  {
    EnvironmentIsTheCaptures(|values|, values);
  }

  // ---------------------------------------------------------------------------------------
  // Calls
  // ---------------------------------------------------------------------------------------

  /** How many captures the entry point for `k` arguments handles. */
  function CaptureLimit(k: nat): nat {
    match k
    case 0 => 4
    case 1 => 3
    case 2 => 2
    case 3 => 2
    case 4 => 1
    case 5 => 1
    case _ => 0
  }

  /** The entry points for 0 to 8 arguments; an unknown handle yields 0. */
  function Call(t: Table, h: int, args: seq<int>): Outcome
    requires |args| <= 8
  {
    if h !in t.closures then Returned(0)
    else
      var c := t.closures[h];
      if 0 <= c.numCaptures <= CaptureLimit(|args|) then Returned(c.lambda(c.env + args)) else Panicked
  }

  /** The variadic entry point; `args` is `None` for a null pointer. */
  function CallVariadic(t: Table, h: int, args: Option<seq<int>>, numArgs: int): int
    requires args.Some? && numArgs >= 0 ==> numArgs <= |args.value|
  {
    if numArgs < 0 || h !in t.closures then 0
    else
      var c := t.closures[h];
      if c.numCaptures < 0 || c.numCaptures + numArgs > MAX_TOTAL_ARITY then 0
      else if numArgs > 0 && args.None? then 0
      else c.lambda(c.env + if numArgs > 0 then args.value[..numArgs] else [])
  }

  /**
   The two ways to call agree wherever the fixed one returns; it panics exactly when the closure
   exists and has more captures than its entry point handles, or a negative number of them.
   */
  lemma FixedAgreesWithVariadic(t: Table, h: int, args: seq<int>)
    requires Valid(t) && |args| <= 8
    ensures Call(t, h, args).Panicked? <==>
              h in t.closures && !(0 <= t.closures[h].numCaptures <= CaptureLimit(|args|))
    ensures Call(t, h, args).Returned? ==> Call(t, h, args).value == CallVariadic(t, h, Some(args), |args|)
    ensures Call(t, h, args).Returned? && h in t.closures ==>
              Call(t, h, args).value == t.closures[h].lambda(t.closures[h].env + args)
  {
    assert CaptureLimit(|args|) + |args| <= MAX_TOTAL_ARITY;
    assert args[..|args|] == args;
  }

  /**
   From captures to the result: a closure made for `values` and given them, with no zero overtaken,
   applies its lambda to the values and then the arguments, by either way to call.
   */
  lemma CallSeesTheCaptures(t: Table, h: int, values: seq<int>, args: seq<int>)
    requires h in t.closures && |args| <= 8 && |values| <= CaptureLimit(|args|) && NoZeroOvertaken(values, |values|)
    requires t.closures[h].env == CaptureAll(Zeros(|values|), values) && t.closures[h].numCaptures == |values|
    ensures Call(t, h, args) == Returned(t.closures[h].lambda(values + args))
    ensures CallVariadic(t, h, Some(args), |args|) == t.closures[h].lambda(values + args)
  {
    hide CaptureAll, NoZeroOvertaken;
    EnvironmentIsTheCaptures(|values|, values);
    assert Padded(values, |values|) == values;
    assert args[..|args|] == args;
  }

  /**
   The limits, in numbers: the entry points for 0 to 8 arguments handle up to 4, 3, 2, 2, 1, 1, 0, 0 and 0
   captures and panic beyond; the variadic one handles up to sixteen captures and arguments and gives 0 beyond.
   */
  lemma LimitsInNumbers(t: Table, h: int, args: seq<int>, numArgs: nat)
    requires Valid(t) && h in t.closures && |args| <= 8
    ensures Call(t, h, args).Panicked? <==> !(0 <= t.closures[h].numCaptures <= [4, 3, 2, 2, 1, 1, 0, 0, 0][|args|])
    ensures numArgs <= |args| ==>
              var c := t.closures[h];
              CallVariadic(t, h, Some(args), numArgs)
              == if 0 <= c.numCaptures && c.numCaptures + numArgs <= 16 then c.lambda(c.env + args[..numArgs]) else 0
  {
    assert args[..0] == [];
  }

  /** More than eight arguments, and calls that give 0: an unknown handle, a negative count, and no argument list. */
  lemma VariadicInNumbers(t: Table, h: int, args: seq<int>, numArgs: int)
    requires numArgs <= |args|
    ensures numArgs < 0 || h !in t.closures ==> CallVariadic(t, h, Some(args), numArgs) == 0
    ensures numArgs > 0 ==> CallVariadic(t, h, None, numArgs) == 0
    ensures h !in t.closures && |args| <= 8 ==> Call(t, h, args) == Returned(0)
    ensures h in t.closures && 0 < numArgs && 0 <= t.closures[h].numCaptures && t.closures[h].numCaptures + numArgs <= 16 ==>
              CallVariadic(t, h, Some(args), numArgs) == t.closures[h].lambda(t.closures[h].env + args[..numArgs])
    ensures h in t.closures && 0 < numArgs && t.closures[h].numCaptures + numArgs > 16 ==>
              CallVariadic(t, h, Some(args), numArgs) == 0
    ensures h in t.closures && 0 <= t.closures[h].numCaptures <= 16 ==>
              CallVariadic(t, h, None, 0) == t.closures[h].lambda(t.closures[h].env) == CallVariadic(t, h, Some(args), 0)
  {
    if h in t.closures {
      assert t.closures[h].env + [] == t.closures[h].env;
    }
  }

  // ---------------------------------------------------------------------------------------
  // The runtime
  // ---------------------------------------------------------------------------------------

  class ClosureRuntime {
    var closures: map<int, Closure>
    var next: int

    ghost function View(): Table
      reads this
    {
      Table(closures, next)
    }

    constructor ()
      ensures Valid(View()) && View() == Table(map[], 1)
    {
      closures, next := map[], 1;
    }

    method New(lambda: Lambda, numCaptures: int) returns (h: int)
      requires Valid(View())
      modifies this
      ensures Valid(View()) && h == old(next) && h !in old(closures)
      ensures View() == Table(
        old(closures)[h := Closure(lambda, Zeros(if numCaptures > 0 then numCaptures else 0), numCaptures)], old(next) + 1)
    {
      h := next;
      next := next + 1;
      closures := closures[h := Closure(lambda, Zeros(if numCaptures > 0 then numCaptures else 0), numCaptures)];
    }

    /** Scans for the first zero slot and stores there; without one, or without a closure, nothing happens. */
    method CaptureValue(h: int, value: int)
      requires Valid(View())
      modifies this
      ensures Valid(View())
      ensures View() == if h !in old(closures) then old(View())
                        else Table(old(closures)[h := old(closures)[h].(env := Capture(old(closures)[h].env, value))], old(next))
    {
      if h in closures {
        var c := closures[h];
        var i := 0;
        while i < c.numCaptures
          invariant 0 <= i <= |c.env|
          invariant forall k :: 0 <= k < i ==> c.env[k] != 0
        {
          if c.env[i] == 0 {
            assert FirstZero(c.env) == i;
            closures := closures[h := c.(env := c.env[i := value])];
            return;
          }
          i := i + 1;
        }
        assert FirstZero(c.env) == |c.env|;
        assert closures[h := c] == closures;
      }
    }

    method Call0(h: int) returns (r: Outcome)
      requires Valid(View())
      ensures r == Call(View(), h, [])
      ensures r.Returned? ==> r.value == CallVariadic(View(), h, Some([]), 0)
    {
      FixedAgreesWithVariadic(View(), h, []);
      if h !in closures {
        return Returned(0);
      }
      var Closure(f, env, n) := closures[h];
      match n {
        case 0 =>
          assert env + [] == [];
          r := Returned(f([]));
        case 1 =>
          assert env + [] == [env[0]];
          r := Returned(f([env[0]]));
        case 2 =>
          assert env + [] == [env[0], env[1]];
          r := Returned(f([env[0], env[1]]));
        case 3 =>
          assert env + [] == [env[0], env[1], env[2]];
          r := Returned(f([env[0], env[1], env[2]]));
        case 4 =>
          assert env + [] == [env[0], env[1], env[2], env[3]];
          r := Returned(f([env[0], env[1], env[2], env[3]]));
        case _ => r := Panicked;
      }
    }

    method Call1(h: int, a0: int) returns (r: Outcome)
      requires Valid(View())
      ensures r == Call(View(), h, [a0])
      ensures r.Returned? ==> r.value == CallVariadic(View(), h, Some([a0]), 1)
    {
      FixedAgreesWithVariadic(View(), h, [a0]);
      if h !in closures {
        return Returned(0);
      }
      var Closure(f, env, n) := closures[h];
      match n {
        case 0 =>
          assert env + [a0] == [a0];
          r := Returned(f([a0]));
        case 1 =>
          assert env + [a0] == [env[0], a0];
          r := Returned(f([env[0], a0]));
        case 2 =>
          assert env + [a0] == [env[0], env[1], a0];
          r := Returned(f([env[0], env[1], a0]));
        case 3 =>
          assert env + [a0] == [env[0], env[1], env[2], a0];
          r := Returned(f([env[0], env[1], env[2], a0]));
        case _ => r := Panicked;
      }
    }

    method Call2(h: int, a0: int, a1: int) returns (r: Outcome)
      requires Valid(View())
      ensures r == Call(View(), h, [a0, a1])
      ensures r.Returned? ==> r.value == CallVariadic(View(), h, Some([a0, a1]), 2)
    {
      FixedAgreesWithVariadic(View(), h, [a0, a1]);
      if h !in closures {
        return Returned(0);
      }
      var Closure(f, env, n) := closures[h];
      match n {
        case 0 =>
          assert env + [a0, a1] == [a0, a1];
          r := Returned(f([a0, a1]));
        case 1 =>
          assert env + [a0, a1] == [env[0], a0, a1];
          r := Returned(f([env[0], a0, a1]));
        case 2 =>
          assert env + [a0, a1] == [env[0], env[1], a0, a1];
          r := Returned(f([env[0], env[1], a0, a1]));
        case _ => r := Panicked;
      }
    }

    method Call3(h: int, a0: int, a1: int, a2: int) returns (r: Outcome)
      requires Valid(View())
      ensures r == Call(View(), h, [a0, a1, a2])
      ensures r.Returned? ==> r.value == CallVariadic(View(), h, Some([a0, a1, a2]), 3)
    {
      FixedAgreesWithVariadic(View(), h, [a0, a1, a2]);
      if h !in closures {
        return Returned(0);
      }
      var Closure(f, env, n) := closures[h];
      match n {
        case 0 =>
          assert env + [a0, a1, a2] == [a0, a1, a2];
          r := Returned(f([a0, a1, a2]));
        case 1 =>
          assert env + [a0, a1, a2] == [env[0], a0, a1, a2];
          r := Returned(f([env[0], a0, a1, a2]));
        case 2 =>
          assert env + [a0, a1, a2] == [env[0], env[1], a0, a1, a2];
          r := Returned(f([env[0], env[1], a0, a1, a2]));
        case _ => r := Panicked;
      }
    }

    method Call4(h: int, a0: int, a1: int, a2: int, a3: int) returns (r: Outcome)
      requires Valid(View())
      ensures r == Call(View(), h, [a0, a1, a2, a3])
      ensures r.Returned? ==> r.value == CallVariadic(View(), h, Some([a0, a1, a2, a3]), 4)
    {
      FixedAgreesWithVariadic(View(), h, [a0, a1, a2, a3]);
      if h !in closures {
        return Returned(0);
      }
      var Closure(f, env, n) := closures[h];
      match n {
        case 0 =>
          assert env + [a0, a1, a2, a3] == [a0, a1, a2, a3];
          r := Returned(f([a0, a1, a2, a3]));
        case 1 =>
          assert env + [a0, a1, a2, a3] == [env[0], a0, a1, a2, a3];
          r := Returned(f([env[0], a0, a1, a2, a3]));
        case _ => r := Panicked;
      }
    }

    method Call5(h: int, a0: int, a1: int, a2: int, a3: int, a4: int) returns (r: Outcome)
      requires Valid(View())
      ensures r == Call(View(), h, [a0, a1, a2, a3, a4])
      ensures r.Returned? ==> r.value == CallVariadic(View(), h, Some([a0, a1, a2, a3, a4]), 5)
    {
      FixedAgreesWithVariadic(View(), h, [a0, a1, a2, a3, a4]);
      if h !in closures {
        return Returned(0);
      }
      var Closure(f, env, n) := closures[h];
      match n {
        case 0 =>
          assert env + [a0, a1, a2, a3, a4] == [a0, a1, a2, a3, a4];
          r := Returned(f([a0, a1, a2, a3, a4]));
        case 1 =>
          assert env + [a0, a1, a2, a3, a4] == [env[0], a0, a1, a2, a3, a4];
          r := Returned(f([env[0], a0, a1, a2, a3, a4]));
        case _ => r := Panicked;
      }
    }

    method Call6(h: int, a0: int, a1: int, a2: int, a3: int, a4: int, a5: int) returns (r: Outcome)
      requires Valid(View())
      ensures r == Call(View(), h, [a0, a1, a2, a3, a4, a5])
      ensures r.Returned? ==> r.value == CallVariadic(View(), h, Some([a0, a1, a2, a3, a4, a5]), 6)
    {
      FixedAgreesWithVariadic(View(), h, [a0, a1, a2, a3, a4, a5]);
      if h !in closures {
        return Returned(0);
      }
      var Closure(f, env, n) := closures[h];
      match n {
        case 0 =>
          assert env + [a0, a1, a2, a3, a4, a5] == [a0, a1, a2, a3, a4, a5];
          r := Returned(f([a0, a1, a2, a3, a4, a5]));
        case _ => r := Panicked;
      }
    }

    method Call7(h: int, a0: int, a1: int, a2: int, a3: int, a4: int, a5: int, a6: int) returns (r: Outcome)
      requires Valid(View())
      ensures r == Call(View(), h, [a0, a1, a2, a3, a4, a5, a6])
      ensures r.Returned? ==> r.value == CallVariadic(View(), h, Some([a0, a1, a2, a3, a4, a5, a6]), 7)
    {
      FixedAgreesWithVariadic(View(), h, [a0, a1, a2, a3, a4, a5, a6]);
      if h !in closures {
        return Returned(0);
      }
      var Closure(f, env, n) := closures[h];
      match n {
        case 0 =>
          assert env + [a0, a1, a2, a3, a4, a5, a6] == [a0, a1, a2, a3, a4, a5, a6];
          r := Returned(f([a0, a1, a2, a3, a4, a5, a6]));
        case _ => r := Panicked;
      }
    }

    method Call8(h: int, a0: int, a1: int, a2: int, a3: int, a4: int, a5: int, a6: int, a7: int) returns (r: Outcome)
      requires Valid(View())
      ensures r == Call(View(), h, [a0, a1, a2, a3, a4, a5, a6, a7])
      ensures r.Returned? ==> r.value == CallVariadic(View(), h, Some([a0, a1, a2, a3, a4, a5, a6, a7]), 8)
    {
      FixedAgreesWithVariadic(View(), h, [a0, a1, a2, a3, a4, a5, a6, a7]);
      if h !in closures {
        return Returned(0);
      }
      var Closure(f, env, n) := closures[h];
      match n {
        case 0 =>
          assert env + [a0, a1, a2, a3, a4, a5, a6, a7] == [a0, a1, a2, a3, a4, a5, a6, a7];
          r := Returned(f([a0, a1, a2, a3, a4, a5, a6, a7]));
        case _ => r := Panicked;
      }
    }

    /** Pushes the captures and then the arguments, and dispatches on their number. */
    method InvokeVariadic(h: int, args: Option<seq<int>>, numArgs: int) returns (value: int)
      requires Valid(View()) && (args.Some? && numArgs >= 0 ==> numArgs <= |args.value|)
      ensures value == CallVariadic(View(), h, args, numArgs)
    {
      if numArgs < 0 || h !in closures {
        return 0;
      }
      var c := closures[h];
      if c.numCaptures < 0 || c.numCaptures + numArgs > MAX_TOTAL_ARITY {
        return 0;
      }
      var all: seq<int> := [];
      for i := 0 to c.numCaptures
        invariant all == c.env[..i]
      {
        all := all + [c.env[i]];
      }
      if numArgs > 0 {
        if args.None? {
          return 0;
        }
        for i := 0 to numArgs
          invariant all == c.env + args.value[..i]
        {
          all := all + [args.value[i]];
        }
      }
      assert numArgs == 0 ==> all == c.env + [];
      value := c.lambda(all);
    }

    method Free(h: int)
      requires Valid(View())
      modifies this
      ensures Valid(View()) && View() == Table(old(closures) - {h}, old(next))
    {
      closures := closures - {h};
    }
  }
}
