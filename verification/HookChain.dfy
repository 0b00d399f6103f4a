/**
 Cucumber's around-step hooks: every hook gets a callable that re-enters one
 shared chain, whose iterator only moves forward.  A hook may run its callable
 any number of times, so hooks further down are entered by whichever call gets
 there first, and every later call runs the step directly.
 */
module HookChain {
  import opened Base

  /** How a hook reacts: skipped by its tags, or a body that runs its step `times` times. */
  datatype Hook = Hook(tagsMatch: bool, times: nat)

  /** A skipped hook calls the step once. */
  function Calls(h: Hook): nat {
    if h.tagsMatch then h.times else 1
  }

  datatype Event = Enter(hook: nat) | Exit(hook: nat) | RunStep

  // ----- The reference: a budget of outstanding calls -------------------------------

  /** Entering hook `i` spends one outstanding call and brings its own; the chain
      ends when no call is outstanding or no hook is left. */
  function Reached(hooks: seq<Hook>, i: nat, outstanding: nat): (n: nat)
    requires i <= |hooks|
    ensures i <= n <= |hooks|
    decreases |hooks| - i
  {
    if i == |hooks| || outstanding == 0 then i
    else Reached(hooks, i + 1, outstanding - 1 + Calls(hooks[i]))
  }

  /** The calls still outstanding when the chain ends; each of them runs the step. */
  function StepRuns(hooks: seq<Hook>, i: nat, outstanding: nat): (k: nat)
    requires i <= |hooks|
    decreases |hooks| - i
  {
    if i == |hooks| || outstanding == 0 then outstanding
    else StepRuns(hooks, i + 1, outstanding - 1 + Calls(hooks[i]))
  }

  /** What the first `n` hooks add to the calls: `times - 1` for each hook whose tags
      match; a skipped hook adds nothing and takes nothing away. */
  function Extra(hooks: seq<Hook>, n: nat): int
    requires n <= |hooks|
  {
    if n == 0 then 0 else Extra(hooks, n - 1) + if hooks[n - 1].tagsMatch then hooks[n - 1].times - 1 else 0
  }

  /** From hook `i` on, the chain ends at the first hook where all calls are used up,
      or behind the last one; the calls left over run the step. */
  lemma {:induction false} EndsWhenUsedUp(hooks: seq<Hook>, i: nat, outstanding: nat)
    requires i <= |hooks|
    ensures var n := Reached(hooks, i, outstanding);
            && StepRuns(hooks, i, outstanding) == outstanding + Extra(hooks, n) - Extra(hooks, i)
            && (n < |hooks| ==> StepRuns(hooks, i, outstanding) == 0)
            && (forall k :: i <= k < n ==> outstanding + Extra(hooks, k) - Extra(hooks, i) > 0)
    decreases |hooks| - i
  {
    if i < |hooks| && outstanding > 0 {
      EndsWhenUsedUp(hooks, i + 1, outstanding - 1 + Calls(hooks[i]));
    }
  }

  /** The whole chain, by tags and times alone: the step runs once, plus `times - 1` for
      every entered hook whose tags match; the chain stops early exactly when that
      comes to nothing, and at the first hook where it does. */
  lemma StepRunsByTimes(hooks: seq<Hook>)
    ensures var n := Reached(hooks, 0, 1);
            && StepRuns(hooks, 0, 1) == 1 + Extra(hooks, n)
            && (n < |hooks| ==> 1 + Extra(hooks, n) == 0)
            && (forall k :: 0 <= k < n ==> 1 + Extra(hooks, k) > 0)
  {
    EndsWhenUsedUp(hooks, 0, 1);
  }

  /** Hooks that are skipped or run their step once are transparent. */
  lemma {:induction false} OnceEach(hooks: seq<Hook>, i: nat, outstanding: nat)
    requires i <= |hooks| && outstanding > 0
    requires forall k :: i <= k < |hooks| ==> !hooks[k].tagsMatch || hooks[k].times == 1
    ensures Reached(hooks, i, outstanding) == |hooks| && StepRuns(hooks, i, outstanding) == outstanding
    decreases |hooks| - i
  {
    if i < |hooks| {
      OnceEach(hooks, i + 1, outstanding);
    }
  }

  function WithSkipped(hooks: seq<Hook>, at: nat, times: nat): seq<Hook>
    requires at <= |hooks|
  {
    hooks[..at] + [Hook(false, times)] + hooks[at..]
  }

  /** Behind the new hook the chain goes on as before. */
  lemma {:induction false} BehindSkipped(hooks: seq<Hook>, at: nat, times: nat, i: nat, outstanding: nat)
    requires at <= i <= |hooks|
    ensures StepRuns(WithSkipped(hooks, at, times), i + 1, outstanding) == StepRuns(hooks, i, outstanding)
    decreases |hooks| - i
  {
    if i < |hooks| && outstanding > 0 {
      assert WithSkipped(hooks, at, times)[i + 1] == hooks[i];
      BehindSkipped(hooks, at, times, i + 1, outstanding - 1 + Calls(hooks[i]));
    }
  }

  /** Putting in a hook that is skipped, anywhere, does not change how often the step
      runs, and so not its result. */
  lemma {:induction false} SkippedIsTransparent(hooks: seq<Hook>, at: nat, times: nat, i: nat, outstanding: nat)
    requires i <= at <= |hooks|
    ensures StepRuns(WithSkipped(hooks, at, times), i, outstanding) == StepRuns(hooks, i, outstanding)
    decreases at - i
  {
    if outstanding > 0 {
      if i == at {
        assert WithSkipped(hooks, at, times)[i] == Hook(false, times);
        BehindSkipped(hooks, at, times, i, outstanding);
      } else {
        assert WithSkipped(hooks, at, times)[i] == hooks[i];
        SkippedIsTransparent(hooks, at, times, i + 1, outstanding - 1 + Calls(hooks[i]));
      }
    }
  }

  /** Outstanding calls can be served one batch after the other. */
  lemma {:induction false} Batches(hooks: seq<Hook>, i: nat, a: nat, b: nat)
    requires i <= |hooks|
    ensures Reached(hooks, i, a + b) == Reached(hooks, Reached(hooks, i, a), b)
    ensures StepRuns(hooks, i, a + b) == StepRuns(hooks, i, a) + StepRuns(hooks, Reached(hooks, i, a), b)
    decreases |hooks| - i
  {
    if i < |hooks| && a > 0 {
      Batches(hooks, i + 1, a - 1 + Calls(hooks[i]), b);
    }
  }

  // ----- What a trace shows --------------------------------------------------------

  function Entered(trace: seq<Event>): seq<nat> {
    if trace == [] then []
    else (if trace[0].Enter? then [trace[0].hook] else []) + Entered(trace[1..])
  }

  function Steps(trace: seq<Event>): nat {
    if trace == [] then 0 else (if trace[0].RunStep? then 1 else 0) + Steps(trace[1..])
  }

  /** The hooks still open after `trace`, innermost first; None if an exit does
      not belong to the innermost open hook. */
  function Open(trace: seq<Event>, stack: seq<nat>): Option<seq<nat>> {
    if trace == [] then Some(stack)
    else match trace[0]
      case Enter(h) => Open(trace[1..], [h] + stack)
      case Exit(h) => if stack != [] && stack[0] == h then Open(trace[1..], stack[1..]) else None
      case RunStep => Open(trace[1..], stack)
  }

  ghost predicate Nested(trace: seq<Event>) {
    forall stack: seq<nat> :: Open(trace, stack) == Some(stack)
  }

  function Range(i: nat, n: nat): seq<nat>
    requires i <= n
    decreases n - i
  {
    if i == n then [] else [i] + Range(i + 1, n)
  }

  lemma {:induction false} EnteredConcat(a: seq<Event>, b: seq<Event>)
    ensures Entered(a + b) == Entered(a) + Entered(b)
  {
    if a == [] {
      assert a + b == b;
    } else {
      var first := if a[0].Enter? then [a[0].hook] else [];
      EnteredConcat(a[1..], b);
      assert (a + b)[0] == a[0] && (a + b)[1..] == a[1..] + b;
      assert Entered(a + b) == first + Entered(a[1..] + b);
      assert first + (Entered(a[1..]) + Entered(b)) == (first + Entered(a[1..])) + Entered(b);
    }
  }

  lemma {:induction false} StepsConcat(a: seq<Event>, b: seq<Event>)
    ensures Steps(a + b) == Steps(a) + Steps(b)
  {
    if a == [] {
      assert a + b == b;
    } else {
      StepsConcat(a[1..], b);
      assert (a + b)[1..] == a[1..] + b;
    }
  }

  lemma {:induction false} OpenConcat(a: seq<Event>, b: seq<Event>, stack: seq<nat>)
    ensures Open(a + b, stack) == match Open(a, stack) case Some(rest) => Open(b, rest) case None => None
  {
    if a == [] {
      assert a + b == b;
    } else {
      assert (a + b)[1..] == a[1..] + b;
      match a[0]
      case Enter(h) => OpenConcat(a[1..], b, [h] + stack);
      case Exit(h) => if stack != [] && stack[0] == h { OpenConcat(a[1..], b, stack[1..]); }
      case RunStep => OpenConcat(a[1..], b, stack);
    }
  }

  lemma {:induction false} RangeConcat(i: nat, j: nat, n: nat)
    requires i <= j <= n
    ensures Range(i, j) + Range(j, n) == Range(i, n)
    decreases j - i
  {
    if i < j {
      RangeConcat(i + 1, j, n);
      assert Range(i, j) + Range(j, n) == [i] + (Range(i + 1, j) + Range(j, n));
    }
  }

  /** A stretch of the trace in which the hooks `i` up to `n` are entered once, in
      list order, properly nested, with `runs` runs of the step. */
  ghost predicate Stretch(trace: seq<Event>, i: nat, n: nat, runs: nat)
    requires i <= n
  {
    Entered(trace) == Range(i, n) && Steps(trace) == runs && Nested(trace)
  }

  lemma StretchConcat(a: seq<Event>, b: seq<Event>, i: nat, j: nat, n: nat, r: nat, r': nat)
    requires i <= j <= n && Stretch(a, i, j, r) && Stretch(b, j, n, r')
    ensures Stretch(a + b, i, n, r + r')
  {
    EnteredConcat(a, b);
    StepsConcat(a, b);
    RangeConcat(i, j, n);
    forall stack: seq<nat> ensures Open(a + b, stack) == Some(stack) {
      OpenConcat(a, b, stack);
    }
  }

  lemma StretchWrap(a: seq<Event>, i: nat, n: nat, r: nat)
    requires i < n && Stretch(a, i + 1, n, r)
    ensures Stretch([Enter(i)] + a + [Exit(i)], i, n, r)
  {
    EnteredConcat([Enter(i)] + a, [Exit(i)]);
    EnteredConcat([Enter(i)], a);
    StepsConcat([Enter(i)] + a, [Exit(i)]);
    StepsConcat([Enter(i)], a);
    assert Entered([Enter(i)]) == [i];
    assert Entered([Exit(i)]) == [];
    assert Steps([Enter(i)]) == 0 && Steps([Exit(i)]) == 0;
    forall stack: seq<nat> ensures Open([Enter(i)] + a + [Exit(i)], stack) == Some(stack) {
      OpenConcat([Enter(i)] + a, [Exit(i)], stack);
      OpenConcat([Enter(i)], a, stack);
      assert Open([Enter(i)], stack) == Some([i] + stack);
      assert Open([Exit(i)], [i] + stack) == Some(stack) by {
        assert ([i] + stack)[1..] == stack;
        assert [Exit(i)][1..] == [];
      }
    }
  }

  lemma SingleStep(i: nat)
    ensures Stretch([RunStep], i, i, 1) && Stretch([], i, i, 0)
  {
    assert [RunStep][1..] == [];
    assert Entered([RunStep]) == [];
    assert Steps([RunStep]) == 1;
  }

  class StepCallChain {
    const hooks: seq<Hook>
    const hasStep: bool       // whether stepInfo is set
    var nextHook: nat
    var runs: nat             // how often the step body has been invoked
    var result: Option<nat>   // which of those invocations produced the result
    ghost var trace: seq<Event>

    ghost predicate Valid()
      reads this
    {
      nextHook <= |hooks|
    }

    constructor (hooks: seq<Hook>, hasStep: bool)
      ensures Valid() && this.hooks == hooks && this.hasStep == hasStep
      ensures nextHook == 0 && runs == 0 && result == None && trace == []
    {
      this.hooks := hooks;
      this.hasStep := hasStep;
      nextHook := 0;
      runs := 0;
      result := None;
      trace := [];
    }

    /** What serving `calls` calls of the chain does to it. */
    twostate predicate Served(calls: nat)
      requires old(Valid())
      reads this
    {
      && Valid()
      && nextHook == Reached(hooks, old(nextHook), calls)
      && old(trace) <= trace
      && Stretch(trace[|old(trace)|..], old(nextHook), nextHook, StepRuns(hooks, old(nextHook), calls))
      && runs == old(runs) + (if hasStep then StepRuns(hooks, old(nextHook), calls) else 0)
      && result == if runs > old(runs) then Some(runs - 1) else old(result)
    }

    method ExecNext()
      requires Valid()
      modifies this
      ensures Served(1)
      decreases |hooks| - nextHook, 0
    {
      if nextHook == |hooks| {
        ExecStep();
        SingleStep(nextHook);
        assert trace[|old(trace)|..] == [RunStep];
      } else {
        var currentHook := nextHook;
        nextHook := nextHook + 1;
        InvokeHook(currentHook);
      }
    }

    method ExecStep()
      modifies this
      ensures nextHook == old(nextHook) && trace == old(trace) + [RunStep]
      ensures runs == old(runs) + if hasStep then 1 else 0
      ensures result == if hasStep then Some(old(runs)) else old(result)
    {
      trace := trace + [RunStep];
      if hasStep {
        result := Some(runs);
        runs := runs + 1;
      }
    }

    /** The hook's body; its callable re-enters the chain. */
    method InvokeHook(hook: nat)
      requires Valid() && hook + 1 == nextHook
      modifies this
      ensures Valid()
      ensures nextHook == Reached(hooks, hook, 1)
      ensures old(trace) <= trace
      ensures Stretch(trace[|old(trace)|..], hook, nextHook, StepRuns(hooks, hook, 1))
      ensures runs == old(runs) + (if hasStep then StepRuns(hooks, hook, 1) else 0)
      ensures hasStep ==> runs == old(runs) + 1 + Extra(hooks, nextHook) - Extra(hooks, hook)
      ensures result == if runs > old(runs) then Some(runs - 1) else old(result)
      decreases |hooks| - nextHook, 1
    {
      hide Stretch;
      trace := trace + [Enter(hook)];
      ghost var inner: seq<Event> := [];
      SingleStep(nextHook);
      var called := 0;
      while called < Calls(hooks[hook])
        invariant called <= Calls(hooks[hook])
        invariant Valid() && old(nextHook) <= nextHook == Reached(hooks, old(nextHook), called)
        invariant trace == old(trace) + [Enter(hook)] + inner
        invariant Stretch(inner, old(nextHook), nextHook, StepRuns(hooks, old(nextHook), called))
        invariant runs == old(runs) + if hasStep then StepRuns(hooks, old(nextHook), called) else 0
        invariant result == if runs > old(runs) then Some(runs - 1) else old(result)
      {
        ghost var before, at := trace, nextHook;
        Batches(hooks, old(nextHook), called, 1);
        ExecNext();
        ghost var more := trace[|before|..];
        StretchConcat(inner, more, old(nextHook), at, nextHook, StepRuns(hooks, old(nextHook), called), StepRuns(hooks, at, 1));
        assert trace == before + more;
        inner := inner + more;
        called := called + 1;
      }
      trace := trace + [Exit(hook)];
      StretchWrap(inner, hook, nextHook, StepRuns(hooks, old(nextHook), called));
      EndsWhenUsedUp(hooks, hook, 1);
      assert trace[|old(trace)|..] == [Enter(hook)] + inner + [Exit(hook)];
    }

    /** The whole chain: how far it gets, how often the step runs and whose result
        is returned are those of the budget of outstanding calls. */
    method Exec() returns (r: Option<nat>)
      requires Valid() && nextHook == 0 && runs == 0 && result == None && trace == []
      modifies this
      ensures Stretch(trace, 0, Reached(hooks, 0, 1), StepRuns(hooks, 0, 1))
      ensures runs == if hasStep then StepRuns(hooks, 0, 1) else 0
      ensures hasStep ==> runs == 1 + Extra(hooks, Reached(hooks, 0, 1))
      ensures Reached(hooks, 0, 1) < |hooks| ==> runs == 0
      ensures r == if runs > 0 then Some(runs - 1) else None
    {
      ExecNext();
      r := result;
      StepRunsByTimes(hooks);
      assert trace[0..] == trace;
    }
  }
}
