/**
 MirWaitHandle: two counters under a lock and a condition variable, with any
 number of waiting threads; and the surface's configure requests on top of it.
 */
module WaitHandle {
  import opened Base

  datatype Counters = Counters(expecting: nat, received: nat)

  /** The condition the wait loop sleeps on. */
  predicate Blocked(c: Counters) {
    (c.expecting == 0 && c.received == 0) || c.received < c.expecting
  }

  // ----- Threads on one handle --------------------------------------------------------

  /** Threads that sleep in wait_for_result, and whether they have been notified. */
  datatype State = State(
    counters: Counters,
    asleep: map<nat, bool>,
    results: nat,   // result_received calls so far
    returned: nat)  // wait_for_result returns so far

  datatype Step =
    | ExpectResult
    | ResultReceived
    | Enter(waiter: nat)                   // calls wait_for_result
    | Wake(waiter: nat, spurious: bool)    // gets the lock back after wait()

  const START := State(Counters(0, 0), map[], 0, 0)

  /** The loop test with the lock held: reset and return, or sleep un-notified. */
  function Test(s: State, waiter: nat): State {
    if Blocked(s.counters) then s.(asleep := s.asleep[waiter := false])
    else s.(counters := Counters(0, 0), asleep := s.asleep - {waiter}, returned := s.returned + 1)
  }

  function Next(s: State, step: Step): State {
    match step
    case ExpectResult => s.(counters := s.counters.(expecting := s.counters.expecting + 1))
    case ResultReceived =>
      s.(counters := s.counters.(received := s.counters.received + 1),
         asleep := map w | w in s.asleep :: true,
         results := s.results + 1)
    case Enter(w) => if w in s.asleep then s else Test(s, w)
    case Wake(w, spurious) => if w in s.asleep && (s.asleep[w] || spurious) then Test(s, w) else s
  }

  function Run(steps: seq<Step>, n: nat): State
    requires n <= |steps|
  {
    if n == 0 then START else Next(Run(steps, n - 1), steps[n - 1])
  }

  /** No waiter sleeps un-notified while the condition it waits for holds. */
  predicate NoLostWakeup(s: State) {
    !Blocked(s.counters) ==> forall w :: w in s.asleep ==> s.asleep[w]
  }

  /** For any handle, any threads and any interleaving: no wake-up is lost, and
      there are never more returns than results. */
  lemma {:induction false} HandleSafe(steps: seq<Step>, n: nat)
    requires n <= |steps|
    ensures var s := Run(steps, n); NoLostWakeup(s) && s.returned + s.counters.received <= s.results
  {
    if n > 0 {
      HandleSafe(steps, n - 1);
    }
  }

  /** Of the results received and the tests of the wait loop made by `w`, a result came last. */
  predicate ResultSinceTest(steps: seq<Step>, n: nat, w: nat)
    requires n <= |steps|
  {
    n > 0 &&
    (steps[n - 1].ResultReceived? || (!TestsNow(steps, n - 1, w) && ResultSinceTest(steps, n - 1, w)))
  }

  /** Step `k` takes `w` to the test: it calls, or it gets the lock back. */
  predicate TestsNow(steps: seq<Step>, k: nat, w: nat)
    requires k < |steps|
  {
    var s := Run(steps, k);
    match steps[k]
    case Enter(v) => v == w && w !in s.asleep
    case Wake(v, spurious) => v == w && w in s.asleep && (s.asleep[w] || spurious)
    case ExpectResult => false
    case ResultReceived => false
  }

  /** A sleeping waiter is notified exactly by a result that came after its last test. */
  lemma {:induction false} NotifiedByResults(steps: seq<Step>, n: nat, w: nat)
    requires n <= |steps| && w in Run(steps, n).asleep
    ensures Run(steps, n).asleep[w] <==> ResultSinceTest(steps, n, w)
  {
    if n > 0 && w in Run(steps, n - 1).asleep {
      NotifiedByResults(steps, n - 1, w);
    }
  }

  // ----- The class --------------------------------------------------------------------

  /** Each method does to the counters what the step of any thread does. */
  class MirWaitHandle {
    var counters: Counters

    constructor ()
      ensures counters == START.counters
    {
      counters := Counters(0, 0);
    }

    method ExpectResult()
      modifies this
      ensures forall s: State :: s.counters == old(counters) ==> Next(s, Step.ExpectResult).counters == counters
    {
      counters := counters.(expecting := counters.expecting + 1);
    }

    method ResultReceived()
      modifies this
      ensures forall s: State :: s.counters == old(counters) ==> Next(s, Step.ResultReceived).counters == counters
    {
      counters := counters.(received := counters.received + 1);
    }

    /** One pass of the wait loop with the lock held: false means go to sleep. */
    method TryWait() returns (done: bool)
      modifies this
      ensures forall s: State, w: nat :: s.counters == old(counters) ==>
        && Test(s, w).counters == counters
        && Test(s, w).returned == (if done then s.returned + 1 else s.returned)
        && (done <==> w !in Test(s, w).asleep)
    {
      done := !((counters.expecting == 0 && counters.received == 0) || counters.received < counters.expecting);
      if done {
        counters := Counters(0, 0);
      }
    }
  }

  // ----- configure and on_configured -----------------------------------------------------

  const TYPE_ATTRIB := 0     // mir_surface_attrib_type
  const TYPE_NORMAL := 0     // mir_surface_type_normal

  datatype Setting = Setting(surfaceId: Option<nat>, attrib: Option<nat>, ivalue: Option<int>)

  /** Replies that on_configured accepts. */
  predicate Matches(surface: nat, reply: Setting) {
    reply.surfaceId == Some(surface) && reply.attrib.Some?
  }

  datatype Surface = Surface(
    handle: State,
    typeCache: int,        // attrib_cache[mir_surface_attrib_type]
    requests: nat,         // configure calls so far
    open: nat,             // of these, without any reply yet
    replies: seq<Setting>) // replies delivered, in order

  datatype Action =
    | Configure
    | Configured(reply: Setting)
    | Wait(waiter: nat)
    | Resume(waiter: nat, spurious: bool)

  const NEW_SURFACE := Surface(START, TYPE_NORMAL, 0, 0, [])

  /** One reply per request.  A matching reply for another attribute would fail
      the source's assertion, so it does not occur here. */
  function Act(id: nat, s: Surface, a: Action): Surface {
    match a
    case Configure =>
      s.(handle := Next(s.handle, ExpectResult), requests := s.requests + 1, open := s.open + 1)
    case Configured(reply) =>
      if s.open == 0 || (Matches(id, reply) && reply.attrib.value != TYPE_ATTRIB) then s
      else
        var seen := s.(open := s.open - 1, replies := s.replies + [reply]);
        if !Matches(id, reply) then seen
        else seen.(
          typeCache := if reply.ivalue.Some? then reply.ivalue.value else s.typeCache,
          handle := Next(s.handle, ResultReceived))
    case Wait(w) => s.(handle := Next(s.handle, Enter(w)))
    case Resume(w, spurious) => s.(handle := Next(s.handle, Wake(w, spurious)))
  }

  /** While a request is open, every reply is taken that names another surface, or
      carries no attribute, or carries the type; a value it carries is then cached. */
  lemma ReplyIsTaken(id: nat, s: Surface, surfaceId: Option<nat>, attrib: Option<nat>, ivalue: Option<int>)
    requires s.open > 0
    ensures var reply := Setting(surfaceId, attrib, ivalue);
            var s' := Act(id, s, Configured(reply));
            && (s'.replies == s.replies + [reply] && s'.open == s.open - 1 <==>
                  surfaceId != Some(id) || attrib == None || attrib == Some(TYPE_ATTRIB))
            && (surfaceId == Some(id) && attrib == Some(TYPE_ATTRIB) ==>
                  && s'.typeCache == (if ivalue.Some? then ivalue.value else s.typeCache)
                  && s'.handle.counters.received == s.handle.counters.received + 1)
            && (surfaceId != Some(id) || attrib == None ==> s'.typeCache == s.typeCache && s'.handle == s.handle)
  {
  }

  function Acts(id: nat, actions: seq<Action>, n: nat): Surface
    requires n <= |actions|
  {
    if n == 0 then NEW_SURFACE else Act(id, Acts(id, actions, n - 1), actions[n - 1])
  }

  /** How many replies name this surface and carry an attribute. */
  function Matching(id: nat, replies: seq<Setting>): nat {
    if replies == [] then 0
    else
      var last := replies[|replies| - 1];
      Matching(id, replies[..|replies| - 1]) + if last.surfaceId == Some(id) && last.attrib != None then 1 else 0
  }

  /** The value of the last such reply that carried one. */
  function LastType(id: nat, replies: seq<Setting>): int {
    if replies == [] then TYPE_NORMAL
    else
      var last := replies[|replies| - 1];
      if last.surfaceId == Some(id) && last.attrib != None && last.ivalue.Some? then last.ivalue.value
      else LastType(id, replies[..|replies| - 1])
  }

  ghost predicate FlightOk(id: nat, s: Surface) {
    && s.handle.counters.expecting - s.handle.counters.received == s.requests - Matching(id, s.replies)
    && s.requests == s.open + |s.replies|
    && Matching(id, s.replies) <= |s.replies|
    && s.typeCache == LastType(id, s.replies)
  }

  lemma OneReply(id: nat, s: Surface, reply: Setting)
    requires FlightOk(id, s)
    ensures FlightOk(id, Act(id, s, Configured(reply)))
  {
    assert (s.replies + [reply])[..|s.replies|] == s.replies;
  }

  lemma ActKeeps(id: nat, s: Surface, a: Action)
    requires FlightOk(id, s) && NoLostWakeup(s.handle)
    ensures FlightOk(id, Act(id, s, a)) && NoLostWakeup(Act(id, s, a).handle)
  {
    if a.Configured? {
      OneReply(id, s, a.reply);
    }
  }

  /** Across all waits and resets, expecting minus received is the number of
      configure requests that have no matching reply, the cached type is that of
      the last accepted reply, and no wake-up is lost. */
  lemma {:induction false} InFlight(id: nat, actions: seq<Action>, n: nat)
    requires n <= |actions|
    ensures FlightOk(id, Acts(id, actions, n)) && NoLostWakeup(Acts(id, actions, n).handle)
  {
    if n > 0 {
      hide Act;
      InFlight(id, actions, n - 1);
      ActKeeps(id, Acts(id, actions, n - 1), actions[n - 1]);
    }
  }

  /** Step `k` is a wait_for_result on the configure handle that returns. */
  predicate Returns(id: nat, actions: seq<Action>, k: nat)
    requires k < |actions|
  {
    Acts(id, actions, k + 1).handle.returned > Acts(id, actions, k).handle.returned
  }

  /** Configure requests made since the last such return. */
  function RequestsSinceReturn(id: nat, actions: seq<Action>, n: nat): nat
    requires n <= |actions|
  {
    if n == 0 || Returns(id, actions, n - 1) then 0
    else RequestsSinceReturn(id, actions, n - 1) + if actions[n - 1].Configure? then 1 else 0
  }

  lemma {:induction false} ExpectingIsRequests(id: nat, actions: seq<Action>, n: nat)
    requires n <= |actions|
    ensures Acts(id, actions, n).handle.counters.expecting == RequestsSinceReturn(id, actions, n)
  {
    if n > 0 {
      ExpectingIsRequests(id, actions, n - 1);
    }
  }

  /** The waiter gets to the test of the wait loop in this action. */
  predicate Tests(s: Surface, a: Action) {
    match a
    case Wait(w) => w !in s.handle.asleep
    case Resume(w, spurious) => w in s.handle.asleep && (s.handle.asleep[w] || spurious)
    case Configure => false
    case Configured(_) => false
  }

  /** wait_for_result on the configure handle returns exactly when it gets to its
      test at a time when every request has a matching reply, and at least one
      request was made since the last return. */
  lemma ConfigureWait(id: nat, actions: seq<Action>, n: nat)
    requires n < |actions|
    ensures var s := Acts(id, actions, n);
            Returns(id, actions, n) <==>
              Tests(s, actions[n]) && s.requests == Matching(id, s.replies) && RequestsSinceReturn(id, actions, n) > 0
  {
    InFlight(id, actions, n);
    ExpectingIsRequests(id, actions, n);
    TestReturns(id, Acts(id, actions, n), actions[n]);
  }

  lemma TestReturns(id: nat, s: Surface, a: Action)
    ensures Act(id, s, a).handle.returned > s.handle.returned <==> Tests(s, a) && !Blocked(s.handle.counters)
  {
  }
}
