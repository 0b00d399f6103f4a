/**
 An application thread that uses only the synchronous surface calls, the I/O
 thread that runs the surface's callbacks, and a server that answers every
 request once, composed over the wait handles and the buffer cache.
 */
module SurfaceSync {
  import opened Base
  import BufferCache
  import WaitHandle

  const MAX_BUFFERS: Int32 := 3

  function MaxAge(): nat {
    BufferCache.MaxAge(MAX_BUFFERS)
  }

  datatype App = Start | WaitingForCreate | Ready | WaitingForBuffer
  datatype Io = Reading | Deposited  // inside a callback: deposited, not yet signalled

  datatype State = State(
    app: App,
    io: Io,
    asked: nat,                           // requests that ask for a buffer
    replies: seq<BufferCache.Deposit>,    // the server's buffer replies, in order
    handled: nat,                         // replies whose callback has finished
    cache: BufferCache.Cache,
    createHandle: WaitHandle.Counters,
    nextHandle: WaitHandle.Counters,
    synced: nat)                          // mir_surface_next_buffer_sync calls that returned

  datatype Step =
    | Issue                               // create_surface, later next_buffer
    | Return                              // wait_for_result gets through
    | Answer(reply: BufferCache.Deposit)
    | Deposit                             // process_incoming_buffer; a failed factory is caught
    | Signal                              // result_received, at the end of the callback

  const NONE := WaitHandle.Counters(0, 0)
  const START := State(Start, Reading, 0, [], 0, BufferCache.EMPTY, NONE, NONE, 0)

  function Received(c: WaitHandle.Counters): WaitHandle.Counters {
    c.(received := c.received + 1)
  }

  /** A step that is not possible changes nothing. */
  function Next(s: State, step: Step): State {
    match step
    case Issue =>
      if s.app.Start? then s.(app := WaitingForCreate, asked := s.asked + 1)
      else if s.app.Ready? then s.(app := WaitingForBuffer, asked := s.asked + 1)
      else s
    case Return =>
      if s.app.WaitingForCreate? && !WaitHandle.Blocked(s.createHandle) then s.(app := Ready, createHandle := NONE)
      else if s.app.WaitingForBuffer? && !WaitHandle.Blocked(s.nextHandle) then
        s.(app := Ready, nextHandle := NONE, synced := s.synced + 1)
      else s
    case Answer(reply) =>
      if |s.replies| < s.asked then s.(replies := s.replies + [reply]) else s
    case Deposit =>
      if s.io.Reading? && s.handled < |s.replies| then
        s.(io := Deposited, cache := BufferCache.Step(s.cache, MaxAge(), s.replies[s.handled]))
      else s
    case Signal =>
      if s.io.Reading? then s
      else if s.handled == 0 then s.(io := Reading, handled := 1, createHandle := Received(s.createHandle))
      else s.(io := Reading, handled := s.handled + 1, nextHandle := Received(s.nextHandle))
  }

  function Run(steps: seq<Step>, n: nat): State
    requires n <= |steps|
  {
    if n == 0 then START else Next(Run(steps, n - 1), steps[n - 1])
  }

  function DepositsDone(s: State): nat {
    s.handled + if s.io.Deposited? then 1 else 0
  }

  /** The cache has seen exactly the replies whose callback got past the deposit. */
  ghost predicate CacheOk(s: State) {
    && DepositsDone(s) <= |s.replies|
    && s.cache == BufferCache.Run(s.replies, MaxAge(), DepositsDone(s))
  }

  /** At most one request is open, and only a finished callback leaves a result. */
  ghost predicate TurnOk(s: State) {
    && s.handled <= DepositsDone(s) <= |s.replies| <= s.asked
    && s.createHandle.expecting == 0 && s.nextHandle.expecting == 0
    && match s.app
       case Start => s.asked == 0 && s.synced == 0 && s.createHandle == NONE && s.nextHandle == NONE
       case WaitingForCreate => s.asked == 1 && s.synced == 0 && s.createHandle.received == s.handled && s.nextHandle == NONE
       case Ready => s.asked == s.handled == s.synced + 1 && s.createHandle == NONE && s.nextHandle == NONE
       case WaitingForBuffer =>
         && s.asked == s.synced + 2 && s.synced + 1 <= s.handled
         && s.createHandle == NONE && s.nextHandle.received == s.handled - (s.synced + 1)
  }

  lemma CacheKept(s: State, step: Step)
    requires CacheOk(s)
    ensures CacheOk(Next(s, step))
  {
    hide BufferCache.Step;
    if step.Answer? {
      BufferCache.RunOfPrefix(s.replies, s.replies + [step.reply], MaxAge(), DepositsDone(s));
    }
  }

  lemma TurnKept(s: State, step: Step)
    requires TurnOk(s)
    ensures TurnOk(Next(s, step))
  {
    hide BufferCache.Step;
  }

  lemma {:induction false} RunOk(steps: seq<Step>, n: nat)
    requires n <= |steps|
    ensures CacheOk(Run(steps, n)) && TurnOk(Run(steps, n))
  {
    hide Next;
    if n > 0 {
      RunOk(steps, n - 1);
      CacheKept(Run(steps, n - 1), steps[n - 1]);
      TurnKept(Run(steps, n - 1), steps[n - 1]);
    }
  }

  /** Whenever the application runs after its k-th next_buffer_sync, the server has
      answered exactly k + 1 times, the depository has been given exactly those
      replies in order, the I/O thread is between callbacks, and neither wait
      handle holds a stale result. */
  lemma SyncSeesItsReply(steps: seq<Step>, n: nat)
    requires n <= |steps| && Run(steps, n).app.Ready?
    ensures var s := Run(steps, n);
            && |s.replies| == s.synced + 1
            && s.io.Reading? && s.handled == |s.replies|
            && s.cache == BufferCache.Run(s.replies, MaxAge(), |s.replies|)
            && s.createHandle == NONE && s.nextHandle == NONE
  {
    hide Next, BufferCache.Step;
    RunOk(steps, n);
    ReadyIsQuiet(Run(steps, n));
  }

  lemma ReadyIsQuiet(s: State)
    requires CacheOk(s) && TurnOk(s) && s.app.Ready?
    ensures |s.replies| == s.synced + 1 && s.io.Reading? && s.handled == |s.replies|
    ensures s.cache == BufferCache.Run(s.replies, MaxAge(), |s.replies|)
    ensures s.createHandle == NONE && s.nextHandle == NONE
  {
    hide BufferCache.Run;
  }

  /** So the buffer it then draws to is the one its last reply named, unless that
      buffer could not be made; and that buffer's age counts the replies since its
      previous use, if that was among the last three. */
  lemma SyncDrawsToItsBuffer(steps: seq<Step>, n: nat)
    requires n <= |steps| && Run(steps, n).app.Ready?
    ensures var s := Run(steps, n);
            var k := s.synced;
            && k < |s.replies|
            && (BufferCache.Landed(s.replies, 3, k) ==>
                  && s.cache.current == Some(s.replies[k].id)
                  && s.replies[k].id in s.cache.entries
                  && s.cache.entries[s.replies[k].id].age == BufferCache.AgeInHistory(s.replies, 3, k + 1, s.replies[k].id))
            && (!BufferCache.Landed(s.replies, 3, k) ==> s.cache.current == None)
  {
    hide Run, Next, BufferCache.Step, BufferCache.Run, BufferCache.Landed, BufferCache.AgeInHistory;
    SyncSeesItsReply(steps, n);
    var s := Run(steps, n);
    BufferCache.CacheIsWindow(s.replies, MaxAge(), |s.replies|);
    BufferCache.WindowOfMaxBuffers(MAX_BUFFERS);
    LatestIsCurrent(s.cache, s.replies, s.synced);
  }

  lemma LatestIsCurrent(c: BufferCache.Cache, h: seq<BufferCache.Deposit>, k: nat)
    requires |h| == k + 1 && BufferCache.Refines(c, h, 3, k + 1)
    ensures BufferCache.Landed(h, 3, k) ==>
              && c.current == Some(h[k].id) && h[k].id in c.entries
              && c.entries[h[k].id].age == BufferCache.AgeInHistory(h, 3, k + 1, h[k].id)
    ensures !BufferCache.Landed(h, 3, k) ==> c.current == None
  {
    if BufferCache.Landed(h, 3, k) {
      assert BufferCache.Latest(h, 3, k + 1, h[k].id) == Some(k);
      assert BufferCache.InWindow(h, 3, k + 1, h[k].id);
    }
  }

  // ----- Waits come to an end -------------------------------------------------------------

  /** A wait whose reply has been handled gets through: the application is ready, and a
      next_buffer_sync has returned. */
  lemma HandledWaitReturns(steps: seq<Step>, n: nat)
    requires n <= |steps| && Run(steps, n).handled == Run(steps, n).asked
    ensures var s := Run(steps, n);
            var s' := Next(s, Return);
            && (s.app.WaitingForCreate? ==> s'.app.Ready? && s'.synced == 0)
            && (s.app.WaitingForBuffer? ==> s'.app.Ready? && s'.synced == s.synced + 1)
  {
    RunOk(steps, n);
  }

  /** And no wait gets through before. */
  lemma UnhandledWaitBlocks(steps: seq<Step>, n: nat)
    requires n <= |steps| && Run(steps, n).handled < Run(steps, n).asked
    ensures Next(Run(steps, n), Return) == Run(steps, n)
  {
    RunOk(steps, n);
  }

  /** Ask, answer, deposit, signal, return; what has been done already does not count. */
  function OneRound(reply: BufferCache.Deposit): seq<Step> {
    [Issue, Answer(reply), Deposit, Signal, Return]
  }

  function After(s: State, steps: seq<Step>): State
    decreases |steps|
  {
    if steps == [] then s else After(Next(s, steps[0]), steps[1..])
  }

  /** From every reachable state one round brings the application to Ready, with one more
      next_buffer_sync returned unless it was the surface that was created. */
  lemma AlwaysGetsReady(steps: seq<Step>, n: nat, reply: BufferCache.Deposit)
    requires n <= |steps|
    ensures var s := Run(steps, n);
            var s' := After(s, OneRound(reply));
            && s'.app.Ready?
            && s'.synced == s.synced + if s.app.Ready? || s.app.WaitingForBuffer? then 1 else 0
  {
    hide Next, TurnOk, CacheOk;
    RunOk(steps, n);
    var s := Run(steps, n);
    RoundUnfolds(s, reply);
    var s1 := Next(s, Issue);
    var s2 := Next(s1, Answer(reply));
    var s3 := Next(s2, Deposit);
    var s4 := Next(s3, Signal);
    IssueWaits(s);
    AnswerArrives(s1, reply);
    DepositIsMade(s2);
    SignalIsGiven(s3);
    ReturnIsReady(s4);
  }

  predicate Waits(s: State) {
    s.app.WaitingForCreate? || s.app.WaitingForBuffer?
  }

  lemma IssueWaits(s: State)
    requires TurnOk(s)
    ensures var s' := Next(s, Issue);
            && TurnOk(s') && Waits(s') && s'.synced == s.synced
            && (s'.app.WaitingForBuffer? <==> s.app.Ready? || s.app.WaitingForBuffer?)
  {
  }

  lemma AnswerArrives(s: State, reply: BufferCache.Deposit)
    requires TurnOk(s) && Waits(s)
    ensures var s' := Next(s, Answer(reply));
            TurnOk(s') && s'.app == s.app && s'.synced == s.synced && |s'.replies| == s'.asked
  {
  }

  lemma DepositIsMade(s: State)
    requires TurnOk(s) && Waits(s) && |s.replies| == s.asked
    ensures var s' := Next(s, Deposit);
            TurnOk(s') && s'.app == s.app && s'.synced == s.synced && DepositsDone(s') == s'.asked
  {
    hide BufferCache.Step;
  }

  lemma SignalIsGiven(s: State)
    requires TurnOk(s) && Waits(s) && DepositsDone(s) == s.asked
    ensures var s' := Next(s, Signal);
            TurnOk(s') && s'.app == s.app && s'.synced == s.synced && s'.handled == s'.asked
  {
  }

  lemma ReturnIsReady(s: State)
    requires TurnOk(s) && Waits(s) && s.handled == s.asked
    ensures var s' := Next(s, Return);
            s'.app.Ready? && s'.synced == s.synced + if s.app.WaitingForBuffer? then 1 else 0
  {
  }

  lemma RoundUnfolds(s: State, reply: BufferCache.Deposit)
    ensures After(s, OneRound(reply)) ==
            Next(Next(Next(Next(Next(s, Issue), Answer(reply)), Deposit), Signal), Return)
  {
    hide Next;
    var r := OneRound(reply);
    var s1 := Next(s, Issue);
    var s2 := Next(s1, Answer(reply));
    var s3 := Next(s2, Deposit);
    var s4 := Next(s3, Signal);
    assert After(s, r) == After(s1, r[1..]);
    assert r[1..] == [Answer(reply), Deposit, Signal, Return];
    assert r[1..][1..] == [Deposit, Signal, Return];
    assert After(s1, r[1..]) == After(s2, [Deposit, Signal, Return]);
    assert [Deposit, Signal, Return][1..] == [Signal, Return];
    assert After(s2, [Deposit, Signal, Return]) == After(s3, [Signal, Return]);
    assert [Signal, Return][1..] == [Return];
    assert After(s3, [Signal, Return]) == After(s4, [Return]);
    assert [Return][1..] == [];
    assert After(s4, [Return]) == After(Next(s4, Return), []);
  }
}
