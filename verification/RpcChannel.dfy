/**
 The client's RPC channel as a protocol: application threads number a call with a
 compare-exchange loop, save its completion under that number, and send it; one
 I/O thread takes replies off the wire and completes the calls they name.
 */
module RpcChannel {
  import opened Base

  type Payload = nat

  datatype Result = Result(id: nat, payload: Payload)

  /** One completion that ran: the call's own tag, and the reply it ran with. */
  datatype Completion = Completion(tag: nat, reply: Result)

  // ----- PendingCallCache ---------------------------------------------------------

  /** The pending calls after a reply, and the call it completes, if any. */
  function Complete(pending: map<nat, nat>, reply: Result): (map<nat, nat>, Option<Completion>) {
    if reply.id in pending then (pending - {reply.id}, Some(Completion(pending[reply.id], reply)))
    else (pending, None)
  }

  class PendingCallCache {
    var pendingCalls: map<nat, nat>   // number -> tag of the saved call
    var ran: seq<Completion>          // completions run so far

    constructor ()
      ensures pendingCalls == map[] && ran == []
    {
      pendingCalls := map[];
      ran := [];
    }

    method SaveCompletionDetails(id: nat, tag: nat)
      modifies this
      ensures pendingCalls == old(pendingCalls)[id := tag] && ran == old(ran)
    {
      pendingCalls := pendingCalls[id := tag];
    }

    /** Runs the completion and only then erases the call; an unknown number is
        logged and changes nothing. */
    method CompleteResponse(reply: Result) returns (orphaned: bool)
      modifies this
      ensures pendingCalls == Complete(old(pendingCalls), reply).0
      ensures orphaned <==> reply.id !in old(pendingCalls)
      ensures ran == old(ran) + (if orphaned then [] else [Completion(old(pendingCalls)[reply.id], reply)])
      ensures pendingCalls == old(pendingCalls) - {reply.id}
    {
      if reply.id !in pendingCalls {
        orphaned := true;
      } else {
        orphaned := false;
        ran := ran + [Completion(pendingCalls[reply.id], reply)];
        pendingCalls := pendingCalls - {reply.id};
      }
    }

    method Empty() returns (empty: bool)
      ensures empty <==> pendingCalls == map[]
    {
      empty := |pendingCalls| == 0;
    }
  }

  // ----- The protocol ---------------------------------------------------------------

  /** Where a thread is inside CallMethod; `seen` is the local of the CAS loop. */
  datatype Pc =
    | Idle
    | Starting(tag: nat)
    | Looping(tag: nat, seen: nat)
    | Numbered(tag: nat, id: nat)
    | Saved(tag: nat, id: nat)

  datatype State = State(
    next: nat,                 // next_message_id
    threads: map<nat, Pc>,
    pending: map<nat, nat>,
    sent: set<nat>,            // numbers the server has seen
    answered: set<nat>,        // numbers the server has replied to
    wire: seq<Result>,         // replies not yet read
    ran: seq<Completion>,
    orphans: nat,
    tags: nat,                 // calls begun
    returned: seq<nat>,        // results of next_id, in order of completion
    owner: map<nat, nat>,      // the call each number was given to
    saved: set<nat>)           // numbers ever saved

  datatype Step =
    | Begin(thread: nat)
    | Load(thread: nat)
    | CompareExchange(thread: nat, spurious: bool)
    | Save(thread: nat)
    | Send(thread: nat)
    | Reply(reply: Result)
    | Receive

  const START := State(0, map[], map[], {}, {}, [], [], 0, 0, [], map[], {})

  function PcOf(s: State, t: nat): Pc {
    if t in s.threads then s.threads[t] else Idle
  }

  function At(s: State, t: nat, pc: Pc): State {
    s.(threads := s.threads[t := pc])
  }

  /** A step that is not possible in the state changes nothing.  The counter is a
      32-bit int: past its maximum the source's increment is undefined. */
  function Next(s: State, step: Step): State {
    match step
    case Begin(t) =>
      if PcOf(s, t).Idle? then At(s, t, Starting(s.tags)).(tags := s.tags + 1) else s
    case Load(t) =>
      if PcOf(s, t).Starting? then At(s, t, Looping(PcOf(s, t).tag, s.next)) else s
    case CompareExchange(t, spurious) =>
      if !PcOf(s, t).Looping? || s.next + 1 >= 0x8000_0000 then s
      else if PcOf(s, t).seen != s.next || spurious then At(s, t, Looping(PcOf(s, t).tag, s.next))
      else
        var tag, id := PcOf(s, t).tag, PcOf(s, t).seen;
        At(s, t, Numbered(tag, id)).(
          next := id + 1, returned := s.returned + [id], owner := s.owner[id := tag])
    case Save(t) =>
      if !PcOf(s, t).Numbered? then s
      else
        var tag, id := PcOf(s, t).tag, PcOf(s, t).id;
        At(s, t, Saved(tag, id)).(pending := s.pending[id := tag], saved := s.saved + {id})
    case Send(t) =>
      if PcOf(s, t).Saved? then At(s, t, Idle).(sent := s.sent + {PcOf(s, t).id}) else s
    case Reply(reply) =>
      s.(wire := s.wire + [reply], answered := s.answered + {reply.id})
    case Receive =>
      if s.wire == [] then s
      else
        var (pending, done) := Complete(s.pending, s.wire[0]);
        var rest := s.(wire := s.wire[1..], pending := pending);
        if done.Some? then rest.(ran := s.ran + [done.value]) else rest.(orphans := s.orphans + 1)
  }

  function Run(steps: seq<Step>, n: nat): State
    requires n <= |steps|
  {
    if n == 0 then START else Next(Run(steps, n - 1), steps[n - 1])
  }

  // ----- What every interleaving keeps --------------------------------------------------

  function CompletedIds(s: State): set<nat> {
    set c | c in s.ran :: c.reply.id
  }

  ghost predicate NumbersOk(s: State) {
    && |s.returned| == s.next < 0x8000_0000
    && (forall i :: 0 <= i < s.next ==> s.returned[i] == i)
    && (forall id: nat :: id in s.owner <==> id < s.next)
    && (forall id :: id in s.owner ==> s.owner[id] < s.tags)
  }

  ghost predicate Unnumbered(s: State, tag: nat) {
    forall id :: id in s.owner ==> s.owner[id] != tag
  }

  predicate Given(s: State, tag: nat, id: nat) {
    id in s.owner && s.owner[id] == tag
  }

  /** A thread knows whether its call has a number, is saved, and is sent. */
  ghost predicate PcOk(s: State, pc: Pc) {
    match pc
    case Idle => true
    case Starting(tag) => tag < s.tags && Unnumbered(s, tag)
    case Looping(tag, seen) => tag < s.tags && Unnumbered(s, tag) && seen <= s.next
    case Numbered(tag, id) => tag < s.tags && Given(s, tag, id) && id !in s.saved
    case Saved(tag, id) => tag < s.tags && Given(s, tag, id) && id in s.saved && id !in s.sent
  }

  ghost predicate ThreadsOk(s: State) {
    forall t :: t in s.threads ==> PcOk(s, s.threads[t])
  }

  /** No two threads carry the same call. */
  ghost predicate TagsApart(threads: map<nat, Pc>) {
    forall t, u :: t in threads && u in threads && t != u && !threads[t].Idle? && !threads[u].Idle? ==>
      threads[t].tag != threads[u].tag
  }

  ghost predicate OwnersApart(owner: map<nat, nat>) {
    forall id, id' :: id in owner && id' in owner && id != id' ==> owner[id] != owner[id']
  }

  /** Pending is exactly what was saved and has not run. */
  ghost predicate PendingOk(s: State) {
    && s.sent <= s.saved
    && (forall id :: id in s.saved ==> id in s.owner)
    && CompletedIds(s) <= s.saved
    && s.pending.Keys == s.saved - CompletedIds(s)
    && (forall id :: id in s.pending ==> id in s.owner && s.pending[id] == s.owner[id])
  }

  /** Every completion ran with a reply to its own number, and none ran twice. */
  ghost predicate RanOk(s: State) {
    && (forall i :: 0 <= i < |s.ran| ==> Given(s, s.ran[i].tag, s.ran[i].reply.id))
    && (forall i, j :: 0 <= i < j < |s.ran| ==> s.ran[i].reply.id != s.ran[j].reply.id)
  }

  ghost predicate Inv(s: State) {
    NumbersOk(s) && ThreadsOk(s) && TagsApart(s.threads) && OwnersApart(s.owner) && PendingOk(s) && RanOk(s)
  }

  lemma NumbersKept(s: State, step: Step)
    requires NumbersOk(s) && ThreadsOk(s)
    ensures NumbersOk(Next(s, step))
  {
  }

  lemma TagsKept(s: State, step: Step)
    requires ThreadsOk(s) && TagsApart(s.threads)
    ensures TagsApart(Next(s, step).threads)
  {
  }

  lemma OwnersKept(s: State, step: Step)
    requires ThreadsOk(s) && OwnersApart(s.owner)
    ensures OwnersApart(Next(s, step).owner)
  {
  }

  /** The other threads are not affected by what one thread does. */
  lemma OthersKept(s: State, step: Step, u: nat)
    requires NumbersOk(s) && ThreadsOk(s) && TagsApart(s.threads)
    requires u in s.threads && (step.Reply? || step.Receive? || step.thread != u)
    ensures PcOk(Next(s, step), s.threads[u])
  {
    assert PcOk(s, s.threads[u]);
  }

  lemma OwnKept(s: State, step: Step)
    requires NumbersOk(s) && ThreadsOk(s) && PendingOk(s) && !step.Reply? && !step.Receive?
    ensures PcOk(Next(s, step), PcOf(Next(s, step), step.thread))
  {
    assert PcOk(s, PcOf(s, step.thread));
  }

  lemma ThreadsKept(s: State, step: Step)
    requires NumbersOk(s) && ThreadsOk(s) && TagsApart(s.threads) && PendingOk(s)
    ensures ThreadsOk(Next(s, step))
  {
    hide PcOk;
    var s' := Next(s, step);
    forall t | t in s'.threads ensures PcOk(s', s'.threads[t]) {
      if step.Reply? || step.Receive? || step.thread != t {
        OthersKept(s, step, t);
      } else {
        OwnKept(s, step);
      }
    }
  }

  lemma ReceiveCompletes(s: State)
    requires s.wire != [] && s.wire[0].id in s.pending
    ensures CompletedIds(Next(s, Receive)) == CompletedIds(s) + {s.wire[0].id}
  {
    var s' := Next(s, Receive);
    var c := Completion(s.pending[s.wire[0].id], s.wire[0]);
    assert s'.ran == s.ran + [c];
    forall x | x in CompletedIds(s) + {s.wire[0].id} ensures x in CompletedIds(s') {
      if x == s.wire[0].id {
        assert c in s'.ran;
      } else {
        var d :| d in s.ran && d.reply.id == x;
        assert d in s'.ran;
      }
    }
  }

  lemma PendingKept(s: State, step: Step)
    requires NumbersOk(s) && ThreadsOk(s) && PendingOk(s)
    ensures PendingOk(Next(s, step))
  {
    hide NumbersOk, ThreadsOk, PendingOk, Next;
    if step.Receive? {
      ReceiveKeepsPending(s);
    } else {
      ThreadKeepsPending(s, step);
    }
  }

  lemma ReceiveKeepsPending(s: State)
    requires PendingOk(s)
    ensures PendingOk(Next(s, Receive))
  {
    if s.wire != [] && s.wire[0].id in s.pending {
      ReceiveCompletes(s);
    } else {
      assert Next(s, Receive).ran == s.ran;
    }
  }

  lemma ThreadKeepsPending(s: State, step: Step)
    requires NumbersOk(s) && ThreadsOk(s) && PendingOk(s) && !step.Receive?
    ensures PendingOk(Next(s, step))
  {
    assert Next(s, step).ran == s.ran;
    if step.Save? || step.Send? {
      assert PcOk(s, PcOf(s, step.thread));
    }
  }

  lemma RanKept(s: State, step: Step)
    requires NumbersOk(s) && ThreadsOk(s) && PendingOk(s) && RanOk(s)
    ensures RanOk(Next(s, step))
  {
  }

  lemma {:induction false} RunInv(steps: seq<Step>, n: nat)
    requires n <= |steps|
    ensures Inv(Run(steps, n))
  {
    hide Next;
    if n > 0 {
      RunInv(steps, n - 1);
      StepInv(Run(steps, n - 1), steps[n - 1]);
    }
  }

  lemma StepInv(s: State, step: Step)
    requires Inv(s)
    ensures Inv(Next(s, step))
  {
    hide NumbersOk, ThreadsOk, TagsApart, OwnersApart, PendingOk, RanOk;
    NumbersKept(s, step);
    ThreadsKept(s, step);
    TagsKept(s, step);
    OwnersKept(s, step);
    PendingKept(s, step);
    RanKept(s, step);
  }

  // ----- The promises ---------------------------------------------------------------------

  /** In every interleaving, with spurious failures, k finished next_id calls have
      returned exactly 0 to k-1, each once, all of them 32-bit ints. */
  lemma NextIdsAreUnique(steps: seq<Step>, n: nat)
    requires n <= |steps|
    ensures var r := Run(steps, n).returned; |r| < 0x8000_0000 && forall i :: 0 <= i < |r| ==> r[i] == i
  {
    RunInv(steps, n);
  }

  /** Saving never overwrites: the number was not saved, pending or completed before. */
  lemma SaveIsFresh(steps: seq<Step>, n: nat, t: nat)
    requires n <= |steps| && PcOf(Run(steps, n), t).Numbered?
    ensures var s := Run(steps, n);
            var id := PcOf(s, t).id;
            id !in s.saved && id !in s.pending && forall c :: c in s.ran ==> c.reply.id != id
  {
    RunInv(steps, n);
    var s := Run(steps, n);
    assert PcOk(s, PcOf(s, t));
    forall c | c in s.ran ensures c.reply.id in CompletedIds(s) {
    }
  }

  /** Each call's completion runs at most once, and only with a reply that names
      the number the call was sent under. */
  lemma CompletionsMatch(steps: seq<Step>, n: nat, i: nat, j: nat)
    requires n <= |steps| && i < |Run(steps, n).ran| && j < |Run(steps, n).ran|
    ensures var s := Run(steps, n);
            && Given(s, s.ran[i].tag, s.ran[i].reply.id)
            && (i != j ==> s.ran[i].tag != s.ran[j].tag && s.ran[i].reply.id != s.ran[j].reply.id)
  {
    RunInv(steps, n);
    var s := Run(steps, n);
    if i < j {
      assert s.ran[i].reply.id != s.ran[j].reply.id;
    } else if j < i {
      assert s.ran[j].reply.id != s.ran[i].reply.id;
    }
  }

  /** Pending is saved minus completed, so the cache is empty exactly when every
      saved call has completed. */
  lemma EmptyMeansAllCompleted(steps: seq<Step>, n: nat)
    requires n <= |steps|
    ensures var s := Run(steps, n);
            && s.pending.Keys == s.saved - CompletedIds(s)
            && (s.pending == map[] <==> s.saved == CompletedIds(s))
  {
    RunInv(steps, n);
    var s := Run(steps, n);
    assert s.pending == map[] <==> s.pending.Keys == {};
  }

  /** A reply with an unknown number, in particular a second reply to a completed
      call, is dropped: nothing but the wire and the orphan log changes. */
  lemma UnknownReplyIsIgnored(s: State)
    requires Inv(s) && s.wire != []
    ensures (s.wire[0].id in CompletedIds(s) || s.wire[0].id !in s.saved) <==> s.wire[0].id !in s.pending
    ensures s.wire[0].id !in s.pending ==>
              Next(s, Receive) == s.(wire := s.wire[1..], orphans := s.orphans + 1)
  {
  }

  /** A server that answers each call it was sent, once. */
  ghost predicate Honest(steps: seq<Step>, n: nat)
    requires n <= |steps|
  {
    forall k :: 0 <= k < n && steps[k].Reply? ==>
      steps[k].reply.id in Run(steps, k).sent && steps[k].reply.id !in Run(steps, k).answered
  }

  /** Every answer still on the wire is for a pending call, and for only one. */
  ghost predicate AnswersOk(s: State) {
    && s.answered <= s.sent
    && (forall i, j :: 0 <= i < j < |s.wire| ==> s.wire[i].id != s.wire[j].id)
    && (forall r :: r in s.wire ==> r.id in s.answered && r.id in s.pending)
    && s.orphans == 0
    && CompletedIds(s) <= s.answered
  }

  lemma AnswersKept(s: State, step: Step)
    requires PendingOk(s) && AnswersOk(s)
    requires step.Reply? ==> step.reply.id in s.sent && step.reply.id !in s.answered
    ensures AnswersOk(Next(s, step))
  {
    var s' := Next(s, step);
    if step.Receive? && s.wire != [] {
      assert s.wire[0] in s.wire;
      ReceiveCompletes(s);
      forall r | r in s'.wire ensures r.id in s'.pending {
        var i :| 0 <= i < |s'.wire| && s'.wire[i] == r;
        assert s.wire[i + 1] == r && r in s.wire;
      }
    } else {
      assert s'.ran == s.ran;
    }
  }

  /** With such a server the orphan branch is never reached, in any interleaving. */
  lemma {:induction false} HonestServerNeverOrphans(steps: seq<Step>, n: nat)
    requires n <= |steps| && Honest(steps, n)
    ensures Run(steps, n).orphans == 0 && AnswersOk(Run(steps, n))
  {
    if n > 0 {
      hide Next, NumbersOk, ThreadsOk, PendingOk, RanOk;
      HonestServerNeverOrphans(steps, n - 1);
      RunInv(steps, n - 1);
      AnswersKept(Run(steps, n - 1), steps[n - 1]);
    }
  }

  // ----- What the completions are given --------------------------------------------------

  /** All replies the server has sent, in order. */
  function Replies(steps: seq<Step>, n: nat): seq<Result>
    requires n <= |steps|
  {
    if n == 0 then []
    else Replies(steps, n - 1) + if steps[n - 1].Reply? then [steps[n - 1].reply] else []
  }

  function RanReplies(s: State): seq<Result> {
    seq(|s.ran|, i requires 0 <= i < |s.ran| => s.ran[i].reply)
  }

  predicate Subsequence(a: seq<Result>, b: seq<Result>) {
    if a == [] then true
    else if b == [] then false
    else
      var front := b[..|b| - 1];
      Subsequence(a, front) || (a[|a| - 1] == b[|b| - 1] && Subsequence(a[..|a| - 1], front))
  }

  /** Receiving runs the completion of the call that was saved under the number and has
      not run, with the very reply at the head of the wire, or else only logs. */
  lemma ReceiveRuns(steps: seq<Step>, n: nat)
    requires n < |steps| && steps[n] == Receive && Run(steps, n).wire != []
    ensures var s, s' := Run(steps, n), Run(steps, n + 1);
            var reply := s.wire[0];
            && s'.wire == s.wire[1..]
            && (if reply.id in s.saved && reply.id !in CompletedIds(s) then
                  && reply.id in s.owner
                  && s'.ran == s.ran + [Completion(s.owner[reply.id], reply)] && s'.orphans == s.orphans
                else s'.ran == s.ran && s'.orphans == s.orphans + 1)
  {
    RunInv(steps, n);
  }

  /** How the step before changed what was run and what is on the wire. */
  lemma StepMoves(s: State, step: Step)
    ensures var s' := Next(s, step);
            if step.Receive? && s.wire != [] then
              && s'.wire == s.wire[1..]
              && (if s.wire[0].id in s.pending then RanReplies(s') == RanReplies(s) + [s.wire[0]] && s'.orphans == s.orphans
                  else RanReplies(s') == RanReplies(s) && s'.orphans == s.orphans + 1)
            else
              && s'.ran == s.ran && s'.orphans == s.orphans
              && s'.wire == s.wire + if step.Reply? then [step.reply] else []
  {
  }

  /** `wire` is the end of what was sent, and what ran is picked from the rest in order. */
  ghost predicate Picked(s: State, sent: seq<Result>) {
    && |s.wire| <= |sent|
    && (var k := |sent| - |s.wire|;
        && sent[k..] == s.wire && Subsequence(RanReplies(s), sent[..k]) && |s.ran| + s.orphans == k)
  }

  lemma PickedKept(s: State, step: Step, sent: seq<Result>)
    requires Picked(s, sent)
    ensures Picked(Next(s, step), sent + if step.Reply? then [step.reply] else [])
  {
    var k, s' := |sent| - |s.wire|, Next(s, step);
    hide Next;
    StepMoves(s, step);
    if step.Receive? && s.wire != [] {
      assert sent[k] == s.wire[0];
      assert sent[..k + 1][..k] == sent[..k];
      assert sent[k + 1..] == s'.wire;
      var a := RanReplies(s');
      if s.wire[0].id in s.pending {
        assert a[..|a| - 1] == RanReplies(s);
      }
      assert sent + [] == sent;
    } else {
      var sent' := sent + if step.Reply? then [step.reply] else [];
      assert sent'[..k] == sent[..k] && sent'[k..] == s'.wire;
      assert RanReplies(s') == RanReplies(s);
    }
  }

  /** In every run the completions were given replies the server sent, unaltered and in
      the order it sent them; each reply was run, logged as an orphan, or is on the wire. */
  lemma {:induction false} RepliesInOrder(steps: seq<Step>, n: nat)
    requires n <= |steps|
    ensures Picked(Run(steps, n), Replies(steps, n))
  {
    hide Next, Picked;
    if n == 0 {
      StartPicked();
    } else {
      RepliesInOrder(steps, n - 1);
      PickedKept(Run(steps, n - 1), steps[n - 1], Replies(steps, n - 1));
    }
  }

  lemma StartPicked()
    ensures Picked(START, [])
  {
  }

  /** So every completion got the argument of some earlier Reply step. */
  lemma CompletionsAreReplies(steps: seq<Step>, n: nat, i: nat)
    requires n <= |steps| && i < |Run(steps, n).ran|
    ensures exists k :: 0 <= k < n && steps[k] == Reply(Run(steps, n).ran[i].reply)
  {
    RepliesInOrder(steps, n);
    var s, sent := Run(steps, n), Replies(steps, n);
    var read := sent[..|sent| - |s.wire|];
    PickedFrom(RanReplies(s), read, i);
    var j :| 0 <= j < |read| && read[j] == RanReplies(s)[i];
    assert sent[j] == s.ran[i].reply;
    SentBy(steps, n, j);
  }

  lemma {:induction false} PickedFrom(a: seq<Result>, b: seq<Result>, i: nat)
    requires Subsequence(a, b) && i < |a|
    ensures exists j :: 0 <= j < |b| && b[j] == a[i]
    decreases |b|
  {
    var front := b[..|b| - 1];
    if Subsequence(a, front) {
      PickedFrom(a, front, i);
      var j :| 0 <= j < |front| && front[j] == a[i];
      assert b[j] == a[i];
    } else if i == |a| - 1 {
      assert b[|b| - 1] == a[i];
    } else {
      PickedFrom(a[..|a| - 1], front, i);
      var j :| 0 <= j < |front| && front[j] == a[..|a| - 1][i];
      assert b[j] == a[i];
    }
  }

  lemma {:induction false} SentBy(steps: seq<Step>, n: nat, j: nat)
    requires n <= |steps| && j < |Replies(steps, n)|
    ensures exists k :: 0 <= k < n && steps[k] == Reply(Replies(steps, n)[j])
  {
    if j < |Replies(steps, n - 1)| {
      SentBy(steps, n - 1, j);
    } else {
      assert steps[n - 1] == Reply(Replies(steps, n)[j]);
    }
  }

  /** With a server that answers each call once, what ran and what is on the wire are
      exactly its replies. */
  lemma HonestRepliesAllRun(steps: seq<Step>, n: nat)
    requires n <= |steps| && Honest(steps, n)
    ensures RanReplies(Run(steps, n)) + Run(steps, n).wire == Replies(steps, n)
  {
    hide Next;
    RepliesInOrder(steps, n);
    HonestServerNeverOrphans(steps, n);
    var s, sent := Run(steps, n), Replies(steps, n);
    var k := |sent| - |s.wire|;
    FullSubsequence(RanReplies(s), sent[..k]);
    assert sent == sent[..k] + sent[k..];
  }

  lemma {:induction false} FullSubsequence(a: seq<Result>, b: seq<Result>)
    requires Subsequence(a, b)
    ensures |a| <= |b| && (|a| == |b| ==> a == b)
    decreases |b|
  {
    if a != [] {
      var front := b[..|b| - 1];
      if Subsequence(a, front) {
        FullSubsequence(a, front);
      } else {
        FullSubsequence(a[..|a| - 1], front);
        assert a == a[..|a| - 1] + [a[|a| - 1]];
        assert b == front + [b[|b| - 1]];
      }
    }
  }

  // ----- Calls get through -----------------------------------------------------------------

  /** Some thread is at this point of CallMethod. */
  ghost predicate SomeThreadAt(s: State, pc: Pc) {
    exists t :: t in s.threads && s.threads[t] == pc
  }

  /** A number that is not yet saved, or not yet sent, is still in the hands of the
      thread that got it. */
  ghost predicate InHands(s: State, id: nat)
    requires id in s.owner
  {
    if id !in s.saved then SomeThreadAt(s, Numbered(s.owner[id], id))
    else id in s.sent || SomeThreadAt(s, Saved(s.owner[id], id))
  }

  ghost predicate Tracked(s: State) {
    forall id :: id in s.owner ==> InHands(s, id)
  }

  lemma TrackedKept(s: State, step: Step)
    requires NumbersOk(s) && ThreadsOk(s) && PendingOk(s) && Tracked(s)
    ensures Tracked(Next(s, step))
  {
    hide Next, NumbersOk, ThreadsOk, PendingOk, InHands;
    forall id | id in Next(s, step).owner ensures InHands(Next(s, step), id) {
      if id in s.owner {
        assert InHands(s, id);
        OwnerKept(s, step, id);
        StaysInHands(s, step, id);
      } else {
        NewInHands(s, step, id);
      }
    }
  }

  lemma OwnerKept(s: State, step: Step, id: nat)
    requires NumbersOk(s) && ThreadsOk(s) && id in s.owner
    ensures id in Next(s, step).owner && Next(s, step).owner[id] == s.owner[id]
  {
    if step.CompareExchange? {
      assert PcOk(s, PcOf(s, step.thread));
    }
  }

  lemma NewInHands(s: State, step: Step, id: nat)
    requires PendingOk(s) && id !in s.owner && id in Next(s, step).owner
    ensures InHands(Next(s, step), id)
  {
    var s' := Next(s, step);
    assert s'.threads[step.thread] == Numbered(s'.owner[id], id);
  }

  lemma StaysInHands(s: State, step: Step, id: nat)
    requires ThreadsOk(s) && id in s.owner && InHands(s, id)
    requires id in Next(s, step).owner && Next(s, step).owner[id] == s.owner[id]
    ensures InHands(Next(s, step), id)
  {
    var s', tag := Next(s, step), s.owner[id];
    if step.Save? && PcOf(s, step.thread).Numbered? {
      assert PcOk(s, PcOf(s, step.thread));
      assert s'.threads[step.thread] == Saved(PcOf(s, step.thread).tag, PcOf(s, step.thread).id);
    }
    if id !in s.saved {
      var t :| t in s.threads && s.threads[t] == Numbered(tag, id);
      assert t in s'.threads && (s'.threads[t] == s.threads[t] || s'.threads[t] == Saved(tag, id));
    } else if id !in s.sent {
      var t :| t in s.threads && s.threads[t] == Saved(tag, id);
      assert t in s'.threads && (s'.threads[t] == s.threads[t] || id in s'.sent);
    }
  }

  /** In every run each number given out is in the hands of a thread or has been sent, and
      what has been sent and not answered by a completion is pending. */
  lemma {:induction false} NoNumberIsLost(steps: seq<Step>, n: nat)
    requires n <= |steps|
    ensures Tracked(Run(steps, n))
    ensures forall id :: id in Run(steps, n).sent - CompletedIds(Run(steps, n)) ==> id in Run(steps, n).pending
  {
    RunInv(steps, n);
    if n > 0 {
      hide Next, Tracked;
      NoNumberIsLost(steps, n - 1);
      RunInv(steps, n - 1);
      TrackedKept(Run(steps, n - 1), steps[n - 1]);
    }
  }

  /** What a thread does to issue a call. */
  function Issued(s: State, t: nat): State {
    Next(Next(Next(Next(Next(s, Begin(t)), Load(t)), CompareExchange(t, false)), Save(t)), Send(t))
  }

  lemma IssuedDoes(s: State, t: nat)
    requires PcOf(s, t).Idle? && s.next + 1 < 0x8000_0000
    ensures var s' := Issued(s, t);
            && PcOf(s', t).Idle? && s'.next == s.next + 1 && s'.tags == s.tags + 1
            && s'.pending == s.pending[s.next := s.tags] && s'.sent == s.sent + {s.next}
            && s'.wire == s.wire && s'.ran == s.ran && s'.orphans == s.orphans
  {
    var s1 := Next(s, Begin(t));
    assert PcOf(s1, t) == Starting(s.tags);
    var s2 := Next(s1, Load(t));
    assert PcOf(s2, t) == Looping(s.tags, s.next);
    var s3 := Next(s2, CompareExchange(t, false));
    assert PcOf(s3, t) == Numbered(s.tags, s.next);
    var s4 := Next(s3, Save(t));
    assert PcOf(s4, t) == Saved(s.tags, s.next);
  }

  /** From every reachable state an idle thread can issue a call; answered at once, its
      completion runs with the payload of the answer and nothing else is disturbed. */
  lemma CallGetsItsAnswer(steps: seq<Step>, n: nat, t: nat, payload: Payload)
    requires n <= |steps| && PcOf(Run(steps, n), t).Idle?
    requires Run(steps, n).next + 1 < 0x8000_0000 && Run(steps, n).wire == []
    ensures var s := Run(steps, n);
            var reply := Result(s.next, payload);
            var s' := Next(Next(Issued(s, t), Reply(reply)), Receive);
            && s'.ran == s.ran + [Completion(s.tags, reply)] && s'.orphans == s.orphans
            && s'.pending == s.pending && s'.wire == []
  {
    hide Issued;
    RunInv(steps, n);
    var s := Run(steps, n);
    IssuedDoes(s, t);
    assert s.next !in s.pending;
    assert s.pending[s.next := s.tags] - {s.next} == s.pending;
  }
}
