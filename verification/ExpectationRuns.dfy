/**
 What a run of expectations and calls means, said without counters, flags or
 graphs that change: from the EXPECT_CALL clauses and the calls taken so far.
 The run of the code is proved to be exactly that.
 */
module ExpectationRuns {
  import opened Base
  import opened Expectations

  type Clause = x: Event | x.Expect? witness Expect(0, 0, false, {}, [])

  /** The EXPECT_CALL clauses among the first `n` events, in order. */
  function Clauses(events: seq<Event>, n: nat): seq<Clause>
    requires n <= |events|
  {
    if n == 0 then []
    else Clauses(events, n - 1) + if events[n - 1].Expect? then [events[n - 1]] else []
  }

  function Low(x: Clause): nat {
    if x.min < 0 then 0 else x.min
  }

  function High(x: Clause): nat {
    if x.max < Low(x) then Low(x) else x.max
  }

  /** How often `e` was called. */
  function Count(trace: seq<nat>, e: nat): nat {
    multiset(trace)[e]
  }

  /** `p` is named in the After clause of `e`, or is the latest before `e` in one of
      its sequences. */
  ghost predicate Direct(xs: seq<Clause>, p: nat, e: nat) {
    && p < e < |xs|
    && (p in xs[e].after || exists s :: s in xs[e].sequences && Latest(xs, s, p, e))
  }

  /** `p` is the last one before `e` that joined sequence `s`. */
  predicate Latest(xs: seq<Clause>, s: nat, p: nat, e: nat) {
    p < e <= |xs| && s in xs[p].sequences && forall g :: p < g < e ==> s !in xs[g].sequences
  }

  ghost predicate Earlier(xs: seq<Clause>, p: nat, e: nat)
    decreases e
  {
    Direct(xs, p, e) || exists q :: 0 <= q < e && Direct(xs, q, e) && Earlier(xs, p, q)
  }

  /** The `i`-th call was not excessive. */
  predicate Regular(xs: seq<Clause>, trace: seq<nat>, i: nat)
    requires i < |trace|
  {
    trace[i] < |xs| && Count(trace[..i], trace[i]) < High(xs[trace[i]])
  }

  /** A call that was not excessive went to something behind `e`, or `e` retires on
      saturation and has had all its calls. */
  ghost predicate Gone(xs: seq<Clause>, trace: seq<nat>, e: nat)
    requires e < |xs|
  {
    || (exists i :: 0 <= i < |trace| && Passes(xs, trace, i, e))
    || (xs[e].retiresOnSaturation && 0 < High(xs[e]) <= Count(trace, e))
  }

  ghost predicate Passes(xs: seq<Clause>, trace: seq<nat>, i: nat, e: nat)
    requires i < |trace|
  {
    Earlier(xs, e, trace[i]) && Regular(xs, trace, i)
  }

  /** Everything before `e` has had as many calls as it asks for, and no more. */
  ghost predicate Due(xs: seq<Clause>, trace: seq<nat>, e: nat) {
    forall p :: 0 <= p < |xs| && Earlier(xs, p, e) ==> Low(xs[p]) <= Count(trace, p) <= High(xs[p])
  }

  ghost predicate Takes(xs: seq<Clause>, trace: seq<nat>, e: nat) {
    e < |xs| && !Gone(xs, trace, e) && Due(xs, trace, e)
  }

  /** The calls taken in the first `n` events. */
  ghost function Trace(events: seq<Event>, n: nat): seq<nat>
    requires n <= |events|
  {
    if n == 0 then []
    else
      var trace := Trace(events, n - 1);
      if events[n - 1].Call? && Takes(Clauses(events, n - 1), trace, events[n - 1].e) then trace + [events[n - 1].e]
      else trace
  }

  // ----- The code agrees -------------------------------------------------------------------

  ghost predicate EntryTied(m: Mock, xs: seq<Clause>, e: nat)
    requires |m.es| == |xs| && e < |xs|
  {
    && m.es[e].min == Low(xs[e]) && m.es[e].max == High(xs[e])
    && m.es[e].retiresOnSaturation == xs[e].retiresOnSaturation
    && m.es[e].callCount == Count(m.trace, e)
    && (m.es[e].retired <==> Gone(xs, m.trace, e))
    && (forall p: nat :: p in m.es[e].prereqs <==> Direct(xs, p, e))
  }

  /** A sequence's members are those whose clause names it, in the order of the clauses. */
  ghost predicate Joined(m: Mock, xs: seq<Clause>, s: nat) {
    && (forall e: nat :: e in Members(m, s) <==> e < |xs| && s in xs[e].sequences)
    && (forall i, j :: 0 <= i < j < |Members(m, s)| ==> Members(m, s)[i] < Members(m, s)[j])
  }

  ghost predicate Tied(m: Mock, xs: seq<Clause>) {
    && |m.es| == |xs|
    && (forall e :: e in m.trace ==> e < |xs|)
    && (forall e :: 0 <= e < |xs| ==> EntryTied(m, xs, e))
    && (forall s: nat :: Joined(m, xs, s))
  }

  lemma {:induction false} BeforeIsEarlier(m: Mock, xs: seq<Clause>, p: nat, e: nat)
    requires Tied(m, xs) && Ordered(m.es) && e < |xs|
    ensures Before(m.es, p, e) <==> Earlier(xs, p, e)
    decreases e
  {
    hide Gone, Joined, Direct;
    assert EntryTied(m, xs, e);
    forall q | q in m.es[e].prereqs ensures Before(m.es, p, q) <==> Earlier(xs, p, q) {
      BeforeIsEarlier(m, xs, p, q);
    }
    if Before(m.es, p, e) && p !in m.es[e].prereqs {
      var q :| q in m.es[e].prereqs && Before(m.es, p, q);
      assert Direct(xs, q, e) && Earlier(xs, p, q);
    }
    if Earlier(xs, p, e) && !Direct(xs, p, e) {
      var q :| 0 <= q < e && Direct(xs, q, e) && Earlier(xs, p, q);
      assert q in m.es[e].prereqs;
    }
  }

  /** The code's test for taking a call is the reference's. */
  lemma HandlesExactly(m: Mock, xs: seq<Clause>, e: nat)
    requires Tied(m, xs) && Ordered(m.es) && e < |xs|
    ensures ShouldHandle(m.es, e) <==> Takes(xs, m.trace, e)
  {
    hide Gone, Joined, Direct, Earlier, Before;
    assert EntryTied(m, xs, e);
    AllSatisfiedMeansEvery(m.es, e);
    forall p | 0 <= p < |xs|
      ensures Before(m.es, p, e) <==> Earlier(xs, p, e)
      ensures m.es[p].IsSatisfied() <==> Low(xs[p]) <= Count(m.trace, p) <= High(xs[p])
    {
      BeforeIsEarlier(m, xs, p, e);
      assert EntryTied(m, xs, p);
    }
  }

  // ----- One more call -----------------------------------------------------------------------

  /** What one more call to `f` adds to what is gone. */
  lemma GoneGrows(xs: seq<Clause>, trace: seq<nat>, f: nat, e: nat)
    requires e < |xs| && f < |xs|
    ensures Gone(xs, trace + [f], e) <==>
              || Gone(xs, trace, e)
              || (Earlier(xs, e, f) && Count(trace, f) < High(xs[f]))
              || (e == f && xs[e].retiresOnSaturation && Count(trace, e) + 1 == High(xs[e]))
  {
    hide Earlier;
    var trace' := trace + [f];
    assert trace'[..|trace|] == trace;
    forall i | 0 <= i < |trace| ensures Passes(xs, trace', i, e) <==> Passes(xs, trace, i, e) {
      assert trace'[..i] == trace[..i];
    }
    assert Passes(xs, trace', |trace|, e) <==> Earlier(xs, e, f) && Count(trace, f) < High(xs[f]);
  }

  lemma CallEntry(m: Mock, xs: seq<Clause>, f: nat, e: nat)
    requires Tied(m, xs) && Ordered(m.es) && Closed(m.es) && f < |xs| && e < |xs|
    ensures var m' := m.(es := AfterCall(m.es, f), trace := m.trace + [f]);
            |m'.es| == |xs| && EntryTied(m', xs, e)
  {
    hide Gone, Joined, Direct, Earlier, Before, AfterCall;
    AfterCallKeeps(m.es, f);
    GoneGrows(xs, m.trace, f, e);
    BeforeIsEarlier(m, xs, e, f);
    NotBeforeItself(m.es, f);
    assert EntryTied(m, xs, e) && EntryTied(m, xs, f);
  }

  lemma CallTied(m: Mock, xs: seq<Clause>, f: nat)
    requires Tied(m, xs) && Ordered(m.es) && Closed(m.es) && f < |xs|
    ensures Tied(m.(es := AfterCall(m.es, f), trace := m.trace + [f]), xs)
  {
    hide EntryTied, AfterCall;
    var m' := m.(es := AfterCall(m.es, f), trace := m.trace + [f]);
    CallEntry(m, xs, f, f);
    forall e | 0 <= e < |xs| ensures EntryTied(m', xs, e) {
      CallEntry(m, xs, f, e);
    }
    forall s: nat ensures Joined(m', xs, s) {
      assert Joined(m, xs, s) && Members(m', s) == Members(m, s);
    }
  }

  // ----- One more expectation -------------------------------------------------------------------

  /** A new clause changes nothing between the older ones. */
  lemma {:induction false} EarlierKept(xs: seq<Clause>, x: Clause, p: nat, e: nat)
    requires e < |xs|
    ensures Earlier(xs + [x], p, e) <==> Earlier(xs, p, e)
    decreases e
  {
    hide Direct;
    forall q: nat | q <= e ensures Direct(xs + [x], q, e) <==> Direct(xs, q, e) {
      DirectKept(xs, x, q, e);
    }
    DirectKept(xs, x, p, e);
    forall q | 0 <= q < e ensures Earlier(xs + [x], p, q) <==> Earlier(xs, p, q) {
      EarlierKept(xs, x, p, q);
    }
  }

  lemma DirectKept(xs: seq<Clause>, x: Clause, p: nat, e: nat)
    requires e < |xs|
    ensures Direct(xs + [x], p, e) <==> Direct(xs, p, e)
  {
    forall s ensures Latest(xs + [x], s, p, e) <==> Latest(xs, s, p, e) {
      LatestKept(xs, x, s, p, e);
    }
  }

  lemma LatestKept(xs: seq<Clause>, x: Clause, s: nat, p: nat, e: nat)
    requires e <= |xs|
    ensures Latest(xs + [x], s, p, e) <==> Latest(xs, s, p, e)
  {
    forall g | 0 <= g < e ensures (xs + [x])[g] == xs[g] {
    }
  }

  lemma {:induction false} EarlierIsOlder(xs: seq<Clause>, p: nat, e: nat)
    requires Earlier(xs, p, e)
    ensures p < e < |xs|
    decreases e
  {
    if !Direct(xs, p, e) {
      var q :| 0 <= q < e && Direct(xs, q, e) && Earlier(xs, p, q);
      EarlierIsOlder(xs, p, q);
    }
  }

  lemma GoneKept(xs: seq<Clause>, x: Clause, trace: seq<nat>, e: nat)
    requires e < |xs| && forall f :: f in trace ==> f < |xs|
    ensures Gone(xs + [x], trace, e) <==> Gone(xs, trace, e)
  {
    hide Earlier;
    forall i | 0 <= i < |trace| ensures Passes(xs + [x], trace, i, e) <==> Passes(xs, trace, i, e) {
      assert trace[i] in trace;
      EarlierKept(xs, x, e, trace[i]);
    }
  }

  lemma NewIsNotGone(xs: seq<Clause>, x: Clause, trace: seq<nat>)
    requires forall f :: f in trace ==> f < |xs|
    ensures Count(trace, |xs|) == 0 && !Gone(xs + [x], trace, |xs|)
  {
    hide Earlier;
    assert |xs| !in trace;
    forall i | 0 <= i < |trace| ensures !Passes(xs + [x], trace, i, |xs|) {
      assert trace[i] in trace;
      if Earlier(xs + [x], |xs|, trace[i]) {
        EarlierIsOlder(xs + [x], |xs|, trace[i]);
      }
    }
  }

  /** The last members, before the newest, of the first `k` sequences. */
  function Lasts(m: Mock, sequences: seq<nat>, k: nat): set<nat>
    requires k <= |sequences|
  {
    set s | s in sequences[..k] && s in m.last :: m.last[s]
  }

  /** `m'` is `m` with the newest expectation in the first `k` sequences: each added its
      last member, if any, as a prerequisite. */
  ghost predicate PrereqsJoined(m: Mock, m': Mock, sequences: seq<nat>, k: nat)
    requires m.es != [] && k <= |sequences|
  {
    var e := |m.es| - 1;
    && |m'.es| == |m.es| && m'.es[..e] == m.es[..e] && m'.trace == m.trace
    && m'.es[e] == m.es[e].(prereqs := m.es[e].prereqs + Lasts(m, sequences, k))
  }

  ghost predicate LastJoined(m: Mock, m': Mock, sequences: seq<nat>, k: nat)
    requires m.es != [] && k <= |sequences|
  {
    && (forall s: nat :: s in m'.last <==> s in m.last || s in sequences[..k])
    && (forall s: nat :: s in m'.last ==> m'.last[s] == if s in sequences[..k] then |m.es| - 1 else m.last[s])
  }

  ghost predicate MembersJoined(m: Mock, m': Mock, sequences: seq<nat>, k: nat)
    requires m.es != [] && k <= |sequences|
  {
    forall s: nat :: Members(m', s) == Members(m, s) + if s in sequences[..k] then [|m.es| - 1] else []
  }

  lemma JoinsNone(m: Mock, sequences: seq<nat>)
    requires m.es != []
    ensures PrereqsJoined(m, m, sequences, 0) && LastJoined(m, m, sequences, 0) && MembersJoined(m, m, sequences, 0)
  {
    var e := |m.es| - 1;
    assert m.es[e].prereqs + Lasts(m, sequences, 0) == m.es[e].prereqs;
  }

  lemma PrereqsJoinOne(m: Mock, m1: Mock, sequences: seq<nat>, k: nat)
    requires m.es != [] && k < |sequences| && (forall s :: s in m.last ==> m.last[s] != |m.es| - 1)
    requires PrereqsJoined(m, m1, sequences, k) && LastJoined(m, m1, sequences, k)
    ensures PrereqsJoined(m, AddExpectation(m1, sequences[k]), sequences, k + 1)
  {
    var s, e, m' := sequences[k], |m.es| - 1, AddExpectation(m1, sequences[k]);
    LastsGrow(m, sequences, k);
    hide Lasts;
    if s in m1.last && m1.last[s] != e {
      assert m'.es[..e] == m1.es[..e];
      assert m.es[e].prereqs + Lasts(m, sequences, k) + {m.last[s]} == m.es[e].prereqs + Lasts(m, sequences, k + 1);
    }
  }

  lemma LastsGrow(m: Mock, sequences: seq<nat>, k: nat)
    requires k < |sequences|
    ensures var s := sequences[k];
            Lasts(m, sequences, k + 1) == Lasts(m, sequences, k) + if s in m.last then {m.last[s]} else {}
    ensures sequences[k] in sequences[..k] ==> Lasts(m, sequences, k + 1) == Lasts(m, sequences, k)
  {
    assert sequences[..k + 1] == sequences[..k] + [sequences[k]];
  }

  lemma LastJoinOne(m: Mock, m1: Mock, sequences: seq<nat>, k: nat)
    requires m.es != [] && |m1.es| == |m.es| && k < |sequences|
    requires LastJoined(m, m1, sequences, k)
    ensures LastJoined(m, AddExpectation(m1, sequences[k]), sequences, k + 1)
  {
    assert sequences[..k + 1] == sequences[..k] + [sequences[k]];
  }

  lemma MembersJoinOne(m: Mock, m1: Mock, sequences: seq<nat>, k: nat)
    requires m.es != [] && |m1.es| == |m.es| && k < |sequences| && (forall s :: s in m.last ==> m.last[s] != |m.es| - 1)
    requires LastJoined(m, m1, sequences, k) && MembersJoined(m, m1, sequences, k)
    ensures MembersJoined(m, AddExpectation(m1, sequences[k]), sequences, k + 1)
  {
    hide LastJoined, AddExpectation, Members;
    forall s: nat
      ensures Members(AddExpectation(m1, sequences[k]), s) ==
              Members(m, s) + if s in sequences[..k + 1] then [|m.es| - 1] else []
    {
      MemberJoinOne(m, m1, sequences, k, s);
    }
  }

  lemma MemberJoinOne(m: Mock, m1: Mock, sequences: seq<nat>, k: nat, s: nat)
    requires m.es != [] && |m1.es| == |m.es| && k < |sequences| && (forall x :: x in m.last ==> m.last[x] != |m.es| - 1)
    requires LastJoined(m, m1, sequences, k)
    requires Members(m1, s) == Members(m, s) + if s in sequences[..k] then [|m.es| - 1] else []
    ensures Members(AddExpectation(m1, sequences[k]), s) ==
            Members(m, s) + if s in sequences[..k + 1] then [|m.es| - 1] else []
  {
    var s0 := sequences[k];
    assert sequences[..k + 1] == sequences[..k] + [s0];
    assert s in sequences[..k + 1] <==> s in sequences[..k] || s == s0;
    MembersAfterAdd(m1, s0, s);
    hide AddExpectation, Members;
  }

  lemma MembersAfterAdd(m: Mock, s0: nat, s: nat)
    requires m.es != []
    ensures Members(AddExpectation(m, s0), s) ==
            Members(m, s) + if s == s0 && !(s0 in m.last && m.last[s0] == |m.es| - 1) then [|m.es| - 1] else []
  {
    assert Members(m, s) + [] == Members(m, s);
  }

  lemma {:induction false} JoinsAll(m: Mock, sequences: seq<nat>, k: nat)
    requires m.es != [] && k <= |sequences| && (forall s :: s in m.last ==> m.last[s] != |m.es| - 1)
    ensures var m' := AddToAll(m, sequences, k);
            PrereqsJoined(m, m', sequences, k) && LastJoined(m, m', sequences, k) && MembersJoined(m, m', sequences, k)
  {
    hide PrereqsJoined, LastJoined, MembersJoined, AddExpectation;
    if k == 0 {
      JoinsNone(m, sequences);
    } else {
      JoinsAll(m, sequences, k - 1);
      var m1 := AddToAll(m, sequences, k - 1);
      PrereqsJoinOne(m, m1, sequences, k - 1);
      LastJoinOne(m, m1, sequences, k - 1);
      MembersJoinOne(m, m1, sequences, k - 1);
    }
  }

  /** The last member of a sequence is the latest that named it. */
  lemma LastIsLatest(m: Mock, xs: seq<Clause>, s: nat, p: nat)
    requires Joined(m, xs, s) && Chained(m)
    ensures s in m.last && p == m.last[s] <==> Latest(xs, s, p, |xs|)
  {
    if s in m.last {
      var ms := m.members[s];
      assert Chain(m.es, ms, m.last[s]) && Members(m, s) == ms;
      var last := ms[|ms| - 1];
      assert last in ms;
      forall g: nat | g < |xs| && s in xs[g].sequences ensures g <= last {
        assert g in ms;
        var i :| 0 <= i < |ms| && ms[i] == g;
      }
      if Latest(xs, s, p, |xs|) {
        assert p in Members(m, s);
        assert p <= last;
      }
    } else {
      assert Members(m, s) == [];
      assert Latest(xs, s, p, |xs|) ==> p in Members(m, s);
    }
  }

  /** The prerequisites of the newest expectation are those its clause says. */
  lemma NewPrereqs(m: Mock, xs: seq<Clause>, x: Clause, p: nat)
    requires Tied(m, xs) && Chained(m)
    ensures (p < |xs| && p in x.after) || p in Lasts(m, x.sequences, |x.sequences|) <==> Direct(xs + [x], p, |xs|)
  {
    hide EntryTied, Joined, Chained;
    assert x.sequences[..|x.sequences|] == x.sequences;
    forall s: nat ensures s in m.last && p == m.last[s] <==> Latest(xs + [x], s, p, |xs|) {
      LastIsLatest(m, xs, s, p);
      LatestKept(xs, x, s, p, |xs|);
    }
  }

  lemma MembersTied(m: Mock, m': Mock, xs: seq<Clause>, x: Clause, s: nat)
    requires Joined(m, xs, s) && Members(m', s) == Members(m, s) + if s in x.sequences then [|xs|] else []
    ensures Joined(m', xs + [x], s)
  {
    forall e: nat ensures e in Members(m', s) <==> e < |xs| + 1 && s in (xs + [x])[e].sequences {
      if e < |xs| {
        assert (xs + [x])[e] == xs[e];
      }
    }
    forall i, j | 0 <= i < j < |Members(m', s)| ensures Members(m', s)[i] < Members(m', s)[j] {
      assert Members(m, s)[i] in Members(m, s);
    }
  }

  lemma OldEntryTied(m: Mock, m': Mock, xs: seq<Clause>, x: Clause, e: nat)
    requires Tied(m, xs) && e < |xs| && |m'.es| == |xs| + 1 && m'.es[e] == m.es[e] && m'.trace == m.trace
    ensures EntryTied(m', xs + [x], e)
  {
    hide Gone, Direct, Joined;
    assert EntryTied(m, xs, e);
    GoneKept(xs, x, m.trace, e);
    forall p: nat ensures Direct(xs + [x], p, e) <==> Direct(xs, p, e) {
      DirectKept(xs, x, p, e);
    }
  }

  lemma ExpectTied(m: Mock, xs: seq<Clause>, x: Clause)
    requires Tied(m, xs) && Chained(m)
    ensures Tied(Step(m, x), xs + [x])
  {
    hide EntryTied, Joined, AddToAll, Lasts;
    var m1, m', e := Created(m, x), Step(m, x), |xs|;
    forall s | s in m.last ensures m.last[s] != |m1.es| - 1 {
      assert Chain(m.es, m.members[s], m.last[s]);
    }
    JoinsAll(m1, x.sequences, |x.sequences|);
    assert x.sequences[..|x.sequences|] == x.sequences;
    forall i | 0 <= i <= e ensures EntryTied(m', xs + [x], i) {
      if i < e {
        assert m'.es[..e][i] == m1.es[..e][i] == m.es[i];
        OldEntryTied(m, m', xs, x, i);
      } else {
        NewEntryTied(m, m', xs, x);
      }
    }
    forall s: nat ensures Joined(m', xs + [x], s) {
      assert Members(m1, s) == Members(m, s);
      assert Joined(m, xs, s);
      MembersTied(m, m', xs, x, s);
    }
  }

  lemma NewEntryTied(m: Mock, m': Mock, xs: seq<Clause>, x: Clause)
    requires Tied(m, xs) && Chained(m) && |m'.es| == |xs| + 1 && m'.trace == m.trace
    requires PrereqsJoined(Created(m, x), m', x.sequences, |x.sequences|)
    ensures EntryTied(m', xs + [x], |xs|)
  {
    hide Gone, Direct, Joined, Chained, Lasts;
    var e := |xs|;
    NewIsNotGone(xs, x, m.trace);
    assert Lasts(Created(m, x), x.sequences, |x.sequences|) == Lasts(m, x.sequences, |x.sequences|) by {
      SameLasts(m, x);
    }
    forall p: nat ensures p in m'.es[e].prereqs <==> Direct(xs + [x], p, e) {
      NewPrereqs(m, xs, x, p);
    }
  }

  lemma SameLasts(m: Mock, x: Clause)
    ensures Lasts(Created(m, x), x.sequences, |x.sequences|) == Lasts(m, x.sequences, |x.sequences|)
  {
  }

  // ----- Every run ------------------------------------------------------------------------------

  lemma StepTied(m: Mock, xs: seq<Clause>, ev: Event)
    requires Tied(m, xs) && Good(m)
    ensures Tied(Step(m, ev), xs + if ev.Expect? then [ev] else [])
    ensures Step(m, ev).trace == if ev.Call? && Takes(xs, m.trace, ev.e) then m.trace + [ev.e] else m.trace
  {
    if ev.Expect? {
      ExpectTied(m, xs, ev);
      hide EntryTied, Joined;
      JoinsKeepTrace(Created(m, ev), ev.sequences, |ev.sequences|);
    } else {
      hide EntryTied, Joined, ShouldHandle, Takes;
      assert xs + [] == xs;
      if ev.e < |xs| {
        HandlesExactly(m, xs, ev.e);
        CallTied(m, xs, ev.e);
      } else {
        NotYetThere(xs, m.trace, ev.e);
      }
    }
  }

  lemma NotYetThere(xs: seq<Clause>, trace: seq<nat>, e: nat)
    requires e >= |xs|
    ensures !Takes(xs, trace, e)
  {
  }

  lemma {:induction false} JoinsKeepTrace(m: Mock, sequences: seq<nat>, k: nat)
    requires m.es != [] && k <= |sequences|
    ensures AddToAll(m, sequences, k).trace == m.trace
  {
    if k > 0 {
      JoinsKeepTrace(m, sequences, k - 1);
    }
  }

  lemma {:induction false} RunTied(events: seq<Event>, n: nat)
    requires n <= |events|
    ensures Tied(Run(events, n), Clauses(events, n)) && Run(events, n).trace == Trace(events, n)
  {
    hide Tied, Good, Step, Takes;
    if n == 0 {
      StartTied();
    } else {
      RunTied(events, n - 1);
      RunGood(events, n - 1);
      StepTied(Run(events, n - 1), Clauses(events, n - 1), events[n - 1]);
    }
  }

  lemma StartTied()
    ensures Tied(START, [])
  {
  }

  /** In every run the calls taken are those of the reference: a call to `e` is taken
      if and only if `e` is there and not gone, and everything before it has had at
      least its least and at most its most number of calls. */
  lemma CallsTaken(events: seq<Event>, n: nat)
    requires n <= |events|
    ensures Run(events, n).trace == Trace(events, n)
  {
    RunTied(events, n);
  }

  /** In every run each expectation is what its clause and the calls say: bounds,
      prerequisites, number of calls, and whether it is retired. */
  lemma EntriesByClauses(events: seq<Event>, n: nat, e: nat)
    requires n <= |events| && e < |Clauses(events, n)|
    ensures var es, xs, trace := Run(events, n).es, Clauses(events, n), Trace(events, n);
            && |es| == |xs|
            && es[e].min == Low(xs[e]) && es[e].max == High(xs[e])
            && es[e].callCount == Count(trace, e)
            && (es[e].retired <==> Gone(xs, trace, e))
            && (forall p: nat :: p in es[e].prereqs <==> Direct(xs, p, e))
  {
    hide Gone, Direct;
    RunTied(events, n);
    assert EntryTied(Run(events, n), Clauses(events, n), e);
  }

  /** In every run a new expectation has joined every sequence its clause names, and no
      other; members stand in the order of their clauses. */
  lemma MembersByClauses(events: seq<Event>, n: nat, s: nat)
    requires n <= |events|
    ensures var ms, xs := Members(Run(events, n), s), Clauses(events, n);
            && (forall e: nat :: e in ms <==> e < |xs| && s in xs[e].sequences)
            && (forall i, j :: 0 <= i < j < |ms| ==> ms[i] < ms[j])
  {
    RunTied(events, n);
    assert Joined(Run(events, n), Clauses(events, n), s);
  }

  /** So in every run: once a call went to an expectation that allows calls, none goes to
      anything before it, and all of that has had its calls, neither too few nor too many. */
  lemma OrderByClauses(events: seq<Event>, n: nat, i: nat, p: nat)
    requires n <= |events| && i < |Trace(events, n)| && p < |Clauses(events, n)|
    requires var xs, e := Clauses(events, n), Trace(events, n)[i];
             e < |xs| && High(xs[e]) > 0 && Earlier(xs, p, e)
    ensures var xs, trace := Clauses(events, n), Trace(events, n);
            && (forall j :: i < j < |trace| ==> trace[j] != p)
            && Low(xs[p]) <= Count(trace, p) <= High(xs[p])
  {
    hide Gone, Direct, Earlier, Joined, Run, Trace, Clauses;
    RunTied(events, n);
    RunGood(events, n);
    var m, xs := Run(events, n), Clauses(events, n);
    var e := m.trace[i];
    assert e in m.trace && EntryTied(m, xs, e) && EntryTied(m, xs, p);
    BeforeIsEarlier(m, xs, p, e);
  }
}
