/**
 Google Mock's expectations: a prerequisite graph built by sequences and After
 clauses, an early-return retire, a recursive satisfied check and a pruned
 search for what is still missing.  Expectations are named by creation order.
 */
module Expectations {
  import opened Base

  datatype Expectation = Expectation(
    min: nat, max: nat, retiresOnSaturation: bool,
    prereqs: set<nat>, callCount: nat, retired: bool)
  {
    predicate IsSatisfied() {
      min <= callCount <= max
    }

    predicate IsSaturated() {
      callCount >= max
    }
  }

  type Table = seq<Expectation>

  /** Between(min, max) with its clamping of bad bounds. */
  function Bounds(min: int, max: int): (b: (nat, nat))
    ensures b.0 <= b.1
    ensures 0 <= min <= max ==> b == (min, max)
    ensures b.0 >= min && (b.0 == min || b.0 == 0)
    ensures b.1 >= max && (b.1 == max || b.1 == b.0)
  {
    var lo := if min >= 0 then min else 0;
    (lo, if max >= lo then max else lo)
  }

  /** Prerequisites are always older. */
  ghost predicate Ordered(t: Table) {
    forall e, p :: 0 <= e < |t| && p in t[e].prereqs ==> p < e
  }

  /** `p` is a transitive prerequisite of `e`. */
  ghost predicate Before(t: Table, p: nat, e: nat)
    requires Ordered(t) && e < |t|
    decreases e
  {
    p in t[e].prereqs || exists q :: q in t[e].prereqs && Before(t, p, q)
  }

  lemma {:induction false} BeforeTransitive(t: Table, p: nat, q: nat, e: nat)
    requires Ordered(t) && q < |t| && e < |t| && Before(t, p, q) && Before(t, q, e)
    ensures Before(t, p, e)
    decreases e
  {
    if q !in t[e].prereqs {
      var r :| r in t[e].prereqs && Before(t, q, r);
      BeforeTransitive(t, p, q, r);
    }
  }

  lemma {:induction false} BeforeIsOlder(t: Table, p: nat, e: nat)
    requires Ordered(t) && e < |t| && Before(t, p, e)
    ensures p < e
    decreases e
  {
    if p !in t[e].prereqs {
      var q :| q in t[e].prereqs && Before(t, p, q);
      BeforeIsOlder(t, p, q);
    }
  }

  lemma NotBeforeItself(t: Table, e: nat)
    requires Ordered(t) && e < |t|
    ensures !Before(t, e, e)
  {
    if Before(t, e, e) {
      BeforeIsOlder(t, e, e);
    }
  }

  /** The graphs agree on the first `n` expectations. */
  ghost predicate SameBelow(t: Table, t': Table, n: nat) {
    n <= |t| && n <= |t'| && forall i :: 0 <= i < n ==> t'[i].prereqs == t[i].prereqs
  }

  /** The older part of the graph alone decides. */
  lemma {:induction false} BeforeByGraph(t: Table, t': Table, n: nat, p: nat, e: nat)
    requires Ordered(t) && Ordered(t') && SameBelow(t, t', n) && e < n
    ensures Before(t', p, e) <==> Before(t, p, e)
    decreases e
  {
    forall q | q in t[e].prereqs ensures Before(t', p, q) <==> Before(t, p, q) {
      BeforeByGraph(t, t', n, p, q);
    }
  }

  // ----- AllPrerequisitesAreSatisfied ----------------------------------------------

  predicate AllPrerequisitesAreSatisfied(t: Table, e: nat)
    requires Ordered(t) && e < |t|
    decreases e
  {
    forall p :: p in t[e].prereqs ==> t[p].IsSatisfied() && AllPrerequisitesAreSatisfied(t, p)
  }

  lemma {:induction false} AllSatisfiedMeansEvery(t: Table, e: nat)
    requires Ordered(t) && e < |t|
    ensures AllPrerequisitesAreSatisfied(t, e) <==> forall p :: 0 <= p < |t| && Before(t, p, e) ==> t[p].IsSatisfied()
    decreases e
  {
    forall p | p in t[e].prereqs
      ensures AllPrerequisitesAreSatisfied(t, p) <==> forall q :: 0 <= q < |t| && Before(t, q, p) ==> t[q].IsSatisfied()
    {
      AllSatisfiedMeansEvery(t, p);
    }
    if forall p :: 0 <= p < |t| && Before(t, p, e) ==> t[p].IsSatisfied() {
      forall p, q | p in t[e].prereqs && 0 <= q < |t| && Before(t, q, p) ensures t[q].IsSatisfied() {
        assert Before(t, q, e);
      }
    }
  }

  // ----- FindUnsatisfiedPrerequisites ------------------------------------------------

  /** Whoever was called, and is satisfied, has all its transitive prerequisites
      satisfied. */
  ghost predicate CalledInTurn(t: Table)
    requires Ordered(t)
  {
    forall e, p :: 0 <= e < |t| && t[e].callCount > 0 && t[e].IsSatisfied() && 0 <= p < |t| && Before(t, p, e) ==>
      t[p].IsSatisfied()
  }

  /** `p` is unsatisfied and is reached from `e` through satisfied ones only. */
  ghost predicate Missing(t: Table, p: nat, e: nat)
    requires Ordered(t) && e < |t|
    decreases e
  {
    || (p in t[e].prereqs && !t[p].IsSatisfied())
    || (exists q :: q in t[e].prereqs && t[q].IsSatisfied() && Missing(t, p, q))
  }

  lemma {:induction false} MissingIsUnsatisfied(t: Table, p: nat, e: nat)
    requires Ordered(t) && e < |t| && Missing(t, p, e)
    ensures p < |t| && Before(t, p, e) && !t[p].IsSatisfied()
    decreases e
  {
    if !(p in t[e].prereqs && !t[p].IsSatisfied()) {
      var q :| q in t[e].prereqs && t[q].IsSatisfied() && Missing(t, p, q);
      MissingIsUnsatisfied(t, p, q);
    }
  }

  ghost predicate AnyMissing(t: Table, e: nat)
    requires Ordered(t) && e < |t|
  {
    exists p: nat :: Missing(t, p, e)
  }

  lemma {:induction false} NoneMissingPasses(t: Table, e: nat)
    requires Ordered(t) && e < |t| && !AnyMissing(t, e)
    ensures AllPrerequisitesAreSatisfied(t, e)
    decreases e
  {
    forall q | q in t[e].prereqs ensures t[q].IsSatisfied() && AllPrerequisitesAreSatisfied(t, q) {
      assert !Missing(t, q, e);
      forall p: nat ensures !Missing(t, p, q) {
        assert !Missing(t, p, e);
      }
      NoneMissingPasses(t, q);
    }
  }

  /** Nothing is missing exactly when the recursive check passes. */
  lemma NothingMissing(t: Table, e: nat)
    requires Ordered(t) && e < |t|
    ensures AnyMissing(t, e) <==> !AllPrerequisitesAreSatisfied(t, e)
  {
    if AnyMissing(t, e) {
      var p: nat :| Missing(t, p, e);
      MissingIsUnsatisfied(t, p, e);
      AllSatisfiedMeansEvery(t, e);
    } else {
      NoneMissingPasses(t, e);
    }
  }

  /** The search prunes below anything satisfied that was called.  It only ever adds
      what is missing, and in a table where calls came in turn, as in every reachable
      one, all of it. */
  method FindUnsatisfiedPrerequisites(t: Table, e: nat, found: set<nat>) returns (result: set<nat>)
    requires Ordered(t) && e < |t|
    ensures forall p: nat :: p in result ==> p in found || Missing(t, p, e)
    ensures found <= result
    ensures CalledInTurn(t) ==> forall p: nat :: Missing(t, p, e) ==> p in result
    decreases e
  {
    result := found;
    var todo := t[e].prereqs;
    ghost var done: set<nat> := {};
    while todo != {}
      invariant todo + done == t[e].prereqs
      invariant forall p: nat :: p in result ==> p in found || MissingIn(t, p, done)
      invariant found <= result
      invariant CalledInTurn(t) ==> forall p: nat :: MissingIn(t, p, done) ==> p in result
      decreases todo
    {
      var q :| q in todo;
      todo := todo - {q};
      if t[q].IsSatisfied() {
        if t[q].callCount == 0 {
          result := FindUnsatisfiedPrerequisites(t, q, result);
        } else {
          forall p: nat | Missing(t, p, q) ensures !CalledInTurn(t) {
            MissingIsUnsatisfied(t, p, q);
          }
        }
      } else {
        result := result + {q};
      }
      done := done + {q};
    }
  }

  ghost predicate MissingVia(t: Table, p: nat, q: nat)
    requires Ordered(t) && q < |t|
  {
    if t[q].IsSatisfied() then Missing(t, p, q) else p == q
  }

  ghost predicate MissingIn(t: Table, p: nat, done: set<nat>)
    requires Ordered(t) && forall q :: q in done ==> q < |t|
  {
    exists q :: q in done && MissingVia(t, p, q)
  }

  // ----- RetireAllPreRequisites --------------------------------------------------------

  /** An expectation is never retired before its prerequisites. */
  ghost predicate Closed(t: Table)
    requires Ordered(t)
  {
    forall e, p :: 0 <= e < |t| && t[e].retired && p in t[e].prereqs ==> t[p].retired
  }

  lemma {:induction false} ClosedBefore(t: Table, p: nat, e: nat)
    requires Ordered(t) && Closed(t) && e < |t| && t[e].retired && Before(t, p, e)
    ensures p < |t| && t[p].retired
    decreases e
  {
    if p !in t[e].prereqs {
      var q :| q in t[e].prereqs && Before(t, p, q);
      ClosedBefore(t, p, q);
    }
  }

  ghost function RetireIn(t: Table, more: iset<nat>): (t': Table)
    ensures |t'| == |t|
  {
    seq(|t|, i requires 0 <= i < |t| => if i in more then t[i].(retired := true) else t[i])
  }

  ghost function AllBefore(t: Table, e: nat): iset<nat>
    requires Ordered(t) && e < |t|
  {
    iset p: nat | Before(t, p, e)
  }

  lemma RetiredTwice(t: Table, a: iset<nat>, b: iset<nat>)
    ensures RetireIn(RetireIn(t, a), b) == RetireIn(t, a + b)
  {
  }

  lemma SameBefore(t: Table, t': Table, e: nat)
    requires Ordered(t) && Ordered(t') && SameBelow(t, t', e + 1)
    ensures AllBefore(t', e) == AllBefore(t, e)
  {
    forall p: nat ensures Before(t', p, e) <==> Before(t, p, e) {
      BeforeByGraph(t, t', e + 1, p, e);
    }
  }

  /** Retiring what is retired already changes nothing: why the short-cut is sound. */
  lemma AlreadyRetired(t: Table, e: nat)
    requires Ordered(t) && Closed(t) && e < |t| && t[e].retired
    ensures RetireIn(t, AllBefore(t, e) + iset{e}) == t
    ensures RetireIn(t, AllBefore(t, e)) == t
  {
    forall p | 0 <= p < |t| && Before(t, p, e) ensures t[p].retired && t[p].(retired := true) == t[p] {
      ClosedBefore(t, p, e);
    }
  }

  /** What has been retired once the prerequisites in `done` have been handled. */
  ghost function Handled(t: Table, done: set<nat>): iset<nat>
    requires Ordered(t) && forall q :: q in done ==> q < |t|
  {
    iset p: nat | HandledOne(t, done, p)
  }

  ghost predicate HandledOne(t: Table, done: set<nat>, p: nat)
    requires Ordered(t) && forall q :: q in done ==> q < |t|
  {
    exists q :: q in done && AtOrBefore(t, p, q)
  }

  ghost predicate AtOrBefore(t: Table, p: nat, q: nat)
    requires Ordered(t) && q < |t|
  {
    p == q || Before(t, p, q)
  }

  lemma HandledOneMore(t: Table, done: set<nat>, q: nat)
    requires Ordered(t) && q < |t| && forall x :: x in done ==> x < |t|
    ensures Handled(t, done + {q}) == Handled(t, done) + (AllBefore(t, q) + iset{q})
  {
  }

  lemma HandledAll(t: Table, e: nat)
    requires Ordered(t) && e < |t|
    ensures Handled(t, t[e].prereqs) == AllBefore(t, e)
  {
  }

  lemma RetireNext(t: Table, q: nat)
    requires Ordered(t) && q < |t|
    requires var t1 := RetireIn(t, AllBefore(t, q)); Ordered(t1) && Closed(t1)
    ensures var t1 := RetireIn(t, AllBefore(t, q));
            var t2 := t1[q := t1[q].(retired := true)];
            t2 == RetireIn(t, AllBefore(t, q) + iset{q}) && Ordered(t2) && Closed(t2)
  {
    var t1 := RetireIn(t, AllBefore(t, q));
    var t2 := t1[q := t1[q].(retired := true)];
    forall p | p in t1[q].prereqs ensures t1[p].retired {
      assert p in t[q].prereqs && Before(t, p, q);
    }
    assert t2 == RetireIn(t, AllBefore(t, q) + iset{q});
  }

  // ----- Taking a call -------------------------------------------------------------------

  predicate ShouldHandle(t: Table, e: nat)
    requires Ordered(t) && e < |t|
  {
    !t[e].retired && AllPrerequisitesAreSatisfied(t, e)
  }

  /** An excessive call is only counted; any other retires what came before. */
  ghost function AfterCall(t: Table, e: nat): Table
    requires Ordered(t) && e < |t|
  {
    var counted := t[e := t[e].(callCount := t[e].callCount + 1)];
    if t[e].IsSaturated() then counted
    else
      var moved := RetireIn(counted, AllBefore(t, e));
      if moved[e].retiresOnSaturation && moved[e].IsSaturated() then moved[e := moved[e].(retired := true)] else moved
  }

  /** This call is the one that saturates an expectation which retires on saturation. */
  predicate RetiresItself(x: Expectation) {
    x.retiresOnSaturation && x.callCount + 1 == x.max
  }

  lemma AfterCallShape(t: Table, e: nat)
    requires Ordered(t) && e < |t|
    ensures |AfterCall(t, e)| == |t|
    ensures forall i :: 0 <= i < |t| && i != e ==>
              AfterCall(t, e)[i] == if !t[e].IsSaturated() && Before(t, i, e) then t[i].(retired := true) else t[i]
    ensures AfterCall(t, e)[e] == t[e].(callCount := t[e].callCount + 1, retired := t[e].retired || RetiresItself(t[e]))
  {
    NotBeforeItself(t, e);
  }

  lemma AfterCallKeeps(t: Table, e: nat)
    requires Ordered(t) && Closed(t) && e < |t|
    ensures var t' := AfterCall(t, e); |t'| == |t| && SameBelow(t, t', |t|) && Ordered(t') && Closed(t')
    ensures forall i :: 0 <= i < |t| && i != e ==>
              AfterCall(t, e)[i] == if !t[e].IsSaturated() && Before(t, i, e) then t[i].(retired := true) else t[i]
    ensures AfterCall(t, e)[e] == t[e].(callCount := t[e].callCount + 1, retired := t[e].retired || RetiresItself(t[e]))
  {
    hide AfterCall;
    AfterCallShape(t, e);
    var t' := AfterCall(t, e);
    assert SameBelow(t, t', |t|);
    forall i, p | 0 <= i < |t| && t'[i].retired && p in t[i].prereqs ensures t'[p].retired {
      if !t[e].IsSaturated() {
        if i == e {
          assert Before(t, p, e);
        } else if !t[i].retired {
          assert Before(t, i, e);
          BeforeTransitive(t, p, i, e);
          BeforeIsOlder(t, p, e);
        }
      }
    }
  }

  // ----- Runs ------------------------------------------------------------------------------

  /** EXPECT_CALL with its After and InSequence clauses, or a mock call that is
      offered to expectation `e`. */
  datatype Event =
    | Expect(min: int, max: int, retiresOnSaturation: bool, after: set<nat>, sequences: seq<nat>)
    | Call(e: nat)

  /** `last` is each Sequence's last_expectation_; `members` and `trace` record
      which expectations joined it and which took calls. */
  datatype Mock = Mock(es: Table, last: map<nat, nat>, members: map<nat, seq<nat>>, trace: seq<nat>)

  function Members(m: Mock, s: nat): seq<nat> {
    if s in m.members then m.members[s] else []
  }

  /** Sequence::AddExpectation for the newest expectation. */
  function AddExpectation(m: Mock, s: nat): Mock
    requires m.es != []
  {
    var e := |m.es| - 1;
    if s in m.last && m.last[s] == e then m
    else
      var es' := if s in m.last then m.es[e := m.es[e].(prereqs := m.es[e].prereqs + {m.last[s]})] else m.es;
      m.(es := es', last := m.last[s := e], members := m.members[s := Members(m, s) + [e]])
  }

  function AddToAll(m: Mock, sequences: seq<nat>, k: nat): (r: Mock)
    requires m.es != [] && k <= |sequences|
    ensures |r.es| == |m.es|
  {
    if k == 0 then m else AddExpectation(AddToAll(m, sequences, k - 1), sequences[k - 1])
  }

  function Created(m: Mock, ev: Event): Mock
    requires ev.Expect?
  {
    var (min, max) := Bounds(ev.min, ev.max);
    var after := set x | x in ev.after && x < |m.es|;
    m.(es := m.es + [Expectation(min, max, ev.retiresOnSaturation, after, 0, false)])
  }

  ghost predicate Taken(m: Mock, ev: Event) {
    ev.Call? && ev.e < |m.es| && Ordered(m.es) && ShouldHandle(m.es, ev.e)
  }

  ghost function Step(m: Mock, ev: Event): Mock {
    match ev
    case Expect(_, _, _, _, sequences) => AddToAll(Created(m, ev), sequences, |sequences|)
    case Call(e) => if Taken(m, ev) then m.(es := AfterCall(m.es, e), trace := m.trace + [e]) else m
  }

  const START := Mock([], map[], map[], [])

  ghost function Run(events: seq<Event>, n: nat): Mock
    requires n <= |events|
  {
    if n == 0 then START else Step(Run(events, n - 1), events[n - 1])
  }

  // ----- What every run keeps ----------------------------------------------------------------

  /** Everything before a called expectation is retired and satisfied, unless that
      expectation allows no calls. */
  ghost predicate Behind(t: Table, trace: seq<nat>)
    requires Ordered(t)
  {
    && (forall e :: e in trace ==> e < |t|)
    && (forall e, p :: e in trace && t[e].max > 0 && 0 <= p < |t| && Before(t, p, e) ==>
          t[p].retired && t[p].IsSatisfied())
    && (forall e :: 0 <= e < |t| && t[e].callCount > 0 ==> e in trace)
  }

  /** No expectation takes a call after one that comes behind it and allows calls. */
  ghost predicate InOrder(t: Table, trace: seq<nat>)
    requires Ordered(t)
  {
    forall i, j :: 0 <= i < j < |trace| && trace[i] < |t| && t[trace[i]].max > 0 ==> !Before(t, trace[j], trace[i])
  }

  /** A sequence is a chain of prerequisites ending in its last expectation. */
  ghost predicate Chain(t: Table, ms: seq<nat>, last: nat) {
    && ms != [] && last == ms[|ms| - 1]
    && (forall i :: 0 <= i < |ms| ==> ms[i] < |t|)
    && (forall i :: 0 < i < |ms| ==> ms[i - 1] in t[ms[i]].prereqs)
  }

  ghost predicate Chained(m: Mock) {
    && m.members.Keys == m.last.Keys
    && (forall s :: s in m.members ==> Chain(m.es, m.members[s], m.last[s]))
  }

  ghost predicate Good(m: Mock) {
    Ordered(m.es) && Closed(m.es) && Behind(m.es, m.trace) && InOrder(m.es, m.trace) && Chained(m)
  }

  /** The newest expectation is untouched and nobody depends on it. */
  ghost predicate Fresh(m: Mock) {
    m.es != [] && var e := |m.es| - 1; m.es[e].callCount == 0 && !m.es[e].retired && e !in m.trace
  }

  /** A new last expectation, or new prerequisites of it, disturb nothing older. */
  lemma NewestKeeps(t: Table, t': Table, trace: seq<nat>, n: nat)
    requires Ordered(t) && Closed(t) && Behind(t, trace) && InOrder(t, trace)
    requires Ordered(t') && n <= |t| && |t'| == n + 1 && t'[..n] == t[..n]
    requires t'[n].callCount == 0 && !t'[n].retired && forall e :: e in trace ==> e < n
    ensures Closed(t') && Behind(t', trace) && InOrder(t', trace)
  {
    forall i | 0 <= i < n ensures t'[i] == t[i] {
      assert t'[..n][i] == t[..n][i];
    }
    forall p: nat, e | 0 <= e < n ensures Before(t', p, e) <==> Before(t, p, e) {
      BeforeByGraph(t, t', n, p, e);
    }
    forall e, p | e in trace && t'[e].max > 0 && 0 <= p < |t'| && Before(t', p, e)
      ensures t'[p].retired && t'[p].IsSatisfied()
    {
      BeforeIsOlder(t', p, e);
      assert Before(t, p, e);
    }
    forall i, j | 0 <= i < j < |trace| && trace[i] < |t'| && t'[trace[i]].max > 0
      ensures !Before(t', trace[j], trace[i])
    {
      assert trace[i] in trace;
      assert !Before(t, trace[j], trace[i]);
    }
  }

  lemma CreatedGood(m: Mock, ev: Event)
    requires Good(m) && ev.Expect?
    ensures Good(Created(m, ev)) && Fresh(Created(m, ev))
  {
    NewestKeeps(m.es, Created(m, ev).es, m.trace, |m.es|);
  }

  lemma AddGood(m: Mock, s: nat)
    requires Good(m) && Fresh(m)
    ensures Good(AddExpectation(m, s)) && Fresh(AddExpectation(m, s))
  {
    hide Closed, Behind, InOrder, Chained;
    var e, m' := |m.es| - 1, AddExpectation(m, s);
    LastIsOlder(m, s);
    TraceIsOlder(m);
    NewestKeeps(m.es, m'.es, m.trace, e);
    AddChained(m, s);
  }

  lemma LastIsOlder(m: Mock, s: nat)
    requires Chained(m)
    ensures s in m.last ==> m.last[s] < |m.es|
  {
    assert s in m.last ==> Chain(m.es, m.members[s], m.last[s]);
  }

  lemma TraceIsOlder(m: Mock)
    requires Ordered(m.es) && Behind(m.es, m.trace) && Fresh(m)
    ensures forall e :: e in m.trace ==> e < |m.es| - 1
  {
  }

  lemma ChainKept(t: Table, t': Table, ms: seq<nat>, last: nat)
    requires Chain(t, ms, last) && |t| <= |t'| && forall i :: 0 <= i < |t| ==> t[i].prereqs <= t'[i].prereqs
    ensures Chain(t', ms, last)
  {
  }

  lemma AddChained(m: Mock, s: nat)
    requires Chained(m) && m.es != []
    ensures Chained(AddExpectation(m, s))
  {
    hide Chain;
    var m', e := AddExpectation(m, s), |m.es| - 1;
    forall x | x in m'.members ensures Chain(m'.es, m'.members[x], m'.last[x]) {
      if x in m.members {
        ChainKept(m.es, m'.es, m.members[x], m.last[x]);
      }
      if x == s && m' != m {
        ChainGrows(m'.es, Members(m, s), if s in m.last then m.last[s] else e, e);
      }
    }
  }

  lemma ChainGrows(t: Table, ms: seq<nat>, last: nat, e: nat)
    requires e < |t| && (ms != [] ==> Chain(t, ms, last) && last in t[e].prereqs)
    ensures Chain(t, ms + [e], e)
  {
  }

  lemma {:induction false} AddAllGood(m: Mock, sequences: seq<nat>, k: nat)
    requires Good(m) && Fresh(m) && k <= |sequences|
    ensures Good(AddToAll(m, sequences, k)) && Fresh(AddToAll(m, sequences, k))
  {
    if k > 0 {
      AddAllGood(m, sequences, k - 1);
      AddGood(AddToAll(m, sequences, k - 1), sequences[k - 1]);
    }
  }

  /** The expectation that takes a call is not retired, so it is before none that
      took a call earlier and allows calls. */
  lemma CallInOrder(m: Mock, ev: Event)
    requires Good(m) && Taken(m, ev)
    ensures Ordered(Step(m, ev).es) && InOrder(Step(m, ev).es, Step(m, ev).trace)
  {
    var t, e, m' := m.es, ev.e, Step(m, ev);
    AfterCallKeeps(t, e);
    forall i, j | 0 <= i < j < |m'.trace| && m'.trace[i] < |t| && m'.es[m'.trace[i]].max > 0
      ensures !Before(m'.es, m'.trace[j], m'.trace[i])
    {
      BeforeByGraph(t, m'.es, |t|, m'.trace[j], m'.trace[i]);
      assert m.trace[i] in m.trace;
    }
  }

  lemma CallBehind(m: Mock, ev: Event)
    requires Good(m) && Taken(m, ev)
    ensures Ordered(AfterCall(m.es, ev.e)) && Behind(AfterCall(m.es, ev.e), m.trace + [ev.e])
  {
    var t, e := m.es, ev.e;
    var t', trace' := AfterCall(t, e), m.trace + [e];
    AfterCallKeeps(t, e);
    AllSatisfiedMeansEvery(t, e);
    forall f, p | f in trace' && t'[f].max > 0 && 0 <= p < |t| && Before(t', p, f)
      ensures t'[p].retired && t'[p].IsSatisfied()
    {
      BeforeByGraph(t, t', |t|, p, f);
      if f in m.trace {
        assert t[p].retired && t[p].IsSatisfied();
        assert p != e;
      } else {
        BeforeIsOlder(t, p, e);
        assert t[e].callCount == 0;
      }
    }
  }

  lemma CallGood(m: Mock, ev: Event)
    requires Good(m) && Taken(m, ev)
    ensures Good(Step(m, ev))
  {
    hide Behind, InOrder;
    AfterCallKeeps(m.es, ev.e);
    CallBehind(m, ev);
    CallInOrder(m, ev);
  }

  lemma StepGood(m: Mock, ev: Event)
    requires Good(m)
    ensures Good(Step(m, ev))
  {
    hide Good;
    if ev.Expect? {
      CreatedGood(m, ev);
      AddAllGood(Created(m, ev), ev.sequences, |ev.sequences|);
    } else if Taken(m, ev) {
      CallGood(m, ev);
    }
  }

  lemma StartGood()
    ensures Good(START)
  {
  }

  /** Every run, with excessive calls and with expectations that allow none. */
  lemma {:induction false} RunGood(events: seq<Event>, n: nat)
    requires n <= |events|
    ensures Good(Run(events, n))
  {
    hide Good, Step;
    if n == 0 {
      StartGood();
    } else {
      RunGood(events, n - 1);
      StepGood(Run(events, n - 1), events[n - 1]);
    }
  }

  // ----- When a call can be overtaken ----------------------------------------------------

  /** Everything before `e` is retired. */
  ghost predicate Sealed(t: Table, e: nat)
    requires Ordered(t) && e < |t|
  {
    forall p :: 0 <= p < |t| && Before(t, p, e) ==> t[p].retired
  }

  /** `e` allows calls, or nothing before it is active any more. */
  ghost predicate Allowed(t: Table, e: nat)
    requires Ordered(t) && e < |t|
  {
    t[e].max > 0 || Sealed(t, e)
  }

  /** Older expectations keep their prerequisites and stay retired. */
  ghost predicate Later(t: Table, t': Table) {
    && |t| <= |t'|
    && forall i :: 0 <= i < |t| ==> t'[i].prereqs == t[i].prereqs && (t[i].retired ==> t'[i].retired)
  }

  lemma {:induction false} AddAllIsLater(m: Mock, t: Table, sequences: seq<nat>, k: nat)
    requires k <= |sequences| && |m.es| == |t| + 1 && m.es[..|t|] == t
    ensures AddToAll(m, sequences, k).es[..|t|] == t
  {
    if k > 0 {
      AddAllIsLater(m, t, sequences, k - 1);
    }
  }

  lemma StepIsLater(m: Mock, ev: Event)
    requires Good(m)
    ensures Later(m.es, Step(m, ev).es)
  {
    if ev.Expect? {
      AddAllIsLater(Created(m, ev), m.es, ev.sequences, |ev.sequences|);
      assert forall i :: 0 <= i < |m.es| ==> Step(m, ev).es[i] == Step(m, ev).es[..|m.es|][i];
    } else if Taken(m, ev) {
      AfterCallKeeps(m.es, ev.e);
    }
  }

  lemma SealedStays(t: Table, t': Table, e: nat)
    requires Ordered(t) && Ordered(t') && e < |t| && Sealed(t, e) && Later(t, t')
    ensures Sealed(t', e)
  {
    forall p | 0 <= p < |t'| && Before(t', p, e) ensures t'[p].retired {
      BeforeByGraph(t, t', |t|, p, e);
      BeforeIsOlder(t, p, e);
    }
  }

  /** A call that is allowed leaves everything before it retired. */
  lemma AllowedSeals(m: Mock, e: nat)
    requires Good(m) && Taken(m, Call(e)) && Allowed(m.es, e)
    ensures var t' := AfterCall(m.es, e); |t'| == |m.es| && Ordered(t') && Sealed(t', e)
  {
    var t, t' := m.es, AfterCall(m.es, e);
    AfterCallKeeps(t, e);
    forall p | 0 <= p < |t'| && Before(t', p, e) ensures t'[p].retired {
      BeforeByGraph(t, t', |t|, p, e);
      BeforeIsOlder(t, p, e);
    }
  }

  /** Event `j` is a call that is taken by an expectation before `e`. */
  ghost predicate Overtakes(events: seq<Event>, j: nat, e: nat)
    requires j < |events|
  {
    var m := Run(events, j);
    Taken(m, events[j]) && e < |m.es| && Before(m.es, events[j].e, e)
  }

  ghost predicate NeverOvertaken(events: seq<Event>, k: nat, e: nat)
    requires k < |events|
  {
    forall later: seq<Event>, j: nat :: events[..k + 1] <= later && k < j < |later| ==> !Overtakes(later, j, e)
  }

  lemma {:induction false} RunByPrefix(events: seq<Event>, later: seq<Event>, n: nat)
    requires n <= |events| && n <= |later| && events[..n] == later[..n]
    ensures Run(events, n) == Run(later, n)
  {
    hide Step;
    if n > 0 {
      assert events[n - 1] == events[..n][n - 1] == later[n - 1];
      assert events[..n - 1] == events[..n][..n - 1] == later[..n - 1];
      RunByPrefix(events, later, n - 1);
    }
  }

  lemma {:induction false} SealedForGood(events: seq<Event>, k: nat, j: nat, e: nat)
    requires k <= j <= |events|
    requires var t := Run(events, k).es; Ordered(t) && e < |t| && Sealed(t, e)
    ensures var t := Run(events, j).es; Ordered(t) && e < |t| && Sealed(t, e)
    decreases j - k
  {
    hide Step, Sealed;
    if k < j {
      SealedForGood(events, k, j - 1, e);
      RunGood(events, j - 1);
      RunGood(events, j);
      StepIsLater(Run(events, j - 1), events[j - 1]);
      SealedStays(Run(events, j - 1).es, Run(events, j).es, e);
    }
  }

  lemma SealedIsNotOvertaken(events: seq<Event>, j: nat, e: nat)
    requires j < |events|
    requires var t := Run(events, j).es; Ordered(t) && e < |t| && Sealed(t, e)
    ensures !Overtakes(events, j, e)
  {
  }

  /** The exact condition for the order, in every reachable state: once `e` has taken
      a call, no continuation of the run calls anything before it, if and only if `e`
      allows calls or nothing before it was active any more. */
  lemma {:induction false} OrderExactly(events: seq<Event>, k: nat, e: nat)
    requires k < |events| && events[k] == Call(e) && Taken(Run(events, k), events[k])
    ensures Allowed(Run(events, k).es, e) <==> NeverOvertaken(events, k, e)
  {
    RunGood(events, k);
    if Allowed(Run(events, k).es, e) {
      AllowedSeals(Run(events, k), e);
      RunSteps(events, k);
      assert Run(events, k + 1).es == AfterCall(Run(events, k).es, e);
      hide Good, Taken, Step, Sealed, AfterCall, Overtakes, Run;
      forall later: seq<Event>, j: nat | events[..k + 1] <= later && k < j < |later| ensures !Overtakes(later, j, e) {
        assert later[..k + 1] == events[..k + 1];
        RunByPrefix(events, later, k + 1);
        SealedForGood(later, k + 1, j, e);
        SealedIsNotOvertaken(later, j, e);
      }
    } else {
      ActiveOvertakes(events, k, e);
    }
  }

  lemma {:induction false} RunSteps(events: seq<Event>, k: nat)
    requires k < |events|
    ensures Run(events, k + 1) == Step(Run(events, k), events[k])
  {
  }

  /** A prerequisite that was left active can take a call after its successor. */
  lemma {:induction false} ActiveOvertakes(events: seq<Event>, k: nat, e: nat)
    requires k < |events| && events[k] == Call(e) && Taken(Run(events, k), events[k])
    requires Good(Run(events, k)) && !Allowed(Run(events, k).es, e)
    ensures !NeverOvertaken(events, k, e)
  {
    hide Good, Taken, Step, Allowed, Run, Before, NeverOvertaken;
    var p := LeftActive(Run(events, k), e);
    RunSteps(events, k);
    OvertakingRun(events, k, e, p);
  }

  lemma {:induction false} OvertakingRun(events: seq<Event>, k: nat, e: nat, p: nat)
    requires k < |events| && Taken(Run(events, k + 1), Call(p))
    requires e < |Run(events, k + 1).es| && Before(Run(events, k + 1).es, p, e)
    ensures !NeverOvertaken(events, k, e)
  {
    hide Run, Before, ShouldHandle;
    var later := events[..k + 1] + [Call(p)];
    assert later[..k + 1] == events[..k + 1];
    RunByPrefix(events, later, k + 1);
    assert later[k + 1] == Call(p);
    assert Overtakes(later, k + 1, e);
  }

  lemma LeftActive(m: Mock, e: nat) returns (p: nat)
    requires Good(m) && Taken(m, Call(e)) && !Allowed(m.es, e)
    ensures var m' := Step(m, Call(e)); Taken(m', Call(p)) && e < |m'.es| && Before(m'.es, p, e)
  {
    var t := m.es;
    p :| p < |t| && Before(t, p, e) && !t[p].retired;
    BeforeIsOlder(t, p, e);
    StillActive(t, e, p);
    AfterCallKeeps(t, e);
    BeforeByGraph(t, AfterCall(t, e), |t|, p, e);
  }

  lemma StillActive(t: Table, e: nat, p: nat)
    requires Ordered(t) && Closed(t) && e < |t| && ShouldHandle(t, e) && t[e].max == 0
    requires p < e && Before(t, p, e) && !t[p].retired
    ensures var t' := AfterCall(t, e); |t'| == |t| && Ordered(t') && ShouldHandle(t', p)
  {
    var t' := AfterCall(t, e);
    AfterCallKeeps(t, e);
    AllSatisfiedMeansEvery(t, e);
    AllSatisfiedMeansEvery(t', p);
    forall q | 0 <= q < |t| && Before(t', q, p) ensures t'[q].IsSatisfied() {
      BeforeByGraph(t, t', |t|, q, p);
      BeforeTransitive(t, q, p, e);
      BeforeIsOlder(t, q, e);
    }
  }

  // ----- Sequences -----------------------------------------------------------------------------

  lemma {:induction false} ChainIsBefore(t: Table, ms: seq<nat>, last: nat, a: nat, b: nat)
    requires Ordered(t) && Chain(t, ms, last) && a < b < |ms|
    ensures Before(t, ms[a], ms[b])
    decreases b
  {
    assert Before(t, ms[b - 1], ms[b]);
    if a < b - 1 {
      ChainIsBefore(t, ms, last, a, b - 1);
      BeforeTransitive(t, ms[a], ms[b - 1], ms[b]);
    }
  }

  /** The expectations of one Sequence take their calls in non-decreasing order, in
      every run: only after one that allows no calls can an earlier one be called. */
  lemma SequenceOrder(events: seq<Event>, n: nat, s: nat, i: nat, j: nat, a: nat, b: nat)
    requires n <= |events|
    requires var m := Run(events, n);
             && i < j < |m.trace| && s in m.members && a < |m.members[s]| && b < |m.members[s]|
             && m.trace[i] == m.members[s][a] && m.trace[j] == m.members[s][b]
             && (m.trace[i] < |m.es| ==> m.es[m.trace[i]].max > 0)
    ensures a <= b
  {
    var m := Run(events, n);
    RunGood(events, n);
    assert Chain(m.es, m.members[s], m.last[s]);
    if b < a {
      ChainIsBefore(m.es, m.members[s], m.last[s], b, a);
    }
  }

  /** Those that a sequence has passed are retired and stay satisfied. */
  lemma PassedStaySatisfied(events: seq<Event>, n: nat, s: nat, i: nat, a: nat, c: nat)
    requires n <= |events|
    requires var m := Run(events, n);
             && i < |m.trace| && s in m.members && c < a < |m.members[s]| && m.trace[i] == m.members[s][a]
             && (m.trace[i] < |m.es| ==> m.es[m.trace[i]].max > 0)
    ensures var m := Run(events, n);
            m.members[s][c] < |m.es| && m.es[m.members[s][c]].retired && m.es[m.members[s][c]].IsSatisfied()
  {
    var m := Run(events, n);
    RunGood(events, n);
    assert Chain(m.es, m.members[s], m.last[s]);
    ChainIsBefore(m.es, m.members[s], m.last[s], c, a);
    assert m.trace[i] in m.trace;
  }

  /** In every reachable state calls came in turn, so the pruned search finds
      nothing exactly when the expectation could be called. */
  lemma SearchAgreesWithCheck(events: seq<Event>, n: nat, e: nat)
    requires n <= |events| && e < |Run(events, n).es|
    ensures var t := Run(events, n).es;
            Ordered(t) && CalledInTurn(t) && (AnyMissing(t, e) <==> !AllPrerequisitesAreSatisfied(t, e))
  {
    RunGood(events, n);
    NothingMissing(Run(events, n).es, e);
  }

  /** With an expectation that allows no calls the order can be broken: its
      excessive first call does not retire what comes before it. */
  lemma ForbiddenCallBreaksOrder()
    ensures var events := [Expect(0, 5, false, {}, [0]), Expect(0, 0, false, {}, [0]), Call(1), Call(0)];
            var m := Run(events, 4);
            Ordered(m.es) && |m.es| == 2 && m.members == map[0 := [0, 1]] && m.trace == [1, 0] && Before(m.es, 0, 1)
  {
    var events := [Expect(0, 5, false, {}, [0]), Expect(0, 0, false, {}, [0]), Call(1), Call(0)];
    var first := Expectation(0, 5, false, {}, 0, false);
    var second := Expectation(0, 0, false, {0}, 0, false);
    var m1 := Mock([first], map[0 := 0], map[0 := [0]], []);
    var m2 := Mock([first, second], map[0 := 1], map[0 := [0, 1]], []);
    var m3 := m2.(es := [first, second.(callCount := 1)], trace := [1]);
    var m4 := m3.(es := [first.(callCount := 1), second.(callCount := 1)], trace := [1, 0]);
    hide Step, AfterCall, Taken, Before;
    FirstInSequence(START, events[0], 0);
    NextInSequence(m1, events[1], 0);
    ExcessiveSecond(m2);
    PlainFirst(m3);
    assert Run(events, 0) == START;
    assert Run(events, 1) == m1;
    assert Run(events, 2) == m2;
    assert Run(events, 3) == m3;
    assert Run(events, 4) == m4;
    SecondAfterFirst(m4);
  }

  lemma SecondAfterFirst(m: Mock)
    requires |m.es| == 2 && m.es[0].prereqs == {} && m.es[1].prereqs == {0}
    ensures Ordered(m.es) && Before(m.es, 0, 1)
  {
  }

  lemma FirstInSequence(m: Mock, ev: Event, s: nat)
    requires ev.Expect? && ev.sequences == [s] && ev.after == {} && 0 <= ev.min <= ev.max
    requires m.es == [] && m.last == map[] && m.members == map[]
    ensures Step(m, ev) ==
            Mock([Expectation(ev.min, ev.max, ev.retiresOnSaturation, {}, 0, false)], map[s := 0], map[s := [0]], m.trace)
  {
    assert (set x | x in ev.after && x < |m.es|) == {};
    var c := Created(m, ev);
    assert AddToAll(c, ev.sequences, 0) == c;
    var r := AddExpectation(c, s);
    assert r.es == [Expectation(ev.min, ev.max, ev.retiresOnSaturation, {}, 0, false)];
    assert r.last == map[s := 0];
    assert Members(c, s) + [0] == [0];
    assert r.members == map[s := [0]];
  }

  lemma NextInSequence(m: Mock, ev: Event, s: nat)
    requires ev.Expect? && ev.sequences == [s] && ev.after == {} && 0 <= ev.min <= ev.max
    requires |m.es| == 1 && m.last == map[s := 0] && m.members == map[s := [0]]
    ensures Step(m, ev) ==
            Mock(m.es + [Expectation(ev.min, ev.max, ev.retiresOnSaturation, {0}, 0, false)], map[s := 1], map[s := [0, 1]], m.trace)
  {
    assert (set x | x in ev.after && x < |m.es|) == {};
    var c := Created(m, ev);
    assert AddToAll(c, ev.sequences, 0) == c;
    var r := AddExpectation(c, s);
    assert c.es[1].prereqs + {0} == {0};
    assert r.es == m.es + [Expectation(ev.min, ev.max, ev.retiresOnSaturation, {0}, 0, false)];
    assert r.last == map[s := 1];
    assert Members(c, s) + [1] == [0, 1];
    assert r.members == map[s := [0, 1]];
  }

  /** The second of two chained expectations, never satisfiable by a call, takes one. */
  lemma ExcessiveSecond(m: Mock)
    requires |m.es| == 2 && m.es[0] == Expectation(0, 5, false, {}, 0, false)
    requires m.es[1] == Expectation(0, 0, false, {0}, 0, false)
    ensures Step(m, Call(1)) == m.(es := [m.es[0], m.es[1].(callCount := 1)], trace := m.trace + [1])
  {
  }

  lemma PlainFirst(m: Mock)
    requires |m.es| == 2 && m.es[0] == Expectation(0, 5, false, {}, 0, false)
    requires m.es[1] == Expectation(0, 0, false, {0}, 1, false)
    ensures Step(m, Call(0)) == m.(es := [m.es[0].(callCount := 1), m.es[1]], trace := m.trace + [0])
  {
    assert Ordered(m.es);
    assert forall p: nat :: !Before(m.es, p, 0);
    assert AfterCall(m.es, 0) == [m.es[0].(callCount := 1), m.es[1]];
  }

  lemma CountKeeps(t: Table, e: nat)
    requires Ordered(t) && Closed(t) && e < |t|
    ensures var t' := t[e := t[e].(callCount := t[e].callCount + 1)];
            Ordered(t') && Closed(t') && AllBefore(t', e) == AllBefore(t, e)
  {
    SameBefore(t, t[e := t[e].(callCount := t[e].callCount + 1)], e);
  }

  class MockRegistry {
    var es: Table
    var last: map<nat, nat>  // last_expectation_ of every Sequence that has one

    /** Sequence::AddExpectation, applied while the newest expectation is being
        set up; the new edge points from it to an older one. */
    method AddToSequence(s: nat)
      requires Ordered(es) && Closed(es) && es != [] && !es[|es| - 1].retired
      requires s in last ==> last[s] < |es|
      modifies this
      ensures var m := AddExpectation(Mock(old(es), old(last), map[], []), s); es == m.es && last == m.last
      ensures Ordered(es) && Closed(es)
    {
      var e := |es| - 1;
      if s !in last || last[s] != e {
        if s in last {
          es := es[e := es[e].(prereqs := es[e].prereqs + {last[s]})];
        }
        last := last[s := e];
      }
    }

    /** Retires exactly the transitive prerequisites. */
    method RetireAllPreRequisites(e: nat)
      requires Ordered(es) && Closed(es) && e < |es|
      modifies this
      ensures es == RetireIn(old(es), AllBefore(old(es), e))
      ensures Ordered(es) && Closed(es)
      decreases e, 0
    {
      if es[e].retired {
        // The short-cut: everything before a retired expectation is retired.
        AlreadyRetired(es, e);
        return;
      }
      ghost var t := es;
      var todo := es[e].prereqs;
      ghost var done: set<nat> := {};
      while todo != {}
        invariant todo + done == t[e].prereqs
        invariant Ordered(es) && Closed(es)
        invariant es == RetireIn(t, Handled(t, done))
        decreases todo
      {
        var prerequisite :| prerequisite in todo;
        todo := todo - {prerequisite};
        SameBefore(t, es, prerequisite);
        RetirePrerequisite(prerequisite);
        RetiredTwice(t, Handled(t, done), AllBefore(t, prerequisite) + iset{prerequisite});
        HandledOneMore(t, done, prerequisite);
        done := done + {prerequisite};
      }
      HandledAll(t, e);
    }

    method RetirePrerequisite(prerequisite: nat)
      requires Ordered(es) && Closed(es) && prerequisite < |es|
      modifies this
      ensures es == RetireIn(old(es), AllBefore(old(es), prerequisite) + iset{prerequisite})
      ensures Ordered(es) && Closed(es)
      decreases prerequisite, 1
    {
      if !es[prerequisite].retired {
        RetireAllPreRequisites(prerequisite);
        RetireNext(old(es), prerequisite);
        es := es[prerequisite := es[prerequisite].(retired := true)];
      } else {
        AlreadyRetired(es, prerequisite);
      }
    }

    /** ShouldHandleArguments and GetActionForArguments, without the matchers:
        returns false when the expectation does not take the call. */
    method TakeCall(e: nat) returns (taken: bool)
      requires Ordered(es) && Closed(es) && e < |es|
      modifies this
      ensures taken <==>
                && !old(es)[e].retired
                && forall p :: 0 <= p < |old(es)| && Before(old(es), p, e) ==>
                     old(es)[p].min <= old(es)[p].callCount <= old(es)[p].max
      ensures taken <==> ShouldHandle(old(es), e)
      ensures es == if taken then AfterCall(old(es), e) else old(es)
      ensures Ordered(es) && Closed(es)
    {
      hide Closed, Ordered, Before, RetireIn;
      taken := !es[e].retired && AllPrerequisitesAreSatisfied(es, e);
      AllSatisfiedMeansEvery(es, e);
      if !taken {
        return;
      }
      AfterCallKeeps(es, e);
      var excessive := es[e].IsSaturated();
      es := es[e := es[e].(callCount := es[e].callCount + 1)];
      if excessive {
        return;
      }
      CountKeeps(old(es), e);
      RetireAllPreRequisites(e);
      if es[e].retiresOnSaturation && es[e].IsSaturated() {
        es := es[e := es[e].(retired := true)];
      }
    }
  }
}
