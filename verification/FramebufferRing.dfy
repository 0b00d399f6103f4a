/**
 The framebuffer window's ring of buffers.  It keeps only a count of free buffers
 and a head index: it never looks at which buffer is given back.  This file shows
 what that is worth: the counts are right for every run, and the buffer on screen
 is never handed out, as long as buffers come back in the order they went out.
 */
module FramebufferRing {
  import opened Base

  datatype Ring = Ring(
    numBuffers: nat,
    numFree: int,
    head: int,
    out: seq<int>,         // buffers handed out, oldest first
    posted: Option<int>,   // the buffer on screen
    dequeues: nat)

  /** Allocation stops at the first failure and leaves that many buffers. */
  function Initial(n: nat): Ring {
    Ring(n, n, n - 1, [], None, 0)
  }

  /** `Queue(k)` gives back the k-th oldest buffer that is out. */
  datatype Step = Dequeue | Queue(position: nat)

  /** dequeueBuffer blocks while fewer than two buffers are free. */
  predicate Possible(r: Ring, step: Step) {
    match step
    case Dequeue => r.numFree >= 2
    case Queue(k) => k < |r.out|
  }

  function Next(r: Ring, step: Step): Ring {
    if !Possible(r, step) then r else
    match step
    case Dequeue =>
      var head := if r.head + 1 >= r.numBuffers then 0 else r.head + 1;
      r.(head := head, numFree := r.numFree - 1, out := r.out + [r.head], dequeues := r.dequeues + 1)
    case Queue(k) =>
      r.(numFree := r.numFree + 1, out := r.out[..k] + r.out[k + 1..], posted := Some(r.out[k]))
  }

  function Run(n: nat, steps: seq<Step>, t: nat): Ring
    requires t <= |steps|
  {
    if t == 0 then Initial(n) else Next(Run(n, steps, t - 1), steps[t - 1])
  }

  lemma {:induction false} RunOfPrefix(n: nat, steps: seq<Step>, more: seq<Step>, t: nat)
    requires t <= |steps| && steps <= more
    ensures Run(n, more, t) == Run(n, steps, t)
  {
    hide Next;
    if t > 0 {
      RunOfPrefix(n, steps, more, t - 1);
    }
  }

  lemma RunGrows(n: nat, steps: seq<Step>, step: Step)
    ensures Run(n, steps + [step], |steps| + 1) == Next(Run(n, steps, |steps|), step)
  {
    hide Next;
    RunOfPrefix(n, steps, steps + [step], |steps|);
  }

  // ----- Which buffer a dequeue gets ---------------------------------------------------

  /** The buffer of the k-th dequeue. */
  function Slot(n: nat, k: nat): (s: int)
    requires n > 0
    ensures 0 <= s < n
  {
    if k == 0 then n - 1
    else if Slot(n, k - 1) + 1 >= n then 0
    else Slot(n, k - 1) + 1
  }

  lemma {:induction false} SlotAhead(n: nat, k: nat, d: nat)
    requires n > 0 && d < n
    ensures Slot(n, k + d) == if Slot(n, k) + d < n then Slot(n, k) + d else Slot(n, k) + d - n
    decreases d
  {
    if d > 0 {
      SlotAhead(n, k, d - 1);
    }
  }

  /** Dequeues less than a full round apart get different buffers. */
  lemma Apart(n: nat, a: nat, b: nat)
    requires a < b < a + n
    ensures Slot(n, a) != Slot(n, b)
  {
    SlotAhead(n, a, b - a);
  }

  lemma SlotIsRemainder(n: nat, k: nat)
    requires n > 0
    ensures Slot(n, k) == (n - 1 + k) % n
  {
    var q := SlotQuotient(n, k);
    Remainder(n - 1 + k, q, Slot(n, k), n);
  }

  lemma {:induction false} SlotQuotient(n: nat, k: nat) returns (q: nat)
    requires n > 0
    ensures n - 1 + k == q * n + Slot(n, k)
  {
    if k == 0 {
      q := 0;
    } else {
      q := SlotQuotient(n, k - 1);
      if Slot(n, k - 1) + 1 >= n {
        q := q + 1;
      }
    }
  }

  lemma Remainder(x: nat, q: nat, r: nat, n: nat)
    requires r < n && x == q * n + r
    ensures x % n == r
  {
    var q', r' := x / n, x % n;
    Rounds(q - q', n);
    assert (q - q') * n == r' - r by {
      assert x == q' * n + r';
      assert (q - q') * n == q * n - q' * n;
    }
  }

  lemma Rounds(d: int, n: nat)
    ensures d >= 1 ==> d * n >= n
    ensures d <= -1 ==> d * n + n <= 0
  {
    if d >= 1 {
      assert (d - 1) * n >= 0;
    } else if d <= -1 {
      assert (d + 1) * n <= 0;
    }
  }

  // ----- Every run ------------------------------------------------------------------

  ghost predicate Counted(r: Ring, n: nat) {
    && r.numBuffers == n
    && r.numFree + |r.out| == n
    && |r.out| <= (if n == 0 then 0 else n - 1)
    && (if n > 0 then r.head == Slot(n, r.dequeues) else r.dequeues == 0)
  }

  /** Free plus outstanding is the number of buffers, one always stays behind, and
      the head is determined by the number of dequeues, in whatever order buffers
      come back. */
  lemma {:induction false} CountsHold(n: nat, steps: seq<Step>, t: nat)
    requires t <= |steps|
    ensures Counted(Run(n, steps, t), n)
    ensures n > 0 ==> Run(n, steps, t).head == (n - 1 + Run(n, steps, t).dequeues) % n
  {
    hide Next;
    if t > 0 {
      CountsHold(n, steps, t - 1);
      NextCounted(Run(n, steps, t - 1), n, steps[t - 1]);
    }
    if n > 0 {
      SlotIsRemainder(n, Run(n, steps, t).dequeues);
    }
  }

  lemma NextCounted(r: Ring, n: nat, step: Step)
    requires Counted(r, n)
    ensures Counted(Next(r, step), n)
  {
  }

  // ----- Runs that give buffers back in order -------------------------------------------

  ghost predicate InOrder(n: nat, steps: seq<Step>, t: nat)
    requires t <= |steps|
  {
    forall i :: 0 <= i < t && steps[i].Queue? && Possible(Run(n, steps, i), steps[i]) ==> steps[i].position == 0
  }

  /** No buffer is handed out twice, and the one on screen is not handed out. */
  ghost predicate Safe(r: Ring) {
    && (forall i, j :: 0 <= i < j < |r.out| ==> r.out[i] != r.out[j])
    && (r.posted.Some? ==> r.posted.value !in r.out)
  }

  /** What is out, and on screen, are the latest dequeues in a row. */
  ghost predicate Consecutive(r: Ring, n: nat)
    requires n > 0
  {
    && |r.out| <= r.dequeues
    && (forall i :: 0 <= i < |r.out| ==> r.out[i] == Slot(n, r.dequeues - |r.out| + i))
    && (r.posted.Some? ==> |r.out| < r.dequeues && r.posted.value == Slot(n, r.dequeues - |r.out| - 1))
  }

  lemma {:induction false} OrderIsConsecutive(n: nat, steps: seq<Step>, t: nat)
    requires n > 0 && t <= |steps| && InOrder(n, steps, t)
    ensures Consecutive(Run(n, steps, t), n)
  {
    if t > 0 {
      OrderIsConsecutive(n, steps, t - 1);
      CountsHold(n, steps, t - 1);
      NextConsecutive(Run(n, steps, t - 1), n, steps[t - 1]);
    }
  }

  lemma NextConsecutive(r: Ring, n: nat, step: Step)
    requires n > 0 && Counted(r, n) && Consecutive(r, n)
    requires step.Queue? && Possible(r, step) ==> step.position == 0
    ensures Consecutive(Next(r, step), n)
  {
    hide Slot;
  }

  lemma ConsecutiveIsSafe(r: Ring, n: nat)
    requires n > 0 && Consecutive(r, n) && |r.out| < n
    ensures Safe(r)
  {
    hide Slot;
    var oldest := r.dequeues - |r.out|;
    forall i, j | 0 <= i < j < |r.out| ensures r.out[i] != r.out[j] {
      Apart(n, oldest + i, oldest + j);
    }
    if r.posted.Some? {
      forall i | 0 <= i < |r.out| ensures r.out[i] != r.posted.value {
        Apart(n, oldest - 1, oldest + i);
      }
    }
  }

  /** With buffers given back in order, for any number of buffers and any run, the
      buffer on screen is never among those handed out for drawing. */
  lemma InOrderIsSafe(n: nat, steps: seq<Step>, t: nat)
    requires t <= |steps| && InOrder(n, steps, t)
    ensures Safe(Run(n, steps, t))
  {
    CountsHold(n, steps, t);
    if n > 0 {
      OrderIsConsecutive(n, steps, t);
      ConsecutiveIsSafe(Run(n, steps, t), n);
    } else {
      NothingOut(steps, t);
    }
  }

  lemma {:induction false} NothingOut(steps: seq<Step>, t: nat)
    requires t <= |steps|
    ensures Run(0, steps, t) == Initial(0)
  {
    if t > 0 {
      NothingOut(steps, t - 1);
    }
  }

  /** What the next dequeue hands out. */
  lemma HandedOut(n: nat, steps: seq<Step>)
    requires Run(n, steps, |steps|).numFree >= 2
    ensures var r := Run(n, steps, |steps|);
            && n > 0 && r.head == Slot(n, r.dequeues)
            && (InOrder(n, steps + [Dequeue], |steps| + 1) ==> r.head !in r.out && r.posted != Some(r.head))
  {
    CountsHold(n, steps, |steps|);
    RunGrows(n, steps, Dequeue);
    if InOrder(n, steps + [Dequeue], |steps| + 1) {
      InOrderIsSafe(n, steps + [Dequeue], |steps| + 1);
      var r, r' := Run(n, steps, |steps|), Run(n, steps + [Dequeue], |steps| + 1);
      assert r'.out == r.out + [r.head] && r'.posted == r.posted;
      assert r'.out[|r.out|] == r.head;
      forall i | 0 <= i < |r.out| ensures r.out[i] != r.head {
        assert r'.out[i] != r'.out[|r.out|];
      }
    }
  }

  // ----- Runs in any order -----------------------------------------------------------------

  ghost predicate SafeInAnyOrder(n: nat) {
    forall steps: seq<Step>, t: nat :: t <= |steps| ==> Safe(Run(n, steps, t))
  }

  /** Two buffers, which is all this window ever has, cannot come back out of
      order; from three on the order matters. */
  lemma OrderMattersFromThree(n: nat)
    ensures SafeInAnyOrder(n) <==> n <= 2
  {
    if n <= 2 {
      forall steps: seq<Step>, t: nat | t <= |steps| ensures Safe(Run(n, steps, t)) {
        forall i | 0 <= i < t && steps[i].Queue? && Possible(Run(n, steps, i), steps[i])
          ensures steps[i].position == 0
        {
          CountsHold(n, steps, i);
        }
        InOrderIsSafe(n, steps, t);
      }
    } else {
      var steps := Overtaking(n - 1) + [Dequeue];
      Overtaken(n, n - 1);
      RunGrows(n, Overtaking(n - 1), Dequeue);
      var r := Run(n, steps, |steps|);
      assert r.out[0] == r.out[1] == n - 1;
    }
  }

  /** Keep the first buffer; take and give back the next `k`. */
  function Overtaking(k: nat): seq<Step> {
    if k == 0 then [Dequeue] else (Overtaking(k - 1) + [Dequeue]) + [Queue(1)]
  }

  lemma {:induction false} Overtaken(n: nat, k: nat)
    requires 3 <= n && k < n
    ensures var r := Run(n, Overtaking(k), |Overtaking(k)|);
            r.numBuffers == n && r.numFree == n - 1 && r.head == k && r.out == [n - 1]
  {
    if k == 0 {
      RunGrows(n, [], Dequeue);
      assert [] + [Dequeue] == Overtaking(0);
    } else {
      var before := Overtaking(k - 1);
      Overtaken(n, k - 1);
      RunGrows(n, before, Dequeue);
      RunGrows(n, before + [Dequeue], Queue(1));
      TakeAndReturn(Run(n, before, |before|), n, k);
    }
  }

  lemma TakeAndReturn(r: Ring, n: nat, k: nat)
    requires 0 < k < n && r.numBuffers == n >= 3 && r.numFree == n - 1 && r.head == k - 1 && r.out == [n - 1]
    ensures var r' := Next(Next(r, Dequeue), Queue(1));
            r'.numBuffers == n && r'.numFree == n - 1 && r'.head == k && r'.out == [n - 1]
  {
    var r1 := Next(r, Dequeue);
    assert r1.out == [n - 1, k - 1];
    assert r1.out[..1] + r1.out[2..] == [n - 1];
  }

  // ----- The class ---------------------------------------------------------------------------

  class FramebufferNativeWindow {
    var mNumBuffers: nat
    var mNumFreeBuffers: int
    var mBufferHead: int
    var mCurrentBufferIndex: int
    ghost var out: seq<int>
    ghost var posted: Option<int>
    ghost var dequeues: nat
    ghost var steps: seq<Step>

    ghost predicate Valid()
      reads this
    {
      Run(mNumBuffers, steps, |steps|) ==
        Ring(mNumBuffers, mNumFreeBuffers, mBufferHead, out, posted, dequeues)
    }

    /** `available` buffers could be allocated before the first failure, if any. */
    constructor (available: nat)
      ensures Valid() && steps == [] && out == [] && posted == None
      ensures mNumBuffers == if available < 2 then available else 2
    {
      mNumBuffers := 2;
      mNumFreeBuffers := 2;
      mBufferHead := 1;
      mCurrentBufferIndex := 0;
      out, posted, dequeues, steps := [], None, 0, [];
      new;
      for i := 0 to 2
        invariant i <= available && mNumBuffers == mNumFreeBuffers == 2 && mBufferHead == 1
        invariant out == [] && posted == None && dequeues == 0 && steps == []
      {
        if i == available {
          mNumBuffers := i;
          mNumFreeBuffers := i;
          mBufferHead := mNumBuffers - 1;
          break;
        }
      }
    }

    /** Returns None where the source waits on the condition variable. */
    method DequeueBuffer() returns (index: Option<int>)
      requires Valid()
      modifies this
      ensures Valid() && mNumBuffers == old(mNumBuffers)
      ensures index.Some? <==> old(mNumFreeBuffers) >= 2
      ensures index.None? ==> steps == old(steps) && dequeues == old(dequeues) && out == old(out) && posted == old(posted)
      ensures index.Some? ==> steps == old(steps) + [Dequeue] && dequeues == old(dequeues) + 1 && posted == old(posted)
      ensures index.Some? ==> out == old(out) + [index.value] && mCurrentBufferIndex == index.value
      ensures index.Some? ==> mNumBuffers > 0 && index.value == Slot(mNumBuffers, old(dequeues))
      ensures index.Some? && InOrder(mNumBuffers, steps, |steps|) ==> index.value !in old(out) && posted != index
    {
      if mNumFreeBuffers < 2 {
        return None;
      }
      hide Run, InOrder, Slot;
      HandedOut(mNumBuffers, steps);
      RunGrows(mNumBuffers, steps, Dequeue);
      index := Some(mBufferHead);
      mBufferHead := mBufferHead + 1;
      if mBufferHead >= mNumBuffers {
        mBufferHead := 0;
      }
      mNumFreeBuffers := mNumFreeBuffers - 1;
      mCurrentBufferIndex := index.value;
      out := out + [index.value];
      dequeues := dequeues + 1;
      steps := steps + [Dequeue];
    }

    /** The caller gives back a buffer it was handed; the source does not look at
        which one it is, only posts it. */
    method QueueBuffer(ghost position: nat, buffer: int)
      requires Valid() && position < |out| && out[position] == buffer
      modifies this
      ensures Valid() && mNumBuffers == old(mNumBuffers)
      ensures mNumFreeBuffers == old(mNumFreeBuffers) + 1 && mBufferHead == old(mBufferHead)
      ensures out == old(out)[..position] + old(out)[position + 1..] && posted == Some(buffer)
      ensures steps == old(steps) + [Queue(position)] && dequeues == old(dequeues)
    {
      ghost var was := steps;
      posted := Some(buffer);
      mNumFreeBuffers := mNumFreeBuffers + 1;
      out := out[..position] + out[position + 1..];
      steps := steps + [Queue(position)];
      RunGrows(mNumBuffers, was, Queue(position));
    }
  }
}
