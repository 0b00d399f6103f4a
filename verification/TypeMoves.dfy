/**
 Moving a run of objects inside raw memory, element by element, when source and
 destination overlap.  A cell either holds a live object or raw memory; the
 element operations are undefined when they read a dead cell, construct over a
 live object that has a destructor, or destroy a dead cell.
 */
module TypeMoves {
  import opened Base

  datatype Cell = Dead | Live(value: int)

  datatype Traits = Traits(trivialDtor: bool, trivialCopy: bool, trivialMove: bool)

  type Memory = seq<Cell>

  predicate ByMemmove(t: Traits) {
    (t.trivialDtor && t.trivialCopy) || t.trivialMove
  }

  predicate InRange(m: Memory, p: nat, n: nat) {
    p + n <= |m|
  }

  /** One element: copy-construct or assign, then destroy the source; None where
      that is undefined. */
  function MoveOne(t: Traits, m: Memory, d: nat, s: nat): (r: Option<Memory>)
    requires d < |m| && s < |m|
    ensures r.Some? ==> |r.value| == |m|
  {
    if m[s].Dead? then None
    else if !t.trivialCopy && !t.trivialDtor && m[d].Live? then None
    else
      var copied := m[d := m[s]];
      Some(if t.trivialDtor then copied else copied[s := Dead])
  }

  /** Last element first. */
  function Forward(t: Traits, m: Memory, d: nat, s: nat, n: nat): Option<Memory>
    requires InRange(m, d, n) && InRange(m, s, n)
    decreases n
  {
    if n == 0 then Some(m)
    else
      var r := MoveOne(t, m, d + n - 1, s + n - 1);
      if r.None? then None else Forward(t, r.value, d, s, n - 1)
  }

  /** First element first. */
  function Backward(t: Traits, m: Memory, d: nat, s: nat, n: nat): Option<Memory>
    requires InRange(m, d, n) && InRange(m, s, n)
    decreases n
  {
    if n == 0 then Some(m)
    else
      var r := MoveOne(t, m, d, s);
      if r.None? then None else Backward(t, r.value, d + 1, s + 1, n - 1)
  }

  /** The destination holds the old source; a source cell outside the destination
      is dead if the type has a destructor; nothing else has changed. */
  function Moved(t: Traits, m: Memory, d: nat, s: nat, n: nat): Memory
    requires InRange(m, d, n) && InRange(m, s, n)
  {
    seq(|m|, i requires 0 <= i < |m| =>
      if d <= i < d + n then m[s + (i - d)]
      else if s <= i < s + n && !t.trivialDtor then Dead
      else m[i])
  }

  predicate SourceLive(m: Memory, s: nat, n: nat)
    requires InRange(m, s, n)
  {
    forall i :: s <= i < s + n ==> m[i].Live?
  }

  /** The destination outside the source is raw memory. */
  predicate TargetRaw(m: Memory, d: nat, s: nat, n: nat)
    requires InRange(m, d, n)
  {
    forall i :: d <= i < d + n && !(s <= i < s + n) ==> m[i].Dead?
  }

  predicate UpwardOrApart(d: nat, s: nat, n: nat) {
    n == 0 || d > s || d + n <= s
  }

  predicate DownwardOrApart(d: nat, s: nat, n: nat) {
    n == 0 || d < s || s + n <= d
  }

  lemma {:induction false} ForwardMoves(t: Traits, m: Memory, d: nat, s: nat, n: nat)
    requires InRange(m, d, n) && InRange(m, s, n) && SourceLive(m, s, n)
    requires !t.trivialCopy && !t.trivialDtor ==> TargetRaw(m, d, s, n)
    requires UpwardOrApart(d, s, n)
    ensures Forward(t, m, d, s, n) == Some(Moved(t, m, d, s, n))
    decreases n
  {
    if n == 0 {
      assert Moved(t, m, d, s, n) == m;
    } else {
      var m1 := MoveOne(t, m, d + n - 1, s + n - 1).value;
      ForwardMoves(t, m1, d, s, n - 1);
      assert Moved(t, m1, d, s, n - 1) == Moved(t, m, d, s, n);
    }
  }

  lemma {:induction false} BackwardMoves(t: Traits, m: Memory, d: nat, s: nat, n: nat)
    requires InRange(m, d, n) && InRange(m, s, n) && SourceLive(m, s, n)
    requires !t.trivialCopy && !t.trivialDtor ==> TargetRaw(m, d, s, n)
    requires DownwardOrApart(d, s, n)
    ensures Backward(t, m, d, s, n) == Some(Moved(t, m, d, s, n))
    decreases n
  {
    if n == 0 {
      assert Moved(t, m, d, s, n) == m;
    } else {
      var m1 := MoveOne(t, m, d, s).value;
      BackwardMoves(t, m1, d + 1, s + 1, n - 1);
      assert Moved(t, m1, d + 1, s + 1, n - 1) == Moved(t, m, d, s, n);
    }
  }

  /** For objects with a real copy constructor and destructor the direction is
      not a matter of taste: each loop works exactly on its own side. */
  lemma DirectionMatters(m: Memory, d: nat, s: nat, n: nat)
    requires InRange(m, d, n) && InRange(m, s, n) && SourceLive(m, s, n) && TargetRaw(m, d, s, n)
    ensures var t := Traits(false, false, false);
            && (Forward(t, m, d, s, n).Some? <==> UpwardOrApart(d, s, n))
            && (Backward(t, m, d, s, n).Some? <==> DownwardOrApart(d, s, n))
  {
    var t := Traits(false, false, false);
    if UpwardOrApart(d, s, n) {
      ForwardMoves(t, m, d, s, n);
    }
    if DownwardOrApart(d, s, n) {
      BackwardMoves(t, m, d, s, n);
    }
  }

  /** After either loop exactly the destination is live, out of source and destination. */
  lemma ExactlyTargetLive(m: Memory, d: nat, s: nat, n: nat, i: nat)
    requires InRange(m, d, n) && InRange(m, s, n) && SourceLive(m, s, n) && TargetRaw(m, d, s, n)
    requires (d <= i < d + n) || (s <= i < s + n)
    ensures var r := Forward(Traits(false, false, false), m, d, s, n);
            UpwardOrApart(d, s, n) ==> r.Some? && i < |r.value| && (r.value[i].Live? <==> d <= i < d + n)
    ensures var r := Backward(Traits(false, false, false), m, d, s, n);
            DownwardOrApart(d, s, n) ==> r.Some? && i < |r.value| && (r.value[i].Live? <==> d <= i < d + n)
  {
    var t := Traits(false, false, false);
    if UpwardOrApart(d, s, n) {
      ForwardMoves(t, m, d, s, n);
    }
    if DownwardOrApart(d, s, n) {
      BackwardMoves(t, m, d, s, n);
    }
  }

  /** Whatever the type: where a loop runs on its own side, the destination holds what the
      source held, cell by cell, and nothing outside the two ranges has changed. */
  lemma ValuesArrive(t: Traits, m: Memory, d: nat, s: nat, n: nat, i: nat)
    requires InRange(m, d, n) && InRange(m, s, n) && SourceLive(m, s, n) && i < |m|
    requires !t.trivialCopy && !t.trivialDtor ==> TargetRaw(m, d, s, n)
    ensures UpwardOrApart(d, s, n) ==> Arrived(m, Forward(t, m, d, s, n), d, s, n, i)
    ensures DownwardOrApart(d, s, n) ==> Arrived(m, Backward(t, m, d, s, n), d, s, n, i)
  {
    if UpwardOrApart(d, s, n) {
      ForwardMoves(t, m, d, s, n);
    }
    if DownwardOrApart(d, s, n) {
      BackwardMoves(t, m, d, s, n);
    }
  }

  predicate Arrived(m: Memory, r: Option<Memory>, d: nat, s: nat, n: nat, i: nat)
    requires InRange(m, s, n) && i < |m|
  {
    && r.Some? && |r.value| == |m|
    && (d <= i < d + n ==> r.value[i] == m[s + (i - d)])
    && (!(d <= i < d + n) && !(s <= i < s + n) ==> r.value[i] == m[i])
  }

  // ----- In place ----------------------------------------------------------------------

  method MoveElement(t: Traits, a: array<Cell>, d: nat, s: nat)
    requires d < a.Length && s < a.Length && MoveOne(t, a[..], d, s).Some?
    modifies a
    ensures a[..] == MoveOne(t, old(a[..]), d, s).value
  {
    a[d] := a[s];    // constructed, or assigned if copying is trivial
    if !t.trivialDtor {
      a[s] := Dead;  // destroyed
    }
  }

  method MoveForwardType(t: Traits, a: array<Cell>, d: nat, s: nat, n: nat) returns (copies: nat)
    requires InRange(a[..], d, n) && InRange(a[..], s, n) && SourceLive(a[..], s, n)
    requires !t.trivialCopy && !t.trivialDtor ==> TargetRaw(a[..], d, s, n)
    requires (t.trivialDtor && t.trivialCopy) || t.trivialMove || UpwardOrApart(d, s, n)
    modifies a
    ensures a[..] == Moved(t, old(a[..]), d, s, n)
    ensures copies == if (t.trivialDtor && t.trivialCopy) || t.trivialMove then 0 else n
  {
    if ByMemmove(t) {
      Memmove(t, a, d, s, n);
      return 0;
    }
    copies := 0;
    ForwardMoves(t, a[..], d, s, n);
    var k := n;
    while k > 0
      invariant 0 <= k <= n && copies == n - k
      invariant Forward(t, a[..], d, s, k) == Some(Moved(t, old(a[..]), d, s, n))
    {
      k := k - 1;
      MoveElement(t, a, d + k, s + k);
      copies := copies + 1;
    }
  }

  method MoveBackwardType(t: Traits, a: array<Cell>, d: nat, s: nat, n: nat) returns (copies: nat)
    requires InRange(a[..], d, n) && InRange(a[..], s, n) && SourceLive(a[..], s, n)
    requires !t.trivialCopy && !t.trivialDtor ==> TargetRaw(a[..], d, s, n)
    requires (t.trivialDtor && t.trivialCopy) || t.trivialMove || DownwardOrApart(d, s, n)
    modifies a
    ensures a[..] == Moved(t, old(a[..]), d, s, n)
    ensures copies == if (t.trivialDtor && t.trivialCopy) || t.trivialMove then 0 else n
  {
    if ByMemmove(t) {
      Memmove(t, a, d, s, n);
      return 0;
    }
    copies := 0;
    BackwardMoves(t, a[..], d, s, n);
    var k := 0;
    while k < n
      invariant 0 <= k <= n && copies == k
      invariant Backward(t, a[..], d + k, s + k, n - k) == Some(Moved(t, old(a[..]), d, s, n))
    {
      MoveElement(t, a, d + k, s + k);
      copies := copies + 1;
      k := k + 1;
    }
  }

  /** memmove relocates the bytes; the objects it leaves behind count as gone. */
  method Memmove(t: Traits, a: array<Cell>, d: nat, s: nat, n: nat)
    requires InRange(a[..], d, n) && InRange(a[..], s, n)
    modifies a
    ensures a[..] == Moved(t, old(a[..]), d, s, n)
  {
    var m := Moved(t, a[..], d, s, n);
    forall i | 0 <= i < a.Length {
      a[i] := m[i];
    }
    assert a[..] == m;
  }
}
