/**
 The client's buffer cache: a map from buffer id to an ageing buffer that is
 swept, aged and extended by every deposit.  The cache has no notion of a
 history; this file shows that it nevertheless implements a sliding window over
 the history of all deposits, and that its age counters are exact distances in
 that history.
 */
module BufferCache {
  import opened Base

  /** Stands for the shared pointer to the IPC package of one deposit. */
  type Package = nat

  /** One call of deposit_package; `factoryOk` says whether the buffer factory
      would succeed if it were asked. */
  datatype Deposit = Deposit(id: Int32, package: Package, factoryOk: bool)

  // ----- The cache as a value -------------------------------------------------

  datatype Entry = Entry(age: nat, package: Package)
  datatype Cache = Cache(entries: map<Int32, Entry>, current: Option<Int32>)

  const EMPTY := Cache(map[], None)

  /** The unsigned conversion of `max_buffers - 1`. */
  function MaxAge(maxBuffers: Int32): (m: nat)
    ensures m < UINT32
  {
    (maxBuffers - 1) % UINT32
  }

  /** A zero age stays zero; any other is incremented as a uint32. */
  function Older(age: nat): nat {
    if age == 0 then 0 else (age + 1) % UINT32
  }

  predicate Evicted(c: Cache, maxAge: nat, id: Int32, k: Int32)
    requires k in c.entries
  {
    c.current != Some(k) && k != id && c.entries[k].age >= maxAge
  }

  function Swept(c: Cache, maxAge: nat, id: Int32): map<Int32, Entry> {
    map k | k in c.entries && !Evicted(c, maxAge, id, k) :: c.entries[k]
  }

  function Submitted(entries: map<Int32, Entry>, current: Option<Int32>): map<Int32, Entry> {
    map k | k in entries ::
      Entry(if current == Some(k) then 1 else Older(entries[k].age), entries[k].package)
  }

  /** Find the deposited id or create its buffer, and make it current. */
  function Selected(aged: map<Int32, Entry>, d: Deposit): Cache {
    if d.id in aged then Cache(aged, Some(d.id))
    else if d.factoryOk then Cache(aged[d.id := Entry(0, d.package)], Some(d.id))
    else Cache(aged, None)
  }

  function Step(c: Cache, maxAge: nat, d: Deposit): Cache {
    Selected(Submitted(Swept(c, maxAge, d.id), c.current), d)
  }

  /** The cache after the first `n` deposits of `h`. */
  function Run(h: seq<Deposit>, maxAge: nat, n: nat): Cache
    requires n <= |h|
  {
    if n == 0 then EMPTY else Step(Run(h, maxAge, n - 1), maxAge, h[n - 1])
  }

  lemma {:induction false} RunOfPrefix(h: seq<Deposit>, h': seq<Deposit>, maxAge: nat, n: nat)
    requires n <= |h| && h <= h'
    ensures Run(h', maxAge, n) == Run(h, maxAge, n)
  {
    hide Step;
    if n > 0 {
      RunOfPrefix(h, h', maxAge, n - 1);
    }
  }

  // ----- The history as the reference -----------------------------------------

  /** How many deposits back the cache can see. */
  function Window(maxAge: nat): nat {
    if maxAge == 0 then 2 else maxAge + 1
  }

  /** Deposit `i` left a current buffer: the factory could make one, or the id
      already had one among the last `w` slots.  Any other slot is empty. */
  predicate Landed(h: seq<Deposit>, w: nat, i: nat)
    requires i < |h|
    decreases i, 2
  {
    h[i].factoryOk || InWindow(h, w, i, h[i].id)
  }

  /** The last landed slot of `id` before slot `n`. */
  function Latest(h: seq<Deposit>, w: nat, n: nat, id: Int32): (r: Option<nat>)
    requires n <= |h|
    ensures r.Some? ==> r.value < n && h[r.value].id == id
    decreases n, 0
  {
    if n == 0 then None
    else if h[n - 1].id == id && Landed(h, w, n - 1) then Some(n - 1)
    else Latest(h, w, n - 1, id)
  }

  /** `id` occupies one of the `w` slots before slot `n`. */
  predicate InWindow(h: seq<Deposit>, w: nat, n: nat, id: Int32)
    requires n <= |h|
    decreases n, 1
  {
    var p := Latest(h, w, n, id);
    p.Some? && n - p.value <= w
  }

  /** The start of the unbroken chain of landed deposits of one id, with gaps of
      at most `w`, that ends in slot `i`. */
  function ChainStart(h: seq<Deposit>, w: nat, i: nat): (s: nat)
    requires i < |h|
    ensures s <= i && h[s].id == h[i].id
  {
    var p := Latest(h, w, i, h[i].id);
    if p.Some? && i - p.value <= w then ChainStart(h, w, p.value) else i
  }

  /** What the age of a cached `id` should be after the first `n` deposits: the
      distance from the newest slot back to the latest earlier use of the buffer. */
  function AgeInHistory(h: seq<Deposit>, w: nat, n: nat, id: Int32): nat
    requires 0 < n <= |h|
  {
    var p := Latest(h, w, n - 1, id);
    if p.Some? && n - 1 - p.value <= w then (n - 1 - p.value) % UINT32 else 0
  }

  /** The reference is what it says: a landed slot of the id with none after it. */
  lemma {:induction false} LatestIsLast(h: seq<Deposit>, w: nat, n: nat, id: Int32)
    requires n <= |h|
    ensures match Latest(h, w, n, id)
            case Some(p) => Landed(h, w, p) && forall j :: p < j < n && h[j].id == id ==> !Landed(h, w, j)
            case None => forall j :: 0 <= j < n && h[j].id == id ==> !Landed(h, w, j)
  {
    if n > 0 && !(h[n - 1].id == id && Landed(h, w, n - 1)) {
      LatestIsLast(h, w, n - 1, id);
    }
  }

  // ----- The cache refines the window ------------------------------------------

  predicate SameEntry(e: Entry, h: seq<Deposit>, w: nat, n: nat, id: Int32)
    requires 0 < n <= |h| && InWindow(h, w, n, id)
  {
    e == Entry(AgeInHistory(h, w, n, id), h[ChainStart(h, w, Latest(h, w, n, id).value)].package)
  }

  ghost predicate Refines(c: Cache, h: seq<Deposit>, w: nat, n: nat)
    requires n <= |h|
  {
    && (forall id :: id in c.entries <==> InWindow(h, w, n, id))
    && (forall id :: id in c.entries ==> n > 0 && SameEntry(c.entries[id], h, w, n, id))
    && c.current == (if n > 0 && Landed(h, w, n - 1) then Some(h[n - 1].id) else None)
  }

  /** One deposit moves the window by one slot. */
  lemma StepRefines(c: Cache, h: seq<Deposit>, maxAge: nat, n: nat)
    requires maxAge < UINT32 && n < |h| && Refines(c, h, Window(maxAge), n)
    ensures Refines(Step(c, maxAge, h[n]), h, Window(maxAge), n + 1)
  {
    var w, d := Window(maxAge), h[n];
    var swept := Swept(c, maxAge, d.id);
    forall id
      ensures id in swept <==> InWindow(h, w, n, id) && (id == d.id || n + 1 - Latest(h, w, n, id).value <= w)
    {
      if id in c.entries && id != d.id {
        SweepIsWindow(c, h, maxAge, n, id);
      }
    }
    var c' := Step(c, maxAge, d);
    forall id | id in c'.entries
      ensures InWindow(h, w, n + 1, id) && SameEntry(c'.entries[id], h, w, n + 1, id)
    {
      if id in c.entries {
        AgeAdvances(c, h, maxAge, n, id);
      }
    }
    forall id
      ensures id in c'.entries <==> InWindow(h, w, n + 1, id)
    {
      if id != d.id {
        assert id in c'.entries <==> id in swept;
        assert Latest(h, w, n + 1, id) == Latest(h, w, n, id);
      } else {
        assert id in swept <==> InWindow(h, w, n, id);
        assert id in c'.entries <==> Landed(h, w, n);
      }
    }
  }

  /** A cached buffer that is not current has been submitted, and its age is its
      distance from the newest slot; nothing has wrapped. */
  lemma IdleAge(c: Cache, h: seq<Deposit>, w: nat, n: nat, id: Int32)
    requires 0 < n <= |h| && w <= UINT32 && Refines(c, h, w, n)
    requires id in c.entries && c.current != Some(id)
    ensures Latest(h, w, n, id) == Latest(h, w, n - 1, id)
    ensures c.entries[id].age == n - 1 - Latest(h, w, n, id).value
    ensures 1 <= c.entries[id].age < w
  {
    assert SameEntry(c.entries[id], h, w, n, id);
    var p := Latest(h, w, n - 1, id).value;
    assert 0 <= n - 1 - p < UINT32;
  }

  /** The age threshold evicts exactly the ids that fall out of the window. */
  lemma SweepIsWindow(c: Cache, h: seq<Deposit>, maxAge: nat, n: nat, id: Int32)
    requires maxAge < UINT32 && n < |h| && Refines(c, h, Window(maxAge), n)
    requires id in c.entries && id != h[n].id
    ensures Evicted(c, maxAge, h[n].id, id) <==> n + 1 - Latest(h, Window(maxAge), n, id).value > Window(maxAge)
  {
    assert 0 < n;
    if c.current != Some(id) {
      IdleAge(c, h, Window(maxAge), n, id);
    }
  }

  lemma AgeAdvances(c: Cache, h: seq<Deposit>, maxAge: nat, n: nat, id: Int32)
    requires maxAge < UINT32 && n < |h| && Refines(c, h, Window(maxAge), n)
    requires id in c.entries
    ensures (if c.current == Some(id) then 1 else Older(c.entries[id].age)) == AgeInHistory(h, Window(maxAge), n + 1, id)
  {
    assert 0 < n;
    if c.current != Some(id) {
      IdleAge(c, h, Window(maxAge), n, id);
    }
  }

  /** The cache after any history is the window over that history: its ids, its
      ages, the package each buffer was built from, and its current buffer. */
  lemma {:induction false} CacheIsWindow(h: seq<Deposit>, maxAge: nat, n: nat)
    requires maxAge < UINT32 && n <= |h|
    ensures Refines(Run(h, maxAge, n), h, Window(maxAge), n)
  {
    if n > 0 {
      CacheIsWindow(h, maxAge, n - 1);
      StepRefines(Run(h, maxAge, n - 1), h, maxAge, n - 1);
    }
  }

  // ----- What follows for every history -----------------------------------------

  /** For two or more buffers the window has the size that was asked for; one
      buffer still gives two slots, and zero or fewer wrap to a huge window. */
  lemma WindowOfMaxBuffers(maxBuffers: Int32)
    ensures maxBuffers >= 2 ==> Window(MaxAge(maxBuffers)) == maxBuffers
    ensures maxBuffers == 1 ==> Window(MaxAge(maxBuffers)) == 2
    ensures maxBuffers <= 0 ==> Window(MaxAge(maxBuffers)) == UINT32 + maxBuffers
  {
    if maxBuffers <= 0 {
      assert (maxBuffers - 1) % UINT32 == maxBuffers - 1 + UINT32;
    }
  }

  function RecentIds(h: seq<Deposit>, w: nat, n: nat): set<Int32>
    requires n <= |h|
  {
    set i | 0 <= i < n && n - i <= w :: h[i].id
  }

  lemma {:induction false} RecentIdsBound(h: seq<Deposit>, w: nat, n: nat)
    requires n <= |h|
    ensures |RecentIds(h, w, n)| <= w
  {
    if w == 0 || n == 0 {
      assert RecentIds(h, w, n) == {};
    } else {
      RecentIdsBound(h, w - 1, n - 1);
      assert RecentIds(h, w, n) == RecentIds(h, w - 1, n - 1) + {h[n - 1].id};
    }
  }

  /** The cache never holds more entries than the window has slots. */
  lemma CacheSize(h: seq<Deposit>, maxAge: nat, n: nat)
    requires maxAge < UINT32 && n <= |h|
    ensures |Run(h, maxAge, n).entries| <= Window(maxAge)
  {
    var w, keys := Window(maxAge), Run(h, maxAge, n).entries.Keys;
    CacheIsWindow(h, maxAge, n);
    RecentIdsBound(h, w, n);
    forall id | id in keys ensures id in RecentIds(h, w, n) {
      assert InWindow(h, w, n, id);
      assert h[Latest(h, w, n, id).value].id == id;
    }
    SubsetSize(keys, RecentIds(h, w, n));
  }

  lemma SubsetSize(a: set<Int32>, b: set<Int32>)
    requires a <= b
    ensures |a| <= |b|
  {
    assert b == a + (b - a);
  }

  /** Every idle buffer has an age strictly inside the window, no age exceeds the
      window, and two buffers share an age only if it is zero. */
  lemma Ages(h: seq<Deposit>, maxAge: nat, n: nat, id: Int32, id': Int32)
    requires maxAge < UINT32 && n <= |h|
    requires id in Run(h, maxAge, n).entries && id' in Run(h, maxAge, n).entries
    ensures var c := Run(h, maxAge, n);
            && (c.current != Some(id) ==> 1 <= c.entries[id].age < Window(maxAge))
            && c.entries[id].age <= Window(maxAge)
            && (id != id' && c.entries[id].age != 0 ==> c.entries[id].age != c.entries[id'].age)
  {
    var c, w := Run(h, maxAge, n), Window(maxAge);
    CacheIsWindow(h, maxAge, n);
    AgeIsDistance(c, h, w, n, id);
    AgeIsDistance(c, h, w, n, id');
    if c.current != Some(id) {
      IdleAge(c, h, w, n, id);
    }
  }

  lemma AgeIsDistance(c: Cache, h: seq<Deposit>, w: nat, n: nat, id: Int32)
    requires 0 < n <= |h| && w <= UINT32 && Refines(c, h, w, n) && id in c.entries
    ensures c.entries[id].age <= w
    ensures c.entries[id].age != 0 ==>
              Latest(h, w, n - 1, id).Some? && c.entries[id].age == n - 1 - Latest(h, w, n - 1, id).value
  {
    assert SameEntry(c.entries[id], h, w, n, id);
    var p := Latest(h, w, n - 1, id);
    if p.Some? && n - 1 - p.value <= w {
      var d := n - 1 - p.value;
      assert d < UINT32 ==> d % UINT32 == d;
    }
  }

  /** The frame-boundary rule of EGL_EXT_buffer_age: the buffer just submitted
      gets age 1, a buffer with an age gets one older, a buffer without stays
      undefined.  No counter wraps unless the window is the whole uint32 range. */
  lemma FrameBoundary(h: seq<Deposit>, maxAge: nat, n: nat, id: Int32)
    requires maxAge < UINT32 - 1 && n < |h|
    requires id in Run(h, maxAge, n).entries && id in Run(h, maxAge, n + 1).entries
    ensures var before, after := Run(h, maxAge, n), Run(h, maxAge, n + 1);
            after.entries[id].age ==
              if before.current == Some(id) then 1
              else if before.entries[id].age > 0 then before.entries[id].age + 1
              else 0
  {
    var c := Run(h, maxAge, n);
    CacheIsWindow(h, maxAge, n);
    if c.current != Some(id) {
      IdleAge(c, h, Window(maxAge), n, id);
      OlderExact(c.entries[id].age);
    }
    SurvivorAge(c, maxAge, h[n], id);
  }

  lemma OlderExact(age: nat)
    requires 0 < age < UINT32 - 1
    ensures Older(age) == age + 1
  {
  }

  lemma SurvivorAge(c: Cache, maxAge: nat, d: Deposit, id: Int32)
    requires id in c.entries && id in Step(c, maxAge, d).entries
    ensures Step(c, maxAge, d).entries[id].age == if c.current == Some(id) then 1 else Older(c.entries[id].age)
  {
    assert id == d.id ==> !Evicted(c, maxAge, d.id, id);
  }

  predicate FactoryAsked(c: Cache, maxAge: nat, id: Int32) {
    id !in Swept(c, maxAge, id)
  }

  /** A deposit asks the factory exactly when its id is absent from the window;
      when it leaves a current buffer, that buffer is the one built at the start
      of the id's unbroken chain, so it carries the new package exactly on a miss. */
  lemma CurrentBufferOrigin(h: seq<Deposit>, maxAge: nat, n: nat)
    requires maxAge < UINT32 && n < |h|
    ensures var w, c := Window(maxAge), Run(h, maxAge, n);
            && (FactoryAsked(c, maxAge, h[n].id) <==> !InWindow(h, w, n, h[n].id))
            && (FactoryAsked(c, maxAge, h[n].id) <==> ChainStart(h, w, n) == n)
    ensures var w, c' := Window(maxAge), Run(h, maxAge, n + 1);
            && (c'.current.Some? <==> Landed(h, w, n))
            && (c'.current.Some? ==>
                  && c'.current == Some(h[n].id)
                  && h[n].id in c'.entries
                  && c'.entries[h[n].id].package == h[ChainStart(h, w, n)].package)
  {
    CacheIsWindow(h, maxAge, n);
    CacheIsWindow(h, maxAge, n + 1);
    var w, id := Window(maxAge), h[n].id;
    if Landed(h, w, n) {
      assert Latest(h, w, n + 1, id) == Some(n);
      assert SameEntry(Run(h, maxAge, n + 1).entries[id], h, w, n + 1, id);
    }
  }

  lemma CurrentPackage(c: Cache, h: seq<Deposit>, maxAge: nat)
    requires maxAge < UINT32 && c == Run(h, maxAge, |h|) && c.current.Some?
    ensures h != [] && c.current.value in c.entries
    ensures c.entries[c.current.value].package == h[ChainStart(h, Window(maxAge), |h| - 1)].package
  {
    CurrentBufferOrigin(h, maxAge, |h| - 1);
  }

  /** The header promises a buffer made from the package just deposited; a second
      deposit of the same id still shows the first package. */
  lemma HitKeepsOldPackage(id: Int32, first: Package, second: Package)
    requires first != second
    ensures var h := [Deposit(id, first, true), Deposit(id, second, true)];
            var c := Run(h, MaxAge(3), 2);
            c.current == Some(id) && id in c.entries && c.entries[id].package == first
  {
    var h := [Deposit(id, first, true), Deposit(id, second, true)];
    assert Run(h, MaxAge(3), 1) == Cache(map[id := Entry(0, first)], Some(id)) by {
      assert Run(h, MaxAge(3), 0) == EMPTY;
      assert Submitted(Swept(EMPTY, MaxAge(3), id), None) == map[];
    }
    assert Run(h, MaxAge(3), 2) == Step(Run(h, MaxAge(3), 1), MaxAge(3), h[1]);
  }

  lemma RunGrows(h: seq<Deposit>, d: Deposit, maxAge: nat)
    requires maxAge < UINT32
    ensures Run(h + [d], maxAge, |h| + 1) == Step(Run(h, maxAge, |h|), maxAge, d)
    ensures Run(h + [d], maxAge, |h| + 1).current.Some? <==> Landed(h + [d], Window(maxAge), |h|)
  {
    RunOfPrefix(h, h + [d], maxAge, |h|);
    CacheIsWindow(h + [d], maxAge, |h| + 1);
  }

  lemma SubmittedPointwise(m: map<Int32, Entry>, entries: map<Int32, Entry>, current: Option<Int32>)
    requires m.Keys == entries.Keys
    requires forall k :: k in m ==>
      && m[k].age == (if current == Some(k) then 1 else Older(entries[k].age))
      && m[k].package == entries[k].package
    ensures m == Submitted(entries, current)
  {
  }

  // ----- The classes -------------------------------------------------------------

  class AgingBuffer {
    const package: Package
    var bufferAge: nat

    constructor (package: Package)
      ensures this.package == package && bufferAge == 0
    {
      this.package := package;
      bufferAge := 0;
    }

    method IncrementAge()
      modifies this
      ensures bufferAge == Older(old(bufferAge))
    {
      if bufferAge != 0 {
        bufferAge := (bufferAge + 1) % UINT32;
      }
    }

    method MarkAsSubmitted()
      modifies this
      ensures bufferAge == 1
    {
      bufferAge := 1;
    }
  }

  lemma ValuesShrink(m: map<Int32, AgingBuffer>, m': map<Int32, AgingBuffer>)
    requires forall k :: k in m' ==> k in m && m'[k] == m[k]
    ensures m'.Values <= m.Values
  {
  }

  class ClientBufferDepository {
    var buffers: map<Int32, AgingBuffer>
    var current: Option<Int32>  // the key the iterator points at, None for end()
    const maxAge: nat
    ghost var history: seq<Deposit>

    ghost predicate Wellformed()
      reads this`buffers, this`current
    {
      && maxAge < UINT32
      && (current.Some? ==> current.value in buffers)
      && (forall j, k :: j in buffers && k in buffers && j != k ==> buffers[j] != buffers[k])
    }

    ghost function Entries(): (m: map<Int32, Entry>)
      reads this`buffers, buffers.Values
      ensures m.Keys == buffers.Keys
    {
      map k | k in buffers :: Entry(buffers[k].bufferAge, buffers[k].package)
    }

    ghost function Contents(): Cache
      reads this`buffers, this`current, buffers.Values
    {
      Cache(Entries(), current)
    }

    /** The object is in the state its whole history of deposits leads to. */
    ghost predicate Valid()
      reads this, buffers.Values
    {
      Wellformed() && Contents() == Run(history, maxAge, |history|)
    }

    constructor (maxBuffers: Int32)
      ensures Valid() && history == [] && maxAge == MaxAge(maxBuffers) && buffers == map[]
    {
      buffers := map[];
      current := None;
      maxAge := MaxAge(maxBuffers);
      history := [];
    }

    /** The erase-while-iterating loop: the current entry is never erased, so the
        stored iterator stays valid. */
    method Sweep(id: Int32)
      requires Wellformed()
      modifies this`buffers
      ensures Wellformed()
      ensures Entries() == Swept(old(Contents()), maxAge, id)
      ensures forall k :: k in buffers ==> k in old(buffers) && buffers[k] == old(buffers[k])
      ensures id in old(buffers) ==> id in buffers
    {
      var todo := buffers.Keys;
      ghost var c := Contents();
      while |todo| > 0
        invariant todo <= buffers.Keys <= old(buffers).Keys
        invariant forall k :: k in buffers ==> buffers[k] == old(buffers[k])
        invariant Wellformed()
        invariant forall k :: k in old(buffers) && k !in buffers ==> Evicted(c, maxAge, id, k)
        invariant forall k :: k in buffers && k !in todo ==> !Evicted(c, maxAge, id, k)
        decreases todo
      {
        var next :| next in todo;
        todo := todo - {next};
        if current != Some(next) && next != id && buffers[next].bufferAge >= maxAge {
          buffers := buffers - {next};
        }
      }
      assert Entries().Keys == Swept(c, maxAge, id).Keys;
    }

    method AgeAll()
      requires Wellformed()
      modifies buffers.Values
      ensures forall k :: k in buffers ==> buffers[k].bufferAge == Older(old(buffers[k].bufferAge))
    {
      var todo := buffers.Keys;
      while |todo| > 0
        invariant todo <= buffers.Keys
        invariant forall k :: k in buffers ==>
          buffers[k].bufferAge == if k in todo then old(buffers[k].bufferAge) else Older(old(buffers[k].bufferAge))
        decreases todo
      {
        var next :| next in todo;
        todo := todo - {next};
        buffers[next].IncrementAge();
      }
    }

    /** The first half of a deposit: sweep, age, and submit the current buffer. */
    method SubmitCurrent(id: Int32)
      requires Wellformed()
      modifies this`buffers, buffers.Values
      ensures Wellformed()
      ensures Entries() == Submitted(Swept(old(Contents()), maxAge, id), current)
      ensures forall k :: k in buffers ==> k in old(buffers) && buffers[k] == old(buffers[k])
      ensures id in old(buffers) ==> id in buffers
    {
      ghost var c := Contents();
      Sweep(id);
      ValuesShrink(old(buffers), buffers);
      ghost var swept := Entries();
      AgeAll();
      assert forall k :: k in buffers ==> buffers[k].bufferAge == Older(swept[k].age);
      if current.Some? {
        buffers[current.value].MarkAsSubmitted();
      }
      SubmittedPointwise(Entries(), swept, current);
    }

    /** The second half: returns false where the source lets the factory's
        exception through. */
    method Select(package: Package, id: Int32, factoryOk: bool) returns (ok: bool)
      requires Wellformed()
      modifies this`buffers, this`current
      ensures Wellformed()
      ensures Contents() == Selected(old(Entries()), Deposit(id, package, factoryOk))
      ensures ok == current.Some?
      ensures forall k :: k in old(buffers) ==> k in buffers && buffers[k] == old(buffers[k])
      ensures forall k :: k in buffers && k !in old(buffers) ==> k == id && fresh(buffers[k])
    {
      current := if id in buffers then Some(id) else None;
      ok := true;
      if current == None {
        if factoryOk {
          var newBuffer := new AgingBuffer(package);
          buffers := buffers[id := newBuffer];
          current := Some(id);
          assert Entries() == old(Entries())[id := Entry(0, package)];
        } else {
          ok := false;
        }
      }
    }

    method Apply(package: Package, id: Int32, factoryOk: bool) returns (ok: bool)
      requires Wellformed()
      modifies this`buffers, this`current, buffers.Values
      ensures Wellformed()
      ensures Contents() == Step(old(Contents()), maxAge, Deposit(id, package, factoryOk))
      ensures ok == current.Some?
      ensures forall k :: k in buffers ==> if k in old(buffers) then buffers[k] == old(buffers[k]) else k == id && fresh(buffers[k])
    {
      SubmitCurrent(id);
      ok := Select(package, id, factoryOk);
    }

    method DepositPackage(package: Package, id: Int32, factoryOk: bool) returns (ok: bool)
      requires Valid()
      modifies this`buffers, this`current, this`history, buffers.Values
      ensures Valid()
      ensures history == old(history) + [Deposit(id, package, factoryOk)]
      ensures ok == current.Some? == Landed(history, Window(maxAge), |history| - 1)
      ensures forall k :: k in buffers ==> if k in old(buffers) then buffers[k] == old(buffers[k]) else k == id && fresh(buffers[k])
    {
      hide Step, Run, Landed, Entries;
      RunGrows(history, Deposit(id, package, factoryOk), maxAge);
      ok := Apply(package, id, factoryOk);
      history := history + [Deposit(id, package, factoryOk)];
    }

    /** The source dereferences the iterator, so a current buffer must exist; it
        does exactly when the last deposit landed. */
    method CurrentBuffer() returns (b: AgingBuffer)
      requires Valid() && current.Some?
      ensures history != [] && b == buffers[current.value]
      ensures b.package == history[ChainStart(history, Window(maxAge), |history| - 1)].package
    {
      b := buffers[current.value];
      ghost var c := Contents();
      assert c.entries[current.value].package == b.package;
      CurrentPackage(c, history, maxAge);
    }
  }
}
