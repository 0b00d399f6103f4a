/**
 Intrusive reference counting: sp<T> slots over LightRefBase objects that
 themselves hold sp fields.  Dropping the last reference deletes the object,
 which destroys its fields, which may drop further last references, on an
 arbitrary (also cyclic) object graph.

 Memory is explicit: a deleted object leaves `count`, a destroyed slot leaves
 `ptr`, so a use after free or a double delete is a failed proof obligation.
 */
module StrongPointer {
  import opened Base

  type Obj = nat   // address of a counted object
  type Slot = nat  // address of an sp<T>

  datatype Heap = Heap(
    count: map<Obj, int>,           // mCount of every allocated object
    fields: map<Obj, seq<Slot>>,    // the sp members of every allocated object
    ptr: map<Slot, Option<Obj>>)    // m_ptr of every constructed slot

  /** Who stands behind one unit of a count: a slot, or the increment that an
      assignment makes before it stores the new pointer. */
  datatype Holder = Of(slot: Slot) | Pending

  /** The bookkeeping the counts are compared with; none of it exists at run time. */
  datatype Book = Book(
    held: map<Holder, Obj>,   // references not yet released
    home: map<Slot, Obj>,     // the object each member slot lies in
    dying: set<Obj>,          // objects whose destructor is running
    unadopted: set<Obj>,      // allocated, never yet pointed at
    freed: set<Obj>)          // deleted

  const EMPTY_HEAP := Heap(map[], map[], map[])
  const EMPTY_BOOK := Book(map[], map[], {}, {}, {})

  function References(held: map<Holder, Obj>, o: Obj): set<Holder> {
    set t | t in held && held[t] == o
  }

  /** `home` inverts `fields`. */
  ghost predicate Homed(fields: map<Obj, seq<Slot>>, home: map<Slot, Obj>) {
    && (forall o, s :: o in fields && s in fields[o] ==> s in home && home[s] == o)
    && (forall s :: s in home ==> home[s] in fields && s in fields[home[s]])
  }

  ghost predicate Distinct(fields: map<Obj, seq<Slot>>) {
    forall o, i, j :: o in fields && 0 <= i < j < |fields[o]| ==> fields[o][i] != fields[o][j]
  }

  ghost predicate Laid(h: Heap, b: Book) {
    h.fields.Keys == h.count.Keys && Homed(h.fields, b.home) && Distinct(h.fields)
  }

  /** Every count is the number of references, plus one for the object `owed`,
      whose reference has been dropped but not yet subtracted. */
  ghost predicate Counted(h: Heap, b: Book, owed: Option<Obj>) {
    forall o :: o in h.count ==>
      h.count[o] == |References(b.held, o)| + (if owed == Some(o) then 1 else 0)
  }

  /** References point at live objects and agree with the slots; a slot holds a
      reference exactly when it is not null, except that the slots in `open` have
      given theirs back while still showing the address. */
  ghost predicate Sound(h: Heap, b: Book, open: set<Slot>) {
    && (forall t :: t in b.held ==> b.held[t] in h.count && b.held[t] !in b.dying && b.held[t] !in b.unadopted)
    && (forall s :: Of(s) in b.held ==> s in h.ptr && h.ptr[s] == Some(b.held[Of(s)]))
    && (forall s :: s in h.ptr && s !in open && h.ptr[s].Some? ==> Of(s) in b.held)
    && (forall s :: s in open ==> Of(s) !in b.held && (s in h.ptr ==> h.ptr[s].Some?))
    && (forall o, s :: o in h.fields && o !in b.dying && s in h.fields[o] ==> s in h.ptr)
  }

  /** No object outlives its last reference, and none is freed twice. */
  ghost predicate NoGarbage(h: Heap, b: Book, owed: Option<Obj>) {
    && b.dying <= h.count.Keys
    && b.unadopted <= h.count.Keys - b.dying
    && b.freed !! h.count.Keys
    && (owed.Some? ==> owed.value in h.count && owed.value !in b.dying && owed.value !in b.unadopted)
    && (forall o :: o in h.count && o !in b.dying && o !in b.unadopted && owed != Some(o) ==> References(b.held, o) != {})
  }

  ghost predicate Inv(h: Heap, b: Book, open: set<Slot>, owed: Option<Obj>) {
    Laid(h, b) && Counted(h, b, owed) && Sound(h, b, open) && NoGarbage(h, b, owed)
  }

  /** The quiescent state between operations. */
  ghost predicate Stable(h: Heap, b: Book) {
    Inv(h, b, {}, None) && b.dying == {} && Pending !in b.held
  }

  // ----- Which objects survive ---------------------------------------------------

  /** A reference that does not depend on objects outside `S`. */
  predicate Anchored(b: Book, S: set<Obj>, t: Holder) {
    t.Pending? || t.slot !in b.home || b.home[t.slot] in S
  }

  ghost predicate HasAnchor(b: Book, S: set<Obj>, o: Obj) {
    exists t :: t in b.held && b.held[t] == o && Anchored(b, S, t)
  }

  /** A set of live objects that keep each other, or are kept from outside. */
  ghost predicate Supported(h: Heap, b: Book, S: set<Obj>) {
    && S <= h.count.Keys - b.dying
    && forall o :: o in S ==> o in b.unadopted || HasAnchor(b, S, o)
  }

  /** The union of all supported sets. */
  ghost function Survivors(h: Heap, b: Book): set<Obj> {
    set o | o in h.count.Keys && exists S :: Supported(h, b, S) && o in S
  }

  lemma SurvivorsSupported(h: Heap, b: Book)
    ensures Supported(h, b, Survivors(h, b))
  {
    var U := Survivors(h, b);
    forall o | o in U
      ensures o !in b.dying && (o in b.unadopted || HasAnchor(b, U, o))
    {
      var S :| Supported(h, b, S) && o in S;
      assert S <= U;
      if o !in b.unadopted {
        assert HasAnchor(b, S, o);
        var t :| t in b.held && b.held[t] == o && Anchored(b, S, t);
        assert Anchored(b, U, t);
      }
    }
  }

  // ----- Counting -------------------------------------------------------------------

  lemma ReferencesDropped(held: map<Holder, Obj>, t: Holder, o: Obj)
    requires t in held
    ensures References(held - {t}, o) == References(held, o) - {t}
    ensures |References(held - {t}, o)| == |References(held, o)| - (if held[t] == o then 1 else 0)
  {
    assert References(held - {t}, o) == References(held, o) - {t};
  }

  lemma ReferencesTaken(held: map<Holder, Obj>, t: Holder, to: Obj, o: Obj)
    requires t !in held
    ensures References(held[t := to], o) == References(held, o) + (if to == o then {t} else {})
    ensures |References(held[t := to], o)| == |References(held, o)| + (if to == o then 1 else 0)
  {
    assert References(held[t := to], o) == References(held, o) + (if to == o then {t} else {});
  }

  // ----- The elementary moves -------------------------------------------------------

  function Drop(b: Book, t: Holder): Book {
    b.(held := b.held - {t})
  }

  lemma Dropped(h: Heap, b: Book, open: set<Slot>, s: Slot)
    requires Inv(h, b, open, None) && Of(s) in b.held
    ensures Inv(h, Drop(b, Of(s)), open + {s}, Some(b.held[Of(s)]))
  {
    assert Laid(h, Drop(b, Of(s)));
    DroppedCounted(h, b, s);
    DroppedSound(h, b, open, s);
    DroppedNoGarbage(h, b, open, s);
  }

  lemma DroppedCounted(h: Heap, b: Book, s: Slot)
    requires Counted(h, b, None) && Of(s) in b.held
    ensures Counted(h, Drop(b, Of(s)), Some(b.held[Of(s)]))
  {
    forall o | o in h.count
      ensures h.count[o] == |References(Drop(b, Of(s)).held, o)| + if b.held[Of(s)] == o then 1 else 0
    {
      ReferencesDropped(b.held, Of(s), o);
    }
  }

  lemma DroppedSound(h: Heap, b: Book, open: set<Slot>, s: Slot)
    requires Sound(h, b, open) && Of(s) in b.held
    ensures Sound(h, Drop(b, Of(s)), open + {s})
  {
  }

  lemma DroppedNoGarbage(h: Heap, b: Book, open: set<Slot>, s: Slot)
    requires Sound(h, b, open) && NoGarbage(h, b, None) && Of(s) in b.held
    ensures NoGarbage(h, Drop(b, Of(s)), Some(b.held[Of(s)]))
  {
    forall o | o in h.count && o !in b.dying && o !in b.unadopted && b.held[Of(s)] != o
      ensures References(Drop(b, Of(s)).held, o) != {}
    {
      ReferencesDropped(b.held, Of(s), o);
      assert Of(s) !in References(b.held, o);
    }
  }

  /** The decrement, seen from the book: the last one starts the destructor. */
  function Decremented(h: Heap, o: Obj): Heap
    requires o in h.count
  {
    h.(count := h.count[o := h.count[o] - 1])
  }

  function DecrementedBook(h: Heap, b: Book, o: Obj): Book
    requires o in h.count
  {
    if h.count[o] == 1 then b.(dying := b.dying + {o}) else b
  }

  lemma DecrementKeeps(h: Heap, b: Book, open: set<Slot>, o: Obj, S: set<Obj>)
    requires Inv(h, b, open, Some(o)) && Supported(h, b, S)
    ensures h.count[o] >= 1
    ensures Inv(Decremented(h, o), DecrementedBook(h, b, o), open, None)
    ensures Supported(Decremented(h, o), DecrementedBook(h, b, o), S)
  {
    LastReference(h, b, o);
    DecrementLaid(h, b, o);
    DecrementCounted(h, b, o);
    DecrementSound(h, b, open, o);
    DecrementNoGarbage(h, b, o);
    DecrementSupport(h, b, o, S);
  }

  lemma LastReference(h: Heap, b: Book, o: Obj)
    requires o in h.count && Counted(h, b, Some(o))
    ensures h.count[o] >= 1
    ensures h.count[o] == 1 ==> References(b.held, o) == {}
    ensures h.count[o] == 1 ==> forall t :: t in b.held ==> b.held[t] != o
    ensures h.count[o] != 1 ==> References(b.held, o) != {}
  {
    if h.count[o] == 1 {
      assert References(b.held, o) == {};
      forall t | t in b.held ensures b.held[t] != o {
        assert b.held[t] == o ==> t in References(b.held, o);
      }
    }
  }

  lemma DecrementLaid(h: Heap, b: Book, o: Obj)
    requires o in h.count && Laid(h, b)
    ensures Laid(Decremented(h, o), DecrementedBook(h, b, o))
  {
    assert Decremented(h, o).count.Keys == h.count.Keys;
  }

  lemma DecrementCounted(h: Heap, b: Book, o: Obj)
    requires o in h.count && Counted(h, b, Some(o))
    ensures Counted(Decremented(h, o), DecrementedBook(h, b, o), None)
  {
  }

  lemma DecrementSound(h: Heap, b: Book, open: set<Slot>, o: Obj)
    requires o in h.count && Sound(h, b, open)
    requires h.count[o] == 1 ==> forall t :: t in b.held ==> b.held[t] != o
    ensures Sound(Decremented(h, o), DecrementedBook(h, b, o), open)
  {
  }

  lemma DecrementNoGarbage(h: Heap, b: Book, o: Obj)
    requires NoGarbage(h, b, Some(o))
    requires h.count[o] != 1 ==> References(b.held, o) != {}
    ensures NoGarbage(Decremented(h, o), DecrementedBook(h, b, o), None)
  {
    assert Decremented(h, o).count.Keys == h.count.Keys;
  }

  lemma DecrementSupport(h: Heap, b: Book, o: Obj, S: set<Obj>)
    requires NoGarbage(h, b, Some(o)) && Supported(h, b, S)
    requires h.count[o] == 1 ==> forall t :: t in b.held ==> b.held[t] != o
    ensures Supported(Decremented(h, o), DecrementedBook(h, b, o), S)
  {
    if h.count[o] == 1 {
      assert !HasAnchor(b, S, o);
    }
    var b' := DecrementedBook(h, b, o);
    assert Decremented(h, o).count.Keys == h.count.Keys;
    forall x | x in S ensures x in b'.unadopted || HasAnchor(b', S, x) {
      SupportMoves(b, b', S, x);
    }
  }

  /** Support carries over when no anchored reference of `x` is lost. */
  lemma SupportMoves(b: Book, b': Book, S: set<Obj>, x: Obj)
    requires x in b.unadopted || HasAnchor(b, S, x)
    requires b'.unadopted == b.unadopted
    requires forall t :: t in b.held && b.held[t] == x && Anchored(b, S, t) ==>
               t in b'.held && b'.held[t] == x && Anchored(b', S, t)
    ensures x in b'.unadopted || HasAnchor(b', S, x)
  {
    if x !in b.unadopted {
      var t :| t in b.held && b.held[t] == x && Anchored(b, S, t);
      assert t in b'.held && b'.held[t] == x && Anchored(b', S, t);
    }
  }

  function WithoutSlot(h: Heap, s: Slot): Heap {
    h.(ptr := h.ptr - {s})
  }

  /** Only the agreement between slots and references depends on the slots. */
  lemma SlotsApart(h: Heap, h': Heap, b: Book)
    requires Laid(h, b) && Counted(h, b, None) && NoGarbage(h, b, None)
    requires h'.count == h.count && h'.fields == h.fields
    ensures Laid(h', b) && Counted(h', b, None) && NoGarbage(h', b, None)
  {
  }

  lemma SlotGone(h: Heap, b: Book, open: set<Slot>, s: Slot, S: set<Obj>)
    requires Inv(h, b, open + {s}, None) || (Inv(h, b, open, None) && Of(s) !in b.held)
    requires Supported(h, b, S)
    requires s in b.home ==> b.home[s] in b.dying
    ensures Inv(WithoutSlot(h, s), b, open, None) && Supported(WithoutSlot(h, s), b, S)
  {
    hide Laid, Counted, Sound, NoGarbage;
    SlotsApart(h, WithoutSlot(h, s), b);
    SlotGoneSound(h, b, open, s);
  }

  lemma SlotGoneSound(h: Heap, b: Book, open: set<Slot>, s: Slot)
    requires Laid(h, b) && (s in b.home ==> b.home[s] in b.dying)
    requires Sound(h, b, open + {s}) || (Sound(h, b, open) && Of(s) !in b.held)
    ensures Sound(WithoutSlot(h, s), b, open)
  {
  }

  function Freed(h: Heap, o: Obj): Heap {
    h.(count := h.count - {o}, fields := h.fields - {o})
  }

  function FreedBook(h: Heap, b: Book, o: Obj): Book
    requires o in h.fields
  {
    b.(dying := b.dying - {o}, freed := b.freed + {o}, home := b.home - (set s | s in h.fields[o]))
  }

  lemma FreeKeeps(h: Heap, b: Book, open: set<Slot>, o: Obj, S: set<Obj>)
    requires Inv(h, b, open, None) && Supported(h, b, S) && o in b.dying
    requires forall s :: s in h.fields[o] ==> s !in h.ptr
    ensures Inv(Freed(h, o), FreedBook(h, b, o), open, None) && Supported(Freed(h, o), FreedBook(h, b, o), S)
  {
    FreeLaid(h, b, o);
    assert Counted(Freed(h, o), FreedBook(h, b, o), None);
    FreeSound(h, b, open, o);
    FreeNoGarbage(h, b, o);
    FreeSupport(h, b, open, o, S);
  }

  lemma FreeLaid(h: Heap, b: Book, o: Obj)
    requires Laid(h, b) && o in h.fields
    ensures Laid(Freed(h, o), FreedBook(h, b, o))
  {
    var b' := FreedBook(h, b, o);
    forall s | s in b'.home ensures b'.home[s] in Freed(h, o).fields && s in Freed(h, o).fields[b'.home[s]] {
      assert s in b.home && s in h.fields[b.home[s]];
    }
    forall x, s | x in Freed(h, o).fields && s in Freed(h, o).fields[x] ensures s in b'.home && b'.home[s] == x {
      assert s in b.home && b.home[s] == x;
    }
  }

  lemma FreeSound(h: Heap, b: Book, open: set<Slot>, o: Obj)
    requires Laid(h, b) && Sound(h, b, open) && o in b.dying && o in h.fields
    ensures Sound(Freed(h, o), FreedBook(h, b, o), open)
  {
  }

  lemma FreeNoGarbage(h: Heap, b: Book, o: Obj)
    requires Laid(h, b) && NoGarbage(h, b, None) && o in b.dying
    ensures NoGarbage(Freed(h, o), FreedBook(h, b, o), None)
  {
  }

  lemma FreeSupport(h: Heap, b: Book, open: set<Slot>, o: Obj, S: set<Obj>)
    requires Laid(h, b) && Sound(h, b, open) && Supported(h, b, S) && o in b.dying && o in h.fields
    ensures Supported(Freed(h, o), FreedBook(h, b, o), S)
  {
    var b' := FreedBook(h, b, o);
    forall x | x in S ensures x in b'.unadopted || HasAnchor(b', S, x) {
      SupportMoves(b, b', S, x);
    }
  }

  // ----- What a cascade may change -----------------------------------------------------

  ghost function Positive(count: map<Obj, int>): set<Obj> {
    set o | o in count && count[o] > 0
  }

  ghost predicate ShrunkObjects(h0: Heap, b0: Book, h: Heap, b: Book) {
    && h.count.Keys <= h0.count.Keys
    && Positive(h.count) <= Positive(h0.count)
    && (forall o :: o in h.fields ==> o in h0.fields && h.fields[o] == h0.fields[o])
    && b.unadopted == b0.unadopted
    && b.freed == b0.freed + (h0.count.Keys - h.count.Keys)
  }

  ghost predicate ShrunkSlots(h0: Heap, b0: Book, h: Heap, b: Book, lost: set<Slot>) {
    && (forall s :: s in b.home ==> s in b0.home && b.home[s] == b0.home[s])
    && (forall s :: s in b0.home && s !in b.home ==> b0.home[s] !in h.count)
    && (forall s :: s in h.ptr ==> s in h0.ptr && h.ptr[s] == h0.ptr[s])
    && (forall s :: s in h.ptr && s in b0.home && b0.home[s] in h0.count ==> b0.home[s] in h.count)
    && (forall s :: s in h0.ptr && s !in h.ptr ==> s in lost || (s in b0.home && b0.home[s] !in h.count))
  }

  ghost predicate ShrunkReferences(b0: Book, h: Heap, b: Book) {
    && (forall t :: t in b.held ==> t in b0.held && b.held[t] == b0.held[t])
    && (forall t :: t in b0.held && t !in b.held ==> t.Of? && t.slot !in h.ptr)
  }

  /** Everything that is left is as it was; a slot goes only with the object it
      lies in, or because it is in `lost`; a reference goes only with its slot. */
  ghost predicate Shrunk(h0: Heap, b0: Book, h: Heap, b: Book, lost: set<Slot>) {
    ShrunkObjects(h0, b0, h, b) && ShrunkSlots(h0, b0, h, b, lost) && ShrunkReferences(b0, h, b)
  }

  lemma ShrunkTwice(h0: Heap, b0: Book, h1: Heap, b1: Book, h2: Heap, b2: Book, lost: set<Slot>, lost': set<Slot>)
    requires Shrunk(h0, b0, h1, b1, lost) && Shrunk(h1, b1, h2, b2, lost')
    ensures Shrunk(h0, b0, h2, b2, lost + lost')
  {
  }

  lemma InvParts(h: Heap, b: Book, open: set<Slot>)
    requires Inv(h, b, open, None)
    ensures Laid(h, b) && b.dying <= h.count.Keys && h.fields.Keys == h.count.Keys
  {
  }

  lemma ShrunkSelf(h: Heap, b: Book, lost: set<Slot>)
    ensures Shrunk(h, b, h, b, lost)
  {
  }

  lemma DecrementShrinks(h: Heap, b: Book, open: set<Slot>, o: Obj)
    requires Inv(h, b, open, Some(o))
    ensures o in h.count && o in h.fields
    ensures Shrunk(h, b, Decremented(h, o), DecrementedBook(h, b, o), {})
    ensures Decremented(h, o).ptr == h.ptr && Decremented(h, o).fields == h.fields
    ensures h.count[o] == 1 ==>
              && Positive(Decremented(h, o).count) < Positive(h.count)
              && DecrementedBook(h, b, o).dying == b.dying + {o} && o !in b.dying
              && forall s :: s in h.fields[o] ==> s in h.ptr
    ensures h.count[o] != 1 ==> DecrementedBook(h, b, o).dying == b.dying
  {
    if h.count[o] == 1 {
      assert o in Positive(h.count) && o !in Positive(Decremented(h, o).count);
    }
  }

  lemma MemberOfDying(h: Heap, b: Book, o: Obj, s: Slot, S: set<Obj>)
    requires Laid(h, b) && Supported(h, b, S)
    requires o in b.dying && o in h.fields && s in h.fields[o]
    ensures s in b.home && b.home[s] == o
    ensures Supported(h, Drop(b, Of(s)), S)
  {
    var b' := Drop(b, Of(s));
    forall x | x in S ensures x in b'.unadopted || HasAnchor(b', S, x) {
      SupportMoves(b, b', S, x);
    }
  }

  /** Destroying one member of a dying object leaves the object and its other members. */
  lemma MembersLeft(h: Heap, b: Book, h': Heap, b': Book, o: Obj, i: nat)
    requires Laid(h, b) && Laid(h', b')
    requires o in h'.count && o in h.fields && i < |h.fields[o]|
    requires Shrunk(h, b, h', b', {h.fields[o][i]}) && h.fields[o][i] !in h'.ptr
    ensures o in h'.fields && h'.fields[o] == h.fields[o]
    ensures forall j :: 0 <= j < |h.fields[o]| && j != i ==> (h.fields[o][j] in h'.ptr <==> h.fields[o][j] in h.ptr)
  {
    forall j | 0 <= j < |h.fields[o]| && j != i
      ensures h.fields[o][j] in h'.ptr <==> h.fields[o][j] in h.ptr
    {
      var s := h.fields[o][j];
      assert s in h.fields[o];
      assert s in b.home && b.home[s] == o;
    }
  }

  lemma FreeShrinks(h0: Heap, b0: Book, h: Heap, b: Book, o: Obj, lost: set<Slot>)
    requires Laid(h0, b0) && Laid(h, b)
    requires o in h.fields && lost == (set s | s in h.fields[o]) && Shrunk(h0, b0, h, b, lost)
    requires forall s :: s in h.fields[o] ==> s !in h.ptr
    ensures Shrunk(h0, b0, Freed(h, o), FreedBook(h, b, o), {})
  {
    FreeShrinksObjects(h0, b0, h, b, o);
    FreeShrinksSlots(h0, b0, h, b, o, lost);
  }

  lemma FreeShrinksObjects(h0: Heap, b0: Book, h: Heap, b: Book, o: Obj)
    requires o in h.fields && o in h.count && ShrunkObjects(h0, b0, h, b)
    ensures ShrunkObjects(h0, b0, Freed(h, o), FreedBook(h, b, o))
  {
  }

  lemma FreeShrinksSlots(h0: Heap, b0: Book, h: Heap, b: Book, o: Obj, lost: set<Slot>)
    requires Laid(h0, b0) && Laid(h, b)
    requires o in h.fields && o in h0.fields && h0.fields[o] == h.fields[o]
    requires lost == (set s | s in h.fields[o]) && ShrunkSlots(h0, b0, h, b, lost)
    requires forall s :: s in h.fields[o] ==> s !in h.ptr
    ensures ShrunkSlots(h0, b0, Freed(h, o), FreedBook(h, b, o), {})
  {
    var h', b' := Freed(h, o), FreedBook(h, b, o);
    forall s | s in b0.home && b0.home[s] == o ensures s in h.fields[o] {
      assert s in h0.fields[b0.home[s]];
    }
    forall s | s in h.fields[o] ensures s in b0.home && b0.home[s] == o {
      assert s in h0.fields[o];
    }
  }

  /** Some slot of `released` went away. */
  ghost predicate AnyLost(h: Heap, h': Heap, released: set<Slot>) {
    exists s :: s in released && s in h.ptr && s !in h'.ptr
  }

  lemma NoneLost(h: Heap, h': Heap, released: set<Slot>)
    requires h'.ptr == h.ptr
    ensures !AnyLost(h, h', released)
  {
  }

  lemma SamePtrLost(h0: Heap, h: Heap, h': Heap, released: set<Slot>)
    requires h'.ptr == h.ptr
    ensures AnyLost(h0, h', released) <==> AnyLost(h0, h, released)
  {
  }

  lemma SlotLost(h0: Heap, h: Heap, released: set<Slot>, s: Slot)
    requires h.ptr.Keys <= h0.ptr.Keys && s in h.ptr
    ensures AnyLost(h0, h, released + {s}) <==> AnyLost(h0, h, released)
    ensures AnyLost(h0, WithoutSlot(h, s), released) <==> AnyLost(h0, h, released) || s in released
  {
  }

  lemma AnyLostTwice(h0: Heap, h1: Heap, h2: Heap, released: set<Slot>)
    requires h1.ptr.Keys <= h0.ptr.Keys && h2.ptr.Keys <= h1.ptr.Keys
    ensures AnyLost(h0, h2, released) <==> AnyLost(h0, h1, released) || AnyLost(h1, h2, released)
  {
  }

  /** A slot that is being destroyed outlives the cascade it starts. */
  lemma SlotStays(h0: Heap, b0: Book, h: Heap, b: Book, open: set<Slot>, s: Slot)
    requires Shrunk(h0, b0, h, b, {}) && Inv(h, b, open, None) && b.dying == b0.dying
    requires s in h0.ptr && (s in b0.home ==> b0.home[s] in b0.dying)
    ensures s in h.ptr && (s in b.home ==> b.home[s] in b.dying)
  {
  }

  lemma DropSlot(h: Heap, b: Book, open: set<Slot>, s: Slot)
    requires Inv(h, b, open, None) && s in h.ptr
    ensures h.ptr[s].Some? && s !in open ==> Of(s) in b.held && b.held[Of(s)] == h.ptr[s].value
    ensures h.ptr[s].None? || s in open ==> Of(s) !in b.held && Drop(b, Of(s)) == b
    ensures s in open ==> h.ptr[s].Some?
  {
    if h.ptr[s].None? || s in open {
      assert b.held - {Of(s)} == b.held;
    }
  }

  lemma ShrunkAny(h0: Heap, b0: Book, h: Heap, b: Book, s: Slot)
    requires Shrunk(h0, b0, h, b, {}) || (s in h0.ptr && Of(s) in b0.held && Shrunk(h0, Drop(b0, Of(s)), h, b, {}))
    ensures h.ptr.Keys <= h0.ptr.Keys
  {
  }

  lemma SlotGoneShrinks(h0: Heap, b0: Book, h: Heap, b: Book, s: Slot)
    requires Shrunk(h0, b0, h, b, {}) || (s in h0.ptr && Of(s) in b0.held && Shrunk(h0, Drop(b0, Of(s)), h, b, {}))
    ensures Shrunk(h0, b0, WithoutSlot(h, s), b, {s})
  {
  }

  lemma ShrunkParts(h0: Heap, b0: Book, h: Heap, b: Book, lost: set<Slot>)
    requires Shrunk(h0, b0, h, b, lost)
    ensures Positive(h.count) <= Positive(h0.count) && h.ptr.Keys <= h0.ptr.Keys
    ensures forall s :: s in h.ptr ==> h.ptr[s] == h0.ptr[s]
  {
  }

  // ----- Increments, stores and survivors ----------------------------------------------

  /** incStrong ahead of a store; a null pointer takes nothing. */
  function Incremented(h: Heap, other: Option<Obj>): Heap
    requires other.Some? ==> other.value in h.count
  {
    if other.None? then h else h.(count := h.count[other.value := h.count[other.value] + 1])
  }

  function Taken(b: Book, t: Holder, other: Option<Obj>): Book {
    if other.None? then b else b.(held := b.held[t := other.value], unadopted := b.unadopted - {other.value})
  }

  lemma TakenKeeps(h: Heap, b: Book, other: Option<Obj>)
    requires Stable(h, b) && (other.Some? ==> other.value in h.count)
    ensures Inv(Incremented(h, other), Taken(b, Pending, other), {}, None)
  {
    if other.Some? {
      TakenLaid(h, b, other.value);
      TakenCounted(h, b, Pending, other.value);
      TakenSound(h, b, other.value);
      TakenNoGarbage(h, b, other.value);
    }
  }

  lemma TakenLaid(h: Heap, b: Book, o: Obj)
    requires Laid(h, b) && o in h.count
    ensures Laid(Incremented(h, Some(o)), Taken(b, Pending, Some(o)))
  {
    assert Incremented(h, Some(o)).count.Keys == h.count.Keys;
  }

  lemma TakenSound(h: Heap, b: Book, o: Obj)
    requires Sound(h, b, {}) && o in h.count && o !in b.dying
    ensures Sound(Incremented(h, Some(o)), Taken(b, Pending, Some(o)), {})
  {
  }

  lemma TakenCounted(h: Heap, b: Book, t: Holder, o: Obj)
    requires Counted(h, b, None) && t !in b.held && o in h.count
    ensures Counted(Incremented(h, Some(o)), Taken(b, t, Some(o)), None)
  {
    forall x | x in h.count
      ensures Incremented(h, Some(o)).count[x] == |References(Taken(b, t, Some(o)).held, x)|
    {
      ReferencesTaken(b.held, t, o, x);
    }
  }

  lemma TakenNoGarbage(h: Heap, b: Book, o: Obj)
    requires NoGarbage(h, b, None) && Pending !in b.held && o in h.count
    ensures NoGarbage(Incremented(h, Some(o)), Taken(b, Pending, Some(o)), None)
  {
    assert Incremented(h, Some(o)).count.Keys == h.count.Keys;
    forall x | x in h.count && x !in b.dying && x !in Taken(b, Pending, Some(o)).unadopted
      ensures References(Taken(b, Pending, Some(o)).held, x) != {}
    {
      ReferencesTaken(b.held, Pending, o, x);
    }
  }

  /** The book as an assignment of `other` to slot `s` sees it when the old
      pointee is let go: `other` counted ahead, the slot's reference given back. */
  function Exchanged(b: Book, s: Slot, other: Option<Obj>): Book {
    Drop(Taken(b, Pending, other), Of(s))
  }

  /** What is alive once `s` holds `other` instead of what it holds now. */
  ghost function AliveAfter(h: Heap, b: Book, s: Slot, other: Option<Obj>): set<Obj> {
    Survivors(h, Exchanged(b, s, other))
  }

  /** The object the slot lies in, if any, is still alive when the pointer is stored. */
  ghost predicate HolderSurvives(h: Heap, b: Book, s: Slot, other: Option<Obj>) {
    s in b.home ==> b.home[s] in AliveAfter(h, b, s, other)
  }

  lemma SurvivorsByKeys(h: Heap, h': Heap, b: Book)
    requires h'.count.Keys == h.count.Keys
    ensures Survivors(h', b) == Survivors(h, b)
  {
    forall S ensures Supported(h, b, S) <==> Supported(h', b, S) {
    }
  }

  /** After the cascade exactly the survivors are left. */
  lemma AliveAreSurvivors(h0: Heap, b0: Book, h: Heap, b: Book, open: set<Slot>, lost: set<Slot>)
    requires Sound(h, b, open) && NoGarbage(h, b, None) && b.dying == {} && b0.dying == {} && Laid(h0, b0)
    requires ShrunkObjects(h0, b0, h, b) && ShrunkSlots(h0, b0, h, b, lost)
    requires forall t :: t in b.held ==> t in b0.held && b.held[t] == b0.held[t]
    requires Supported(h, b, Survivors(h0, b0))
    ensures h.count.Keys == Survivors(h0, b0)
  {
    var A := h.count.Keys;
    forall o | o in A ensures o in b0.unadopted || HasAnchor(b0, A, o) {
      if o !in b.unadopted {
        assert References(b.held, o) != {};
        var t :| t in References(b.held, o);
        assert Anchored(b0, A, t);
      }
    }
    assert Supported(h0, b0, A);
  }

  /** The slot is still there exactly when the object it lies in is. */
  lemma SlotKept(h0: Heap, b0: Book, h: Heap, b: Book, s: Slot)
    requires Laid(h0, b0) && Shrunk(h0, b0, h, b, {}) && s in h0.ptr
    ensures s in h.ptr <==> (s in b0.home ==> b0.home[s] in h.count)
    ensures AnyLost(h0, h, {s}) <==> s !in h.ptr
  {
  }

  function Stored(h: Heap, s: Slot, other: Option<Obj>): Heap {
    h.(ptr := h.ptr[s := other])
  }

  function StoredBook(b: Book, s: Slot, other: Option<Obj>): Book {
    Taken(Drop(b, Pending), Of(s), other)
  }

  lemma StoreKeeps(h: Heap, b: Book, open: set<Slot>, s: Slot, other: Option<Obj>)
    requires Inv(h, b, open, None) && b.dying == {} && open <= {s} && s in h.ptr && Of(s) !in b.held
    requires if other.Some? then Pending in b.held && b.held[Pending] == other.value else Pending !in b.held
    ensures Stable(Stored(h, s, other), StoredBook(b, s, other))
  {
    hide Laid, Counted, Sound, NoGarbage;
    var b' := StoredBook(b, s, other);
    PendingAdopted(h, b, open);
    StoreBook(h, b, s, other);
    SlotsApart(h, Stored(h, s, other), b');
    StoreSound(h, b, open, s, other);
  }

  lemma PendingAdopted(h: Heap, b: Book, open: set<Slot>)
    requires Sound(h, b, open)
    ensures Pending in b.held ==> b.held[Pending] !in b.unadopted
  {
  }

  lemma StoreBook(h: Heap, b: Book, s: Slot, other: Option<Obj>)
    requires Laid(h, b) && Counted(h, b, None) && NoGarbage(h, b, None) && Of(s) !in b.held
    requires if other.Some? then Pending in b.held && b.held[Pending] == other.value && other.value !in b.unadopted
             else Pending !in b.held
    ensures var b' := StoredBook(b, s, other);
            Laid(h, b') && Counted(h, b', None) && NoGarbage(h, b', None) && b'.dying == b.dying && Pending !in b'.held
  {
    hide Homed, Distinct;
    var b' := StoredBook(b, s, other);
    assert b'.unadopted == b.unadopted;
    if other.Some? {
      forall o
        ensures |References(b'.held, o)| == |References(b.held, o)|
        ensures References(b.held, o) != {} ==> References(b'.held, o) != {}
      {
        ReferencesDropped(b.held, Pending, o);
        ReferencesTaken(b.held - {Pending}, Of(s), other.value, o);
      }
    } else {
      assert b.held - {Pending} == b.held;
    }
  }

  lemma StoreSound(h: Heap, b: Book, open: set<Slot>, s: Slot, other: Option<Obj>)
    requires Sound(h, b, open) && open <= {s} && s in h.ptr && Of(s) !in b.held
    requires if other.Some? then Pending in b.held && b.held[Pending] == other.value else Pending !in b.held
    ensures Sound(Stored(h, s, other), StoredBook(b, s, other), {})
  {
  }

  /** The slots outside deleted objects are left, and only `s` has changed. */
  ghost predicate Redirected(h0: Heap, b0: Book, h: Heap, s: Slot, other: Option<Obj>) {
    && (forall x :: x in h.ptr <==> x in h0.ptr && (x in b0.home ==> b0.home[x] in h.count))
    && (forall x :: x in h.ptr ==> h.ptr[x] == if x == s then other else h0.ptr[x])
  }

  /** The state once the old pointee has been let go: who is alive, whether the
      slot still is, and that the store then completes the assignment. */
  lemma ExchangeDone(h0: Heap, b0: Book, h: Heap, b: Book, open: set<Slot>, s: Slot, other: Option<Obj>)
    requires Stable(h0, b0) && s in h0.ptr && (other.Some? ==> other.value in h0.count)
    requires Inv(h, b, open, None) && b.dying == {} && open <= {s}
    requires Shrunk(Incremented(h0, other), Exchanged(b0, s, other), h, b, {})
    requires Supported(h, b, Survivors(Incremented(h0, other), Exchanged(b0, s, other)))
    ensures h.count.Keys == AliveAfter(h0, b0, s, other)
    ensures s in h.ptr <==> HolderSurvives(h0, b0, s, other)
    ensures AnyLost(Incremented(h0, other), h, {s}) <==> s !in h.ptr
    ensures s in h.ptr ==> Stable(Stored(h, s, other), StoredBook(b, s, other))
    ensures s in h.ptr ==> Redirected(h0, b0, Stored(h, s, other), s, other)
    ensures b.freed == b0.freed + (h0.count.Keys - h.count.Keys)
    ensures s in h.ptr ==> Stored(h, s, other) == Assigned(h0, b0, s, other)
    ensures s in h.ptr ==> StoredBook(b, s, other) == AssignedBook(h0, b0, s, other)
  {
    hide Laid, Counted, Sound, NoGarbage, Supported, Survivors, ShrunkObjects, ShrunkSlots, ShrunkReferences, AnyLost, Redirected;
    hide KeptFields, KeptHomes, Assigned, AssignedBook;
    var h1, b1 := Incremented(h0, other), Exchanged(b0, s, other);
    ExchangeLaid(h0, b0, s, other);
    ExchangeHolders(h, b0, b, s, other);
    AliveAreSurvivors(h1, b1, h, b, open, {});
    SurvivorsByKeys(h1, h0, b1);
    SlotKept(h1, b1, h, b, s);
    FreedAre(h1, b1, h, b);
    if s in h.ptr {
      StoreKeeps(h, b, open, s, other);
      RedirectedByShrinking(h1, b1, h, b, s, other);
      RedirectedFrom(h0, b0, h1, b1, Stored(h, s, other), s, other);
      FramesAre(h1, b1, h, b, {});
      FramesFrom(h0, b0, h1, b1, h.count.Keys);
      AssignDone(h0, b0, Stored(h, s, other), StoredBook(b, s, other), s, other);
    }
  }

  lemma FramesFrom(h0: Heap, b0: Book, h1: Heap, b1: Book, alive: set<Obj>)
    requires h1.fields == h0.fields && b1.home == b0.home
    ensures KeptFields(h1, alive) == KeptFields(h0, alive) && KeptHomes(b1, alive) == KeptHomes(b0, alive)
  {
  }

  lemma ExchangeLaid(h: Heap, b: Book, s: Slot, other: Option<Obj>)
    requires Laid(h, b) && (other.Some? ==> other.value in h.count)
    ensures Laid(Incremented(h, other), Exchanged(b, s, other))
    ensures Incremented(h, other).count.Keys == h.count.Keys
  {
    assert Incremented(h, other).count.Keys == h.count.Keys;
  }

  lemma ExchangeHolders(h: Heap, b0: Book, b: Book, s: Slot, other: Option<Obj>)
    requires ShrunkReferences(Exchanged(b0, s, other), h, b) && Pending !in b0.held
    ensures Of(s) !in b.held
    ensures if other.Some? then Pending in b.held && b.held[Pending] == other.value else Pending !in b.held
    ensures forall t :: t in b.held ==> t in Exchanged(b0, s, other).held && b.held[t] == Exchanged(b0, s, other).held[t]
  {
  }

  lemma FreedAre(h0: Heap, b0: Book, h: Heap, b: Book)
    requires ShrunkObjects(h0, b0, h, b)
    ensures b.freed == b0.freed + (h0.count.Keys - h.count.Keys)
  {
  }

  lemma RedirectedFrom(h0: Heap, b0: Book, h1: Heap, b1: Book, h: Heap, s: Slot, other: Option<Obj>)
    requires Redirected(h1, b1, h, s, other) && h1.ptr == h0.ptr && b1.home == b0.home
    ensures Redirected(h0, b0, h, s, other)
  {
  }

  lemma RedirectedByShrinking(h0: Heap, b0: Book, h: Heap, b: Book, s: Slot, other: Option<Obj>)
    requires Laid(h0, b0) && ShrunkSlots(h0, b0, h, b, {}) && s in h.ptr
    ensures Redirected(h0, b0, Stored(h, s, other), s, other)
  {
  }

  function Allocated(h: Heap, o: Obj, members: seq<Slot>): Heap {
    Heap(h.count[o := 0], h.fields[o := members], h.ptr + (map s | s in members :: None))
  }

  function AllocatedBook(b: Book, o: Obj, members: seq<Slot>): Book {
    b.(home := b.home + (map s | s in members :: o), unadopted := b.unadopted + {o})
  }

  lemma AllocateKeeps(h: Heap, b: Book, o: Obj, members: seq<Slot>)
    requires Stable(h, b) && o !in h.count && o !in b.freed
    requires forall i, j :: 0 <= i < j < |members| ==> members[i] != members[j]
    requires forall s :: s in members ==> s !in h.ptr
    ensures Stable(Allocated(h, o, members), AllocatedBook(b, o, members))
  {
    AllocateLaid(h, b, o, members);
    assert References(b.held, o) == {};
    assert Counted(Allocated(h, o, members), AllocatedBook(b, o, members), None);
    AllocateSound(h, b, o, members);
  }

  lemma AllocateLaid(h: Heap, b: Book, o: Obj, members: seq<Slot>)
    requires Laid(h, b) && Sound(h, b, {}) && b.dying == {} && o !in h.count
    requires forall i, j :: 0 <= i < j < |members| ==> members[i] != members[j]
    requires forall s :: s in members ==> s !in h.ptr
    ensures Laid(Allocated(h, o, members), AllocatedBook(b, o, members))
  {
    hide Homed, Distinct, Sound;
    MembersAreNew(h, b, members);
    HomeGrows(h.fields, b.home, o, members);
    DistinctGrows(h.fields, o, members);
    assert Allocated(h, o, members).fields.Keys == Allocated(h, o, members).count.Keys;
  }

  lemma MembersAreNew(h: Heap, b: Book, members: seq<Slot>)
    requires Laid(h, b) && Sound(h, b, {}) && b.dying == {}
    requires forall s :: s in members ==> s !in h.ptr
    ensures forall s :: s in b.home ==> s !in members
  {
  }

  lemma HomeGrows(fields: map<Obj, seq<Slot>>, home: map<Slot, Obj>, o: Obj, members: seq<Slot>)
    requires Homed(fields, home)
    requires o !in fields && forall s :: s in home ==> s !in members
    ensures Homed(fields[o := members], home + (map s | s in members :: o))
  {
    var f, g := fields[o := members], home + (map s | s in members :: o);
    forall x, s | x in f && s in f[x] ensures s in g && g[s] == x {
      if x != o {
        assert s in home && home[s] == x;
      }
    }
  }

  lemma DistinctGrows(fields: map<Obj, seq<Slot>>, o: Obj, members: seq<Slot>)
    requires Distinct(fields)
    requires forall i, j :: 0 <= i < j < |members| ==> members[i] != members[j]
    ensures Distinct(fields[o := members])
  {
  }

  lemma AllocateSound(h: Heap, b: Book, o: Obj, members: seq<Slot>)
    requires Sound(h, b, {}) && o !in h.count
    requires forall s :: s in members ==> s !in h.ptr
    ensures Sound(Allocated(h, o, members), AllocatedBook(b, o, members), {})
  {
  }

  lemma ConstructKeeps(h: Heap, b: Book, s: Slot, other: Option<Obj>)
    requires Stable(h, b) && s !in h.ptr && (other.Some? ==> other.value in h.count)
    ensures Stable(Stored(Incremented(h, other), s, other), Taken(b, Of(s), other)) && s !in b.home
    ensures Incremented(h, other).count.Keys == h.count.Keys
  {
    hide Laid, Counted, Sound, NoGarbage;
    NewSlot(h, b, s);
    ConstructLaid(h, b, s, other);
    if other.Some? {
      TakenCounted(h, b, Of(s), other.value);
    }
    CountedByCount(Incremented(h, other), Stored(Incremented(h, other), s, other), Taken(b, Of(s), other));
    ConstructSound(h, b, s, other);
    ConstructNoGarbage(h, b, s, other);
  }

  lemma NewSlot(h: Heap, b: Book, s: Slot)
    requires Laid(h, b) && Sound(h, b, {}) && b.dying == {} && s !in h.ptr
    ensures s !in b.home && Of(s) !in b.held
  {
  }

  lemma ConstructLaid(h: Heap, b: Book, s: Slot, other: Option<Obj>)
    requires Laid(h, b) && (other.Some? ==> other.value in h.count)
    ensures Laid(Stored(Incremented(h, other), s, other), Taken(b, Of(s), other))
    ensures Incremented(h, other).count.Keys == h.count.Keys
  {
    assert Incremented(h, other).count.Keys == h.count.Keys;
  }

  lemma CountedByCount(h: Heap, h': Heap, b: Book)
    requires Counted(h, b, None) && h'.count == h.count
    ensures Counted(h', b, None)
  {
  }

  lemma ConstructNoGarbage(h: Heap, b: Book, s: Slot, other: Option<Obj>)
    requires NoGarbage(h, b, None) && Of(s) !in b.held && b.dying == {} && (other.Some? ==> other.value in h.count)
    ensures NoGarbage(Stored(Incremented(h, other), s, other), Taken(b, Of(s), other), None)
  {
    assert Incremented(h, other).count.Keys == h.count.Keys;
    if other.Some? {
      forall x | x in h.count && x !in Taken(b, Of(s), other).unadopted
        ensures References(Taken(b, Of(s), other).held, x) != {}
      {
        ReferencesTaken(b.held, Of(s), other.value, x);
      }
    }
  }

  lemma ConstructSound(h: Heap, b: Book, s: Slot, other: Option<Obj>)
    requires Sound(h, b, {}) && s !in h.ptr && b.dying == {} && (other.Some? ==> other.value in h.count)
    ensures Sound(Stored(Incremented(h, other), s, other), Taken(b, Of(s), other), {})
  {
  }

  lemma PointeeLives(h: Heap, b: Book, s: Slot)
    requires Stable(h, b) && s in h.ptr
    ensures h.ptr[s].Some? ==> h.ptr[s].value in h.count
  {
    assert h.ptr[s].Some? ==> Of(s) in b.held;
  }

  /** Assigning a slot to itself deletes nothing: the count taken ahead stands in
      for the one given back. */
  lemma SelfExchange(h: Heap, b: Book, s: Slot)
    requires Stable(h, b) && s in h.ptr
    ensures AliveAfter(h, b, s, h.ptr[s]) == h.count.Keys
    ensures HolderSurvives(h, b, s, h.ptr[s])
  {
    var b', A := Exchanged(b, s, h.ptr[s]), h.count.Keys;
    forall o | o in A ensures o in b'.unadopted || HasAnchor(b', A, o) {
      if o !in b.unadopted {
        assert References(b.held, o) != {};
        var t :| t in References(b.held, o);
        var t' := if t == Of(s) then Pending else t;
        assert t' in b'.held && b'.held[t'] == o && Anchored(b', A, t');
      }
    }
    assert Supported(h, b', A);
  }

  lemma DestroyDone(h0: Heap, b0: Book, h: Heap, b: Book, s: Slot)
    requires Stable(h0, b0) && s in h0.ptr && s !in b0.home
    requires Inv(h, b, {}, None) && b.dying == {} && Shrunk(h0, b0, h, b, {s}) && s !in h.ptr
    requires Supported(h, b, Survivors(h0, Drop(b0, Of(s))))
    ensures Stable(h, b) && !AnyLost(h0, h, {})
    ensures h.count.Keys == AliveAfter(h0, b0, s, None)
    ensures forall x :: x in h.ptr <==> x in h0.ptr && x != s && (x in b0.home ==> b0.home[x] in h.count)
    ensures forall x :: x in h.ptr ==> h.ptr[x] == h0.ptr[x]
    ensures b.freed == b0.freed + (h0.count.Keys - h.count.Keys)
    ensures h == Destroyed(h0, b0, s) && b == DestroyedBook(h0, b0, s)
  {
    hide Laid, Counted, Supported, Survivors, ShrunkObjects, ShrunkSlots, ShrunkReferences, AnyLost;
    hide KeptFields, KeptHomes, KeptSlots, Collected, CollectedBook;
    ReferencesLeft(b0, h, b, s);
    DropIsLocal(h0, b0, h, b, s);
    AliveAreSurvivors(h0, Drop(b0, Of(s)), h, b, {}, {s});
    FreedAre(h0, b0, h, b);
    SlotsLeft(h0, b0, h, b, s);
    FramesAre(h0, b0, h, b, {s});
    DestroyedSlots(h0, b0, h, s);
    CollectedDone(h0, b0, h, b, h0.ptr - {s});
  }

  lemma DestroyedSlots(h0: Heap, b0: Book, h: Heap, s: Slot)
    requires forall x :: x in h.ptr <==> x in h0.ptr && x != s && (x in b0.home ==> b0.home[x] in h.count)
    requires forall x :: x in h.ptr ==> h.ptr[x] == h0.ptr[x]
    ensures h.ptr == KeptSlots(b0, h.count.Keys, h0.ptr - {s})
  {
  }

  lemma ReferencesLeft(b0: Book, h: Heap, b: Book, s: Slot)
    requires ShrunkReferences(b0, h, b) && Sound(h, b, {}) && s !in h.ptr && Pending !in b0.held
    ensures Pending !in b.held
    ensures forall t :: t in b.held ==> t in Drop(b0, Of(s)).held && b.held[t] == Drop(b0, Of(s)).held[t]
  {
  }

  lemma DropIsLocal(h0: Heap, b0: Book, h: Heap, b: Book, s: Slot)
    requires Laid(h0, b0) && ShrunkObjects(h0, b0, h, b) && ShrunkSlots(h0, b0, h, b, {s})
    ensures Laid(h0, Drop(b0, Of(s)))
    ensures ShrunkObjects(h0, Drop(b0, Of(s)), h, b) && ShrunkSlots(h0, Drop(b0, Of(s)), h, b, {s})
  {
    assert Laid(h0, Drop(b0, Of(s)));
    assert ShrunkObjects(h0, Drop(b0, Of(s)), h, b);
  }

  lemma SlotsLeft(h0: Heap, b0: Book, h: Heap, b: Book, s: Slot)
    requires ShrunkSlots(h0, b0, h, b, {s}) && Laid(h0, b0) && s !in h.ptr
    ensures !AnyLost(h0, h, {})
    ensures forall x :: x in h.ptr <==> x in h0.ptr && x != s && (x in b0.home ==> b0.home[x] in h.count)
    ensures forall x :: x in h.ptr ==> h.ptr[x] == h0.ptr[x]
  {
  }

  lemma SelfRedirected(h0: Heap, b0: Book, h: Heap, s: Slot)
    requires Stable(h0, b0) && s in h0.ptr && Redirected(h0, b0, h, s, h0.ptr[s]) && h.count.Keys == h0.count.Keys
    ensures h.ptr == h0.ptr
  {
  }

  // ----- What an operation leaves, as a value ---------------------------------------------

  /** The references that slots stand for. */
  function HeldBy(ptr: map<Slot, Option<Obj>>): map<Holder, Obj> {
    map s | s in ptr && ptr[s].Some? :: Of(s) := ptr[s].value
  }

  /** A quiescent heap with these objects and slots: every count is recounted. */
  function Rebuilt(fields: map<Obj, seq<Slot>>, ptr: map<Slot, Option<Obj>>): Heap {
    Heap(map o | o in fields :: |References(HeldBy(ptr), o)|, fields, ptr)
  }

  function RebuiltBook(ptr: map<Slot, Option<Obj>>, home: map<Slot, Obj>, unadopted: set<Obj>, freed: set<Obj>): Book {
    Book(HeldBy(ptr), home, {}, unadopted, freed)
  }

  /** A quiescent heap is determined by its objects and slots. */
  lemma StableIsRebuilt(h: Heap, b: Book)
    requires Stable(h, b)
    ensures h == Rebuilt(h.fields, h.ptr) && b == RebuiltBook(h.ptr, b.home, b.unadopted, b.freed)
  {
    hide Homed, Distinct, NoGarbage, Sound, HeldBy;
    HeldIsHeldBy(h, b);
    Recounted(h, b);
  }

  lemma Recounted(h: Heap, b: Book)
    requires h.fields.Keys == h.count.Keys && Counted(h, b, None)
    ensures h.count == map o | o in h.fields :: |References(b.held, o)|
  {
  }

  lemma HeldIsHeldBy(h: Heap, b: Book)
    requires Sound(h, b, {}) && Pending !in b.held
    ensures b.held == HeldBy(h.ptr)
  {
    forall t ensures t in b.held <==> t in HeldBy(h.ptr) {
      if t in b.held {
        assert t == Of(t.slot) && t.slot in h.ptr;
      }
    }
    forall t | t in b.held ensures b.held[t] == HeldBy(h.ptr)[t] {
      assert t == Of(t.slot);
    }
  }

  /** The slot does not lie in an object outside `alive`. */
  predicate Kept(b: Book, alive: set<Obj>, s: Slot) {
    s in b.home ==> b.home[s] in alive
  }

  function KeptSlots(b: Book, alive: set<Obj>, ptr: map<Slot, Option<Obj>>): map<Slot, Option<Obj>> {
    map s | s in ptr && Kept(b, alive, s) :: ptr[s]
  }

  function KeptFields(h: Heap, alive: set<Obj>): map<Obj, seq<Slot>> {
    map o | o in h.fields && o in alive :: h.fields[o]
  }

  function KeptHomes(b: Book, alive: set<Obj>): map<Slot, Obj> {
    map s | s in b.home && b.home[s] in alive :: b.home[s]
  }

  /** All objects outside `alive` gone at once, with their members. */
  function Collected(h: Heap, b: Book, ptr: map<Slot, Option<Obj>>, alive: set<Obj>): Heap {
    Rebuilt(KeptFields(h, alive), KeptSlots(b, alive, ptr))
  }

  function CollectedBook(h: Heap, b: Book, ptr: map<Slot, Option<Obj>>, alive: set<Obj>, unadopted: set<Obj>): Book {
    RebuiltBook(KeptSlots(b, alive, ptr), KeptHomes(b, alive), unadopted, b.freed + (h.count.Keys - alive))
  }

  function Adopted(b: Book, other: Option<Obj>): set<Obj> {
    if other.Some? then b.unadopted - {other.value} else b.unadopted
  }

  /** The assignment as one step: redirect the slot, then drop what nothing keeps. */
  ghost function Assigned(h: Heap, b: Book, s: Slot, other: Option<Obj>): Heap {
    Collected(h, b, h.ptr[s := other], AliveAfter(h, b, s, other))
  }

  ghost function AssignedBook(h: Heap, b: Book, s: Slot, other: Option<Obj>): Book {
    CollectedBook(h, b, h.ptr[s := other], AliveAfter(h, b, s, other), Adopted(b, other))
  }

  ghost function Destroyed(h: Heap, b: Book, s: Slot): Heap {
    Collected(h, b, h.ptr - {s}, AliveAfter(h, b, s, None))
  }

  ghost function DestroyedBook(h: Heap, b: Book, s: Slot): Book {
    CollectedBook(h, b, h.ptr - {s}, AliveAfter(h, b, s, None), b.unadopted)
  }

  /** `alive` is closed under the slots it keeps, and each of its objects is kept by one. */
  ghost predicate Closed(h: Heap, b: Book, ptr: map<Slot, Option<Obj>>, alive: set<Obj>, unadopted: set<Obj>) {
    && unadopted <= alive <= h.count.Keys
    && (forall s :: s in ptr && Kept(b, alive, s) && ptr[s].Some? ==> ptr[s].value in alive && ptr[s].value !in unadopted)
    && (forall o :: o in alive && o !in unadopted ==> exists s :: PointsFrom(b, ptr, alive, s, o))
    && (forall o, s :: o in h.fields && o in alive && s in h.fields[o] ==> s in ptr)
  }

  predicate PointsFrom(b: Book, ptr: map<Slot, Option<Obj>>, alive: set<Obj>, s: Slot, o: Obj) {
    s in ptr && Kept(b, alive, s) && ptr[s] == Some(o)
  }

  lemma CollectedStable(h: Heap, b: Book, ptr: map<Slot, Option<Obj>>, alive: set<Obj>, unadopted: set<Obj>)
    requires Stable(h, b) && Closed(h, b, ptr, alive, unadopted)
    ensures Stable(Collected(h, b, ptr, alive), CollectedBook(h, b, ptr, alive, unadopted))
    ensures Collected(h, b, ptr, alive).count.Keys == alive
  {
    hide Homed, Distinct, Sound, NoGarbage;
    var h', b' := Collected(h, b, ptr, alive), CollectedBook(h, b, ptr, alive, unadopted);
    assert h'.count.Keys == h'.fields.Keys == alive;
    CollectedHomed(h, b, alive);
    CollectedDistinct(h, alive);
    CollectedSound(h, b, ptr, alive, unadopted);
    CollectedNoGarbage(h, b, ptr, alive, unadopted);
    assert Counted(h', b', None);
  }

  lemma CollectedHomed(h: Heap, b: Book, alive: set<Obj>)
    requires Homed(h.fields, b.home)
    ensures Homed(KeptFields(h, alive), KeptHomes(b, alive))
  {
  }

  lemma CollectedDistinct(h: Heap, alive: set<Obj>)
    requires Distinct(h.fields)
    ensures Distinct(KeptFields(h, alive))
  {
  }

  lemma CollectedSound(h: Heap, b: Book, ptr: map<Slot, Option<Obj>>, alive: set<Obj>, unadopted: set<Obj>)
    requires Laid(h, b) && Closed(h, b, ptr, alive, unadopted)
    ensures Sound(Collected(h, b, ptr, alive), CollectedBook(h, b, ptr, alive, unadopted), {})
  {
    var kept := KeptSlots(b, alive, ptr);
    forall o, s | o in KeptFields(h, alive) && s in h.fields[o] ensures s in kept {
      assert s in b.home && b.home[s] == o;
    }
  }

  lemma CollectedNoGarbage(h: Heap, b: Book, ptr: map<Slot, Option<Obj>>, alive: set<Obj>, unadopted: set<Obj>)
    requires NoGarbage(h, b, None) && h.fields.Keys == h.count.Keys && Closed(h, b, ptr, alive, unadopted)
    ensures NoGarbage(Collected(h, b, ptr, alive), CollectedBook(h, b, ptr, alive, unadopted), None)
  {
    var kept := KeptSlots(b, alive, ptr);
    assert KeptFields(h, alive).Keys == alive;
    forall o | o in alive && o !in unadopted ensures References(HeldBy(kept), o) != {} {
      var s :| PointsFrom(b, ptr, alive, s, o);
      assert Of(s) in References(HeldBy(kept), o);
    }
  }

  /** The survivors are the greatest supported set. */
  lemma JoinsSurvivors(h: Heap, b: Book, o: Obj)
    requires o in h.count && o !in b.dying
    requires o in b.unadopted || HasAnchor(b, Survivors(h, b), o)
    ensures o in Survivors(h, b)
  {
    var U := Survivors(h, b);
    SurvivorsSupported(h, b);
    var S := U + {o};
    forall x | x in S ensures x in b.unadopted || HasAnchor(b, S, x) {
      if x !in b.unadopted {
        var t :| t in b.held && b.held[t] == x && Anchored(b, U, t);
        assert Anchored(b, S, t);
      }
    }
    assert Supported(h, b, S);
  }

  lemma SurvivorsAnchored(h: Heap, b: Book, o: Obj)
    requires o in Survivors(h, b)
    ensures o in h.count && (o in b.unadopted || HasAnchor(b, Survivors(h, b), o))
  {
    SurvivorsSupported(h, b);
  }

  /** Holders of the exchanged book, slot by slot. */
  lemma ExchangedHolders(h: Heap, b: Book, s: Slot, other: Option<Obj>, x: Slot)
    requires Stable(h, b) && x != s
    ensures var b' := Exchanged(b, s, other);
            Of(x) in b'.held <==> x in h.ptr && h.ptr[x].Some?
    ensures Of(x) in b.held ==> b.held[Of(x)] in h.count && Exchanged(b, s, other).held[Of(x)] == b.held[Of(x)]
    ensures Of(x) in b.held ==> h.ptr[x] == Some(b.held[Of(x)]) && b.held[Of(x)] !in b.unadopted
  {
  }

  /** A redirected slot, or none: what the exchanged book says of `ptr`. */
  ghost predicate Redirects(h: Heap, b: Book, s: Slot, other: Option<Obj>, ptr: map<Slot, Option<Obj>>) {
    && (forall x :: x in ptr && x != s ==> x in h.ptr && ptr[x] == h.ptr[x])
    && (forall x :: x in h.ptr && x != s ==> x in ptr)
    && (if s in ptr then ptr[s] == other && HolderSurvives(h, b, s, other) else other == None && s !in b.home)
  }

  lemma ExchangeCloses(h: Heap, b: Book, s: Slot, other: Option<Obj>, ptr: map<Slot, Option<Obj>>)
    requires Stable(h, b) && s in h.ptr && (other.Some? ==> other.value in h.count)
    requires Redirects(h, b, s, other, ptr)
    ensures Closed(h, b, ptr, AliveAfter(h, b, s, other), Adopted(b, other))
  {
    hide Stable, Survivors, HasAnchor;
    var b', alive := Exchanged(b, s, other), AliveAfter(h, b, s, other);
    StableParts(h, b);
    forall o | o in Adopted(b, other) ensures o in alive {
      JoinsSurvivors(h, b', o);
    }
    forall o | o in alive ensures o in h.count {
      SurvivorsAnchored(h, b', o);
    }
    forall x | x in ptr && Kept(b, alive, x) && ptr[x].Some?
      ensures ptr[x].value in alive && ptr[x].value !in Adopted(b, other)
    {
      SlotTargetLives(h, b, s, other, ptr, x);
    }
    forall o | o in alive && o !in Adopted(b, other) ensures exists x :: PointsFrom(b, ptr, alive, x, o) {
      SurvivorPointedAt(h, b, s, other, ptr, o);
    }
  }

  lemma StableParts(h: Heap, b: Book)
    requires Stable(h, b)
    ensures b.dying == {} && b.unadopted <= h.count.Keys
    ensures forall o, s :: o in h.fields && s in h.fields[o] ==> s in h.ptr && s in b.home
  {
  }

  lemma SlotTargetLives(h: Heap, b: Book, s: Slot, other: Option<Obj>, ptr: map<Slot, Option<Obj>>, x: Slot)
    requires Stable(h, b) && s in h.ptr && (other.Some? ==> other.value in h.count)
    requires Redirects(h, b, s, other, ptr) && x in ptr && ptr[x].Some? && Kept(b, AliveAfter(h, b, s, other), x)
    ensures ptr[x].value in AliveAfter(h, b, s, other) && ptr[x].value !in Adopted(b, other)
  {
    hide Survivors, Laid, Counted, Sound, NoGarbage;
    StableParts(h, b);
    var b', alive, o := Exchanged(b, s, other), AliveAfter(h, b, s, other), ptr[x].value;
    if x != s {
      ExchangedHolders(h, b, s, other, x);
    }
    var t := if x == s then Pending else Of(x);
    assert t in b'.held && b'.held[t] == o && Anchored(b', alive, t);
    JoinsSurvivors(h, b', o);
  }

  lemma SurvivorPointedAt(h: Heap, b: Book, s: Slot, other: Option<Obj>, ptr: map<Slot, Option<Obj>>, o: Obj)
    requires Stable(h, b) && s in h.ptr && Redirects(h, b, s, other, ptr)
    requires o in AliveAfter(h, b, s, other) && o !in Adopted(b, other)
    ensures exists x :: PointsFrom(b, ptr, AliveAfter(h, b, s, other), x, o)
  {
    hide Survivors, Laid, Counted, Sound, NoGarbage;
    var b', alive := Exchanged(b, s, other), AliveAfter(h, b, s, other);
    SurvivorsAnchored(h, b', o);
    var t :| t in b'.held && b'.held[t] == o && Anchored(b', alive, t);
    if t.Of? {
      ExchangedHolders(h, b, s, other, t.slot);
      assert PointsFrom(b, ptr, alive, t.slot, o);
    } else {
      assert PointsFrom(b, ptr, alive, s, o);
    }
  }

  lemma AssignedStable(h: Heap, b: Book, s: Slot, other: Option<Obj>)
    requires Stable(h, b) && s in h.ptr && (other.Some? ==> other.value in h.count) && HolderSurvives(h, b, s, other)
    ensures Stable(Assigned(h, b, s, other), AssignedBook(h, b, s, other))
    ensures Assigned(h, b, s, other).count.Keys == AliveAfter(h, b, s, other)
  {
    hide Stable, Survivors, Closed;
    ExchangeCloses(h, b, s, other, h.ptr[s := other]);
    CollectedStable(h, b, h.ptr[s := other], AliveAfter(h, b, s, other), Adopted(b, other));
  }

  lemma DestroyedStable(h: Heap, b: Book, s: Slot)
    requires Stable(h, b) && s in h.ptr && s !in b.home
    ensures Stable(Destroyed(h, b, s), DestroyedBook(h, b, s))
    ensures Destroyed(h, b, s).count.Keys == AliveAfter(h, b, s, None)
  {
    hide Stable, Survivors, Closed;
    ExchangeCloses(h, b, s, None, h.ptr - {s});
    CollectedStable(h, b, h.ptr - {s}, AliveAfter(h, b, s, None), b.unadopted);
  }

  /** A cascade that left the objects of `h` has dropped all others, members and all. */
  lemma FramesAre(h0: Heap, b0: Book, h: Heap, b: Book, lost: set<Slot>)
    requires Laid(h0, b0) && Laid(h, b) && ShrunkObjects(h0, b0, h, b) && ShrunkSlots(h0, b0, h, b, lost)
    ensures h.fields == KeptFields(h0, h.count.Keys) && b.home == KeptHomes(b0, h.count.Keys)
    ensures b.unadopted == b0.unadopted
  {
    assert h.fields.Keys == KeptFields(h0, h.count.Keys).Keys;
    assert b.home.Keys == KeptHomes(b0, h.count.Keys).Keys;
  }

  /** What the cascade and the store leave is the one-step assignment. */
  lemma AssignDone(h0: Heap, b0: Book, h: Heap, b: Book, s: Slot, other: Option<Obj>)
    requires Stable(h, b) && s in h0.ptr && Redirected(h0, b0, h, s, other)
    requires h.count.Keys == AliveAfter(h0, b0, s, other)
    requires h.fields == KeptFields(h0, h.count.Keys) && b.home == KeptHomes(b0, h.count.Keys)
    requires b.unadopted == Adopted(b0, other) && b.freed == b0.freed + (h0.count.Keys - h.count.Keys)
    ensures h == Assigned(h0, b0, s, other) && b == AssignedBook(h0, b0, s, other)
  {
    hide Stable, Survivors, KeptFields, KeptHomes, KeptSlots, Collected, CollectedBook, Redirected;
    RedirectedSlots(h0, b0, h, s, other);
    CollectedDone(h0, b0, h, b, h0.ptr[s := other]);
  }

  lemma RedirectedSlots(h0: Heap, b0: Book, h: Heap, s: Slot, other: Option<Obj>)
    requires s in h0.ptr && Redirected(h0, b0, h, s, other)
    ensures h.ptr == KeptSlots(b0, h.count.Keys, h0.ptr[s := other])
  {
  }

  lemma CollectedDone(h0: Heap, b0: Book, h: Heap, b: Book, ptr: map<Slot, Option<Obj>>)
    requires Stable(h, b) && h.ptr == KeptSlots(b0, h.count.Keys, ptr)
    requires h.fields == KeptFields(h0, h.count.Keys) && b.home == KeptHomes(b0, h.count.Keys)
    requires b.freed == b0.freed + (h0.count.Keys - h.count.Keys)
    ensures h == Collected(h0, b0, ptr, h.count.Keys) && b == CollectedBook(h0, b0, ptr, h.count.Keys, b.unadopted)
  {
    hide Stable, KeptFields, KeptHomes, KeptSlots, Rebuilt, RebuiltBook;
    StableIsRebuilt(h, b);
  }

  // ----- The operations ------------------------------------------------------------------

  class RefCounting {
    var h: Heap
    ghost var b: Book

    // Slots whose reference has been given back while m_ptr still shows the old
    // address, and whether one of them was given back a second time.
    var released: set<Slot>
    var fault: bool

    ghost predicate Valid()
      reads this
    {
      Stable(h, b) && released == {} && !fault
    }

    constructor ()
      ensures Valid() && h == EMPTY_HEAP && b == EMPTY_BOOK
    {
      h := EMPTY_HEAP;
      b := EMPTY_BOOK;
      released := {};
      fault := false;
    }

    /** A new object: LightRefBase starts at zero and the sp members are null.
        Addresses are not reused, so that `freed` can tell deletions apart. */
    method Allocate(o: Obj, members: seq<Slot>)
      requires Valid() && o !in h.count && o !in b.freed
      requires forall i, j :: 0 <= i < j < |members| ==> members[i] != members[j]
      requires forall s :: s in members ==> s !in h.ptr
      modifies this
      ensures Valid()
      ensures h == Allocated(old(h), o, members) && b == AllocatedBook(old(b), o, members)
    {
      AllocateKeeps(h, b, o, members);
      b := AllocatedBook(b, o, members);
      h := Allocated(h, o, members);
    }

    /** sp(), sp(T*) and, with the pointer of another slot, the copy constructor. */
    method Construct(s: Slot, other: Option<Obj>)
      requires Valid() && s !in h.ptr && (other.Some? ==> other.value in h.count)
      modifies this
      ensures Valid()
      ensures h == Stored(Incremented(old(h), other), s, other) && b == Taken(old(b), Of(s), other)
      ensures s !in b.home && h.count.Keys == old(h).count.Keys
    {
      hide Stable;
      ConstructKeeps(h, b, s, other);
      b := Taken(b, Of(s), other);
      h := Stored(Incremented(h, other), s, other);
    }

    /** Assignment from a raw pointer.  It increments before it decrements and
        stores last, so it is safe exactly when the slot is not itself inside an
        object that goes away in between; then exactly the survivors are left. */
    method Assign(s: Slot, other: Option<Obj>) returns (safe: bool)
      requires Valid() && s in h.ptr && (other.Some? ==> other.value in h.count)
      modifies this
      ensures safe <==> HolderSurvives(old(h), old(b), s, other)
      ensures safe ==>
                && Valid()
                && h.count.Keys == AliveAfter(old(h), old(b), s, other)
                && Redirected(old(h), old(b), h, s, other)
                && b.freed == old(b).freed + (old(h).count.Keys - h.count.Keys)
                && h == Assigned(old(h), old(b), s, other) && b == AssignedBook(old(h), old(b), s, other)
    {
      hide Inv, Supported, Survivors, Shrunk, AnyLost, Positive, Redirected, Assigned, AssignedBook;
      TakenKeeps(h, b, other);
      h := Incremented(h, other);
      b := Taken(b, Pending, other);
      ghost var h1, b1 := h, Exchanged(old(b), s, other);
      SurvivorsSupported(h1, b1);
      DropSlot(h, b, {}, s);
      ShrunkSelf(h1, b1, {});
      NoneLost(h1, h1, {s});
      if h.ptr[s].Some? {
        Dropped(h, b, {}, s);
        b := b1;
        released := {s};
        assert {} + {s} == released;
        DecStrong(h.ptr[s].value, Survivors(h1, b1));
      }
      ExchangeDone(old(h), old(b), h, b, released, s, other);
      safe := !fault;
      if safe {
        b := StoredBook(b, s, other);
        h := Stored(h, s, other);
        released := {};
      }
    }

    /** Copy assignment: the source pointer is read first, so the source slot may
        lie inside an object that the assignment deletes, or be the target itself. */
    method AssignFrom(s: Slot, source: Slot) returns (safe: bool)
      requires Valid() && s in h.ptr && source in h.ptr
      modifies this
      ensures safe <==> HolderSurvives(old(h), old(b), s, old(h).ptr[source])
      ensures safe ==>
                && Valid()
                && h.count.Keys == AliveAfter(old(h), old(b), s, old(h).ptr[source])
                && Redirected(old(h), old(b), h, s, old(h).ptr[source])
                && b.freed == old(b).freed + (old(h).count.Keys - h.count.Keys)
                && h == Assigned(old(h), old(b), s, old(h).ptr[source]) && b == AssignedBook(old(h), old(b), s, old(h).ptr[source])
      ensures s == source ==> safe && h.count.Keys == old(h).count.Keys && h.ptr == old(h).ptr
    {
      hide Inv, Survivors, Supported, Assigned, AssignedBook;
      var other := h.ptr[source];
      PointeeLives(h, b, source);
      if s == source {
        SelfExchange(h, b, s);
      }
      safe := Assign(s, other);
      if s == source {
        SelfRedirected(old(h), old(b), h, s);
      }
    }

    /** clear() gives the reference back and stores null, as assigning null does. */
    method Clear(s: Slot) returns (safe: bool)
      requires Valid() && s in h.ptr
      modifies this
      ensures safe <==> HolderSurvives(old(h), old(b), s, None)
      ensures safe ==>
                && Valid()
                && h.count.Keys == AliveAfter(old(h), old(b), s, None)
                && Redirected(old(h), old(b), h, s, None)
                && b.freed == old(b).freed + (old(h).count.Keys - h.count.Keys)
                && h == Assigned(old(h), old(b), s, None) && b == AssignedBook(old(h), old(b), s, None)
    {
      safe := Assign(s, None);
    }

    /** ~sp() of a slot that is not a member of a counted object. */
    method Destroy(s: Slot)
      requires Valid() && s in h.ptr && s !in b.home
      modifies this
      ensures Valid()
      ensures s !in h.ptr
      ensures h.count.Keys == AliveAfter(old(h), old(b), s, None)
      ensures forall x :: x in h.ptr <==> x in old(h).ptr && x != s && (x in old(b).home ==> old(b).home[x] in h.count)
      ensures forall x :: x in h.ptr ==> h.ptr[x] == old(h).ptr[x]
      ensures b.freed == old(b).freed + (old(h).count.Keys - h.count.Keys)
      ensures h == Destroyed(old(h), old(b), s) && b == DestroyedBook(old(h), old(b), s)
    {
      hide Inv, Supported, Survivors, Shrunk, AnyLost, Positive, Destroyed, DestroyedBook;
      SurvivorsSupported(h, Drop(b, Of(s)));
      DestroySlot(s, Survivors(h, Drop(b, Of(s))));
      DestroyDone(old(h), old(b), h, b, s);
    }

    /** LightRefBase::decStrong: the caller has given up one reference to `o`.
        The objects of any supported set `S` are untouched by the cascade. */
    method DecStrong(o: Obj, ghost S: set<Obj>)
      requires Inv(h, b, released, Some(o)) && Supported(h, b, S)
      modifies this
      ensures Inv(h, b, released, None) && Supported(h, b, S) && released == old(released)
      ensures Shrunk(old(h), old(b), h, b, {}) && b.dying == old(b).dying
      ensures fault == (old(fault) || AnyLost(old(h), h, released))
      decreases Positive(h.count), 0
    {
      hide Inv, Laid, Supported, Shrunk, AnyLost, Positive;
      DecrementKeeps(h, b, released, o, S);
      DecrementShrinks(h, b, released, o);
      ghost var h0, b0 := h, b;
      ghost var none: set<Slot> := {};
      assert none + none == none;
      var was := h.count[o];
      b := DecrementedBook(h, b, o);
      h := Decremented(h, o);
      NoneLost(h0, h, released);
      if was == 1 {
        ghost var h1, b1 := h, b;
        Delete(o, S);
        ShrunkTwice(h0, b0, h1, b1, h, b, none, none);
        ShrunkParts(h1, b1, h, b, {});
        AnyLostTwice(h0, h1, h, released);
      }
    }

    /** The destructor: members are destroyed last to first, then the memory goes. */
    method Delete(o: Obj, ghost S: set<Obj>)
      requires Inv(h, b, released, None) && Supported(h, b, S)
      requires o in b.dying && o in h.fields && (forall s :: s in h.fields[o] ==> s in h.ptr)
      modifies this
      ensures Inv(h, b, released, None) && Supported(h, b, S) && released == old(released)
      ensures Shrunk(old(h), old(b), h, b, {}) && b.dying == old(b).dying - {o}
      ensures o !in h.count && o in b.freed
      ensures fault == (old(fault) || AnyLost(old(h), h, released))
      decreases Positive(h.count), 2
    {
      hide Inv, Laid, Supported, Shrunk, AnyLost, Positive;
      var members := h.fields[o];
      var i := |members|;
      ghost var lost := set s | s in members;
      InvParts(h, b, released);
      ShrunkSelf(h, b, lost);
      NoneLost(h, h, released);
      while i > 0
        invariant 0 <= i <= |members| && released == old(released)
        invariant Inv(h, b, released, None) && Supported(h, b, S)
        invariant b.dying == old(b).dying
        invariant Shrunk(old(h), old(b), h, b, lost)
        invariant o in h.fields && h.fields[o] == members
        invariant forall j :: 0 <= j < i ==> members[j] in h.ptr
        invariant forall j :: i <= j < |members| ==> members[j] !in h.ptr
        invariant fault == (old(fault) || AnyLost(old(h), h, released))
      {
        i := i - 1;
        ghost var h1, b1 := h, b;
        InvParts(h, b, released);
        MemberOfDying(h, b, o, members[i], S);
        ShrunkParts(old(h), old(b), h, b, lost);
        DestroySlot(members[i], S);
        ShrunkTwice(old(h), old(b), h1, b1, h, b, lost, {members[i]});
        ShrunkParts(h1, b1, h, b, {members[i]});
        InvParts(h, b, released);
        MembersLeft(h1, b1, h, b, o, i);
        AnyLostTwice(old(h), h1, h, released);
        assert lost + {members[i]} == lost;
      }
      InvParts(h, b, released);
      FreeKeeps(h, b, released, o, S);
      SamePtrLost(old(h), h, Freed(h, o), released);
      FreeShrinks(old(h), old(b), h, b, o, lost);
      b := FreedBook(h, b, o);
      h := Freed(h, o);
    }

    /** ~sp(): m_ptr is not cleared, the slot just ceases to exist. */
    method DestroySlot(s: Slot, ghost S: set<Obj>)
      requires Inv(h, b, released, None) && Supported(h, Drop(b, Of(s)), S)
      requires s in h.ptr && (s in b.home ==> b.home[s] in b.dying)
      modifies this
      ensures Inv(h, b, released, None) && Supported(h, b, S) && released == old(released)
      ensures Shrunk(old(h), old(b), h, b, {s}) && b.dying == old(b).dying
      ensures s !in h.ptr
      ensures fault == (old(fault) || AnyLost(old(h), h, released))
      decreases Positive(h.count), 1
    {
      hide Inv, Laid, Supported, Shrunk, AnyLost, Positive;
      ghost var h0, b0 := h, b;
      DropSlot(h, b, released, s);
      ShrunkSelf(h, b, {});
      NoneLost(h, h, released);
      if h.ptr[s].Some? {
        if s in released {
          fault := true;
        } else {
          Dropped(h, b, released, s);
          b := Drop(b, Of(s));
          released := released + {s};
          DecStrong(h.ptr[s].value, S);
          SlotStays(h0, Drop(b0, Of(s)), h, b, released, s);
          released := released - {s};
        }
      }
      assert released == old(released);
      ShrunkAny(h0, b0, h, b, s);
      SlotLost(h0, h, released, s);
      SlotGone(h, b, released, s, S);
      SlotGoneShrinks(h0, b0, h, b, s);
      h := WithoutSlot(h, s);
    }
  }

  // ----- What a quiescent heap looks like --------------------------------------------------

  function PointingAt(h: Heap, o: Obj): set<Slot> {
    set s | s in h.ptr && h.ptr[s] == Some(o)
  }

  function AsHolders(slots: set<Slot>): set<Holder> {
    set s | s in slots :: Of(s)
  }

  /** Every count is exactly the number of slots that point at the object. */
  lemma CountIsSlots(h: Heap, b: Book, o: Obj)
    requires Stable(h, b) && o in h.count
    ensures h.count[o] == |PointingAt(h, o)|
    ensures h.count[o] == 0 <==> o in b.unadopted
  {
    hide Laid, Sound;
    HoldersAreSlots(h, b, o);
    SlotsAsHolders(PointingAt(h, o));
    if o in b.unadopted {
      UnadoptedHasNone(h, b, o);
    }
  }

  lemma HoldersAreSlots(h: Heap, b: Book, o: Obj)
    requires Sound(h, b, {}) && Pending !in b.held
    ensures References(b.held, o) == AsHolders(PointingAt(h, o))
  {
    forall t | t in References(b.held, o) ensures t in AsHolders(PointingAt(h, o)) {
      assert t == Of(t.slot) && t.slot in PointingAt(h, o);
    }
    forall t | t in AsHolders(PointingAt(h, o)) ensures t in References(b.held, o) {
      assert Of(t.slot) in b.held;
    }
  }

  lemma UnadoptedHasNone(h: Heap, b: Book, o: Obj)
    requires Sound(h, b, {}) && o in b.unadopted
    ensures References(b.held, o) == {}
  {
  }

  lemma {:induction false} SlotsAsHolders(slots: set<Slot>)
    ensures |AsHolders(slots)| == |slots|
  {
    if slots != {} {
      var x :| x in slots;
      SlotsAsHolders(slots - {x});
      assert AsHolders(slots) == AsHolders(slots - {x}) + {Of(x)};
    }
  }

  /** A chain of pointers that starts in a slot outside all counted objects. */
  ghost predicate Path(h: Heap, b: Book, path: seq<Slot>) {
    && (forall i :: 0 <= i < |path| ==> path[i] in h.ptr && h.ptr[path[i]].Some?)
    && (path != [] ==> path[0] !in b.home)
    && (forall i :: 0 < i < |path| ==> path[i] in b.home && h.ptr[path[i - 1]] == Some(b.home[path[i]]))
  }

  /** Whatever can be reached from outside without passing through `s` survives an
      assignment to `s`; so a slot reachable that way can be assigned safely. */
  lemma ReachableSurvives(h: Heap, b: Book, s: Slot, other: Option<Obj>, path: seq<Slot>, i: nat)
    requires Stable(h, b) && Path(h, b, path) && s !in path && i < |path|
    ensures h.ptr[path[i]].value in AliveAfter(h, b, s, other)
  {
    hide Laid, Counted, Sound, NoGarbage;
    var b' := Exchanged(b, s, other);
    var S := set j | 0 <= j < |path| :: h.ptr[path[j]].value;
    forall o | o in S ensures o in h.count && HasAnchor(b', S, o) {
      var j :| 0 <= j < |path| && o == h.ptr[path[j]].value;
      assert j > 0 ==> h.ptr[path[j - 1]].value in S;
      PathHolder(h, b, s, other, path, j);
      assert Anchored(b', S, Of(path[j]));
    }
    assert Supported(h, b', S);
  }

  lemma PathHolder(h: Heap, b: Book, s: Slot, other: Option<Obj>, path: seq<Slot>, j: nat)
    requires Sound(h, b, {}) && Path(h, b, path) && s !in path && j < |path|
    ensures var b', t, o := Exchanged(b, s, other), Of(path[j]), h.ptr[path[j]].value;
            t in b'.held && b'.held[t] == o && o in h.count
    ensures path[j] in b.home ==> j > 0 && b.home[path[j]] == h.ptr[path[j - 1]].value
  {
    assert Of(path[j]) in b.held;
  }

  // ----- Runs ---------------------------------------------------------------------------------

  datatype Operation =
    | AllocateOp(o: Obj, members: seq<Slot>)
    | ConstructOp(s: Slot, other: Option<Obj>)
    | CopyOp(s: Slot, source: Slot)
    | AssignOp(s: Slot, other: Option<Obj>)
    | AssignFromOp(s: Slot, source: Slot)
    | ClearOp(s: Slot)
    | DestroyOp(s: Slot)

  predicate PointsWell(h: Heap, other: Option<Obj>) {
    other.Some? ==> other.value in h.count
  }

  /** What C++ asks of the caller: objects and slots are made where there are none,
      raw pointers point at objects, and member slots are left to their object. */
  ghost predicate Legal(h: Heap, b: Book, op: Operation) {
    match op
    case AllocateOp(o, members) =>
      && o !in h.count && o !in b.freed
      && (forall i, j :: 0 <= i < j < |members| ==> members[i] != members[j])
      && (forall s :: s in members ==> s !in h.ptr)
    case ConstructOp(s, other) => s !in h.ptr && PointsWell(h, other)
    case CopyOp(s, source) => s !in h.ptr && source in h.ptr
    case AssignOp(s, other) => s in h.ptr && PointsWell(h, other)
    case AssignFromOp(s, source) => s in h.ptr && source in h.ptr
    case ClearOp(s) => s in h.ptr
    case DestroyOp(s) => s in h.ptr && s !in b.home
  }

  /** What the operation makes the slot point at. */
  function Target(h: Heap, op: Operation): Option<Obj> {
    match op
    case ConstructOp(_, other) => other
    case AssignOp(_, other) => other
    case CopyOp(_, source) => if source in h.ptr then h.ptr[source] else None
    case AssignFromOp(_, source) => if source in h.ptr then h.ptr[source] else None
    case AllocateOp(_, _) => None
    case ClearOp(_) => None
    case DestroyOp(_) => None
  }

  predicate Assigns(op: Operation) {
    op.AssignOp? || op.AssignFromOp? || op.ClearOp?
  }

  /** The object that holds the assigned slot outlives the assignment. */
  ghost predicate Safe(h: Heap, b: Book, op: Operation) {
    Assigns(op) ==> HolderSurvives(h, b, op.s, Target(h, op))
  }

  datatype State = State(heap: Heap, book: Book)

  ghost function Next(h: Heap, b: Book, op: Operation): State
    requires Legal(h, b, op) && PointsWell(h, Target(h, op))
  {
    var other := Target(h, op);
    match op
    case AllocateOp(o, members) => State(Allocated(h, o, members), AllocatedBook(b, o, members))
    case ConstructOp(s, _) => State(Stored(Incremented(h, other), s, other), Taken(b, Of(s), other))
    case CopyOp(s, _) => State(Stored(Incremented(h, other), s, other), Taken(b, Of(s), other))
    case AssignOp(s, _) => State(Assigned(h, b, s, other), AssignedBook(h, b, s, other))
    case AssignFromOp(s, _) => State(Assigned(h, b, s, other), AssignedBook(h, b, s, other))
    case ClearOp(s) => State(Assigned(h, b, s, other), AssignedBook(h, b, s, other))
    case DestroyOp(s) => State(Destroyed(h, b, s), DestroyedBook(h, b, s))
  }

  /** The state after the first `n` operations; None once one was not legal or not safe. */
  ghost function Run(ops: seq<Operation>, n: nat): Option<State>
    requires n <= |ops|
  {
    if n == 0 then Some(State(EMPTY_HEAP, EMPTY_BOOK))
    else
      var r := Run(ops, n - 1);
      if r.None? || !Goes(r.value, ops[n - 1]) then None
      else Some(Next(r.value.heap, r.value.book, ops[n - 1]))
  }

  ghost predicate Goes(r: State, op: Operation) {
    Legal(r.heap, r.book, op) && PointsWell(r.heap, Target(r.heap, op)) && Safe(r.heap, r.book, op)
  }

  /** Only raw pointers can be bad: a slot always points at an object. */
  lemma TargetLives(h: Heap, b: Book, op: Operation)
    requires Stable(h, b) && Legal(h, b, op)
    ensures PointsWell(h, Target(h, op))
  {
    hide Stable;
    if op.CopyOp? || op.AssignFromOp? {
      PointeeLives(h, b, op.source);
    }
  }

  lemma NextStable(h: Heap, b: Book, op: Operation)
    requires Stable(h, b) && Goes(State(h, b), op)
    ensures Stable(Next(h, b, op).heap, Next(h, b, op).book)
  {
    hide Stable, HolderSurvives, Assigned, AssignedBook, Destroyed, DestroyedBook;
    if op.AllocateOp? {
      AllocateKeeps(h, b, op.o, op.members);
    } else if op.DestroyOp? {
      DestroyedStable(h, b, op.s);
    } else if Assigns(op) {
      AssignedStable(h, b, op.s, Target(h, op));
    } else {
      ConstructKeeps(h, b, op.s, Target(h, op));
    }
  }

  lemma {:induction false} RunStable(ops: seq<Operation>, n: nat)
    requires n <= |ops| && Run(ops, n).Some?
    ensures Stable(Run(ops, n).value.heap, Run(ops, n).value.book)
  {
    hide Stable, Goes, Next;
    if n == 0 {
      StartStable();
    } else {
      RunStable(ops, n - 1);
      NextStable(Run(ops, n - 1).value.heap, Run(ops, n - 1).value.book, ops[n - 1]);
    }
  }

  lemma StartStable()
    ensures Stable(EMPTY_HEAP, EMPTY_BOOK)
  {
  }

  /** After any run, every count is the number of slots that point at the object, it
      is zero only for an object never yet pointed at, and no slot dangles. */
  lemma RunCounts(ops: seq<Operation>, n: nat, o: Obj, s: Slot)
    requires n <= |ops| && Run(ops, n).Some?
    ensures var r := Run(ops, n).value;
            && (o in r.heap.count ==> r.heap.count[o] == |PointingAt(r.heap, o)|)
            && (o in r.heap.count ==> (r.heap.count[o] == 0 <==> o in r.book.unadopted))
            && (s in r.heap.ptr && r.heap.ptr[s].Some? ==> r.heap.ptr[s].value in r.heap.count)
  {
    hide Stable, Run;
    RunStable(ops, n);
    var r := Run(ops, n).value;
    if o in r.heap.count {
      CountIsSlots(r.heap, r.book, o);
    }
    if s in r.heap.ptr {
      PointeeLives(r.heap, r.book, s);
    }
  }

  function Made(ops: seq<Operation>, n: nat): set<Obj>
    requires n <= |ops|
  {
    set i | 0 <= i < n && ops[i].AllocateOp? :: ops[i].o
  }

  /** Every object ever made is alive or deleted, never both; a deleted one stays so. */
  lemma {:induction false} RunConserves(ops: seq<Operation>, n: nat)
    requires n <= |ops| && Run(ops, n).Some?
    ensures var r := Run(ops, n).value;
            r.heap.count.Keys + r.book.freed == Made(ops, n) && r.heap.count.Keys !! r.book.freed
    ensures n > 0 ==> Run(ops, n - 1).Some? && Run(ops, n - 1).value.book.freed <= Run(ops, n).value.book.freed
  {
    hide Stable, Goes, Next;
    RunStable(ops, n);
    FreedIsGone(Run(ops, n).value.heap, Run(ops, n).value.book);
    if n > 0 {
      RunConserves(ops, n - 1);
      RunStable(ops, n - 1);
      NextConserves(Run(ops, n - 1).value.heap, Run(ops, n - 1).value.book, ops[n - 1]);
      MadeGrows(ops, n);
    }
  }

  lemma FreedIsGone(h: Heap, b: Book)
    requires Stable(h, b)
    ensures h.count.Keys !! b.freed
  {
  }

  lemma MadeGrows(ops: seq<Operation>, n: nat)
    requires 0 < n <= |ops|
    ensures Made(ops, n) == Made(ops, n - 1) + if ops[n - 1].AllocateOp? then {ops[n - 1].o} else {}
  {
  }

  lemma NextConserves(h: Heap, b: Book, op: Operation)
    requires Stable(h, b) && Goes(State(h, b), op)
    ensures var r := Next(h, b, op);
            && b.freed <= r.book.freed
            && r.heap.count.Keys + r.book.freed == h.count.Keys + b.freed + if op.AllocateOp? then {op.o} else {}
  {
    hide Stable, HolderSurvives, AliveAfter;
    if op.DestroyOp? {
      DestroyedStable(h, b, op.s);
      AliveWasAlive(h, b, op.s, None);
    } else if Assigns(op) {
      AssignedStable(h, b, op.s, Target(h, op));
      AliveWasAlive(h, b, op.s, Target(h, op));
    }
  }

  lemma AliveWasAlive(h: Heap, b: Book, s: Slot, other: Option<Obj>)
    ensures AliveAfter(h, b, s, other) <= h.count.Keys
  {
  }

  /** The code, started on an empty heap, goes through exactly the states of the run. */
  method Perform(ops: seq<Operation>, n: nat) returns (r: RefCounting)
    requires n <= |ops| && Run(ops, n).Some?
    ensures r.Valid() && fresh(r) && Run(ops, n) == Some(State(r.h, r.b))
  {
    hide Stable, Next, Legal, Safe;
    r := new RefCounting();
    var i := 0;
    while i < n
      invariant 0 <= i <= n
      invariant r.Valid() && fresh(r) && Run(ops, i) == Some(State(r.h, r.b))
    {
      RunPrefix(ops, i + 1, n);
      var safe := PerformOne(r, ops[i]);
      i := i + 1;
    }
  }

  lemma {:induction false} RunPrefix(ops: seq<Operation>, n: nat, m: nat)
    requires n <= m <= |ops| && Run(ops, m).Some?
    ensures Run(ops, n).Some?
    decreases m - n
  {
    hide Next, Goes;
    if n < m {
      RunPrefix(ops, n + 1, m);
    }
  }

  method PerformOne(r: RefCounting, op: Operation) returns (safe: bool)
    requires r.Valid() && Legal(r.h, r.b, op)
    modifies r
    ensures PointsWell(old(r.h), Target(old(r.h), op))
    ensures safe <==> Safe(old(r.h), old(r.b), op)
    ensures safe ==> r.Valid() && State(r.h, r.b) == Next(old(r.h), old(r.b), op)
  {
    hide Stable, HolderSurvives, Assigned, AssignedBook, Destroyed, DestroyedBook, AliveAfter, Redirected;
    TargetLives(r.h, r.b, op);
    safe := true;
    match op
    case AllocateOp(o, members) => r.Allocate(o, members);
    case ConstructOp(s, other) => r.Construct(s, other);
    case CopyOp(s, source) => r.Construct(s, r.h.ptr[source]);
    case AssignOp(s, other) => safe := r.Assign(s, other);
    case AssignFromOp(s, source) => safe := r.AssignFrom(s, source);
    case ClearOp(s) => safe := r.Clear(s);
    case DestroyOp(s) => r.Destroy(s);
  }

  // ----- What each operation of a run does -----------------------------------------------------

  /** Every slot but `s` that is not inside an object that went away points where it did. */
  ghost predicate OtherSlotsKept(r: State, r': State, s: Slot) {
    && (forall x :: x != s ==>
          (x in r'.heap.ptr <==> x in r.heap.ptr && (x in r.book.home ==> r.book.home[x] in r'.heap.count)))
    && (forall x :: x != s && x in r'.heap.ptr ==> r'.heap.ptr[x] == r.heap.ptr[x])
  }

  /** The objects that went away are the ones freed; nothing else happened to objects. */
  ghost predicate GoneAreFreed(r: State, r': State) {
    && r'.heap.count.Keys <= r.heap.count.Keys
    && r'.book.freed == r.book.freed + (r.heap.count.Keys - r'.heap.count.Keys)
    && (forall o :: o in r'.heap.fields <==> o in r'.heap.count)
    && (forall o :: o in r'.heap.fields ==> o in r.heap.fields && r'.heap.fields[o] == r.heap.fields[o])
  }

  /** A new slot `s` that points at `other`: one count grows by one, and that is all. */
  ghost predicate SlotMade(r: State, r': State, s: Slot, other: Option<Obj>) {
    && r'.heap.ptr == r.heap.ptr[s := other]
    && r'.heap.count.Keys == r.heap.count.Keys
    && (forall o :: o in r.heap.count ==> r'.heap.count[o] == r.heap.count[o] + if other == Some(o) then 1 else 0)
    && r'.heap.fields == r.heap.fields && r'.book.home == r.book.home && r'.book.freed == r.book.freed
  }

  /** The slot `s` points at `other`, and what nothing needs any more is gone. */
  ghost predicate SlotSet(r: State, r': State, s: Slot, other: Option<Obj>) {
    && s in r'.heap.ptr && r'.heap.ptr[s] == other
    && OtherSlotsKept(r, r', s) && GoneAreFreed(r, r')
    && r'.heap.count.Keys == AliveAfter(r.heap, r.book, s, other)
  }

  /** sp(other): possible exactly for a new slot and an object that is there. */
  lemma ConstructDoes(ops: seq<Operation>, n: nat, s: Slot, other: Option<Obj>)
    requires n < |ops| && Run(ops, n).Some? && ops[n] == ConstructOp(s, other)
    ensures var r, r' := Run(ops, n).value, Run(ops, n + 1);
            && (r'.Some? <==> s !in r.heap.ptr && (other.Some? ==> other.value in r.heap.count))
            && (r'.Some? ==> SlotMade(r, r'.value, s, other))
  {
    hide HolderSurvives;
  }

  /** sp(source): the new slot points where the source does. */
  lemma CopyDoes(ops: seq<Operation>, n: nat, s: Slot, source: Slot)
    requires n < |ops| && Run(ops, n).Some? && ops[n] == CopyOp(s, source)
    ensures var r, r' := Run(ops, n).value, Run(ops, n + 1);
            && (r'.Some? <==> s !in r.heap.ptr && source in r.heap.ptr)
            && (r'.Some? ==> SlotMade(r, r'.value, s, r.heap.ptr[source]))
  {
    hide HolderSurvives, Stable;
    RunStable(ops, n);
    var r := Run(ops, n).value;
    if source in r.heap.ptr {
      PointeeLives(r.heap, r.book, source);
    }
  }

  /** Assignment of a raw pointer: possible exactly if the object that holds the slot
      outlives it; then the slot points there. */
  lemma AssignDoes(ops: seq<Operation>, n: nat, s: Slot, other: Option<Obj>)
    requires n < |ops| && Run(ops, n).Some? && ops[n] == AssignOp(s, other)
    ensures var r, r' := Run(ops, n).value, Run(ops, n + 1);
            && (r'.Some? <==> && s in r.heap.ptr && (other.Some? ==> other.value in r.heap.count)
                              && HolderSurvives(r.heap, r.book, s, other))
            && (r'.Some? ==> SlotSet(r, r'.value, s, other))
  {
    hide SlotSet, HolderSurvives, Assigned, AssignedBook, Stable;
    RunStable(ops, n);
    AssignedSets(Run(ops, n).value, s, other);
  }

  lemma AssignFromDoes(ops: seq<Operation>, n: nat, s: Slot, source: Slot)
    requires n < |ops| && Run(ops, n).Some? && ops[n] == AssignFromOp(s, source)
    ensures var r, r' := Run(ops, n).value, Run(ops, n + 1);
            && (r'.Some? <==> s in r.heap.ptr && source in r.heap.ptr
                              && HolderSurvives(r.heap, r.book, s, r.heap.ptr[source]))
            && (r'.Some? ==> SlotSet(r, r'.value, s, r.heap.ptr[source]))
  {
    hide SlotSet, HolderSurvives, Assigned, AssignedBook, Stable;
    RunStable(ops, n);
    var r := Run(ops, n).value;
    if source in r.heap.ptr {
      PointeeLives(r.heap, r.book, source);
      AssignedSets(r, s, r.heap.ptr[source]);
    }
  }

  lemma ClearDoes(ops: seq<Operation>, n: nat, s: Slot)
    requires n < |ops| && Run(ops, n).Some? && ops[n] == ClearOp(s)
    ensures var r, r' := Run(ops, n).value, Run(ops, n + 1);
            && (r'.Some? <==> s in r.heap.ptr && HolderSurvives(r.heap, r.book, s, None))
            && (r'.Some? ==> SlotSet(r, r'.value, s, None))
  {
    hide SlotSet, HolderSurvives, Assigned, AssignedBook, Stable;
    RunStable(ops, n);
    AssignedSets(Run(ops, n).value, s, None);
  }

  /** ~sp(): possible exactly for a slot outside all objects; the slot is gone. */
  lemma DestroyDoes(ops: seq<Operation>, n: nat, s: Slot)
    requires n < |ops| && Run(ops, n).Some? && ops[n] == DestroyOp(s)
    ensures var r, r' := Run(ops, n).value, Run(ops, n + 1);
            && (r'.Some? <==> s in r.heap.ptr && s !in r.book.home)
            && (r'.Some? ==>
                  && s !in r'.value.heap.ptr && OtherSlotsKept(r, r'.value, s) && GoneAreFreed(r, r'.value)
                  && r'.value.heap.count.Keys == AliveAfter(r.heap, r.book, s, None))
  {
    hide HolderSurvives, Destroyed, DestroyedBook, Stable, OtherSlotsKept, GoneAreFreed;
    RunStable(ops, n);
    var r := Run(ops, n).value;
    if s in r.heap.ptr && s !in r.book.home {
      DestroyedSets(r, s);
    }
  }

  /** A new object: count zero, null members, all of them its own. */
  ghost predicate ObjectMade(r: State, r': State, o: Obj, members: seq<Slot>) {
    && r'.heap.count == r.heap.count[o := 0] && r'.heap.fields == r.heap.fields[o := members]
    && (forall x :: x in r'.heap.ptr <==> x in r.heap.ptr || x in members)
    && (forall x :: x in r'.heap.ptr ==> r'.heap.ptr[x] == if x in members then None else r.heap.ptr[x])
    && (forall x :: x in r'.book.home <==> x in r.book.home || x in members)
    && (forall x :: x in r'.book.home ==> r'.book.home[x] == if x in members then o else r.book.home[x])
    && r'.book.freed == r.book.freed
  }

  lemma AllocateDoes(ops: seq<Operation>, n: nat, o: Obj, members: seq<Slot>)
    requires n < |ops| && Run(ops, n).Some? && ops[n] == AllocateOp(o, members)
    ensures var r, r' := Run(ops, n).value, Run(ops, n + 1);
            && (r'.Some? <==>
                  && o !in r.heap.count && o !in r.book.freed
                  && (forall i, j :: 0 <= i < j < |members| ==> members[i] != members[j])
                  && (forall s :: s in members ==> s !in r.heap.ptr))
            && (r'.Some? ==> ObjectMade(r, r'.value, o, members))
  {
    hide HolderSurvives;
  }

  lemma CollectedFrees(r: State, ptr: map<Slot, Option<Obj>>, alive: set<Obj>, unadopted: set<Obj>)
    requires Stable(r.heap, r.book) && alive <= r.heap.count.Keys
    ensures var h, b := r.heap, r.book;
            GoneAreFreed(r, State(Collected(h, b, ptr, alive), CollectedBook(h, b, ptr, alive, unadopted)))
  {
    FieldsAreCounted(r);
    hide Stable;
    var h := r.heap;
    assert Collected(h, r.book, ptr, alive).count.Keys == alive;
  }

  lemma FieldsAreCounted(r: State)
    requires Stable(r.heap, r.book)
    ensures r.heap.fields.Keys == r.heap.count.Keys
  {
  }

  lemma SurvivorsWereThere(h: Heap, b: Book)
    ensures Survivors(h, b) <= h.count.Keys
  {
  }

  lemma AssignedSets(r: State, s: Slot, other: Option<Obj>)
    requires Stable(r.heap, r.book)
    ensures s in r.heap.ptr && PointsWell(r.heap, other) && HolderSurvives(r.heap, r.book, s, other) ==>
              SlotSet(r, State(Assigned(r.heap, r.book, s, other), AssignedBook(r.heap, r.book, s, other)), s, other)
  {
    hide Stable, Survivors, GoneAreFreed;
    var h, b := r.heap, r.book;
    if s in h.ptr && PointsWell(h, other) && HolderSurvives(h, b, s, other) {
      AssignedStable(h, b, s, other);
      SurvivorsWereThere(h, Exchanged(b, s, other));
      CollectedFrees(r, h.ptr[s := other], AliveAfter(h, b, s, other), Adopted(b, other));
    }
  }

  lemma DestroyedSets(r: State, s: Slot)
    requires Stable(r.heap, r.book) && s in r.heap.ptr && s !in r.book.home
    ensures var r' := State(Destroyed(r.heap, r.book, s), DestroyedBook(r.heap, r.book, s));
            && s !in r'.heap.ptr && OtherSlotsKept(r, r', s) && GoneAreFreed(r, r')
            && r'.heap.count.Keys == AliveAfter(r.heap, r.book, s, None)
  {
    hide Stable, Survivors, GoneAreFreed;
    var h, b := r.heap, r.book;
    DestroyedStable(h, b, s);
    SurvivorsWereThere(h, Exchanged(b, s, None));
    CollectedFrees(r, h.ptr - {s}, AliveAfter(h, b, s, None), b.unadopted);
  }

  // ----- An assignment that is not safe -----------------------------------------------------------

  /** An object that only its own member keeps alive does not survive an assignment
      to that member. */
  lemma OwnMemberIsUnsafe(h: Heap, b: Book, s: Slot, other: Option<Obj>)
    requires Stable(h, b) && s in h.ptr && s in b.home && other != Some(b.home[s])
    requires PointingAt(h, b.home[s]) == {s}
    ensures !HolderSurvives(h, b, s, other)
  {
    hide Laid, Counted, NoGarbage, Survivors;
    var b', o := Exchanged(b, s, other), b.home[s];
    HoldersAreSlots(h, b, o);
    assert References(b.held, o) == {Of(s)} by {
      assert AsHolders({s}) == {Of(s)};
    }
    assert Of(s) in References(b.held, o);
    OnlyReferenceDropped(b, s, other, o);
    if o in Survivors(h, b') {
      SurvivorsAnchored(h, b', o);
    }
  }

  lemma OnlyReferenceDropped(b: Book, s: Slot, other: Option<Obj>, o: Obj)
    requires References(b.held, o) == {Of(s)} && other != Some(o)
    ensures forall t :: t in Exchanged(b, s, other).held ==> Exchanged(b, s, other).held[t] != o
  {
    forall t | t in b.held && t != Of(s) ensures b.held[t] != o {
      assert t !in References(b.held, o);
    }
  }

  /** `o` is alive with member `s`, and exactly the slots in `from` point at it. */
  ghost predicate Held(r: State, o: Obj, s: Slot, from: set<Slot>) {
    && Stable(r.heap, r.book) && o in r.heap.count
    && s in r.heap.ptr && s in r.book.home && r.book.home[s] == o
    && PointingAt(r.heap, o) == from
  }

  ghost predicate LeadsTo(r: State, op: Operation, r': State) {
    Goes(r, op) && r' == Next(r.heap, r.book, op)
  }

  lemma MakeHeld(r: State, o: Obj, s: Slot) returns (r': State)
    requires Stable(r.heap, r.book) && o !in r.heap.count && o !in r.book.freed && s !in r.heap.ptr
    ensures LeadsTo(r, AllocateOp(o, [s]), r') && Held(r', o, s, {})
    ensures forall x :: x in r'.heap.ptr ==> x in r.heap.ptr || x == s
  {
    hide Stable;
    AllocateKeeps(r.heap, r.book, o, [s]);
    r' := Next(r.heap, r.book, AllocateOp(o, [s]));
    forall x | x in r.heap.ptr ensures r.heap.ptr[x] != Some(o) {
      PointeeLives(r.heap, r.book, x);
    }
    assert PointingAt(r'.heap, o) == {};
  }

  lemma HoldOutside(r: State, o: Obj, s: Slot, x: Slot) returns (r': State)
    requires Held(r, o, s, {}) && x !in r.heap.ptr
    ensures LeadsTo(r, ConstructOp(x, Some(o)), r') && Held(r', o, s, {x}) && x !in r'.book.home
  {
    hide Stable;
    ConstructKeeps(r.heap, r.book, x, Some(o));
    r' := Next(r.heap, r.book, ConstructOp(x, Some(o)));
    forall y | y in r.heap.ptr ensures r.heap.ptr[y] != Some(o) {
      assert y !in PointingAt(r.heap, o);
    }
    assert PointingAt(r'.heap, o) == {x};
  }

  lemma HoldInside(r: State, o: Obj, s: Slot, x: Slot) returns (r': State)
    requires Held(r, o, s, {x}) && x !in r.book.home
    ensures LeadsTo(r, AssignOp(s, Some(o)), r') && Held(r', o, s, {s, x}) && x !in r'.book.home
  {
    hide Stable, Survivors;
    var h, b := r.heap, r.book;
    TargetSurvives(h, b, s, o);
    AssignedStable(h, b, s, Some(o));
    r' := Next(h, b, AssignOp(s, Some(o)));
    var ptr := h.ptr[s := Some(o)];
    forall y ensures y in ptr && ptr[y] == Some(o) <==> y in {s, x} {
      assert y in PointingAt(h, o) <==> y in h.ptr && h.ptr[y] == Some(o);
    }
    hide PointingAt;
    HeldAfter(h, b, ptr, AliveAfter(h, b, s, Some(o)), o, {s, x});
  }

  /** What a slot is made to point at survives the assignment. */
  lemma TargetSurvives(h: Heap, b: Book, s: Slot, o: Obj)
    requires Stable(h, b) && o in h.count
    ensures o in AliveAfter(h, b, s, Some(o))
  {
    hide Stable, Survivors;
    StableParts(h, b);
    var b', alive := Exchanged(b, s, Some(o)), AliveAfter(h, b, s, Some(o));
    assert Pending in b'.held && b'.held[Pending] == o && Anchored(b', alive, Pending);
    JoinsSurvivors(h, b', o);
  }

  lemma LetGoOutside(r: State, o: Obj, s: Slot, x: Slot) returns (r': State)
    requires Held(r, o, s, {s, x}) && x !in r.book.home
    ensures LeadsTo(r, DestroyOp(x), r') && Held(r', o, s, {s})
  {
    hide Stable, Survivors;
    var h, b := r.heap, r.book;
    assert s in PointingAt(h, o) && x in PointingAt(h, o);
    OwnMemberSurvives(h, b, o, s, x);
    DestroyedStable(h, b, x);
    r' := Next(h, b, DestroyOp(x));
    var ptr := h.ptr - {x};
    assert s != x;
    forall y ensures y in ptr && ptr[y] == Some(o) <==> y in {s} {
      assert y in PointingAt(h, o) <==> y in h.ptr && h.ptr[y] == Some(o);
    }
    hide PointingAt;
    HeldAfter(h, b, ptr, AliveAfter(h, b, x, None), o, {s});
  }

  /** A member that points at its own object keeps it. */
  lemma OwnMemberSurvives(h: Heap, b: Book, o: Obj, s: Slot, x: Slot)
    requires Stable(h, b) && o in h.count && s in h.ptr && s in b.home && b.home[s] == o && h.ptr[s] == Some(o) && s != x
    ensures o in AliveAfter(h, b, x, None)
  {
    hide Stable, Survivors;
    StableParts(h, b);
    var b' := Exchanged(b, x, None);
    ExchangedHolders(h, b, x, None, s);
    assert Of(s) in b'.held && b'.held[Of(s)] == o && Anchored(b', {o}, Of(s));
    OneSupported(h, b', o);
  }

  lemma OneSupported(h: Heap, b: Book, o: Obj)
    requires o in h.count && b.dying == {} && HasAnchor(b, {o}, o)
    ensures o in Survivors(h, b)
  {
    assert Supported(h, b, {o});
  }

  /** Slots that are kept go on pointing where they did. */
  lemma HeldAfter(h: Heap, b: Book, ptr: map<Slot, Option<Obj>>, alive: set<Obj>, o: Obj, from: set<Slot>)
    requires forall x :: x in ptr && ptr[x] == Some(o) <==> x in from
    requires forall x :: x in from ==> Kept(b, alive, x)
    ensures PointingAt(Collected(h, b, ptr, alive), o) == from
  {
    var h' := Collected(h, b, ptr, alive);
    forall x ensures x in PointingAt(h', o) <==> x in from {
    }
  }

  /** Make an object with one member, hold it from outside, let its member point at
      itself, drop the outside slot, and clear the member. */
  function SelfHeldOps(o: Obj, s: Slot, x: Slot): seq<Operation> {
    [AllocateOp(o, [s]), ConstructOp(x, Some(o)), AssignOp(s, Some(o)), DestroyOp(x), ClearOp(s)]
  }

  /** An unsafe assignment is reachable: the first four operations go well; clearing the
      member is then legal, but the object goes away before the pointer is stored. */
  lemma {:induction false} UnsafeAssignmentReachable(o: Obj, s: Slot, x: Slot)
    requires s != x
    ensures var ops := SelfHeldOps(o, s, x);
            && Run(ops, 4).Some?
            && Legal(Run(ops, 4).value.heap, Run(ops, 4).value.book, ops[4])
            && !Safe(Run(ops, 4).value.heap, Run(ops, 4).value.book, ops[4])
            && Run(ops, 5) == None
  {
    hide Stable, Goes, Next, PointingAt, HolderSurvives;
    var ops := SelfHeldOps(o, s, x);
    StartStable();
    var r0 := State(EMPTY_HEAP, EMPTY_BOOK);
    var r1 := MakeHeld(r0, o, s);
    var r2 := HoldOutside(r1, o, s, x);
    var r3 := HoldInside(r2, o, s, x);
    var r4 := LetGoOutside(r3, o, s, x);
    assert Run(ops, 0) == Some(r0);
    assert Run(ops, 1) == Some(r1);
    assert Run(ops, 2) == Some(r2);
    assert Run(ops, 3) == Some(r3);
    assert Run(ops, 4) == Some(r4);
    OwnMemberIsUnsafe(r4.heap, r4.book, s, None);
    ClearIsUnsafe(r4, s);
  }

  lemma ClearIsUnsafe(r: State, s: Slot)
    requires s in r.heap.ptr && !HolderSurvives(r.heap, r.book, s, None)
    ensures Legal(r.heap, r.book, ClearOp(s)) && !Safe(r.heap, r.book, ClearOp(s)) && !Goes(r, ClearOp(s))
  {
  }

  /** The same for the code itself. */
  method ClearedTooEarly(o: Obj, s: Slot, x: Slot) returns (safe: bool)
    requires s != x
    ensures !safe
  {
    hide Stable, Run, Legal, Safe;
    UnsafeAssignmentReachable(o, s, x);
    var r := Perform(SelfHeldOps(o, s, x), 4);
    safe := PerformOne(r, SelfHeldOps(o, s, x)[4]);
  }
}
