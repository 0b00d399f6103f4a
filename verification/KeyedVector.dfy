/**
 KeyedVector over SortedVector: a vector of key/value pairs kept sorted by key,
 searched with lower_bound, refining a finite map.
 */
module KeyedVector {
  import opened Base

  type Key = Int32

  datatype Pair = Pair(key: Key, value: int)

  const NAME_NOT_FOUND := -2   // -ENOENT
  const BAD_VALUE := -22       // -EINVAL
  const BAD_INDEX := -75       // -EOVERFLOW
  const UINT64 := 0x1_0000_0000_0000_0000

  predicate Sorted(items: seq<Pair>) {
    forall i, j :: 0 <= i < j < |items| ==> items[i].key < items[j].key
  }

  function Keys(items: seq<Pair>): set<Key> {
    set p | p in items :: p.key
  }

  /** The pair a key belongs to. */
  predicate At(items: seq<Pair>, key: Key, i: int) {
    0 <= i < |items| && items[i].key == key
  }

  /** The finite map a sorted vector stands for: `m` has exactly the vector's keys,
      each with the value stored beside it. */
  ghost predicate Represents(items: seq<Pair>, m: map<Key, int>) {
    && (forall k :: k in m <==> exists i :: At(items, k, i))
    && (forall k, i :: At(items, k, i) ==> k in m && m[k] == items[i].value)
  }

  // ----- lower_bound -------------------------------------------------------------------

  /** `pos` is the first position whose key is not less than `key`. */
  predicate Bound(items: seq<Pair>, key: Key, pos: nat) {
    && pos <= |items|
    && (forall i :: 0 <= i < pos ==> items[i].key < key)
    && (forall i :: pos <= i < |items| ==> items[i].key >= key)
  }

  method LowerBound(items: seq<Pair>, key: Key) returns (pos: nat)
    requires Sorted(items)
    ensures Bound(items, key, pos)
  {
    pos := 0;
    var count := |items|;
    while count > 0
      invariant 0 <= count && pos + count <= |items|
      invariant forall i :: 0 <= i < pos ==> items[i].key < key
      invariant forall i :: pos + count <= i < |items| ==> items[i].key >= key
    {
      var half := count / 2;
      if items[pos + half].key < key {
        pos := pos + half + 1;
        count := count - half - 1;
      } else {
        count := half;
      }
    }
  }

  // ----- Editing the vector edits the map ------------------------------------------------

  function Inserted(items: seq<Pair>, pos: nat, p: Pair): seq<Pair>
    requires pos <= |items|
  {
    items[..pos] + [p] + items[pos..]
  }

  function Erased(items: seq<Pair>, pos: nat, count: nat): seq<Pair>
    requires pos + count <= |items|
  {
    items[..pos] + items[pos + count..]
  }

  predicate Found(items: seq<Pair>, key: Key, pos: nat) {
    pos < |items| && items[pos].key == key
  }

  lemma AbsentUnlessFound(items: seq<Pair>, m: map<Key, int>, key: Key, pos: nat)
    requires Sorted(items) && Represents(items, m) && Bound(items, key, pos)
    ensures key in m <==> Found(items, key, pos)
    ensures key in m ==> m[key] == items[pos].value
  {
    if Found(items, key, pos) {
      assert At(items, key, pos);
    }
  }

  lemma InsertRefines(items: seq<Pair>, m: map<Key, int>, pos: nat, p: Pair)
    requires Sorted(items) && Represents(items, m) && Bound(items, p.key, pos) && !Found(items, p.key, pos)
    ensures Sorted(Inserted(items, pos, p)) && Represents(Inserted(items, pos, p), m[p.key := p.value])
  {
    InsertedSorted(items, pos, p);
    hide Sorted, Bound, Inserted;
    var items', m' := Inserted(items, pos, p), m[p.key := p.value];
    forall k, i: nat ensures At(items', k, i) <==> InsertedAt(items, pos, p, k, i) {
      InsertedAtIs(items, pos, p, k, i);
    }
    forall k | k in m' ensures exists i :: At(items', k, i) {
      if k == p.key {
        assert InsertedAt(items, pos, p, k, pos);
      } else {
        var i :| At(items, k, i);
        assert InsertedAt(items, pos, p, k, if i < pos then i else i + 1);
      }
    }
    forall k, i | At(items', k, i) ensures k in m' && m'[k] == items'[i].value {
      assert InsertedAt(items, pos, p, k, i);
      InsertedAtIs(items, pos, p, k, i);
    }
  }

  lemma InsertedSorted(items: seq<Pair>, pos: nat, p: Pair)
    requires Sorted(items) && Bound(items, p.key, pos) && !Found(items, p.key, pos)
    ensures Sorted(Inserted(items, pos, p))
    ensures forall i :: 0 <= i < |items| ==> items[i].key != p.key
  {
  }

  /** Where a key is found after the insertion. */
  predicate InsertedAt(items: seq<Pair>, pos: nat, p: Pair, k: Key, i: nat) {
    if i < pos then At(items, k, i) else if i == pos then k == p.key else At(items, k, i - 1)
  }

  lemma InsertedAtIs(items: seq<Pair>, pos: nat, p: Pair, k: Key, i: nat)
    requires pos <= |items|
    ensures var items' := Inserted(items, pos, p);
            && (At(items', k, i) <==> InsertedAt(items, pos, p, k, i))
            && (At(items', k, i) ==>
                  items'[i].value == if i < pos then items[i].value else if i == pos then p.value else items[i - 1].value)
  {
  }

  lemma ReplaceRefines(items: seq<Pair>, m: map<Key, int>, pos: nat, p: Pair)
    requires Sorted(items) && Represents(items, m) && Found(items, p.key, pos)
    ensures Sorted(items[pos := p]) && Represents(items[pos := p], m[p.key := p.value])
  {
    var items', m' := items[pos := p], m[p.key := p.value];
    forall k, i ensures At(items', k, i) <==> At(items, k, i) {
    }
    assert At(items, p.key, pos);
  }

  lemma EraseRefines(items: seq<Pair>, m: map<Key, int>, pos: nat, count: nat)
    requires Sorted(items) && Represents(items, m) && pos + count <= |items|
    ensures Sorted(Erased(items, pos, count))
    ensures Represents(Erased(items, pos, count), m - Keys(items[pos..pos + count]))
  {
    hide Keys, Sorted;
    ErasedSorted(items, pos, count);
    var items', gone := Erased(items, pos, count), Keys(items[pos..pos + count]);
    var m' := m - gone;
    forall k, i | At(items, k, i) ensures k in gone <==> pos <= i < pos + count {
      ErasedKeys(items, pos, count, k, i);
    }
    forall k | k in m' ensures exists i :: At(items', k, i) {
      var i :| At(items, k, i);
      assert At(items', k, if i < pos then i else i - count);
    }
    forall k, i | At(items', k, i) ensures k in m' && m'[k] == items'[i].value {
      assert At(items, k, if i < pos then i else i + count);
    }
  }

  lemma ErasedSorted(items: seq<Pair>, pos: nat, count: nat)
    requires Sorted(items) && pos + count <= |items|
    ensures Sorted(Erased(items, pos, count))
  {
  }

  lemma ErasedKeys(items: seq<Pair>, pos: nat, count: nat, k: Key, i: int)
    requires Sorted(items) && pos + count <= |items| && At(items, k, i)
    ensures k in Keys(items[pos..pos + count]) <==> pos <= i < pos + count
  {
    var part := items[pos..pos + count];
    if pos <= i < pos + count {
      assert part[i - pos] == items[i];
      assert items[i] in part;
    }
    if k in Keys(part) {
      var p :| p in part && p.key == k;
      var j :| 0 <= j < |part| && part[j] == p;
      assert items[pos + j].key == k;
    }
  }

  lemma OneErased(items: seq<Pair>, pos: nat)
    requires pos < |items|
    ensures Keys(items[pos..pos + 1]) == {items[pos].key}
  {
    assert items[pos..pos + 1] == [items[pos]];
  }

  /** The map is determined by the vector. */
  lemma RepresentsOne(items: seq<Pair>, m: map<Key, int>, m': map<Key, int>)
    requires Represents(items, m) && Represents(items, m')
    ensures m == m'
  {
    forall k | k in m ensures m[k] == m'[k] {
      var i :| At(items, k, i);
    }
  }

  // ----- The classes ------------------------------------------------------------------------

  class KeyedVector {
    var items: seq<Pair>
    ghost var m: map<Key, int>

    ghost predicate Valid()
      reads this
    {
      Sorted(items) && Represents(items, m)
    }

    constructor ()
      ensures Valid() && items == [] && m == map[]
    {
      items := [];
      m := map[];
    }

    method IndexOfKey(key: Key) returns (index: int)
      requires Valid()
      ensures key in m <==> index >= 0
      ensures if index >= 0 then At(items, key, index) else index == NAME_NOT_FOUND
    {
      var p := LowerBound(items, key);
      AbsentUnlessFound(items, m, key, p);
      index := if p != |items| && items[p].key == key then p else NAME_NOT_FOUND;
    }

    /** The source asserts that the key is there. */
    method ValueFor(key: Key) returns (value: int)
      requires Valid() && key in m
      ensures value == m[key]
    {
      var i := IndexOfKey(key);
      value := items[i].value;
    }

    method Add(key: Key, value: int) returns (index: nat)
      requires Valid()
      modifies this
      ensures Valid() && m == old(m)[key := value] && At(items, key, index)
    {
      var pos := LowerBound(items, key);
      if pos == |items| || !(items[pos].key == key) {
        InsertRefines(items, m, pos, Pair(key, value));
        items := Inserted(items, pos, Pair(key, value));
      } else {
        ReplaceRefines(items, m, pos, Pair(key, value));
        items := items[pos := Pair(key, value)];
      }
      m := m[key := value];
      index := pos;
    }

    /** SortedVector::remove dereferences lower_bound without asking whether it is
        the end, so some stored key must not be less than the argument. */
    method RemoveItem(key: Key) returns (index: int)
      requires Valid() && exists k :: k in m && k >= key
      modifies this
      ensures Valid() && m == old(m) - {key}
      ensures key in old(m) <==> index >= 0
      ensures if index >= 0 then At(old(items), key, index) && items == Erased(old(items), index, 1)
              else index == NAME_NOT_FOUND && items == old(items)
    {
      hide Sorted, Represents;
      var pos := LowerBound(items, key);
      NotAtEnd(items, m, key, pos);
      AbsentUnlessFound(items, m, key, pos);
      if items[pos].key == key {
        EraseRefines(items, m, pos, 1);
        OneErased(items, pos);
        items := Erased(items, pos, 1);
        m := m - {key};
        index := pos;
      } else {
        index := NAME_NOT_FOUND;
        assert m - {key} == m;
      }
    }

    /** Removes the pair and adds it again, with remove's condition on the key. */
    method ReplaceValueFor(key: Key, value: int) returns (index: nat)
      requires Valid() && exists k :: k in m && k >= key
      modifies this
      ensures Valid() && m == old(m)[key := value] && At(items, key, index)
    {
      var _ := RemoveItem(key);
      index := Add(key, value);
      assert (old(m) - {key})[key := value] == old(m)[key := value];
    }

    method ReplaceValueAt(index: nat, value: int) returns (r: int)
      requires Valid()
      modifies this
      ensures Valid()
      ensures if index < |old(items)|
              then r == index && m == old(m)[old(items)[index].key := value] && items == old(items)[index := Pair(old(items)[index].key, value)]
              else r == BAD_INDEX && m == old(m) && items == old(items)
    {
      if index < |items| {
        ReplaceRefines(items, m, index, Pair(items[index].key, value));
        m := m[items[index].key := value];
        items := items[index := Pair(items[index].key, value)];
        r := index;
      } else {
        r := BAD_INDEX;
      }
    }

    /** The size_t sum index + count wraps, so a range that is out of bounds can
        pass the test; then the source erases outside the vector (`ok` is false). */
    method RemoveItemsAt(index: nat, count: nat) returns (ok: bool, r: int)
      requires Valid() && index < UINT64 && count < UINT64 && |items| < UINT64
      modifies this
      ensures Valid()
      ensures ok <==> index + count <= |old(items)| || |old(items)| < (index + count) % UINT64
      ensures if index + count <= |old(items)|
              then r == index && m == old(m) - Keys(old(items)[index..index + count]) && items == Erased(old(items), index, count)
              else m == old(m) && items == old(items) && (ok ==> r == BAD_VALUE)
    {
      if (index + count) % UINT64 > |items| {
        ok, r := true, BAD_VALUE;
      } else if index + count > |items| {
        ok, r := false, 0;
      } else {
        EraseRefines(items, m, index, count);
        m := m - Keys(items[index..index + count]);
        items := Erased(items, index, count);
        ok, r := true, index;
      }
    }
  }

  lemma NotAtEnd(items: seq<Pair>, m: map<Key, int>, key: Key, pos: nat)
    requires Represents(items, m) && Bound(items, key, pos)
    ensures pos < |items| <==> exists k :: k in m && k >= key
  {
    if pos < |items| {
      assert At(items, items[pos].key, pos);
    }
    if k :| k in m && k >= key {
      var i :| At(items, k, i);
    }
  }

  /** DefaultKeyedVector::valueFor. */
  method DefaultValueFor(v: KeyedVector, default: int, key: Key) returns (value: int)
    requires v.Valid()
    ensures value == if key in v.m then v.m[key] else default
  {
    var i := v.IndexOfKey(key);
    value := if i >= 0 then v.items[i].value else default;
  }
}
