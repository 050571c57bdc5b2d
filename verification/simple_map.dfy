/** `SimpleMap<K, V, CAPACITY>`: a fixed number of slots, each empty or
    holding one key and its value, searched front to back. */
module SimpleMaps {
  import opened Wrappers

  datatype Item<K, V> = Item(key: K, value: V)

  /** The slot array; its length is the capacity and never changes. */
  datatype SimpleMap<K, V> = SimpleMap(items: seq<Option<Item<K, V>>>)

  /** Slot `j` is occupied by key `k`. */
  predicate HasKeyAt<K(==), V>(items: seq<Option<Item<K, V>>>, j: int, k: K)
  {
    0 <= j < |items| && items[j].Some? && items[j].value.key == k
  }

  /** At most one slot per key: the invariant `insert` and `remove` keep. */
  predicate Unique<K(==), V>(m: SimpleMap<K, V>)
  {
    forall i, j ::
      (0 <= i < |m.items| && 0 <= j < |m.items| && m.items[i].Some? && m.items[j].Some?
       && m.items[i].value.key == m.items[j].value.key) ==> i == j
  }

  /** `SimpleMap::new`: every slot empty. */
  function New<K, V>(capacity: nat): (r: SimpleMap<K, V>)
    ensures |r.items| == capacity
    ensures forall j :: 0 <= j < capacity ==> r.items[j].None?
  {
    SimpleMap(seq(capacity, _ => None))
  }

  /** The first slot at or after `from` occupied by `k`. */
  function FindKeyFrom<K(==), V>(items: seq<Option<Item<K, V>>>, k: K, from: nat): (r: Option<nat>)
    requires from <= |items|
    ensures r.Some? ==> from <= r.value && HasKeyAt(items, r.value, k)
    ensures r.Some? ==> forall j :: from <= j < r.value ==> !HasKeyAt(items, j, k)
    ensures r.None? ==> forall j :: from <= j < |items| ==> !HasKeyAt(items, j, k)
    decreases |items| - from
  {
    if from == |items| then None
    else if items[from].Some? && items[from].value.key == k then Some(from)
    else FindKeyFrom(items, k, from + 1)
  }

  /** The first slot occupied by `k`, as the loops of `get_mut` and
      `remove` find it. */
  function FindKey<K(==), V>(items: seq<Option<Item<K, V>>>, k: K): (r: Option<nat>)
    ensures r.Some? ==> HasKeyAt(items, r.value, k)
    ensures r.Some? ==> forall j :: 0 <= j < r.value ==> !HasKeyAt(items, j, k)
    ensures r.None? <==> forall j :: 0 <= j < |items| ==> !HasKeyAt(items, j, k)
  {
    FindKeyFrom(items, k, 0)
  }

  /** The first empty slot at or after `from`. */
  function FindEmptyFrom<K, V>(items: seq<Option<Item<K, V>>>, from: nat): (r: Option<nat>)
    requires from <= |items|
    ensures r.Some? ==> from <= r.value < |items| && items[r.value].None?
    ensures r.Some? ==> forall j :: from <= j < r.value ==> items[j].Some?
    ensures r.None? ==> forall j :: from <= j < |items| ==> items[j].Some?
    decreases |items| - from
  {
    if from == |items| then None
    else if items[from].None? then Some(from)
    else FindEmptyFrom(items, from + 1)
  }

  /** `SimpleMap::get_mut`: the value in the first slot holding `k`; a
      key in no slot gives None. */
  function Get<K(==), V>(m: SimpleMap<K, V>, k: K): (r: Option<V>)
    ensures r.None? <==> forall j :: 0 <= j < |m.items| ==> !HasKeyAt(m.items, j, k)
    ensures r.Some? ==> exists j :: (HasKeyAt(m.items, j, k) && m.items[j].value.value == r.value
      && forall l :: 0 <= l < j ==> !HasKeyAt(m.items, l, k))
  {
    match FindKey(m.items, k)
    case None => None
    case Some(j) => Some(m.items[j].value.value)
  }

  /** `SimpleMap::remove`: the first slot holding `k` is emptied and its
      value returned; every other slot is kept. An absent key changes
      nothing and gives None. */
  function Remove<K(==), V>(m: SimpleMap<K, V>, k: K): (r: (SimpleMap<K, V>, Option<V>))
    ensures |r.0.items| == |m.items|
    ensures r.1 == Get(m, k)
    ensures r.1.None? ==> r.0 == m
    ensures r.1.Some? ==> exists j :: (HasKeyAt(m.items, j, k) && r.0.items[j].None?
      && (forall l :: 0 <= l < j ==> !HasKeyAt(m.items, l, k))
      && forall l :: 0 <= l < |m.items| && l != j ==> r.0.items[l] == m.items[l])
  {
    match FindKey(m.items, k)
    case None => (m, None)
    case Some(j) => (SimpleMap(m.items[j := None]), Some(m.items[j].value.value))
  }

  /** `SimpleMap::insert`: `k` is removed first, then `(k, v)` goes into
      the lowest empty slot; with no empty slot left it panics. */
  function Insert<K(==), V>(m: SimpleMap<K, V>, k: K, v: V): (r: Run<SimpleMap<K, V>>)
    ensures r.Panics? || r.Returns?
    ensures r.Panics? <==> Get(m, k).None? && forall j :: 0 <= j < |m.items| ==> m.items[j].Some?
    ensures r.Returns? ==> |r.value.items| == |m.items|
    ensures r.Returns? ==> exists j :: (0 <= j < |m.items|
      && Remove(m, k).0.items[j].None? && r.value.items[j] == Some(Item(k, v))
      && (forall l :: 0 <= l < j ==> Remove(m, k).0.items[l].Some?)
      && forall l :: 0 <= l < |m.items| && l != j ==> r.value.items[l] == Remove(m, k).0.items[l])
  {
    var m1 := Remove(m, k).0;
    assert Get(m, k).Some? ==> m1.items[FindKey(m.items, k).value].None?;
    match FindEmptyFrom(m1.items, 0)
    case None => Panics
    case Some(j) => Returns(SimpleMap(m1.items[j := Some(Item(k, v))]))
  }

  /** A fresh map holds no key and keeps the invariant. */
  lemma NewEmpty<K, V>(capacity: nat, k: K)
    ensures Get(New<K, V>(capacity), k) == None
    ensures Unique(New<K, V>(capacity))
  {
  }

  /** After `remove(k)`, a map that kept the invariant keeps it and no
      longer holds `k`; every other key reads as before. */
  lemma RemoveLookup<K, V>(m: SimpleMap<K, V>, k: K, k': K)
    ensures k' != k ==> Get(Remove(m, k).0, k') == Get(m, k')
    ensures Unique(m) ==> Unique(Remove(m, k).0) && Get(Remove(m, k).0, k) == None
  {
    var r := Remove(m, k).0;
    match FindKey(m.items, k)
    case None =>
    case Some(j) =>
      assert r.items == m.items[j := None];
      if k' != k {
        forall l | 0 <= l < |m.items| ensures HasKeyAt(r.items, l, k') == HasKeyAt(m.items, l, k') {}
        SameKeySlots(m.items, r.items, k');
      }
      if Unique(m) {
        forall l | 0 <= l < |m.items| ensures !HasKeyAt(r.items, l, k) {}
      }
  }

  /** Two slot arrays whose slots hold `k` at the same places, with the
      same values, read the same for `k`. */
  lemma SameKeySlots<K, V>(a: seq<Option<Item<K, V>>>, b: seq<Option<Item<K, V>>>, k: K)
    requires |a| == |b|
    requires forall l :: 0 <= l < |a| ==> HasKeyAt(a, l, k) == HasKeyAt(b, l, k)
    requires forall l :: 0 <= l < |a| && HasKeyAt(a, l, k) ==> a[l] == b[l]
    ensures Get(SimpleMap(a), k) == Get(SimpleMap(b), k)
  {
    var fa, fb := FindKey(a, k), FindKey(b, k);
    if fa.Some? && fb.Some? {
      assert !(fa.value < fb.value) && !(fb.value < fa.value);
    }
  }

  /** After `insert(k, v)` returns, `get_mut(k)` finds `v`, every other
      key reads as before, and a map that kept the invariant keeps it. */
  lemma InsertLookup<K, V>(m: SimpleMap<K, V>, k: K, v: V, k': K)
    requires Insert(m, k, v).Returns?
    ensures Get(Insert(m, k, v).value, k) == Some(v)
    ensures k' != k ==> Get(Insert(m, k, v).value, k') == Get(m, k')
    ensures Unique(m) ==> Unique(Insert(m, k, v).value)
  {
    var m1 := Remove(m, k).0;
    var j := FindEmptyFrom(m1.items, 0).value;
    var r := Insert(m, k, v).value;
    assert r.items == m1.items[j := Some(Item(k, v))];
    // Every slot before `j` is occupied, and none of them by `k`: the
    // first slot holding `k`, if any, was emptied by the removal.
    var fk := FindKey(m.items, k);
    if fk.Some? {
      assert m1.items == m.items[fk.value := None];
    }
    forall l | 0 <= l < j ensures !HasKeyAt(r.items, l, k) {
      assert r.items[l] == m1.items[l] && (fk.Some? ==> l < fk.value);
      assert m1.items[l] == m.items[l] && !HasKeyAt(m.items, l, k);
    }
    assert FindKey(r.items, k) == Some(j) by {
      var f := FindKey(r.items, k);
      assert HasKeyAt(r.items, j, k);
      assert f.Some? && !(f.value < j) && !(j < f.value);
    }
    if k' != k {
      RemoveLookup(m, k, k');
      forall l | 0 <= l < |r.items| ensures HasKeyAt(r.items, l, k') == HasKeyAt(m1.items, l, k') {}
      SameKeySlots(r.items, m1.items, k');
    }
    if Unique(m) {
      RemoveLookup(m, k, k);
      assert forall l :: 0 <= l < |m1.items| ==> !HasKeyAt(m1.items, l, k);
      forall a, b | 0 <= a < |r.items| && 0 <= b < |r.items| && r.items[a].Some? && r.items[b].Some?
        && r.items[a].value.key == r.items[b].value.key
        ensures a == b
      {
        if a != j && b != j {
          assert m1.items[a] == r.items[a] && m1.items[b] == r.items[b];
        } else if a == j && b != j {
          assert HasKeyAt(m1.items, b, k);
        } else if a != j {
          assert HasKeyAt(m1.items, a, k);
        }
      }
    }
  }

  /** `remove` right after `insert` gives back the inserted value. */
  lemma InsertThenRemove<K, V>(m: SimpleMap<K, V>, k: K, v: V)
    requires Insert(m, k, v).Returns?
    ensures Remove(Insert(m, k, v).value, k).1 == Some(v)
  {
    InsertLookup(m, k, v, k);
  }
}
