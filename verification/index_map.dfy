/** The insertion-ordered map behind a node's properties and children: a
    sequence of (key, value) entries with distinct keys. */
module IndexMaps {
  import opened Wrappers

  datatype IndexMap<K(==), V> = IndexMap(entries: seq<(K, V)>)

  /** No key occurs in two entries. */
  predicate UniqueKeys<K(==), V>(m: IndexMap<K, V>)
  {
    forall i, j :: 0 <= i < j < |m.entries| ==> m.entries[i].0 != m.entries[j].0
  }

  /** `k` is the key of some entry. */
  predicate HasKey<K(==), V>(m: IndexMap<K, V>, k: K)
  {
    exists i :: 0 <= i < |m.entries| && m.entries[i].0 == k
  }

  function Empty<K(==), V>(): (r: IndexMap<K, V>)
    ensures |r.entries| == 0 && UniqueKeys(r)
  {
    IndexMap([])
  }

  /** Position of the entry with key `k`. */
  function IndexOf<K(==), V>(es: seq<(K, V)>, k: K): (r: Option<nat>)
    ensures r.Some? ==> r.value < |es| && es[r.value].0 == k
    ensures r.Some? ==> forall j :: 0 <= j < r.value ==> es[j].0 != k
    ensures r.None? <==> forall j :: 0 <= j < |es| ==> es[j].0 != k
  {
    if |es| == 0 then None
    else if es[0].0 == k then Some(0)
    else match IndexOf(es[1..], k)
      case None => None
      case Some(i) => Some(i + 1)
  }

  /** `IndexMap::get`. */
  function Get<K(==), V>(m: IndexMap<K, V>, k: K): (r: Option<V>)
    ensures r.Some? <==> HasKey(m, k)
    ensures r.Some? ==> (k, r.value) in m.entries
  {
    match IndexOf(m.entries, k)
    case None => None
    case Some(i) => Some(m.entries[i].1)
  }

  /** With distinct keys, `get` finds exactly the stored entries. */
  lemma GetIffEntry<K, V>(m: IndexMap<K, V>, k: K, v: V)
    requires UniqueKeys(m)
    ensures Get(m, k) == Some(v) <==> (k, v) in m.entries
  {
    if (k, v) in m.entries {
      var i :| 0 <= i < |m.entries| && m.entries[i] == (k, v);
      var j := IndexOf(m.entries, k).value;
      assert m.entries[j].0 == m.entries[i].0;
    }
  }

  /** `IndexMap::insert`: a present key keeps its position and takes the
      new value; a new key is appended. */
  function Insert<K(==), V>(m: IndexMap<K, V>, k: K, v: V): (r: IndexMap<K, V>)
    ensures HasKey(m, k) ==> |r.entries| == |m.entries|
    ensures !HasKey(m, k) ==> r.entries == m.entries + [(k, v)]
    ensures forall i :: 0 <= i < |m.entries| && m.entries[i].0 != k ==> r.entries[i] == m.entries[i]
    ensures forall e :: e in r.entries ==> e in m.entries || e == (k, v)
  {
    match IndexOf(m.entries, k)
    case Some(i) =>
      var r := IndexMap(m.entries[i := (k, v)]);
      assert forall j :: 0 <= j < |r.entries| ==> r.entries[j].0 == m.entries[j].0;
      r
    case None => IndexMap(m.entries + [(k, v)])
  }

  /** With distinct keys, `insert` rewrites the one entry of its key in
      place, and the keys stay distinct. */
  lemma InsertUnique<K, V>(m: IndexMap<K, V>, k: K, v: V)
    requires UniqueKeys(m)
    ensures forall i :: 0 <= i < |m.entries| && m.entries[i].0 == k ==> Insert(m, k, v).entries[i] == (k, v)
    ensures UniqueKeys(Insert(m, k, v))
  {
    var r := Insert(m, k, v);
    if IndexOf(m.entries, k).Some? {
      assert forall j :: 0 <= j < |r.entries| ==> r.entries[j].0 == m.entries[j].0;
    }
  }

  /** After `insert(k, v)`, `get(k)` is `v` and every other key reads as
      before; this holds whether or not the keys are distinct, since
      `insert` rewrites the entry that `get` finds first. */
  lemma GetInsert<K, V>(m: IndexMap<K, V>, k: K, v: V, k': K)
    ensures Get(Insert(m, k, v), k) == Some(v)
    ensures k' != k ==> Get(Insert(m, k, v), k') == Get(m, k')
  {
    var r := Insert(m, k, v);
    match IndexOf(m.entries, k)
    case Some(i) =>
      assert r.entries == m.entries[i := (k, v)];
      IndexOfAt(r.entries, k, i);
      if k' != k {
        IndexOfSameKeys(m.entries, r.entries, k');
      }
    case None =>
      assert r.entries == m.entries + [(k, v)];
      IndexOfAt(r.entries, k, |m.entries|);
      if k' != k {
        IndexOfAppend(m.entries, (k, v), k');
      }
  }

  /** `IndexOf` is the position of the first entry with the key. */
  lemma IndexOfAt<K, V>(es: seq<(K, V)>, k: K, i: nat)
    requires i < |es| && es[i].0 == k
    requires forall j :: 0 <= j < i ==> es[j].0 != k
    ensures IndexOf(es, k) == Some(i)
  {
    match IndexOf(es, k)
    case None =>
    case Some(p) =>
  }

  /** Sequences with the same keys in the same places agree on `IndexOf`. */
  lemma IndexOfSameKeys<K, V>(es: seq<(K, V)>, fs: seq<(K, V)>, k: K)
    requires |es| == |fs| && forall j :: 0 <= j < |es| ==> es[j].0 == fs[j].0
    ensures IndexOf(es, k) == IndexOf(fs, k)
  {
    match IndexOf(es, k)
    case None =>
    case Some(p) =>
      IndexOfAt(fs, k, p);
  }

  /** An appended entry with another key does not change `IndexOf`. */
  lemma IndexOfAppend<K, V>(es: seq<(K, V)>, e: (K, V), k: K)
    requires e.0 != k
    ensures IndexOf(es + [e], k) == IndexOf(es, k)
  {
    match IndexOf(es, k)
    case None =>
      assert forall j :: 0 <= j < |es + [e]| ==> (es + [e])[j].0 != k by {
        forall j | 0 <= j < |es + [e]|
          ensures (es + [e])[j].0 != k
        {
          if j < |es| {
            assert (es + [e])[j] == es[j];
          }
        }
      }
    case Some(p) =>
      IndexOfAt(es + [e], k, p);
  }

  /** `IndexMap::shift_remove`: the entry with key `k` is taken out and the
      rest keep their order. */
  function ShiftRemove<K(==), V>(m: IndexMap<K, V>, k: K): (r: (IndexMap<K, V>, Option<V>))
    ensures r.1 == Get(m, k)
    ensures r.1.None? ==> r.0 == m
    ensures r.1.Some? ==>
      exists i :: 0 <= i < |m.entries| && m.entries[i] == (k, r.1.value) && r.0.entries == m.entries[..i] + m.entries[i + 1..]
    ensures UniqueKeys(m) ==> UniqueKeys(r.0) && !HasKey(r.0, k)
    ensures forall e :: e in r.0.entries ==> e in m.entries
  {
    match IndexOf(m.entries, k)
    case None => (m, None)
    case Some(i) =>
      var rest := m.entries[..i] + m.entries[i + 1..];
      assert forall j :: 0 <= j < |rest| ==> rest[j] == (if j < i then m.entries[j] else m.entries[j + 1]);
      (IndexMap(rest), Some(m.entries[i].1))
  }

  /** Removing `k` leaves every other key's value alone. */
  lemma GetShiftRemove<K, V>(m: IndexMap<K, V>, k: K, k': K)
    requires UniqueKeys(m)
    ensures Get(ShiftRemove(m, k).0, k) == None
    ensures k' != k ==> Get(ShiftRemove(m, k).0, k') == Get(m, k')
  {
    if k' != k && HasKey(m, k) {
      var i := IndexOf(m.entries, k).value;
      GetOmitting(m, i, k');
    }
  }

  /** Dropping the entry at `i` changes no other key's value. */
  lemma GetOmitting<K, V>(m: IndexMap<K, V>, i: nat, k': K)
    requires UniqueKeys(m) && i < |m.entries| && m.entries[i].0 != k'
    ensures Get(IndexMap(m.entries[..i] + m.entries[i + 1..]), k') == Get(m, k')
  {
    var r := IndexMap(m.entries[..i] + m.entries[i + 1..]);
    assert forall j :: 0 <= j < |r.entries| ==> r.entries[j] == m.entries[if j < i then j else j + 1];
    assert UniqueKeys(r);
    match Get(m, k')
    case None =>
      assert !HasKey(r, k');
    case Some(w) =>
      GetIffEntry(m, k', w);
      var p :| 0 <= p < |m.entries| && m.entries[p] == (k', w);
      assert r.entries[if p < i then p else p - 1] == (k', w);
      GetIffEntry(r, k', w);
  }

  /** Entry `j` of the map with entry `i` dropped. */
  lemma OmitEntries<K, V>(es: seq<(K, V)>, i: nat)
    requires i < |es|
    ensures |es[..i] + es[i + 1..]| == |es| - 1
    ensures forall j :: 0 <= j < i ==> (es[..i] + es[i + 1..])[j] == es[j]
    ensures forall j :: i < j < |es| ==> (es[..i] + es[i + 1..])[j - 1] == es[j]
  {}

  /** Dropping entry `i` drops value `i`. */
  lemma ValuesOmit<K, V>(m: IndexMap<K, V>, i: nat)
    requires i < |m.entries|
    ensures Values(IndexMap(m.entries[..i] + m.entries[i + 1..])) == Values(m)[..i] + Values(m)[i + 1..]
  {
    OmitEntries(m.entries, i);
  }

  /** Where `shift_remove` took its entry out: the values after it move
      down by one and the rest stay. */
  lemma RemovedAt<K, V>(m: IndexMap<K, V>, k: K) returns (at: nat)
    requires ShiftRemove(m, k).1.Some?
    ensures at < |m.entries| && m.entries[at] == (k, ShiftRemove(m, k).1.value)
    ensures Values(ShiftRemove(m, k).0) == Values(m)[..at] + Values(m)[at + 1..]
  {
    at :| at < |m.entries| && m.entries[at] == (k, ShiftRemove(m, k).1.value)
      && ShiftRemove(m, k).0.entries == m.entries[..at] + m.entries[at + 1..];
    ValuesOmit(m, at);
  }

  /** The values in entry order (`IndexMap::values`). */
  function Values<K(==), V>(m: IndexMap<K, V>): (r: seq<V>)
    ensures |r| == |m.entries| && forall i :: 0 <= i < |r| ==> r[i] == m.entries[i].1
  {
    seq(|m.entries|, i requires 0 <= i < |m.entries| => m.entries[i].1)
  }

  /** Inserting pairs one after another, as a loop of `insert` does. */
  function InsertAll<K(==), V>(m: IndexMap<K, V>, kvs: seq<(K, V)>): (r: IndexMap<K, V>)
    ensures UniqueKeys(m) ==> UniqueKeys(r)
    ensures forall e :: e in r.entries ==> e in m.entries || e in kvs
    decreases |kvs|
  {
    if |kvs| == 0 then m else InsertAll(Insert(m, kvs[0].0, kvs[0].1), kvs[1..])
  }

  /** The value paired with `k` last in `kvs`. */
  function LastFor<K(==), V>(kvs: seq<(K, V)>, k: K): Option<V>
  {
    if |kvs| == 0 then None
    else if kvs[|kvs| - 1].0 == k then Some(kvs[|kvs| - 1].1)
    else LastFor(kvs[..|kvs| - 1], k)
  }

  /** After a run of inserts each key holds the last value given for it,
      or its earlier value when it was not given. */
  lemma {:induction false} GetInsertAll<K, V>(m: IndexMap<K, V>, kvs: seq<(K, V)>, k: K)
    requires UniqueKeys(m)
    ensures Get(InsertAll(m, kvs), k) == (if LastFor(kvs, k).Some? then LastFor(kvs, k) else Get(m, k))
    decreases |kvs|
  {
    if |kvs| > 0 {
      var n := |kvs| - 1;
      InsertAllSnoc(m, kvs[..n], kvs[n]);
      assert kvs == kvs[..n] + [kvs[n]];
      GetInsertAll(m, kvs[..n], k);
      GetInsert(InsertAll(m, kvs[..n]), kvs[n].0, kvs[n].1, k);
    }
  }

  lemma {:induction false} InsertAllSnoc<K, V>(m: IndexMap<K, V>, kvs: seq<(K, V)>, kv: (K, V))
    ensures InsertAll(m, kvs + [kv]) == Insert(InsertAll(m, kvs), kv.0, kv.1)
    decreases |kvs|
  {
    if |kvs| == 0 {
      assert (kvs + [kv])[1..] == [];
    } else {
      assert (kvs + [kv])[1..] == kvs[1..] + [kv];
      InsertAllSnoc(Insert(m, kvs[0].0, kvs[0].1), kvs[1..], kv);
    }
  }

  /** The keys of `kvs` are pairwise distinct. */
  predicate DistinctKeys<K(==), V>(kvs: seq<(K, V)>)
  {
    forall i, j :: 0 <= i < j < |kvs| ==> kvs[i].0 != kvs[j].0
  }

  /** Inserting pairs whose keys are new and distinct appends them in
      order. */
  lemma {:induction false} InsertAllFresh<K, V>(m: IndexMap<K, V>, kvs: seq<(K, V)>)
    requires DistinctKeys(kvs)
    requires forall i :: 0 <= i < |kvs| ==> !HasKey(m, kvs[i].0)
    ensures InsertAll(m, kvs).entries == m.entries + kvs
    decreases |kvs|
  {
    if |kvs| > 0 {
      var m' := Insert(m, kvs[0].0, kvs[0].1);
      assert m'.entries == m.entries + [kvs[0]];
      forall i | 0 <= i < |kvs[1..]|
        ensures !HasKey(m', kvs[1..][i].0)
      {
        assert kvs[1..][i] == kvs[i + 1];
      }
      InsertAllFresh(m', kvs[1..]);
      assert m'.entries + kvs[1..] == m.entries + kvs;
    }
  }

  /** Inserting the value a key already holds changes nothing. */
  lemma InsertExisting<K, V>(m: IndexMap<K, V>, k: K, v: V)
    requires UniqueKeys(m) && Get(m, k) == Some(v)
    ensures Insert(m, k, v) == m
  {
    GetIffEntry(m, k, v);
    var i := IndexOf(m.entries, k).value;
    assert m.entries[i] == (k, v);
    assert Insert(m, k, v).entries == m.entries;
  }
}
