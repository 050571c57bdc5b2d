/** Serialising an editable device tree back into a flattened blob
    (`writer::to_bytes`): a 40-byte header, the memory reservation block,
    the structure block and the strings block, in that order, with version
    17 and last compatible version 16 (Devicetree Specification v0.4,
    chapter 5). */
module Writer {
  import opened Bytes
  import opened Wrappers
  import opened FdtDefs
  import opened FdtHeader
  import opened FdtReader
  import opened IndexMaps
  import opened ModelProperty
  import opened ModelNode
  import opened ModelTree

  const LAST_VERSION: u32 := 17
  const LAST_COMP_VERSION: u32 := 16

  /** `u32::try_from(len)` fails exactly from here on. */
  const U32_MAX: nat := 0xFFFF_FFFF

  // ---------------------------------------------------------------------
  // write_memory_reservations

  /** Each reservation as a big-endian address and size, then the all-zero
      record that ends the block. */
  function WriteReservations(rs: seq<MemoryReservation>): (r: seq<u8>)
    ensures |r| == 16 * (|rs| + 1)
    ensures forall j :: 16 * |rs| <= j < |r| ==> r[j] == 0
    decreases |rs|
  {
    if |rs| == 0 then ToBe64(0) + ToBe64(0)
    else ToBe64(rs[0].address) + ToBe64(rs[0].size) + WriteReservations(rs[1..])
  }

  /** The reader's reservation iterator, started where the block was
      written, yields the written reservations again, provided none of them
      is the all-zero record that the reader takes for the end. */
  lemma {:induction false} ReservationsRoundTrip(pre: seq<u8>, rs: seq<MemoryReservation>, post: seq<u8>)
    requires forall i :: 0 <= i < |rs| ==> rs[i] != MemoryReservation(0, 0)
    ensures ReservationsFrom(pre + WriteReservations(rs) + post, |pre|) == rs
    decreases |rs|
  {
    var d := pre + WriteReservations(rs) + post;
    if |rs| == 0 {
      TwoWords(pre, 0, 0, post);
    } else {
      var tail := WriteReservations(rs[1..]) + post;
      assert d == pre + ToBe64(rs[0].address) + ToBe64(rs[0].size) + tail;
      TwoWords(pre, rs[0].address, rs[0].size, tail);
      var pre' := pre + ToBe64(rs[0].address) + ToBe64(rs[0].size);
      assert d == pre' + WriteReservations(rs[1..]) + post;
      ReservationsRoundTrip(pre', rs[1..], post);
      ReservationsFromStep(d, |pre|);
      HeadTail(rs);
    }
  }

  lemma HeadTail(rs: seq<MemoryReservation>)
    requires |rs| > 0
    ensures [MemoryReservation(rs[0].address, rs[0].size)] + rs[1..] == rs
  {}

  /** A record that is not all zero is yielded, and the iterator goes on
      16 bytes later. */
  lemma ReservationsFromStep(data: seq<u8>, p: nat)
    requires p + 16 <= |data|
    requires Be64At(data, p) != 0 || Be64At(data, p + 8) != 0
    ensures ReservationsFrom(data, p)
      == [MemoryReservation(Be64At(data, p), Be64At(data, p + 8))] + ReservationsFrom(data, p + 16)
  {}

  /** One reservation record reads back as its address and size. */
  lemma TwoWords(pre: seq<u8>, a: u64, z: u64, post: seq<u8>)
    ensures var d := pre + ToBe64(a) + ToBe64(z) + post;
      |pre| + 16 <= |d| && Be64At(d, |pre|) == a && Be64At(d, |pre| + 8) == z
  {
    var d := pre + ToBe64(a) + ToBe64(z) + post;
    assert d == pre + ToBe64(a) + (ToBe64(z) + post);
    Be64AtEncoded(pre, a, ToBe64(z) + post);
    Be64AtEncoded(pre + ToBe64(a), z, post);
  }

  // ---------------------------------------------------------------------
  // The strings block: names interned in first-use order

  /** The distinct names of `ns`, each where it first occurs. */
  function FirstUses(ns: seq<seq<u8>>): (r: seq<seq<u8>>)
    ensures forall k :: k in r <==> k in ns
    ensures forall i, j :: 0 <= i < j < |r| ==> r[i] != r[j]
    decreases |ns|
  {
    if |ns| == 0 then []
    else
      var us := FirstUses(ns[..|ns| - 1]);
      var k := ns[|ns| - 1];
      assert ns == ns[..|ns| - 1] + [k];
      if k in us then us else us + [k]
  }

  /** Names laid end to end, each followed by a NUL. */
  function Table(us: seq<seq<u8>>): (r: seq<u8>)
    decreases |us|
  {
    if |us| == 0 then [] else Table(us[..|us| - 1]) + us[|us| - 1] + [0]
  }

  /** `a` is an initial part of `b`. */
  predicate IsPrefix(a: seq<u8>, b: seq<u8>)
  {
    |a| <= |b| && b[..|a|] == a
  }

  /** Further names only extend the table. */
  lemma {:induction false} TableGrows(ns: seq<seq<u8>>, more: seq<seq<u8>>)
    ensures IsPrefix(Table(FirstUses(ns)), Table(FirstUses(ns + more)))
    decreases |more|
  {
    if |more| == 0 {
      assert ns + more == ns;
    } else {
      var most := more[..|more| - 1];
      TableGrows(ns, most);
      var all := ns + more;
      assert all[..|all| - 1] == ns + most;
      var us := FirstUses(ns + most);
      var k := all[|all| - 1];
      if k !in us {
        assert (us + [k])[..|us|] == us;
        assert Table(FirstUses(all)) == Table(us) + k + [0];
      }
    }
  }

  /** The three growing pieces of `write_root`'s state: the structure
      block, the strings block and the map from each name written so far
      to its offset in the strings block. */
  datatype Blocks = Blocks(structure: seq<u8>, strings: seq<u8>, offsets: map<seq<u8>, u32>)

  /** After writing the property names `ns`: the strings block is those
      names in first-use order, the map knows exactly those names, and
      each maps to where that name and its NUL lie. */
  ghost predicate Interned(b: Blocks, ns: seq<seq<u8>>)
  {
    && b.strings == Table(FirstUses(ns))
    && (forall k :: k in b.offsets <==> k in ns)
    && (forall k :: k in b.offsets ==> StoredAt(b.strings, b.offsets[k], k))
  }

  /** Every name `m` knows keeps its offset in `m'`. */
  predicate Keeps(m: map<seq<u8>, u32>, m': map<seq<u8>, u32>)
  {
    forall k :: k in m ==> k in m' && m'[k] == m[k]
  }

  // ---------------------------------------------------------------------
  // write_prop

  /** PROP, the value length, the name offset, the value, and zero
      padding to four bytes. A name seen before in this call reuses its
      offset; a new one is appended to the strings block at its current
      length. An offset or length that does not fit in 32 bits panics. */
  function WriteProp(b: Blocks, p: DeviceTreeProperty): (r: Run<Blocks>)
    ensures !r.Hangs?
    ensures r.Panics? <==> (p.name !in b.offsets && |b.strings| > U32_MAX) || |p.value| > U32_MAX
    ensures r.Returns? ==>
      && IsPrefix(b.structure, r.value.structure)
      && |r.value.structure| == Align(|b.structure| + 12 + |p.value|)
      && IsPrefix(b.strings, r.value.strings)
      && p.name in r.value.offsets && Keeps(b.offsets, r.value.offsets)
  {
    if p.name !in b.offsets && |b.strings| > U32_MAX then Panics
    else if |p.value| > U32_MAX then Panics
    else
      var off: u32 := if p.name in b.offsets then b.offsets[p.name] else |b.strings|;
      var strings := if p.name in b.offsets then b.strings else b.strings + p.name + [0];
      var s := b.structure + ToBe32(FDT_PROP) + ToBe32(|p.value|) + ToBe32(off) + p.value;
      Returns(Blocks(Padded(s), strings, b.offsets[p.name := off]))
  }

  /** The record `write_prop` appends: PROP, the value's length, the
      offset the map now holds for the name, the value, then zeros. */
  lemma WritePropRecord(b: Blocks, p: DeviceTreeProperty)
    requires WriteProp(b, p).Returns?
    ensures var s0 := |b.structure|;
      var q := WriteProp(b, p).value.structure;
      && Be32At(q, s0) == FDT_PROP && Be32At(q, s0 + 4) == |p.value|
      && Be32At(q, s0 + 8) == WriteProp(b, p).value.offsets[p.name]
      && (forall j :: 0 <= j < |p.value| ==> q[s0 + 12 + j] == p.value[j])
      && (forall j :: s0 + 12 + |p.value| <= j < |q| ==> q[j] == 0)
  {
    var off: u32 := WriteProp(b, p).value.offsets[p.name];
    var s := b.structure + ToBe32(FDT_PROP) + ToBe32(|p.value|) + ToBe32(off) + p.value;
    RecordWords(b.structure, FDT_PROP, |p.value|, off, p.value);
    var q := WriteProp(b, p).value.structure;
    assert q == Padded(s);
    WordInPrefix(s, q, |b.structure|);
    WordInPrefix(s, q, |b.structure| + 4);
    WordInPrefix(s, q, |b.structure| + 8);
  }

  /** Where the three header words and the value of a record land. */
  lemma RecordWords(pre: seq<u8>, x: u32, y: u32, z: u32, v: seq<u8>)
    ensures var s := pre + ToBe32(x) + ToBe32(y) + ToBe32(z) + v;
      && Be32At(s, |pre|) == x && Be32At(s, |pre| + 4) == y && Be32At(s, |pre| + 8) == z
      && forall j :: 0 <= j < |v| ==> s[|pre| + 12 + j] == v[j]
  {
    var s := pre + ToBe32(x) + ToBe32(y) + ToBe32(z) + v;
    assert s == pre + ToBe32(x) + (ToBe32(y) + ToBe32(z) + v);
    Be32AtEncoded(pre, x, ToBe32(y) + ToBe32(z) + v);
    assert s == (pre + ToBe32(x)) + ToBe32(y) + (ToBe32(z) + v);
    Be32AtEncoded(pre + ToBe32(x), y, ToBe32(z) + v);
    Be32AtEncoded(pre + ToBe32(x) + ToBe32(y), z, v);
  }

  /** `write_prop` keeps the strings block and the map in step with the
      names written: one more name, interned if it is new. */
  lemma WritePropInterned(b: Blocks, ns: seq<seq<u8>>, p: DeviceTreeProperty)
    requires Interned(b, ns)
    ensures WriteProp(b, p).Returns? ==> Interned(WriteProp(b, p).value, ns + [p.name])
  {
    var all := ns + [p.name];
    assert all[..|all| - 1] == ns;
    if WriteProp(b, p).Returns? && p.name !in b.offsets {
      var b' := WriteProp(b, p).value;
      assert b'.strings == Table(FirstUses(ns) + [p.name]);
      forall k | k in b'.offsets
        ensures StoredAt(b'.strings, b'.offsets[k], k)
      {
        if k == p.name {
          StoredAtEnd(b.strings, k);
        } else {
          StoredAfter(b.strings, b.offsets[k], k, p.name + [0]);
        }
      }
    }
  }

  lemma StoredAtEnd(data: seq<u8>, k: seq<u8>)
    ensures StoredAt(data + k + [0], |data|, k)
  {}

  lemma StoredAfter(data: seq<u8>, o: nat, k: seq<u8>, extra: seq<u8>)
    requires StoredAt(data, o, k)
    ensures StoredAt(data + extra, o, k)
  {}

  /** `align`: zero bytes up to the next multiple of four. */
  function Padded(s: seq<u8>): (r: seq<u8>)
    ensures |r| == Align(|s|) && IsPrefix(s, r)
    ensures forall j :: |s| <= j < |r| ==> r[j] == 0
  {
    s + Zeros(Align(|s|) - |s|)
  }

  /** Aligning past an aligned offset is aligning the rest. */
  lemma AlignShift(a: nat, x: nat)
    requires a % 4 == 0
    ensures Align(a + x) == a + Align(x)
  {
    assert (a + x) % 4 == x % 4;
  }

  // ---------------------------------------------------------------------
  // Sizes and names of what `write_node` emits

  /** The bytes a property record takes in an aligned structure block. */
  function PropSize(p: DeviceTreeProperty): nat
  {
    12 + Align(|p.value|)
  }

  function PropsSize(ps: seq<DeviceTreeProperty>): nat
    decreases |ps|
  {
    if |ps| == 0 then 0 else PropSize(ps[0]) + PropsSize(ps[1..])
  }

  /** The bytes a subtree takes in an aligned structure block: BEGIN_NODE
      and the padded name, the property records, the children's subtrees,
      END_NODE. */
  function NodeSize(n: DeviceTreeNode): nat
    decreases n, 1
  {
    8 + Align(|n.name| + 1) + PropsSize(Properties(n)) + ChildrenSize(n, 0)
  }

  function ChildrenSize(n: DeviceTreeNode, i: nat): nat
    decreases n, 0, |n.children.entries| - i
  {
    if i >= |n.children.entries| then 0
    else
      assert n.children.entries[i] in n.children.entries;
      NodeSize(n.children.entries[i].1) + ChildrenSize(n, i + 1)
  }

  function Names(ps: seq<DeviceTreeProperty>): (r: seq<seq<u8>>)
    ensures |r| == |ps|
    decreases |ps|
  {
    if |ps| == 0 then [] else [ps[0].name] + Names(ps[1..])
  }

  /** The property names of a subtree in the order `write_node` meets
      them: a node's own, then each child's subtree in turn. */
  function PropNames(n: DeviceTreeNode): seq<seq<u8>>
    decreases n, 1
  {
    Names(Properties(n)) + PropNamesFrom(n, 0)
  }

  function PropNamesFrom(n: DeviceTreeNode, i: nat): seq<seq<u8>>
    decreases n, 0, |n.children.entries| - i
  {
    if i >= |n.children.entries| then []
    else
      assert n.children.entries[i] in n.children.entries;
      PropNames(n.children.entries[i].1) + PropNamesFrom(n, i + 1)
  }

  /** A word inside `s` reads the same in anything `s` begins. */
  lemma WordInPrefix(s: seq<u8>, t: seq<u8>, o: nat)
    requires IsPrefix(s, t) && o + 4 <= |s|
    ensures Be32At(t, o) == Be32At(s, o)
  {
    assert t[o] == t[..|s|][o] && t[o + 1] == t[..|s|][o + 1];
    assert t[o + 2] == t[..|s|][o + 2] && t[o + 3] == t[..|s|][o + 3];
  }

  lemma PrefixTrans(a: seq<u8>, b: seq<u8>, c: seq<u8>)
    requires IsPrefix(a, b) && IsPrefix(b, c)
    ensures IsPrefix(a, c)
  {
    assert c[..|a|] == c[..|b|][..|a|];
  }

  // ---------------------------------------------------------------------
  // write_node

  /** The property loop of `write_node`. */
  function WriteProps(b: Blocks, ps: seq<DeviceTreeProperty>): (r: Run<Blocks>)
    ensures !r.Hangs?
    ensures r.Returns? ==>
      && IsPrefix(b.structure, r.value.structure) && IsPrefix(b.strings, r.value.strings)
      && (|b.structure| % 4 == 0 ==> |r.value.structure| == |b.structure| + PropsSize(ps))
      && Keeps(b.offsets, r.value.offsets)
    decreases |ps|
  {
    if |ps| == 0 then Returns(b)
    else
      var r1 := WriteProp(b, ps[0]);
      if r1.Panics? then Panics
      else
        var r2 := WriteProps(r1.value, ps[1..]);
        if r2.Panics? then Panics
        else
          PropsStep(b, r1.value, r2.value, ps);
          r2
  }

  lemma PropsStep(b: Blocks, b1: Blocks, b2: Blocks, ps: seq<DeviceTreeProperty>)
    requires |ps| > 0
    requires IsPrefix(b.structure, b1.structure) && IsPrefix(b.strings, b1.strings)
    requires |b1.structure| == Align(|b.structure| + 12 + |ps[0].value|)
    requires IsPrefix(b1.structure, b2.structure) && IsPrefix(b1.strings, b2.strings)
    requires |b1.structure| % 4 == 0 ==> |b2.structure| == |b1.structure| + PropsSize(ps[1..])
    ensures IsPrefix(b.structure, b2.structure) && IsPrefix(b.strings, b2.strings)
    ensures |b.structure| % 4 == 0 ==> |b2.structure| == |b.structure| + PropsSize(ps)
  {
    PrefixTrans(b.structure, b1.structure, b2.structure);
    PrefixTrans(b.strings, b1.strings, b2.strings);
    if |b.structure| % 4 == 0 {
      AlignShift(|b.structure|, 12 + |ps[0].value|);
      AlignShift(12, |ps[0].value|);
    }
  }

  /** `write_node`: BEGIN_NODE, the name, a NUL and padding, then the
      properties in order, then the children's subtrees in order, then
      END_NODE. Every write leaves the structure block a multiple of four
      bytes long. */
  function WriteNode(b: Blocks, n: DeviceTreeNode): (r: Run<Blocks>)
    ensures !r.Hangs?
    ensures r.Returns? ==>
      && IsPrefix(b.structure, r.value.structure) && IsPrefix(b.strings, r.value.strings)
      && |b.structure| + 9 + |n.name| <= |r.value.structure| && |r.value.structure| % 4 == 0
      && (|b.structure| % 4 == 0 ==> |r.value.structure| == |b.structure| + NodeSize(n))
      && Keeps(b.offsets, r.value.offsets)
    decreases n, 2
  {
    var b1 := b.(structure := Opening(b.structure, n.name));
    var r1 := WriteProps(b1, Properties(n));
    if r1.Panics? then Panics
    else
      var r2 := WriteChildren(r1.value, n, 0);
      if r2.Panics? then Panics
      else
        var b3 := r2.value.(structure := r2.value.structure + ToBe32(FDT_END_NODE));
        NodeStep(b, b1, r1.value, r2.value, b3, n);
        Returns(b3)
  }

  /** BEGIN_NODE, the name and its NUL, padded. */
  function Opening(pre: seq<u8>, name: seq<u8>): (r: seq<u8>)
    ensures |r| == Align(|pre| + 5 + |name|) && IsPrefix(pre, r)
  {
    Padded(pre + ToBe32(FDT_BEGIN_NODE) + name + [0])
  }

  lemma NodeStep(b: Blocks, b1: Blocks, b2: Blocks, b3: Blocks, b4: Blocks, n: DeviceTreeNode)
    requires b1 == b.(structure := Opening(b.structure, n.name))
    requires IsPrefix(b1.structure, b2.structure) && IsPrefix(b1.strings, b2.strings)
    requires |b2.structure| == |b1.structure| + PropsSize(Properties(n))
    requires IsPrefix(b2.structure, b3.structure) && IsPrefix(b2.strings, b3.strings)
    requires |b2.structure| % 4 == 0 ==> |b3.structure| == |b2.structure| + ChildrenSize(n, 0)
    requires b4 == b3.(structure := b3.structure + ToBe32(FDT_END_NODE))
    ensures IsPrefix(b.structure, b4.structure) && IsPrefix(b.strings, b4.strings)
    ensures |b.structure| + 9 + |n.name| <= |b4.structure| && |b4.structure| % 4 == 0
    ensures |b.structure| % 4 == 0 ==> |b4.structure| == |b.structure| + NodeSize(n)
  {
    PrefixTrans(b1.structure, b2.structure, b3.structure);
    PrefixTrans(b.structure, b1.structure, b3.structure);
    PrefixTrans(b.strings, b2.strings, b3.strings);
    NodeLength(|b.structure|, n, |b1.structure|, |b2.structure|, |b3.structure|);
  }

  lemma NodeLength(l: nat, n: DeviceTreeNode, l1: nat, l2: nat, l3: nat)
    requires l1 == Align(l + 5 + |n.name|)
    requires l2 == l1 + PropsSize(Properties(n))
    requires l2 % 4 == 0 ==> l3 == l2 + ChildrenSize(n, 0)
    ensures l + 5 + |n.name| <= l1 && l3 + 4 >= l1 + 4 && (l3 + 4) % 4 == 0
    ensures l % 4 == 0 ==> l3 + 4 == l + NodeSize(n)
  {
    var p := PropsSize(Properties(n));
    var c := ChildrenSize(n, 0);
    PropsAligned(Properties(n));
    ChildrenAligned(n, 0);
    Mod4Sum(l1, p);
    Mod4Sum(l2, c);
    Mod4Sum(l3, 4);
    if l % 4 == 0 {
      OpeningLength(l, |n.name|);
      assert NodeSize(n) == 8 + Align(|n.name| + 1) + p + c;
    }
  }

  lemma OpeningLength(l: nat, k: nat)
    requires l % 4 == 0
    ensures Align(l + 5 + k) == l + 4 + Align(k + 1)
  {
    AlignShift(l, 4 + k + 1);
    AlignShift(4, k + 1);
  }

  lemma Mod4Sum(a: nat, b: nat)
    requires a % 4 == 0 && b % 4 == 0
    ensures (a + b) % 4 == 0
  {}

  lemma {:induction false} PropsAligned(ps: seq<DeviceTreeProperty>)
    ensures PropsSize(ps) % 4 == 0
    decreases |ps|
  {
    if |ps| > 0 {
      PropsAligned(ps[1..]);
      Mod4Sum(12 + Align(|ps[0].value|), PropsSize(ps[1..]));
    }
  }

  lemma {:induction false} NodeAligned(n: DeviceTreeNode)
    ensures NodeSize(n) % 4 == 0
    decreases n, 1
  {
    PropsAligned(Properties(n));
    ChildrenAligned(n, 0);
    Mod4Sum(8 + Align(|n.name| + 1), PropsSize(Properties(n)));
    Mod4Sum(8 + Align(|n.name| + 1) + PropsSize(Properties(n)), ChildrenSize(n, 0));
  }

  lemma {:induction false} ChildrenAligned(n: DeviceTreeNode, i: nat)
    ensures ChildrenSize(n, i) % 4 == 0
    decreases n, 0, |n.children.entries| - i
  {
    if i < |n.children.entries| {
      assert n.children.entries[i] in n.children.entries;
      NodeAligned(n.children.entries[i].1);
      ChildrenAligned(n, i + 1);
      Mod4Sum(NodeSize(n.children.entries[i].1), ChildrenSize(n, i + 1));
    }
  }

  /** A node record opens with BEGIN_NODE and the padded name and closes
      with END_NODE. */
  lemma WriteNodeFrame(b: Blocks, n: DeviceTreeNode)
    requires WriteNode(b, n).Returns?
    ensures var q := WriteNode(b, n).value.structure;
      IsPrefix(Opening(b.structure, n.name), q) && q[|q| - 4..] == ToBe32(FDT_END_NODE)
  {
    var b1 := b.(structure := Opening(b.structure, n.name));
    var r1 := WriteProps(b1, Properties(n));
    var r2 := WriteChildren(r1.value, n, 0);
    var q := r2.value.structure + ToBe32(FDT_END_NODE);
    assert WriteNode(b, n).value.structure == q;
    PrefixTrans(b1.structure, r1.value.structure, r2.value.structure);
    PrefixTrans(b1.structure, r2.value.structure, q);
  }

  /** Where BEGIN_NODE, the name, its NUL and the closing END_NODE of a
      node record lie. */
  lemma FrameWords(pre: seq<u8>, name: seq<u8>, q: seq<u8>)
    requires IsPrefix(Opening(pre, name), q) && |pre| + 9 + |name| <= |q|
    requires q[|q| - 4..] == ToBe32(FDT_END_NODE)
    ensures Be32At(q, |pre|) == FDT_BEGIN_NODE
    ensures (forall j :: 0 <= j < |name| ==> q[|pre| + 4 + j] == name[j]) && q[|pre| + 4 + |name|] == 0
    ensures Be32At(q, |q| - 4) == FDT_END_NODE
  {
    var s := pre + ToBe32(FDT_BEGIN_NODE) + name + [0];
    PrefixTrans(s, Opening(pre, name), q);
    Be32AtEncoded(pre, FDT_BEGIN_NODE, name + [0]);
    assert s == pre + ToBe32(FDT_BEGIN_NODE) + (name + [0]);
    WordInPrefix(s, q, |pre|);
    Be32AtSlice(q, |q| - 4, ToBe32(FDT_END_NODE), 0);
  }

  /** The child loop of `write_node`, from position `i` on. */
  function WriteChildren(b: Blocks, n: DeviceTreeNode, i: nat): (r: Run<Blocks>)
    requires i <= |n.children.entries|
    ensures !r.Hangs?
    ensures r.Returns? ==>
      && IsPrefix(b.structure, r.value.structure) && IsPrefix(b.strings, r.value.strings)
      && (|b.structure| % 4 == 0 ==> |r.value.structure| == |b.structure| + ChildrenSize(n, i))
      && Keeps(b.offsets, r.value.offsets)
    decreases n, 1, |n.children.entries| - i
  {
    if i == |n.children.entries| then Returns(b)
    else
      assert n.children.entries[i] in n.children.entries;
      var r1 := WriteNode(b, n.children.entries[i].1);
      if r1.Panics? then Panics
      else
        var r2 := WriteChildren(r1.value, n, i + 1);
        if r2.Panics? then Panics
        else
          PrefixTrans(b.structure, r1.value.structure, r2.value.structure);
          PrefixTrans(b.strings, r1.value.strings, r2.value.strings);
          r2
  }

  // ---------------------------------------------------------------------
  // The node record, stated independently of the writer's state

  /** The name offset `offsets` gives `name`; a name it lacks never
      reaches a written record. */
  function OffsetOf(offsets: map<seq<u8>, u32>, name: seq<u8>): u32
  {
    if name in offsets then offsets[name] else 0
  }

  /** A length as a 32-bit word; a longer value makes the writer panic
      before any record holds it. */
  function LengthWord(x: nat): u32
  {
    if x <= U32_MAX then x else 0
  }

  /** One property record with the name offsets `offsets`: PROP, the value
      length, the name offset, the value, zeros to four bytes. */
  function PropBytes(p: DeviceTreeProperty, offsets: map<seq<u8>, u32>): seq<u8>
  {
    Padded(ToBe32(FDT_PROP) + ToBe32(LengthWord(|p.value|)) + ToBe32(OffsetOf(offsets, p.name)) + p.value)
  }

  function PropsBytes(ps: seq<DeviceTreeProperty>, offsets: map<seq<u8>, u32>): seq<u8>
    decreases |ps|
  {
    if |ps| == 0 then [] else PropBytes(ps[0], offsets) + PropsBytes(ps[1..], offsets)
  }

  /** The record of a subtree: BEGIN_NODE and the name with its NUL,
      padded; the property records in order; the children's records in
      order; END_NODE. */
  function NodeRecord(n: DeviceTreeNode, offsets: map<seq<u8>, u32>): seq<u8>
    decreases n, 1
  {
    Padded(ToBe32(FDT_BEGIN_NODE) + n.name + [0]) + PropsBytes(Properties(n), offsets)
      + ChildrenRecords(n, 0, offsets) + ToBe32(FDT_END_NODE)
  }

  function ChildrenRecords(n: DeviceTreeNode, i: nat, offsets: map<seq<u8>, u32>): seq<u8>
    decreases n, 0, |n.children.entries| - i
  {
    if i >= |n.children.entries| then []
    else
      assert n.children.entries[i] in n.children.entries;
      NodeRecord(n.children.entries[i].1, offsets) + ChildrenRecords(n, i + 1, offsets)
  }

  /** Padding after an aligned prefix pads only what follows it. */
  lemma PaddedAfter(pre: seq<u8>, s: seq<u8>)
    requires |pre| % 4 == 0
    ensures Padded(pre + s) == pre + Padded(s)
  {
    AlignShift(|pre|, |s|);
    assert pre + s + Zeros(Align(|pre| + |s|) - |pre + s|) == pre + (s + Zeros(Align(|s|) - |s|));
  }

  /** From an aligned start, `write_node` appends exactly the record of
      the subtree, every name offset in it being the one the final map
      holds. */
  lemma WriteNodeRecord(b: Blocks, n: DeviceTreeNode)
    requires |b.structure| % 4 == 0
    requires WriteNode(b, n).Returns?
    ensures WriteNode(b, n).value.structure == b.structure + NodeRecord(n, WriteNode(b, n).value.offsets)
  {
    WriteNodeBytes(b, n, WriteNode(b, n).value.offsets);
  }

  /** The property loop appends the property records, read with any map
      `fin` that keeps the offsets it leaves. */
  lemma {:induction false} WritePropsBytes(b: Blocks, ps: seq<DeviceTreeProperty>, fin: map<seq<u8>, u32>)
    requires |b.structure| % 4 == 0
    requires WriteProps(b, ps).Returns? && Keeps(WriteProps(b, ps).value.offsets, fin)
    ensures WriteProps(b, ps).value.structure == b.structure + PropsBytes(ps, fin)
    ensures |WriteProps(b, ps).value.structure| % 4 == 0
    decreases |ps|
  {
    if |ps| > 0 {
      var b1 := WriteProp(b, ps[0]).value;
      var r2 := WriteProps(b1, ps[1..]);
      assert WriteProps(b, ps) == r2;
      KeepsTrans(b1.offsets, r2.value.offsets, fin);
      WritePropBytes(b, ps[0], fin);
      WritePropsBytes(b1, ps[1..], fin);
      Assoc(b.structure, PropBytes(ps[0], fin), PropsBytes(ps[1..], fin));
    }
  }

  /** One property record, from an aligned start. */
  lemma WritePropBytes(b: Blocks, p: DeviceTreeProperty, fin: map<seq<u8>, u32>)
    requires |b.structure| % 4 == 0
    requires WriteProp(b, p).Returns? && Keeps(WriteProp(b, p).value.offsets, fin)
    ensures WriteProp(b, p).value.structure == b.structure + PropBytes(p, fin)
    ensures |WriteProp(b, p).value.structure| % 4 == 0
  {
    var off := WriteProp(b, p).value.offsets[p.name];
    var rec := ToBe32(FDT_PROP) + ToBe32(|p.value|) + ToBe32(off) + p.value;
    assert OffsetOf(fin, p.name) == off && LengthWord(|p.value|) == |p.value|;
    assert PropBytes(p, fin) == Padded(rec);
    assert b.structure + ToBe32(FDT_PROP) + ToBe32(|p.value|) + ToBe32(off) + p.value == b.structure + rec;
    PaddedAfter(b.structure, rec);
  }

  lemma KeepsTrans(a: map<seq<u8>, u32>, b: map<seq<u8>, u32>, c: map<seq<u8>, u32>)
    requires Keeps(a, b) && Keeps(b, c)
    ensures Keeps(a, c)
  {}

  lemma Assoc(a: seq<u8>, b: seq<u8>, c: seq<u8>)
    ensures a + b + c == a + (b + c)
  {}

  lemma {:induction false} WriteNodeBytes(b: Blocks, n: DeviceTreeNode, fin: map<seq<u8>, u32>)
    requires |b.structure| % 4 == 0
    requires WriteNode(b, n).Returns? && Keeps(WriteNode(b, n).value.offsets, fin)
    ensures WriteNode(b, n).value.structure == b.structure + NodeRecord(n, fin)
    decreases n, 2
  {
    var b1 := b.(structure := Opening(b.structure, n.name));
    var r1 := WriteProps(b1, Properties(n)).value;
    var r2 := WriteChildren(r1, n, 0).value;
    assert WriteNode(b, n).value == r2.(structure := r2.structure + ToBe32(FDT_END_NODE));
    KeepsTrans(r1.offsets, r2.offsets, fin);
    OpeningBytes(b.structure, n.name);
    WritePropsBytes(b1, Properties(n), fin);
    WriteChildrenBytes(r1, n, 0, fin);
    NodeRecordParts(b.structure, Padded(ToBe32(FDT_BEGIN_NODE) + n.name + [0]), PropsBytes(Properties(n), fin),
      ChildrenRecords(n, 0, fin), ToBe32(FDT_END_NODE));
  }

  /** The opening of a node record, from an aligned start. */
  lemma OpeningBytes(pre: seq<u8>, name: seq<u8>)
    requires |pre| % 4 == 0
    ensures Opening(pre, name) == pre + Padded(ToBe32(FDT_BEGIN_NODE) + name + [0])
  {
    var s := ToBe32(FDT_BEGIN_NODE) + name + [0];
    assert pre + ToBe32(FDT_BEGIN_NODE) + name + [0] == pre + s;
    PaddedAfter(pre, s);
  }

  lemma NodeRecordParts(pre: seq<u8>, o: seq<u8>, ps: seq<u8>, cs: seq<u8>, e: seq<u8>)
    ensures pre + o + ps + cs + e == pre + (o + ps + cs + e)
  {}

  lemma {:induction false} WriteChildrenBytes(b: Blocks, n: DeviceTreeNode, i: nat, fin: map<seq<u8>, u32>)
    requires i <= |n.children.entries| && |b.structure| % 4 == 0
    requires WriteChildren(b, n, i).Returns? && Keeps(WriteChildren(b, n, i).value.offsets, fin)
    ensures WriteChildren(b, n, i).value.structure == b.structure + ChildrenRecords(n, i, fin)
    decreases n, 1, |n.children.entries| - i
  {
    if i < |n.children.entries| {
      assert n.children.entries[i] in n.children.entries;
      var c := n.children.entries[i].1;
      var r1 := WriteNode(b, c).value;
      var r2 := WriteChildren(r1, n, i + 1);
      assert WriteChildren(b, n, i) == r2;
      KeepsTrans(r1.offsets, r2.value.offsets, fin);
      WriteNodeBytes(b, c, fin);
      WriteChildrenBytes(r1, n, i + 1, fin);
      Assoc(b.structure, NodeRecord(c, fin), ChildrenRecords(n, i + 1, fin));
    }
  }

  // ---------------------------------------------------------------------
  // The strings block and the panics of write_node

  /** The property loop interns the names in order. */
  lemma {:induction false} WritePropsInterned(b: Blocks, ns: seq<seq<u8>>, ps: seq<DeviceTreeProperty>)
    requires Interned(b, ns)
    ensures WriteProps(b, ps).Returns? ==> Interned(WriteProps(b, ps).value, ns + Names(ps))
    decreases |ps|
  {
    if |ps| == 0 {
      assert ns + Names(ps) == ns;
    } else {
      var ns1 := ns + [ps[0].name];
      assert ns + Names(ps) == ns1 + Names(ps[1..]);
      var r1 := WriteProp(b, ps[0]);
      if r1.Returns? {
        WritePropInterned(b, ns, ps[0]);
        WritePropsInterned(r1.value, ns1, ps[1..]);
        assert WriteProps(b, ps) == WriteProps(r1.value, ps[1..]);
      }
    }
  }

  /** `write_node` interns the subtree's property names in the order it
      meets them. */
  lemma {:induction false} WriteNodeInterned(b: Blocks, ns: seq<seq<u8>>, n: DeviceTreeNode)
    requires Interned(b, ns)
    ensures WriteNode(b, n).Returns? ==> Interned(WriteNode(b, n).value, ns + PropNames(n))
    decreases n, 2
  {
    var b1 := b.(structure := Opening(b.structure, n.name));
    var ps := Properties(n);
    var ns1 := ns + Names(ps);
    assert ns + PropNames(n) == ns1 + PropNamesFrom(n, 0);
    WritePropsInterned(b1, ns, ps);
    var r1 := WriteProps(b1, ps);
    if r1.Returns? {
      WriteChildrenInterned(r1.value, ns1, n, 0);
      var r2 := WriteChildren(r1.value, n, 0);
      if r2.Returns? {
        assert WriteNode(b, n) == Returns(r2.value.(structure := r2.value.structure + ToBe32(FDT_END_NODE)));
      }
    }
  }

  lemma {:induction false} WriteChildrenInterned(b: Blocks, ns: seq<seq<u8>>, n: DeviceTreeNode, i: nat)
    requires i <= |n.children.entries|
    requires Interned(b, ns)
    ensures WriteChildren(b, n, i).Returns? ==> Interned(WriteChildren(b, n, i).value, ns + PropNamesFrom(n, i))
    decreases n, 1, |n.children.entries| - i
  {
    if i == |n.children.entries| {
      assert ns + PropNamesFrom(n, i) == ns;
    } else {
      assert n.children.entries[i] in n.children.entries;
      var c := n.children.entries[i].1;
      var ns1 := ns + PropNames(c);
      assert ns + PropNamesFrom(n, i) == ns1 + PropNamesFrom(n, i + 1);
      WriteNodeInterned(b, ns, c);
      var r1 := WriteNode(b, c);
      if r1.Returns? {
        WriteChildrenInterned(r1.value, ns1, n, i + 1);
        assert WriteChildren(b, n, i) == WriteChildren(r1.value, n, i + 1);
      }
    }
  }

  /** The longest property value among `ps`. */
  function ValueMax(ps: seq<DeviceTreeProperty>): nat
    decreases |ps|
  {
    if |ps| == 0 then 0
    else if |ps[0].value| < ValueMax(ps[1..]) then ValueMax(ps[1..])
    else |ps[0].value|
  }

  /** The longest property value in a subtree. */
  function NodeValueMax(n: DeviceTreeNode): nat
    decreases n, 1
  {
    var a := ValueMax(Properties(n));
    var c := ChildrenValueMax(n, 0);
    if a < c then c else a
  }

  function ChildrenValueMax(n: DeviceTreeNode, i: nat): nat
    decreases n, 0, |n.children.entries| - i
  {
    if i >= |n.children.entries| then 0
    else
      assert n.children.entries[i] in n.children.entries;
      var a := NodeValueMax(n.children.entries[i].1);
      var c := ChildrenValueMax(n, i + 1);
      if a < c then c else a
  }

  /** The property loop panics only when a value is longer than 32 bits
      can count or the strings block would outgrow 32 bits. */
  lemma {:induction false} WritePropsPanics(b: Blocks, ns: seq<seq<u8>>, ps: seq<DeviceTreeProperty>)
    requires Interned(b, ns)
    ensures WriteProps(b, ps).Panics? ==>
      ValueMax(ps) > U32_MAX || |Table(FirstUses(ns + Names(ps)))| > U32_MAX
    decreases |ps|
  {
    if |ps| > 0 {
      var ns1 := ns + [ps[0].name];
      assert ns + Names(ps) == ns1 + Names(ps[1..]);
      var r1 := WriteProp(b, ps[0]);
      if r1.Panics? {
        TableGrows(ns, Names(ps));
      } else {
        WritePropInterned(b, ns, ps[0]);
        WritePropsPanics(r1.value, ns1, ps[1..]);
        assert WriteProps(b, ps) == WriteProps(r1.value, ps[1..]);
      }
    }
  }

  /** `write_node` panics only when a value in the subtree is longer than
      32 bits can count or the strings block would outgrow 32 bits. */
  lemma {:induction false} WriteNodePanics(b: Blocks, ns: seq<seq<u8>>, n: DeviceTreeNode)
    requires Interned(b, ns)
    ensures WriteNode(b, n).Panics? ==>
      NodeValueMax(n) > U32_MAX || |Table(FirstUses(ns + PropNames(n)))| > U32_MAX
    decreases n, 2
  {
    var b1 := b.(structure := Opening(b.structure, n.name));
    var ps := Properties(n);
    var ns1 := ns + Names(ps);
    assert ns + PropNames(n) == ns1 + PropNamesFrom(n, 0);
    WritePropsPanics(b1, ns, ps);
    var r1 := WriteProps(b1, ps);
    if r1.Panics? {
      TableGrows(ns1, PropNamesFrom(n, 0));
    } else {
      WritePropsInterned(b1, ns, ps);
      WriteChildrenPanics(r1.value, ns1, n, 0);
      assert WriteNode(b, n).Panics? ==> WriteChildren(r1.value, n, 0).Panics?;
    }
  }

  lemma {:induction false} WriteChildrenPanics(b: Blocks, ns: seq<seq<u8>>, n: DeviceTreeNode, i: nat)
    requires i <= |n.children.entries|
    requires Interned(b, ns)
    ensures WriteChildren(b, n, i).Panics? ==>
      ChildrenValueMax(n, i) > U32_MAX || |Table(FirstUses(ns + PropNamesFrom(n, i)))| > U32_MAX
    decreases n, 1, |n.children.entries| - i
  {
    if i < |n.children.entries| {
      assert n.children.entries[i] in n.children.entries;
      var c := n.children.entries[i].1;
      var ns1 := ns + PropNames(c);
      assert ns + PropNamesFrom(n, i) == ns1 + PropNamesFrom(n, i + 1);
      WriteNodePanics(b, ns, c);
      var r1 := WriteNode(b, c);
      if r1.Panics? {
        TableGrows(ns1, PropNamesFrom(n, i + 1));
      } else {
        WriteNodeInterned(b, ns, c);
        WriteChildrenPanics(r1.value, ns1, n, i + 1);
        assert WriteChildren(b, n, i) == WriteChildren(r1.value, n, i + 1);
      }
    }
  }

  /** No value is longer than the record that holds it. */
  lemma {:induction false} ValueMaxBound(ps: seq<DeviceTreeProperty>)
    ensures ValueMax(ps) <= PropsSize(ps)
    decreases |ps|
  {
    if |ps| > 0 {
      ValueMaxBound(ps[1..]);
    }
  }

  lemma {:induction false} NodeValueMaxBound(n: DeviceTreeNode)
    ensures NodeValueMax(n) <= NodeSize(n)
    decreases n, 1
  {
    ValueMaxBound(Properties(n));
    ChildrenValueMaxBound(n, 0);
  }

  lemma {:induction false} ChildrenValueMaxBound(n: DeviceTreeNode, i: nat)
    ensures ChildrenValueMax(n, i) <= ChildrenSize(n, i)
    decreases n, 0, |n.children.entries| - i
  {
    if i < |n.children.entries| {
      assert n.children.entries[i] in n.children.entries;
      NodeValueMaxBound(n.children.entries[i].1);
      ChildrenValueMaxBound(n, i + 1);
    }
  }

  // ---------------------------------------------------------------------
  // write_root and to_bytes

  /** `write_root`: the root's record followed by a single END, and the
      strings block, which holds every property name of the tree once, in
      the order the names are first met. */
  function WriteRoot(root: DeviceTreeNode): (r: Run<(seq<u8>, seq<u8>)>)
    ensures !r.Hangs?
    ensures r.Panics? ==> NodeSize(root) > U32_MAX || |Table(FirstUses(PropNames(root)))| > U32_MAX
    ensures r.Returns? ==>
      && |r.value.0| == NodeSize(root) + 4
      && r.value.1 == Table(FirstUses(PropNames(root)))
      && IsPrefix(Opening([], root.name), r.value.0)
      && r.value.0[|r.value.0| - 4..] == ToBe32(FDT_END)
  {
    var b := Blocks([], [], map[]);
    WriteNodeInterned(b, [], root);
    WriteNodePanics(b, [], root);
    NodeValueMaxBound(root);
    assert [] + PropNames(root) == PropNames(root);
    var r := WriteNode(b, root);
    if r.Panics? then Panics
    else
      WriteNodeFrame(b, root);
      var q := r.value.structure + ToBe32(FDT_END);
      PrefixTrans(Opening([], root.name), r.value.structure, q);
      Returns((q, r.value.strings))
  }
  /** The structure block `WriteRoot` returns is the root's record, as
      the node layout lays it out, followed by FDT_END; each property name
      the record refers to has an offset at which the strings block holds
      it. */
  lemma WriteRootRecord(root: DeviceTreeNode)
    requires WriteRoot(root).Returns?
    ensures exists offsets: map<seq<u8>, u32> ::
      && WriteRoot(root).value.0 == NodeRecord(root, offsets) + ToBe32(FDT_END)
      && (forall k :: k in offsets <==> k in PropNames(root))
      && (forall k :: k in offsets ==> StoredAt(WriteRoot(root).value.1, offsets[k], k))
  {
    var b := Blocks([], [], map[]);
    WriteNodeInterned(b, [], root);
    assert [] + PropNames(root) == PropNames(root);
    var r := WriteNode(b, root);
    WriteNodeRecord(b, root);
    assert WriteRoot(root).value.0 == NodeRecord(root, r.value.offsets) + ToBe32(FDT_END);
  }


  /** The length of the blob `to_bytes` produces: header, reservation
      block, structure block with its END, strings block. */
  function Total(t: DeviceTree): nat
  {
    HEADER_SIZE + 16 * (|t.reservations| + 1) + NodeSize(t.root) + 4 + |Table(FirstUses(PropNames(t.root)))|
  }

  /** `to_bytes`: the header, then the reservation, structure and strings
      blocks back to back. It panics exactly when the blob would be longer
      than `u32::MAX` bytes: every other size and offset is smaller than
      the total. */
  function ToBytes(t: DeviceTree): (r: Run<seq<u8>>)
    ensures !r.Hangs?
    ensures r.Panics? <==> Total(t) > U32_MAX
    ensures r.Returns? ==> |r.value| == Total(t)
  {
    var rsv := WriteReservations(t.reservations);
    var w := WriteRoot(t.root);
    if w.Panics? then
      TableGrows(PropNames(t.root), []);
      Panics
    else
      var (st, strs) := w.value;
      var offStruct := HEADER_SIZE + |rsv|;
      var offStrings := offStruct + |st|;
      var total := offStrings + |strs|;
      if total > U32_MAX || offStruct > U32_MAX || offStrings > U32_MAX || |strs| > U32_MAX || |st| > U32_MAX then
        Panics
      else
        Returns(HeaderBytes(TreeHeader(|rsv|, |st|, |strs|)) + rsv + (st + strs))
  }

  /** A blob `to_bytes` returns is accepted by `Fdt::new`; its header
      places the strings block, which holds the name table of the tree;
      and the reservation iterator yields the tree's reservations again
      when none of them is the all-zero record. */
  lemma ToBytesAccepted(t: DeviceTree)
    requires ToBytes(t).Returns?
    ensures FdtHeader.New(ToBytes(t).value).Ok?
    ensures var d := ToBytes(t).value;
      var h := ReadHeader(d);
      d[h.off_dt_strings..] == Table(FirstUses(PropNames(t.root)))
    ensures (forall i :: 0 <= i < |t.reservations| ==> t.reservations[i] != MemoryReservation(0, 0)) ==>
      ReservationsFrom(ToBytes(t).value, HEADER_SIZE) == t.reservations
  {
    var rsv := WriteReservations(t.reservations);
    var w := WriteRoot(t.root).value;
    ToBytesBlocks(t);
    var h := TreeHeader(|rsv|, |w.0|, |w.1|);
    BlobLayout(rsv, w.0, w.1);
    if forall i :: 0 <= i < |t.reservations| ==> t.reservations[i] != MemoryReservation(0, 0) {
      ReservationsRoundTrip(HeaderBytes(h), t.reservations, w.0 + w.1);
    }
  }

  /** What a returning `to_bytes` is made of. */
  lemma ToBytesBlocks(t: DeviceTree)
    requires ToBytes(t).Returns?
    ensures WriteRoot(t.root).Returns?
    ensures var rsv := WriteReservations(t.reservations);
      var w := WriteRoot(t.root).value;
      && HEADER_SIZE + |rsv| + |w.0| + |w.1| <= U32_MAX
      && ToBytes(t).value == HeaderBytes(TreeHeader(|rsv|, |w.0|, |w.1|)) + rsv + (w.0 + w.1)
  {
  }

  /** Blocks laid out behind the header `to_bytes` writes for them form a
      blob `Fdt::new` accepts, whose header places the strings block. */
  lemma BlobLayout(rsv: seq<u8>, st: seq<u8>, strs: seq<u8>)
    requires HEADER_SIZE + |rsv| + |st| + |strs| <= U32_MAX
    ensures var d := HeaderBytes(TreeHeader(|rsv|, |st|, |strs|)) + rsv + (st + strs);
      Fdt(d).Valid() && d[ReadHeader(d).off_dt_strings..] == strs
  {
    var h := TreeHeader(|rsv|, |st|, |strs|);
    var d := HeaderBytes(h) + rsv + (st + strs);
    assert d == HeaderBytes(h) + (rsv + st + strs);
    ReadHeaderBytes(h, rsv + st + strs);
  }

  /** The header `to_bytes` writes for blocks of these sizes. */
  function TreeHeader(rsv: nat, st: nat, strs: nat): Header
    requires HEADER_SIZE + rsv + st + strs <= U32_MAX
  {
    Header(FDT_MAGIC, HEADER_SIZE + rsv + st + strs, HEADER_SIZE + rsv, HEADER_SIZE + rsv + st, HEADER_SIZE,
           LAST_VERSION, LAST_COMP_VERSION, 0, strs, st)
  }
}
