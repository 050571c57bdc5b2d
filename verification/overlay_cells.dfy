/** Phandle renumbering inside property values (`PhandleMap::fixup_property`):
    a value whose length is a multiple of four is read as big-endian
    cells, and every recorded (old, new) pair is applied in turn to every
    cell. */
module PhandleCells {
  import opened Bytes
  import opened ModelProperty

  /** The big-endian cells of `v`, front to back; a trailing partial cell
      is ignored. */
  function Cells(v: seq<u8>): (r: seq<u32>)
    ensures |r| == |v| / 4
    decreases |v|
  {
    if |v| < 4 then [] else [Be32At(v, 0)] + Cells(v[4..])
  }

  /** Writing cells and reading them back gives the same cells. */
  lemma {:induction false} CellsOfWords(cs: seq<u32>)
    ensures Cells(Words(cs)) == cs
  {
    if |cs| > 0 {
      var v := Words(cs);
      Be32AtEncoded([], cs[0], Words(cs[1..]));
      assert [] + ToBe32(cs[0]) + Words(cs[1..]) == v;
      assert v[4..] == Words(cs[1..]);
      CellsOfWords(cs[1..]);
    }
  }

  /** A value made of whole cells is exactly the bytes of its cells. */
  lemma {:induction false} WordsOfCells(v: seq<u8>)
    requires |v| % 4 == 0
    ensures Words(Cells(v)) == v
    decreases |v|
  {
    if |v| >= 4 {
      Be32RoundTrip(v, 0);
      WordsOfCells(v[4..]);
      assert v == v[0..4] + v[4..];
    }
  }

  /** One (old, new) pair, `from` to `to`, applied to every cell. */
  function ApplyPair(cs: seq<u32>, from: u32, to: u32): (r: seq<u32>)
    ensures |r| == |cs|
  {
    seq(|cs|, k requires 0 <= k < |cs| => if cs[k] == from then to else cs[k])
  }

  /** The pairs of `m` applied one after another, in recording order: a
      cell rewritten by one pair can be rewritten again by a later one. */
  function ApplyMap(cs: seq<u32>, m: seq<(u32, u32)>): (r: seq<u32>)
    ensures |r| == |cs|
    decreases |m|
  {
    if |m| == 0 then cs else ApplyMap(ApplyPair(cs, m[0].0, m[0].1), m[1..])
  }

  /** Where a single cell value ends up after the pairs of `m`. */
  function Chase(x: u32, m: seq<(u32, u32)>): u32
    decreases |m|
  {
    if |m| == 0 then x else Chase(if x == m[0].0 then m[0].1 else x, m[1..])
  }

  /** Applying the map to all cells is chasing each cell on its own. */
  lemma {:induction false} ApplyMapIsChase(cs: seq<u32>, m: seq<(u32, u32)>)
    ensures forall k :: 0 <= k < |cs| ==> ApplyMap(cs, m)[k] == Chase(cs[k], m)
    decreases |m|
  {
    if |m| > 0 {
      ApplyMapIsChase(ApplyPair(cs, m[0].0, m[0].1), m[1..]);
    }
  }

  /** A value that is no old phandle of the map is left alone. */
  lemma {:induction false} ChaseUntouched(x: u32, m: seq<(u32, u32)>)
    requires forall j :: 0 <= j < |m| ==> m[j].0 != x
    ensures Chase(x, m) == x
    decreases |m|
  {
    if |m| > 0 {
      ChaseUntouched(x, m[1..]);
    }
  }

  /** `fixup_property`: a value whose length is not a multiple of four is
      kept as it is; otherwise every cell is replaced by where the map
      sends it. The name and the length never change. */
  function FixupProperty(m: seq<(u32, u32)>, p: DeviceTreeProperty): (r: DeviceTreeProperty)
    ensures r.name == p.name && |r.value| == |p.value|
    ensures |p.value| % 4 != 0 ==> r == p
    ensures |p.value| % 4 == 0 ==> Cells(r.value) == ApplyMap(Cells(p.value), m)
  {
    if |p.value| % 4 != 0 then p
    else
      CellsOfWords(ApplyMap(Cells(p.value), m));
      SetValue(p, Words(ApplyMap(Cells(p.value), m)))
  }

  /** Cell by cell, the fixed value holds the chased cell; with no pairs
      recorded the property is unchanged. */
  lemma FixupPropertyCells(m: seq<(u32, u32)>, p: DeviceTreeProperty)
    requires |p.value| % 4 == 0
    ensures |Cells(FixupProperty(m, p).value)| == |Cells(p.value)|
    ensures forall k :: 0 <= k < |Cells(p.value)| ==>
      Cells(FixupProperty(m, p).value)[k] == Chase(Cells(p.value)[k], m)
    ensures |m| == 0 ==> FixupProperty(m, p) == p
  {
    ApplyMapIsChase(Cells(p.value), m);
    if |m| == 0 {
      WordsOfCells(p.value);
    }
  }

  /** A one-cell value, such as a phandle reference, becomes the cell the
      map chases it to. */
  lemma FixupWord(m: seq<(u32, u32)>, name: seq<u8>, x: u32)
    ensures FixupProperty(m, DeviceTreeProperty(name, ToBe32(x))) == DeviceTreeProperty(name, ToBe32(Chase(x, m)))
  {
    var p := DeviceTreeProperty(name, ToBe32(x));
    assert Cells(p.value) == [x] by {
      assert ToBe32(x)[4..] == [];
    }
    FixupPropertyCells(m, p);
    var r := FixupProperty(m, p);
    assert Cells(r.value) == [Chase(x, m)];
    WordsOfCells(r.value);
    assert Words([Chase(x, m)]) == ToBe32(Chase(x, m)) + [];
  }

  /** The pairs act in sequence: with (1, 2) recorded before (2, 3), a
      reference to phandle 1 ends up as 3, not 2. */
  lemma SequentialPairs(name: seq<u8>)
    ensures FixupProperty([(1, 2), (2, 3)], DeviceTreeProperty(name, ToBe32(1))).value == ToBe32(3)
  {
    FixupWord([(1, 2), (2, 3)], name, 1);
    assert Chase(1, [(1, 2), (2, 3)]) == 3;
  }
}
