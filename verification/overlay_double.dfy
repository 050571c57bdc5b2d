/** A worked case of `merge_nodes`: a child of the overlay node that
    matches an existing child is renumbered by `fixup_node` before the
    recursive merge and then again inside it, so its phandles are handed
    out twice and two pairs are recorded for one old phandle. */
module DoubleFixup {
  import opened Bytes
  import opened Wrappers
  import opened IndexMaps
  import opened ModelProperty
  import opened ModelNode
  import opened PhandleCells
  import opened Overlay

  /** A node with a single "phandle" property holding `x` and no children. */
  function Leaf(name: seq<u8>, x: u32): DeviceTreeNode
  {
    DeviceTreeNode(name, IndexMap([(PHANDLE, DeviceTreeProperty(PHANDLE, ToBe32(x)))]), IndexMap([]))
  }

  /** A node with no properties and the single child `c`. */
  function Parent(name: seq<u8>, c: DeviceTreeNode): DeviceTreeNode
  {
    DeviceTreeNode(name, IndexMap([]), IndexMap([(c.name, c)]))
  }

  /** Renumbering a leaf hands out the next phandle, records one pair and
      leaves the property holding where the map now sends the new phandle. */
  lemma FixupLeaf(pm: PhandleMap, name: seq<u8>, x: u32)
    requires pm.next < PHANDLE_MAX
    ensures var pairs := pm.pairs + [(x, pm.next)];
      FixupNode(pm, Leaf(name, x))
        == Returns(Ok((PhandleMap(pm.next + 1, pairs), Leaf(name, Chase(pm.next, pairs)))))
  {
    var n := Leaf(name, x);
    var p := DeviceTreeProperty(PHANDLE, ToBe32(x));
    var pairs := pm.pairs + [(x, pm.next)];
    assert Property(n, PHANDLE) == Some(p);
    AsU32OfWord(PHANDLE, x);
    var n1 := WithPhandle(n, p, pm.next);
    RenumberFound(pm, n, p, x);
    assert n1 == Leaf(name, pm.next);
    assert FixupChildren(PhandleMap(pm.next + 1, pairs), n, 0) == Returns(Ok((PhandleMap(pm.next + 1, pairs), [])));
    FixupWord(pairs, PHANDLE, pm.next);
    assert FixupAll(pairs, n1.properties) == IndexMap([(PHANDLE, DeviceTreeProperty(PHANDLE, ToBe32(Chase(pm.next, pairs))))]);
  }

  /** A node holding a single-cell phandle `x` takes the next phandle. */
  lemma RenumberFound(pm: PhandleMap, n: DeviceTreeNode, p: DeviceTreeProperty, x: u32)
    requires Property(n, PHANDLE) == Some(p) && AsU32(p) == Ok(x) && pm.next < PHANDLE_MAX
    ensures Renumber(pm, n) == Returns(Ok((PhandleMap(pm.next + 1, pm.pairs + [(x, pm.next)]), WithPhandle(n, p, pm.next))))
  {}

  /** Inserting under the one key of a one-entry map replaces its value. */
  lemma InsertSingle(k: seq<u8>, x: DeviceTreeNode, y: DeviceTreeNode)
    ensures Insert(IndexMap([(k, x)]), k, y) == IndexMap([(k, y)])
  {
    assert IndexOf([(k, x)], k) == Some(0);
  }

  /** A parent without properties renumbers exactly as its one child does. */
  lemma FixupParent(pm: PhandleMap, name: seq<u8>, c: DeviceTreeNode, pm1: PhandleMap, c1: DeviceTreeNode)
    requires FixupNode(pm, c) == Returns(Ok((pm1, c1)))
    ensures FixupNode(pm, Parent(name, c)) == Returns(Ok((pm1, Parent(name, c1))))
  {
    var n := Parent(name, c);
    assert Property(n, PHANDLE) == None;
    assert Renumber(pm, n) == Returns(Ok((pm, n)));
    assert n.children.entries[0] == (c.name, c);
    assert FixupChildren(pm1, n, 1) == Returns(Ok((pm1, [])));
    assert [(c.name, c1)] + [] == [(c.name, c1)];
    assert FixupChildren(pm, n, 0) == Returns(Ok((pm1, [(c.name, c1)])));
  }

  /** Merging a parent whose one child has no counterpart: the child is
      renumbered once and appended. */
  lemma MergeNewChild(pm: PhandleMap, e: DeviceTreeNode, name: seq<u8>, c: DeviceTreeNode, pm1: PhandleMap, c1: DeviceTreeNode)
    requires FixupNode(pm, c) == Returns(Ok((pm1, c1)))
    requires Child(e, c1.name) == None
    ensures MergeNodes(pm, e, Parent(name, c)) == Returns((AddChild(e, c1), Ok(pm1)))
  {
    var src := Parent(name, c);
    assert Properties(src) == [];
    assert MergeProps(pm.pairs, e, Properties(src)) == e;
    assert src.children.entries[0].1 == c;
    assert MergeChild(pm, e, c) == Returns((AddChild(e, c1), Ok(pm1)));
    assert MergeChildren(pm1, AddChild(e, c1), src, 1) == Returns((AddChild(e, c1), Ok(pm1)));
  }

  /** Merging a parent whose one child matches a child `ec` of `e`: the
      child is renumbered, then merged into `ec` by the recursive call. */
  lemma MergeMatchingChild(pm: PhandleMap, e: DeviceTreeNode, name: seq<u8>, c: DeviceTreeNode,
                           pm1: PhandleMap, c1: DeviceTreeNode, ec: DeviceTreeNode, ec1: DeviceTreeNode, pm2: PhandleMap)
    requires FixupNode(pm, c) == Returns(Ok((pm1, c1)))
    requires Child(e, c1.name) == Some(ec)
    requires MergeNodes(pm1, ec, c1) == Returns((ec1, Ok(pm2)))
    ensures MergeNodes(pm, e, Parent(name, c)) == Returns((e.(children := Insert(e.children, c1.name, ec1)), Ok(pm2)))
  {
    var src := Parent(name, c);
    var e1 := e.(children := Insert(e.children, c1.name, ec1));
    assert Properties(src) == [];
    assert MergeProps(pm.pairs, e, Properties(src)) == e;
    assert src.children.entries[0].1 == c;
    assert MergeChild(pm, e, c) == Returns((e1, Ok(pm2)));
    assert MergeChildren(pm2, e1, src, 1) == Returns((e1, Ok(pm2)));
  }

  /** The leaf "b" with phandle 1 sits under "a" in the overlay node; the
      base has an empty "a". Merging with the map of a base without
      phandles (next 1) renumbers "b" to 1 while "a" is fixed up, then to 2
      while "a" is merged: both pairs record old phandle 1, and a
      reference to 1 elsewhere in the overlay would end up as 2. */
  lemma MergedChildRenumberedTwice()
    ensures var a: seq<u8> := [0x61];
      var b: seq<u8> := [0x62];
      MergeNodes(PhandleMap(1, []), Parent([], New(a)), Parent(OVERLAY_NODE, Parent(a, Leaf(b, 1))))
        == Returns((Parent([], Parent(a, Leaf(b, 2))), Ok(PhandleMap(3, [(1, 1), (1, 2)]))))
  {
    var a: seq<u8> := [0x61];
    var b: seq<u8> := [0x62];
    var existing := Parent([], New(a));
    var pm0 := PhandleMap(1, []);
    var pm1 := PhandleMap(2, [(1, 1)]);
    var pm2 := PhandleMap(3, [(1, 1), (1, 2)]);

    // fixup_node on "a" before the recursive merge
    FixupLeaf(pm0, b, 1);
    assert pm0.pairs + [(1, 1)] == pm1.pairs;
    assert Chase(1, [(1, 1)]) == 1;
    FixupParent(pm0, a, Leaf(b, 1), pm1, Leaf(b, 1));

    // merging the fixed "a" into the empty base "a": its child "b" is
    // fixed up again, and appended
    FixupLeaf(pm1, b, 1);
    assert pm1.pairs + [(1, 2)] == pm2.pairs;
    assert Chase(2, [(1, 1), (1, 2)]) == 2;
    assert Child(New(a), b) == None;
    MergeNewChild(pm1, New(a), a, Leaf(b, 1), pm2, Leaf(b, 2));
    var ea := AddChild(New(a), Leaf(b, 2));
    assert ea == Parent(a, Leaf(b, 2));

    // the root level
    assert Child(existing, a) == Some(New(a));
    MergeMatchingChild(pm0, existing, OVERLAY_NODE, Parent(a, Leaf(b, 1)), pm1, Parent(a, Leaf(b, 1)), New(a), ea, pm2);
    InsertSingle(a, New(a), ea);
    assert existing.(children := Insert(existing.children, a, ea)) == Parent([], ea);
  }
}
