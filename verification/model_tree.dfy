/** The editable device tree (`model::DeviceTree`): a root node and the
    memory reservations, built from a blob or from scratch, with path
    lookup of nodes. */
module ModelTree {
  import opened Bytes
  import opened Wrappers
  import opened FdtDefs
  import opened FdtHeader
  import opened FdtReader
  import opened Path
  import opened IndexMaps
  import opened ModelNode
  import opened FromFdt

  datatype DeviceTree = DeviceTree(root: DeviceTreeNode, reservations: seq<MemoryReservation>)

  /** `DeviceTree::new`: no memory reservations. */
  function New(root: DeviceTreeNode): (r: DeviceTree)
    ensures r.root == root && |r.reservations| == 0
  {
    DeviceTree(root, [])
  }

  /** `DeviceTree::from_fdt`: a root that cannot be read or converted is
      the error; otherwise the converted root with the blob's
      reservations. */
  function TreeFromFdt(fdt: Fdt): (r: Run<Result<DeviceTree, FdtError>>)
    requires fdt.Valid()
    ensures Root(fdt).value.Err? ==> r == Returns(Err(Root(fdt).value.error))
    ensures Root(fdt).value.Ok? ==> match NodeFromFdt(fdt, Root(fdt).value.value)
      case Returns(Ok(n)) => r == Returns(Ok(DeviceTree(n, MemoryReservations(fdt))))
      case Returns(Err(e)) => r == Returns(Err(e))
      case Panics => r == Panics
      case Hangs => r == Hangs
    ensures r.Returns? && r.value.Ok? ==> WellFormed(r.value.value.root)
  {
    match Root(fdt)
    case Returns(Err(e)) => Returns(Err(e))
    case Returns(Ok(root)) =>
      (match NodeFromFdt(fdt, root)
       case Panics => Panics
       case Hangs => Hangs
       case Returns(Err(e)) => Returns(Err(e))
       case Returns(Ok(n)) =>
         NodeFromFdtWellFormed(fdt, root, n);
         Returns(Ok(DeviceTree(n, MemoryReservations(fdt)))))
    case _ => Panics
  }

  /** The node reached from `n` by following the child names `segs`. */
  function Descend(n: DeviceTreeNode, segs: seq<seq<u8>>): (r: Option<DeviceTreeNode>)
    ensures |segs| == 0 ==> r == Some(n)
    decreases |segs|
  {
    if |segs| == 0 then Some(n)
    else
      match Child(n, segs[0])
      case None => None
      case Some(c) => Descend(c, segs[1..])
  }

  /** `DeviceTree::find_node_mut`: a path that does not start with '/'
      names nothing; "/" names the root; otherwise each non-empty segment
      is looked up among the children of the node reached so far. */
  function FindNode(t: DeviceTree, path: seq<u8>): (r: Option<DeviceTreeNode>)
    ensures !Absolute(path) ==> r.None?
    ensures path == [SLASH] ==> r == Some(t.root)
  {
    if !Absolute(path) then None
    else if path == [SLASH] then Some(t.root)
    else Descend(t.root, Segments(path))
  }

  /** The "/" case is the empty descent, so a lookup depends only on the
      path being absolute and on its non-empty segments. */
  lemma FindNodeIsDescend(t: DeviceTree, path: seq<u8>)
    ensures FindNode(t, path) == if Absolute(path) then Descend(t.root, Segments(path)) else None
  {
    if path == [SLASH] {
      SlashesOnly(path);
    }
  }

  /** Looking up the canonical path of `segs` follows exactly `segs`. */
  lemma FindNodeJoin(t: DeviceTree, segs: seq<seq<u8>>)
    requires |segs| > 0 && forall i :: 0 <= i < |segs| ==> IsSegment(segs[i])
    ensures FindNode(t, Join(segs)) == Descend(t.root, segs)
  {
    SegmentsOfJoin(segs);
    FindNodeIsDescend(t, Join(segs));
  }

  /** Writing through the reference `find_node_mut` returned: the node at
      `segs` becomes `m`, and every node off that path is untouched. A
      path that reaches nothing changes nothing. */
  function ReplaceAt(n: DeviceTreeNode, segs: seq<seq<u8>>, m: DeviceTreeNode): (r: DeviceTreeNode)
    ensures |segs| > 0 ==> r.name == n.name && r.properties == n.properties
    ensures Descend(n, segs).None? ==> r == n
    decreases |segs|
  {
    if |segs| == 0 then m
    else
      match Child(n, segs[0])
      case None => n
      case Some(c) => n.(children := Insert(n.children, segs[0], ReplaceAt(c, segs[1..], m)))
  }

  /** After the write, the same path finds the written node. */
  lemma {:induction false} DescendReplaceAt(n: DeviceTreeNode, segs: seq<seq<u8>>, m: DeviceTreeNode)
    requires WellFormed(n) && Descend(n, segs).Some?
    ensures Descend(ReplaceAt(n, segs, m), segs) == Some(m)
    decreases |segs|
  {
    if |segs| > 0 {
      var c := Child(n, segs[0]).value;
      ChildWellFormed(n, segs[0], c);
      GetInsert(n.children, segs[0], ReplaceAt(c, segs[1..], m), segs[0]);
      DescendReplaceAt(c, segs[1..], m);
    }
  }

  /** A write that keeps the node's name keeps the tree well-formed. */
  lemma {:induction false} ReplaceAtWellFormed(n: DeviceTreeNode, segs: seq<seq<u8>>, m: DeviceTreeNode)
    requires WellFormed(n) && WellFormed(m)
    requires Descend(n, segs).Some? && m.name == Descend(n, segs).value.name
    ensures WellFormed(ReplaceAt(n, segs, m))
    decreases |segs|
  {
    if |segs| > 0 {
      var c := Child(n, segs[0]).value;
      ChildWellFormed(n, segs[0], c);
      ReplaceAtWellFormed(c, segs[1..], m);
      var c' := ReplaceAt(c, segs[1..], m);
      assert c'.name == segs[0] by {
        if |segs| == 1 {
          assert segs[1..] == [];
        }
      }
      assert WellFormed(AddChild(n, c'));
    }
  }

  /** Writing back the node that is already there changes nothing. */
  lemma {:induction false} ReplaceAtSame(n: DeviceTreeNode, segs: seq<seq<u8>>)
    requires WellFormed(n) && Descend(n, segs).Some?
    ensures ReplaceAt(n, segs, Descend(n, segs).value) == n
    decreases |segs|
  {
    if |segs| > 0 {
      var c := Child(n, segs[0]).value;
      ChildWellFormed(n, segs[0], c);
      ReplaceAtSame(c, segs[1..]);
      InsertExisting(n.children, segs[0], c);
    }
  }

  /** A lookup that leaves the written path at some step `j` reads the
      same node as before the write: only the nodes on the path change. */
  lemma {:induction false} DescendReplaceAtOther(n: DeviceTreeNode, segs: seq<seq<u8>>, m: DeviceTreeNode, other: seq<seq<u8>>, j: nat)
    requires WellFormed(n)
    requires j < |segs| && j < |other| && segs[j] != other[j]
    requires segs[..j] == other[..j]
    ensures Descend(ReplaceAt(n, segs, m), other) == Descend(n, other)
    decreases j
  {
    if j == 0 {
      ReplaceAtFirstOther(n, segs, m, other);
    } else if Child(n, segs[0]).Some? {
      var c := Child(n, segs[0]).value;
      ChildWellFormed(n, segs[0], c);
      assert other[0] == segs[..j][0];
      assert segs[1..][..j - 1] == segs[..j][1..];
      assert other[1..][..j - 1] == other[..j][1..];
      DescendReplaceAtOther(c, segs[1..], m, other[1..], j - 1);
      ReplaceAtSameFirst(n, segs, m, other, c);
    } else {
      assert Descend(n, segs) == None;
    }
  }

  /** Path `other` leaves path `segs` at some step: the two agree up to
      step `j` and name different children there. Neither is a prefix of
      the other. */
  predicate Diverges(segs: seq<seq<u8>>, other: seq<seq<u8>>)
  {
    exists j :: 0 <= j < |segs| && j < |other| && segs[j] != other[j] && segs[..j] == other[..j]
  }

  /** A write at `segs` leaves every lookup that leaves `segs` as it was. */
  lemma ReplaceAtFrame(n: DeviceTreeNode, segs: seq<seq<u8>>, m: DeviceTreeNode, other: seq<seq<u8>>)
    requires WellFormed(n) && Diverges(segs, other)
    ensures Descend(ReplaceAt(n, segs, m), other) == Descend(n, other)
  {
    var j :| 0 <= j < |segs| && j < |other| && segs[j] != other[j] && segs[..j] == other[..j];
    DescendReplaceAtOther(n, segs, m, other, j);
  }

  /** Stepping off the written path at the first segment reaches a child
      the write did not replace. */
  lemma ReplaceAtFirstOther(n: DeviceTreeNode, segs: seq<seq<u8>>, m: DeviceTreeNode, other: seq<seq<u8>>)
    requires WellFormed(n) && |segs| > 0 && |other| > 0 && segs[0] != other[0]
    ensures Descend(ReplaceAt(n, segs, m), other) == Descend(n, other)
  {
    if Child(n, segs[0]).Some? {
      var c' := ReplaceAt(Child(n, segs[0]).value, segs[1..], m);
      GetInsert(n.children, segs[0], c', other[0]);
      DescendSameChild(ReplaceAt(n, segs, m), n, other);
    }
  }

  /** Following the written path for one step: if the rest of the lookup
      is unchanged below the child, it is unchanged from `n`. */
  lemma ReplaceAtSameFirst(n: DeviceTreeNode, segs: seq<seq<u8>>, m: DeviceTreeNode, other: seq<seq<u8>>, c: DeviceTreeNode)
    requires WellFormed(n) && |segs| > 0 && |other| > 0 && other[0] == segs[0]
    requires Child(n, segs[0]) == Some(c)
    requires Descend(ReplaceAt(c, segs[1..], m), other[1..]) == Descend(c, other[1..])
    ensures Descend(ReplaceAt(n, segs, m), other) == Descend(n, other)
  {
    var c' := ReplaceAt(c, segs[1..], m);
    var r := n.(children := Insert(n.children, segs[0], c'));
    assert ReplaceAt(n, segs, m) == r;
    GetInsert(n.children, segs[0], c', segs[0]);
    DescendStep(r, other, c');
    DescendStep(n, other, c);
  }

  /** A descent whose first step reaches `c` continues from `c`. */
  lemma DescendStep(n: DeviceTreeNode, segs: seq<seq<u8>>, c: DeviceTreeNode)
    requires |segs| > 0 && Child(n, segs[0]) == Some(c)
    ensures Descend(n, segs) == Descend(c, segs[1..])
  {
  }

  lemma DescendSameChild(a: DeviceTreeNode, b: DeviceTreeNode, segs: seq<seq<u8>>)
    requires |segs| > 0 && Child(a, segs[0]) == Child(b, segs[0])
    ensures Descend(a, segs) == Descend(b, segs)
  {
  }

  /** Every node a path lookup reaches in a well-formed tree is
      well-formed. */
  lemma {:induction false} DescendWellFormed(n: DeviceTreeNode, segs: seq<seq<u8>>)
    requires WellFormed(n) && Descend(n, segs).Some?
    ensures WellFormed(Descend(n, segs).value)
    decreases |segs|
  {
    if |segs| > 0 {
      ChildWellFormed(n, segs[0], Child(n, segs[0]).value);
      DescendWellFormed(Child(n, segs[0]).value, segs[1..]);
    }
  }
}
