/** `DeviceTreeNode::for_each_node`: the nodes of a subtree in pre-order,
    a node before its children and the children in insertion order. */
module TreeWalk {
  import opened Bytes
  import opened Wrappers
  import opened ModelTree
  import opened ModelNode

  /** Every node of the subtree at `n`, in the order the callback sees
      them. */
  function PreOrder(n: DeviceTreeNode): (r: seq<DeviceTreeNode>)
    ensures |r| >= 1 && r[0] == n
    decreases n, 1, 0
  {
    [n] + PreOrderFrom(n, 0)
  }

  /** The subtrees of the children of `n` from position `i` on. */
  function PreOrderFrom(n: DeviceTreeNode, i: nat): seq<DeviceTreeNode>
    decreases n, 0, |n.children.entries| - i
  {
    if i >= |n.children.entries| then []
    else
      assert n.children.entries[i] in n.children.entries;
      PreOrder(n.children.entries[i].1) + PreOrderFrom(n, i + 1)
  }

  /** The walk of a child's subtree lies inside the walk of every earlier
      suffix of its siblings. */
  lemma {:induction false} ChildWalkInside(n: DeviceTreeNode, j: nat, i: nat)
    requires j <= i < |n.children.entries|
    ensures |PreOrder(n.children.entries[i].1)| <= |PreOrderFrom(n, j)|
    ensures forall x :: x in PreOrder(n.children.entries[i].1) ==> x in PreOrderFrom(n, j)
    decreases i - j
  {
    if j < i {
      ChildWalkInside(n, j + 1, i);
    }
  }

  /** A child's subtree has fewer nodes than its parent's. */
  lemma ChildSmaller(n: DeviceTreeNode, i: nat)
    requires i < |n.children.entries|
    ensures |PreOrder(n.children.entries[i].1)| < |PreOrder(n)|
  {
    ChildWalkInside(n, 0, i);
  }

  /** Two parents whose children pairwise have walks of equal length have
      walks of equal length. */
  lemma {:induction false} PreOrderFromLength(a: DeviceTreeNode, b: DeviceTreeNode, i: nat)
    requires |a.children.entries| == |b.children.entries|
    requires forall j :: i <= j < |a.children.entries| ==>
      |PreOrder(a.children.entries[j].1)| == |PreOrder(b.children.entries[j].1)|
    ensures |PreOrderFrom(a, i)| == |PreOrderFrom(b, i)|
    decreases |a.children.entries| - i
  {
    if i < |a.children.entries| {
      PreOrderFromLength(a, b, i + 1);
    }
  }

  /** Every node a path lookup can reach is visited by the walk. */
  lemma {:induction false} DescendVisited(n: DeviceTreeNode, segs: seq<seq<u8>>)
    requires Descend(n, segs).Some?
    ensures Descend(n, segs).value in PreOrder(n)
    decreases |segs|
  {
    if |segs| > 0 {
      var c := Child(n, segs[0]).value;
      var i :| 0 <= i < |n.children.entries| && n.children.entries[i] == (segs[0], c);
      DescendVisited(c, segs[1..]);
      ChildWalkInside(n, 0, i);
    }
  }
}
