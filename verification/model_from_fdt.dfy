/** Converting a read-only blob node into an editable node
    (`TryFrom<FdtNode> for DeviceTreeNode`): the name, then every property,
    then every child converted in turn, each stage stopping at the first
    error. */
module FromFdt {
  import opened Bytes
  import opened Wrappers
  import opened FdtDefs
  import opened FdtHeader
  import opened FdtReader
  import FdtProperty
  import FdtNodes
  import opened IndexMaps
  import opened ModelProperty
  import opened ModelNode

  /** The converted properties keyed by name, in blob order. */
  function PropertyEntries(ps: seq<FdtProperty.Property>): seq<(seq<u8>, DeviceTreeProperty)>
  {
    seq(|ps|, i requires 0 <= i < |ps| => (ps[i].name, FromFdtProperty(ps[i])))
  }

  /** The converted children keyed by name, in blob order. */
  function ChildEntries(ns: seq<DeviceTreeNode>): seq<(seq<u8>, DeviceTreeNode)>
  {
    seq(|ns|, i requires 0 <= i < |ns| => (ns[i].name, ns[i]))
  }

  predicate AllWellFormed(ns: seq<DeviceTreeNode>)
  {
    forall n :: n in ns ==> WellFormed(n)
  }

  /** The node built from a name, the blob properties and the converted
      children, each inserted by name in order. */
  function Assemble(name: seq<u8>, ps: seq<FdtProperty.Property>, ns: seq<DeviceTreeNode>): (r: DeviceTreeNode)
    ensures r.name == name
    ensures AllWellFormed(ns) ==> WellFormed(r)
  {
    var props := InsertAll(Empty(), PropertyEntries(ps));
    var kids := InsertAll(Empty(), ChildEntries(ns));
    assert forall e :: e in props.entries ==> e in PropertyEntries(ps);
    assert forall e :: e in kids.entries ==> e in ChildEntries(ns);
    DeviceTreeNode(name, props, kids)
  }

  /** `DeviceTreeNode::try_from(FdtNode)`. A repeated property or child
      name keeps its first position and takes the last value. */
  function NodeFromFdt(fdt: Fdt, node: FdtNode): (r: Run<Result<DeviceTreeNode, FdtError>>)
    requires fdt.Valid()
    ensures r.Returns? && r.value.Ok? ==> FdtNodes.Name(fdt, node) == Ok(r.value.value.name)
    ensures FdtNodes.Name(fdt, node).Err? ==> r == Returns(Err(FdtNodes.Name(fdt, node).error))
    decreases Rem(fdt, node.offset), 1, 0
  {
    match FdtNodes.Name(fdt, node)
    case Err(e) => Returns(Err(e))
    case Ok(name) =>
      var props :- FdtNodes.Properties(fdt, node);
      match props
      case Err(e) => Returns(Err(e))
      case Ok(ps) =>
        var kids :- ChildrenFrom(fdt, FdtNodes.CStart(node.offset), node.offset);
        match kids
        case Err(e) => Returns(Err(e))
        case Ok(ns) =>
          Returns(Ok(Assemble(name, ps, ns)))
  }

  /** The children of the node at `parent`, from cursor `it` on: each child
      is converted completely before the cursor moves to the next one. */
  function ChildrenFrom(fdt: Fdt, it: FdtNodes.ChildIter, parent: nat): (r: Run<Result<seq<DeviceTreeNode>, FdtError>>)
    requires fdt.Valid()
    requires it.CStart? ==> it.node == parent
    requires it.CRunning? ==> parent < it.offset
    ensures r.Returns? && r.value.Ok? ==>
      var step := FdtNodes.ChildNext(fdt, it);
      && step.Returns?
      && (step.value.1.None? <==> |r.value.value| == 0)
      && (step.value.1.Some? ==> step.value.1.value.Ok?)
    decreases Rem(fdt, parent), 0, FdtNodes.ChildMeasure(fdt, it)
  {
    match FdtNodes.ChildNext(fdt, it)
    case Panics => Panics
    case Hangs => Hangs
    case Returns((_, None)) => Returns(Ok([]))
    case Returns((_, Some(Err(e)))) => Returns(Err(e))
    case Returns((next, Some(Ok(c)))) =>
      assert parent < c.offset < next.offset && c.offset <= |fdt.data|;
      match NodeFromFdt(fdt, c)
      case Panics => Panics
      case Hangs => Hangs
      case Returns(Err(e)) => Returns(Err(e))
      case Returns(Ok(n)) =>
        match ChildrenFrom(fdt, next, parent)
        case Panics => Panics
        case Hangs => Hangs
        case Returns(Err(e)) => Returns(Err(e))
        case Returns(Ok(ns)) => Returns(Ok([n] + ns))
  }

  /** Every converted node is well-formed: property and child keys are
      the names of what they hold, at every depth. */
  lemma {:induction false} NodeFromFdtWellFormed(fdt: Fdt, node: FdtNode, n: DeviceTreeNode)
    requires fdt.Valid() && NodeFromFdt(fdt, node) == Returns(Ok(n))
    ensures WellFormed(n)
    decreases Rem(fdt, node.offset), 1, 0
  {
    var name := FdtNodes.Name(fdt, node).value;
    var ps := FdtNodes.Properties(fdt, node).value.value;
    var ns := ChildrenFrom(fdt, FdtNodes.CStart(node.offset), node.offset).value.value;
    ChildrenFromWellFormed(fdt, FdtNodes.CStart(node.offset), node.offset, ns);
    assert n == Assemble(name, ps, ns);
  }

  lemma {:induction false} ChildrenFromWellFormed(fdt: Fdt, it: FdtNodes.ChildIter, parent: nat, ns: seq<DeviceTreeNode>)
    requires fdt.Valid()
    requires it.CStart? ==> it.node == parent
    requires it.CRunning? ==> parent < it.offset
    requires ChildrenFrom(fdt, it, parent) == Returns(Ok(ns))
    ensures AllWellFormed(ns)
    decreases Rem(fdt, parent), 0, FdtNodes.ChildMeasure(fdt, it)
  {
    if |ns| > 0 {
      var c, next := ChildrenFromStep(fdt, it, parent, ns);
      NodeFromFdtWellFormed(fdt, c, ns[0]);
      ChildrenFromWellFormed(fdt, next, parent, ns[1..]);
      assert ns == [ns[0]] + ns[1..];
    }
  }

  /** One step of a successful conversion run: the cursor yields child `c`,
      which converts to the first node, and the rest come from `next`. */
  lemma ChildrenFromStep(fdt: Fdt, it: FdtNodes.ChildIter, parent: nat, ns: seq<DeviceTreeNode>)
    returns (c: FdtNode, next: FdtNodes.ChildIter)
    requires fdt.Valid()
    requires it.CStart? ==> it.node == parent
    requires it.CRunning? ==> parent < it.offset
    requires ChildrenFrom(fdt, it, parent) == Returns(Ok(ns)) && |ns| > 0
    ensures FdtNodes.ChildNext(fdt, it) == Returns((next, Some(Ok(c))))
    ensures parent < c.offset <= |fdt.data| && next.CRunning? && parent < next.offset
    ensures NodeFromFdt(fdt, c) == Returns(Ok(ns[0]))
    ensures ChildrenFrom(fdt, next, parent) == Returns(Ok(ns[1..]))
    ensures FdtNodes.ChildMeasure(fdt, next) < FdtNodes.ChildMeasure(fdt, it)
  {
    var r := FdtNodes.ChildNext(fdt, it);
    assert r.Returns?;
    var step := r.value;
    assert step.1.Some? && step.1.value.Ok?;
    next := step.0;
    c := step.1.value.value;
    var child := NodeFromFdt(fdt, c);
    assert child.Returns? && child.value.Ok?;
    var rest := ChildrenFrom(fdt, next, parent);
    assert rest.Returns? && rest.value.Ok?;
    assert ns == [child.value.value] + rest.value.value;
  }

  /** Converting the nodes of `cs` one after another, stopping at the
      first that does not convert. */
  function ConvertEach(fdt: Fdt, cs: seq<FdtNode>): Run<Result<seq<DeviceTreeNode>, FdtError>>
    requires fdt.Valid()
  {
    if |cs| == 0 then Returns(Ok([]))
    else ConsConvert(NodeFromFdt(fdt, cs[0]), ConvertEach(fdt, cs[1..]))
  }

  /** The first conversion decides unless it succeeds; then the rest do. */
  function ConsConvert(head: Run<Result<DeviceTreeNode, FdtError>>,
                       tail: Run<Result<seq<DeviceTreeNode>, FdtError>>): Run<Result<seq<DeviceTreeNode>, FdtError>>
  {
    match head
    case Panics => Panics
    case Hangs => Hangs
    case Returns(Err(e)) => Returns(Err(e))
    case Returns(Ok(n)) =>
      match tail
      case Panics => Panics
      case Hangs => Hangs
      case Returns(Err(e)) => Returns(Err(e))
      case Returns(Ok(ns)) => Returns(Ok([n] + ns))
  }

  /** A successful conversion walks the same children the reader's child
      cursor collects, in the same order, and converts each one. */
  lemma {:induction false} ChildrenFromReader(fdt: Fdt, it: FdtNodes.ChildIter, parent: nat, ns: seq<DeviceTreeNode>)
    requires fdt.Valid()
    requires it.CStart? ==> it.node == parent
    requires it.CRunning? ==> parent < it.offset
    requires ChildrenFrom(fdt, it, parent) == Returns(Ok(ns))
    ensures FdtNodes.CollectChildren(fdt, it).Returns? && FdtNodes.CollectChildren(fdt, it).value.Ok?
    ensures ConvertEach(fdt, FdtNodes.CollectChildren(fdt, it).value.value) == Returns(Ok(ns))
    decreases FdtNodes.ChildMeasure(fdt, it)
  {
    if |ns| > 0 {
      var c, next := ChildrenFromStep(fdt, it, parent, ns);
      ChildrenFromReader(fdt, next, parent, ns[1..]);
      var cs := FdtNodes.CollectChildren(fdt, next).value.value;
      FdtNodes.CollectCons(fdt, it, next, c, cs);
      assert ([c] + cs)[1..] == cs;
      assert ns == [ns[0]] + ns[1..];
    } else {
      ChildrenFromEnd(fdt, it, parent);
    }
  }

  /** A failed child makes the conversion fail: when the cursor yields
      `cs` and converting them one by one stops at an error, the run
      returns that error. */
  lemma {:induction false} ChildrenFromChildError(fdt: Fdt, it: FdtNodes.ChildIter, parent: nat,
                                                  cs: seq<FdtNode>, last: FdtNodes.ChildIter, e: FdtError)
    requires fdt.Valid()
    requires it.CStart? ==> it.node == parent
    requires it.CRunning? ==> parent < it.offset
    requires FdtNodes.YieldsChildren(fdt, it, cs, last)
    requires ConvertEach(fdt, cs) == Returns(Err(e))
    ensures ChildrenFrom(fdt, it, parent) == Returns(Err(e))
    decreases |cs|
  {
    ConvertEachError(fdt, cs, e);
    var next := YieldsStep(fdt, it, parent, cs, last);
    if NodeFromFdt(fdt, cs[0]).value.Ok? {
      ChildrenFromChildError(fdt, next, parent, cs[1..], last, e);
    }
    ChildrenFromFirstError(fdt, it, parent, cs[0], next, e);
  }

  lemma ConvertEachError(fdt: Fdt, cs: seq<FdtNode>, e: FdtError)
    requires fdt.Valid() && ConvertEach(fdt, cs) == Returns(Err(e))
    ensures |cs| > 0 && NodeFromFdt(fdt, cs[0]).Returns?
    ensures NodeFromFdt(fdt, cs[0]).value.Err? ==> NodeFromFdt(fdt, cs[0]).value.error == e
    ensures NodeFromFdt(fdt, cs[0]).value.Ok? ==> ConvertEach(fdt, cs[1..]) == Returns(Err(e))
  {
    assert |cs| > 0;
    ConsConvertError(NodeFromFdt(fdt, cs[0]), ConvertEach(fdt, cs[1..]), e);
  }

  lemma ConsConvertError(head: Run<Result<DeviceTreeNode, FdtError>>,
                         tail: Run<Result<seq<DeviceTreeNode>, FdtError>>, e: FdtError)
    requires ConsConvert(head, tail) == Returns(Err(e))
    ensures head.Returns? && (head.value.Err? ==> head.value.error == e)
    ensures head.Returns? && head.value.Ok? ==> tail == Returns(Err(e))
  {}

  lemma ConvertEachOk(fdt: Fdt, cs: seq<FdtNode>)
    requires fdt.Valid() && ConvertEach(fdt, cs).Returns? && ConvertEach(fdt, cs).value.Ok? && |cs| > 0
    ensures NodeFromFdt(fdt, cs[0]).Returns? && NodeFromFdt(fdt, cs[0]).value.Ok?
    ensures ConvertEach(fdt, cs[1..]).Returns? && ConvertEach(fdt, cs[1..]).value.Ok?
  {
    ConsConvertOk(NodeFromFdt(fdt, cs[0]), ConvertEach(fdt, cs[1..]));
  }

  lemma ConsConvertOk(head: Run<Result<DeviceTreeNode, FdtError>>,
                      tail: Run<Result<seq<DeviceTreeNode>, FdtError>>)
    requires ConsConvert(head, tail).Returns? && ConsConvert(head, tail).value.Ok?
    ensures head.Returns? && head.value.Ok? && tail.Returns? && tail.value.Ok?
  {}

  /** The first child a yielding cursor gives, and the cursor after it. */
  lemma YieldsStep(fdt: Fdt, it: FdtNodes.ChildIter, parent: nat, cs: seq<FdtNode>, last: FdtNodes.ChildIter)
    returns (next: FdtNodes.ChildIter)
    requires it.CStart? ==> it.node == parent
    requires it.CRunning? ==> parent < it.offset
    requires FdtNodes.YieldsChildren(fdt, it, cs, last) && |cs| > 0
    ensures FdtNodes.ChildNext(fdt, it) == Returns((next, Some(Ok(cs[0]))))
    ensures FdtNodes.YieldsChildren(fdt, next, cs[1..], last)
    ensures next.CRunning? && parent < next.offset
  {
    next := FdtNodes.ChildNext(fdt, it).value.0;
  }

  /** A run fails with `e` when its first child does, or when that child
      converts and the rest of the run fails with `e`. */
  lemma ChildrenFromFirstError(fdt: Fdt, it: FdtNodes.ChildIter, parent: nat, c: FdtNode, next: FdtNodes.ChildIter, e: FdtError)
    requires fdt.Valid()
    requires it.CStart? ==> it.node == parent
    requires it.CRunning? ==> parent < it.offset
    requires FdtNodes.ChildNext(fdt, it) == Returns((next, Some(Ok(c))))
    requires NodeFromFdt(fdt, c).Returns?
    requires NodeFromFdt(fdt, c).value.Err? ==> NodeFromFdt(fdt, c).value.error == e
    requires NodeFromFdt(fdt, c).value.Ok? ==> ChildrenFrom(fdt, next, parent) == Returns(Err(e))
    ensures ChildrenFrom(fdt, it, parent) == Returns(Err(e))
  {
    if NodeFromFdt(fdt, c).value.Ok? {
      ChildrenFromTailError(fdt, it, parent, c, next, e);
    }
  }

  lemma ChildrenFromTailError(fdt: Fdt, it: FdtNodes.ChildIter, parent: nat, c: FdtNode, next: FdtNodes.ChildIter, e: FdtError)
    requires fdt.Valid()
    requires it.CStart? ==> it.node == parent
    requires it.CRunning? ==> parent < it.offset
    requires FdtNodes.ChildNext(fdt, it) == Returns((next, Some(Ok(c))))
    requires NodeFromFdt(fdt, c).Returns? && NodeFromFdt(fdt, c).value.Ok?
    requires ChildrenFrom(fdt, next, parent) == Returns(Err(e))
    ensures ChildrenFrom(fdt, it, parent) == Returns(Err(e))
  {}

  /** A cursor error makes the conversion fail: when every child yielded
      before it converts, the run returns the error the cursor meets. */
  lemma {:induction false} ChildrenFromCursorError(fdt: Fdt, it: FdtNodes.ChildIter, parent: nat,
                                                   cs: seq<FdtNode>, last: FdtNodes.ChildIter, e: FdtError)
    requires fdt.Valid()
    requires it.CStart? ==> it.node == parent
    requires it.CRunning? ==> parent < it.offset
    requires FdtNodes.YieldsChildren(fdt, it, cs, last)
    requires ConvertEach(fdt, cs).Returns? && ConvertEach(fdt, cs).value.Ok?
    requires FdtNodes.ChildNext(fdt, last).Returns? && FdtNodes.ChildNext(fdt, last).value.1 == Some(Err(e))
    ensures ChildrenFrom(fdt, it, parent) == Returns(Err(e))
    decreases |cs|
  {
    if |cs| > 0 {
      ConvertEachOk(fdt, cs);
      var next := YieldsStep(fdt, it, parent, cs, last);
      ChildrenFromCursorError(fdt, next, parent, cs[1..], last, e);
      ChildrenFromTailError(fdt, it, parent, cs[0], next, e);
    }
  }

  /** `try_from` reports the first failure in the order it reads the
      node: the name, then the properties, then the children. A property
      read error is the first error the property cursor meets; a child
      error is the first child that fails to convert, or the child cursor's
      error once every child before it converted. */
  lemma NodeFromFdtErrors(fdt: Fdt, node: FdtNode, ps: seq<FdtProperty.Property>, lastProp: FdtProperty.PropIter,
                          cs: seq<FdtNode>, lastChild: FdtNodes.ChildIter, e: FdtError)
    requires fdt.Valid() && FdtNodes.Name(fdt, node).Ok?
    requires FdtProperty.YieldsProps(fdt, FdtProperty.PStart(node.offset), ps, lastProp)
    requires FdtNodes.YieldsChildren(fdt, FdtNodes.CStart(node.offset), cs, lastChild)
    ensures FdtProperty.PropNext(fdt, lastProp).Returns? && FdtProperty.PropNext(fdt, lastProp).value.1 == Some(Err(e)) ==>
      NodeFromFdt(fdt, node) == Returns(Err(e))
    ensures (FdtProperty.PropNext(fdt, lastProp).Returns? && FdtProperty.PropNext(fdt, lastProp).value.1.None?
             && ConvertEach(fdt, cs) == Returns(Err(e))) ==>
      NodeFromFdt(fdt, node) == Returns(Err(e))
    ensures (FdtProperty.PropNext(fdt, lastProp).Returns? && FdtProperty.PropNext(fdt, lastProp).value.1.None?
             && ConvertEach(fdt, cs).Returns? && ConvertEach(fdt, cs).value.Ok?
             && FdtNodes.ChildNext(fdt, lastChild).Returns?
             && FdtNodes.ChildNext(fdt, lastChild).value.1 == Some(Err(e))) ==>
      NodeFromFdt(fdt, node) == Returns(Err(e))
  {
    var pn := FdtProperty.PropNext(fdt, lastProp);
    if pn.Returns? && pn.value.1 == Some(Err(e)) {
      FdtProperty.CollectPropsFails(fdt, FdtProperty.PStart(node.offset), ps, lastProp, e);
    } else if pn.Returns? && pn.value.1.None? {
      FdtProperty.CollectPropsEnds(fdt, FdtProperty.PStart(node.offset), ps, lastProp);
      if ConvertEach(fdt, cs) == Returns(Err(e)) {
        ChildrenFromChildError(fdt, FdtNodes.CStart(node.offset), node.offset, cs, lastChild, e);
      } else if ConvertEach(fdt, cs).Returns? && ConvertEach(fdt, cs).value.Ok?
        && FdtNodes.ChildNext(fdt, lastChild).Returns? && FdtNodes.ChildNext(fdt, lastChild).value.1 == Some(Err(e)) {
        ChildrenFromCursorError(fdt, FdtNodes.CStart(node.offset), node.offset, cs, lastChild, e);
      }
    }
  }

  /** A run that converts nothing stopped at the end of the children. */
  lemma ChildrenFromEnd(fdt: Fdt, it: FdtNodes.ChildIter, parent: nat)
    requires fdt.Valid()
    requires it.CStart? ==> it.node == parent
    requires it.CRunning? ==> parent < it.offset
    requires ChildrenFrom(fdt, it, parent) == Returns(Ok([]))
    ensures FdtNodes.CollectChildren(fdt, it) == Returns(Ok([]))
  {
  }

  /** A converted node's property lookup gives the last blob property of
      that name, and its child lookup the last converted child of that
      name. */
  lemma NodeFromFdtLookup(fdt: Fdt, node: FdtNode, n: DeviceTreeNode, k: seq<u8>)
    requires fdt.Valid() && NodeFromFdt(fdt, node) == Returns(Ok(n))
    ensures FdtNodes.Properties(fdt, node).Returns? && FdtNodes.Properties(fdt, node).value.Ok?
    ensures Property(n, k) == LastFor(PropertyEntries(FdtNodes.Properties(fdt, node).value.value), k)
    ensures ChildrenFrom(fdt, FdtNodes.CStart(node.offset), node.offset).Returns?
    ensures ChildrenFrom(fdt, FdtNodes.CStart(node.offset), node.offset).value.Ok?
    ensures Child(n, k) == LastFor(ChildEntries(ChildrenFrom(fdt, FdtNodes.CStart(node.offset), node.offset).value.value), k)
  {
    var ps := FdtNodes.Properties(fdt, node).value.value;
    var ns := ChildrenFrom(fdt, FdtNodes.CStart(node.offset), node.offset).value.value;
    assert n == Assemble(n.name, ps, ns);
    GetInsertAll(Empty(), PropertyEntries(ps), k);
    GetInsertAll(Empty(), ChildEntries(ns), k);
  }

  /** When the blob gives every property a different name, the converted
      node lists exactly those properties in blob order. */
  lemma NodeFromFdtDistinct(fdt: Fdt, node: FdtNode, n: DeviceTreeNode)
    requires fdt.Valid() && NodeFromFdt(fdt, node) == Returns(Ok(n))
    requires FdtNodes.Properties(fdt, node).Returns? && FdtNodes.Properties(fdt, node).value.Ok?
    requires DistinctKeys(PropertyEntries(FdtNodes.Properties(fdt, node).value.value))
    ensures Properties(n) == PropertyValues(FdtNodes.Properties(fdt, node).value.value)
  {
    var ps := FdtNodes.Properties(fdt, node).value.value;
    var ns := ChildrenFrom(fdt, FdtNodes.CStart(node.offset), node.offset).value.value;
    assert n == Assemble(n.name, ps, ns);
    AssembleDistinct(n.name, ps, ns);
  }

  lemma AssembleDistinct(name: seq<u8>, ps: seq<FdtProperty.Property>, ns: seq<DeviceTreeNode>)
    requires DistinctKeys(PropertyEntries(ps))
    ensures Properties(Assemble(name, ps, ns)) == PropertyValues(ps)
  {
    var es := PropertyEntries(ps);
    var e: IndexMap<seq<u8>, DeviceTreeProperty> := Empty();
    InsertAllFresh(e, es);
    var props := InsertAll(e, es);
    assert Assemble(name, ps, ns).properties == props;
    assert props.entries == es;
    var vs := Properties(Assemble(name, ps, ns));
    assert |vs| == |ps|;
    forall i | 0 <= i < |ps| ensures vs[i] == PropertyValues(ps)[i] {
      assert vs[i] == es[i].1;
    }
  }

  /** The blob properties copied into editable ones. */
  function PropertyValues(ps: seq<FdtProperty.Property>): seq<DeviceTreeProperty>
  {
    seq(|ps|, i requires 0 <= i < |ps| => FromFdtProperty(ps[i]))
  }
}
