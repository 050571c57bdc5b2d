/** Read-only nodes of a flattened device tree: the node name, the child
    cursor, lookups by name, and path lookup from the root. */
module FdtNodes {
  import opened Bytes
  import opened Wrappers
  import opened FdtDefs
  import opened FdtHeader
  import opened FdtReader
  import opened FdtProperty
  import opened Path
  import Utf8

  /** `FdtNode::name`: the NUL-terminated string right after BEGIN_NODE. */
  function Name(fdt: Fdt, node: FdtNode): (r: Result<seq<u8>, FdtError>)
    ensures r.Ok? ==> Utf8.Valid(r.value) && NulFree(r.value)
    ensures r.Ok? ==> StoredAt(fdt.data, node.offset + 4, r.value)
    ensures r.Err? ==> r.error.offset == node.offset + 4
    ensures r.Err? && r.error.kind == InvalidOffset <==> node.offset + 4 > |fdt.data|
  {
    StringAtOffset(fdt, node.offset + FDT_TAGSIZE, None)
  }

  /** `FdtNode::properties`, collected. */
  function Properties(fdt: Fdt, node: FdtNode): Run<Result<seq<Property>, FdtError>>
    requires fdt.Valid()
  {
    CollectProps(fdt, PStart(node.offset))
  }

  /** `FdtNode::property`. */
  function PropertyNamed(fdt: Fdt, node: FdtNode, name: seq<u8>): (r: Run<Result<Option<Property>, FdtError>>)
    requires fdt.Valid()
    ensures r.Returns? && r.value.Ok? && r.value.value.Some? ==> r.value.value.value.name == name
  {
    FindProp(fdt, PStart(node.offset), name)
  }

  /** A node's property lookup returns the first property of that name
      among those the node's cursor yields; with none, Ok(None) when the
      properties read to their end and otherwise the first read error. */
  lemma PropertyFirst(fdt: Fdt, node: FdtNode, name: seq<u8>) returns (ps: seq<Property>, last: PropIter)
    requires fdt.Valid() && Properties(fdt, node).Returns?
    ensures YieldsProps(fdt, PStart(node.offset), ps, last)
    ensures Properties(fdt, node).value.Ok? ==> ps == Properties(fdt, node).value.value
    ensures Properties(fdt, node).value.Err? ==>
      PropNext(fdt, last) == Returns((PError, Some(Err(Properties(fdt, node).value.error))))
    ensures FirstNamed(ps, name).Some? ==> PropertyNamed(fdt, node, name) == Returns(Ok(FirstNamed(ps, name)))
    ensures FirstNamed(ps, name).None? && Properties(fdt, node).value.Ok? ==>
      PropertyNamed(fdt, node, name) == Returns(Ok(None))
    ensures FirstNamed(ps, name).None? && Properties(fdt, node).value.Err? ==>
      PropertyNamed(fdt, node, name) == Returns(Err(Properties(fdt, node).value.error))
  {
    ps, last := FindPropFirst(fdt, PStart(node.offset), name);
  }

  /** `FdtChildIter::try_next` from tag offset `o`: PROP records and NOP
      tokens are skipped; a BEGIN_NODE is yielded and the cursor moves
      past that whole child; END_NODE and END end the run. */
  function ChildTryNext(fdt: Fdt, o: nat): (r: Run<(nat, Option<Result<FdtNode, FdtError>>)>)
    ensures r.Returns? ==> o <= |fdt.data|
    ensures r.Returns? && r.value.1.Some? && r.value.1.value.Ok? ==>
      var c := r.value.1.value.value;
      && o <= c.offset && BeginsNode(fdt, c)
      && NextSiblingOffset(fdt, c.offset) == Returns(Ok(r.value.0))
      && c.offset < r.value.0 <= |fdt.data|
    ensures r.Returns? && r.value.1.None? ==>
      o <= r.value.0 && r.value.0 + 4 <= |fdt.data|
      && Be32At(fdt.data, r.value.0) in {FDT_END_NODE, FDT_END}
    decreases Rem(fdt, o)
  {
    var t :- ReadToken(fdt, o);
    match t
    case Err(e) => Returns((o, Some(Err(e))))
    case Ok(BeginNode) =>
      var n :- NextSiblingOffset(fdt, o);
      (match n
       case Err(e) => Returns((o, Some(Err(e))))
       case Ok(next) => Returns((next, Some(Ok(FdtNode(o))))))
    case Ok(EndNode) => Returns((o, None))
    case Ok(Prop) =>
      (match NextPropertyOffset(fdt, o + FDT_TAGSIZE)
       case Returns(Err(e)) => Returns((o, Some(Err(e))))
       case Returns(Ok(n)) => ChildTryNext(fdt, n)
       case _ => Panics)
    case Ok(Nop) => ChildTryNext(fdt, o + FDT_TAGSIZE)
    case Ok(End) => Returns((o, None))
  }

  /** The child cursor skips exactly what the property loop of
      `next_sibling_offset` skips: a yielded child, and the token that ends
      the run, sit where that loop stops, so only NOP tokens and whole PROP
      records lie between the cursor and them. */
  lemma {:induction false} ChildTryNextSkips(fdt: Fdt, o: nat)
    requires ChildTryNext(fdt, o).Returns?
    ensures var r := ChildTryNext(fdt, o).value;
      && (r.1.Some? && r.1.value.Ok? ==> SkipProps(fdt, o) == Returns(Ok(r.1.value.value.offset)))
      && (r.1.None? ==> SkipProps(fdt, o) == Returns(Ok(r.0)))
    decreases Rem(fdt, o)
  {
    match ReadToken(fdt, o)
    case Returns(Ok(Prop)) =>
      if NextPropertyOffset(fdt, o + FDT_TAGSIZE).Returns? && NextPropertyOffset(fdt, o + FDT_TAGSIZE).value.Ok? {
        var n := NextPropertyOffset(fdt, o + FDT_TAGSIZE).value.value;
        ChildTryNextSkips(fdt, n);
        PropStep(fdt, o, n);
      }
    case Returns(Ok(Nop)) =>
      ChildTryNextSkips(fdt, o + FDT_TAGSIZE);
      NopStep(fdt, o);
    case _ =>
  }

  /** Past a PROP record the child cursor and the property loop both carry
      on from the next tag. */
  lemma PropStep(fdt: Fdt, o: nat, n: nat)
    requires ReadToken(fdt, o) == Returns(Ok(Prop)) && NextPropertyOffset(fdt, o + FDT_TAGSIZE) == Returns(Ok(n))
    ensures ChildTryNext(fdt, o) == ChildTryNext(fdt, n)
    ensures SkipProps(fdt, o) == SkipProps(fdt, n)
  {
  }

  /** Past a NOP token the child cursor and the property loop both carry
      on from the next tag. */
  lemma NopStep(fdt: Fdt, o: nat)
    requires ReadToken(fdt, o) == Returns(Ok(Nop))
    ensures ChildTryNext(fdt, o) == ChildTryNext(fdt, o + FDT_TAGSIZE)
    ensures SkipProps(fdt, o) == SkipProps(fdt, o + FDT_TAGSIZE)
  {
  }

  /** `c` sits on a BEGIN_NODE tag. */
  predicate BeginsNode(fdt: Fdt, c: FdtNode)
  {
    c.offset + 4 <= |fdt.data| && Be32At(fdt.data, c.offset) == FDT_BEGIN_NODE
  }

  /** The child cursor of a node. */
  datatype ChildIter = CStart(node: nat) | CRunning(offset: nat) | CError

  /** `FdtChildIter::next`: the first error stops the cursor for good. */
  function ChildNext(fdt: Fdt, it: ChildIter): (r: Run<(ChildIter, Option<Result<FdtNode, FdtError>>)>)
    ensures it.CError? ==> r == Returns((CError, None))
    ensures r.Returns? && r.value.1.Some? && r.value.1.value.Err? ==>
      r.value.0 == CError && ChildMeasure(fdt, it) > 0
    ensures r.Returns? && r.value.1.Some? && r.value.1.value.Ok? ==>
      r.value.0.CRunning? && r.value.0.offset <= |fdt.data|
      && r.value.1.value.value.offset < r.value.0.offset
      && BeginsNode(fdt, r.value.1.value.value)
      && (it.CRunning? ==> it.offset <= r.value.1.value.value.offset)
      && (it.CStart? ==> it.node < r.value.1.value.value.offset)
      && ChildMeasure(fdt, r.value.0) < ChildMeasure(fdt, it)
  {
    match it
    case CError => Returns((CError, None))
    case CStart(node) =>
      (match FindStringEnd(fdt, node + FDT_TAGSIZE)
       case Err(e) => Returns((CError, Some(Err(e))))
       case Ok(e) => ChildRunningNext(fdt, Align(e)))
    case CRunning(o) => ChildRunningNext(fdt, o)
  }

  function ChildRunningNext(fdt: Fdt, o: nat): (r: Run<(ChildIter, Option<Result<FdtNode, FdtError>>)>)
    ensures r.Returns? ==> o <= |fdt.data|
    ensures r.Returns? && r.value.1.Some? && r.value.1.value.Err? ==> r.value.0 == CError
    ensures r.Returns? && r.value.1.Some? && r.value.1.value.Ok? ==>
      r.value.0.CRunning? && r.value.0.offset <= |fdt.data|
      && o <= r.value.1.value.value.offset < r.value.0.offset
      && BeginsNode(fdt, r.value.1.value.value)
  {
    var step :- ChildTryNext(fdt, o);
    match step.1
    case Some(Err(e)) => Returns((CError, Some(Err(e))))
    case _ => Returns((CRunning(step.0), step.1))
  }

  /** Decreases with every child yielded. */
  function ChildMeasure(fdt: Fdt, it: ChildIter): nat
  {
    match it
    case CStart(_) => |fdt.data| + 2
    case CRunning(o) => if o <= |fdt.data| then |fdt.data| + 1 - o else 0
    case CError => 0
  }

  /** `cs` are the nodes met from tag offset `o` on, in order: each sits
      on the first BEGIN_NODE past PROP records and NOPs only, the next
      one is looked for past that node's END_NODE, and after the last one
      the skipping stops at END_NODE or END. */
  predicate ChildChain(fdt: Fdt, o: nat, cs: seq<FdtNode>)
    decreases |cs|
  {
    && SkipProps(fdt, o).Returns? && SkipProps(fdt, o).value.Ok?
    && var q := SkipProps(fdt, o).value.value;
       if |cs| == 0 then Be32At(fdt.data, q) != FDT_BEGIN_NODE
       else
         && cs[0] == FdtNode(q) && Be32At(fdt.data, q) == FDT_BEGIN_NODE
         && NextSiblingOffset(fdt, q).Returns? && NextSiblingOffset(fdt, q).value.Ok?
         && ChildChain(fdt, NextSiblingOffset(fdt, q).value.value, cs[1..])
  }

  /** The nodes from `o` are fixed by the blob: two chains from the same
      offset are the same list. */
  lemma {:induction false} ChildChainUnique(fdt: Fdt, o: nat, cs: seq<FdtNode>, ds: seq<FdtNode>)
    requires ChildChain(fdt, o, cs) && ChildChain(fdt, o, ds)
    ensures cs == ds
    decreases |cs|
  {
    if |cs| > 0 && |ds| > 0 {
      ChildChainUnique(fdt, NextSiblingOffset(fdt, cs[0].offset).value.value, cs[1..], ds[1..]);
      assert cs == [cs[0]] + cs[1..] && ds == [ds[0]] + ds[1..];
    }
  }

  /** `cs` is the chain of nodes the cursor `it` has ahead of it: from its
      offset, or, for a fresh cursor, from the aligned end of the node
      name; a failed cursor has none. */
  predicate ChainFrom(fdt: Fdt, it: ChildIter, cs: seq<FdtNode>)
  {
    match it
    case CRunning(o) => ChildChain(fdt, o, cs)
    case CStart(node) =>
      FindStringEnd(fdt, node + FDT_TAGSIZE).Ok? && ChildChain(fdt, Align(FindStringEnd(fdt, node + FDT_TAGSIZE).value), cs)
    case CError => |cs| == 0
  }

  /** Collecting the child cursor into `Result<Vec<_>, _>`. A collected
      list is the chain of nodes ahead of the cursor. */
  function CollectChildren(fdt: Fdt, it: ChildIter): (r: Run<Result<seq<FdtNode>, FdtError>>)
    ensures r.Returns? && r.value.Ok? ==>
      forall i :: 0 <= i < |r.value.value| ==> BeginsNode(fdt, r.value.value[i])
    ensures r.Returns? && r.value.Ok? ==> ChainFrom(fdt, it, r.value.value)
    decreases ChildMeasure(fdt, it)
  {
    var step :- ChildNext(fdt, it);
    match step.1
    case None =>
      ChainFromEnd(fdt, it);
      Returns(Ok([]))
    case Some(Err(e)) => Returns(Err(e))
    case Some(Ok(c)) =>
      var rest :- CollectChildren(fdt, step.0);
      (match rest
       case Err(e) => Returns(Err(e))
       case Ok(cs) =>
         ChainFromCons(fdt, it, c, cs);
         ChainBegins(fdt, it, [c] + cs);
         Returns(Ok([c] + cs)))
  }

  /** Every node of a chain sits on a BEGIN_NODE tag. */
  lemma ChainBegins(fdt: Fdt, it: ChildIter, cs: seq<FdtNode>)
    requires ChainFrom(fdt, it, cs)
    ensures forall i :: 0 <= i < |cs| ==> BeginsNode(fdt, cs[i])
  {
    if !it.CError? {
      var o := if it.CRunning? then it.offset else Align(FindStringEnd(fdt, it.node + FDT_TAGSIZE).value);
      ChildChainBegins(fdt, o, cs);
    }
  }

  lemma {:induction false} ChildChainBegins(fdt: Fdt, o: nat, cs: seq<FdtNode>)
    requires ChildChain(fdt, o, cs)
    ensures forall i :: 0 <= i < |cs| ==> BeginsNode(fdt, cs[i])
    decreases |cs|
  {
    if |cs| > 0 {
      ChildChainBegins(fdt, NextSiblingOffset(fdt, cs[0].offset).value.value, cs[1..]);
      assert forall i :: 1 <= i < |cs| ==> cs[i] == cs[1..][i - 1];
    }
  }

  /** A cursor that yields nothing has an empty chain ahead. */
  lemma ChainFromEnd(fdt: Fdt, it: ChildIter)
    requires ChildNext(fdt, it).Returns? && ChildNext(fdt, it).value.1.None?
    ensures ChainFrom(fdt, it, [])
  {
    match it
    case CRunning(o) => EndAt(fdt, o);
    case CStart(node) =>
      if FindStringEnd(fdt, node + FDT_TAGSIZE).Ok? {
        EndAt(fdt, Align(FindStringEnd(fdt, node + FDT_TAGSIZE).value));
        StartChain(fdt, node, []);
      }
    case CError =>
  }

  /** A running cursor at `o` that yields nothing has an empty chain ahead. */
  lemma EndAt(fdt: Fdt, o: nat)
    requires ChildRunningNext(fdt, o).Returns? && ChildRunningNext(fdt, o).value.1.None?
    ensures ChildChain(fdt, o, [])
  {
    ChildTryNextSkips(fdt, o);
  }

  /** A cursor that yields `c` and then has `cs` ahead had `c` and `cs`
      ahead of it. */
  lemma ChainFromCons(fdt: Fdt, it: ChildIter, c: FdtNode, cs: seq<FdtNode>)
    requires ChildNext(fdt, it).Returns? && ChildNext(fdt, it).value.1 == Some(Ok(c))
    requires ChainFrom(fdt, ChildNext(fdt, it).value.0, cs)
    ensures ChainFrom(fdt, it, [c] + cs)
  {
    match it
    case CRunning(o) =>
      ChainConsAt(fdt, o, c, cs);
    case CStart(node) =>
      StartNext(fdt, node);
      ChainConsAt(fdt, Align(FindStringEnd(fdt, node + FDT_TAGSIZE).value), c, cs);
      StartChain(fdt, node, [c] + cs);
  }

  /** The chain ahead of a fresh cursor is the chain from the aligned end
      of its node's name. */
  lemma StartChain(fdt: Fdt, node: nat, cs: seq<FdtNode>)
    requires FindStringEnd(fdt, node + FDT_TAGSIZE).Ok?
    requires ChildChain(fdt, Align(FindStringEnd(fdt, node + FDT_TAGSIZE).value), cs)
    ensures ChainFrom(fdt, CStart(node), cs)
  {
  }

  /** A fresh cursor fails on an unterminated node name and otherwise
      steps as a running cursor at the aligned end of the name. */
  lemma StartNext(fdt: Fdt, node: nat)
    ensures FindStringEnd(fdt, node + FDT_TAGSIZE).Err? ==>
      ChildNext(fdt, CStart(node)) == Returns((CError, Some(Err(FindStringEnd(fdt, node + FDT_TAGSIZE).error))))
    ensures FindStringEnd(fdt, node + FDT_TAGSIZE).Ok? ==>
      ChildNext(fdt, CStart(node)) == ChildRunningNext(fdt, Align(FindStringEnd(fdt, node + FDT_TAGSIZE).value))
  {
  }

  /** The running cursor at `o` that yields `c` and then has `cs` ahead
      had `c` and `cs` ahead of it. */
  lemma ChainConsAt(fdt: Fdt, o: nat, c: FdtNode, cs: seq<FdtNode>)
    requires ChildRunningNext(fdt, o).Returns? && ChildRunningNext(fdt, o).value.1 == Some(Ok(c))
    requires ChildChain(fdt, ChildRunningNext(fdt, o).value.0.offset, cs)
    ensures ChildChain(fdt, o, [c] + cs)
  {
    RunningStep(fdt, o);
    ChainCons(fdt, o, c, ChildRunningNext(fdt, o).value.0.offset, cs);
  }

  /** A child the running cursor yields is the one `try_next` yields. */
  lemma RunningStep(fdt: Fdt, o: nat)
    requires ChildRunningNext(fdt, o).Returns? && ChildRunningNext(fdt, o).value.1.Some?
    requires ChildRunningNext(fdt, o).value.1.value.Ok?
    ensures ChildTryNext(fdt, o) == Returns((ChildRunningNext(fdt, o).value.0.offset, ChildRunningNext(fdt, o).value.1))
  {
  }

  /** A child yielded at `o`, with the cursor then at `n`, heads the chain
      from `o` when `cs` is the chain from `n`. */
  lemma ChainCons(fdt: Fdt, o: nat, c: FdtNode, n: nat, cs: seq<FdtNode>)
    requires ChildTryNext(fdt, o) == Returns((n, Some(Ok(c))))
    requires ChildChain(fdt, n, cs)
    ensures ChildChain(fdt, o, [c] + cs)
  {
    ChildTryNextSkips(fdt, o);
    assert ([c] + cs)[1..] == cs;
  }

  /** One step of a successful collection: the cursor yields the first
      child and the rest is collected from the advanced cursor. */
  lemma CollectStep(fdt: Fdt, it: ChildIter, cs: seq<FdtNode>) returns (next: ChildIter)
    requires CollectChildren(fdt, it) == Returns(Ok(cs)) && |cs| > 0
    ensures ChildNext(fdt, it) == Returns((next, Some(Ok(cs[0]))))
    ensures CollectChildren(fdt, next) == Returns(Ok(cs[1..]))
    ensures ChildMeasure(fdt, next) < ChildMeasure(fdt, it)
  {
    next := ChildNext(fdt, it).value.0;
  }

  /** The collection is the yielded child followed by the rest. */
  lemma CollectCons(fdt: Fdt, it: ChildIter, next: ChildIter, c: FdtNode, cs: seq<FdtNode>)
    requires ChildNext(fdt, it) == Returns((next, Some(Ok(c))))
    requires CollectChildren(fdt, next) == Returns(Ok(cs))
    ensures CollectChildren(fdt, it) == Returns(Ok([c] + cs))
  {
  }

  /** Children come out in blob order, each at or after the cursor. */
  lemma {:induction false} CollectedInOrder(fdt: Fdt, it: ChildIter, cs: seq<FdtNode>)
    requires CollectChildren(fdt, it) == Returns(Ok(cs))
    ensures forall i, j :: 0 <= i < j < |cs| ==> cs[i].offset < cs[j].offset
    ensures it.CRunning? ==> forall i :: 0 <= i < |cs| ==> it.offset <= cs[i].offset
    decreases ChildMeasure(fdt, it)
  {
    if |cs| > 0 {
      var next := CollectStep(fdt, it, cs);
      CollectedInOrder(fdt, next, cs[1..]);
      assert cs == [cs[0]] + cs[1..];
    }
  }

  /** `FdtNode::children`, collected. */
  function Children(fdt: Fdt, node: FdtNode): Run<Result<seq<FdtNode>, FdtError>>
  {
    CollectChildren(fdt, CStart(node.offset))
  }

  /** `FdtNode::child`: the first child whose name equals `name`; an error
      reading the cursor or a child's name ends the search with it. */
  function FindChild(fdt: Fdt, it: ChildIter, name: seq<u8>): (r: Run<Result<Option<FdtNode>, FdtError>>)
    ensures r.Returns? && r.value.Ok? && r.value.value.Some? ==> Name(fdt, r.value.value.value) == Ok(name)
    decreases ChildMeasure(fdt, it)
  {
    var step :- ChildNext(fdt, it);
    match step.1
    case None => Returns(Ok(None))
    case Some(Err(e)) => Returns(Err(e))
    case Some(Ok(c)) =>
      (match Name(fdt, c)
       case Err(e) => Returns(Err(e))
       case Ok(n) => if n == name then Returns(Ok(Some(c))) else FindChild(fdt, step.0, name))
  }

  /** The first node of `cs` named `name`, reading names in order and
      stopping at the first name that cannot be read. */
  function FirstChildNamed(fdt: Fdt, cs: seq<FdtNode>, name: seq<u8>): Result<Option<FdtNode>, FdtError>
  {
    if |cs| == 0 then Ok(None)
    else match Name(fdt, cs[0])
      case Err(e) => Err(e)
      case Ok(n) => if n == name then Ok(Some(cs[0])) else FirstChildNamed(fdt, cs[1..], name)
  }

  /** From cursor `it` the nodes `cs` are yielded in turn, leaving the
      cursor at `last`. */
  predicate YieldsChildren(fdt: Fdt, it: ChildIter, cs: seq<FdtNode>, last: ChildIter)
    decreases |cs|
  {
    if |cs| == 0 then it == last
    else
      && ChildNext(fdt, it).Returns? && ChildNext(fdt, it).value.1 == Some(Ok(cs[0]))
      && YieldsChildren(fdt, ChildNext(fdt, it).value.0, cs[1..], last)
  }

  /** Collecting stops at the first error: a collected list is everything
      the cursor yields before it ends, and a failure is the error the
      cursor meets right after the children it read first. */
  lemma {:induction false} CollectChildrenSplit(fdt: Fdt, it: ChildIter) returns (cs: seq<FdtNode>, last: ChildIter)
    requires CollectChildren(fdt, it).Returns?
    ensures YieldsChildren(fdt, it, cs, last) && ChildNext(fdt, last).Returns?
    ensures CollectChildren(fdt, it).value.Ok? ==>
      cs == CollectChildren(fdt, it).value.value && ChildNext(fdt, last).value.1.None?
    ensures CollectChildren(fdt, it).value.Err? ==>
      ChildNext(fdt, last).value.1 == Some(Err(CollectChildren(fdt, it).value.error))
    decreases ChildMeasure(fdt, it)
  {
    var step := ChildNext(fdt, it).value;
    match step.1
    case None =>
      cs, last := [], it;
    case Some(Err(_)) =>
      cs, last := [], it;
    case Some(Ok(c)) =>
      var rest, l := CollectChildrenSplit(fdt, step.0);
      cs, last := [c] + rest, l;
      assert cs[1..] == rest;
  }

  /** Lookup walks the yielded children in order, reading each name: the
      first child with the name, or the first name that cannot be read,
      is the answer; when neither occurs the lookup goes on from where
      they leave the cursor. */
  lemma {:induction false} FindChildYields(fdt: Fdt, it: ChildIter, name: seq<u8>, cs: seq<FdtNode>, last: ChildIter)
    requires YieldsChildren(fdt, it, cs, last)
    ensures FirstChildNamed(fdt, cs, name) != Ok(None) ==>
      FindChild(fdt, it, name) == Returns(FirstChildNamed(fdt, cs, name))
    ensures FirstChildNamed(fdt, cs, name) == Ok(None) ==> FindChild(fdt, it, name) == FindChild(fdt, last, name)
    decreases |cs|
  {
    if |cs| > 0 && Name(fdt, cs[0]).Ok? && Name(fdt, cs[0]).value != name {
      FindChildYields(fdt, ChildNext(fdt, it).value.0, name, cs[1..], last);
    }
  }

  /** `child(name)` is the first child of that name in blob order, or the
      first name read error before it. Past every child it returns Ok(None)
      when the children read to their end, and otherwise the first error
      the cursor meets. */
  lemma FindChildFirst(fdt: Fdt, it: ChildIter, name: seq<u8>) returns (cs: seq<FdtNode>, last: ChildIter)
    requires CollectChildren(fdt, it).Returns?
    ensures YieldsChildren(fdt, it, cs, last)
    ensures CollectChildren(fdt, it).value.Ok? ==> cs == CollectChildren(fdt, it).value.value
    ensures CollectChildren(fdt, it).value.Err? ==>
      ChildNext(fdt, last) == Returns((CError, Some(Err(CollectChildren(fdt, it).value.error))))
    ensures FirstChildNamed(fdt, cs, name) != Ok(None) ==>
      FindChild(fdt, it, name) == Returns(FirstChildNamed(fdt, cs, name))
    ensures FirstChildNamed(fdt, cs, name) == Ok(None) && CollectChildren(fdt, it).value.Ok? ==>
      FindChild(fdt, it, name) == Returns(Ok(None))
    ensures FirstChildNamed(fdt, cs, name) == Ok(None) && CollectChildren(fdt, it).value.Err? ==>
      FindChild(fdt, it, name) == Returns(Err(CollectChildren(fdt, it).value.error))
  {
    cs, last := CollectChildrenSplit(fdt, it);
    FindChildYields(fdt, it, name, cs, last);
  }

  /** `FdtNode::child`. */
  function Child(fdt: Fdt, node: FdtNode, name: seq<u8>): (r: Run<Result<Option<FdtNode>, FdtError>>)
    ensures r.Returns? && r.value.Ok? && r.value.value.Some? ==> Name(fdt, r.value.value.value) == Ok(name)
  {
    FindChild(fdt, CStart(node.offset), name)
  }

  /** A node's child lookup is the first child of that name among those
      the node's cursor yields, or the first name read error before it;
      with neither, Ok(None) when the children read to their end and
      otherwise the first read error. */
  lemma ChildFirst(fdt: Fdt, node: FdtNode, name: seq<u8>) returns (cs: seq<FdtNode>, last: ChildIter)
    requires Children(fdt, node).Returns?
    ensures YieldsChildren(fdt, CStart(node.offset), cs, last)
    ensures Children(fdt, node).value.Ok? ==> cs == Children(fdt, node).value.value
    ensures Children(fdt, node).value.Err? ==>
      ChildNext(fdt, last) == Returns((CError, Some(Err(Children(fdt, node).value.error))))
    ensures FirstChildNamed(fdt, cs, name) != Ok(None) ==>
      Child(fdt, node, name) == Returns(FirstChildNamed(fdt, cs, name))
    ensures FirstChildNamed(fdt, cs, name) == Ok(None) && Children(fdt, node).value.Ok? ==>
      Child(fdt, node, name) == Returns(Ok(None))
    ensures FirstChildNamed(fdt, cs, name) == Ok(None) && Children(fdt, node).value.Err? ==>
      Child(fdt, node, name) == Returns(Err(Children(fdt, node).value.error))
  {
    cs, last := FindChildFirst(fdt, CStart(node.offset), name);
  }
}
