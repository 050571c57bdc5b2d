/** Applying a device tree overlay (`DeviceTree::apply_overlay`): each
    fragment of the overlay names a target node by path and carries an
    `__overlay__` node whose properties and children are merged into the
    target, with the overlay's phandles renumbered past those of the base
    tree. */
module Overlay {
  import opened Bytes
  import opened Wrappers
  import opened Path
  import opened IndexMaps
  import opened ModelProperty
  import opened ModelNode
  import opened ModelTree
  import opened PhandleCells
  import opened TreeWalk
  import Utf8

  datatype OverlayErrorKind =
    | TargetPathNotFound
    | TargetPathInvalid
    | TargetNodeNotFound
    | SourceNodeNotFound
    | PhandleNotFound
    | CorruptedPhandle

  /** `OverlayError`: the kind and the name of the fragment or node it is
      about. */
  datatype OverlayError = OverlayError(kind: OverlayErrorKind, node: seq<u8>)

  /** "phandle" */
  const PHANDLE: seq<u8> := [0x70, 0x68, 0x61, 0x6e, 0x64, 0x6c, 0x65]
  /** "target-path" */
  const TARGET_PATH: seq<u8> := [0x74, 0x61, 0x72, 0x67, 0x65, 0x74, 0x2d, 0x70, 0x61, 0x74, 0x68]
  /** "__overlay__" */
  const OVERLAY_NODE: seq<u8> := [0x5f, 0x5f, 0x6f, 0x76, 0x65, 0x72, 0x6c, 0x61, 0x79, 0x5f, 0x5f]

  const PHANDLE_MAX: u32 := 0xFFFF_FFFF

  /** `PhandleMap`: the next phandle to hand out and the (old, new) pairs
      recorded so far, in order. */
  datatype PhandleMap = PhandleMap(next: u32, pairs: seq<(u32, u32)>)

  /** What a node's "phandle" property holds: nothing, something that is
      not a single cell (`Err`), or a phandle. */
  function NodePhandle(n: DeviceTreeNode): Option<Result<u32, ()>>
  {
    match Property(n, PHANDLE)
    case None => None
    case Some(p) => Some(AsU32(p))
  }

  predicate Corrupted(n: DeviceTreeNode)
  {
    NodePhandle(n).Some? && NodePhandle(n).value.Err?
  }

  predicate HasPhandle(n: DeviceTreeNode, v: u32)
  {
    NodePhandle(n) == Some(Ok(v))
  }

  /** `b` is `a` after handing out some further phandles: the old pairs are
      kept, one pair is appended per phandle handed out, and the new side
      of the appended pairs counts up from `a.next`. */
  predicate Extends(a: PhandleMap, b: PhandleMap)
  {
    && |a.pairs| <= |b.pairs| && b.pairs[..|a.pairs|] == a.pairs
    && b.next - a.next == |b.pairs| - |a.pairs|
    && forall j :: |a.pairs| <= j < |b.pairs| ==> b.pairs[j].1 == a.next + (j - |a.pairs|)
  }

  lemma ExtendsRefl(a: PhandleMap)
    ensures Extends(a, a)
  {
    assert a.pairs[..|a.pairs|] == a.pairs;
  }

  lemma ExtendsTrans(a: PhandleMap, b: PhandleMap, c: PhandleMap)
    requires Extends(a, b) && Extends(b, c)
    ensures Extends(a, c)
  {
    assert c.pairs[..|a.pairs|] == c.pairs[..|b.pairs|][..|a.pairs|];
    forall j | |b.pairs| <= j < |c.pairs|
      ensures c.pairs[j].1 == a.next + (j - |a.pairs|)
    {
    }
    forall j | |a.pairs| <= j < |b.pairs|
      ensures c.pairs[j].1 == a.next + (j - |a.pairs|)
    {
      assert c.pairs[j] == c.pairs[..|b.pairs|][j];
    }
  }

  // ---------------------------------------------------------------------
  // PhandleMap::new

  /** What the callback of `PhandleMap::new` sees of one node: its name
      and what its "phandle" property holds. */
  datatype Sighting = Sighting(name: seq<u8>, phandle: Option<Result<u32, ()>>)
  {
    predicate Corrupt()
    {
      phandle.Some? && phandle.value.Err?
    }
  }

  /** The sightings of every node of the tree, in walk order. */
  function Walk(t: DeviceTree): (r: seq<Sighting>)
    ensures |r| == |PreOrder(t.root)|
    ensures forall i :: 0 <= i < |r| ==>
      r[i] == Sighting(PreOrder(t.root)[i].name, NodePhandle(PreOrder(t.root)[i]))
  {
    var ns := PreOrder(t.root);
    seq(|ns|, i requires 0 <= i < |ns| => Sighting(ns[i].name, NodePhandle(ns[i])))
  }

  /** `ws[i]` is the last sighting in `ws` of a corrupted phandle. */
  predicate LastCorrupted(ws: seq<Sighting>, i: int)
  {
    0 <= i < |ws| && ws[i].Corrupt() && forall j :: i < j < |ws| ==> !ws[j].Corrupt()
  }

  /** The state of the walk in `PhandleMap::new`: the largest phandle seen
      and the error recorded, if any. */
  datatype Scan = Scan(max: u32, error: Option<OverlayError>)

  /** One step of the walk in `PhandleMap::new`. */
  function ScanStep(s: Scan, w: Sighting): Scan
  {
    match w.phandle
    case None => s
    case Some(Err(_)) => s.(error := Some(OverlayError(CorruptedPhandle, w.name)))
    case Some(Ok(v)) => if v > s.max then s.(max := v) else s
  }

  /** The walk over `ws`, starting from no maximum and no error. */
  function ScanAll(ws: seq<Sighting>): Scan
    decreases |ws|
  {
    if |ws| == 0 then Scan(0, None) else ScanStep(ScanAll(ws[..|ws| - 1]), ws[|ws| - 1])
  }

  /** The walk records an error exactly when some phandle is corrupted, and
      then names the last such node: the walk goes on after an error. */
  lemma {:induction false} ScanError(ws: seq<Sighting>)
    ensures ScanAll(ws).error.Some? <==> exists i :: 0 <= i < |ws| && ws[i].Corrupt()
    ensures ScanAll(ws).error.Some? ==>
      exists i :: LastCorrupted(ws, i) && ScanAll(ws).error.value == OverlayError(CorruptedPhandle, ws[i].name)
    decreases |ws|
  {
    if |ws| > 0 {
      var init := ws[..|ws| - 1];
      ScanError(init);
      assert forall i :: 0 <= i < |init| ==> init[i] == ws[i];
      var r := ScanAll(ws);
      if ws[|ws| - 1].Corrupt() {
        assert LastCorrupted(ws, |ws| - 1);
      } else if r.error.Some? {
        assert r == ScanStep(ScanAll(init), ws[|ws| - 1]);
        assert r.error == ScanAll(init).error;
        var i :| LastCorrupted(init, i) && r.error.value == OverlayError(CorruptedPhandle, init[i].name);
        assert LastCorrupted(ws, i);
      }
    }
  }

  /** The maximum bounds every phandle of the walk and is one of them, or
      0 when there is none. */
  lemma {:induction false} ScanMax(ws: seq<Sighting>)
    ensures forall i, v: u32 :: 0 <= i < |ws| && ws[i].phandle == Some(Ok(v)) ==> v <= ScanAll(ws).max
    ensures ScanAll(ws).max == 0 || exists i :: 0 <= i < |ws| && ws[i].phandle == Some(Ok(ScanAll(ws).max))
    decreases |ws|
  {
    if |ws| > 0 {
      var init := ws[..|ws| - 1];
      ScanMax(init);
      assert forall i :: 0 <= i < |init| ==> init[i] == ws[i];
    }
  }

  /** `PhandleMap::new`: a corrupted phandle anywhere in the base tree is
      an error naming the last such node in walk order; otherwise the next
      phandle is one past the largest in the tree (1 when the tree has
      none, or only phandle 0), and that addition
      overflows, a panic, exactly when some node already holds the largest
      phandle there is. */
  function NewMap(t: DeviceTree): (r: Run<Result<PhandleMap, OverlayError>>)
    ensures r.Returns? && r.value.Err? <==> exists i :: 0 <= i < |Walk(t)| && Walk(t)[i].Corrupt()
    ensures r.Returns? && r.value.Err? ==>
      exists i :: LastCorrupted(Walk(t), i) && r.value.error == OverlayError(CorruptedPhandle, Walk(t)[i].name)
    ensures r.Returns? && r.value.Ok? ==> |r.value.value.pairs| == 0
    ensures r.Returns? && r.value.Ok? ==>
      forall i, v: u32 :: 0 <= i < |Walk(t)| && Walk(t)[i].phandle == Some(Ok(v)) ==> v < r.value.value.next
    ensures r.Returns? && r.value.Ok? ==>
      || r.value.value.next == 1
      || exists i, v: u32 :: 0 <= i < |Walk(t)| && Walk(t)[i].phandle == Some(Ok(v)) && r.value.value.next == v + 1
    ensures r.Panics? <==>
      && (forall i :: 0 <= i < |Walk(t)| ==> !Walk(t)[i].Corrupt())
      && (exists i :: 0 <= i < |Walk(t)| && Walk(t)[i].phandle == Some(Ok(PHANDLE_MAX)))
  {
    var s := ScanAll(Walk(t));
    ScanError(Walk(t));
    ScanMax(Walk(t));
    match s.error
    case Some(e) => Returns(Err(e))
    case None => if s.max == PHANDLE_MAX then Panics else Returns(Ok(PhandleMap(s.max + 1, [])))
  }

  // ---------------------------------------------------------------------
  // PhandleMap::fixup_node

  /** The first half of `fixup_node`: a node with a "phandle" property
      takes the next phandle, the pair (old, new) is recorded, and the
      property's value becomes the new phandle. The increment comes before
      the pair is recorded, so handing out the largest phandle panics. */
  function Renumber(pm: PhandleMap, n: DeviceTreeNode): (r: Run<Result<(PhandleMap, DeviceTreeNode), OverlayError>>)
    ensures NodePhandle(n).None? ==> r == Returns(Ok((pm, n)))
    ensures Corrupted(n) ==> r == Returns(Err(OverlayError(CorruptedPhandle, n.name)))
    ensures r.Panics? <==> (exists v: u32 :: HasPhandle(n, v)) && pm.next == PHANDLE_MAX
    ensures r.Returns? && r.value.Ok? ==>
      var (pm', n') := r.value.value;
      && n'.name == n.name && n'.children == n.children
      && Extends(pm, pm')
      && (forall v: u32 :: HasPhandle(n, v) ==> pm'.pairs == pm.pairs + [(v, pm.next)])
      && (WellFormed(n) ==>
            && WellFormed(n') && SameKeys(n'.properties, n.properties)
            && (NodePhandle(n).Some? ==> HasPhandle(n', pm.next)))
  {
    match Property(n, PHANDLE)
    case None => Returns(Ok((pm, n)))
    case Some(p) =>
      match AsU32(p)
      case Err(_) => Returns(Err(OverlayError(CorruptedPhandle, n.name)))
      case Ok(was) =>
        assert HasPhandle(n, was);
        if pm.next == PHANDLE_MAX then Panics
        else
          SetPhandle(n, p, pm.next);
          Returns(Ok((PhandleMap(pm.next + 1, pm.pairs + [(was, pm.next)]), WithPhandle(n, p, pm.next))))
  }

  /** `property_mut("phandle").set_value(..)`: the property stored under
      "phandle" keeps its name and takes the new value. */
  function WithPhandle(n: DeviceTreeNode, p: DeviceTreeProperty, x: u32): DeviceTreeNode
  {
    n.(properties := Insert(n.properties, PHANDLE, SetValue(p, ToBe32(x))))
  }

  lemma SetPhandle(n: DeviceTreeNode, p: DeviceTreeProperty, x: u32)
    requires Property(n, PHANDLE) == Some(p)
    ensures WellFormed(n) ==>
      && WellFormed(WithPhandle(n, p, x)) && SameKeys(WithPhandle(n, p, x).properties, n.properties)
      && HasPhandle(WithPhandle(n, p, x), x)
  {
    if WellFormed(n) {
      AsU32OfWord(p.name, x);
      GetInsert(n.properties, PHANDLE, SetValue(p, ToBe32(x)), PHANDLE);
    }
  }

  /** Two maps with the same keys in the same order. */
  predicate SameKeys<V, W>(a: IndexMap<seq<u8>, V>, b: IndexMap<seq<u8>, W>)
  {
    |a.entries| == |b.entries| && forall j :: 0 <= j < |a.entries| ==> a.entries[j].0 == b.entries[j].0
  }

  /** `fixup_property` on every property of a node, in place. */
  function FixupAll(m: seq<(u32, u32)>, props: IndexMap<seq<u8>, DeviceTreeProperty>): (r: IndexMap<seq<u8>, DeviceTreeProperty>)
    ensures SameKeys(r, props)
    ensures forall j :: 0 <= j < |props.entries| ==> r.entries[j].1 == FixupProperty(m, props.entries[j].1)
  {
    IndexMap(seq(|props.entries|, j requires 0 <= j < |props.entries| =>
      (props.entries[j].0, FixupProperty(m, props.entries[j].1))))
  }

  /** `es` is what renumbering made of the children of `n` from position
      `i` on: same keys, same names, same sizes, and well-formed where the
      originals were. */
  predicate FixedEntries(n: DeviceTreeNode, i: nat, es: seq<(seq<u8>, DeviceTreeNode)>)
    requires i <= |n.children.entries|
  {
    && |es| == |n.children.entries| - i
    && forall j :: 0 <= j < |es| ==>
      && es[j].0 == n.children.entries[i + j].0
      && es[j].1.name == n.children.entries[i + j].1.name
      && |PreOrder(es[j].1)| == |PreOrder(n.children.entries[i + j].1)|
      && (WellFormed(n.children.entries[i + j].1) ==> WellFormed(es[j].1))
  }

  /** `PhandleMap::fixup_node`: renumber the node, rewrite every property
      of the node with the pairs recorded so far (its own included), then
      do the same to every child subtree in order. The node keeps its name
      and shape; the only error is a corrupted phandle. */
  function FixupNode(pm: PhandleMap, n: DeviceTreeNode): (r: Run<Result<(PhandleMap, DeviceTreeNode), OverlayError>>)
    ensures r.Returns? && r.value.Err? ==> r.value.error.kind == CorruptedPhandle
    ensures r.Returns? && r.value.Ok? ==> Extends(pm, r.value.value.0)
    ensures r.Returns? && r.value.Ok? ==>
      r.value.value.1.name == n.name && |PreOrder(r.value.value.1)| == |PreOrder(n)|
    ensures r.Returns? && r.value.Ok? && WellFormed(n) ==> WellFormed(r.value.value.1)
    decreases n, 1
  {
    match Renumber(pm, n)
    case Panics => Panics
    case Hangs => Hangs
    case Returns(Err(e)) => Returns(Err(e))
    case Returns(Ok((pm1, n1))) =>
      match FixupChildren(pm1, n, 0)
      case Panics => Panics
      case Hangs => Hangs
      case Returns(Err(e)) => Returns(Err(e))
      case Returns(Ok((pm2, es))) =>
        ExtendsTrans(pm, pm1, pm2);
        Reassembled(n, n1, pm1.pairs, es);
        Returns(Ok((pm2, n1.(properties := FixupAll(pm1.pairs, n1.properties), children := IndexMap(es)))))
  }

  /** `fixup_node` on the children of `n` from position `i` on, stopping
      at the first error. */
  function FixupChildren(pm: PhandleMap, n: DeviceTreeNode, i: nat)
    : (r: Run<Result<(PhandleMap, seq<(seq<u8>, DeviceTreeNode)>), OverlayError>>)
    requires i <= |n.children.entries|
    ensures r.Returns? && r.value.Err? ==> r.value.error.kind == CorruptedPhandle
    ensures r.Returns? && r.value.Ok? ==> Extends(pm, r.value.value.0) && FixedEntries(n, i, r.value.value.1)
    decreases n, 0, |n.children.entries| - i
  {
    if i == |n.children.entries| then Returns(Ok((pm, [])))
    else
      var c := n.children.entries[i].1;
      assert n.children.entries[i] in n.children.entries;
      match FixupNode(pm, c)
      case Panics => Panics
      case Hangs => Hangs
      case Returns(Err(e)) => Returns(Err(e))
      case Returns(Ok((pm1, c1))) =>
        match FixupChildren(pm1, n, i + 1)
        case Panics => Panics
        case Hangs => Hangs
        case Returns(Err(e)) => Returns(Err(e))
        case Returns(Ok((pm2, rest))) =>
          ExtendsTrans(pm, pm1, pm2);
          FixedCons(n, i, c1, rest);
          Returns(Ok((pm2, [(n.children.entries[i].0, c1)] + rest)))
  }

  lemma FixedCons(n: DeviceTreeNode, i: nat, c: DeviceTreeNode, rest: seq<(seq<u8>, DeviceTreeNode)>)
    requires i < |n.children.entries| && FixedEntries(n, i + 1, rest)
    requires c.name == n.children.entries[i].1.name
    requires |PreOrder(c)| == |PreOrder(n.children.entries[i].1)|
    requires WellFormed(n.children.entries[i].1) ==> WellFormed(c)
    ensures FixedEntries(n, i, [(n.children.entries[i].0, c)] + rest)
  {
    var es := [(n.children.entries[i].0, c)] + rest;
    assert forall j :: 1 <= j < |es| ==> es[j] == rest[j - 1];
  }

  /** The renumbered node put back together from its renumbered parts
      keeps its name and size, and is well-formed when the original was. */
  lemma Reassembled(n: DeviceTreeNode, n1: DeviceTreeNode, m: seq<(u32, u32)>, es: seq<(seq<u8>, DeviceTreeNode)>)
    requires n1.name == n.name && n1.children == n.children
    requires WellFormed(n) ==> WellFormed(n1)
    requires FixedEntries(n, 0, es)
    ensures var r := n1.(properties := FixupAll(m, n1.properties), children := IndexMap(es));
      && r.name == n.name && |PreOrder(r)| == |PreOrder(n)|
      && (WellFormed(n) ==> WellFormed(r))
  {
    var r := n1.(properties := FixupAll(m, n1.properties), children := IndexMap(es));
    PreOrderFromLength(r, n, 0);
    if WellFormed(n) {
      forall e | e in r.properties.entries
        ensures e.0 == e.1.name
      {
        var j :| 0 <= j < |r.properties.entries| && r.properties.entries[j] == e;
        assert n1.properties.entries[j] in n1.properties.entries;
      }
      forall e | e in es
        ensures e.0 == e.1.name && WellFormed(e.1)
      {
        var j :| 0 <= j < |es| && es[j] == e;
        assert n.children.entries[j] in n.children.entries;
      }
    }
  }

  /** `es` is `fixup_node` run on the children of `n` from position `i`
      on, one after another, through the maps `ms`: child `i + j` is
      renumbered with the map the child before it left behind, starting
      from `pm` and ending at `pmEnd`. */
  predicate ChainVia(ms: seq<PhandleMap>, pm: PhandleMap, n: DeviceTreeNode, i: nat,
                     pmEnd: PhandleMap, es: seq<(seq<u8>, DeviceTreeNode)>)
    requires i <= |n.children.entries|
  {
    && |es| == |n.children.entries| - i && |ms| == |es| + 1
    && ms[0] == pm && ms[|es|] == pmEnd
    && forall j :: 0 <= j < |es| ==>
      && es[j].0 == n.children.entries[i + j].0
      && FixesTo(ms[j], n.children.entries[i + j].1, ms[j + 1], es[j].1)
  }

  /** `fixup_node` run on `c` with map `pm` returns `c1` and leaves map
      `pm1` behind. */
  predicate FixesTo(pm: PhandleMap, c: DeviceTreeNode, pm1: PhandleMap, c1: DeviceTreeNode)
  {
    FixupNode(pm, c) == Returns(Ok((pm1, c1)))
  }

  ghost predicate FixedChain(pm: PhandleMap, n: DeviceTreeNode, i: nat, pmEnd: PhandleMap, es: seq<(seq<u8>, DeviceTreeNode)>)
    requires i <= |n.children.entries|
  {
    exists ms :: ChainVia(ms, pm, n, i, pmEnd, es)
  }

  /** The child loop of `fixup_node` renumbers each child in turn with the
      map the previous child left behind. */
  lemma {:induction false} FixupChildrenChain(pm: PhandleMap, n: DeviceTreeNode, i: nat)
    requires i <= |n.children.entries|
    requires FixupChildren(pm, n, i).Returns? && FixupChildren(pm, n, i).value.Ok?
    ensures var (pmEnd, es) := FixupChildren(pm, n, i).value.value; FixedChain(pm, n, i, pmEnd, es)
    decreases |n.children.entries| - i
  {
    if i == |n.children.entries| {
      assert ChainVia([pm], pm, n, i, pm, []);
    } else {
      match FixupNode(pm, n.children.entries[i].1)
      case Returns(Ok((pm1, c1))) =>
        match FixupChildren(pm1, n, i + 1)
        case Returns(Ok((pm2, rest))) =>
          FixupChildrenChain(pm1, n, i + 1);
          var ms' :| ChainVia(ms', pm1, n, i + 1, pm2, rest);
          ChainCons(ms', pm, pm1, n, i, pm2, c1, rest);
    }
  }

  lemma {:induction false} ChainCons(ms: seq<PhandleMap>, pm: PhandleMap, pm1: PhandleMap, n: DeviceTreeNode, i: nat,
                  pmEnd: PhandleMap, c: DeviceTreeNode, rest: seq<(seq<u8>, DeviceTreeNode)>)
    requires i < |n.children.entries| && ChainVia(ms, pm1, n, i + 1, pmEnd, rest)
    requires FixupNode(pm, n.children.entries[i].1) == Returns(Ok((pm1, c)))
    ensures ChainVia([pm] + ms, pm, n, i, pmEnd, [(n.children.entries[i].0, c)] + rest)
  {
    var es := [(n.children.entries[i].0, c)] + rest;
    var ms' := [pm] + ms;
    forall j | 0 <= j < |es|
      ensures es[j].0 == n.children.entries[i + j].0
      ensures FixesTo(ms'[j], n.children.entries[i + j].1, ms'[j + 1], es[j].1)
    {
      if j == 0 {
        ChainConsHead(ms, pm, pm1, n, i, pmEnd, c, rest);
      } else {
        ChainViaAt(ms, pm1, n, i + 1, pmEnd, rest, j - 1);
        assert (i + 1) + (j - 1) == i + j;
        ChainConsTail(ms, pm, n, i, c, rest, j);
      }
    }
  }

  /** The first link of the chain that `ChainCons` builds. */
  lemma ChainConsHead(ms: seq<PhandleMap>, pm: PhandleMap, pm1: PhandleMap, n: DeviceTreeNode, i: nat,
                      pmEnd: PhandleMap, c: DeviceTreeNode, rest: seq<(seq<u8>, DeviceTreeNode)>)
    requires i < |n.children.entries| && ChainVia(ms, pm1, n, i + 1, pmEnd, rest)
    requires FixupNode(pm, n.children.entries[i].1) == Returns(Ok((pm1, c)))
    ensures FixesTo(([pm] + ms)[0], n.children.entries[i].1, ([pm] + ms)[1], ([(n.children.entries[i].0, c)] + rest)[0].1)
  {
  }

  /** Link `j > 0` of the chain that `ChainCons` builds is link `j - 1` of
      the chain it extends. */
  lemma ChainConsTail(ms: seq<PhandleMap>, pm: PhandleMap, n: DeviceTreeNode, i: nat,
                      c: DeviceTreeNode, rest: seq<(seq<u8>, DeviceTreeNode)>, j: nat)
    requires 0 < j <= |rest| && |ms| == |rest| + 1 && i + j < |n.children.entries|
    requires rest[j - 1].0 == n.children.entries[i + j].0
    requires FixesTo(ms[j - 1], n.children.entries[i + j].1, ms[j], rest[j - 1].1)
    ensures ([(n.children.entries[i].0, c)] + rest)[j].0 == n.children.entries[i + j].0
    ensures FixesTo(([pm] + ms)[j], n.children.entries[i + j].1, ([pm] + ms)[j + 1], ([(n.children.entries[i].0, c)] + rest)[j].1)
  {
    assert ([pm] + ms)[j] == ms[j - 1] && ([pm] + ms)[j + 1] == ms[j];
    assert ([(n.children.entries[i].0, c)] + rest)[j] == rest[j - 1];
  }

  lemma ChainViaAt(ms: seq<PhandleMap>, pm: PhandleMap, n: DeviceTreeNode, i: nat,
                   pmEnd: PhandleMap, es: seq<(seq<u8>, DeviceTreeNode)>, k: nat)
    requires i <= |n.children.entries| && ChainVia(ms, pm, n, i, pmEnd, es) && k < |es|
    ensures es[k].0 == n.children.entries[i + k].0
    ensures FixesTo(ms[k], n.children.entries[i + k].1, ms[k + 1], es[k].1)
  {
  }

  /** What `fixup_node` made of a node: the node renumbered first, its
      properties (the "phandle" property included) rewritten with the
      pairs recorded up to and including its own, and its children
      renumbered in order, each with the map the one before it left
      behind. */
  lemma FixupNodeParts(pm: PhandleMap, n: DeviceTreeNode)
    requires FixupNode(pm, n).Returns? && FixupNode(pm, n).value.Ok?
    ensures Renumber(pm, n).Returns? && Renumber(pm, n).value.Ok?
    ensures var (pm1, n1) := Renumber(pm, n).value.value;
      var (pm2, r) := FixupNode(pm, n).value.value;
      && r.properties == FixupAll(pm1.pairs, n1.properties)
      && FixedChain(pm1, n, 0, pm2, r.children.entries)
  {
    var (pm1, n1) := Renumber(pm, n).value.value;
    FixupChildrenChain(pm1, n, 0);
  }

  // ---------------------------------------------------------------------
  // merge_nodes

  /** The property loop of `merge_nodes`: each overlay property, rewritten
      with the pairs recorded so far, replaces the property of that name or
      is appended. */
  function MergeProps(m: seq<(u32, u32)>, e: DeviceTreeNode, ps: seq<DeviceTreeProperty>): (r: DeviceTreeNode)
    ensures r.name == e.name && r.children == e.children
    ensures WellFormed(e) ==> WellFormed(r)
    decreases |ps|
  {
    if |ps| == 0 then e else MergeProps(m, AddProperty(e, FixupProperty(m, ps[0])), ps[1..])
  }

  /** After the property loop, a name no overlay property has reads as
      before. */
  lemma {:induction false} MergePropsUntouched(m: seq<(u32, u32)>, e: DeviceTreeNode, ps: seq<DeviceTreeProperty>, k: seq<u8>)
    requires WellFormed(e)
    requires forall j :: 0 <= j < |ps| ==> ps[j].name != k
    ensures Property(MergeProps(m, e, ps), k) == Property(e, k)
    decreases |ps|
  {
    if |ps| > 0 {
      var p := FixupProperty(m, ps[0]);
      AddPropertyLookup(e, p, k);
      assert forall j :: 0 <= j < |ps[1..]| ==> ps[1..][j] == ps[j + 1];
      MergePropsUntouched(m, AddProperty(e, p), ps[1..], k);
    }
  }

  /** After the property loop, the name of an overlay property reads as
      the last overlay property of that name, rewritten. */
  lemma {:induction false} MergePropsSet(m: seq<(u32, u32)>, e: DeviceTreeNode, ps: seq<DeviceTreeProperty>, j: nat)
    requires WellFormed(e)
    requires j < |ps| && forall l :: j < l < |ps| ==> ps[l].name != ps[j].name
    ensures Property(MergeProps(m, e, ps), ps[j].name) == Some(FixupProperty(m, ps[j]))
    decreases |ps|
  {
    var p := FixupProperty(m, ps[0]);
    AddPropertyLookup(e, p, ps[j].name);
    assert forall l :: 0 <= l < |ps[1..]| ==> ps[1..][l] == ps[l + 1];
    if j == 0 {
      MergePropsUntouched(m, AddProperty(e, p), ps[1..], ps[0].name);
    } else {
      MergePropsSet(m, AddProperty(e, p), ps[1..], j - 1);
    }
  }

  /** `merge_nodes(existing, new)`: the properties of the overlay node `src` are merged
      first, then each child of `src`, renumbered by `fixup_node`, is merged
      recursively into the child of the same name or appended. A child that
      is merged is renumbered again inside the recursive call. The first
      error stops the merge and leaves what was merged so far in place; the
      updated map is returned only on success. */
  function MergeNodes(pm: PhandleMap, existing: DeviceTreeNode, src: DeviceTreeNode)
    : (r: Run<(DeviceTreeNode, Result<PhandleMap, OverlayError>)>)
    ensures r.Returns? ==> r.value.0.name == existing.name
    ensures r.Returns? && r.value.1.Ok? ==> Extends(pm, r.value.1.value)
    ensures r.Returns? && r.value.1.Err? ==> r.value.1.error.kind == CorruptedPhandle
    decreases |PreOrder(src)|, 1, 0
  {
    var e := MergeProps(pm.pairs, existing, Properties(src));
    MergeChildren(pm, e, src, 0)
  }

  /** The child loop of `merge_nodes`, from position `i` of the children
      of `src` on. The node's own name and properties are not touched. */
  function MergeChildren(pm: PhandleMap, e: DeviceTreeNode, src: DeviceTreeNode, i: nat)
    : (r: Run<(DeviceTreeNode, Result<PhandleMap, OverlayError>)>)
    requires i <= |src.children.entries|
    ensures r.Returns? ==> r.value.0.name == e.name && r.value.0.properties == e.properties
    ensures r.Returns? && r.value.1.Ok? ==> Extends(pm, r.value.1.value)
    ensures r.Returns? && r.value.1.Err? ==> r.value.1.error.kind == CorruptedPhandle
    decreases |PreOrder(src)|, 0, |src.children.entries| - i
  {
    if i == |src.children.entries| then Returns((e, Ok(pm)))
    else
      ChildSmaller(src, i);
      match MergeChild(pm, e, src.children.entries[i].1)
      case Panics => Panics
      case Hangs => Hangs
      case Returns((e1, Err(err))) => Returns((e1, Err(err)))
      case Returns((e1, Ok(pm1))) =>
        var rest := MergeChildren(pm1, e1, src, i + 1);
        ExtendsVia(pm, pm1, rest);
        rest
  }

  /** One turn of the child loop: the overlay child `c` is renumbered by
      `fixup_node`, then merged, with the map the renumbering left behind,
      into the child of `e` with its name, or appended when there is none.
      A failed merge still writes the merged child back. */
  function MergeChild(pm: PhandleMap, e: DeviceTreeNode, c: DeviceTreeNode)
    : (r: Run<(DeviceTreeNode, Result<PhandleMap, OverlayError>)>)
    ensures r.Returns? ==> r.value.0.name == e.name && r.value.0.properties == e.properties
    ensures r.Returns? && r.value.1.Ok? ==> Extends(pm, r.value.1.value)
    ensures r.Returns? && r.value.1.Err? ==> r.value.1.error.kind == CorruptedPhandle
    decreases |PreOrder(c)|, 2, 0
  {
    match FixupNode(pm, c)
    case Panics => Panics
    case Hangs => Hangs
    case Returns(Err(err)) => Returns((e, Err(err)))
    case Returns(Ok((pm1, c1))) =>
      match Child(e, c1.name)
      case None => Returns((AddChild(e, c1), Ok(pm1)))
      case Some(ec) =>
        match MergeNodes(pm1, ec, c1)
        case Panics => Panics
        case Hangs => Hangs
        case Returns((ec1, res)) =>
          var e1 := e.(children := Insert(e.children, c1.name, ec1));
          match res
          case Err(err) => Returns((e1, Err(err)))
          case Ok(pm2) =>
            ExtendsTrans(pm, pm1, pm2);
            Returns((e1, Ok(pm2)))
  }

  lemma ExtendsVia(a: PhandleMap, b: PhandleMap, r: Run<(DeviceTreeNode, Result<PhandleMap, OverlayError>)>)
    requires Extends(a, b)
    ensures r.Returns? && r.value.1.Ok? && Extends(b, r.value.1.value) ==> Extends(a, r.value.1.value)
  {
    if r.Returns? && r.value.1.Ok? && Extends(b, r.value.1.value) {
      ExtendsTrans(a, b, r.value.1.value);
    }
  }

  lemma ChildOfWellFormed(n: DeviceTreeNode, i: nat)
    requires i < |n.children.entries|
    ensures WellFormed(n) ==> WellFormed(n.children.entries[i].1)
  {
    assert n.children.entries[i] in n.children.entries;
  }

  /** Writing a merged child back under its own name keeps the parent
      well-formed. */
  lemma MergedChildWellFormed(e: DeviceTreeNode, k: seq<u8>, c: DeviceTreeNode)
    requires Child(e, k).Some? && c.name == Child(e, k).value.name
    ensures WellFormed(e) && WellFormed(c) ==> WellFormed(e.(children := Insert(e.children, k, c)))
  {
    if WellFormed(e) && WellFormed(c) {
      ChildWellFormed(e, k, Child(e, k).value);
      assert e.(children := Insert(e.children, k, c)) == AddChild(e, c);
    }
  }

  /** Merging keeps a well-formed tree well-formed. */
  lemma {:induction false} MergeNodesWellFormed(pm: PhandleMap, existing: DeviceTreeNode, src: DeviceTreeNode)
    requires WellFormed(existing) && WellFormed(src)
    requires MergeNodes(pm, existing, src).Returns?
    ensures WellFormed(MergeNodes(pm, existing, src).value.0)
    decreases |PreOrder(src)|, 1, 0
  {
    MergeChildrenWellFormed(pm, MergeProps(pm.pairs, existing, Properties(src)), src, 0);
  }

  lemma {:induction false} MergeChildrenWellFormed(pm: PhandleMap, e: DeviceTreeNode, src: DeviceTreeNode, i: nat)
    requires i <= |src.children.entries|
    requires WellFormed(e) && WellFormed(src)
    requires MergeChildren(pm, e, src, i).Returns?
    ensures WellFormed(MergeChildren(pm, e, src, i).value.0)
    decreases |PreOrder(src)|, 0, |src.children.entries| - i
  {
    if i < |src.children.entries| {
      ChildOfWellFormed(src, i);
      ChildSmaller(src, i);
      var m := MergeChild(pm, e, src.children.entries[i].1);
      MergeChildWellFormed(pm, e, src.children.entries[i].1);
      if m.value.1.Ok? {
        MergeChildrenWellFormed(m.value.1.value, m.value.0, src, i + 1);
      }
    }
  }

  lemma {:induction false} MergeChildWellFormed(pm: PhandleMap, e: DeviceTreeNode, c: DeviceTreeNode)
    requires WellFormed(e) && WellFormed(c)
    requires MergeChild(pm, e, c).Returns?
    ensures WellFormed(MergeChild(pm, e, c).value.0)
    decreases |PreOrder(c)|, 2, 0
  {
    match FixupNode(pm, c)
    case Returns(Err(_)) =>
    case Returns(Ok((pm1, c1))) =>
      match Child(e, c1.name)
      case None =>
      case Some(ec) =>
        ChildWellFormed(e, c1.name, ec);
        MergeNodesWellFormed(pm1, ec, c1);
        MergedChildWellFormed(e, c1.name, MergeNodes(pm1, ec, c1).value.0);
  }

  /** One turn of the child loop keeps the child names distinct. */
  lemma MergeChildKeys(pm: PhandleMap, e: DeviceTreeNode, c: DeviceTreeNode)
    requires MergeChild(pm, e, c).Returns?
    ensures UniqueKeys(e.children) ==> UniqueKeys(MergeChild(pm, e, c).value.0.children)
  {
    if UniqueKeys(e.children) {
      match FixupNode(pm, c)
      case Returns(Err(_)) =>
      case Returns(Ok((pm1, c1))) =>
        match Child(e, c1.name)
        case None =>
          InsertUnique(e.children, c1.name, c1);
        case Some(ec) =>
          InsertUnique(e.children, c1.name, MergeNodes(pm1, ec, c1).value.0);
    }
  }

  /** One turn of the child loop leaves every other child name as it was. */
  lemma MergeChildOthers(pm: PhandleMap, e: DeviceTreeNode, c: DeviceTreeNode, k: seq<u8>)
    requires MergeChild(pm, e, c).Returns?
    ensures k != c.name ==> Child(MergeChild(pm, e, c).value.0, k) == Child(e, k)
  {
    match FixupNode(pm, c)
    case Returns(Err(_)) =>
    case Returns(Ok((pm1, c1))) =>
      match Child(e, c1.name)
      case None =>
        GetInsert(e.children, c1.name, c1, k);
      case Some(ec) =>
        GetInsert(e.children, c1.name, MergeNodes(pm1, ec, c1).value.0, k);
  }

  /** What a turn of the child loop leaves under the name of overlay
      child `c`, renumbered with `pmi`, when the node held `prev` under
      that name: the renumbered child itself when there was none, and
      otherwise `prev` merged with it using the map the renumbering left
      behind; nothing when the renumbering fails or a run does not return. */
  function PlacedChild(pmi: PhandleMap, prev: Option<DeviceTreeNode>, c: DeviceTreeNode): Option<DeviceTreeNode>
  {
    match FixupNode(pmi, c)
    case Returns(Ok((pmj, c1))) =>
      (match prev
       case None => Some(c1)
       case Some(ec) =>
         if MergeNodes(pmj, ec, c1).Returns? then Some(MergeNodes(pmj, ec, c1).value.0) else None)
    case _ => None
  }

  /** Overlay child `c`, renumbered with `pmi`, is in place in `r`, the
      result of merging into `e`: it was added as it is when `e` had no
      child of its name, and otherwise merged into that child with the map
      the renumbering left behind. */
  predicate Placed(pmi: PhandleMap, e: DeviceTreeNode, c: DeviceTreeNode, r: DeviceTreeNode)
  {
    && PlacedChild(pmi, Child(e, c.name), c).Some?
    && Child(r, c.name) == PlacedChild(pmi, Child(e, c.name), c)
  }

  /** A turn of the child loop that returns places its overlay child. */
  lemma MergeChildPlaces(pm: PhandleMap, e: DeviceTreeNode, c: DeviceTreeNode)
    requires MergeChild(pm, e, c).Returns? && MergeChild(pm, e, c).value.1.Ok?
    ensures Placed(pm, e, c, MergeChild(pm, e, c).value.0)
  {
    match FixupNode(pm, c)
    case Returns(Ok((pm1, c1))) =>
      match Child(e, c1.name)
      case None =>
        GetInsert(e.children, c1.name, c1, c1.name);
      case Some(ec) =>
        GetInsert(e.children, c1.name, MergeNodes(pm1, ec, c1).value.0, c1.name);
  }

  /** A name that no remaining overlay child has reads as before: the
      child loop touches only children named in the overlay. */
  lemma {:induction false} MergeChildrenUntouched(pm: PhandleMap, e: DeviceTreeNode, src: DeviceTreeNode, i: nat, k: seq<u8>)
    requires i <= |src.children.entries|
    requires forall j :: i <= j < |src.children.entries| ==> src.children.entries[j].1.name != k
    requires MergeChildren(pm, e, src, i).Returns?
    ensures Child(MergeChildren(pm, e, src, i).value.0, k) == Child(e, k)
    decreases |src.children.entries| - i
  {
    if i < |src.children.entries| {
      var m := MergeChild(pm, e, src.children.entries[i].1);
      MergeChildOthers(pm, e, src.children.entries[i].1, k);
      if m.value.1.Ok? {
        MergeChildrenUntouched(m.value.1.value, m.value.0, src, i + 1, k);
      }
    }
  }

  /** What a merge leaves alone: a property name the overlay node lacks and
      a child name none of its children has read as before. */
  lemma MergeNodesUntouched(pm: PhandleMap, existing: DeviceTreeNode, src: DeviceTreeNode, k: seq<u8>)
    requires WellFormed(existing)
    requires MergeNodes(pm, existing, src).Returns?
    ensures (forall p :: p in Properties(src) ==> p.name != k) ==>
      Property(MergeNodes(pm, existing, src).value.0, k) == Property(existing, k)
    ensures (forall c :: c in Children(src) ==> c.name != k) ==>
      Child(MergeNodes(pm, existing, src).value.0, k) == Child(existing, k)
  {
    var ps := Properties(src);
    var e := MergeProps(pm.pairs, existing, ps);
    if forall p :: p in ps ==> p.name != k {
      assert forall j :: 0 <= j < |ps| ==> ps[j] in ps;
      MergePropsUntouched(pm.pairs, existing, ps, k);
    }
    if forall c :: c in Children(src) ==> c.name != k {
      assert forall j :: 0 <= j < |src.children.entries| ==> Children(src)[j] in Children(src);
      MergeChildrenUntouched(pm, e, src, 0, k);
    }
  }

  /** Every property of a well-formed overlay node ends up in the merged
      node, rewritten with the pairs recorded before the merge began. */
  lemma MergeNodesProperty(pm: PhandleMap, existing: DeviceTreeNode, src: DeviceTreeNode, p: DeviceTreeProperty)
    requires WellFormed(existing) && WellFormed(src) && p in Properties(src)
    requires MergeNodes(pm, existing, src).Returns?
    ensures Property(MergeNodes(pm, existing, src).value.0, p.name) == Some(FixupProperty(pm.pairs, p))
  {
    var ps := Properties(src);
    var j :| 0 <= j < |ps| && ps[j] == p;
    forall l | j < l < |ps|
      ensures ps[l].name != p.name
    {
      assert src.properties.entries[l] in src.properties.entries;
      assert src.properties.entries[j] in src.properties.entries;
    }
    MergePropsSet(pm.pairs, existing, ps, j);
  }

  /** No two children of `n` have the same name. */
  predicate DistinctNames(n: DeviceTreeNode)
  {
    forall a, b :: 0 <= a < b < |n.children.entries| ==> n.children.entries[a].1.name != n.children.entries[b].1.name
  }

  lemma ChildNamesDiffer(n: DeviceTreeNode)
    requires WellFormed(n)
    ensures DistinctNames(n)
  {
    forall a, b | 0 <= a < b < |n.children.entries|
      ensures n.children.entries[a].1.name != n.children.entries[b].1.name
    {
      assert n.children.entries[a] in n.children.entries && n.children.entries[b] in n.children.entries;
    }
  }

  /** The turn of the child loop for overlay child `i` places it, and no
      later turn touches it again. */
  lemma MergeChildrenHere(pm: PhandleMap, e: DeviceTreeNode, src: DeviceTreeNode, i: nat)
    requires DistinctNames(src)
    requires i < |src.children.entries|
    requires MergeChildren(pm, e, src, i).Returns? && MergeChildren(pm, e, src, i).value.1.Ok?
    ensures Placed(pm, e, src.children.entries[i].1, MergeChildren(pm, e, src, i).value.0)
  {
    var c := src.children.entries[i].1;
    var (e1, res) := MergeChild(pm, e, c).value;
    MergeChildPlaces(pm, e, c);
    MergeChildOthers(pm, e, c, c.name);
    MergeChildrenUntouched(res.value, e1, src, i + 1, c.name);
  }

  /** The child loop from position `i` reaches position `k` with a map
      grown from `pm` and a node `ei` whose child called `name` is still
      the one `e` had, when no overlay child in between is called so; and
      the loop resumed there leaves under `name` what the whole loop does. */
  lemma {:induction false} MergeChildrenReach(pm: PhandleMap, e: DeviceTreeNode, src: DeviceTreeNode, i: nat, k: nat, name: seq<u8>)
      returns (pmi: PhandleMap, ei: DeviceTreeNode)
    requires i <= k <= |src.children.entries|
    requires forall j :: i <= j < k ==> src.children.entries[j].1.name != name
    requires MergeChildren(pm, e, src, i).Returns? && MergeChildren(pm, e, src, i).value.1.Ok?
    ensures Extends(pm, pmi) && Child(ei, name) == Child(e, name)
    ensures MergeChildren(pmi, ei, src, k).Returns? && MergeChildren(pmi, ei, src, k).value.1.Ok?
    ensures Child(MergeChildren(pmi, ei, src, k).value.0, name) == Child(MergeChildren(pm, e, src, i).value.0, name)
    decreases k - i
  {
    if i == k {
      pmi, ei := pm, e;
      ExtendsRefl(pm);
    } else {
      var m := MergeChild(pm, e, src.children.entries[i].1);
      MergeChildOthers(pm, e, src.children.entries[i].1, name);
      pmi, ei := MergeChildrenReach(m.value.1.value, m.value.0, src, i + 1, k, name);
      ExtendsTrans(pm, m.value.1.value, pmi);
    }
  }

  /** Where each overlay child ends up after a successful merge: renumbered
      with some map grown from the one the merge started with, then either
      added as a new child, when the existing node had none of its name,
      or merged recursively into the existing child of that name. */
  lemma MergeNodesChild(pm: PhandleMap, existing: DeviceTreeNode, src: DeviceTreeNode, k: nat)
    requires WellFormed(existing) && WellFormed(src) && k < |src.children.entries|
    requires MergeNodes(pm, existing, src).Returns? && MergeNodes(pm, existing, src).value.1.Ok?
    ensures exists pmi :: Extends(pm, pmi) && Placed(pmi, existing, src.children.entries[k].1, MergeNodes(pm, existing, src).value.0)
  {
    var e := MergeProps(pm.pairs, existing, Properties(src));
    var c := src.children.entries[k].1;
    ChildNamesDiffer(src);
    var pmi, ei := MergeChildrenReach(pm, e, src, 0, k, c.name);
    MergeChildrenHere(pmi, ei, src, k);
    assert Placed(pmi, existing, c, MergeNodes(pm, existing, src).value.0);
  }

  // ---------------------------------------------------------------------
  // apply_overlay

  /** The first node of `cs` called `name`. */
  function FirstNamed(cs: seq<DeviceTreeNode>, name: seq<u8>): (r: Option<DeviceTreeNode>)
    ensures r.None? <==> forall j :: 0 <= j < |cs| ==> cs[j].name != name
    ensures r.Some? ==>
      exists j :: 0 <= j < |cs| && cs[j] == r.value && r.value.name == name && forall l :: 0 <= l < j ==> cs[l].name != name
  {
    if |cs| == 0 then None
    else if cs[0].name == name then Some(cs[0])
    else
      var r := FirstNamed(cs[1..], name);
      assert forall j :: 1 <= j < |cs| ==> cs[j] == cs[1..][j - 1];
      r
  }

  /** The checks `apply_overlay` makes on one fragment, in order, each
      failure naming the fragment: a "target-path" property, a UTF-8
      value, a node at that path, and an `__overlay__` child. On success:
      the path, the target node and the first `__overlay__` child. */
  function FragmentParts(t: DeviceTree, frag: DeviceTreeNode): (r: Result<(seq<u8>, DeviceTreeNode, DeviceTreeNode), OverlayError>)
    ensures r.Err? ==> r.error.node == frag.name
    ensures r.Err? && r.error.kind == TargetPathNotFound <==> Property(frag, TARGET_PATH).None?
    ensures r.Err? && r.error.kind == TargetPathInvalid <==>
      Property(frag, TARGET_PATH).Some? && !Utf8.Valid(Property(frag, TARGET_PATH).value.value)
    ensures r.Err? && r.error.kind == TargetNodeNotFound <==>
      && Property(frag, TARGET_PATH).Some? && Utf8.Valid(Property(frag, TARGET_PATH).value.value)
      && FindNode(t, AsStr(Property(frag, TARGET_PATH).value).value).None?
    ensures r.Err? && r.error.kind == SourceNodeNotFound <==>
      && Property(frag, TARGET_PATH).Some? && Utf8.Valid(Property(frag, TARGET_PATH).value.value)
      && FindNode(t, AsStr(Property(frag, TARGET_PATH).value).value).Some?
      && forall c :: c in Children(frag) ==> c.name != OVERLAY_NODE
    ensures r.Err? ==> r.error.kind in {TargetPathNotFound, TargetPathInvalid, TargetNodeNotFound, SourceNodeNotFound}
    ensures r.Ok? ==> var (path, target, src) := r.value;
      && Property(frag, TARGET_PATH).Some? && AsStr(Property(frag, TARGET_PATH).value) == Ok(path)
      && FindNode(t, path) == Some(target)
      && src in Children(frag) && src.name == OVERLAY_NODE
  {
    match Property(frag, TARGET_PATH)
    case None => Err(OverlayError(TargetPathNotFound, frag.name))
    case Some(tp) =>
      match AsStr(tp)
      case Err(_) => Err(OverlayError(TargetPathInvalid, frag.name))
      case Ok(path) =>
        match FindNode(t, path)
        case None => Err(OverlayError(TargetNodeNotFound, frag.name))
        case Some(target) =>
          var kids := Children(frag);
          match FirstNamed(kids, OVERLAY_NODE)
          case None =>
            assert forall c :: c in kids ==> c.name != OVERLAY_NODE;
            Err(OverlayError(SourceNodeNotFound, frag.name))
          case Some(src) => Ok((path, target, src))
  }

  /** The fragment loop of `apply_overlay` from fragment `i` on. A merged
      target is written back even when its merge fails, so an error leaves
      every earlier fragment applied and the failing one partly applied.
      Besides the tree and the outcome it gives the shared map as the last
      fragment merged in full left it. */
  function ApplyFragments(pm: PhandleMap, t: DeviceTree, frags: seq<DeviceTreeNode>, i: nat)
    : (r: Run<(DeviceTree, Result<(), OverlayError>, PhandleMap)>)
    requires i <= |frags|
    ensures r.Returns? ==> r.value.0.reservations == t.reservations
    ensures r.Returns? ==> Extends(pm, r.value.2)
    ensures i < |frags| && FragmentParts(t, frags[i]).Err? ==>
      r == Returns((t, Err(FragmentParts(t, frags[i]).error), pm))
    ensures i < |frags| && FragmentParts(t, frags[i]).Ok? ==>
      var (path, target, src) := FragmentParts(t, frags[i]).value;
      MergeNodes(pm, target, src).Returns? && MergeNodes(pm, target, src).value.1.Err? ==>
        r == Returns((t.(root := ReplaceAt(t.root, Segments(path), MergeNodes(pm, target, src).value.0)),
                      Err(MergeNodes(pm, target, src).value.1.error), pm))
    decreases |frags| - i
  {
    if i == |frags| then
      assert pm.pairs[..|pm.pairs|] == pm.pairs;
      Returns((t, Ok(()), pm))
    else
      match FragmentParts(t, frags[i])
      case Err(e) =>
        assert pm.pairs[..|pm.pairs|] == pm.pairs;
        Returns((t, Err(e), pm))
      case Ok((path, target, src)) =>
        match MergeNodes(pm, target, src)
        case Panics => Panics
        case Hangs => Hangs
        case Returns((merged, res)) =>
          var t1 := t.(root := ReplaceAt(t.root, Segments(path), merged));
          match res
          case Err(e) =>
            assert pm.pairs[..|pm.pairs|] == pm.pairs;
            Returns((t1, Err(e), pm))
          case Ok(pm1) =>
            var rest := ApplyFragments(pm1, t1, frags, i + 1);
            if rest.Returns? then ExtendsTrans(pm, pm1, rest.value.2); rest else rest
  }

  /** A fragment whose merge succeeds is in place before the next fragment
      is looked at: the loop goes on with the extended map and the tree in
      which the merged node is written at the target path, where the path
      now finds it, and every lookup that leaves the target path reads as
      before. */
  lemma ApplyFragmentsWrites(pm: PhandleMap, t: DeviceTree, frags: seq<DeviceTreeNode>, i: nat)
    requires WellFormed(t.root)
    requires i < |frags| && FragmentParts(t, frags[i]).Ok?
    requires MergeNodes(pm, FragmentParts(t, frags[i]).value.1, FragmentParts(t, frags[i]).value.2).Returns?
    requires MergeNodes(pm, FragmentParts(t, frags[i]).value.1, FragmentParts(t, frags[i]).value.2).value.1.Ok?
    ensures var (path, target, src) := FragmentParts(t, frags[i]).value;
      var (merged, res) := MergeNodes(pm, target, src).value;
      var t1 := t.(root := ReplaceAt(t.root, Segments(path), merged));
      && FindNode(t1, path) == Some(merged)
      && ApplyFragments(pm, t, frags, i) == ApplyFragments(res.value, t1, frags, i + 1)
      && forall other :: Diverges(Segments(path), other) ==> Descend(t1.root, other) == Descend(t.root, other)
  {
    var (path, target, src) := FragmentParts(t, frags[i]).value;
    var (merged, res) := MergeNodes(pm, target, src).value;
    var t1 := t.(root := ReplaceAt(t.root, Segments(path), merged));
    FindNodeIsDescend(t, path);
    FindNodeIsDescend(t1, path);
    DescendReplaceAt(t.root, Segments(path), merged);
    assert FindNode(t1, path) == Some(merged);
    forall other | Diverges(Segments(path), other)
      ensures Descend(t1.root, other) == Descend(t.root, other)
    {
      ReplaceAtFrame(t.root, Segments(path), merged, other);
    }
  }

  /** Fragment `frag` is aimed away from the path `other`: when it carries
      a readable target path, that path leaves `other` at some step. */
  predicate OffTarget(frag: DeviceTreeNode, other: seq<seq<u8>>)
  {
    Property(frag, TARGET_PATH).Some? && AsStr(Property(frag, TARGET_PATH).value).Ok? ==>
      Diverges(Segments(AsStr(Property(frag, TARGET_PATH).value).value), other)
  }

  /** Only the nodes on the fragments' target paths change: a lookup
      that leaves the target path of every fragment from `i` on reads the
      same node after the loop, whether it finishes or stops at an error. */
  lemma {:induction false} ApplyFragmentsFrame(pm: PhandleMap, t: DeviceTree, frags: seq<DeviceTreeNode>, i: nat, other: seq<seq<u8>>)
    requires i <= |frags| && WellFormed(t.root)
    requires forall j :: 0 <= j < |frags| ==> WellFormed(frags[j])
    requires forall j :: i <= j < |frags| ==> OffTarget(frags[j], other)
    requires ApplyFragments(pm, t, frags, i).Returns?
    ensures Descend(ApplyFragments(pm, t, frags, i).value.0.root, other) == Descend(t.root, other)
    decreases |frags| - i
  {
    if i < |frags| {
      match FragmentParts(t, frags[i])
      case Err(_) =>
      case Ok((path, target, src)) =>
        ChildrenWellFormed(frags[i]);
        FindNodeIsDescend(t, path);
        DescendWellFormed(t.root, Segments(path));
        var m := MergeNodes(pm, target, src);
        ReplaceAtFrame(t.root, Segments(path), m.value.0, other);
        if m.value.1.Ok? {
          MergeNodesWellFormed(pm, target, src);
          ReplaceAtWellFormed(t.root, Segments(path), m.value.0);
          ApplyFragmentsFrame(m.value.1.value, t.(root := ReplaceAt(t.root, Segments(path), m.value.0)), frags, i + 1, other);
        }
    }
  }

  /** `DeviceTree::apply_overlay`: the map of phandles is built from the
      base tree first, and its failure leaves the tree untouched; then
      the fragments (the children of the overlay's root) are applied in
      order with one shared map. */
  function ApplyOverlay(t: DeviceTree, overlay: DeviceTree): (r: Run<(DeviceTree, Result<(), OverlayError>)>)
    ensures NewMap(t).Returns? && NewMap(t).value.Err? ==> r == Returns((t, Err(NewMap(t).value.error)))
    ensures NewMap(t).Panics? ==> r.Panics?
    ensures r.Returns? ==> r.value.0.reservations == t.reservations
    ensures NewMap(t).Returns? && NewMap(t).value.Ok? && |Children(overlay.root)| == 0 ==> r == Returns((t, Ok(())))
  {
    match NewMap(t)
    case Panics => Panics
    case Hangs => Hangs
    case Returns(Err(e)) => Returns((t, Err(e)))
    case Returns(Ok(pm)) =>
      match ApplyFragments(pm, t, Children(overlay.root), 0)
      case Panics => Panics
      case Hangs => Hangs
      case Returns((t1, res, _)) => Returns((t1, res))
  }

  lemma ChildrenWellFormed(n: DeviceTreeNode)
    requires WellFormed(n)
    ensures forall c :: c in Children(n) ==> WellFormed(c)
  {
    forall c | c in Children(n)
      ensures WellFormed(c)
    {
      var j :| 0 <= j < |Children(n)| && Children(n)[j] == c;
      assert n.children.entries[j] in n.children.entries;
    }
  }

  /** Applying well-formed fragments keeps a well-formed tree
      well-formed, also when a fragment fails part-way. */
  lemma {:induction false} ApplyFragmentsWellFormed(pm: PhandleMap, t: DeviceTree, frags: seq<DeviceTreeNode>, i: nat)
    requires i <= |frags| && WellFormed(t.root)
    requires forall j :: 0 <= j < |frags| ==> WellFormed(frags[j])
    requires ApplyFragments(pm, t, frags, i).Returns?
    ensures WellFormed(ApplyFragments(pm, t, frags, i).value.0.root)
    decreases |frags| - i
  {
    if i < |frags| {
      match FragmentParts(t, frags[i])
      case Err(_) =>
      case Ok((path, target, src)) =>
        ChildrenWellFormed(frags[i]);
        FindNodeIsDescend(t, path);
        DescendWellFormed(t.root, Segments(path));
        var m := MergeNodes(pm, target, src);
        if m.Returns? {
          MergeNodesWellFormed(pm, target, src);
          ReplaceAtWellFormed(t.root, Segments(path), m.value.0);
          if m.value.1.Ok? {
            ApplyFragmentsWellFormed(m.value.1.value, t.(root := ReplaceAt(t.root, Segments(path), m.value.0)), frags, i + 1);
          }
        }
    }
  }

  /** `apply_overlay` keeps a well-formed tree well-formed when the
      overlay is well-formed. */
  lemma ApplyOverlayWellFormed(t: DeviceTree, overlay: DeviceTree)
    requires WellFormed(t.root) && WellFormed(overlay.root)
    requires ApplyOverlay(t, overlay).Returns?
    ensures WellFormed(ApplyOverlay(t, overlay).value.0.root)
  {
    match NewMap(t)
    case Returns(Ok(pm)) =>
      var frags := Children(overlay.root);
      ChildrenWellFormed(overlay.root);
      assert forall j :: 0 <= j < |frags| ==> frags[j] in frags;
      ApplyFragmentsWellFormed(pm, t, frags, 0);
    case _ =>
  }

  /** `apply_overlay` on well-formed trees changes only the nodes on the
      fragments' target paths: a path whose segments leave every
      fragment's target path finds the same node after the overlay. */
  lemma ApplyOverlayFrame(t: DeviceTree, overlay: DeviceTree, path: seq<u8>)
    requires WellFormed(t.root) && WellFormed(overlay.root)
    requires forall frag :: frag in Children(overlay.root) ==> OffTarget(frag, Segments(path))
    requires ApplyOverlay(t, overlay).Returns?
    ensures FindNode(ApplyOverlay(t, overlay).value.0, path) == FindNode(t, path)
  {
    FindNodeIsDescend(t, path);
    FindNodeIsDescend(ApplyOverlay(t, overlay).value.0, path);
    match NewMap(t)
    case Returns(Ok(pm)) =>
      var frags := Children(overlay.root);
      ChildrenWellFormed(overlay.root);
      assert forall j :: 0 <= j < |frags| ==> frags[j] in frags;
      ApplyFragmentsFrame(pm, t, frags, 0, Segments(path));
    case _ =>
  }

  /** Every phandle the overlay is given is above every phandle of the base
      tree, and no two are the same: they count up from one past the
      base tree's largest, through every fragment with one shared map. */
  lemma FreshPhandles(t: DeviceTree, pm: PhandleMap, frags: seq<DeviceTreeNode>)
    requires NewMap(t) == Returns(Ok(pm))
    requires ApplyFragments(pm, t, frags, 0).Returns?
    ensures var pairs := ApplyFragments(pm, t, frags, 0).value.2.pairs;
      && (forall j, i, v: u32 :: 0 <= j < |pairs| && 0 <= i < |Walk(t)| && Walk(t)[i].phandle == Some(Ok(v)) ==> v < pairs[j].1)
      && (forall j, l :: 0 <= j < l < |pairs| ==> pairs[j].1 < pairs[l].1)
  {
  }

}
