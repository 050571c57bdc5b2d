/** `Fdt::find_node`: path lookup from the root of a flattened device tree. */
module FdtFind {
  import opened Bytes
  import opened Wrappers
  import opened FdtDefs
  import opened FdtHeader
  import opened FdtReader
  import opened FdtNodes
  import opened Path

  /** The `children().find(..)` of `find_node` as written: the first child
      item that is Ok and whose name reads as `name`. An Err item fails the
      test and stops the cursor, so the search then ends with None. */
  function FindMatching(fdt: Fdt, it: ChildIter, name: seq<u8>): (r: Run<Option<FdtNode>>)
    ensures r.Returns? && r.value.Some? ==> Name(fdt, r.value.value) == Ok(name)
    decreases ChildMeasure(fdt, it)
  {
    var step :- ChildNext(fdt, it);
    match step.1
    case None => Returns(None)
    case Some(Err(_)) => FindMatching(fdt, step.0, name)
    case Some(Ok(c)) => if Name(fdt, c) == Ok(name) then Returns(Some(c)) else FindMatching(fdt, step.0, name)
  }

  /** The descent loop of `find_node` as written, one segment per level. */
  function DescendAsWritten(fdt: Fdt, node: FdtNode, segs: seq<seq<u8>>): (r: Run<Option<Result<FdtNode, FdtError>>>)
    ensures r.Returns? && r.value.Some? ==> r.value.value.Ok?
    ensures r.Returns? && r.value.Some? && |segs| > 0 ==> Name(fdt, r.value.value.value) == Ok(segs[|segs| - 1])
    decreases |segs|
  {
    if |segs| == 0 then Returns(Some(Ok(node)))
    else
      var m :- FindMatching(fdt, CStart(node.offset), segs[0]);
      match m
      case None => Returns(None)
      case Some(c) =>
        assert |segs| > 1 ==> segs[1..][|segs| - 2] == segs[|segs| - 1];
        DescendAsWritten(fdt, c, segs[1..])
  }

  /** `Fdt::find_node` as written: only a failure to read the root is ever
      reported as an error. */
  function FindNodeAsWritten(fdt: Fdt, path: seq<u8>): (r: Run<Option<Result<FdtNode, FdtError>>>)
    requires fdt.Valid()
    ensures !Absolute(path) ==> r == Returns(None)
    ensures Absolute(path) && Root(fdt).value.Err? ==> r == Returns(Some(Err(Root(fdt).value.error)))
    ensures path == [SLASH] && Root(fdt).value.Ok? ==> r == Returns(Some(Ok(Root(fdt).value.value)))
    ensures r.Returns? && r.value.Some? && r.value.value.Err? ==> Root(fdt).value.Err?
  {
    if !Absolute(path) then Returns(None)
    else
      match Root(fdt)
      case Returns(Err(e)) => Returns(Some(Err(e)))
      case Returns(Ok(root)) =>
        if path == [SLASH] then Returns(Some(Ok(root))) else DescendAsWritten(fdt, root, Segments(path))
      case _ => Panics
  }

  /** The search `find_node` evidently intends, given its arm for an Err
      item: the first item that is an error or a child named `name`. */
  function FindMatchingOrError(fdt: Fdt, it: ChildIter, name: seq<u8>): (r: Run<Option<Result<FdtNode, FdtError>>>)
    ensures r.Returns? && r.value.Some? && r.value.value.Ok? ==> Name(fdt, r.value.value.value) == Ok(name)
    decreases ChildMeasure(fdt, it)
  {
    var step :- ChildNext(fdt, it);
    match step.1
    case None => Returns(None)
    case Some(Err(e)) => Returns(Some(Err(e)))
    case Some(Ok(c)) => if Name(fdt, c) == Ok(name) then Returns(Some(Ok(c))) else FindMatchingOrError(fdt, step.0, name)
  }

  /** With the intended search, "not found" means the children were all
      read and none of them bears the name. */
  lemma {:induction false} NotFoundMeansAbsent(fdt: Fdt, it: ChildIter, name: seq<u8>)
    requires FindMatchingOrError(fdt, it, name) == Returns(None)
    ensures CollectChildren(fdt, it).Returns? && CollectChildren(fdt, it).value.Ok?
    ensures forall c :: c in CollectChildren(fdt, it).value.value ==> Name(fdt, c) != Ok(name)
    decreases ChildMeasure(fdt, it)
  {
    var step := ChildNext(fdt, it).value;
    if step.1.Some? {
      NotFoundMeansAbsent(fdt, step.0, name);
      var rest := CollectChildren(fdt, step.0).value.value;
      assert CollectChildren(fdt, it).value.value == [step.1.value.value] + rest;
    }
  }

  /** The descent with the intended search. */
  function Descend(fdt: Fdt, node: FdtNode, segs: seq<seq<u8>>): (r: Run<Option<Result<FdtNode, FdtError>>>)
    ensures r.Returns? && r.value.Some? && r.value.value.Ok? && |segs| > 0 ==>
      Name(fdt, r.value.value.value) == Ok(segs[|segs| - 1])
    decreases |segs|
  {
    if |segs| == 0 then Returns(Some(Ok(node)))
    else
      var m :- FindMatchingOrError(fdt, CStart(node.offset), segs[0]);
      match m
      case None => Returns(None)
      case Some(Err(e)) => Returns(Some(Err(e)))
      case Some(Ok(c)) => Descend(fdt, c, segs[1..])
  }

  /** `Fdt::find_node` with child-cursor errors reported. */
  function FindNode(fdt: Fdt, path: seq<u8>): (r: Run<Option<Result<FdtNode, FdtError>>>)
    requires fdt.Valid()
    ensures !Absolute(path) ==> r == Returns(None)
    ensures Absolute(path) && Root(fdt).value.Err? ==> r == Returns(Some(Err(Root(fdt).value.error)))
    ensures path == [SLASH] && Root(fdt).value.Ok? ==> r == Returns(Some(Ok(Root(fdt).value.value)))
  {
    if !Absolute(path) then Returns(None)
    else
      match Root(fdt)
      case Returns(Err(e)) => Returns(Some(Err(e)))
      case Returns(Ok(root)) =>
        if path == [SLASH] then Returns(Some(Ok(root))) else Descend(fdt, root, Segments(path))
      case _ => Panics
  }

  /** The first node of `cs` whose name reads as `name`. */
  function FirstNamedNode(fdt: Fdt, cs: seq<FdtNode>, name: seq<u8>): (r: Option<FdtNode>)
    ensures r.Some? ==> exists j :: (0 <= j < |cs| && cs[j] == r.value && Name(fdt, cs[j]) == Ok(name)
      && forall i :: 0 <= i < j ==> Name(fdt, cs[i]) != Ok(name))
    ensures r.None? <==> forall c :: c in cs ==> Name(fdt, c) != Ok(name)
  {
    if |cs| == 0 then None
    else if Name(fdt, cs[0]) == Ok(name) then Some(cs[0])
    else
      var r := FirstNamedNode(fdt, cs[1..], name);
      assert r.Some? ==> forall j :: 0 <= j < |cs| - 1 ==> cs[1..][j] == cs[j + 1];
      r
  }

  /** A search result as `find_node` reports it. */
  function Found(c: Option<FdtNode>): Option<Result<FdtNode, FdtError>>
  {
    match c
    case None => None
    case Some(n) => Some(Ok(n))
  }

  /** When the whole child list of the cursor reads without error, both
      searches return its first child named `name`, or None when no child
      bears that name. */
  lemma {:induction false} SearchFindsFirst(fdt: Fdt, it: ChildIter, name: seq<u8>)
    requires CollectChildren(fdt, it).Returns? && CollectChildren(fdt, it).value.Ok?
    ensures FindMatching(fdt, it, name) == Returns(FirstNamedNode(fdt, CollectChildren(fdt, it).value.value, name))
    ensures FindMatchingOrError(fdt, it, name) == Returns(Found(FirstNamedNode(fdt, CollectChildren(fdt, it).value.value, name)))
    decreases ChildMeasure(fdt, it)
  {
    var step := ChildNext(fdt, it).value;
    if step.1.Some? {
      var c := step.1.value.value;
      var cs := CollectChildren(fdt, it).value.value;
      var rest := CollectChildren(fdt, step.0).value.value;
      assert cs == [c] + rest;
      if Name(fdt, c) != Ok(name) {
        SearchFindsFirst(fdt, step.0, name);
        assert cs[1..] == rest;
      }
    }
  }

  /** Every child list on the way down `segs` from `node` reads without
      error, up to the first segment that names no child. */
  predicate PathReadable(fdt: Fdt, node: FdtNode, segs: seq<seq<u8>>)
    decreases |segs|
  {
    |segs| == 0 ||
    (var kids := CollectChildren(fdt, CStart(node.offset));
     kids.Returns? && kids.value.Ok? &&
     match FirstNamedNode(fdt, kids.value.value, segs[0])
     case None => true
     case Some(c) => PathReadable(fdt, c, segs[1..]))
  }

  /** The lookup `find_node` performs, stated over child lists: for each
      segment in turn, go to the first child bearing exactly that name;
      None at the first segment that names no child. */
  function Follow(fdt: Fdt, node: FdtNode, segs: seq<seq<u8>>): (r: Option<FdtNode>)
    requires PathReadable(fdt, node, segs)
    ensures |segs| == 0 ==> r == Some(node)
    ensures r.Some? && |segs| > 0 ==> Name(fdt, r.value) == Ok(segs[|segs| - 1])
    decreases |segs|
  {
    if |segs| == 0 then Some(node)
    else
      match FirstNamedNode(fdt, CollectChildren(fdt, CStart(node.offset)).value.value, segs[0])
      case None => None
      case Some(c) =>
        assert |segs| > 1 ==> segs[1..][|segs| - 2] == segs[|segs| - 1];
        Follow(fdt, c, segs[1..])
  }

  /** Where every child list on the way reads without error, both descent
      loops reach exactly the node `Follow` names, and answer None exactly
      where some segment names no child. */
  lemma {:induction false} DescendFollows(fdt: Fdt, node: FdtNode, segs: seq<seq<u8>>)
    requires PathReadable(fdt, node, segs)
    ensures DescendAsWritten(fdt, node, segs) == Returns(Found(Follow(fdt, node, segs)))
    ensures Descend(fdt, node, segs) == Returns(Found(Follow(fdt, node, segs)))
    decreases |segs|
  {
    if |segs| > 0 {
      var kids := CollectChildren(fdt, CStart(node.offset)).value.value;
      SearchFindsFirst(fdt, CStart(node.offset), segs[0]);
      match FirstNamedNode(fdt, kids, segs[0])
      case None =>
      case Some(c) => DescendFollows(fdt, c, segs[1..]);
    }
  }

  /** `find_node` on an absolute path other than "/", when the root and
      every child list on the way read without error: both versions return
      the node `Follow` reaches from the root, or None. */
  lemma FindNodeFollows(fdt: Fdt, path: seq<u8>)
    requires fdt.Valid() && Absolute(path) && path != [SLASH]
    requires Root(fdt).value.Ok? && PathReadable(fdt, Root(fdt).value.value, Segments(path))
    ensures FindNodeAsWritten(fdt, path) == Returns(Found(Follow(fdt, Root(fdt).value.value, Segments(path))))
    ensures FindNode(fdt, path) == Returns(Found(Follow(fdt, Root(fdt).value.value, Segments(path))))
  {
    DescendFollows(fdt, Root(fdt).value.value, Segments(path));
  }

  /** Both lookups depend only on the non-empty segments of an absolute
      path: "/" is the empty descent, and repeated or trailing slashes
      change nothing. */
  lemma FindNodeBySegments(fdt: Fdt, p: seq<u8>, q: seq<u8>)
    requires fdt.Valid()
    requires Absolute(p) && Absolute(q) && Segments(p) == Segments(q)
    ensures FindNodeAsWritten(fdt, p) == FindNodeAsWritten(fdt, q)
    ensures FindNode(fdt, p) == FindNode(fdt, q)
  {
    assert Segments([SLASH]) == [];
  }

  /** A blob whose root has no name and then a bad token (7) where its
      first child or END_NODE should be: 40 header bytes, an empty
      reservation map, and a 12-byte structure block at 56. */
  const BAD_CHILD_HEADER: Header := Header(FDT_MAGIC, 68, 56, 68, 40, 17, 16, 0, 0, 12)
  const BAD_CHILD_BLOB: seq<u8> :=
    HeaderBytes(BAD_CHILD_HEADER) + Words(BAD_CHILD_TAIL)

  /** The words after the header: the terminating reservation (two zero
      64-bit words), BEGIN_NODE, the root's empty name padded to a word,
      and the bad token. */
  const BAD_CHILD_TAIL: seq<u32> := [0, 0, 0, 0, FDT_BEGIN_NODE, 0, 7]

  lemma BadChildBlobValid()
    ensures Fdt(BAD_CHILD_BLOB).Valid()
    ensures Root(Fdt(BAD_CHILD_BLOB)) == Returns(Ok(FdtNode(56)))
    ensures BAD_CHILD_BLOB[60] == 0
    ensures Be32At(BAD_CHILD_BLOB, 64) == 7
  {
    BadChildHeader();
    BadChildTags();
  }

  lemma BadChildHeader()
    ensures |BAD_CHILD_BLOB| == 68
    ensures Fdt(BAD_CHILD_BLOB).Valid()
    ensures Fdt(BAD_CHILD_BLOB).Hdr() == BAD_CHILD_HEADER
  {
    ReadHeaderBytes(BAD_CHILD_HEADER, Words(BAD_CHILD_TAIL));
  }

  lemma BadChildTags()
    ensures Be32At(BAD_CHILD_BLOB, 56) == FDT_BEGIN_NODE
    ensures BAD_CHILD_BLOB[60] == 0
    ensures Be32At(BAD_CHILD_BLOB, 64) == 7
  {
    var pre := HeaderBytes(BAD_CHILD_HEADER);
    assert BAD_CHILD_BLOB == pre + Words(BAD_CHILD_TAIL) + [];
    WordsAt(pre, BAD_CHILD_TAIL, [], 4);
    WordsAt(pre, BAD_CHILD_TAIL, [], 5);
    WordsAt(pre, BAD_CHILD_TAIL, [], 6);
    assert Be32At(BAD_CHILD_BLOB, 60) == 0;
  }

  /** A cursor whose first step fails: the search as written finds
      nothing, the intended one reports the error. */
  lemma FirstStepFails(fdt: Fdt, node: nat, name: seq<u8>, e: FdtError)
    requires ChildNext(fdt, CStart(node)) == Returns((CError, Some(Err(e))))
    ensures FindMatching(fdt, CStart(node), name) == Returns(None)
    ensures FindMatchingOrError(fdt, CStart(node), name) == Returns(Some(Err(e)))
  {
    assert FindMatching(fdt, CError, name) == Returns(None);
  }

  /** The child cursor of a node whose name ends at `nameEnd` fails when
      the first tag after the aligned name cannot be read. */
  lemma CursorFailsAt(fdt: Fdt, node: nat, nameEnd: nat, e: FdtError)
    requires FindStringEnd(fdt, node + 4) == Ok(nameEnd)
    requires ReadToken(fdt, Align(nameEnd)) == Returns(Err(e))
    ensures ChildNext(fdt, CStart(node)) == Returns((CError, Some(Err(e))))
  {
    assert ChildTryNext(fdt, Align(nameEnd)) == Returns((Align(nameEnd), Some(Err(e))));
  }

  /** One-segment descent is one search. */
  lemma DescendOne(fdt: Fdt, node: FdtNode, a: seq<u8>)
    ensures DescendAsWritten(fdt, node, [a]) ==
      (match FindMatching(fdt, CStart(node.offset), a)
       case Returns(None) => Returns(None)
       case Returns(Some(c)) => Returns(Some(Ok(c)))
       case Panics => Panics
       case Hangs => Hangs)
    ensures Descend(fdt, node, [a]) ==
      (match FindMatchingOrError(fdt, CStart(node.offset), a)
       case Returns(None) => Returns(None)
       case Returns(Some(Err(e))) => Returns(Some(Err(e)))
       case Returns(Some(Ok(c))) => Returns(Some(Ok(c)))
       case Panics => Panics
       case Hangs => Hangs)
  {
    assert [a][1..] == [];
  }

  lemma SegmentsOfA()
    ensures Segments([SLASH, 0x61]) == [[0x61]]
  {
    var a: seq<u8> := [0x61];
    assert [SLASH, 0x61][1..] == a;
    assert RunLength(a) == 1;
    assert a[..1] == a && a[1..] == [];
    assert Segments(a) == [a] + Segments([]);
  }

  lemma TokenFails(fdt: Fdt, o: nat, w: u32)
    requires o + 4 <= |fdt.data| && Be32At(fdt.data, o) == w && w !in {1, 2, 3, 4, 9}
    ensures ReadToken(fdt, o) == Returns(Err(FdtError(BadToken(w), o)))
  {}

  /** In the blob above, the root's child cursor fails with BadToken(7)
      at 64. */
  lemma BadChildCursor()
    ensures ChildNext(Fdt(BAD_CHILD_BLOB), CStart(56)) == Returns((CError, Some(Err(FdtError(BadToken(7), 64)))))
  {
    BadChildHeader();
    BadChildTags();
    EmptyNameThenBadToken(Fdt(BAD_CHILD_BLOB), 56, 7);
  }

  /** The child cursor of a node at a word boundary whose name is empty
      fails at the first word after the name when that word is no tag. */
  lemma EmptyNameThenBadToken(fdt: Fdt, node: nat, w: u32)
    requires node % 4 == 0 && node + 12 <= |fdt.data|
    requires fdt.data[node + 4] == 0 && Be32At(fdt.data, node + 8) == w && w !in {1, 2, 3, 4, 9}
    ensures ChildNext(fdt, CStart(node)) == Returns((CError, Some(Err(FdtError(BadToken(w), node + 8)))))
  {
    assert FindStringEnd(fdt, node + 4) == Ok(node + 5);
    assert Align(node + 5) == node + 8;
    TokenFails(fdt, node + 8, w);
    CursorFailsAt(fdt, node, node + 5, FdtError(BadToken(w), node + 8));
  }

  /** Looking up "/a" in that blob: the child cursor fails with BadToken(7)
      at 64, yet `find_node` as written answers "no such node", while the
      intended lookup reports the error. */
  lemma FindNodeSwallowsError()
    ensures Fdt(BAD_CHILD_BLOB).Valid()
    ensures FindNodeAsWritten(Fdt(BAD_CHILD_BLOB), [SLASH, 0x61]) == Returns(None)
    ensures FindNode(Fdt(BAD_CHILD_BLOB), [SLASH, 0x61]) == Returns(Some(Err(FdtError(BadToken(7), 64))))
  {
    BadChildBlobValid();
    BadChildCursor();
    SegmentsOfA();
    var fdt := Fdt(BAD_CHILD_BLOB);
    var a: seq<u8> := [0x61];
    FirstStepFails(fdt, 56, a, FdtError(BadToken(7), 64));
    DescendOne(fdt, FdtNode(56), a);
  }
}
