/** Read-only properties of a flattened device tree: typed accessors,
    the string-list reading, the value classification used for display,
    and the property cursor of a node. */
module FdtProperty {
  import opened Bytes
  import opened Wrappers
  import opened FdtDefs
  import opened FdtHeader
  import opened FdtReader
  import CStr
  import Utf8

  /** A property as the reader yields it: its name from the strings block,
      its value bytes, and where in the blob the value starts. */
  datatype Property = Property(name: seq<u8>, value: seq<u8>, valueOffset: nat)

  /** `FdtProperty::as_u32`. */
  function AsU32(p: Property): (r: Result<u32, FdtError>)
    ensures r.Ok? <==> |p.value| == 4
    ensures r.Ok? ==> ToBe32(r.value) == p.value
    ensures r.Err? ==> r.error == FdtError(InvalidLength, p.valueOffset)
  {
    if |p.value| == 4 then
      Be32RoundTrip(p.value, 0);
      Ok(Be32At(p.value, 0))
    else Err(FdtError(InvalidLength, p.valueOffset))
  }

  /** `FdtProperty::as_u64`. */
  function AsU64(p: Property): (r: Result<u64, FdtError>)
    ensures r.Ok? <==> |p.value| == 8
    ensures r.Ok? ==> ToBe64(r.value) == p.value
    ensures r.Err? ==> r.error == FdtError(InvalidLength, p.valueOffset)
  {
    if |p.value| == 8 then
      Be64RoundTrip(p.value, 0);
      Ok(Be64At(p.value, 0))
    else Err(FdtError(InvalidLength, p.valueOffset))
  }

  /** `FdtProperty::as_str`: the value must be one NUL-terminated UTF-8
      string with no interior NUL. */
  function AsStr(p: Property): (r: Result<seq<u8>, FdtError>)
    ensures r.Ok? <==>
      |p.value| > 0 && p.value[|p.value| - 1] == 0
      && NulFree(p.value[..|p.value| - 1]) && Utf8.Valid(p.value[..|p.value| - 1])
    ensures r.Ok? ==> p.value == r.value + [0]
    ensures r.Err? ==> r.error == FdtError(InvalidString, p.valueOffset)
  {
    match CStr.WithNul(p.value)
    case None => Err(FdtError(InvalidString, p.valueOffset))
    case Some(s) =>
      assert s == p.value[..|p.value| - 1];
      if Utf8.Valid(s) then Ok(s) else Err(FdtError(InvalidString, p.valueOffset))
  }

  predicate NulFree(s: seq<u8>)
  {
    forall j :: 0 <= j < |s| ==> s[j] != 0
  }

  /** The strings `FdtProperty::as_str_list` yields: each NUL-terminated
      UTF-8 piece in order, stopping at the end of the value, or silently
      at a piece with no terminator or with invalid UTF-8. */
  function StrList(v: seq<u8>): (r: seq<seq<u8>>)
    ensures forall i :: 0 <= i < |r| ==> NulFree(r[i]) && Utf8.Valid(r[i])
    decreases |v|
  {
    if |v| == 0 then []
    else match CStr.UntilNul(v)
      case None => []
      case Some(s) => if Utf8.Valid(s) then [s] + StrList(v[|s| + 1..]) else []
  }

  /** Each string followed by its terminator. */
  function JoinNul(ss: seq<seq<u8>>): seq<u8>
  {
    if |ss| == 0 then [] else ss[0] + [0] + JoinNul(ss[1..])
  }

  /** Writing strings NUL-terminated and reading them back as a string list
      gives the same strings. */
  lemma {:induction false} StrListOfJoin(ss: seq<seq<u8>>)
    requires forall i :: 0 <= i < |ss| ==> NulFree(ss[i]) && Utf8.Valid(ss[i])
    ensures StrList(JoinNul(ss)) == ss
    decreases |ss|
  {
    if |ss| > 0 {
      var v := JoinNul(ss);
      CStr.UntilNulOfTerminated(ss[0], JoinNul(ss[1..]));
      assert v[|ss[0]| + 1..] == JoinNul(ss[1..]);
      StrListOfJoin(ss[1..]);
      assert ss == [ss[0]] + ss[1..];
    }
  }

  /** The strings read are always a prefix of the value, terminators
      included. */
  lemma {:induction false} StrListPrefix(v: seq<u8>)
    ensures var j := JoinNul(StrList(v)); |j| <= |v| && j == v[..|j|]
    decreases |v|
  {
    if |v| > 0 && CStr.UntilNul(v).Some? && Utf8.Valid(CStr.UntilNul(v).value) {
      var s := CStr.UntilNul(v).value;
      var tail := v[|s| + 1..];
      SplitAtNul(v, s);
      var rt := StrList(tail);
      assert StrList(v) == [s] + rt;
      JoinNulCons(s, rt);
      StrListPrefix(tail);
      PrefixOfCons(s, tail, JoinNul(rt));
    } else {
      assert StrList(v) == [];
    }
  }

  lemma SplitAtNul(v: seq<u8>, s: seq<u8>)
    requires CStr.UntilNul(v) == Some(s)
    ensures |s| < |v| && v == s + [0] + v[|s| + 1..]
  {
    assert v == v[..|s|] + [v[|s|]] + v[|s| + 1..];
  }

  lemma PrefixOfCons(s: seq<u8>, t: seq<u8>, j: seq<u8>)
    requires |j| <= |t| && j == t[..|j|]
    ensures (s + [0] + t)[..|s| + 1 + |j|] == s + [0] + j
  {}

  lemma JoinNulCons(s: seq<u8>, ss: seq<seq<u8>>)
    ensures JoinNul([s] + ss) == s + [0] + JoinNul(ss)
  {
    assert ([s] + ss)[1..] == ss;
  }

  /** How the display code renders a value. */
  datatype ValueForm = Bare | StringList(strs: seq<seq<u8>>) | Cells(cells: seq<u32>) | Raw(bytes: seq<u8>)

  /** `u8::is_ascii_graphic`, space, or NUL. */
  predicate Printable(b: u8)
  {
    (0x21 <= b <= 0x7E) || b == 0x20 || b == 0
  }

  /** Two NULs in a row somewhere in `v`. */
  predicate HasEmpty(v: seq<u8>)
  {
    exists i :: 0 <= i < |v| - 1 && v[i] == 0 && v[i + 1] == 0
  }

  /** The condition under which a value is shown as a list of strings. */
  predicate LooksLikeStrings(v: seq<u8>)
  {
    && (forall i :: 0 <= i < |v| ==> Printable(v[i]))
    && |v| > 0 && v[|v| - 1] == 0
    && !HasEmpty(v)
  }

  /** The big-endian cells of a value whose length is a multiple of 4. */
  function CellsOf(v: seq<u8>): (r: seq<u32>)
    requires |v| % 4 == 0
    ensures |r| == |v| / 4
    ensures forall i :: 0 <= i < |r| ==> ToBe32(r[i]) == v[4 * i..4 * i + 4]
    decreases |v|
  {
    if |v| == 0 then []
    else
      var rest := CellsOf(v[4..]);
      Be32RoundTrip(v, 0);
      assert forall i :: 1 <= i <= |rest| ==> v[4 * i..4 * i + 4] == v[4..][4 * (i - 1)..4 * (i - 1) + 4];
      [Be32At(v, 0)] + rest
  }

  /** The classification made by the property display code: empty, a
      string list (when the string-list reader yields a first string),
      cells, or raw bytes. */
  function Classify(v: seq<u8>): (r: ValueForm)
    ensures r.Bare? <==> |v| == 0
    ensures r.Cells? ==> |v| % 4 == 0 && |r.cells| == |v| / 4
    ensures r.Cells? ==> forall i :: 0 <= i < |r.cells| ==> ToBe32(r.cells[i]) == v[4 * i..4 * i + 4]
    ensures r.Raw? ==> r.bytes == v && |v| % 4 != 0
  {
    if |v| == 0 then Bare
    else if LooksLikeStrings(v) && |StrList(v)| > 0 then StringList(StrList(v))
    else if |v| % 4 == 0 then Cells(CellsOf(v))
    else Raw(v)
  }

  /** A printable value ends its first string at a NUL it is sure to have,
      and printable bytes are ASCII, so the string-list branch is taken
      exactly when the value looks like strings; the strings then spell out
      the whole value. */
  lemma ClassifyStrings(v: seq<u8>)
    ensures Classify(v).StringList? <==> LooksLikeStrings(v)
    ensures Classify(v).StringList? ==> JoinNul(Classify(v).strs) == v
  {
    if LooksLikeStrings(v) {
      PrintableStrList(v);
    }
  }

  /** A printable value ending in NUL with no empty string reads back in
      full as a non-empty string list. */
  lemma {:induction false} PrintableStrList(v: seq<u8>)
    requires |v| > 0 && v[|v| - 1] == 0
    requires forall i :: 0 <= i < |v| ==> Printable(v[i])
    ensures |StrList(v)| > 0 && JoinNul(StrList(v)) == v
    decreases |v|
  {
    var s := PrintableHead(v);
    var rest := v[|s| + 1..];
    JoinNulCons(s, StrList(rest));
    if |rest| > 0 {
      PrintableStrList(rest);
    } else {
      assert JoinNul(StrList(rest)) == rest;
    }
  }

  /** The first string of a printable value ending in NUL: valid UTF-8,
      and what follows its terminator is again printable and, unless
      empty, ends in NUL. */
  lemma PrintableHead(v: seq<u8>) returns (s: seq<u8>)
    requires |v| > 0 && v[|v| - 1] == 0
    requires forall i :: 0 <= i < |v| ==> Printable(v[i])
    ensures CStr.UntilNul(v) == Some(s) && Utf8.Valid(s) && v == s + [0] + v[|s| + 1..]
    ensures forall i :: |s| + 1 <= i < |v| ==> Printable(v[i])
  {
    assert v[|v| - 1] == 0;
    s := CStr.UntilNul(v).value;
    SplitAtNul(v, s);
    assert forall i :: 0 <= i < |s| ==> s[i] == v[i] && s[i] < 0x80;
    Utf8.Ascii(s);
  }

  /** The property cursor of a node: before the node name is skipped, at a
      tag offset, or stopped after an error. */
  datatype PropIter = PStart(node: nat) | PRunning(offset: nat) | PError

  /** A property record laid out at tag offset `o`: PROP, the value length,
      the name offset, then the value starting at `p.valueOffset`. */
  predicate PropAt(fdt: Fdt, o: nat, p: Property)
    requires fdt.Valid()
  {
    && p.valueOffset == o + 12
    && p.valueOffset + |p.value| <= |fdt.data|
    && Be32At(fdt.data, o) == FDT_PROP
    && Be32At(fdt.data, o + 4) == |p.value|
    && IsStringAt(fdt, Be32At(fdt.data, o + 8), p.name)
    && Utf8.Valid(p.name)
    && p.value == fdt.data[p.valueOffset..p.valueOffset + |p.value|]
  }

  /** The tag offset after the value of `p`, padded to four bytes. */
  function ValueEnd(p: Property): nat
  {
    Align(p.valueOffset + |p.value|)
  }

  /** `p` is the record whose PROP tag sits 12 bytes before its value. */
  predicate PropRecord(fdt: Fdt, p: Property)
    requires fdt.Valid()
  {
    p.valueOffset >= 12 && PropAt(fdt, p.valueOffset - 12, p)
  }

  /** The word at `o` is a token that ends a property run. */
  predicate StopsProps(fdt: Fdt, o: nat)
  {
    o + 4 <= |fdt.data| && TokenFromWord(Be32At(fdt.data, o)) in {Ok(BeginNode), Ok(EndNode), Ok(End)}
  }

  /** A PROP record at `o` whose name reads but whose value runs past the
      end of the buffer: the cursor stops there without an error. */
  predicate ValueOverruns(fdt: Fdt, o: nat)
    requires fdt.Valid()
  {
    && o + 12 <= |fdt.data| && Be32At(fdt.data, o) == FDT_PROP
    && String(fdt, Be32At(fdt.data, o + 8)).Ok?
    && o + 12 + Be32At(fdt.data, o + 4) > |fdt.data|
  }

  /** The tag at `o` ends a run of properties without an error. */
  predicate RunEnds(fdt: Fdt, o: nat)
    requires fdt.Valid()
  {
    StopsProps(fdt, o) || ValueOverruns(fdt, o)
  }

  /** The PROP branch of `FdtPropIter::try_next`, for a PROP tag at `o`:
      the cursor moves past the aligned value before the name is looked
      up, so a bad name offset leaves it there. */
  function ReadProp(fdt: Fdt, o: nat): (r: (nat, Option<Result<Property, FdtError>>))
    requires fdt.Valid()
    requires o + 4 <= |fdt.data| && Be32At(fdt.data, o) == FDT_PROP
    ensures r.1.Some? && r.1.value.Ok? ==>
      r.1.value.value.valueOffset == o + 12 && PropAt(fdt, o, r.1.value.value)
      && r.0 == ValueEnd(r.1.value.value)
    ensures r.1.None? ==> r.0 > |fdt.data| && ValueOverruns(fdt, o)
    ensures (r.1.Some? && r.1.value.Err? && r.1.value.error.kind == InvalidLength) <==>
      (o + 12 > |fdt.data| || NameOffsetPastBlock(fdt, o))
  {
    if o + 8 > |fdt.data| then (o, Some(Err(FdtError(InvalidLength, o))))
    else if o + 12 > |fdt.data| then (o, Some(Err(FdtError(InvalidLength, o))))
    else ReadWholeProp(fdt, o)
  }

  /** `ReadProp` once the record's three words are inside the blob. */
  function ReadWholeProp(fdt: Fdt, o: nat): (r: (nat, Option<Result<Property, FdtError>>))
    requires fdt.Valid()
    requires o + 12 <= |fdt.data| && Be32At(fdt.data, o) == FDT_PROP
    ensures r.1.Some? && r.1.value.Ok? ==>
      r.1.value.value.valueOffset == o + 12 && PropAt(fdt, o, r.1.value.value)
      && r.0 == ValueEnd(r.1.value.value)
    ensures r.1.None? ==> r.0 > |fdt.data| && ValueOverruns(fdt, o)
    ensures (r.1.Some? && r.1.value.Err? && r.1.value.error.kind == InvalidLength) <==> NameOffsetPastBlock(fdt, o)
  {
    var next := Align(o + 12 + Be32At(fdt.data, o + 4));
    match String(fdt, Be32At(fdt.data, o + 8))
    case Err(e) => (next, Some(Err(e)))
    case Ok(name) => ReadNamedProp(fdt, o, name)
  }

  /** `ReadWholeProp` once the name has been found. */
  function ReadNamedProp(fdt: Fdt, o: nat, name: seq<u8>): (r: (nat, Option<Result<Property, FdtError>>))
    requires fdt.Valid()
    requires o + 12 <= |fdt.data| && Be32At(fdt.data, o) == FDT_PROP
    requires String(fdt, Be32At(fdt.data, o + 8)) == Ok(name)
    ensures r.1.Some? ==> r.1.value.Ok?
    ensures r.1.Some? ==>
      r.1.value.value.valueOffset == o + 12 && PropAt(fdt, o, r.1.value.value)
      && r.0 == ValueEnd(r.1.value.value)
    ensures r.1.None? ==> r.0 > |fdt.data| && ValueOverruns(fdt, o)
  {
    var len := Be32At(fdt.data, o + 4);
    if o + 12 + len > |fdt.data| then (Align(o + 12 + len), None)
    else
      var p := PropValue(fdt, o, name);
      (ValueEnd(p), Some(Ok(p)))
  }

  /** A property read at `o` is the record whose tag sits at `o`. */
  lemma ReadPropRecord(fdt: Fdt, o: nat)
    requires fdt.Valid()
    requires o + 4 <= |fdt.data| && Be32At(fdt.data, o) == FDT_PROP
    ensures ReadProp(fdt, o).1.Some? && ReadProp(fdt, o).1.value.Ok? ==> PropRecord(fdt, ReadProp(fdt, o).1.value.value)
  {
    if ReadProp(fdt, o).1.Some? && ReadProp(fdt, o).1.value.Ok? {
      var p := ReadProp(fdt, o).1.value.value;
      assert p.valueOffset - 12 == o;
    }
  }

  /** The property of the PROP record at `o` whose name has been found:
      its value is the `len` bytes after the record's three words. */
  function PropValue(fdt: Fdt, o: nat, name: seq<u8>): (p: Property)
    requires fdt.Valid()
    requires o + 12 <= |fdt.data| && Be32At(fdt.data, o) == FDT_PROP
    requires o + 12 + Be32At(fdt.data, o + 4) <= |fdt.data|
    requires IsStringAt(fdt, Be32At(fdt.data, o + 8), name) && Utf8.Valid(name)
    ensures PropAt(fdt, o, p) && p.name == name
    ensures ValueEnd(p) == Align(o + 12 + Be32At(fdt.data, o + 4))
  {
    Property(name, fdt.data[o + 12..o + 12 + Be32At(fdt.data, o + 4)], o + 12)
  }

  /** The name offset of the PROP record at `o` lies past the strings
      block. */
  predicate NameOffsetPastBlock(fdt: Fdt, o: nat)
    requires fdt.Valid()
  {
    o + 12 <= |fdt.data| && Be32At(fdt.data, o + 8) >= fdt.Hdr().size_dt_strings
  }

  /** `FdtPropIter::try_next` from tag offset `o`: the new cursor and the
      item. NOP tokens are skipped; a token that is neither PROP nor NOP
      gives None without being consumed; a value reaching past the buffer
      gives None after the cursor has moved past it. */
  function PropTryNext(fdt: Fdt, o: nat): (r: Run<(nat, Option<Result<Property, FdtError>>)>)
    requires fdt.Valid()
    ensures !r.Hangs?
    ensures r.Panics? ==> o > |fdt.data|
    ensures r.Returns? && r.value.1.Some? && r.value.1.value.Ok? ==>
      var p := r.value.1.value.value;
      && o + 12 <= p.valueOffset
      && PropRecord(fdt, p)
      && r.value.0 == ValueEnd(p)
    ensures r.Returns? && r.value.1.None? ==>
      StopsProps(fdt, r.value.0) || (r.value.0 > o && r.value.0 > |fdt.data|)
    ensures r.Returns? && r.value.1.Some? && r.value.1.value.Ok? ==>
      r.value.1.value.value.valueOffset == SkipNops(fdt.data, o) + 12
    ensures r.Returns? && r.value.1.None? ==>
      && RunEnds(fdt, SkipNops(fdt.data, o))
      && (r.value.0 <= |fdt.data| ==> r.value.0 == SkipNops(fdt.data, o))
    decreases Rem(fdt, o)
  {
    var t :- ReadToken(fdt, o);
    match t
    case Err(e) => Returns((o, Some(Err(e))))
    case Ok(Prop) =>
      ReadPropRecord(fdt, o);
      Returns(ReadProp(fdt, o))
    case Ok(Nop) => PropTryNext(fdt, o + FDT_TAGSIZE)
    case Ok(_) => Returns((o, None))
  }

  /** `FdtPropIter::next`. */
  function PropNext(fdt: Fdt, it: PropIter): (r: Run<(PropIter, Option<Result<Property, FdtError>>)>)
    requires fdt.Valid()
    ensures !r.Hangs?
    ensures it.PError? ==> r == Returns((PError, None))
    ensures r.Returns? && r.value.1.Some? && r.value.1.value.Err? ==> r.value.0 == PError
    ensures r.Returns? && r.value.1.Some? && r.value.1.value.Ok? ==>
      r.value.0.PRunning? && r.value.0.offset <= |fdt.data| + 3
      && (it.PRunning? ==> it.offset < r.value.0.offset)
  {
    match it
    case PError => Returns((PError, None))
    case PStart(node) =>
      (match FindStringEnd(fdt, node + FDT_TAGSIZE)
       case Err(e) => Returns((PError, Some(Err(e))))
       case Ok(e) => RunningNext(fdt, Align(e)))
    case PRunning(o) => RunningNext(fdt, o)
  }

  function RunningNext(fdt: Fdt, o: nat): (r: Run<(PropIter, Option<Result<Property, FdtError>>)>)
    requires fdt.Valid()
    ensures !r.Hangs?
    ensures r.Returns? && r.value.1.Some? && r.value.1.value.Err? ==> r.value.0 == PError
    ensures r.Returns? && r.value.1.Some? && r.value.1.value.Ok? ==>
      r.value.0.PRunning? && o < r.value.0.offset <= |fdt.data| + 3
  {
    var step :- PropTryNext(fdt, o);
    match step.1
    case Some(Err(e)) => Returns((PError, Some(Err(e))))
    case _ => Returns((PRunning(step.0), step.1))
  }

  /** Decreases with every property yielded. */
  function PropMeasure(fdt: Fdt, it: PropIter): nat
  {
    match it
    case PStart(_) => |fdt.data| + 5
    case PRunning(o) => if o <= |fdt.data| + 3 then |fdt.data| + 4 - o else 0
    case PError => 0
  }

  /** `ps` are the PROP records met from tag offset `o` on, in order, each
      after NOP tokens only, and after the last one only NOPs lie before a
      tag that ends the run. */
  predicate PropChain(fdt: Fdt, o: nat, ps: seq<Property>)
    requires fdt.Valid()
    decreases |ps|
  {
    var q := SkipNops(fdt.data, o);
    if |ps| == 0 then RunEnds(fdt, q)
    else ps[0].valueOffset == q + 12 && PropRecord(fdt, ps[0]) && PropChain(fdt, ValueEnd(ps[0]), ps[1..])
  }

  /** The records from `o` are fixed by the blob: two chains from the same
      offset are the same list. */
  lemma {:induction false} PropChainUnique(fdt: Fdt, o: nat, ps: seq<Property>, qs: seq<Property>)
    requires fdt.Valid()
    requires PropChain(fdt, o, ps) && PropChain(fdt, o, qs)
    ensures ps == qs
    decreases |ps|
  {
    var q := SkipNops(fdt.data, o);
    if |ps| > 0 && |qs| > 0 {
      SameRecord(fdt, ps[0], qs[0]);
      PropChainUnique(fdt, ValueEnd(ps[0]), ps[1..], qs[1..]);
      assert ps == [ps[0]] + ps[1..] && qs == [qs[0]] + qs[1..];
    } else if |ps| > 0 {
      NoRecordAtEnd(fdt, q, ps[0]);
    } else if |qs| > 0 {
      NoRecordAtEnd(fdt, q, qs[0]);
    }
  }

  /** Two records with the same value offset are the same property. */
  lemma SameRecord(fdt: Fdt, p: Property, p': Property)
    requires fdt.Valid() && PropRecord(fdt, p) && PropRecord(fdt, p') && p.valueOffset == p'.valueOffset
    ensures p == p'
  {
    var o := p.valueOffset - 12;
    StringUnique(fdt, Be32At(fdt.data, o + 8), p.name);
    StringUnique(fdt, Be32At(fdt.data, o + 8), p'.name);
  }

  /** No property record starts at a tag that ends the run. */
  lemma NoRecordAtEnd(fdt: Fdt, q: nat, p: Property)
    requires fdt.Valid() && RunEnds(fdt, q) && p.valueOffset == q + 12
    ensures !PropRecord(fdt, p)
  {
  }

  /** Collecting the cursor into `Result<Vec<_>, _>`: every property up to
      the end of the run, or the first error. A collected list is the
      chain of PROP records from the cursor, or, for a fresh cursor, from
      the aligned end of the node name. */
  function CollectProps(fdt: Fdt, it: PropIter): (r: Run<Result<seq<Property>, FdtError>>)
    requires fdt.Valid()
    ensures !r.Hangs?
    ensures it.PRunning? && r.Returns? && r.value.Ok? ==> PropChain(fdt, it.offset, r.value.value)
    ensures it.PStart? && r.Returns? && r.value.Ok? ==>
      && FindStringEnd(fdt, it.node + FDT_TAGSIZE).Ok?
      && PropChain(fdt, Align(FindStringEnd(fdt, it.node + FDT_TAGSIZE).value), r.value.value)
    decreases PropMeasure(fdt, it)
  {
    var step :- PropNext(fdt, it);
    match step.1
    case None => Returns(Ok([]))
    case Some(Err(e)) => Returns(Err(e))
    case Some(Ok(p)) =>
      var rest :- CollectProps(fdt, step.0);
      match rest
      case Err(e) => Returns(Err(e))
      case Ok(ps) => Returns(Ok([p] + ps))
  }

  /** `FdtNode::property`: walk the cursor until a property with that exact
      name, the end (Ok(None)) or the first error. */
  function FindProp(fdt: Fdt, it: PropIter, name: seq<u8>): (r: Run<Result<Option<Property>, FdtError>>)
    requires fdt.Valid()
    ensures !r.Hangs?
    ensures r.Returns? && r.value.Ok? && r.value.value.Some? ==> r.value.value.value.name == name
    decreases PropMeasure(fdt, it)
  {
    var step :- PropNext(fdt, it);
    match step.1
    case None => Returns(Ok(None))
    case Some(Err(e)) => Returns(Err(e))
    case Some(Ok(p)) => if p.name == name then Returns(Ok(Some(p))) else FindProp(fdt, step.0, name)
  }

  /** The first property in `ps` with the given name. */
  function FirstNamed(ps: seq<Property>, name: seq<u8>): Option<Property>
  {
    if |ps| == 0 then None else if ps[0].name == name then Some(ps[0]) else FirstNamed(ps[1..], name)
  }

  /** From cursor `it` the properties `ps` are yielded in turn, leaving
      the cursor at `last`. */
  predicate YieldsProps(fdt: Fdt, it: PropIter, ps: seq<Property>, last: PropIter)
    requires fdt.Valid()
    decreases |ps|
  {
    if |ps| == 0 then it == last
    else
      && PropNext(fdt, it).Returns? && PropNext(fdt, it).value.1 == Some(Ok(ps[0]))
      && YieldsProps(fdt, PropNext(fdt, it).value.0, ps[1..], last)
  }

  /** Collecting stops at the first error: a collected list is everything
      the cursor yields before it ends, and a failure is the error the
      cursor meets right after the properties it read first. */
  lemma {:induction false} CollectPropsSplit(fdt: Fdt, it: PropIter) returns (ps: seq<Property>, last: PropIter)
    requires fdt.Valid() && CollectProps(fdt, it).Returns?
    ensures YieldsProps(fdt, it, ps, last) && PropNext(fdt, last).Returns?
    ensures CollectProps(fdt, it).value.Ok? ==>
      ps == CollectProps(fdt, it).value.value && PropNext(fdt, last).value.1.None?
    ensures CollectProps(fdt, it).value.Err? ==>
      PropNext(fdt, last).value.1 == Some(Err(CollectProps(fdt, it).value.error))
    decreases PropMeasure(fdt, it)
  {
    var step := PropNext(fdt, it).value;
    match step.1
    case None =>
      ps, last := [], it;
    case Some(Err(_)) =>
      ps, last := [], it;
    case Some(Ok(p)) =>
      var rest, l := CollectPropsSplit(fdt, step.0);
      ps, last := [p] + rest, l;
      assert ps[1..] == rest;
  }

  /** The converse of the split: a cursor that fails right after the
      properties it yields makes collecting fail with that error. */
  lemma {:induction false} CollectPropsFails(fdt: Fdt, it: PropIter, ps: seq<Property>, last: PropIter, e: FdtError)
    requires fdt.Valid() && YieldsProps(fdt, it, ps, last)
    requires PropNext(fdt, last).Returns? && PropNext(fdt, last).value.1 == Some(Err(e))
    ensures CollectProps(fdt, it) == Returns(Err(e))
    decreases |ps|
  {
    if |ps| > 0 {
      CollectPropsFails(fdt, PropNext(fdt, it).value.0, ps[1..], last, e);
    }
  }

  /** A cursor that ends right after the properties it yields makes
      collecting return exactly those properties. */
  lemma {:induction false} CollectPropsEnds(fdt: Fdt, it: PropIter, ps: seq<Property>, last: PropIter)
    requires fdt.Valid() && YieldsProps(fdt, it, ps, last)
    requires PropNext(fdt, last).Returns? && PropNext(fdt, last).value.1.None?
    ensures CollectProps(fdt, it) == Returns(Ok(ps))
    decreases |ps|
  {
    if |ps| > 0 {
      var next := PropNext(fdt, it).value.0;
      CollectPropsEnds(fdt, next, ps[1..], last);
      PropsCons(fdt, it, next, ps);
    }
  }

  lemma PropsCons(fdt: Fdt, it: PropIter, next: PropIter, ps: seq<Property>)
    requires fdt.Valid() && |ps| > 0
    requires PropNext(fdt, it) == Returns((next, Some(Ok(ps[0]))))
    requires CollectProps(fdt, next) == Returns(Ok(ps[1..]))
    ensures CollectProps(fdt, it) == Returns(Ok(ps))
  {
    assert ps == [ps[0]] + ps[1..];
  }

  /** Lookup walks the yielded properties in order: the first one with the
      name is the answer, and when none has it the lookup goes on from
      where they leave the cursor. */
  lemma {:induction false} FindPropYields(fdt: Fdt, it: PropIter, name: seq<u8>, ps: seq<Property>, last: PropIter)
    requires fdt.Valid() && YieldsProps(fdt, it, ps, last)
    ensures FirstNamed(ps, name).Some? ==> FindProp(fdt, it, name) == Returns(Ok(FirstNamed(ps, name)))
    ensures FirstNamed(ps, name).None? ==> FindProp(fdt, it, name) == FindProp(fdt, last, name)
    decreases |ps|
  {
    if |ps| > 0 && ps[0].name != name {
      FindPropYields(fdt, PropNext(fdt, it).value.0, name, ps[1..], last);
    }
  }

  /** Looking a name up returns the first property of that name the cursor
      yields. With none, it returns Ok(None) when the list reads to its
      end, and otherwise the first error the cursor meets. */
  lemma FindPropFirst(fdt: Fdt, it: PropIter, name: seq<u8>) returns (ps: seq<Property>, last: PropIter)
    requires fdt.Valid() && CollectProps(fdt, it).Returns?
    ensures YieldsProps(fdt, it, ps, last)
    ensures CollectProps(fdt, it).value.Ok? ==> ps == CollectProps(fdt, it).value.value
    ensures CollectProps(fdt, it).value.Err? ==>
      PropNext(fdt, last) == Returns((PError, Some(Err(CollectProps(fdt, it).value.error))))
    ensures FirstNamed(ps, name).Some? ==> FindProp(fdt, it, name) == Returns(Ok(FirstNamed(ps, name)))
    ensures FirstNamed(ps, name).None? && CollectProps(fdt, it).value.Ok? ==>
      FindProp(fdt, it, name) == Returns(Ok(None))
    ensures FirstNamed(ps, name).None? && CollectProps(fdt, it).value.Err? ==>
      FindProp(fdt, it, name) == Returns(Err(CollectProps(fdt, it).value.error))
  {
    ps, last := CollectPropsSplit(fdt, it);
    FindPropYields(fdt, it, name, ps, last);
  }

  /** Once the cursor has failed it stays failed: every later call yields
      None. */
  lemma ErrorPoisons(fdt: Fdt, it: PropIter)
    requires fdt.Valid()
    requires PropNext(fdt, it).Returns? && PropNext(fdt, it).value.1.Some? && PropNext(fdt, it).value.1.value.Err?
    ensures PropNext(fdt, PropNext(fdt, it).value.0) == Returns((PError, None))
  {}
}
