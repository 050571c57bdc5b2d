/** Low-level reads over an accepted blob: tokens, NUL-terminated strings,
    the strings block, the skip-ahead helpers used by the node and property
    cursors, the memory reservation block and the root node
    (Devicetree Specification v0.4, sections 5.3 to 5.6). */
module FdtReader {
  import opened Bytes
  import opened Wrappers
  import opened FdtDefs
  import opened FdtHeader
  import CStr
  import Utf8

  /** Termination measure for cursors: the bytes left, or 0 past the end. */
  function Rem(fdt: Fdt, o: nat): nat
  {
    if o <= |fdt.data| then |fdt.data| - o + 1 else 0
  }

  /** `Fdt::read_token`: slicing at an offset past the end panics; fewer
      than four bytes left is InvalidLength; an unknown word is BadToken. */
  function ReadToken(fdt: Fdt, o: nat): (r: Run<Result<Token, FdtError>>)
    ensures r.Panics? <==> o > |fdt.data|
    ensures !r.Hangs?
    ensures r.Returns? && r.value.Ok? ==>
      o + 4 <= |fdt.data| && TokenWord(r.value.value) == Be32At(fdt.data, o)
    ensures r.Returns? && r.value.Err? ==> r.value.error.offset == o
    ensures r.Returns? && r.value.Err? && r.value.error.kind == InvalidLength <==>
      o <= |fdt.data| < o + 4
    ensures r.Returns? && r.value.Err? && r.value.error.kind != InvalidLength ==>
      o + 4 <= |fdt.data| && r.value.error.kind == BadToken(Be32At(fdt.data, o))
      && Be32At(fdt.data, o) !in {1, 2, 3, 4, 9}
  {
    if o > |fdt.data| then Panics
    else if o + 4 > |fdt.data| then Returns(Err(FdtError(InvalidLength, o)))
    else
      match TokenFromWord(Be32At(fdt.data, o))
      case Ok(t) => Returns(Ok(t))
      case Err(w) => Returns(Err(FdtError(BadToken(w), o)))
  }

  /** `Fdt::find_string_end`: one past the first NUL at or after `start`. */
  function FindStringEnd(fdt: Fdt, start: nat): (r: Result<nat, FdtError>)
    ensures r.Ok? ==> start < r.value <= |fdt.data| && fdt.data[r.value - 1] == 0
    ensures r.Ok? ==> forall j :: start <= j < r.value - 1 ==> fdt.data[j] != 0
    ensures r.Err? <==> forall j :: start <= j < |fdt.data| ==> fdt.data[j] != 0
    ensures r.Err? ==> r.error == FdtError(InvalidString, start)
    decreases |fdt.data| - start
  {
    if start >= |fdt.data| then Err(FdtError(InvalidString, start))
    else if fdt.data[start] == 0 then Ok(start + 1)
    else match FindStringEnd(fdt, start + 1)
      case Ok(e) => Ok(e)
      case Err(_) => Err(FdtError(InvalidString, start))
  }

  /** `Fdt::string_at_offset`: the NUL-terminated UTF-8 string at `offset`,
      searched for within `data[offset..end]` (or to the end of the
      buffer). */
  function StringAtOffset(fdt: Fdt, offset: nat, end: Option<nat>): (r: Result<seq<u8>, FdtError>)
    ensures r.Ok? ==> Utf8.Valid(r.value)
    ensures r.Ok? ==> offset + |r.value| < (if end.Some? then end.value else |fdt.data|) <= |fdt.data|
    ensures r.Ok? ==> StoredAt(fdt.data, offset, r.value)
    ensures r.Ok? ==> forall j :: 0 <= j < |r.value| ==> r.value[j] != 0
    ensures r.Err? ==> r.error.offset == offset
    ensures r.Err? && r.error.kind == InvalidOffset <==>
      (if end.Some? then !(offset <= end.value <= |fdt.data|) else offset > |fdt.data|)
    ensures r.Err? ==> r.error.kind in {InvalidOffset, InvalidString}
  {
    var limit := if end.Some? then end.value else |fdt.data|;
    if !(offset <= limit <= |fdt.data|) then Err(FdtError(InvalidOffset, offset))
    else
      CStrIn(fdt.data[offset..limit], offset)
  }

  /** `s` followed by a NUL lies in `data` at `o`. */
  predicate StoredAt(data: seq<u8>, o: nat, s: seq<u8>)
  {
    o + |s| < |data| && (forall j :: 0 <= j < |s| ==> data[o + j] == s[j]) && data[o + |s|] == 0
  }

  /** The string before the first NUL of `sl`, if it is valid UTF-8; errors
      are reported at `offset`. */
  function CStrIn(sl: seq<u8>, offset: nat): (r: Result<seq<u8>, FdtError>)
    ensures r.Ok? ==> Utf8.Valid(r.value) && |r.value| < |sl| && sl[..|r.value|] == r.value && sl[|r.value|] == 0
    ensures r.Ok? ==> forall j :: 0 <= j < |r.value| ==> r.value[j] != 0
    ensures r.Err? ==> r.error == FdtError(InvalidString, offset)
  {
    match CStr.UntilNul(sl)
    case None => Err(FdtError(InvalidString, offset))
    case Some(s) => if Utf8.Valid(s) then Ok(s) else Err(FdtError(InvalidString, offset))
  }

  /** A name stored in the strings block, terminated inside the block,
      starting `nameoff` bytes into it. */
  predicate IsStringAt(fdt: Fdt, nameoff: nat, s: seq<u8>)
    requires |fdt.data| >= HEADER_SIZE
  {
    IsStringIn(fdt.data, fdt.Hdr().off_dt_strings, fdt.Hdr().size_dt_strings, nameoff, s)
  }

  /** `s` is the entry `nameoff` bytes into the block of `size` bytes at
      `base`, with its NUL inside the block. */
  predicate IsStringIn(data: seq<u8>, base: nat, size: nat, nameoff: nat, s: seq<u8>)
  {
    && base + nameoff + |s| < base + size
    && StoredAt(data, base + nameoff, s)
    && (forall j :: 0 <= j < |s| ==> s[j] != 0)
  }

  /** `Fdt::string`: the strings-block entry at `nameoff`; an offset at or
      past the end of the block is InvalidLength. */
  function String(fdt: Fdt, nameoff: nat): (r: Result<seq<u8>, FdtError>)
    requires |fdt.data| >= HEADER_SIZE
    ensures r.Ok? ==> IsStringAt(fdt, nameoff, r.value) && Utf8.Valid(r.value)
    ensures (r.Err? && r.error.kind == InvalidLength) <==> nameoff >= fdt.Hdr().size_dt_strings
    ensures r.Err? ==> r.error.offset == fdt.Hdr().off_dt_strings + nameoff
    ensures r.Err? ==> r.error.kind in {InvalidLength, InvalidOffset, InvalidString}
  {
    var h := fdt.Hdr();
    StringIn(fdt, h.off_dt_strings, h.size_dt_strings, nameoff)
  }

  /** `string` for a strings block of `size` bytes at `base`. */
  function StringIn(fdt: Fdt, base: nat, size: nat, nameoff: nat): (r: Result<seq<u8>, FdtError>)
    ensures r.Ok? ==> IsStringIn(fdt.data, base, size, nameoff, r.value) && Utf8.Valid(r.value)
    ensures (r.Err? && r.error.kind == InvalidLength) <==> nameoff >= size
    ensures r.Err? ==> r.error.offset == base + nameoff
    ensures r.Err? ==> r.error.kind in {InvalidLength, InvalidOffset, InvalidString}
  {
    if base + nameoff >= base + size then Err(FdtError(InvalidLength, base + nameoff))
    else StringAtOffset(fdt, base + nameoff, Some(base + size))
  }

  /** The entry found is the one that lies at `nameoff`: any string there
      that ends at its first NUL is what `String` returns. */
  lemma StringUnique(fdt: Fdt, nameoff: nat, s: seq<u8>)
    requires |fdt.data| >= HEADER_SIZE
    requires fdt.Hdr().off_dt_strings + fdt.Hdr().size_dt_strings <= |fdt.data|
    requires IsStringAt(fdt, nameoff, s) && Utf8.Valid(s)
    ensures String(fdt, nameoff) == Ok(s)
  {
    var h := fdt.Hdr();
    StringInUnique(fdt, h.off_dt_strings, h.size_dt_strings, nameoff, s);
  }

  lemma StringInUnique(fdt: Fdt, base: nat, size: nat, nameoff: nat, s: seq<u8>)
    requires base + size <= |fdt.data|
    requires IsStringIn(fdt.data, base, size, nameoff, s) && Utf8.Valid(s)
    ensures StringIn(fdt, base, size, nameoff) == Ok(s)
  {
    assert nameoff < size;
    StringAtOffsetOf(fdt, base + nameoff, base + size, s);
  }

  /** A NUL-free UTF-8 `s` stored at `start` and terminated before `end`
      is what `string_at_offset` reads there. */
  lemma StringAtOffsetOf(fdt: Fdt, start: nat, end: nat, s: seq<u8>)
    requires start + |s| < end <= |fdt.data|
    requires StoredAt(fdt.data, start, s)
    requires forall j :: 0 <= j < |s| ==> s[j] != 0
    requires Utf8.Valid(s)
    ensures StringAtOffset(fdt, start, Some(end)) == Ok(s)
  {
    UntilNulAt(fdt.data, start, end, s);
    assert CStrIn(fdt.data[start..end], start) == Ok(s);
  }

  lemma UntilNulAt(data: seq<u8>, start: nat, end: nat, s: seq<u8>)
    requires start + |s| < end <= |data|
    requires StoredAt(data, start, s)
    requires forall j :: 0 <= j < |s| ==> s[j] != 0
    ensures CStr.UntilNul(data[start..end]) == Some(s)
  {
    var sl := data[start..end];
    assert sl[|s|] == 0;
    assert forall j :: 0 <= j < |s| ==> sl[j] == s[j];
    var i := CStr.FirstNul(sl);
    assert i.Some? && i.value == |s|;
    assert sl[..|s|] == s;
  }

  /** `Fdt::next_property_offset`, called just after a PROP tag: skips the
      length and name-offset words and the value, then aligns. */
  function NextPropertyOffset(fdt: Fdt, o: nat): (r: Run<Result<nat, FdtError>>)
    ensures r.Panics? <==> o > |fdt.data|
    ensures !r.Hangs?
    ensures r.Returns? && r.value.Err? <==> o <= |fdt.data| < o + 4
    ensures r.Returns? && r.value.Err? ==> r.value.error == FdtError(InvalidLength, o)
    ensures r.Returns? && r.value.Ok? ==>
      o + 4 <= |fdt.data| && r.value.value == Align(o + 8 + Be32At(fdt.data, o))
  {
    if o > |fdt.data| then Panics
    else if o + 4 > |fdt.data| then Returns(Err(FdtError(InvalidLength, o)))
    else Returns(Ok(Align(o + 8 + Be32At(fdt.data, o))))
  }

  /** Every word from `o` up to `q`, stepping by four, is a NOP token. */
  predicate NopsTo(data: seq<u8>, o: nat, q: nat)
    decreases if o <= q then q - o else 0
  {
    o == q || (o < q && o + 4 <= |data| && Be32At(data, o) == FDT_NOP && NopsTo(data, o + 4, q))
  }

  /** The first offset from `o` on, stepping by four, that does not hold a
      NOP token: only NOPs lie before it. */
  function SkipNops(data: seq<u8>, o: nat): (q: nat)
    ensures o <= q && NopsTo(data, o, q)
    ensures q + 4 <= |data| ==> Be32At(data, q) != FDT_NOP
    decreases |data| - o
  {
    if o + 4 <= |data| && Be32At(data, o) == FDT_NOP then SkipNops(data, o + 4) else o
  }

  /** The offset a PROP record at `o` ends at: past its three words and
      its value, aligned. */
  function PropEnd(data: seq<u8>, o: nat): nat
    requires o + 8 <= |data|
  {
    Align(o + 12 + Be32At(data, o + 4))
  }

  /** From `o` the walk reaches `q` stepping over NOP tokens and whole PROP
      records only. */
  predicate SkipsTo(data: seq<u8>, o: nat, q: nat)
    decreases if o <= q then q - o else 0
  {
    || o == q
    || (&& o < q && o + 4 <= |data|
        && (|| (Be32At(data, o) == FDT_NOP && SkipsTo(data, o + 4, q))
            || (Be32At(data, o) == FDT_PROP && o + 8 <= |data| && SkipsTo(data, PropEnd(data, o), q))))
  }

  /** The property loop of `Fdt::next_sibling_offset`: skips PROP and NOP
      tokens and stops, without consuming it, at the first other token. */
  function SkipProps(fdt: Fdt, o: nat): (r: Run<Result<nat, FdtError>>)
    ensures !r.Hangs?
    ensures r.Returns? && r.value.Ok? ==> o <= r.value.value && r.value.value + 4 <= |fdt.data|
    ensures r.Returns? && r.value.Ok? ==>
      TokenFromWord(Be32At(fdt.data, r.value.value)) in {Ok(BeginNode), Ok(EndNode), Ok(End)}
    ensures r.Returns? && r.value.Ok? ==> SkipsTo(fdt.data, o, r.value.value)
    decreases Rem(fdt, o)
  {
    var t :- ReadToken(fdt, o);
    match t
    case Err(e) => Returns(Err(e))
    case Ok(Prop) =>
      (match NextPropertyOffset(fdt, o + 4)
       case Returns(Ok(n)) => SkipProps(fdt, n)
       case Returns(Err(e)) => Returns(Err(e))
       case _ => Panics)
    case Ok(Nop) => SkipProps(fdt, o + 4)
    case Ok(_) => Returns(Ok(o))
  }

  /** One step of the token walk at tag offset `o`: where the next token
      starts and how the nesting depth changes. A BEGIN_NODE and its name
      open a level, an END_NODE closes one, PROP records and NOPs are
      passed over; any other word, or a short buffer, breaks the walk. */
  function Step(fdt: Fdt, o: nat): (r: Option<(nat, int)>)
    ensures r.Some? ==> o < r.value.0 && -1 <= r.value.1 <= 1
  {
    if o + 4 > |fdt.data| then None
    else
      var w := Be32At(fdt.data, o);
      if w == FDT_END_NODE then Some((o + 4, -1))
      else if w == FDT_NOP then Some((o + 4, 0))
      else if w == FDT_PROP then (if o + 8 <= |fdt.data| then Some((PropEnd(fdt.data, o), 0)) else None)
      else if w == FDT_BEGIN_NODE then
        (match FindStringEnd(fdt, o + 4)
         case Ok(e) => Some((Align(e), 1))
         case Err(_) => None)
      else None
  }

  /** The token walk from `o` at nesting depth `d` first brings the depth
      down to zero just before `q`: `q` is the offset past the END_NODE
      that matches the levels open at `o`. */
  predicate Closes(fdt: Fdt, o: nat, d: nat, q: nat)
    decreases if o < q then q - o else 0
  {
    && o < q && Step(fdt, o).Some?
    && var (n, delta) := Step(fdt, o).value;
       if d + delta <= 0 then d + delta == 0 && q == n else Closes(fdt, n, d + delta, q)
  }

  /** The walk closes at one offset only: the END_NODE it stops after is
      the first one that matches the opening depth. */
  lemma {:induction false} ClosesUnique(fdt: Fdt, o: nat, d: nat, q1: nat, q2: nat)
    requires Closes(fdt, o, d, q1) && Closes(fdt, o, d, q2)
    ensures q1 == q2
    decreases q1 - o
  {
    var (n, delta) := Step(fdt, o).value;
    if d + delta > 0 {
      ClosesUnique(fdt, n, d + delta, q1, q2);
    }
  }

  /** Walking over NOPs and whole PROP records first does not change
      where the walk closes. */
  lemma {:induction false} ClosesAfterSkips(fdt: Fdt, a: nat, p: nat, d: nat, q: nat)
    requires 0 < d && SkipsTo(fdt.data, a, p) && Closes(fdt, p, d, q)
    ensures Closes(fdt, a, d, q)
    decreases p - a
  {
    if a != p {
      if Be32At(fdt.data, a) == FDT_NOP && SkipsTo(fdt.data, a + 4, p) {
        ClosesAfterSkips(fdt, a + 4, p, d, q);
      } else {
        ClosesAfterSkips(fdt, PropEnd(fdt.data, a), p, d, q);
      }
    }
  }

  /** A walk that closes `k` levels at `m`, followed by one that closes
      `d` levels from `m`, closes `k + d` levels from the start. */
  lemma {:induction false} ClosesConcat(fdt: Fdt, a: nat, k: nat, m: nat, d: nat, q: nat)
    requires 1 <= d && Closes(fdt, a, k, m) && Closes(fdt, m, d, q)
    ensures Closes(fdt, a, k + d, q)
    decreases m - a
  {
    var (n, delta) := Step(fdt, a).value;
    if k + delta > 0 {
      ClosesConcat(fdt, n, k + delta, m, d, q);
    }
  }

  lemma ClosesOpen(fdt: Fdt, o: nat, d: nat, q: nat)
    requires o + 4 <= |fdt.data| && Be32At(fdt.data, o) == FDT_BEGIN_NODE
    requires FindStringEnd(fdt, o + 4).Ok? && Closes(fdt, Align(FindStringEnd(fdt, o + 4).value), d + 1, q)
    ensures Closes(fdt, o, d, q)
  {}

  lemma ClosesNop(fdt: Fdt, o: nat, d: nat, q: nat)
    requires 0 < d && o + 4 <= |fdt.data| && Be32At(fdt.data, o) == FDT_NOP && Closes(fdt, o + 4, d, q)
    ensures Closes(fdt, o, d, q)
  {}

  lemma ClosesEnd(fdt: Fdt, o: nat)
    requires o + 4 <= |fdt.data| && Be32At(fdt.data, o) == FDT_END_NODE
    ensures Closes(fdt, o, 1, o + 4)
  {}

  /** `Fdt::next_sibling_offset`: the offset just past the END_NODE that
      closes the node whose BEGIN_NODE is at `o` (`NextSiblingCloses`).
      The child loop does not advance on a PROP or END token
      (fdt/mod.rs:490), so on such input the call never returns. */
  function NextSiblingOffset(fdt: Fdt, o: nat): (r: Run<Result<nat, FdtError>>)
    ensures r.Returns? && r.value.Ok? ==> o + 4 < r.value.value <= |fdt.data|
    ensures r.Returns? && r.value.Ok? ==> Be32At(fdt.data, r.value.value - 4) == FDT_END_NODE
    decreases Rem(fdt, o), 0
  {
    match FindStringEnd(fdt, o + FDT_TAGSIZE)
    case Err(e) => Returns(Err(e))
    case Ok(e) =>
      var p :- SkipProps(fdt, Align(e));
      if p.Err? then Returns(Err(p.error)) else SkipChildren(fdt, p.value)
  }

  /** The child loop of `Fdt::next_sibling_offset`. */
  function SkipChildren(fdt: Fdt, o: nat): (r: Run<Result<nat, FdtError>>)
    ensures r.Returns? && r.value.Ok? ==> o + 4 <= r.value.value <= |fdt.data|
    ensures r.Returns? && r.value.Ok? ==> Be32At(fdt.data, r.value.value - 4) == FDT_END_NODE
    decreases Rem(fdt, o), 1
  {
    var t :- ReadToken(fdt, o);
    match t
    case Err(e) => Returns(Err(e))
    case Ok(BeginNode) =>
      var n :- NextSiblingOffset(fdt, o);
      if n.Err? then Returns(Err(n.error)) else SkipChildren(fdt, n.value)
    case Ok(EndNode) => Returns(Ok(o + FDT_TAGSIZE))
    case Ok(Nop) => SkipChildren(fdt, o + FDT_TAGSIZE)
    case Ok(_) => Hangs
  }

  /** The sibling offset is where the token walk from the end of the
      node's name closes its one open level: just past the END_NODE that
      matches the node's BEGIN_NODE, not the first END_NODE met. */
  lemma {:induction false} NextSiblingCloses(fdt: Fdt, o: nat)
    requires NextSiblingOffset(fdt, o).Returns? && NextSiblingOffset(fdt, o).value.Ok?
    ensures FindStringEnd(fdt, o + 4).Ok?
    ensures Closes(fdt, Align(FindStringEnd(fdt, o + 4).value), 1, NextSiblingOffset(fdt, o).value.value)
    decreases Rem(fdt, o), 0
  {
    var e, p := SiblingParts(fdt, o);
    SkipChildrenCloses(fdt, p);
    ClosesAfterSkips(fdt, Align(e), p, 1, NextSiblingOffset(fdt, o).value.value);
  }

  /** A successful `next_sibling_offset` is the child loop run from where
      the property loop after the name stops. */
  lemma SiblingParts(fdt: Fdt, o: nat) returns (e: nat, p: nat)
    requires NextSiblingOffset(fdt, o).Returns? && NextSiblingOffset(fdt, o).value.Ok?
    ensures FindStringEnd(fdt, o + 4) == Ok(e)
    ensures SkipProps(fdt, Align(e)) == Returns(Ok(p))
    ensures SkipChildren(fdt, p) == NextSiblingOffset(fdt, o)
  {
    e := FindStringEnd(fdt, o + 4).value;
    p := SkipProps(fdt, Align(e)).value.value;
  }

  /** The child loop stops just past the END_NODE that closes the level
      open at its start. */
  lemma {:induction false} SkipChildrenCloses(fdt: Fdt, o: nat)
    requires SkipChildren(fdt, o).Returns? && SkipChildren(fdt, o).value.Ok?
    ensures Closes(fdt, o, 1, SkipChildren(fdt, o).value.value)
    decreases Rem(fdt, o), 1
  {
    var q := SkipChildren(fdt, o).value.value;
    match ReadToken(fdt, o).value.value
    case BeginNode =>
      var n := NextSiblingOffset(fdt, o).value.value;
      NextSiblingCloses(fdt, o);
      SkipChildrenCloses(fdt, n);
      ClosesConcat(fdt, Align(FindStringEnd(fdt, o + 4).value), 1, n, 1, q);
      ClosesOpen(fdt, o, 1, q);
    case EndNode =>
      ClosesEnd(fdt, o);
    case Nop =>
      SkipChildrenCloses(fdt, o + 4);
      ClosesNop(fdt, o, 1, q);
  }

  /** A PROP or END token where the child loop expects a child, NOP or
      END_NODE makes `next_sibling_offset` loop forever. */
  lemma ChildLoopHangs(fdt: Fdt, o: nat)
    requires o + 4 <= |fdt.data|
    requires Be32At(fdt.data, o) in {FDT_PROP, FDT_END}
    ensures SkipChildren(fdt, o) == Hangs
  {}

  /** The reservation records from byte `p` on, as the iterator of
      `Fdt::memory_reservations` yields them: it stops without yielding at
      an all-zero record or when fewer than 16 bytes remain. */
  function ReservationsFrom(data: seq<u8>, p: nat): (r: seq<MemoryReservation>)
    requires p <= |data|
    ensures p + 16 * |r| <= |data|
    ensures p + 16 * |r| + 16 > |data|
      || (Be64At(data, p + 16 * |r|) == 0 && Be64At(data, p + 16 * |r| + 8) == 0)
    ensures forall i :: 0 <= i < |r| ==> r[i] != MemoryReservation(0, 0)
    ensures forall i :: 0 <= i < |r| ==>
      r[i] == MemoryReservation(Be64At(data, p + 16 * i), Be64At(data, p + 16 * i + 8))
    decreases |data| - p
  {
    if p + 16 > |data| then []
    else
      var address := Be64At(data, p);
      var size := Be64At(data, p + 8);
      if address == 0 && size == 0 then []
      else
        var rest := ReservationsFrom(data, p + 16);
        assert forall i :: 1 <= i < |rest| + 1 ==> p + 16 * i == (p + 16) + 16 * (i - 1);
        [MemoryReservation(address, size)] + rest
  }

  /** `Fdt::memory_reservations`, collected. */
  function MemoryReservations(fdt: Fdt): (r: seq<MemoryReservation>)
    requires fdt.Valid()
    ensures r == ReservationsFrom(fdt.data, fdt.Hdr().off_mem_rsvmap)
  {
    ReservationsFrom(fdt.data, fdt.Hdr().off_mem_rsvmap)
  }

  /** A zero-copy node handle: the offset of its BEGIN_NODE token. */
  datatype FdtNode = FdtNode(offset: nat)

  /** `Fdt::root`: the structure block must open with BEGIN_NODE. Another
      known token is reported as BadToken(FDT_BEGIN_NODE); fewer than four
      bytes and an unknown word fail as `read_token` does. */
  function Root(fdt: Fdt): (r: Run<Result<FdtNode, FdtError>>)
    requires fdt.Valid()
    ensures r.Returns?
    ensures r.value.Ok? <==>
      fdt.Hdr().off_dt_struct + 4 <= |fdt.data| && Be32At(fdt.data, fdt.Hdr().off_dt_struct) == FDT_BEGIN_NODE
    ensures r.value.Ok? ==> r.value.value == FdtNode(fdt.Hdr().off_dt_struct)
    ensures fdt.Hdr().off_dt_struct + 4 > |fdt.data| ==>
      r.value == Err(FdtError(InvalidLength, fdt.Hdr().off_dt_struct))
    ensures fdt.Hdr().off_dt_struct + 4 <= |fdt.data| ==>
      var w := Be32At(fdt.data, fdt.Hdr().off_dt_struct);
      && (w in {FDT_END_NODE, FDT_PROP, FDT_NOP, FDT_END} ==>
            r.value == Err(FdtError(BadToken(FDT_BEGIN_NODE), fdt.Hdr().off_dt_struct)))
      && (w !in {FDT_BEGIN_NODE, FDT_END_NODE, FDT_PROP, FDT_NOP, FDT_END} ==>
            r.value == Err(FdtError(BadToken(w), fdt.Hdr().off_dt_struct)))
  {
    var o := fdt.Hdr().off_dt_struct;
    match ReadToken(fdt, o)
    case Returns(Err(e)) => Returns(Err(e))
    case Returns(Ok(BeginNode)) => Returns(Ok(FdtNode(o)))
    case Returns(Ok(_)) => Returns(Err(FdtError(BadToken(FDT_BEGIN_NODE), o)))
    case _ => Panics
  }
}
