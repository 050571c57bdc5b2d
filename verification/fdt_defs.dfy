/** Constants, tokens, errors and records shared by the reader, the
    mutable model and the writer (Devicetree Specification v0.4, chapter 5). */
module FdtDefs {
  import opened Bytes
  import opened Wrappers

  /** The version this library reads and writes. */
  const FDT_VERSION: u32 := 17
  const FDT_TAGSIZE: nat := 4
  const FDT_MAGIC: u32 := 0xd00d_feed
  const FDT_BEGIN_NODE: u32 := 0x1
  const FDT_END_NODE: u32 := 0x2
  const FDT_PROP: u32 := 0x3
  const FDT_NOP: u32 := 0x4
  const FDT_END: u32 := 0x9

  /** Size of the ten-word header. */
  const HEADER_SIZE: nat := 40

  /** Largest value of the target's `usize` (a 64-bit platform). */
  const USIZE_MAX: nat := 0xFFFF_FFFF_FFFF_FFFF

  /** A token of the structure block. */
  datatype Token = BeginNode | EndNode | Prop | Nop | End

  /** `FdtToken::try_from(u32)`: an unknown word is handed back as the error. */
  function TokenFromWord(w: u32): (r: Result<Token, u32>)
    ensures r.Err? ==> r.error == w
    ensures r.Err? <==> w !in {1, 2, 3, 4, 9}
  {
    if w == FDT_BEGIN_NODE then Ok(BeginNode)
    else if w == FDT_END_NODE then Ok(EndNode)
    else if w == FDT_PROP then Ok(Prop)
    else if w == FDT_NOP then Ok(Nop)
    else if w == FDT_END then Ok(End)
    else Err(w)
  }

  /** The word the writer emits for a token. */
  function TokenWord(t: Token): u32
  {
    match t
    case BeginNode => FDT_BEGIN_NODE
    case EndNode => FDT_END_NODE
    case Prop => FDT_PROP
    case Nop => FDT_NOP
    case End => FDT_END
  }

  /** Decoding inverts encoding, and every accepted word is an encoding. */
  lemma TokenRoundTrip(t: Token, w: u32)
    ensures TokenFromWord(TokenWord(t)) == Ok(t)
    ensures TokenFromWord(w).Ok? ==> TokenWord(TokenFromWord(w).value) == w
  {}

  /** `Fdt::align_tag_offset`: the least multiple of 4 not below `x`. */
  function Align(x: nat): (r: nat)
    ensures r % 4 == 0
    ensures x <= r < x + 4
  {
    if x % 4 == 0 then x else x + (4 - x % 4)
  }

  /** No multiple of 4 lies between `x` and `Align(x)`. */
  lemma AlignLeast(x: nat, m: nat)
    requires x <= m && m % 4 == 0
    ensures Align(x) <= m
  {}

  /** Aligning twice is aligning once. */
  lemma AlignIdempotent(x: nat)
    ensures Align(Align(x)) == Align(x)
  {}

  /** `usize::saturating_add`: the sum when it fits, `usize::MAX` when it
      does not; never above either. */
  function SaturatingAdd(a: nat, b: nat): (r: nat)
    ensures r <= USIZE_MAX && r <= a + b
    ensures a + b <= USIZE_MAX ==> r == a + b
    ensures a + b > USIZE_MAX ==> r == USIZE_MAX
  {
    if a + b > USIZE_MAX then USIZE_MAX else a + b
  }

  /** What went wrong while reading a blob. */
  datatype FdtErrorKind =
    | InvalidLength
    | InvalidMagic
    | UnsupportedVersion(version: u32)
    | InvalidHeader(reason: string)
    | BadToken(token: u32)
    | InvalidOffset
    | InvalidString

  /** An error together with the byte offset it refers to. */
  datatype FdtError = FdtError(kind: FdtErrorKind, offset: nat)

  /** One entry of the memory reservation block. */
  datatype MemoryReservation = MemoryReservation(address: u64, size: u64)
}
