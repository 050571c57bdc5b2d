/** The 40-byte header and `Fdt::new`, which decides whether a byte buffer
    is accepted as a flattened device tree (Devicetree Specification v0.4,
    section 5.2). */
module FdtHeader {
  import opened Bytes
  import opened Wrappers
  import opened FdtDefs

  /** The ten big-endian header words, in blob order. */
  datatype Header = Header(
    magic: u32,
    totalsize: u32,
    off_dt_struct: u32,
    off_dt_strings: u32,
    off_mem_rsvmap: u32,
    version: u32,
    last_comp_version: u32,
    boot_cpuid_phys: u32,
    size_dt_strings: u32,
    size_dt_struct: u32)

  /** Field offsets inside the header (`offset_of!`). */
  const OFF_MAGIC: nat := 0
  const OFF_TOTALSIZE: nat := 4
  const OFF_DT_STRUCT: nat := 8
  const OFF_DT_STRINGS: nat := 12
  const OFF_MEM_RSVMAP: nat := 16
  const OFF_VERSION: nat := 20
  const OFF_LAST_COMP_VERSION: nat := 24
  const OFF_BOOT_CPUID_PHYS: nat := 28
  const OFF_SIZE_DT_STRINGS: nat := 32
  const OFF_SIZE_DT_STRUCT: nat := 36

  /** `Fdt::header` and the `FdtHeader` accessors: field k is the word at
      byte 4k. */
  function ReadHeader(data: seq<u8>): (h: Header)
    requires |data| >= HEADER_SIZE
    ensures h.magic == Be32At(data, OFF_MAGIC) && h.totalsize == Be32At(data, OFF_TOTALSIZE)
    ensures h.off_dt_struct == Be32At(data, OFF_DT_STRUCT) && h.off_dt_strings == Be32At(data, OFF_DT_STRINGS)
    ensures h.off_mem_rsvmap == Be32At(data, OFF_MEM_RSVMAP) && h.version == Be32At(data, OFF_VERSION)
    ensures h.last_comp_version == Be32At(data, OFF_LAST_COMP_VERSION)
    ensures h.boot_cpuid_phys == Be32At(data, OFF_BOOT_CPUID_PHYS)
    ensures h.size_dt_strings == Be32At(data, OFF_SIZE_DT_STRINGS)
    ensures h.size_dt_struct == Be32At(data, OFF_SIZE_DT_STRUCT)
  {
    Header(Be32At(data, 0), Be32At(data, 4), Be32At(data, 8), Be32At(data, 12), Be32At(data, 16),
           Be32At(data, 20), Be32At(data, 24), Be32At(data, 28), Be32At(data, 32), Be32At(data, 36))
  }

  /** The ten header words in blob order. */
  function HeaderWords(h: Header): (r: seq<u32>)
    ensures |r| == 10
  {
    [h.magic, h.totalsize, h.off_dt_struct, h.off_dt_strings, h.off_mem_rsvmap,
     h.version, h.last_comp_version, h.boot_cpuid_phys, h.size_dt_strings, h.size_dt_struct]
  }

  /** The bytes of a header, as the writer lays them out. */
  function HeaderBytes(h: Header): (r: seq<u8>)
    ensures |r| == HEADER_SIZE
  {
    Words(HeaderWords(h))
  }

  /** Reading back the header bytes gives the header, whatever follows them. */
  lemma ReadHeaderBytes(h: Header, rest: seq<u8>)
    ensures ReadHeader(HeaderBytes(h) + rest) == h
  {
    var ws := HeaderWords(h);
    assert [] + Words(ws) + rest == HeaderBytes(h) + rest;
    WordsAt([], ws, rest, 0); WordsAt([], ws, rest, 1); WordsAt([], ws, rest, 2);
    WordsAt([], ws, rest, 3); WordsAt([], ws, rest, 4); WordsAt([], ws, rest, 5);
    WordsAt([], ws, rest, 6); WordsAt([], ws, rest, 7); WordsAt([], ws, rest, 8);
    WordsAt([], ws, rest, 9);
  }

  /** The six structural checks of `validate_header`, in source order. */
  predicate RsvmapBeforeStruct(h: Header) { h.off_mem_rsvmap <= h.off_dt_struct }
  predicate StructInBounds(h: Header, len: nat) { h.off_dt_struct <= len }
  predicate StringsInBounds(h: Header, len: nat) { h.off_dt_strings <= len }
  predicate StructFits(h: Header, len: nat) { SaturatingAdd(h.off_dt_struct, h.size_dt_struct) <= len }
  predicate StringsFit(h: Header, len: nat) { SaturatingAdd(h.off_dt_strings, h.size_dt_strings) <= len }
  predicate StructBeforeStrings(h: Header) { SaturatingAdd(h.off_dt_struct, h.size_dt_struct) <= h.off_dt_strings }

  predicate LayoutOk(h: Header, len: nat)
  {
    && RsvmapBeforeStruct(h) && StructInBounds(h, len) && StringsInBounds(h, len)
    && StructFits(h, len) && StringsFit(h, len) && StructBeforeStrings(h)
  }

  /** `Fdt::validate_header`: succeeds exactly when every check holds, and
      otherwise names the first failing check with its own reason. */
  function ValidateHeader(h: Header, len: nat): (r: Result<(), FdtError>)
    ensures r.Ok? <==> LayoutOk(h, len)
    ensures !RsvmapBeforeStruct(h) ==>
      r == Err(FdtError(InvalidHeader("dt_struct not after memrsvmap"), OFF_MEM_RSVMAP))
    ensures RsvmapBeforeStruct(h) && !StructInBounds(h, len) ==>
      r == Err(FdtError(InvalidHeader("struct offset out of bounds"), OFF_DT_STRUCT))
    ensures RsvmapBeforeStruct(h) && StructInBounds(h, len) && !StringsInBounds(h, len) ==>
      r == Err(FdtError(InvalidHeader("strings offset out of bounds"), OFF_DT_STRINGS))
    ensures RsvmapBeforeStruct(h) && StructInBounds(h, len) && StringsInBounds(h, len)
            && !StructFits(h, len) ==>
      r == Err(FdtError(InvalidHeader("struct block overflows"), OFF_SIZE_DT_STRUCT))
    ensures RsvmapBeforeStruct(h) && StructInBounds(h, len) && StringsInBounds(h, len)
            && StructFits(h, len) && !StringsFit(h, len) ==>
      r == Err(FdtError(InvalidHeader("strings block overflows"), OFF_SIZE_DT_STRINGS))
    ensures RsvmapBeforeStruct(h) && StructInBounds(h, len) && StringsInBounds(h, len)
            && StructFits(h, len) && StringsFit(h, len) && !StructBeforeStrings(h) ==>
      r == Err(FdtError(InvalidHeader("strings block not after struct block"), OFF_DT_STRINGS))
    ensures r.Err? ==> r.error.kind.InvalidHeader?
  {
    if h.off_mem_rsvmap > h.off_dt_struct then
      Err(FdtError(InvalidHeader("dt_struct not after memrsvmap"), OFF_MEM_RSVMAP))
    else if h.off_dt_struct > len then
      Err(FdtError(InvalidHeader("struct offset out of bounds"), OFF_DT_STRUCT))
    else if h.off_dt_strings > len then
      Err(FdtError(InvalidHeader("strings offset out of bounds"), OFF_DT_STRINGS))
    else if SaturatingAdd(h.off_dt_struct, h.size_dt_struct) > len then
      Err(FdtError(InvalidHeader("struct block overflows"), OFF_SIZE_DT_STRUCT))
    else if SaturatingAdd(h.off_dt_strings, h.size_dt_strings) > len then
      Err(FdtError(InvalidHeader("strings block overflows"), OFF_SIZE_DT_STRINGS))
    else if SaturatingAdd(h.off_dt_struct, h.size_dt_struct) > h.off_dt_strings then
      Err(FdtError(InvalidHeader("strings block not after struct block"), OFF_DT_STRINGS))
    else Ok(())
  }

  /** The version window: this library's version lies within
      `[last_comp_version, version]`. */
  predicate VersionOk(h: Header)
  {
    h.last_comp_version <= FDT_VERSION <= h.version
  }

  /** A byte buffer accepted by `Fdt::new`. */
  datatype Fdt = Fdt(data: seq<u8>)
  {
    /** Every `Fdt` value the library hands out satisfies this. */
    predicate Valid()
    {
      && |data| >= HEADER_SIZE
      && ReadHeader(data).magic == FDT_MAGIC
      && VersionOk(ReadHeader(data))
      && ReadHeader(data).totalsize == |data|
      && LayoutOk(ReadHeader(data), |data|)
    }

    function Hdr(): Header
      requires |data| >= HEADER_SIZE
    {
      ReadHeader(data)
    }
  }

  /** `Fdt::new`: the checks run in a fixed order and the first failure is
      reported. */
  function New(data: seq<u8>): (r: Result<Fdt, FdtError>)
    ensures r.Ok? <==> Fdt(data).Valid()
    ensures r.Ok? ==> r.value.data == data
    ensures |data| < HEADER_SIZE ==> r == Err(FdtError(InvalidLength, 0))
    ensures |data| >= HEADER_SIZE && ReadHeader(data).magic != FDT_MAGIC ==>
      r == Err(FdtError(InvalidMagic, OFF_MAGIC))
    ensures |data| >= HEADER_SIZE && ReadHeader(data).magic == FDT_MAGIC && !VersionOk(ReadHeader(data)) ==>
      r == Err(FdtError(UnsupportedVersion(ReadHeader(data).version), OFF_VERSION))
    ensures (|data| >= HEADER_SIZE && ReadHeader(data).magic == FDT_MAGIC && VersionOk(ReadHeader(data))
             && ReadHeader(data).totalsize != |data|) ==>
      r == Err(FdtError(InvalidLength, OFF_TOTALSIZE))
    ensures (|data| >= HEADER_SIZE && ReadHeader(data).magic == FDT_MAGIC && VersionOk(ReadHeader(data))
             && ReadHeader(data).totalsize == |data| && r.Err?) ==> r.error.kind.InvalidHeader?
    ensures (|data| >= HEADER_SIZE && ReadHeader(data).magic == FDT_MAGIC && VersionOk(ReadHeader(data))
             && ReadHeader(data).totalsize == |data| && !LayoutOk(ReadHeader(data), |data|)) ==>
      r == Err(ValidateHeader(ReadHeader(data), |data|).error)
  {
    if |data| < HEADER_SIZE then Err(FdtError(InvalidLength, 0))
    else
      var h := ReadHeader(data);
      if h.magic != FDT_MAGIC then Err(FdtError(InvalidMagic, OFF_MAGIC))
      else if !(h.last_comp_version <= FDT_VERSION <= h.version) then
        Err(FdtError(UnsupportedVersion(h.version), OFF_VERSION))
      else if h.totalsize != |data| then Err(FdtError(InvalidLength, OFF_TOTALSIZE))
      else
        var _ :- ValidateHeader(h, |data|);
        Ok(Fdt(data))
  }

  /** In an accepted blob the blocks are ordered and inside the buffer. */
  lemma ValidLayout(fdt: Fdt)
    requires fdt.Valid()
    ensures fdt.Hdr().off_mem_rsvmap <= fdt.Hdr().off_dt_struct
    ensures fdt.Hdr().off_dt_struct + fdt.Hdr().size_dt_struct <= fdt.Hdr().off_dt_strings
    ensures fdt.Hdr().off_dt_strings + fdt.Hdr().size_dt_strings <= |fdt.data|
  {}

  /** The header-only blob used by the source's unit tests: a 60-byte
      buffer with an empty reservation map and a structure block holding
      just END. */
  const TEST_HEADER: Header := Header(FDT_MAGIC, 60, 56, 60, 40, 17, 16, 0, 0, 4)
  const TEST_BLOB: seq<u8> := HeaderBytes(TEST_HEADER) + Words([0, 0, 0, 0, FDT_END])

  /** The source's header test blob is accepted and its fields parse. */
  lemma HeaderParsedCorrectly()
    ensures ReadHeader(TEST_BLOB) == TEST_HEADER
    ensures New(TEST_BLOB).Ok?
  {
    ReadHeaderBytes(TEST_HEADER, Words([0, 0, 0, 0, FDT_END]));
  }

  /** Corrupting the first magic byte is reported as a bad magic. */
  lemma InvalidMagicTest()
    ensures New(TEST_BLOB[0 := 0]) == Err(FdtError(InvalidMagic, OFF_MAGIC))
  {
    HeaderParsedCorrectly();
    assert ReadHeader(TEST_BLOB[0 := 0]).magic < 0x100_0000;
  }

  /** A buffer shorter than the header is reported as a bad length. */
  lemma InvalidLengthTest()
    ensures New(TEST_BLOB[..10]) == Err(FdtError(InvalidLength, 0))
  {}

  /** Lowering `version` (the byte at 23) to 16 is reported with that version. */
  lemma UnsupportedVersionTest()
    ensures New(TEST_BLOB[23 := 0x10]) == Err(FdtError(UnsupportedVersion(16), OFF_VERSION))
  {
    HeaderParsedCorrectly();
    var d := TEST_BLOB[23 := 0x10];
    Be32AtOutside(TEST_BLOB, 0, 23, 0x10);
    Be32AtOutside(TEST_BLOB, 24, 23, 0x10);
    Be32AtSmall(TEST_BLOB, 20);
    Be32AtLastByte(TEST_BLOB, 20, 0x10);
    assert ReadHeader(d).version == 16;
  }
}
