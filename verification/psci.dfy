/** The PSCI function identifiers and return codes the hypervisor decodes
    (Arm Power State Coordination Interface, DEN 0022, chapter 5): a
    32-bit call number is classified into a known function or kept as an
    unknown code, and return values convert to and from `i32`. */
module Psci {
  import opened Bytes

  /** Base of the 32-bit calls, the 64-bit flag, and the base of the
      64-bit calls (SMC64 function numbers). */
  const FN_BASE: u32 := 0x8400_0000
  const FN_64BIT: u32 := 0x4000_0000
  const FN64_BASE: u32 := FN_BASE + FN_64BIT

  /** Offsets from `FN_BASE` of the 32-bit calls, and from `FN64_BASE` of
      the 64-bit ones. */
  const FN_OFFSETS: set<int> := {0, 1, 2, 3, 4, 5, 6, 7, 8, 9, 10, 14, 15, 18}
  const FN64_OFFSETS: set<int> := {1, 3, 4, 5, 7, 14, 18}

  /** The call numbers the decoder names. */
  predicate Known(code: int)
  {
    (code - FN_BASE) in FN_OFFSETS || (code - FN64_BASE) in FN64_OFFSETS
  }

  datatype PsciFunction =
    | Version | CpuSuspend | CpuOff | CpuOn | AffinityInfo | Migrate | MigrateInfoType
    | MigrateInfoUpCpu | SystemOff | SystemReset | PsciFeatures | SystemSuspend
    | SetSuspendMode | SystemReset2
    | CpuSuspend64 | CpuOn64 | AffinityInfo64 | Migrate64 | MigrateInfoUpCpu64
    | SystemSuspend64 | SystemReset264
    | Unknown(code: u32)

  /** The call number of each named function; an unknown one keeps its own. */
  function FunctionId(f: PsciFunction): (r: u32)
    ensures !f.Unknown? ==> Known(r)
  {
    match f
    case Version => FN_BASE
    case CpuSuspend => FN_BASE + 1
    case CpuOff => FN_BASE + 2
    case CpuOn => FN_BASE + 3
    case AffinityInfo => FN_BASE + 4
    case Migrate => FN_BASE + 5
    case MigrateInfoType => FN_BASE + 6
    case MigrateInfoUpCpu => FN_BASE + 7
    case SystemOff => FN_BASE + 8
    case SystemReset => FN_BASE + 9
    case PsciFeatures => FN_BASE + 10
    case SystemSuspend => FN_BASE + 14
    case SetSuspendMode => FN_BASE + 15
    case SystemReset2 => FN_BASE + 18
    case CpuSuspend64 => FN64_BASE + 1
    case CpuOn64 => FN64_BASE + 3
    case AffinityInfo64 => FN64_BASE + 4
    case Migrate64 => FN64_BASE + 5
    case MigrateInfoUpCpu64 => FN64_BASE + 7
    case SystemSuspend64 => FN64_BASE + 14
    case SystemReset264 => FN64_BASE + 18
    case Unknown(c) => c
  }

  /** `PsciFunction::from(u32)`: a known call number names its function,
      any other is kept as `Unknown`. No two numbers give the same value. */
  function FunctionFrom(code: u32): (r: PsciFunction)
    ensures FunctionId(r) == code
    ensures r.Unknown? <==> !Known(code)
  {
    if code == FN_BASE then Version
    else if code == FN_BASE + 1 then CpuSuspend
    else if code == FN_BASE + 2 then CpuOff
    else if code == FN_BASE + 3 then CpuOn
    else if code == FN_BASE + 4 then AffinityInfo
    else if code == FN_BASE + 5 then Migrate
    else if code == FN_BASE + 6 then MigrateInfoType
    else if code == FN_BASE + 7 then MigrateInfoUpCpu
    else if code == FN_BASE + 8 then SystemOff
    else if code == FN_BASE + 9 then SystemReset
    else if code == FN_BASE + 10 then PsciFeatures
    else if code == FN_BASE + 14 then SystemSuspend
    else if code == FN_BASE + 15 then SetSuspendMode
    else if code == FN_BASE + 18 then SystemReset2
    else if code == FN64_BASE + 1 then CpuSuspend64
    else if code == FN64_BASE + 3 then CpuOn64
    else if code == FN64_BASE + 4 then AffinityInfo64
    else if code == FN64_BASE + 5 then Migrate64
    else if code == FN64_BASE + 7 then MigrateInfoUpCpu64
    else if code == FN64_BASE + 14 then SystemSuspend64
    else if code == FN64_BASE + 18 then SystemReset264
    else PsciFunction.Unknown(code)
  }

  /** Every function other than an `Unknown` that shadows a known number
      decodes from its own call number. */
  lemma FunctionFromId(f: PsciFunction)
    requires f.Unknown? ==> !Known(f.code)
    ensures FunctionFrom(FunctionId(f)) == f
  {
  }

  /** Among the named call numbers, the 64-bit calls are exactly those
      from `FN64_BASE` up, the ones carrying the 64-bit flag. */
  lemma SixtyFourBitFlag(code: u32)
    requires Known(code)
    ensures code >= FN64_BASE <==> (FunctionFrom(code) in
      {CpuSuspend64, CpuOn64, AffinityInfo64, Migrate64, MigrateInfoUpCpu64, SystemSuspend64, SystemReset264})
  {
  }

  datatype PsciReturn =
    | Success | NotSupported | InvalidParams | Denied | AlreadyOn | OnPending
    | InternalFailure | NotPresent | Disabled | InvalidAddress
    | Unknown(code: i32)

  /** `i32::from(PsciReturn)`: the return codes 0 down to -9; an unknown
      one keeps its own. */
  function ReturnCode(r: PsciReturn): (c: i32)
    ensures !r.Unknown? ==> -9 <= c <= 0
  {
    match r
    case Success => 0
    case NotSupported => -1
    case InvalidParams => -2
    case Denied => -3
    case AlreadyOn => -4
    case OnPending => -5
    case InternalFailure => -6
    case NotPresent => -7
    case Disabled => -8
    case InvalidAddress => -9
    case Unknown(c) => c
  }

  /** `PsciReturn::from(i32)`: 0 to -9 name their results, every other
      value is kept as `Unknown`; converting back gives the same value. */
  function ReturnFrom(c: i32): (r: PsciReturn)
    ensures ReturnCode(r) == c
    ensures r.Unknown? <==> !(-9 <= c <= 0)
  {
    match c
    case 0 => Success
    case -1 => NotSupported
    case -2 => InvalidParams
    case -3 => Denied
    case -4 => AlreadyOn
    case -5 => OnPending
    case -6 => InternalFailure
    case -7 => NotPresent
    case -8 => Disabled
    case -9 => InvalidAddress
    case _ => PsciReturn.Unknown(c)
  }

  /** Converting a return value to `i32` and back gives it again, unless
      it is an `Unknown` holding one of the named codes. */
  lemma ReturnFromCode(r: PsciReturn)
    requires r.Unknown? ==> !(-9 <= r.code <= 0)
    ensures ReturnFrom(ReturnCode(r)) == r
  {
  }
}
