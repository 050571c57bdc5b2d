/** NUL-terminated byte strings: the parts of Rust's `CStr` the device
    tree code relies on. */
module CStr {
  import opened Bytes
  import opened Wrappers

  /** Index of the first NUL byte of `s`, if any. */
  function FirstNul(s: seq<u8>): (r: Option<nat>)
    ensures r.Some? ==> r.value < |s| && s[r.value] == 0
    ensures r.Some? ==> forall j :: 0 <= j < r.value ==> s[j] != 0
    ensures r.None? <==> forall j :: 0 <= j < |s| ==> s[j] != 0
    decreases |s|
  {
    if |s| == 0 then None
    else if s[0] == 0 then Some(0)
    else match FirstNul(s[1..])
      case None => None
      case Some(i) => Some(i + 1)
  }

  /** `CStr::from_bytes_until_nul`: the bytes before the first NUL, or
      None when there is no NUL. */
  function UntilNul(s: seq<u8>): (r: Option<seq<u8>>)
    ensures r.Some? <==> exists j :: 0 <= j < |s| && s[j] == 0
    ensures r.Some? ==> |r.value| < |s| && s[|r.value|] == 0 && r.value == s[..|r.value|]
    ensures r.Some? ==> forall j :: 0 <= j < |r.value| ==> r.value[j] != 0
  {
    match FirstNul(s)
    case None => None
    case Some(i) => Some(s[..i])
  }

  /** `CStr::from_bytes_with_nul`: succeeds exactly when the only NUL of
      `s` is its last byte, and yields the bytes before it. */
  function WithNul(s: seq<u8>): (r: Option<seq<u8>>)
    ensures r.Some? <==> |s| > 0 && s[|s| - 1] == 0 && forall j :: 0 <= j < |s| - 1 ==> s[j] != 0
    ensures r.Some? ==> s == r.value + [0]
  {
    match FirstNul(s)
    case Some(i) => if i == |s| - 1 then Some(s[..i]) else None
    case None => None
  }

  /** The terminator search on `a + [0] + b` stops at the end of `a` when
      `a` has no NUL. */
  lemma UntilNulOfTerminated(a: seq<u8>, b: seq<u8>)
    requires forall j :: 0 <= j < |a| ==> a[j] != 0
    ensures UntilNul(a + [0] + b) == Some(a)
  {
    var s := a + [0] + b;
    assert s[|a|] == 0;
    assert s[..|a|] == a;
  }
}
