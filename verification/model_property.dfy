/** A property of the editable device tree: an owned name and value. */
module ModelProperty {
  import opened Bytes
  import opened Wrappers
  import Utf8
  import FdtProperty

  /** `DeviceTreeProperty`; `DeviceTreeProperty::new` is the constructor. */
  datatype DeviceTreeProperty = DeviceTreeProperty(name: seq<u8>, value: seq<u8>)

  /** `DeviceTreeProperty::set_value`. */
  function SetValue(p: DeviceTreeProperty, value: seq<u8>): (r: DeviceTreeProperty)
    ensures r.name == p.name && r.value == value
  {
    p.(value := value)
  }

  /** `DeviceTreeProperty::as_u32`: exactly four bytes, big-endian. */
  function AsU32(p: DeviceTreeProperty): (r: Result<u32, ()>)
    ensures r.Ok? <==> |p.value| == 4
    ensures r.Ok? ==> ToBe32(r.value) == p.value
  {
    if |p.value| == 4 then
      Be32RoundTrip(p.value, 0);
      assert p.value[0..4] == p.value;
      Ok(Be32At(p.value, 0))
    else Err(())
  }

  /** A value written as a big-endian word reads back as that word. */
  lemma AsU32OfWord(name: seq<u8>, x: u32)
    ensures AsU32(DeviceTreeProperty(name, ToBe32(x))) == Ok(x)
  {
    var r := AsU32(DeviceTreeProperty(name, ToBe32(x)));
    ToBe32Injective(r.value, x);
  }

  /** `s` with every trailing NUL removed. */
  function TrimNul(s: seq<u8>): (r: seq<u8>)
    ensures |r| <= |s| && s == r + Zeros(|s| - |r|)
    ensures |r| == 0 || r[|r| - 1] != 0
  {
    if |s| > 0 && s[|s| - 1] == 0 then
      var t := TrimNul(s[..|s| - 1]);
      assert s == s[..|s| - 1] + [0];
      assert Zeros(|s| - |t|) == Zeros(|s| - 1 - |t|) + [0];
      t
    else
      assert s + Zeros(0) == s;
      s
  }

  /** `DeviceTreeProperty::as_str`: the whole value must be UTF-8; every
      trailing NUL is stripped, and no terminator is required. */
  function AsStr(p: DeviceTreeProperty): (r: Result<seq<u8>, ()>)
    ensures r.Ok? <==> Utf8.Valid(p.value)
    ensures r.Ok? ==> Utf8.Valid(r.value)
    ensures r.Ok? ==> |r.value| <= |p.value| && p.value == r.value + Zeros(|p.value| - |r.value|)
    ensures r.Ok? ==> |r.value| == 0 || r.value[|r.value| - 1] != 0
  {
    if Utf8.Valid(p.value) then
      TrimValid(p.value);
      Ok(TrimNul(p.value))
    else Err(())
  }

  lemma {:induction false} TrimValid(s: seq<u8>)
    requires Utf8.Valid(s)
    ensures Utf8.Valid(TrimNul(s))
    decreases |s|
  {
    if |s| > 0 && s[|s| - 1] == 0 {
      Utf8.DropLastAscii(s);
      TrimValid(s[..|s| - 1]);
    }
  }

  /** A valid string followed by any number of NULs reads back as that
      string. */
  lemma AsStrOfPadded(name: seq<u8>, s: seq<u8>, k: nat)
    requires Utf8.Valid(s) && (|s| == 0 || s[|s| - 1] != 0)
    ensures AsStr(DeviceTreeProperty(name, s + Zeros(k))) == Ok(s)
  {
    var v := s + Zeros(k);
    assert Utf8.Valid(Zeros(k)) by { Utf8.Ascii(Zeros(k)); }
    Utf8.Concat(s, Zeros(k));
    TrimPadded(s, k);
  }

  lemma {:induction false} TrimPadded(s: seq<u8>, k: nat)
    requires |s| == 0 || s[|s| - 1] != 0
    ensures TrimNul(s + Zeros(k)) == s
    decreases k
  {
    if k == 0 {
      assert s + Zeros(0) == s;
    } else {
      var v := s + Zeros(k);
      assert v[..|v| - 1] == s + Zeros(k - 1);
      TrimPadded(s, k - 1);
    }
  }

  /** `TryFrom<FdtProperty>`: a byte-for-byte copy that never fails. */
  function FromFdtProperty(p: FdtProperty.Property): DeviceTreeProperty
  {
    DeviceTreeProperty(p.name, p.value)
  }
}
