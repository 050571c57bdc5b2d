/** Well-formed UTF-8 (Unicode Standard, Table 3-7), the check behind
    Rust's `str::from_utf8` and `CStr::to_str`. Strings of the model are
    byte sequences that satisfy `Valid`. */
module Utf8 {
  import opened Bytes

  predicate IsCont(b: u8) { 0x80 <= b <= 0xBF }

  /** Length of the well-formed scalar encoding at the front of `s`, or 0
      when `s` does not start with one. */
  function LeadLength(s: seq<u8>): (n: nat)
    requires |s| > 0
    ensures n <= 4 && n <= |s|
    ensures s[0] < 0x80 ==> n == 1
  {
    var b := s[0];
    if b <= 0x7F then 1
    else if 0xC2 <= b <= 0xDF then
      if |s| >= 2 && IsCont(s[1]) then 2 else 0
    else if 0xE0 <= b <= 0xEF then
      if |s| >= 3 && IsCont(s[2]) &&
         (if b == 0xE0 then 0xA0 <= s[1] <= 0xBF
          else if b == 0xED then 0x80 <= s[1] <= 0x9F
          else IsCont(s[1]))
      then 3 else 0
    else if 0xF0 <= b <= 0xF4 then
      if |s| >= 4 && IsCont(s[2]) && IsCont(s[3]) &&
         (if b == 0xF0 then 0x90 <= s[1] <= 0xBF
          else if b == 0xF4 then 0x80 <= s[1] <= 0x8F
          else IsCont(s[1]))
      then 4 else 0
    else 0
  }

  /** `s` is a concatenation of well-formed scalar encodings. */
  predicate Valid(s: seq<u8>)
    decreases |s|
  {
    |s| == 0 || (LeadLength(s) > 0 && Valid(s[LeadLength(s)..]))
  }

  /** The leading scalar of `a + b` is the leading scalar of `a`. */
  lemma LeadLengthPrefix(a: seq<u8>, b: seq<u8>)
    requires |a| > 0 && LeadLength(a) > 0
    ensures LeadLength(a + b) == LeadLength(a)
  {
    var s := a + b;
    assert s[0] == a[0];
    if |a| >= 2 { assert s[1] == a[1]; }
    if |a| >= 3 { assert s[2] == a[2]; }
    if |a| >= 4 { assert s[3] == a[3]; }
  }

  /** Concatenating two valid strings gives a valid string. */
  lemma {:induction false} Concat(a: seq<u8>, b: seq<u8>)
    requires Valid(a) && Valid(b)
    ensures Valid(a + b)
    decreases |a|
  {
    if |a| > 0 {
      var n := LeadLength(a);
      LeadLengthPrefix(a, b);
      assert (a + b)[n..] == a[n..] + b;
      Concat(a[n..], b);
    } else {
      assert a + b == b;
    }
  }

  /** Every ASCII string is valid UTF-8. */
  lemma {:induction false} Ascii(s: seq<u8>)
    requires forall i :: 0 <= i < |s| ==> s[i] < 0x80
    ensures Valid(s)
    decreases |s|
  {
    if |s| > 0 {
      assert LeadLength(s) == 1;
      Ascii(s[1..]);
    }
  }

  /** Dropping trailing NUL characters keeps a string valid: NUL is a
      one-byte scalar of its own. */
  lemma {:induction false} DropLastAscii(s: seq<u8>)
    requires |s| > 0 && s[|s| - 1] < 0x80 && Valid(s)
    ensures Valid(s[..|s| - 1])
    decreases |s|
  {
    var n := LeadLength(s);
    if |s| == 1 {
    } else if n == |s| {
      // the last byte would be a continuation byte
      assert false;
    } else {
      var t := s[..|s| - 1];
      assert t[..n] == s[..n];
      assert s[..n] + [] == s[..n];
      LeadLengthPrefix(s[..n], []);
      LeadLengthPrefix(s[..n], s[n..]);
      assert s[..n] + s[n..] == s;
      LeadLengthPrefix(s[..n], t[n..]);
      assert t[..n] + t[n..] == t;
      assert LeadLength(t) == n;
      assert t[n..] == s[n..][..|s[n..]| - 1];
      DropLastAscii(s[n..]);
    }
  }
}
