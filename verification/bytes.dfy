/** Fixed-width integers and their big-endian byte encodings, as used by
    every multi-byte field of a flattened device tree. */
module Bytes {

  const U32_LIMIT: int := 0x1_0000_0000
  const U64_LIMIT: int := 0x1_0000_0000_0000_0000

  type u8 = x: int | 0 <= x < 0x100
  type u32 = x: int | 0 <= x < 0x1_0000_0000
  type u64 = x: int | 0 <= x < 0x1_0000_0000_0000_0000
  type i32 = x: int | -0x8000_0000 <= x < 0x8000_0000

  /** The big-endian 32-bit word stored at `s[o..o+4]`. */
  function Be32At(s: seq<u8>, o: nat): u32
    requires o + 4 <= |s|
  {
    (s[o] as int) * 0x100_0000 + (s[o + 1] as int) * 0x1_0000 + (s[o + 2] as int) * 0x100 + s[o + 3] as int
  }

  /** The big-endian 64-bit word stored at `s[o..o+8]`. */
  function Be64At(s: seq<u8>, o: nat): u64
    requires o + 8 <= |s|
  {
    Be32At(s, o) * U32_LIMIT + Be32At(s, o + 4)
  }

  /** `u32::to_be_bytes`. */
  function ToBe32(x: u32): (r: seq<u8>)
    ensures |r| == 4
    ensures Be32At(r, 0) == x
  {
    var q1 := x / 0x100;
    var q2 := q1 / 0x100;
    assert x == q1 * 0x100 + x % 0x100;
    assert q1 == q2 * 0x100 + q1 % 0x100;
    assert q2 == (q2 / 0x100) * 0x100 + q2 % 0x100;
    [q2 / 0x100, q2 % 0x100, q1 % 0x100, x % 0x100]
  }

  /** `u64::to_be_bytes`. */
  function ToBe64(x: u64): (r: seq<u8>)
    ensures |r| == 8
    ensures Be64At(r, 0) == x
  {
    var hi := ToBe32(x / U32_LIMIT);
    var lo := ToBe32(x % U32_LIMIT);
    assert Be32At(hi + lo, 0) == Be32At(hi, 0);
    assert Be32At(hi + lo, 4) == Be32At(lo, 0);
    hi + lo
  }

  /** Reading four bytes big-endian and writing the word back gives the
      same four bytes: the encoding is a bijection. */
  lemma Be32RoundTrip(s: seq<u8>, o: nat)
    requires o + 4 <= |s|
    ensures ToBe32(Be32At(s, o)) == s[o..o + 4]
  {
    var b0, b1, b2, b3 := s[o] as int, s[o + 1] as int, s[o + 2] as int, s[o + 3] as int;
    assert Be32At(s, o) == ((b0 * 0x100 + b1) * 0x100 + b2) * 0x100 + b3;
    Div8((b0 * 0x100 + b1) * 0x100 + b2, b3);
    Div8(b0 * 0x100 + b1, b2);
    Div8(b0, b1);
  }

  lemma Div8(a: int, r: int)
    requires 0 <= r < 0x100
    ensures (a * 0x100 + r) / 0x100 == a && (a * 0x100 + r) % 0x100 == r
  {}

  lemma Div32(a: int, r: int)
    requires 0 <= r < U32_LIMIT
    ensures (a * U32_LIMIT + r) / U32_LIMIT == a && (a * U32_LIMIT + r) % U32_LIMIT == r
  {}

  /** The 64-bit encoding is a bijection too. */
  lemma Be64RoundTrip(s: seq<u8>, o: nat)
    requires o + 8 <= |s|
    ensures ToBe64(Be64At(s, o)) == s[o..o + 8]
  {
    Div32(Be32At(s, o), Be32At(s, o + 4));
    Be32RoundTrip(s, o);
    Be32RoundTrip(s, o + 4);
    assert s[o..o + 8] == s[o..o + 4] + s[o + 4..o + 8];
  }

  /** Two distinct words have distinct encodings. */
  lemma ToBe32Injective(x: u32, y: u32)
    requires ToBe32(x) == ToBe32(y)
    ensures x == y
  {
    assert Be32At(ToBe32(x), 0) == Be32At(ToBe32(y), 0);
  }

  /** Reading is unaffected by bytes outside the word. */
  lemma Be32AtSlice(s: seq<u8>, o: nat, t: seq<u8>, p: nat)
    requires o + 4 <= |s| && p + 4 <= |t|
    requires s[o..o + 4] == t[p..p + 4]
    ensures Be32At(s, o) == Be32At(t, p)
  {
    assert s[o] == s[o..o + 4][0] == t[p..p + 4][0] == t[p];
    assert s[o + 1] == s[o..o + 4][1] == t[p..p + 4][1] == t[p + 1];
    assert s[o + 2] == s[o..o + 4][2] == t[p..p + 4][2] == t[p + 2];
    assert s[o + 3] == s[o..o + 4][3] == t[p..p + 4][3] == t[p + 3];
  }

  /** A 64-bit read is unaffected by bytes outside the word. */
  lemma Be64AtSlice(s: seq<u8>, o: nat, t: seq<u8>, p: nat)
    requires o + 8 <= |s| && p + 8 <= |t|
    requires s[o..o + 8] == t[p..p + 8]
    ensures Be64At(s, o) == Be64At(t, p)
  {
    assert s[o..o + 4] == s[o..o + 8][..4] == t[p..p + 8][..4] == t[p..p + 4];
    assert s[o + 4..o + 8] == s[o..o + 8][4..] == t[p..p + 8][4..] == t[p + 4..p + 8];
    Be32AtSlice(s, o, t, p);
    Be32AtSlice(s, o + 4, t, p + 4);
  }

  /** Replacing the last byte of a word changes the word by the difference. */
  lemma Be32AtLastByte(s: seq<u8>, o: nat, b: u8)
    requires o + 4 <= |s|
    ensures Be32At(s[o + 3 := b], o) == Be32At(s, o) - s[o + 3] + b
  {
    var t := s[o + 3 := b];
    assert t[o] == s[o] && t[o + 1] == s[o + 1] && t[o + 2] == s[o + 2] && t[o + 3] == b;
  }

  /** Replacing a byte outside a word leaves the word alone. */
  lemma Be32AtOutside(s: seq<u8>, o: nat, i: nat, b: u8)
    requires o + 4 <= |s| && i < |s| && (i < o || o + 4 <= i)
    ensures Be32At(s[i := b], o) == Be32At(s, o)
  {
    var t := s[i := b];
    assert t[o] == s[o] && t[o + 1] == s[o + 1] && t[o + 2] == s[o + 2] && t[o + 3] == s[o + 3];
  }

  /** A word below 0x100 is all in its last byte. */
  lemma Be32AtSmall(s: seq<u8>, o: nat)
    requires o + 4 <= |s| && Be32At(s, o) < 0x100
    ensures s[o + 3] == Be32At(s, o)
  {
  }

  /** `u32::to_be_bytes` lands where the reader looks for it. */
  lemma Be32AtEncoded(pre: seq<u8>, x: u32, post: seq<u8>)
    ensures Be32At(pre + ToBe32(x) + post, |pre|) == x
  {
    var s := pre + ToBe32(x) + post;
    assert s[|pre|..|pre| + 4] == ToBe32(x)[0..4];
    Be32AtSlice(s, |pre|, ToBe32(x), 0);
  }

  /** `u64::to_be_bytes` lands where the reader looks for it. */
  lemma Be64AtEncoded(pre: seq<u8>, x: u64, post: seq<u8>)
    ensures Be64At(pre + ToBe64(x) + post, |pre|) == x
  {
    var s := pre + ToBe64(x) + post;
    assert s[|pre|..|pre| + 8] == ToBe64(x)[0..8];
    Be64AtSlice(s, |pre|, ToBe64(x), 0);
  }

  /** The words of `ws`, each written big-endian, front to back. */
  function Words(ws: seq<u32>): (r: seq<u8>)
    ensures |r| == 4 * |ws|
  {
    if |ws| == 0 then [] else ToBe32(ws[0]) + Words(ws[1..])
  }

  /** Word `k` of a written run reads back at `4k` bytes into the run,
      whatever surrounds it. */
  lemma {:induction false} WordsAt(pre: seq<u8>, ws: seq<u32>, rest: seq<u8>, k: nat)
    requires k < |ws|
    ensures Be32At(pre + Words(ws) + rest, |pre| + 4 * k) == ws[k]
    decreases k
  {
    var pre' := pre + ToBe32(ws[0]);
    if k == 0 {
      assert pre + Words(ws) + rest == pre' + (Words(ws[1..]) + rest);
      Be32AtEncoded(pre, ws[0], Words(ws[1..]) + rest);
    } else {
      assert pre + Words(ws) + rest == pre' + Words(ws[1..]) + rest;
      WordsAt(pre', ws[1..], rest, k - 1);
    }
  }

  /** A sequence of `n` zero bytes. */
  function Zeros(n: nat): (r: seq<u8>)
    ensures |r| == n
    ensures forall i :: 0 <= i < n ==> r[i] == 0
  {
    if n == 0 then [] else [0] + Zeros(n - 1)
  }
}
