/** Device tree paths: `/`-separated node names below the root. */
module Path {
  import opened Bytes

  const SLASH: u8 := 0x2F

  /** A path is absolute when it starts with '/'. */
  predicate Absolute(path: seq<u8>)
  {
    |path| > 0 && path[0] == SLASH
  }

  predicate IsSegment(s: seq<u8>)
  {
    |s| > 0 && SLASH !in s
  }

  /** Length of the leading run of non-slash bytes. */
  function RunLength(p: seq<u8>): (k: nat)
    ensures k <= |p|
    ensures SLASH !in p[..k]
    ensures k < |p| ==> p[k] == SLASH
    decreases |p|
  {
    if |p| == 0 || p[0] == SLASH then 0
    else
      var k := RunLength(p[1..]);
      assert p[..k + 1] == [p[0]] + p[1..][..k];
      k + 1
  }

  /** `path.split('/').filter(|s| !s.is_empty())`: the non-empty pieces
      between slashes, in order. */
  function Segments(p: seq<u8>): (r: seq<seq<u8>>)
    ensures forall i :: 0 <= i < |r| ==> IsSegment(r[i])
    decreases |p|
  {
    if |p| == 0 then []
    else if p[0] == SLASH then Segments(p[1..])
    else
      var k := RunLength(p);
      [p[..k]] + Segments(p[k..])
  }

  /** The canonical absolute path naming `segs`. */
  function Join(segs: seq<seq<u8>>): (r: seq<u8>)
  {
    if |segs| == 0 then [] else [SLASH] + segs[0] + Join(segs[1..])
  }

  lemma {:induction false} RunLengthOfSegment(s: seq<u8>, rest: seq<u8>)
    requires SLASH !in s
    requires |rest| == 0 || rest[0] == SLASH
    ensures RunLength(s + rest) == |s|
    decreases |s|
  {
    if |s| > 0 {
      assert (s + rest)[1..] == s[1..] + rest;
      RunLengthOfSegment(s[1..], rest);
    }
  }

  /** Splitting a joined path gives back its segments. */
  lemma {:induction false} SegmentsOfJoin(segs: seq<seq<u8>>)
    requires forall i :: 0 <= i < |segs| ==> IsSegment(segs[i])
    ensures Segments(Join(segs)) == segs
    decreases |segs|
  {
    if |segs| > 0 {
      var p := Join(segs);
      var tail := Join(segs[1..]);
      assert p[1..] == segs[0] + tail;
      assert |tail| == 0 || tail[0] == SLASH;
      RunLengthOfSegment(segs[0], tail);
      assert (segs[0] + tail)[..|segs[0]|] == segs[0];
      assert (segs[0] + tail)[|segs[0]|..] == tail;
      SegmentsOfJoin(segs[1..]);
      assert segs == [segs[0]] + segs[1..];
    }
  }

  /** A path made of slashes alone, however many, has no segments and so
      names the root. */
  lemma {:induction false} SlashesOnly(p: seq<u8>)
    requires forall i :: 0 <= i < |p| ==> p[i] == SLASH
    ensures Segments(p) == []
    decreases |p|
  {
    if |p| > 0 {
      SlashesOnly(p[1..]);
    }
  }
}
