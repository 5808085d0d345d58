/**
 * The pixel layout of `render`: the three colour planes the backend
 * returns, already clamped and quantised to bytes, interleaved into one
 * RGB buffer.
 */
module Pixels {
  import opened Bytes

  /** The interleaved RGB buffer: pixel `i` occupies slots `3i`, `3i+1`, `3i+2`. */
  function Interleaved(r: seq<Byte>, g: seq<Byte>, b: seq<Byte>): (px: seq<Byte>)
    requires |r| == |g| == |b|
    ensures |px| == 3 * |r|
  {
    if r == [] then []
    else Interleaved(r[..|r| - 1], g[..|g| - 1], b[..|b| - 1]) + [r[|r| - 1], g[|g| - 1], b[|b| - 1]]
  }

  /** Channel `c` of pixel `i` sits at `i*3 + c`. */
  lemma {:induction false} InterleavedAt(r: seq<Byte>, g: seq<Byte>, b: seq<Byte>, i: nat)
    requires |r| == |g| == |b| && i < |r|
    ensures Interleaved(r, g, b)[i * 3] == r[i]
    ensures Interleaved(r, g, b)[i * 3 + 1] == g[i]
    ensures Interleaved(r, g, b)[i * 3 + 2] == b[i]
  {
    var n := |r|;
    if i < n - 1 {
      InterleavedAt(r[..n - 1], g[..n - 1], b[..n - 1], i);
    }
  }

  /** Channel `c` of an interleaved buffer of `n` pixels. */
  function Plane(px: seq<Byte>, n: nat, c: nat): (plane: seq<Byte>)
    requires 3 * n <= |px| && c < 3
    ensures |plane| == n
  {
    seq(n, i requires 0 <= i < n => px[i * 3 + c])
  }

  lemma PlaneFromLayout(px: seq<Byte>, n: nat, c: nat, ch: seq<Byte>)
    requires 3 * n <= |px| && c < 3 && |ch| == n
    requires forall i :: 0 <= i < n ==> px[i * 3 + c] == ch[i]
    ensures Plane(px, n, c) == ch
  {
  }

  function Channel(r: seq<Byte>, g: seq<Byte>, b: seq<Byte>, c: nat): seq<Byte> {
    if c == 0 then r else if c == 1 then g else b
  }

  lemma ChannelAt(r: seq<Byte>, g: seq<Byte>, b: seq<Byte>, c: nat, i: nat)
    requires |r| == |g| == |b| && c < 3 && i < |r|
    ensures Interleaved(r, g, b)[i * 3 + c] == Channel(r, g, b, c)[i]
  {
    InterleavedAt(r, g, b, i);
    if c == 0 {
      assert i * 3 + c == i * 3;
    }
  }

  /** Each colour plane can be read back out of the interleaved buffer. */
  lemma PlaneOfInterleaved(r: seq<Byte>, g: seq<Byte>, b: seq<Byte>, c: nat)
    requires |r| == |g| == |b| && c < 3
    ensures Plane(Interleaved(r, g, b), |r|, c) == Channel(r, g, b, c)
  {
    var px := Interleaved(r, g, b);
    var ch := Channel(r, g, b, c);
    forall i | 0 <= i < |r| ensures px[i * 3 + c] == ch[i] {
      ChannelAt(r, g, b, c, i);
    }
    PlaneFromLayout(px, |r|, c, ch);
  }

  /** The pixel loop of `render`, with the clamped and quantised channel values given. */
  method InterleavePixels(r: seq<Byte>, g: seq<Byte>, b: seq<Byte>) returns (pixels: array<Byte>)
    requires |r| == |g| == |b|
    ensures pixels[..] == Interleaved(r, g, b)
  {
    var n := |r|;
    pixels := new Byte[n * 3];
    for i := 0 to n
      invariant pixels[..i * 3] == Interleaved(r[..i], g[..i], b[..i])
    {
      pixels[i * 3 + 0] := r[i];
      pixels[i * 3 + 1] := g[i];
      pixels[i * 3 + 2] := b[i];
      assert r[..i + 1][..i] == r[..i] && g[..i + 1][..i] == g[..i] && b[..i + 1][..i] == b[..i];
      assert pixels[..(i + 1) * 3] == pixels[..i * 3] + [r[i], g[i], b[i]];
    }
    assert r[..n] == r && g[..n] == g && b[..n] == b;
    assert pixels[..] == pixels[..n * 3];
  }
}
