/** Byte-level vocabulary shared by the audio pipeline: the integer widths of the
    C# code, little-endian field encodings, and the two array primitives of the
    .NET runtime that the pipeline uses (Array.Copy and Array.Fill). */
module Bytes {

  type byte = x: int | 0 <= x < 0x100
  type uint16 = x: int | 0 <= x < 0x1_0000
  type uint32 = x: int | 0 <= x < 0x1_0000_0000

  function Min(a: int, b: int): int { if a <= b then a else b }

  datatype Option<T> = None | Some(value: T)

  /** What a freshly allocated `byte[]`, or `Array.Fill(a, 0, ...)`, holds. */
  function Zeros(n: nat): (z: seq<byte>)
    ensures |z| == n
    ensures forall i :: 0 <= i < n ==> z[i] == 0
  {
    seq(n, _ => 0)
  }

  /** `(byte)(x & 0xFF), (byte)((x >> 8) & 0xFF)`: a ushort, low byte first. */
  function Le16(x: uint16): seq<byte> {
    [x % 0x100, (x / 0x100) % 0x100]
  }

  /** `(byte)x, (byte)(x >> 8), (byte)(x >> 16), (byte)(x >> 24)` for a uint. */
  function Le32(x: uint32): seq<byte> {
    [x % 0x100, (x / 0x100) % 0x100, (x / 0x1_0000) % 0x100, (x / 0x100_0000) % 0x100]
  }

  /** The value a receiver reads back from two little-endian bytes. */
  function ReadLe16(s: seq<byte>, at: nat): uint16
    requires at + 2 <= |s|
  {
    s[at] as int + 0x100 * (s[at + 1] as int)
  }

  /** The value a receiver reads back from four little-endian bytes. */
  function ReadLe32(s: seq<byte>, at: nat): uint32
    requires at + 4 <= |s|
  {
    s[at] as int + 0x100 * (s[at + 1] as int) + 0x1_0000 * (s[at + 2] as int) + 0x100_0000 * (s[at + 3] as int)
  }

  lemma Le16RoundTrip(x: uint16)
    ensures |Le16(x)| == 2 && ReadLe16(Le16(x), 0) == x
  {
  }

  lemma Le32RoundTrip(x: uint32)
    ensures |Le32(x)| == 4 && ReadLe32(Le32(x), 0) == x
  {
    var lo, hi := x % 0x1_0000, x / 0x1_0000;
    var y := x / 0x100;
    assert y == lo / 0x100 + 0x100 * hi;
    assert y % 0x100 == (lo / 0x100) % 0x100;
    assert x / 0x100_0000 == hi / 0x100;
    Le16RoundTrip(lo);
    Le16RoundTrip(hi);
  }

  /** Sequence algebra stated once over plain values, so that callers with
      large terms need not rediscover it. */
  lemma TakeDrop(s: seq<byte>, n: nat)
    requires n <= |s|
    ensures s[..n] + s[n..] == s
  {
  }

  lemma ConcatAssoc(x: seq<byte>, y: seq<byte>, z: seq<byte>)
    ensures (x + y) + z == x + (y + z)
  {
  }

  /** `s` with `piece` written over it starting at index `at`: the effect of
      any in-place copy into an array. */
  function Overlay(s: seq<byte>, at: nat, piece: seq<byte>): (r: seq<byte>)
    requires at + |piece| <= |s|
    ensures |r| == |s|
  {
    seq(|s|, i requires 0 <= i < |s| => if at <= i < at + |piece| then piece[i - at] else s[i])
  }

  lemma OverlayAt(s: seq<byte>, at: nat, piece: seq<byte>)
    requires at + |piece| <= |s|
    ensures forall i :: 0 <= i < |s| ==> Overlay(s, at, piece)[i] == if at <= i < at + |piece| then piece[i - at] else s[i]
  {
  }

  /** A write at the front of `s` can be read back from the front. */
  lemma OverlayFront(s: seq<byte>, piece: seq<byte>)
    requires |piece| <= |s|
    ensures Overlay(s, 0, piece)[..|piece|] == piece
    ensures |piece| == |s| ==> Overlay(s, 0, piece) == piece
    ensures Overlay(s, 0, piece) == piece + s[|piece|..]
  {
    OverlayAt(s, 0, piece);
    assert forall i :: 0 <= i < |piece| ==> Overlay(s, 0, piece)[..|piece|][i] == piece[i];
    assert forall i :: 0 <= i < |s| ==> Overlay(s, 0, piece)[i] == (piece + s[|piece|..])[i];
  }

  /** Two adjacent writes are one write of their concatenation. */
  lemma OverlayAdjacent(s: seq<byte>, at: nat, p: seq<byte>, q: seq<byte>)
    requires at + |p| + |q| <= |s|
    ensures Overlay(Overlay(s, at, p), at + |p|, q) == Overlay(s, at, p + q)
  {
    var l, r := Overlay(Overlay(s, at, p), at + |p|, q), Overlay(s, at, p + q);
    OverlayAt(s, at, p);
    OverlayAt(Overlay(s, at, p), at + |p|, q);
    OverlayAt(s, at, p + q);
    assert forall i :: 0 <= i < |s| ==> l[i] == r[i];
  }

  /** Models `Array.Copy(src, srcIndex, dst, dstIndex, length)` for distinct arrays. */
  method ArrayCopy(src: array<byte>, srcIndex: nat, dst: array<byte>, dstIndex: nat, length: nat)
    requires src != dst
    requires srcIndex + length <= src.Length && dstIndex + length <= dst.Length
    modifies dst
    ensures src[..] == old(src[..])
    ensures dst[..] == Overlay(old(dst[..]), dstIndex, old(src[..])[srcIndex..srcIndex + length])
  {
    StoreBytes(dst, dstIndex, src[srcIndex..srcIndex + length]);
  }

  /** Models `Array.Fill(dst, 0, startIndex, count)`. */
  method ArrayFillZero(dst: array<byte>, startIndex: nat, count: nat)
    requires startIndex + count <= dst.Length
    modifies dst
    ensures dst[..] == Overlay(old(dst[..]), startIndex, Zeros(count))
  {
    StoreBytes(dst, startIndex, Zeros(count));
  }

  /** What a native routine does when it stores `bytes` through a pointer into `dst` at `at`. */
  method StoreBytes(dst: array<byte>, at: nat, bytes: seq<byte>)
    requires at + |bytes| <= dst.Length
    modifies dst
    ensures dst[..] == Overlay(old(dst[..]), at, bytes)
  {
    var i := 0;
    while i < |bytes|
      invariant 0 <= i <= |bytes|
      invariant dst[..] == Overlay(old(dst[..]), at, bytes[..i])
    {
      dst[at + i] := bytes[i];
      i := i + 1;
    }
  }
}
