/**
  Bounds-checked little-endian readers (core/src/bytes.rs) and the byte-buffer
  facts every codec of the project rests on.  A `byte` is an integer below 256,
  so a field is a number and a block a sequence.
*/
module Bytes {

  type byte = x: int | 0 <= x < 0x100
  type u16 = x: int | 0 <= x < 0x1_0000
  type u32 = x: int | 0 <= x < 0x1_0000_0000
  type u64 = x: int | 0 <= x < 0x1_0000_0000_0000_0000

  const U64_LIMIT: nat := 0x1_0000_0000_0000_0000

  function Zeros(n: nat): (r: seq<byte>)
    ensures |r| == n && forall i :: 0 <= i < n ==> r[i] == 0
  {
    seq(n, _ => 0)
  }

  function Min(a: nat, b: nat): nat {
    if a <= b then a else b
  }

  function Max(a: nat, b: nat): nat {
    if a >= b then a else b
  }

  function Take<T>(s: seq<T>, n: nat): seq<T> {
    s[..Min(n, |s|)]
  }

  predicate Distinct<T(==)>(s: seq<T>) {
    forall i, j :: 0 <= i < j < |s| ==> s[i] != s[j]
  }

  // ---- numbers as little-endian bytes ----

  function Pow256(n: nat): (r: nat)
    ensures r > 0
  {
    if n == 0 then 1 else 256 * Pow256(n - 1)
  }

  lemma Pow256Values()
    ensures Pow256(2) == 0x1_0000
    ensures Pow256(4) == 0x1_0000_0000
    ensures Pow256(8) == 0x1_0000_0000_0000_0000
  {
    assert Pow256(1) == 256;
    assert Pow256(2) == 0x1_0000;
    assert Pow256(3) == 0x100_0000;
    assert Pow256(4) == 0x1_0000_0000;
    assert Pow256(5) == 0x100_0000_0000;
    assert Pow256(6) == 0x1_0000_0000_0000;
    assert Pow256(7) == 0x100_0000_0000_0000;
  }

  /** The number whose little-endian digits are `bs`. */
  function LeValue(bs: seq<byte>): (n: nat)
    ensures n < Pow256(|bs|)
  {
    if bs == [] then 0 else bs[0] + 256 * LeValue(bs[1..])
  }

  /** The `width` low-order bytes of `n`, least significant first. */
  function LeBytes(n: nat, width: nat): (bs: seq<byte>)
    ensures |bs| == width
    decreases width, n
  {
    if width == 0 then [] else [n % 256] + LeBytes(n / 256, width - 1)
  }

  lemma {:induction false} LeValueOfBytes(n: nat, width: nat)
    requires n < Pow256(width)
    ensures LeValue(LeBytes(n, width)) == n
    decreases width
  {
    if width > 0 {
      LeValueOfBytes(n / 256, width - 1);
      assert LeBytes(n, width)[1..] == LeBytes(n / 256, width - 1);
    }
  }

  lemma {:induction false} LeBytesOfValue(bs: seq<byte>)
    ensures LeBytes(LeValue(bs), |bs|) == bs
  {
    if bs != [] {
      var rest := LeValue(bs[1..]);
      LeBytesOfValue(bs[1..]);
      assert LeValue(bs) == bs[0] + 256 * rest;
      assert LeValue(bs) % 256 == bs[0] && LeValue(bs) / 256 == rest;
      assert bs == [bs[0]] + bs[1..];
    }
  }

  // ---- readers ----

  /** `width` bytes at `off`, or zeros when the range leaves the buffer. */
  function Field(data: seq<byte>, off: nat, width: nat): (bs: seq<byte>)
    ensures |bs| == width
  {
    if off + width <= |data| then data[off..off + width] else Zeros(width)
  }

  function LeU16(data: seq<byte>, off: nat): u16 {
    Pow256Values();
    LeValue(Field(data, off, 2))
  }

  function LeU32(data: seq<byte>, off: nat): u32 {
    Pow256Values();
    LeValue(Field(data, off, 4))
  }

  function LeU64(data: seq<byte>, off: nat): u64 {
    Pow256Values();
    LeValue(Field(data, off, 8))
  }

  function U8At(data: seq<byte>, off: nat): byte {
    if off < |data| then data[off] else 0
  }

  /** `n` bytes at `off`, each one read as 0 when it lies outside the buffer. */
  function BytesAt(data: seq<byte>, off: nat, n: nat): (bs: seq<byte>)
    ensures |bs| == n
    ensures off + n <= |data| ==> bs == data[off..off + n]
  {
    if n == 0 then [] else BytesAt(data, off, n - 1) + [U8At(data, off + n - 1)]
  }

  /** The readers' shape: a zeroed local array, overwritten only when the range is present. */
  method ReadField(data: seq<byte>, off: nat, width: nat) returns (b: array<byte>)
    ensures fresh(b) && b[..] == Field(data, off, width)
  {
    b := new byte[width](_ => 0);
    if off + width <= |data| {
      for i := 0 to width
        invariant b[..i] == data[off..off + i]
      {
        b[i] := data[off + i];
      }
      assert b[..] == b[..width];
    }
  }

  /** A reader applied inside a known slice of the buffer sees only that slice. */
  lemma FieldInSlice(data: seq<byte>, p: nat, piece: seq<byte>, k: nat, width: nat)
    requires p + |piece| <= |data| && data[p..p + |piece|] == piece
    requires k + width <= |piece|
    ensures Field(data, p + k, width) == piece[k..k + width]
    ensures forall i :: 0 <= i < |piece| ==> U8At(data, p + i) == piece[i]
    ensures BytesAt(data, p + k, width) == piece[k..k + width]
  {
    forall i | 0 <= i < |piece|
      ensures U8At(data, p + i) == piece[i]
    {
      assert data[p..p + |piece|][i] == data[p + i];
    }
    assert data[p + k..p + k + width] == piece[k..k + width];
  }

  /** A slice cut in two. */
  lemma Cut<T>(s: seq<T>, a: nat, b: nat, c: nat)
    requires a <= b <= c <= |s|
    ensures s[a..c] == s[a..b] + s[b..c]
  {
  }

  /** A slice of a slice. */
  lemma Within<T>(s: seq<T>, p: nat, piece: seq<T>, i: nat, j: nat)
    requires p + |piece| <= |s| && s[p..p + |piece|] == piece
    requires i <= j <= |piece|
    ensures s[p + i..p + j] == piece[i..j]
  {
    forall k | i <= k < j
      ensures s[p + k] == piece[k]
    {
      assert s[p..p + |piece|][k] == s[p + k];
    }
  }

  /** A number written inside a known piece of the buffer is the number read back. */
  lemma ReadNumber(data: seq<byte>, p: nat, piece: seq<byte>, k: nat, width: nat, n: nat)
    requires p + |piece| <= |data| && data[p..p + |piece|] == piece
    requires k + width <= |piece| && piece[k..k + width] == LeBytes(n, width)
    requires n < Pow256(width)
    ensures LeValue(Field(data, p + k, width)) == n
  {
    FieldInSlice(data, p, piece, k, width);
    LeValueOfBytes(n, width);
  }

  /** A number read from the buffer is written as the bytes it was read from. */
  lemma WriteNumber(data: seq<byte>, p: nat, width: nat)
    requires p + width <= |data|
    ensures LeBytes(LeValue(Field(data, p, width)), width) == data[p..p + width]
  {
    LeBytesOfValue(Field(data, p, width));
  }

  lemma {:induction false} ZeroBytes(n: nat)
    ensures LeBytes(0, n) == Zeros(n)
    decreases n
  {
    if n > 0 {
      ZeroBytes(n - 1);
      assert Zeros(n) == [0] + Zeros(n - 1);
    }
  }

  /** A number read from the buffer is zero exactly when its bytes are. */
  lemma ZeroField(data: seq<byte>, at: nat, width: nat)
    requires at + width <= |data|
    ensures LeValue(Field(data, at, width)) == 0 <==> data[at..at + width] == Zeros(width)
  {
    hide LeBytes, LeValue, Zeros;
    ZeroBytes(width);
    WriteNumber(data, at, width);
    if data[at..at + width] == Zeros(width) {
      LeValueOfBytes(0, width);
      assert Field(data, at, width) == LeBytes(0, width);
    }
  }

  /** Two buffers read the same number exactly when they hold the same bytes there. */
  lemma SameNumber(a: seq<byte>, b: seq<byte>, at: nat, width: nat)
    requires at + width <= |a| && at + width <= |b|
    ensures LeValue(Field(a, at, width)) == LeValue(Field(b, at, width)) <==> a[at..at + width] == b[at..at + width]
  {
    hide LeBytes, LeValue;
    WriteNumber(a, at, width);
    WriteNumber(b, at, width);
  }

  // ---- overwriting part of a buffer ----

  function Splice(s: seq<byte>, off: nat, bs: seq<byte>): (r: seq<byte>)
    requires off + |bs| <= |s|
    ensures |r| == |s|
  {
    s[..off] + bs + s[off + |bs|..]
  }

  lemma SpliceInside(s: seq<byte>, off: nat, bs: seq<byte>)
    requires off + |bs| <= |s|
    ensures Splice(s, off, bs)[off..off + |bs|] == bs
  {
  }

  lemma SpliceOutside(s: seq<byte>, off: nat, bs: seq<byte>, a: nat, b: nat)
    requires off + |bs| <= |s| && a <= b <= |s|
    requires b <= off || off + |bs| <= a
    ensures Splice(s, off, bs)[a..b] == s[a..b]
  {
  }

  /** A splice seen through a slice that contains it. */
  lemma SpliceWithin(s: seq<byte>, p: nat, n: nat, at: nat, w: seq<byte>)
    requires p + n <= |s| && at + |w| <= n
    ensures Splice(s, p + at, w)[p..p + n] == Splice(s[p..p + n], at, w)
  {
  }

  /** `buf[off..off + len].copy_from_slice(bs)`. */
  method CopyInto(buf: array<byte>, off: nat, bs: seq<byte>)
    requires off + |bs| <= buf.Length
    modifies buf
    ensures buf[..] == Splice(old(buf[..]), off, bs)
  {
    forall i | 0 <= i < |bs| {
      buf[off + i] := bs[i];
    }
  }
}
