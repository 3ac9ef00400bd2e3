/**
  CRC32c (section 12.1 of RFC 3720) in its reflected bitwise form
  (core/tests/node.rs) and the non-fatal block check built on it
  (core/src/crc.rs).
*/
module Crc {
  import opened Wrappers
  import opened Bytes
  import opened Words

  const CSUM_SIZE: nat := 32
  const POLYNOMIAL: bv32 := 0x82F6_3B78
  const ALL_ONES: bv32 := 0xFFFF_FFFF

  datatype CsumType = Crc32c | Xxhash64 | Sha256 | Blake2 | Unknown(code: u16)

  function CsumTypeOf(code: u16): CsumType {
    if code == 0 then Crc32c
    else if code == 1 then Xxhash64
    else if code == 2 then Sha256
    else if code == 3 then Blake2
    else Unknown(code)
  }

  /** One shift of the register. */
  function Step(c: bv32): bv32 {
    if c & 1 == 1 then (c >> 1) ^ POLYNOMIAL else c >> 1
  }

  function Steps(c: bv32, n: nat): bv32
    decreases n
  {
    if n == 0 then c else Step(Steps(c, n - 1))
  }

  /** The register with a byte mixed into its low end. */
  function Mix(c: bv32, b: byte): bv32 {
    c ^ Word(b)
  }

  function AbsorbByte(c: bv32, b: byte): bv32 {
    Steps(Mix(c, b), 8)
  }

  /** The register after absorbing `bs`, starting from `c`. */
  function Absorb(c: bv32, bs: seq<byte>): bv32
    decreases |bs|
  {
    if bs == [] then c else Absorb(AbsorbByte(c, bs[0]), bs[1..])
  }

  function Crc32cOf(bs: seq<byte>): bv32 {
    Absorb(ALL_ONES, bs) ^ ALL_ONES
  }

  method Crc32cIscsi(buf: seq<byte>) returns (r: bv32)
    ensures r == Crc32cOf(buf)
  {
    var crc := ALL_ONES;
    for i := 0 to |buf|
      invariant Absorb(crc, buf[i..]) == Absorb(ALL_ONES, buf)
    {
      assert buf[i..][1..] == buf[i + 1..];
      ghost var before := crc;
      crc := crc ^ Word(buf[i]);
      for k := 0 to 8
        invariant crc == Steps(before ^ Word(buf[i]), k)
      {
        crc := Step(crc);
      }
      assert crc == AbsorbByte(before, buf[i]);
    }
    r := crc ^ ALL_ONES;
  }

  /** `u32::to_le_bytes`. */
  function DigestBytes(c: bv32): (bs: seq<byte>)
    ensures |bs| == 4
  {
    LeBytes(c as int, 4)
  }

  function VerifyCrc32c(block: seq<byte>, covered: nat): bool {
    if |block| < 4 then false
    else if covered <= CSUM_SIZE then false
    else if covered > |block| then false
    else DigestBytes(Crc32cOf(block[CSUM_SIZE..covered])) == block[..4]
  }

  function CrcStatus(kind: CsumType, block: seq<byte>, covered: nat): Option<bool> {
    if kind == Crc32c then Some(VerifyCrc32c(block, covered)) else None
  }

  // ---- the register as a linear shift register ----

  /** `z` is the exclusive or of `x` and `y`. */
  predicate IsXor(z: bv32, x: bv32, y: bv32) {
    z == x ^ y
  }

  lemma StepInjective(a: bv32, b: bv32)
    requires Step(a) == Step(b)
    ensures a == b
  {
  }

  lemma {:induction false} StepsInjective(a: bv32, b: bv32, n: nat)
    requires Steps(a, n) == Steps(b, n)
    ensures a == b
    decreases n
  {
    if n > 0 {
      StepInjective(Steps(a, n - 1), Steps(b, n - 1));
      StepsInjective(a, b, n - 1);
    }
  }

  lemma HalfXor(x: bv32, y: bv32)
    ensures (x ^ y) >> 1 == (x >> 1) ^ (y >> 1)
  {
  }

  lemma LowBitXor(x: bv32, y: bv32)
    ensures ((x ^ y) & 1 == 1) <==> ((x & 1 == 1) != (y & 1 == 1))
  {
  }

  lemma XorShuffle(a: bv32, b: bv32, p: bv32)
    ensures (a ^ p) ^ (b ^ p) == a ^ b
    ensures (a ^ p) ^ b == (a ^ b) ^ p
    ensures a ^ (b ^ p) == (a ^ b) ^ p
  {
  }

  lemma StepXor(x: bv32, y: bv32)
    ensures Step(x ^ y) == Step(x) ^ Step(y)
  {
    HalfXor(x, y);
    LowBitXor(x, y);
    XorShuffle(x >> 1, y >> 1, POLYNOMIAL);
  }

  lemma StepLinear(x: bv32, y: bv32, z: bv32)
    requires IsXor(z, x, y)
    ensures IsXor(Step(z), Step(x), Step(y))
  {
    StepXor(x, y);
  }

  lemma {:induction false} StepsLinear(x: bv32, y: bv32, z: bv32, n: nat)
    requires IsXor(z, x, y)
    ensures IsXor(Steps(z, n), Steps(x, n), Steps(y, n))
    decreases n
  {
    if n > 0 {
      StepsLinear(x, y, z, n - 1);
      StepLinear(Steps(x, n - 1), Steps(y, n - 1), Steps(z, n - 1));
    }
  }

  lemma UnStep(u: bv32, v: bv32)
    requires Step(u) == v && v < 0x8000_0000
    ensures u == v << 1
  {
  }

  function Doubled(v: bv32, n: nat): bv32
    decreases n
  {
    if n == 0 then v else Doubled(v << 1, n - 1)
  }

  /** `v` can be doubled `n` times without losing its top bit. */
  predicate Room(v: bv32, n: nat)
    decreases n
  {
    n == 0 || (v < 0x8000_0000 && Room(v << 1, n - 1))
  }

  /** Shifts that never meet a set top bit only moved the register right. */
  lemma {:induction false} UnSteps(u: bv32, n: nat, v: bv32)
    requires Steps(u, n) == v && Room(v, n)
    ensures u == Doubled(v, n)
    decreases n
  {
    if n > 0 {
      UnStep(Steps(u, n - 1), v);
      UnSteps(u, n - 1, v << 1);
    }
  }

  lemma DoublingSteps(v: bv32)
    ensures (v << 1) << 1 == v << 2 && (v << 2) << 1 == v << 3 && (v << 3) << 1 == v << 4
    ensures (v << 4) << 1 == v << 5 && (v << 5) << 1 == v << 6 && (v << 6) << 1 == v << 7
    ensures (v << 7) << 1 == v << 8
  {
  }

  lemma DoublingBounds(v: bv32)
    requires v < 0x100_0000
    ensures v << 1 < 0x200_0000 && v << 2 < 0x400_0000 && v << 3 < 0x800_0000 && v << 4 < 0x1000_0000
    ensures v << 5 < 0x2000_0000 && v << 6 < 0x4000_0000 && v << 7 < 0x8000_0000
  {
  }

  lemma DoubledByte(v: bv32)
    ensures Doubled(v, 8) == v << 8
  {
    DoublingSteps(v);
    assert Doubled(v, 8) == Doubled(v << 1, 7);
    assert Doubled(v << 1, 7) == Doubled(v << 2, 6);
    assert Doubled(v << 2, 6) == Doubled(v << 3, 5);
    assert Doubled(v << 3, 5) == Doubled(v << 4, 4);
    assert Doubled(v << 4, 4) == Doubled(v << 5, 3);
    assert Doubled(v << 5, 3) == Doubled(v << 6, 2);
    assert Doubled(v << 6, 2) == Doubled(v << 7, 1);
    assert Doubled(v << 7, 1) == Doubled(v << 8, 0);
  }

  lemma RoomForByte(v: bv32)
    requires v < 0x100_0000
    ensures Room(v, 8)
  {
    DoublingSteps(v);
    DoublingBounds(v);
    assert Room(v << 8, 0);
    assert Room(v << 7, 1);
    assert Room(v << 6, 2);
    assert Room(v << 5, 3);
    assert Room(v << 4, 4);
    assert Room(v << 3, 5);
    assert Room(v << 2, 6);
    assert Room(v << 1, 7);
  }

  lemma XorCancels(a: bv32, b: bv32, x: bv32, y: bv32, u: bv32, v: bv32, g: bv32, d: bv32, j: bv32)
    requires u == a ^ x && v == b ^ y && g == x ^ y && d == u ^ v && j == d ^ g
    ensures j == a ^ b
  {
  }

  lemma XorRegroup(a: bv32, b: bv32, x: bv32, y: bv32, u: bv32, v: bv32, g: bv32, d: bv32, j: bv32)
    requires IsXor(u, a, x) && IsXor(v, b, y) && IsXor(g, x, y) && IsXor(d, u, v) && IsXor(j, d, g)
    ensures IsXor(j, a, b)
  {
    XorCancels(a, b, x, y, u, v, g, d, j);
  }

  function ByteGap(b: byte, b': byte): bv32 {
    Word(b) ^ Word(b')
  }

  function Join(high: bv32, low: bv32): bv32 {
    Doubled(high, 8) ^ low
  }

  /** The difference of two windows, first byte in the low bits. */
  function Gap(w: seq<byte>, w': seq<byte>): bv32
    requires |w| == |w'|
    decreases |w|
  {
    if w == [] then 0 else Join(Gap(w[1..], w'[1..]), ByteGap(w[0], w'[0]))
  }

  lemma SameXor(d: bv32, e: bv32, a: bv32, b: bv32)
    requires IsXor(d, a, b) && IsXor(e, a, b)
    ensures d == e
  {
  }

  lemma BeforeShifts(u: bv32, u': bv32, d: bv32)
    requires IsXor(d, Steps(u, 8), Steps(u', 8)) && Room(d, 8)
    ensures IsXor(Doubled(d, 8), u, u')
  {
    var e := u ^ u';
    StepsLinear(u, u', e, 8);
    SameXor(d, Steps(e, 8), Steps(u, 8), Steps(u', 8));
    UnSteps(e, 8, d);
  }

  lemma MixIs(s: bv32, b: byte)
    ensures IsXor(Mix(s, b), s, Word(b))
  {
    hide Word;
  }

  lemma ByteGapIs(b: byte, b': byte)
    ensures IsXor(ByteGap(b, b'), Word(b), Word(b'))
  {
    hide Word;
  }

  lemma JoinIs(d: bv32, g: bv32)
    ensures IsXor(Join(d, g), Doubled(d, 8), g)
  {
    hide Doubled;
  }

  lemma JoinXor(s: bv32, s': bv32, b: byte, b': byte, d: bv32)
    requires IsXor(Doubled(d, 8), Mix(s, b), Mix(s', b'))
    ensures IsXor(Join(d, ByteGap(b, b')), s, s')
  {
    hide Doubled, Word, Mix, ByteGap, Join, IsXor;
    var g := ByteGap(b, b');
    MixIs(s, b);
    MixIs(s', b');
    ByteGapIs(b, b');
    JoinIs(d, g);
    XorRegroup(s, s', Word(b), Word(b'), Mix(s, b), Mix(s', b'), g, Doubled(d, 8), Join(d, g));
  }

  /** What the registers differed by before one byte, from what they differ by after it. */
  lemma BeforeByte(s: bv32, s': bv32, b: byte, b': byte, d: bv32)
    requires IsXor(d, AbsorbByte(s, b), AbsorbByte(s', b')) && Room(d, 8)
    ensures IsXor(Join(d, ByteGap(b, b')), s, s')
  {
    hide Steps, Room, Doubled, Join, IsXor, Mix, ByteGap;
    BeforeShifts(Mix(s, b), Mix(s', b'), d);
    JoinXor(s, s', b, b', d);
  }

  predicate FitsBytes(g: bv32, n: nat) {
    if n == 0 then g == 0
    else if n == 1 then g < 0x100
    else if n == 2 then g < 0x1_0000
    else if n == 3 then g < 0x100_0000
    else true
  }

  lemma ShiftFits(g: bv32, e: bv32, n: nat)
    requires FitsBytes(g, n) && e < 0x100
    ensures FitsBytes((g << 8) ^ e, n + 1)
  {
  }

  lemma ByteGapSmall(a: byte, b: byte)
    ensures ByteGap(a, b) < 0x100
  {
    WordSmall(a);
    WordSmall(b);
    XorSmall(Word(a), Word(b));
  }

  lemma {:induction false} GapFits(w: seq<byte>, w': seq<byte>)
    requires |w| == |w'|
    ensures FitsBytes(Gap(w, w'), |w|)
    decreases |w|
  {
    if w != [] {
      GapFits(w[1..], w'[1..]);
      ByteGapSmall(w[0], w'[0]);
      DoubledByte(Gap(w[1..], w'[1..]));
      ShiftFits(Gap(w[1..], w'[1..]), ByteGap(w[0], w'[0]), |w| - 1);
    }
  }

  lemma SplitZero(g: bv32, e: bv32)
    requires (g << 8) ^ e == 0 && g < 0x100_0000 && e < 0x100
    ensures g == 0 && e == 0
  {
  }

  lemma XorZero(a: bv32, b: bv32)
    requires a ^ b == 0
    ensures a == b
  {
  }

  lemma FitsBound(g: bv32, n: nat)
    requires FitsBytes(g, n) && n <= 3
    ensures g < 0x100_0000
  {
  }

  lemma ByteGapZero(b: byte, b': byte)
    requires ByteGap(b, b') == 0
    ensures b == b'
  {
    XorZero(Word(b), Word(b'));
    WordInjective(b, b');
  }

  lemma JoinZero(g: bv32, e: bv32)
    requires Join(g, e) == 0 && g < 0x100_0000 && e < 0x100
    ensures g == 0 && e == 0
  {
    DoubledByte(g);
    SplitZero(g, e);
  }

  lemma {:induction false} GapZero(w: seq<byte>, w': seq<byte>)
    requires |w| == |w'| <= 4 && Gap(w, w') == 0
    ensures w == w'
    decreases |w|
  {
    hide Join, ByteGap;
    if w != [] {
      var g, e := Gap(w[1..], w'[1..]), ByteGap(w[0], w'[0]);
      GapFits(w[1..], w'[1..]);
      FitsBound(g, |w| - 1);
      ByteGapSmall(w[0], w'[0]);
      JoinZero(g, e);
      ByteGapZero(w[0], w'[0]);
      GapZero(w[1..], w'[1..]);
      assert w == [w[0]] + w[1..] && w' == [w'[0]] + w'[1..];
    }
  }

  /** Registers that meet after at most four bytes differed by exactly what the bytes differ by. */
  lemma {:induction false} Unwind(s: bv32, s': bv32, w: seq<byte>, w': seq<byte>)
    requires |w| == |w'| <= 4 && Absorb(s, w) == Absorb(s', w')
    ensures IsXor(Gap(w, w'), s, s')
    decreases |w|
  {
    if w != [] {
      var t, t' := AbsorbByte(s, w[0]), AbsorbByte(s', w'[0]);
      Unwind(t, t', w[1..], w'[1..]);
      GapFits(w[1..], w'[1..]);
      FitsBound(Gap(w[1..], w'[1..]), |w| - 1);
      RoomForByte(Gap(w[1..], w'[1..]));
      BeforeByte(s, s', w[0], w'[0], Gap(w[1..], w'[1..]));
    }
  }

  lemma {:induction false} AbsorbSplit(c: bv32, a: seq<byte>, b: seq<byte>)
    ensures Absorb(c, a + b) == Absorb(Absorb(c, a), b)
    decreases |a|
  {
    hide AbsorbByte;
    if a == [] {
      assert a + b == b;
    } else {
      AbsorbSplit(AbsorbByte(c, a[0]), a[1..], b);
      assert (a + b)[1..] == a[1..] + b;
    }
  }

  lemma {:induction false} AbsorbInjective(c: bv32, c': bv32, bs: seq<byte>)
    requires Absorb(c, bs) == Absorb(c', bs)
    ensures c == c'
    decreases |bs|
  {
    if bs != [] {
      AbsorbInjective(AbsorbByte(c, bs[0]), AbsorbByte(c', bs[0]), bs[1..]);
      StepsInjective(c ^ Word(bs[0]), c' ^ Word(bs[0]), 8);
      assert (c ^ Word(bs[0])) ^ Word(bs[0]) == c;
      assert (c' ^ Word(bs[0])) ^ Word(bs[0]) == c';
    }
  }

  lemma XorOnesInjective(a: bv32, b: bv32)
    requires a ^ ALL_ONES == b ^ ALL_ONES
    ensures a == b
  {
  }

  /** Equal checksums mean the registers met right behind the window. */
  lemma MeetBehindPrefix(pre: seq<byte>, w: seq<byte>, w': seq<byte>, post: seq<byte>)
    requires Crc32cOf(pre + w + post) == Crc32cOf(pre + w' + post)
    ensures Absorb(Absorb(ALL_ONES, pre), w) == Absorb(Absorb(ALL_ONES, pre), w')
  {
    hide Absorb;
    var s := Absorb(ALL_ONES, pre);
    AbsorbSplit(ALL_ONES, pre + w, post);
    AbsorbSplit(ALL_ONES, pre + w', post);
    AbsorbSplit(ALL_ONES, pre, w);
    AbsorbSplit(ALL_ONES, pre, w');
    XorOnesInjective(Absorb(Absorb(s, w), post), Absorb(Absorb(s, w'), post));
    AbsorbInjective(Absorb(s, w), Absorb(s, w'), post);
  }

  /** Any change confined to four consecutive bytes changes the checksum. */
  lemma BurstDetected(pre: seq<byte>, w: seq<byte>, w': seq<byte>, post: seq<byte>)
    requires |w| == |w'| <= 4 && w != w'
    ensures Crc32cOf(pre + w + post) != Crc32cOf(pre + w' + post)
  {
    if Crc32cOf(pre + w + post) == Crc32cOf(pre + w' + post) {
      var s := Absorb(ALL_ONES, pre);
      MeetBehindPrefix(pre, w, w', post);
      Unwind(s, s, w, w');
      assert s ^ s == 0;
      GapZero(w, w');
    }
  }

  lemma WordNumber(a: bv32)
    ensures (a as int) as bv32 == a
  {
  }

  lemma DigestValue(a: bv32)
    ensures LeValue(DigestBytes(a)) == a as int
  {
    Pow256Values();
    LeValueOfBytes(a as int, 4);
  }

  lemma DigestInjective(a: bv32, b: bv32)
    requires DigestBytes(a) == DigestBytes(b)
    ensures a == b
  {
    DigestValue(a);
    DigestValue(b);
    WordNumber(a);
    WordNumber(b);
  }

  // ---- tamper detection and resealing ----

  /** A verified block rewritten in up to four consecutive covered bytes no longer verifies. */
  lemma CoveredBurstFails(block: seq<byte>, covered: nat, at: nat, w: seq<byte>)
    requires VerifyCrc32c(block, covered)
    requires CSUM_SIZE <= at && at + |w| <= covered && |w| <= 4
    requires block[at..at + |w|] != w
    ensures !VerifyCrc32c(Splice(block, at, w), covered)
  {
    hide Crc32cOf, DigestBytes;
    var pre, before, post := block[CSUM_SIZE..at], block[at..at + |w|], block[at + |w|..covered];
    assert block[CSUM_SIZE..covered] == pre + before + post;
    var changed := Splice(block, at, w);
    assert changed[CSUM_SIZE..covered] == pre + w + post;
    assert changed[..4] == block[..4];
    BurstDetected(pre, before, w, post);
    if VerifyCrc32c(changed, covered) {
      DigestInjective(Crc32cOf(pre + before + post), Crc32cOf(pre + w + post));
    }
  }

  /** Byte `k` of the block is changed by writing `w` at `at`. */
  predicate Changed(block: seq<byte>, at: nat, w: seq<byte>, k: nat)
    requires at + |w| <= |block|
  {
    at <= k < at + |w| && block[k] != w[k - at]
  }

  /** The checksum depends on byte `k`: the stored digest or the covered range. */
  predicate Guarded(covered: nat, k: nat) {
    k < 4 || CSUM_SIZE <= k < covered
  }

  lemma SliceChanged(block: seq<byte>, at: nat, w: seq<byte>, a: nat, b: nat)
    requires at + |w| <= |block| && a <= b <= |block|
    ensures Splice(block, at, w)[a..b] == block[a..b] <==> forall k :: a <= k < b ==> !Changed(block, at, w, k)
  {
    var changed := Splice(block, at, w);
    assert forall k :: 0 <= k < |block| ==> (changed[k] != block[k] <==> Changed(block, at, w, k));
    if changed[a..b] == block[a..b] {
      forall k | a <= k < b
        ensures !Changed(block, at, w, k)
      {
        assert changed[a..b][k - a] == block[a..b][k - a];
      }
    }
  }

  lemma SameVerdict(a: seq<byte>, b: seq<byte>, covered: nat)
    requires |a| == |b| && CSUM_SIZE < covered <= |a|
    requires a[..4] == b[..4] && a[CSUM_SIZE..covered] == b[CSUM_SIZE..covered]
    ensures VerifyCrc32c(a, covered) == VerifyCrc32c(b, covered)
  {
    hide Crc32cOf, DigestBytes;
  }

  lemma DigestChanged(a: seq<byte>, b: seq<byte>, covered: nat)
    requires |a| == |b| && VerifyCrc32c(a, covered)
    requires a[..4] != b[..4] && a[CSUM_SIZE..covered] == b[CSUM_SIZE..covered]
    ensures !VerifyCrc32c(b, covered)
  {
    hide Crc32cOf, DigestBytes;
  }

  lemma CoveredInside(block: seq<byte>, covered: nat)
    requires VerifyCrc32c(block, covered)
    ensures CSUM_SIZE < covered <= |block|
  {
    hide Crc32cOf;
  }

  /** In the covered range a burst and its covered part write the same bytes. */
  lemma PartOfSplice(block: seq<byte>, at: nat, w: seq<byte>, lo: nat, hi: nat, covered: nat)
    requires at + |w| <= |block| && CSUM_SIZE < covered <= |block|
    requires lo == Max(at, CSUM_SIZE) && hi == Min(at + |w|, covered) && lo <= hi
    ensures Splice(block, at, w)[CSUM_SIZE..covered] == Splice(block, lo, w[lo - at..hi - at])[CSUM_SIZE..covered]
    ensures Splice(block, lo, w[lo - at..hi - at])[..4] == block[..4]
  {
    var whole, cut := Splice(block, at, w), Splice(block, lo, w[lo - at..hi - at]);
    forall i | CSUM_SIZE <= i < covered
      ensures whole[i] == cut[i]
    {
    }
  }

  /** The covered part of a burst changes the verdict. */
  lemma CoveredPartFails(block: seq<byte>, covered: nat, at: nat, w: seq<byte>, k: nat)
    requires VerifyCrc32c(block, covered)
    requires at + |w| <= |block| && |w| <= 4 && CSUM_SIZE <= k < covered && Changed(block, at, w, k)
    requires Splice(block, at, w)[..4] == block[..4]
    ensures !VerifyCrc32c(Splice(block, at, w), covered)
  {
    hide VerifyCrc32c, Splice;
    CoveredInside(block, covered);
    var lo, hi := Max(at, CSUM_SIZE), Min(at + |w|, covered);
    var part := w[lo - at..hi - at];
    assert block[lo..hi][k - lo] == block[k] && part[k - lo] == w[k - at];
    CoveredBurstFails(block, covered, lo, part);
    PartOfSplice(block, at, w, lo, hi, covered);
    SameVerdict(Splice(block, at, w), Splice(block, lo, part), covered);
  }

  /**
    Any rewrite of up to four consecutive bytes of a verified block leaves it
    verified exactly when it changes no byte of the digest or the covered range.
  */
  lemma BurstTamper(block: seq<byte>, covered: nat, at: nat, w: seq<byte>)
    requires VerifyCrc32c(block, covered)
    requires at + |w| <= |block| && |w| <= 4
    ensures VerifyCrc32c(Splice(block, at, w), covered) <==> forall k :: Changed(block, at, w, k) ==> !Guarded(covered, k)
  {
    hide VerifyCrc32c, Splice;
    CoveredInside(block, covered);
    var changed := Splice(block, at, w);
    SliceChanged(block, at, w, 0, 4);
    SliceChanged(block, at, w, CSUM_SIZE, covered);
    assert changed[..4] == changed[0..4] && block[..4] == block[0..4];
    if k :| 0 <= k < 4 && Changed(block, at, w, k) {
      DigestChanged(block, changed, covered);
      assert Guarded(covered, k);
    } else if k :| CSUM_SIZE <= k < covered && Changed(block, at, w, k) {
      CoveredPartFails(block, covered, at, w, k);
      assert Guarded(covered, k);
    } else {
      SameVerdict(block, changed, covered);
    }
  }

  /**
    Changing exactly one byte of a verified block makes it fail precisely when
    the byte is part of the stored digest or of the covered range.
  */
  lemma SingleByteTamper(block: seq<byte>, covered: nat, i: nat, v: byte)
    requires VerifyCrc32c(block, covered)
    requires i < |block| && v != block[i]
    ensures VerifyCrc32c(block[i := v], covered) <==> 4 <= i < CSUM_SIZE || covered <= i
  {
    var changed := block[i := v];
    if i < 4 {
      assert changed[CSUM_SIZE..covered] == block[CSUM_SIZE..covered];
      assert changed[..4][i] == v && block[..4][i] == block[i];
    } else if i < CSUM_SIZE || covered <= i {
      assert changed[CSUM_SIZE..covered] == block[CSUM_SIZE..covered];
      assert changed[..4] == block[..4];
    } else {
      assert changed == Splice(block, i, [v]);
      assert block[i..i + 1][0] == block[i];
      CoveredBurstFails(block, covered, i, [v]);
    }
  }

  function Reseal(node: seq<byte>): (r: seq<byte>)
    requires |node| >= CSUM_SIZE
    ensures |r| == |node|
  {
    Splice(node, 0, DigestBytes(Crc32cOf(node[CSUM_SIZE..])))
  }

  method FixNodeCrc(node: array<byte>)
    requires node.Length >= CSUM_SIZE
    modifies node
    ensures node[..] == Reseal(old(node[..]))
  {
    var c := Crc32cIscsi(node[CSUM_SIZE..]);
    CopyInto(node, 0, DigestBytes(c));
  }

  /** Resealing any block with a body makes it verify and leaves everything past the digest alone. */
  lemma ResealVerifies(node: seq<byte>)
    requires |node| > CSUM_SIZE
    ensures VerifyCrc32c(Reseal(node), |node|)
    ensures Reseal(node)[4..] == node[4..]
    ensures VerifyCrc32c(node, |node|) ==> Reseal(node) == node
  {
    hide Crc32cOf, DigestBytes;
    var r := Reseal(node);
    assert r[CSUM_SIZE..] == node[CSUM_SIZE..];
    assert r[CSUM_SIZE..|node|] == r[CSUM_SIZE..] && node[CSUM_SIZE..|node|] == node[CSUM_SIZE..];
    assert r[..4] == DigestBytes(Crc32cOf(node[CSUM_SIZE..]));
    assert node == node[..4] + node[4..];
  }
}
