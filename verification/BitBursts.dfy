/** Every change confined to thirty-two consecutive bits changes the CRC32c (core/src/crc.rs). */
module BitBursts {
  import opened Bytes
  import opened Words
  import opened Crc

  /** The low `n` bits are zero. */
  predicate LowClear(e: bv32, n: nat)
    decreases n
  {
    n == 0 || (e & 1 == 0 && LowClear(e >> 1, n - 1))
  }

  function Halved(e: bv32, n: nat): bv32
    decreases n
  {
    if n == 0 then e else Halved(e >> 1, n - 1)
  }

  /** 2^n. */
  function Bit(n: nat): bv32
    requires n < 8
  {
    if n == 0 then 1 else if n == 1 then 2 else if n == 2 then 4 else if n == 3 then 8
    else if n == 4 then 0x10 else if n == 5 then 0x20 else if n == 6 then 0x40 else 0x80
  }

  predicate Under(x: bv32, bound: bv32) {
    x < bound
  }

  /**
    Two five-byte windows differ only in the thirty-two bits from bit `n` of the
    first byte, least significant bit first as the register takes them in.
  */
  predicate BitBurst(w: seq<byte>, w': seq<byte>, n: nat)
    requires n < 8
  {
    |w| == |w'| == 5 && LowClear(ByteGap(w[0], w'[0]), n) && Under(ByteGap(w[4], w'[4]), Bit(n))
  }

  // ---- a register whose low bits are clear only moves right ----

  lemma {:induction false} StepsAgain(c: bv32, n: nat)
    ensures Steps(Step(c), n) == Step(Steps(c, n))
    decreases n
  {
    hide Step;
    if n > 0 {
      StepsAgain(c, n - 1);
    }
  }

  lemma {:induction false} StepsAdd(c: bv32, a: nat, b: nat)
    ensures Steps(Steps(c, a), b) == Steps(c, a + b)
    decreases b
  {
    hide Step;
    if b > 0 {
      StepsAdd(c, a, b - 1);
    }
  }

  lemma StepEven(e: bv32)
    requires e & 1 == 0
    ensures Step(e) == e >> 1
  {
  }

  lemma {:induction false} StepsHalve(e: bv32, n: nat)
    requires LowClear(e, n)
    ensures Steps(e, n) == Halved(e, n)
    decreases n
  {
    hide Step;
    if n > 0 {
      StepEven(e);
      StepsHalve(e >> 1, n - 1);
      StepsAgain(e, n - 1);
    }
  }

  // ---- four bytes of difference whose last is small ----

  lemma ShiftBelow(g: bv32, e: bv32, bound: bv32)
    requires g < bound && bound < 0x100_0000 && e < 0x100
    ensures (g << 8) ^ e < bound << 8
  {
  }

  function Times256(b: bv32): bv32 {
    b << 8
  }

  predicate Roomy(bound: bv32) {
    bound < 0x100_0000
  }

  lemma JoinBelow(g: bv32, e: bv32, bound: bv32)
    requires Under(g, bound) && Roomy(bound) && e < 0x100
    ensures Under(Join(g, e), Times256(bound))
  {
    hide Doubled;
    DoubledByte(g);
    ShiftBelow(g, e, bound);
  }

  lemma JoinByteGap(g: bv32, b: byte, b': byte, bound: bv32)
    requires Under(g, bound) && Roomy(bound)
    ensures Under(Join(g, ByteGap(b, b')), Times256(bound))
  {
    hide Join, ByteGap, Under, Roomy, Times256;
    ByteGapSmall(b, b');
    JoinBelow(g, ByteGap(b, b'), bound);
  }

  lemma JoinNothing(e: bv32)
    ensures Join(0, e) == e
  {
    hide Doubled;
    DoubledByte(0);
  }

  /** The bound for `k` bytes whose last is below 2^n. */
  function Bound(n: nat, k: nat): bv32
    requires n < 8 && k > 0
    decreases k
  {
    if k == 1 then Bit(n) else Times256(Bound(n, k - 1))
  }

  lemma BoundSmall(n: nat)
    requires n < 8
    ensures Bound(n, 1) == Bit(n) && Roomy(Bound(n, 1)) && Roomy(Bound(n, 2)) && Roomy(Bound(n, 3))
  {
    assert Bound(n, 2) == Times256(Bit(n));
    assert Bound(n, 3) == Times256(Times256(Bit(n)));
  }

  lemma {:induction false} GapBelow(w: seq<byte>, w': seq<byte>, n: nat)
    requires 0 < |w| == |w'| <= 4 && n < 8 && Under(ByteGap(w[|w| - 1], w'[|w| - 1]), Bit(n))
    ensures Under(Gap(w, w'), Bound(n, |w|))
    decreases |w|
  {
    hide Join, ByteGap, Bit, Times256, Under, Roomy;
    BoundSmall(n);
    if |w| == 1 {
      assert Gap(w[1..], w'[1..]) == 0;
      JoinNothing(ByteGap(w[0], w'[0]));
    } else {
      GapBelow(w[1..], w'[1..], n);
      JoinByteGap(Gap(w[1..], w'[1..]), w[0], w'[0], Bound(n, |w| - 1));
    }
  }

  lemma RoomAbove(g: bv32, n: nat)
    requires n < 8 && Under(g, Bound(n, 4))
    ensures Room(g, 8 - n)
  {
    assert Bound(n, 4) == Times256(Times256(Times256(Bit(n))));
    if n == 0 {
      assert Room(g, 8);
    } else if n == 1 {
      assert Room(g, 7);
    } else if n == 2 {
      assert Room(g, 6);
    } else if n == 3 {
      assert Room(g, 5);
    } else if n == 4 {
      assert Room(g, 4);
    } else if n == 5 {
      assert Room(g, 3);
    } else if n == 6 {
      assert Room(g, 2);
    } else {
      assert Room(g, 1);
    }
  }

  lemma {:induction false} DoubledAgain(v: bv32, n: nat)
    ensures Doubled(v, n + 1) == Doubled(v, n) << 1
    decreases n
  {
    if n > 0 {
      DoubledAgain(v << 1, n - 1);
    }
  }

  lemma {:induction false} DoubledAdd(v: bv32, a: nat, b: nat)
    ensures Doubled(Doubled(v, a), b) == Doubled(v, a + b)
    decreases a
  {
    if a > 0 {
      DoubledAdd(v << 1, a - 1, b);
    }
  }

  lemma HalfTwice(e: bv32)
    requires e & 1 == 0
    ensures (e >> 1) << 1 == e
  {
  }

  lemma {:induction false} HalvedBack(e: bv32, n: nat)
    requires LowClear(e, n)
    ensures Doubled(Halved(e, n), n) == e
    decreases n
  {
    if n > 0 {
      HalvedBack(e >> 1, n - 1);
      DoubledAgain(Halved(e, n), n - 1);
      HalfTwice(e);
    }
  }

  lemma DoubleZero(g: bv32)
    requires g < 0x8000_0000 && g << 1 == 0
    ensures g == 0
  {
  }

  lemma {:induction false} DoublesZero(g: bv32, n: nat)
    requires Room(g, n) && Doubled(g, n) == 0
    ensures g == 0
    decreases n
  {
    if n > 0 {
      DoublesZero(g << 1, n - 1);
      DoubleZero(g);
    }
  }

  lemma {:induction false} HalvedZero(n: nat)
    ensures Halved(0, n) == 0
    decreases n
  {
    if n > 0 {
      assert (0 as bv32) >> 1 == 0;
      HalvedZero(n - 1);
    }
  }

  lemma ShiftedByteZero(g: bv32)
    requires g << 8 < 0x100
    ensures g << 8 == 0
  {
  }

  /** A byte that is a multiple of 256 is zero. */
  lemma Meet(g: bv32, e: bv32, n: nat)
    requires n < 8 && Room(g, 8 - n) && LowClear(e, n) && Doubled(g, 8 - n) == Halved(e, n) && e < 0x100
    ensures g == 0 && e == 0
  {
    hide Room, LowClear, Doubled, Halved;
    HalvedBack(e, n);
    DoubledAdd(g, 8 - n, n);
    DoubledByte(g);
    ShiftedByteZero(g);
    HalvedZero(n);
    DoublesZero(g, 8 - n);
  }

  // ---- the window ----

  lemma XorShared(s: bv32, x: bv32, y: bv32)
    ensures x ^ y == (s ^ x) ^ (s ^ y)
  {
  }

  lemma MixGap(s: bv32, b: byte, b': byte)
    ensures IsXor(ByteGap(b, b'), Mix(s, b), Mix(s, b'))
  {
    hide Word;
    XorShared(s, Word(b), Word(b'));
  }

  lemma AbsorbFirst(s: bv32, w: seq<byte>)
    requires w != []
    ensures Absorb(s, w) == Absorb(AbsorbByte(s, w[0]), w[1..])
  {
    hide AbsorbByte;
  }

  /** Registers that start equal and meet after a bit burst met at every byte of it. */
  lemma BurstVanishes(s: bv32, w: seq<byte>, w': seq<byte>, n: nat)
    requires n < 8 && BitBurst(w, w', n) && Absorb(s, w) == Absorb(s, w')
    ensures w == w'
  {
    hide Steps, Room, Doubled, Gap, ByteGap, Bit, Bound, Under, LowClear, Halved, IsXor, Mix, Absorb;
    var e, g := ByteGap(w[0], w'[0]), Gap(w[1..], w'[1..]);
    AbsorbFirst(s, w);
    AbsorbFirst(s, w');
    Unwind(AbsorbByte(s, w[0]), AbsorbByte(s, w'[0]), w[1..], w'[1..]);
    MixGap(s, w[0], w'[0]);
    StepsLinear(Mix(s, w[0]), Mix(s, w'[0]), e, 8);
    SameXor(g, Steps(e, 8), AbsorbByte(s, w[0]), AbsorbByte(s, w'[0]));
    GapBelow(w[1..], w'[1..], n);
    RoomAbove(g, n);
    StepsAdd(e, n, 8 - n);
    UnSteps(Steps(e, n), 8 - n, g);
    StepsHalve(e, n);
    ByteGapSmall(w[0], w'[0]);
    Meet(g, e, n);
    GapZero(w[1..], w'[1..]);
    ByteGapZero(w[0], w'[0]);
    assert w == [w[0]] + w[1..] && w' == [w'[0]] + w'[1..];
  }

  /** Any change confined to thirty-two consecutive bits, at any bit offset, changes the checksum. */
  lemma BitBurstDetected(pre: seq<byte>, w: seq<byte>, w': seq<byte>, post: seq<byte>, n: nat)
    requires n < 8 && BitBurst(w, w', n) && w != w'
    ensures Crc32cOf(pre + w + post) != Crc32cOf(pre + w' + post)
  {
    hide BitBurst;
    if Crc32cOf(pre + w + post) == Crc32cOf(pre + w' + post) {
      MeetBehindPrefix(pre, w, w', post);
      BurstVanishes(Absorb(ALL_ONES, pre), w, w', n);
    }
  }

  /** A verified block rewritten within thirty-two consecutive bits of the covered range no longer verifies. */
  lemma CoveredBitBurstFails(block: seq<byte>, covered: nat, at: nat, w: seq<byte>, n: nat)
    requires VerifyCrc32c(block, covered)
    requires CSUM_SIZE <= at && at + |w| <= covered && n < 8
    requires BitBurst(block[at..at + |w|], w, n) && block[at..at + |w|] != w
    ensures !VerifyCrc32c(Splice(block, at, w), covered)
  {
    hide Crc32cOf, DigestBytes, BitBurst;
    var pre, before, post := block[CSUM_SIZE..at], block[at..at + |w|], block[at + |w|..covered];
    assert block[CSUM_SIZE..covered] == pre + before + post;
    var changed := Splice(block, at, w);
    assert changed[CSUM_SIZE..covered] == pre + w + post;
    assert changed[..4] == block[..4];
    BitBurstDetected(pre, before, w, post, n);
    if VerifyCrc32c(changed, covered) {
      DigestInjective(Crc32cOf(pre + before + post), Crc32cOf(pre + w + post));
    }
  }
}
