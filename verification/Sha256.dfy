/**
  SHA-256 as the auditor computes it (forensic/src/lib.rs), against sections
  3.2, 4.1.2, 4.2.2, 5.1.1, 5.3.3 and 6.2.2 of FIPS 180-4.
*/
module Sha256 {
  import opened Bytes
  import opened Words
  import opened Primes

  // ---- constants ----

  /** Row `r` of the round constants, eight to a row. */
  function KRow(r: nat): (row: seq<u32>)
    requires r < 8
    ensures |row| == 8
  {
    if r == 0 then [0x428a_2f98, 0x7137_4491, 0xb5c0_fbcf, 0xe9b5_dba5, 0x3956_c25b, 0x59f1_11f1, 0x923f_82a4, 0xab1c_5ed5]
    else if r == 1 then [0xd807_aa98, 0x1283_5b01, 0x2431_85be, 0x550c_7dc3, 0x72be_5d74, 0x80de_b1fe, 0x9bdc_06a7, 0xc19b_f174]
    else if r == 2 then [0xe49b_69c1, 0xefbe_4786, 0x0fc1_9dc6, 0x240c_a1cc, 0x2de9_2c6f, 0x4a74_84aa, 0x5cb0_a9dc, 0x76f9_88da]
    else if r == 3 then [0x983e_5152, 0xa831_c66d, 0xb003_27c8, 0xbf59_7fc7, 0xc6e0_0bf3, 0xd5a7_9147, 0x06ca_6351, 0x1429_2967]
    else if r == 4 then [0x27b7_0a85, 0x2e1b_2138, 0x4d2c_6dfc, 0x5338_0d13, 0x650a_7354, 0x766a_0abb, 0x81c2_c92e, 0x9272_2c85]
    else if r == 5 then [0xa2bf_e8a1, 0xa81a_664b, 0xc24b_8b70, 0xc76c_51a3, 0xd192_e819, 0xd699_0624, 0xf40e_3585, 0x106a_a070]
    else if r == 6 then [0x19a4_c116, 0x1e37_6c08, 0x2748_774c, 0x34b0_bcb5, 0x391c_0cb3, 0x4ed8_aa4a, 0x5b9c_ca4f, 0x682e_6ff3]
    else [0x748f_82ee, 0x78a5_636f, 0x84c8_7814, 0x8cc7_0208, 0x90be_fffa, 0xa450_6ceb, 0xbef9_a3f7, 0xc671_78f2]
  }

  const H0: seq<u32> := [
    0x6a09_e667, 0xbb67_ae85, 0x3c6e_f372, 0xa54f_f53a, 0x510e_527f, 0x9b05_688c, 0x1f83_d9ab, 0x5be0_cd19]

  /** A 32-bit word. */
  datatype W32 = W32(bits: bv32)

  function Kt(t: nat): W32
    requires t < 64
  {
    W32(KRow(t / 8)[t % 8] as bv32)
  }

  // ---- the standard's functions ----

  /** Addition modulo 2^32 (`wrapping_add`). */
  function Add(x: W32, y: W32): W32 {
    W32(x.bits + y.bits)
  }

  /** Four words added from left to right (a chain of `wrapping_add`). */
  function Sum4(w: W32, x: W32, y: W32, z: W32): W32 {
    W32(w.bits + x.bits + y.bits + z.bits)
  }

  /** How far a word is turned. */
  type Turn = n: bv32 | 0 < n < 32 witness 1

  /** The circular right shift ROTR of section 3.2, two shifts joined (`rotate_right`). */
  function Rotr(x: W32, n: Turn): W32 {
    W32((x.bits >> n) | (x.bits << (32 - n)))
  }

  function Shr(x: W32, n: nat): W32
    requires n < 32
  {
    W32(x.bits >> n)
  }

  function Xor(x: W32, y: W32): W32 {
    W32(x.bits ^ y.bits)
  }

  function And(x: W32, y: W32): W32 {
    W32(x.bits & y.bits)
  }

  function Not(x: W32): W32 {
    W32(!x.bits)
  }

  function Ch(x: W32, y: W32, z: W32): W32 {
    Xor(And(x, y), And(Not(x), z))
  }

  function Maj(x: W32, y: W32, z: W32): W32 {
    Xor(Xor(And(x, y), And(x, z)), And(y, z))
  }

  function BigSigma0(x: W32): W32 {
    Xor(Xor(Rotr(x, 2), Rotr(x, 13)), Rotr(x, 22))
  }

  function BigSigma1(x: W32): W32 {
    Xor(Xor(Rotr(x, 6), Rotr(x, 11)), Rotr(x, 25))
  }

  function SmallSigma0(x: W32): W32 {
    Xor(Xor(Rotr(x, 7), Rotr(x, 18)), Shr(x, 3))
  }

  function SmallSigma1(x: W32): W32 {
    Xor(Xor(Rotr(x, 17), Rotr(x, 19)), Shr(x, 10))
  }

  datatype State = State(a: W32, b: W32, c: W32, d: W32, e: W32, f: W32, g: W32, h: W32)

  function Extend(w2: W32, w7: W32, w15: W32, w16: W32): W32 {
    Sum4(SmallSigma1(w2), w7, SmallSigma0(w15), w16)
  }

  type MessageBlock = m: seq<W32> | |m| == 16 witness seq(16, _ => W32(0))

  /** The message schedule (section 6.2.2, step 1). */
  function ScheduleWord(m: MessageBlock, t: nat): W32
    decreases t, m
  {
    if t < 16 then m[t]
    else Extend(ScheduleWord(m, t - 2), ScheduleWord(m, t - 7), ScheduleWord(m, t - 15), ScheduleWord(m, t - 16))
  }

  function T1(e: W32, f: W32, g: W32, h: W32, k: W32, w: W32): W32 {
    Add(Add(Add(Add(h, BigSigma1(e)), Ch(e, f, g)), k), w)
  }

  function T2(a: W32, b: W32, c: W32): W32 {
    Add(BigSigma0(a), Maj(a, b, c))
  }

  /** One turn of step 3. */
  function Round(s: State, k: W32, w: W32): State {
    var t1, t2 := T1(s.e, s.f, s.g, s.h, k, w), T2(s.a, s.b, s.c);
    State(Add(t1, t2), s.a, s.b, s.c, Add(s.d, t1), s.e, s.f, s.g)
  }

  function Rounds(s: State, m: MessageBlock, n: nat): State
    requires n <= 64
    decreases n, s
  {
    if n == 0 then s else Round(Rounds(s, m, n - 1), Kt(n - 1), ScheduleWord(m, n - 1))
  }

  function Added(s: State, v: State): State {
    State(Add(s.a, v.a), Add(s.b, v.b), Add(s.c, v.c), Add(s.d, v.d),
      Add(s.e, v.e), Add(s.f, v.f), Add(s.g, v.g), Add(s.h, v.h))
  }

  /** The next intermediate hash value. */
  function Compressed(s: State, m: MessageBlock): State {
    Added(s, Rounds(s, m, 64))
  }

  function BeWord(b0: byte, b1: byte, b2: byte, b3: byte): W32 {
    W32((Word(b0) << 24) | (Word(b1) << 16) | (Word(b2) << 8) | Word(b3))
  }

  function WordAt(chunk: seq<byte>, i: nat): W32
    requires 4 * i + 4 <= |chunk|
  {
    BeWord(chunk[4 * i], chunk[4 * i + 1], chunk[4 * i + 2], chunk[4 * i + 3])
  }

  /** The first `n` big-endian words of a chunk. */
  function BlockWords(chunk: seq<byte>, n: nat): (m: seq<W32>)
    requires 4 * n <= |chunk|
    ensures |m| == n && forall i :: 0 <= i < n ==> m[i] == WordAt(chunk, i)
  {
    if n == 0 then [] else BlockWords(chunk, n - 1) + [WordAt(chunk, n - 1)]
  }

  /** The message parsed into 512-bit blocks (section 5.2.1). */
  function ParseBlocks(msg: seq<byte>): seq<MessageBlock>
    decreases |msg|
  {
    if |msg| < 64 then [] else [BlockWords(msg[..64], 16)] + ParseBlocks(msg[64..])
  }

  function HashBlocks(s: State, blocks: seq<MessageBlock>): State
    decreases |blocks|
  {
    if blocks == [] then s else HashBlocks(Compressed(s, blocks[0]), blocks[1..])
  }

  // ---- padding (section 5.1.1) ----

  function BeBytes(n: nat, width: nat): (bs: seq<byte>)
    ensures |bs| == width
    decreases width, n
  {
    if width == 0 then [] else BeBytes(n / 256, width - 1) + [n % 256]
  }

  /** Zero bytes between the marker byte and the length. */
  function PadZeros(len: nat): nat {
    (119 - len % 64) % 64
  }

  lemma PaddedLength(len: nat)
    ensures (len + 1 + PadZeros(len) + 8) % 64 == 0
  {
    var q, r := len / 64, len % 64;
    assert len == 64 * q + r;
    if r <= 55 {
      assert len + 1 + PadZeros(len) + 8 == 64 * (q + 1);
    } else {
      assert len + 1 + PadZeros(len) + 8 == 64 * (q + 2);
    }
  }

  /** `bit_len` wraps at 2^64 as the eight length bytes do. */
  function Padded(msg: seq<byte>): (r: seq<byte>)
    ensures |r| % 64 == 0
  {
    PaddedLength(|msg|);
    msg + [0x80] + Zeros(PadZeros(|msg|)) + BeBytes(8 * |msg|, 8)
  }

  function InitialWord(t: nat): W32
    requires t < 8
  {
    W32(H0[t] as bv32)
  }

  function InitialHash(): State {
    State(InitialWord(0), InitialWord(1), InitialWord(2), InitialWord(3),
      InitialWord(4), InitialWord(5), InitialWord(6), InitialWord(7))
  }

  function Digest(msg: seq<byte>): State {
    HashBlocks(InitialHash(), ParseBlocks(Padded(msg)))
  }

  // ---- hexadecimal ----

  function HexDigit(n: bv4): char {
    if n < 10 then '0' + (n as int as char) else 'a' + ((n - 10) as int as char)
  }

  function HexWord(x: W32): (s: string)
    ensures |s| == 8
  {
    [HexDigit((x.bits >> 28) as bv4), HexDigit(((x.bits >> 24) & 0xF) as bv4), HexDigit(((x.bits >> 20) & 0xF) as bv4),
     HexDigit(((x.bits >> 16) & 0xF) as bv4), HexDigit(((x.bits >> 12) & 0xF) as bv4), HexDigit(((x.bits >> 8) & 0xF) as bv4),
     HexDigit(((x.bits >> 4) & 0xF) as bv4), HexDigit((x.bits & 0xF) as bv4)]
  }

  function HexOf(s: State): (r: string)
    ensures |r| == 64
  {
    HexWord(s.a) + HexWord(s.b) + HexWord(s.c) + HexWord(s.d)
    + HexWord(s.e) + HexWord(s.f) + HexWord(s.g) + HexWord(s.h)
  }

  // ---- the constants are the standard's ----

  /** `k` is the first 32 bits of the fraction of the cube root of `p`. */
  predicate IsCubeRoot(p: int, k: int) {
    var whole := if p < 8 then 1 else if p < 27 then 2 else if p < 64 then 3 else if p < 125 then 4
      else if p < 216 then 5 else 6;
    var n := whole * 0x1_0000_0000 + k;
    n * n * n <= p * 0x1_00000000_00000000_00000000 < (n + 1) * (n + 1) * (n + 1)
  }

  /** `k` is the first 32 bits of the fraction of the square root of `p`. */
  predicate IsSquareRoot(p: int, k: int) {
    var whole := if p < 4 then 1 else if p < 9 then 2 else if p < 16 then 3 else 4;
    var n := whole * 0x1_0000_0000 + k;
    n * n <= p * 0x1_00000000_00000000 < (n + 1) * (n + 1)
  }

  lemma CubeRoots()
    ensures IsCubeRoot(2, 0x428a_2f98) && IsCubeRoot(3, 0x7137_4491)
    ensures IsCubeRoot(5, 0xb5c0_fbcf) && IsCubeRoot(7, 0xe9b5_dba5)
    ensures IsCubeRoot(11, 0x3956_c25b) && IsCubeRoot(13, 0x59f1_11f1)
    ensures IsCubeRoot(17, 0x923f_82a4) && IsCubeRoot(19, 0xab1c_5ed5)
    ensures IsCubeRoot(23, 0xd807_aa98) && IsCubeRoot(29, 0x1283_5b01)
    ensures IsCubeRoot(31, 0x2431_85be) && IsCubeRoot(37, 0x550c_7dc3)
    ensures IsCubeRoot(41, 0x72be_5d74) && IsCubeRoot(43, 0x80de_b1fe)
    ensures IsCubeRoot(47, 0x9bdc_06a7) && IsCubeRoot(53, 0xc19b_f174)
    ensures IsCubeRoot(59, 0xe49b_69c1) && IsCubeRoot(61, 0xefbe_4786)
    ensures IsCubeRoot(67, 0x0fc1_9dc6) && IsCubeRoot(71, 0x240c_a1cc)
    ensures IsCubeRoot(73, 0x2de9_2c6f) && IsCubeRoot(79, 0x4a74_84aa)
    ensures IsCubeRoot(83, 0x5cb0_a9dc) && IsCubeRoot(89, 0x76f9_88da)
    ensures IsCubeRoot(97, 0x983e_5152) && IsCubeRoot(101, 0xa831_c66d)
    ensures IsCubeRoot(103, 0xb003_27c8) && IsCubeRoot(107, 0xbf59_7fc7)
    ensures IsCubeRoot(109, 0xc6e0_0bf3) && IsCubeRoot(113, 0xd5a7_9147)
    ensures IsCubeRoot(127, 0x06ca_6351) && IsCubeRoot(131, 0x1429_2967)
    ensures IsCubeRoot(137, 0x27b7_0a85) && IsCubeRoot(139, 0x2e1b_2138)
    ensures IsCubeRoot(149, 0x4d2c_6dfc) && IsCubeRoot(151, 0x5338_0d13)
    ensures IsCubeRoot(157, 0x650a_7354) && IsCubeRoot(163, 0x766a_0abb)
    ensures IsCubeRoot(167, 0x81c2_c92e) && IsCubeRoot(173, 0x9272_2c85)
    ensures IsCubeRoot(179, 0xa2bf_e8a1) && IsCubeRoot(181, 0xa81a_664b)
    ensures IsCubeRoot(191, 0xc24b_8b70) && IsCubeRoot(193, 0xc76c_51a3)
    ensures IsCubeRoot(197, 0xd192_e819) && IsCubeRoot(199, 0xd699_0624)
    ensures IsCubeRoot(211, 0xf40e_3585) && IsCubeRoot(223, 0x106a_a070)
    ensures IsCubeRoot(227, 0x19a4_c116) && IsCubeRoot(229, 0x1e37_6c08)
    ensures IsCubeRoot(233, 0x2748_774c) && IsCubeRoot(239, 0x34b0_bcb5)
    ensures IsCubeRoot(241, 0x391c_0cb3) && IsCubeRoot(251, 0x4ed8_aa4a)
    ensures IsCubeRoot(257, 0x5b9c_ca4f) && IsCubeRoot(263, 0x682e_6ff3)
    ensures IsCubeRoot(269, 0x748f_82ee) && IsCubeRoot(271, 0x78a5_636f)
    ensures IsCubeRoot(277, 0x84c8_7814) && IsCubeRoot(281, 0x8cc7_0208)
    ensures IsCubeRoot(283, 0x90be_fffa) && IsCubeRoot(293, 0xa450_6ceb)
    ensures IsCubeRoot(307, 0xbef9_a3f7) && IsCubeRoot(311, 0xc671_78f2)
  {
  }

  /** Every round constant is taken from the cube root of its prime (section 4.2.2). */
  lemma RoundConstants(t: nat)
    requires t < 64
    ensures IsCubeRoot(Prime(t), KRow(t / 8)[t % 8])
  {
    hide IsCubeRoot;
    CubeRoots();
  }

  /** The initial hash value (section 5.3.3). */
  lemma InitialConstants()
    ensures IsSquareRoot(2, H0[0]) && IsSquareRoot(3, H0[1]) && IsSquareRoot(5, H0[2]) && IsSquareRoot(7, H0[3])
    ensures IsSquareRoot(11, H0[4]) && IsSquareRoot(13, H0[5]) && IsSquareRoot(17, H0[6]) && IsSquareRoot(19, H0[7])
  {
  }

  // ---- padding ----

  /** Marker and `zeros` bytes after `len` leave exactly eight bytes of the block. */
  predicate LeavesRoom(len: nat, zeros: nat) {
    (len + 1 + zeros) % 64 == 56
  }

  /** The zeros are the fewest that leave room for the length in the last block. */
  lemma FewestZeros(len: nat)
    ensures LeavesRoom(len, PadZeros(len))
    ensures forall j :: 0 <= j < PadZeros(len) ==> !LeavesRoom(len, j)
  {
  }

  lemma {:induction false} BeBytesInjective(a: nat, b: nat, width: nat)
    requires a < Pow256(width) && b < Pow256(width) && BeBytes(a, width) == BeBytes(b, width)
    ensures a == b
    decreases width
  {
    if width > 0 {
      assert BeBytes(a, width)[width - 1] == a % 256 && BeBytes(b, width)[width - 1] == b % 256;
      assert BeBytes(a, width)[..width - 1] == BeBytes(a / 256, width - 1);
      assert BeBytes(b, width)[..width - 1] == BeBytes(b / 256, width - 1);
      BeBytesInjective(a / 256, b / 256, width - 1);
    }
  }

  /** Different messages of fewer than 2^61 bytes are padded differently. */
  lemma PaddingInjective(a: seq<byte>, b: seq<byte>)
    requires 8 * |a| < U64_LIMIT && 8 * |b| < U64_LIMIT && Padded(a) == Padded(b)
    ensures a == b
  {
    hide BeBytes, Zeros;
    Pow256Values();
    var p, q := Padded(a), Padded(b);
    assert p[|p| - 8..] == BeBytes(8 * |a|, 8);
    assert q[|q| - 8..] == BeBytes(8 * |b|, 8);
    BeBytesInjective(8 * |a|, 8 * |b|, 8);
    assert p[..|a|] == a && q[..|b|] == b;
  }

  // ---- the code's expressions ----

  /** The code adds the schedule's terms in the opposite order. */
  lemma SumReversed(w: W32, x: W32, y: W32, z: W32)
    ensures Sum4(w, x, y, z) == Sum4(z, y, x, w)
  {
    assert w.bits + x.bits + y.bits + z.bits == z.bits + y.bits + x.bits + w.bits;
  }

  lemma ExtendReversed(w2: W32, w7: W32, w15: W32, w16: W32)
    ensures Sum4(w16, SmallSigma0(w15), w7, SmallSigma1(w2)) == Extend(w2, w7, w15, w16)
  {
    hide Sum4, SmallSigma0, SmallSigma1;
    SumReversed(w16, SmallSigma0(w15), w7, SmallSigma1(w2));
  }

  // ---- the in-place computation ----

  method PadMessage(data: seq<byte>) returns (msg: seq<byte>)
    ensures msg == Padded(data)
  {
    FewestZeros(|data|);
    msg := data + [0x80];
    ghost var k := 0;
    while |msg| % 64 != 56
      invariant k <= PadZeros(|data|)
      invariant msg == data + [0x80] + Zeros(k)
      decreases PadZeros(|data|) - k
    {
      assert !LeavesRoom(|data|, k);
      msg := msg + [0];
      k := k + 1;
    }
    assert LeavesRoom(|data|, k);
    msg := msg + BeBytes(8 * |data|, 8);
  }

  method LoadWords(chunk: seq<byte>, w: array<W32>)
    requires |chunk| == 64 && w.Length == 64
    modifies w
    ensures forall t :: 0 <= t < 16 ==> w[t] == BlockWords(chunk, 16)[t]
  {
    hide BeWord, BlockWords;
    for i := 0 to 16
      invariant forall t :: 0 <= t < i ==> w[t] == WordAt(chunk, t)
    {
      w[i] := BeWord(chunk[i * 4], chunk[i * 4 + 1], chunk[i * 4 + 2], chunk[i * 4 + 3]);
    }
  }

  method FillSchedule(m: MessageBlock, w: array<W32>)
    requires w.Length == 64
    requires forall t :: 0 <= t < 16 ==> w[t] == m[t]
    modifies w
    ensures forall t :: 0 <= t < 64 ==> w[t] == ScheduleWord(m, t)
  {
    hide Extend, Rotr, Shr, Xor, Sum4;
    for i := 16 to 64
      invariant forall t :: 0 <= t < i ==> w[t] == ScheduleWord(m, t)
    {
      var s0 := Xor(Xor(Rotr(w[i - 15], 7), Rotr(w[i - 15], 18)), Shr(w[i - 15], 3));
      var s1 := Xor(Xor(Rotr(w[i - 2], 17), Rotr(w[i - 2], 19)), Shr(w[i - 2], 10));
      ExtendReversed(w[i - 2], w[i - 7], w[i - 15], w[i - 16]);
      w[i] := Sum4(w[i - 16], s0, w[i - 7], s1);
    }
  }

  function StateOf(v: seq<W32>): State
    requires |v| == 8
  {
    State(v[0], v[1], v[2], v[3], v[4], v[5], v[6], v[7])
  }

  /** One turn of the register shift, in the code's order of assignments. */
  method ShiftRegisters(v: array<W32>, k: W32, w: W32)
    requires v.Length == 8
    modifies v
    ensures StateOf(v[..]) == Round(old(StateOf(v[..])), k, w)
  {
    hide Add, Rotr, Xor, And, Not;
    var s1 := Xor(Xor(Rotr(v[4], 6), Rotr(v[4], 11)), Rotr(v[4], 25));
    var ch := Xor(And(v[4], v[5]), And(Not(v[4]), v[6]));
    var t1 := Add(Add(Add(Add(v[7], s1), ch), k), w);
    var s0 := Xor(Xor(Rotr(v[0], 2), Rotr(v[0], 13)), Rotr(v[0], 22));
    var maj := Xor(Xor(And(v[0], v[1]), And(v[0], v[2])), And(v[1], v[2]));
    var t2 := Add(s0, maj);
    v[7] := v[6];
    v[6] := v[5];
    v[5] := v[4];
    v[4] := Add(v[3], t1);
    v[3] := v[2];
    v[2] := v[1];
    v[1] := v[0];
    v[0] := Add(t1, t2);
  }

  /** The sixty-four turns over a copy of the hash value. */
  method RunRounds(h: array<W32>, w: array<W32>, ghost m: MessageBlock) returns (v: array<W32>)
    requires h.Length == 8 && w.Length == 64
    requires forall t :: 0 <= t < 64 ==> w[t] == ScheduleWord(m, t)
    ensures fresh(v) && v.Length == 8 && StateOf(v[..]) == Rounds(StateOf(h[..]), m, 64)
  {
    hide Round, ScheduleWord, Kt;
    v := new W32[8](i requires 0 <= i < 8 reads h => h[i]);
    for i := 0 to 64
      invariant StateOf(v[..]) == Rounds(StateOf(h[..]), m, i)
    {
      ShiftRegisters(v, Kt(i), w[i]);
    }
  }

  method AddInto(h: array<W32>, v: array<W32>)
    requires h.Length == 8 && v.Length == 8 && h != v
    modifies h
    ensures StateOf(h[..]) == Added(old(StateOf(h[..])), StateOf(v[..]))
  {
    hide Add;
    for i := 0 to 8
      invariant forall j :: 0 <= j < i ==> h[j] == Add(old(h[j]), v[j])
      invariant forall j :: i <= j < 8 ==> h[j] == old(h[j])
    {
      h[i] := Add(h[i], v[i]);
    }
  }

  method CompressChunk(h: array<W32>, chunk: seq<byte>)
    requires h.Length == 8 && |chunk| == 64
    modifies h
    ensures StateOf(h[..]) == Compressed(old(StateOf(h[..])), BlockWords(chunk, 16))
  {
    hide Rounds, Added, BlockWords, ScheduleWord, StateOf;
    var w := new W32[64](_ => W32(0));
    LoadWords(chunk, w);
    FillSchedule(BlockWords(chunk, 16), w);
    assert h[..] == old(h[..]);
    var v := RunRounds(h, w, BlockWords(chunk, 16));
    AddInto(h, v);
  }

  lemma ParseNext(msg: seq<byte>, at: nat)
    requires at + 64 <= |msg|
    ensures ParseBlocks(msg[at..]) == [BlockWords(msg[at..at + 64], 16)] + ParseBlocks(msg[at + 64..])
  {
    assert msg[at..][..64] == msg[at..at + 64] && msg[at..][64..] == msg[at + 64..];
  }

  function HexPrefix(h: seq<W32>, n: nat): string
    requires n <= |h|
  {
    if n == 0 then "" else HexPrefix(h, n - 1) + HexWord(h[n - 1])
  }

  lemma HexInOrder(h: seq<W32>)
    requires |h| == 8
    ensures HexPrefix(h, 8) == HexOf(StateOf(h))
  {
    hide HexWord;
    assert HexPrefix(h, 1) == HexWord(h[0]);
    assert HexPrefix(h, 2) == HexWord(h[0]) + HexWord(h[1]);
    assert HexPrefix(h, 3) == HexPrefix(h, 2) + HexWord(h[2]);
    assert HexPrefix(h, 4) == HexPrefix(h, 3) + HexWord(h[3]);
    assert HexPrefix(h, 5) == HexPrefix(h, 4) + HexWord(h[4]);
    assert HexPrefix(h, 6) == HexPrefix(h, 5) + HexWord(h[5]);
    assert HexPrefix(h, 7) == HexPrefix(h, 6) + HexWord(h[6]);
    assert HexPrefix(h, 8) == HexPrefix(h, 7) + HexWord(h[7]);
  }

  method WriteHex(h: array<W32>) returns (hex: string)
    requires h.Length == 8
    ensures hex == HexOf(StateOf(h[..]))
  {
    hide HexWord;
    hex := "";
    for i := 0 to 8
      invariant hex == HexPrefix(h[..], i)
    {
      hex := hex + HexWord(h[i]);
    }
    HexInOrder(h[..]);
  }

  method InitialWords() returns (h: array<W32>)
    ensures fresh(h) && h.Length == 8 && StateOf(h[..]) == InitialHash()
  {
    hide InitialWord;
    h := new W32[8](i requires 0 <= i < 8 => InitialWord(i));
  }

  method Sha256Hex(data: seq<byte>) returns (hex: string)
    ensures hex == HexOf(Digest(data))
  {
    hide Compressed, BlockWords, Padded, HexOf, InitialHash, StateOf;
    var h := InitialWords();
    var msg := PadMessage(data);
    assert msg[0..] == msg;
    var at := 0;
    while at + 64 <= |msg|
      invariant at % 64 == 0 && at <= |msg|
      invariant HashBlocks(StateOf(h[..]), ParseBlocks(msg[at..])) == Digest(data)
      decreases |msg| - at
    {
      ParseNext(msg, at);
      CompressChunk(h, msg[at..at + 64]);
      at := at + 64;
    }
    hex := WriteHex(h);
  }
}
