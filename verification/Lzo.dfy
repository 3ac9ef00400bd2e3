/**
  btrfs's LZO framing (core/src/extent.rs): a 4-byte total, then segments whose
  4-byte headers never cross a sector.  The LZO1X block decoder itself is a
  parameter.
*/
module Lzo {
  import opened Wrappers
  import opened Bytes
  import opened Multiples

  /** Decodes one block into a buffer of the given capacity, or fails. */
  type BlockCodec = (seq<byte>, nat) -> Option<seq<byte>>

  const LZO_LEN: nat := 4

  /** A segment as framed: the declared length and the bytes really there. */
  datatype Block = Block(declared: nat, bytes: seq<byte>)

  function Sector(sectorsize: u32): (ss: nat)
    ensures ss >= 1
  {
    Max(sectorsize, 1)
  }

  function SegmentCap(ss: nat): nat {
    ss + ss / 16 + 64
  }

  /** Skipped when a header would not fit in the rest of the sector. */
  function Padding(pos: nat, ss: nat): nat
    requires ss >= 1
  {
    if pos % ss + LZO_LEN > ss then ss - pos % ss else 0
  }

  function FrameTotal(src: seq<byte>): nat {
    Max(Min(LeU32(src, 0), |src|), LZO_LEN)
  }

  /** The blocks framed in `src` from `cur` up to `total`. */
  function Blocks(src: seq<byte>, total: nat, ss: nat, cur: nat): seq<Block>
    requires ss >= 1
    decreases total - cur
  {
    var at := cur + Padding(cur, ss);
    if cur >= total || at >= total || at + LZO_LEN > |src| || LeU32(src, at) == 0 then []
    else
      var n, start := LeU32(src, at), at + LZO_LEN;
      [Block(n, src[start..Min(start + n, |src|)])] + Blocks(src, total, ss, start + n)
  }

  /** The plaintexts of `blocks` appended to `out`, up to `cap` bytes; later blocks are not looked at. */
  function DecodeBlocks(codec: BlockCodec, blocks: seq<Block>, segmentCap: nat, cap: nat, out: seq<byte>)
    : Result<seq<byte>>
    decreases |blocks|
  {
    if blocks == [] || |out| >= cap then Ok(Take(out, cap))
    else
      match codec(blocks[0].bytes, segmentCap)
      case None => Err(Truncated(LzoSegment, blocks[0].declared, |out|))
      case Some(plain) =>
        DecodeBlocks(codec, blocks[1..], segmentCap, cap, out + Take(plain, cap - |out|))
  }

  /** Why the loop stops: its condition fails, one of its three breaks, or a block that does not decode. */
  datatype Stop = LoopDone | SkippedToTotal | HeaderCutOff | ZeroLength | Undecodable

  /** Where the loop stops at `cur` before it has a segment, if it does. */
  function StopAt(src: seq<byte>, total: nat, ss: nat, cur: nat): (r: Option<Stop>)
    requires ss >= 1
    ensures r.None? ==> cur < total && cur + Padding(cur, ss) + LZO_LEN <= |src|
  {
    var at := cur + Padding(cur, ss);
    if cur >= total then Some(LoopDone)
    else if at >= total then Some(SkippedToTotal)
    else if at + LZO_LEN > |src| then Some(HeaderCutOff)
    else if LeU32(src, at) == 0 then Some(ZeroLength)
    else None
  }

  /** Why the loop stops when it goes on at `cur` with `have` bytes decoded. */
  function StopFrom(codec: BlockCodec, src: seq<byte>, total: nat, ss: nat, cap: nat, cur: nat, have: nat): Stop
    requires ss >= 1
    decreases total - cur
  {
    if have >= cap then LoopDone
    else
      match StopAt(src, total, ss, cur)
      case Some(stop) => stop
      case None =>
        var at := cur + Padding(cur, ss);
        var n, start := LeU32(src, at), at + LZO_LEN;
        match codec(src[start..Min(start + n, |src|)], SegmentCap(ss))
        case None => Undecodable
        case Some(plain) => StopFrom(codec, src, total, ss, cap, start + n, Min(cap, have + |plain|))
  }

  function StopOf(codec: BlockCodec, src: seq<byte>, cap: nat, sectorsize: u32): Stop {
    StopFrom(codec, src, FrameTotal(src), Sector(sectorsize), cap, LZO_LEN, 0)
  }

  function Decoded(codec: BlockCodec, src: seq<byte>, cap: nat, sectorsize: u32): Result<seq<byte>> {
    var ss := Sector(sectorsize);
    DecodeBlocks(codec, Blocks(src, FrameTotal(src), ss, LZO_LEN), SegmentCap(ss), cap, [])
  }

  /** A header at `at` and the blocks behind it. */
  lemma BlocksNext(src: seq<byte>, total: nat, ss: nat, cur: nat)
    requires ss >= 1 && cur < total && cur + Padding(cur, ss) < total
    requires cur + Padding(cur, ss) + LZO_LEN <= |src| && LeU32(src, cur + Padding(cur, ss)) != 0
    ensures var at := cur + Padding(cur, ss); var n := LeU32(src, at); var start := at + LZO_LEN;
      Blocks(src, total, ss, cur) == [Block(n, src[start..Min(start + n, |src|)])] + Blocks(src, total, ss, start + n)
  {
    hide LeU32, Padding;
  }

  lemma NoMoreBlocks(src: seq<byte>, total: nat, ss: nat, cur: nat)
    requires ss >= 1
    requires var at := cur + Padding(cur, ss);
      cur >= total || at >= total || at + LZO_LEN > |src| || LeU32(src, at) == 0
    ensures Blocks(src, total, ss, cur) == []
  {
    hide LeU32, Padding;
  }

  lemma DecodeNext(codec: BlockCodec, b: Block, later: seq<Block>, segmentCap: nat, cap: nat, out: seq<byte>)
    requires |out| < cap
    ensures DecodeBlocks(codec, [b] + later, segmentCap, cap, out)
      == match codec(b.bytes, segmentCap)
         case None => Err(Truncated(LzoSegment, b.declared, |out|))
         case Some(plain) => DecodeBlocks(codec, later, segmentCap, cap, out + Take(plain, cap - |out|))
  {
    assert ([b] + later)[1..] == later;
  }

  lemma DecodeDone(codec: BlockCodec, blocks: seq<Block>, segmentCap: nat, cap: nat, out: seq<byte>)
    requires blocks == [] || |out| >= cap
    ensures DecodeBlocks(codec, blocks, segmentCap, cap, out) == Ok(Take(out, cap))
  {
  }

  lemma StopHere(codec: BlockCodec, src: seq<byte>, total: nat, ss: nat, cap: nat, cur: nat, have: nat)
    requires ss >= 1 && (have >= cap || StopAt(src, total, ss, cur).Some?)
    ensures StopFrom(codec, src, total, ss, cap, cur, have)
      == if have >= cap then LoopDone else StopAt(src, total, ss, cur).value
  {
    hide StopAt;
  }

  lemma StopNext(codec: BlockCodec, src: seq<byte>, total: nat, ss: nat, cap: nat, cur: nat, have: nat)
    requires ss >= 1 && have < cap && StopAt(src, total, ss, cur).None?
    ensures var at := cur + Padding(cur, ss); var n := LeU32(src, at); var start := at + LZO_LEN;
      StopFrom(codec, src, total, ss, cap, cur, have)
      == match codec(src[start..Min(start + n, |src|)], SegmentCap(ss))
         case None => Undecodable
         case Some(plain) => StopFrom(codec, src, total, ss, cap, start + n, Min(cap, have + |plain|))
  {
    hide StopAt, LeU32, Padding, SegmentCap;
  }

  /**
    The decoder's loop.  The cursor strictly increases and every slice taken lies
    inside the source; on a source of fewer than 2^63 bytes no cursor sum reaches 2^64.
  */
  method DecompressLzo(codec: BlockCodec, src: seq<byte>, cap: nat, sectorsize: u32)
    returns (r: Result<seq<byte>>, ghost stop: Stop)
    ensures r == Decoded(codec, src, cap, sectorsize)
    ensures stop == StopOf(codec, src, cap, sectorsize)
  {
    hide LeU32, Blocks, DecodeBlocks, StopFrom;
    var ss := Max(sectorsize, 1);
    var total := Max(Min(LeU32(src, 0), |src|), LZO_LEN);
    var cur := LZO_LEN;
    var out: seq<byte> := [];
    var segmentCap := ss + ss / 16 + 64;
    while cur < total && |out| < cap
      invariant cur >= LZO_LEN
      invariant |out| <= cap
      invariant |src| < 0x8000_0000_0000_0000 ==> cur + LZO_LEN < U64_LIMIT
      invariant DecodeBlocks(codec, Blocks(src, total, ss, cur), segmentCap, cap, out)
        == Decoded(codec, src, cap, sectorsize)
      invariant StopFrom(codec, src, total, ss, cap, cur, |out|) == StopOf(codec, src, cap, sectorsize)
      decreases total - cur
    {
      ghost var entry := cur;
      if cur % ss + LZO_LEN > ss {
        cur := cur + (ss - cur % ss);
        if cur >= total {
          StopHere(codec, src, total, ss, cap, entry, |out|);
          NoMoreBlocks(src, total, ss, entry);
          DecodeDone(codec, [], segmentCap, cap, out);
          return Ok(Take(out, cap)), SkippedToTotal;
        }
      }
      assert cur == entry + Padding(entry, ss);
      if cur + LZO_LEN > |src| {
        StopHere(codec, src, total, ss, cap, entry, |out|);
        NoMoreBlocks(src, total, ss, entry);
        DecodeDone(codec, [], segmentCap, cap, out);
        return Ok(Take(out, cap)), HeaderCutOff;
      }
      var segLen := LeU32(src, cur);
      cur := cur + LZO_LEN;
      if segLen == 0 {
        StopHere(codec, src, total, ss, cap, entry, |out|);
        NoMoreBlocks(src, total, ss, entry);
        DecodeDone(codec, [], segmentCap, cap, out);
        return Ok(Take(out, cap)), ZeroLength;
      }
      BlocksNext(src, total, ss, entry);
      StopNext(codec, src, total, ss, cap, entry, |out|);
      var seg := src[cur..Min(cur + segLen, |src|)];
      cur := cur + segLen;
      DecodeNext(codec, Block(segLen, seg), Blocks(src, total, ss, cur), segmentCap, cap, out);
      match codec(seg, segmentCap) {
        case Some(plain) =>
          out := out + Take(plain, cap - |out|);
        case None =>
          return Err(Truncated(LzoSegment, segLen, |out|)), Undecodable;
      }
    }
    StopHere(codec, src, total, ss, cap, cur, |out|);
    if cur >= total {
      NoMoreBlocks(src, total, ss, cur);
    }
    DecodeDone(codec, Blocks(src, total, ss, cur), segmentCap, cap, out);
    r, stop := Ok(Take(out, cap)), LoopDone;
  }

  // ---- bounds ----

  /** Whatever the input and the block decoder, no more than `cap` bytes come out. */
  lemma {:induction false} DecodedBounded(codec: BlockCodec, blocks: seq<Block>, segmentCap: nat, cap: nat, out: seq<byte>)
    ensures var r := DecodeBlocks(codec, blocks, segmentCap, cap, out); r.Ok? ==> |r.value| <= cap
    decreases |blocks|
  {
    if blocks != [] && |out| < cap && codec(blocks[0].bytes, segmentCap).Some? {
      DecodedBounded(codec, blocks[1..], segmentCap, cap,
        out + Take(codec(blocks[0].bytes, segmentCap).value, cap - |out|));
    }
  }

  // ---- the writer ----

  /** A compressed block and what it decodes to. */
  datatype Segment = Segment(block: seq<byte>, plain: seq<byte>)

  predicate Encodes(codec: BlockCodec, ss: nat, s: Segment) {
    0 < |s.block| < 0x1_0000_0000 && codec(s.block, SegmentCap(ss)) == Some(s.plain)
  }

  ghost predicate AllEncode(codec: BlockCodec, ss: nat, segs: seq<Segment>) {
    forall i :: 0 <= i < |segs| ==> Encodes(codec, ss, segs[i])
  }

  function HeaderAt(pos: nat, ss: nat): nat
    requires ss >= 1
  {
    pos + Padding(pos, ss)
  }

  /** The segments laid out from `pos`. */
  function Body(segs: seq<Segment>, ss: nat, pos: nat): seq<byte>
    requires ss >= 1
    decreases |segs|
  {
    if segs == [] then []
    else
      var block := segs[0].block;
      Zeros(Padding(pos, ss)) + LeBytes(|block|, LZO_LEN) + block
      + Body(segs[1..], ss, HeaderAt(pos, ss) + LZO_LEN + |block|)
  }

  /** A frame whose total also counts `pad` zero bytes after the last segment. */
  function Frame(segs: seq<Segment>, ss: nat, pad: nat): seq<byte>
    requires ss >= 1
  {
    var body := Body(segs, ss, LZO_LEN);
    LeBytes(LZO_LEN + |body| + pad, LZO_LEN) + body + Zeros(pad)
  }

  function Plain(segs: seq<Segment>): seq<byte> {
    if segs == [] then [] else segs[0].plain + Plain(segs[1..])
  }

  function FramedBlocks(segs: seq<Segment>): seq<Block> {
    if segs == [] then [] else [Block(|segs[0].block|, segs[0].block)] + FramedBlocks(segs[1..])
  }

  lemma NextMultiple(pos: nat, ss: nat)
    requires ss >= 1
    ensures (pos + (ss - pos % ss)) % ss == 0
  {
    var q := pos / ss;
    assert pos + (ss - pos % ss) == ss * (q + 1);
    MultipleMod(q + 1, ss);
  }

  /** With sectors of at least four bytes a header never crosses a sector boundary. */
  lemma HeaderInsideSector(pos: nat, ss: nat)
    requires ss >= LZO_LEN
    ensures HeaderAt(pos, ss) % ss + LZO_LEN <= ss
  {
    if pos % ss + LZO_LEN > ss {
      NextMultiple(pos, ss);
    }
  }

  // ---- framing round trip ----

  lemma BodyParts(segs: seq<Segment>, ss: nat, pos: nat)
    requires ss >= 1 && segs != []
    ensures var body := Body(segs, ss, pos); var pad := Padding(pos, ss); var n := |segs[0].block|;
      var later := Body(segs[1..], ss, HeaderAt(pos, ss) + LZO_LEN + n);
      |body| == pad + LZO_LEN + n + |later|
      && body[..pad] == Zeros(pad)
      && body[pad..pad + LZO_LEN] == LeBytes(n, LZO_LEN)
      && body[pad + LZO_LEN..pad + LZO_LEN + n] == segs[0].block
      && body[pad + LZO_LEN + n..] == later
      && body[pad + LZO_LEN + n..|body|] == later
  {
    hide LeBytes, Padding;
  }

  lemma EmptyBody(ss: nat, pos: nat)
    requires ss >= 1
    ensures Body([], ss, pos) == []
  {
  }

  lemma HeaderRead(src: seq<byte>, at: nat, n: nat)
    requires at + LZO_LEN <= |src| && src[at..at + LZO_LEN] == LeBytes(n, LZO_LEN) && n < 0x1_0000_0000
    ensures LeU32(src, at) == n
  {
    hide LeBytes, LeValue, Field;
    Pow256Values();
    ReadNumber(src, at, LeBytes(n, LZO_LEN), 0, LZO_LEN, n);
  }

  /** Scanning a laid-out body finds its blocks and goes on behind it. */
  lemma {:induction false} BodyScanned(src: seq<byte>, total: nat, ss: nat, cur: nat, segs: seq<Segment>)
    requires ss >= 1 && forall i :: 0 <= i < |segs| ==> 0 < |segs[i].block| < 0x1_0000_0000
    requires cur + |Body(segs, ss, cur)| <= total <= |src|
    requires src[cur..cur + |Body(segs, ss, cur)|] == Body(segs, ss, cur)
    ensures Blocks(src, total, ss, cur) == FramedBlocks(segs) + Blocks(src, total, ss, cur + |Body(segs, ss, cur)|)
    decreases |segs|
  {
    hide LeBytes, LeU32, Padding, Blocks, Body;
    if segs == [] {
      EmptyBody(ss, cur);
    } else {
      var block, body := segs[0].block, Body(segs, ss, cur);
      var pad := Padding(cur, ss);
      var at, start := cur + pad, cur + pad + LZO_LEN;
      var next := start + |block|;
      var later := Body(segs[1..], ss, next);
      BodyParts(segs, ss, cur);
      Within(src, cur, body, pad, pad + LZO_LEN);
      Within(src, cur, body, pad + LZO_LEN, next - cur);
      Within(src, cur, body, next - cur, |body|);
      HeaderRead(src, at, |block|);
      assert Min(next, |src|) == next;
      BlocksNext(src, total, ss, cur);
      BodyScanned(src, total, ss, next, segs[1..]);
      assert FramedBlocks(segs) == [Block(|block|, block)] + FramedBlocks(segs[1..]);
    }
  }

  /** Decoding the blocks of segments appends their plaintexts, cut at `cap`. */
  lemma {:induction false} SegmentsDecode(codec: BlockCodec, segs: seq<Segment>, ss: nat, cap: nat, out: seq<byte>)
    requires AllEncode(codec, ss, segs) && |out| <= cap
    ensures DecodeBlocks(codec, FramedBlocks(segs), SegmentCap(ss), cap, out) == Ok(Take(out + Plain(segs), cap))
    decreases |segs|
  {
    if segs == [] {
      assert out + Plain(segs) == out;
    } else if |out| >= cap {
      assert Take(out + Plain(segs), cap) == out == Take(out, cap);
    } else {
      assert Encodes(codec, ss, segs[0]);
      assert forall i :: 0 <= i < |segs[1..]| ==> segs[1..][i] == segs[i + 1];
      var plain := segs[0].plain;
      var more := out + Take(plain, cap - |out|);
      var blocks := FramedBlocks(segs);
      assert blocks[1..] == FramedBlocks(segs[1..]);
      SegmentsDecode(codec, segs[1..], ss, cap, more);
      assert out + Plain(segs) == (out + plain) + Plain(segs[1..]);
      if |plain| <= cap - |out| {
        assert more == out + plain;
      } else {
        assert Take(more + Plain(segs[1..]), cap) == more == Take(out + Plain(segs), cap);
      }
    }
  }

  /** The pad counted by the total hides no header: it is skipped, cut off by the source's end, or a zero is read there. */
  predicate PadHarmless(at: nat, ss: nat, pad: nat, behind: seq<byte>)
    requires ss >= 1
  {
    var skipped := Padding(at, ss);
    pad <= skipped || pad + |behind| < skipped + LZO_LEN
    || (Zeros(pad) + behind)[skipped..skipped + LZO_LEN] == Zeros(LZO_LEN)
  }

  lemma ZeroHeader(src: seq<byte>, at: nat)
    requires at + LZO_LEN <= |src|
    ensures LeU32(src, at) == 0 <==> src[at..at + LZO_LEN] == Zeros(LZO_LEN)
  {
    hide LeValue, Field, Zeros;
    ZeroField(src, at, LZO_LEN);
  }

  lemma NothingInPad(src: seq<byte>, total: nat, ss: nat, cur: nat, pad: nat)
    requires ss >= 1 && cur + pad == total <= |src|
    requires src[cur..total] == Zeros(pad)
    ensures Blocks(src, total, ss, cur) == [] <==> PadHarmless(cur, ss, pad, src[total..])
  {
    hide LeU32, Padding;
    var skipped := Padding(cur, ss);
    if cur + skipped + LZO_LEN <= |src| {
      ZeroHeader(src, cur + skipped);
      assert src[cur..] == Zeros(pad) + src[total..];
      assert src[cur..][skipped..skipped + LZO_LEN] == src[cur + skipped..cur + skipped + LZO_LEN];
    }
  }

  /**
    A framed list of segments followed by any bytes decodes to the first `cap`
    bytes of the plaintexts, for every sector size.  A zero pad counted by the
    total adds no block exactly when it cannot be taken for a header.
  */
  lemma FrameRoundTrip(codec: BlockCodec, segs: seq<Segment>, sectorsize: u32, pad: nat,
      behind: seq<byte>, cap: nat)
    requires AllEncode(codec, Sector(sectorsize), segs)
    requires |Frame(segs, Sector(sectorsize), pad)| < 0x1_0000_0000
    ensures var ss := Sector(sectorsize); var src := Frame(segs, ss, pad) + behind;
      var harmless := PadHarmless(|Frame(segs, ss, 0)|, ss, pad, behind);
      (Blocks(src, FrameTotal(src), ss, LZO_LEN) == FramedBlocks(segs) <==> harmless)
      && (harmless ==> Decoded(codec, src, cap, sectorsize) == Ok(Take(Plain(segs), cap)))
  {
    hide LeBytes, LeU32, PadHarmless, Blocks, DecodeBlocks, Body;
    var ss := Sector(sectorsize);
    var body := Body(segs, ss, LZO_LEN);
    var frame := Frame(segs, ss, pad);
    var src := frame + behind;
    var total := |frame|;
    var end := LZO_LEN + |body|;
    assert src[0..LZO_LEN] == LeBytes(total, LZO_LEN);
    HeaderRead(src, 0, total);
    assert FrameTotal(src) == total;
    assert src[LZO_LEN..end] == body;
    assert src[end..total] == Zeros(pad) && src[total..] == behind;
    forall i | 0 <= i < |segs|
      ensures 0 < |segs[i].block| < 0x1_0000_0000
    {
      assert Encodes(codec, ss, segs[i]);
    }
    BodyScanned(src, total, ss, LZO_LEN, segs);
    NothingInPad(src, total, ss, end, pad);
    assert FramedBlocks(segs) + [] == FramedBlocks(segs);
    SegmentsDecode(codec, segs, ss, cap, []);
    assert [] + Plain(segs) == Plain(segs);
  }

  /** With no extra pad the round trip needs no side condition. */
  lemma TightFrameRoundTrip(codec: BlockCodec, segs: seq<Segment>, sectorsize: u32, behind: seq<byte>, cap: nat)
    requires AllEncode(codec, Sector(sectorsize), segs)
    requires |Frame(segs, Sector(sectorsize), 0)| < 0x1_0000_0000
    ensures Decoded(codec, Frame(segs, Sector(sectorsize), 0) + behind, cap, sectorsize) == Ok(Take(Plain(segs), cap))
  {
    hide Frame, AllEncode, Decoded, Blocks;
    FrameRoundTrip(codec, segs, sectorsize, 0, behind, cap);
  }

  lemma ByteDigits()
    ensures LeBytes(256, LZO_LEN) == [0, 1, 0, 0]
    ensures LeBytes(5, LZO_LEN) == [5, 0, 0, 0]
  {
    assert LeBytes(0, 1) == [0] + LeBytes(0, 0);
    assert LeBytes(0, 2) == [0] + LeBytes(0, 1);
    assert LeBytes(1, 3) == [1] + LeBytes(0, 2);
    assert LeBytes(256, 4) == [0] + LeBytes(1, 3);
    assert LeBytes(0, 3) == [0] + LeBytes(0, 2);
    assert LeBytes(5, 4) == [5] + LeBytes(0, 3);
  }

  lemma ShortPadHarms(behind: seq<byte>)
    requires behind == [1, 0, 0, 7]
    ensures !PadHarmless(4, 4096, 1, behind)
  {
    assert (Zeros(1) + behind)[0..LZO_LEN][1] == 1 && Zeros(LZO_LEN)[1] == 0;
  }

  /**
    A pad of one to three bytes followed by other data is read as a header that
    runs past the declared total: an empty frame padded by one zero byte then
    hands bytes behind the frame to the block decoder.
  */
  lemma ShortPadLeaks(codec: BlockCodec, behind: seq<byte>)
    requires behind == [1, 0, 0, 7]
    ensures !PadHarmless(4, 4096, 1, behind)
    ensures codec([7], SegmentCap(4096)).None?
      ==> Decoded(codec, Frame([], 4096, 1) + behind, 16, 4096) == Err(Truncated(LzoSegment, 256, 0))
  {
    hide LeU32, LeBytes, PadHarmless;
    ShortPadHarms(behind);
    var src := Frame([], 4096, 1) + behind;
    assert Body([], 4096, LZO_LEN) == [];
    ByteDigits();
    assert src == LeBytes(5, LZO_LEN) + [0] + behind;
    assert src == [5, 0, 0, 0, 0, 1, 0, 0, 7];
    assert src[0..LZO_LEN] == [5, 0, 0, 0];
    HeaderRead(src, 0, 5);
    assert src[4..4 + LZO_LEN] == [0, 1, 0, 0];
    HeaderRead(src, 4, 256);
    assert Padding(4, 4096) == 0;
    var blocks := Blocks(src, 5, 4096, 4);
    assert src[8..Min(8 + 256, |src|)] == [7];
    assert blocks == [Block(256, [7])] + Blocks(src, 5, 4096, 264);
  }

  // ---- where the loop breaks ----

  predicate ZerosAt(rest: seq<byte>, at: nat) {
    at + LZO_LEN <= |rest| && rest[at..at + LZO_LEN] == Zeros(LZO_LEN)
  }

  /**
    The breaks described as unreachable, at a cursor `pad` bytes short of the total:
    the padding break is taken exactly when the skip covers the pad, the slice break
    exactly when what is left of the source is too short for a header behind the
    skip, and the zero-length break exactly when four zeros are read there.
  */
  lemma BreaksExactly(src: seq<byte>, total: nat, ss: nat, cur: nat, pad: nat)
    requires ss >= 1 && cur + pad == total <= |src|
    ensures var stop := StopAt(src, total, ss, cur); var skipped := Padding(cur, ss); var left := pad + |src[total..]|;
      (stop == Some(SkippedToTotal) <==> 0 < pad <= skipped)
      && (stop == Some(HeaderCutOff) <==> skipped < pad && left < skipped + LZO_LEN)
      && (stop == Some(ZeroLength) <==> skipped < pad && ZerosAt(src[cur..], skipped))
      && (stop == Some(LoopDone) <==> pad == 0)
  {
    hide LeU32, Padding, Zeros;
    var skipped := Padding(cur, ss);
    if cur + skipped + LZO_LEN <= |src| {
      ZeroHeader(src, cur + skipped);
      assert src[cur..][skipped..skipped + LZO_LEN] == src[cur + skipped..cur + skipped + LZO_LEN];
    }
  }

  /** One laid-out segment is taken whatever follows it, or the output is full. */
  lemma SegmentTaken(codec: BlockCodec, src: seq<byte>, total: nat, ss: nat, cap: nat, cur: nat, have: nat,
      s: Segment)
    requires ss >= 1 && have <= cap && cur < total <= |src| && Encodes(codec, ss, s)
    requires var at := cur + Padding(cur, ss); var start := at + LZO_LEN;
      start + |s.block| <= total && LeU32(src, at) == |s.block| && src[start..start + |s.block|] == s.block
    ensures StopFrom(codec, src, total, ss, cap, cur, have)
      == if have == cap then LoopDone
         else StopFrom(codec, src, total, ss, cap, cur + Padding(cur, ss) + LZO_LEN + |s.block|, Min(cap, have + |s.plain|))
  {
    hide LeU32, Padding, SegmentCap, StopFrom;
    if have == cap {
      StopHere(codec, src, total, ss, cap, cur, have);
    } else {
      StopNext(codec, src, total, ss, cap, cur, have);
    }
  }

  /** The segments of a laid-out body are all taken, unless the output fills up first. */
  lemma {:induction false} BodyTaken(codec: BlockCodec, src: seq<byte>, total: nat, ss: nat, cap: nat, cur: nat, have: nat,
      segs: seq<Segment>)
    requires ss >= 1 && have <= cap && AllEncode(codec, ss, segs)
    requires cur + |Body(segs, ss, cur)| <= total <= |src|
    requires src[cur..cur + |Body(segs, ss, cur)|] == Body(segs, ss, cur)
    ensures StopFrom(codec, src, total, ss, cap, cur, have)
      == StopFrom(codec, src, total, ss, cap, cur + |Body(segs, ss, cur)|, Min(cap, have + |Plain(segs)|))
    decreases |segs|
  {
    hide LeBytes, LeU32, Padding, StopFrom, StopAt, Body, SegmentCap;
    if segs == [] {
      EmptyBody(ss, cur);
    } else {
      var block, body := segs[0].block, Body(segs, ss, cur);
      var pad := Padding(cur, ss);
      var at, start := cur + pad, cur + pad + LZO_LEN;
      var next := start + |block|;
      assert Encodes(codec, ss, segs[0]);
      assert forall i :: 0 <= i < |segs[1..]| ==> segs[1..][i] == segs[i + 1];
      BodyParts(segs, ss, cur);
      Within(src, cur, body, pad, pad + LZO_LEN);
      Within(src, cur, body, pad + LZO_LEN, next - cur);
      Within(src, cur, body, next - cur, |body|);
      HeaderRead(src, at, |block|);
      SegmentTaken(codec, src, total, ss, cap, cur, have, segs[0]);
      if have == cap {
        StopHere(codec, src, total, ss, cap, cur + |body|, cap);
      }
      BodyTaken(codec, src, total, ss, cap, next, Min(cap, have + |segs[0].plain|), segs[1..]);
    }
  }

  /** Behind the last segment of a padded frame. */
  lemma PadStops(codec: BlockCodec, src: seq<byte>, total: nat, ss: nat, cap: nat, cur: nat, have: nat, pad: nat)
    requires ss >= 1 && cur + pad == total <= |src| && src[cur..total] == Zeros(pad)
    ensures var stop := StopFrom(codec, src, total, ss, cap, cur, have); var first := StopAt(src, total, ss, cur);
      stop == if have >= cap then LoopDone
        else if first.Some? then first.value
        else if stop == Undecodable then Undecodable else LoopDone
  {
    hide LeU32, Padding, SegmentCap;
    var at := cur + Padding(cur, ss);
    if StopAt(src, total, ss, cur).None? && at + LZO_LEN <= total {
      Within(src, cur, Zeros(pad), at - cur, at - cur + LZO_LEN);
      assert Zeros(pad)[at - cur..at - cur + LZO_LEN] == Zeros(LZO_LEN);
      ZeroHeader(src, at);
    }
  }

  /**
    Decoding a framed list of segments padded by `pad` zeros, whatever follows the
    frame: each break is taken exactly when the output is not full by then and the
    pad has the stated length.
  */
  lemma FrameStops(codec: BlockCodec, segs: seq<Segment>, sectorsize: u32, pad: nat, behind: seq<byte>, cap: nat)
    requires AllEncode(codec, Sector(sectorsize), segs)
    requires |Frame(segs, Sector(sectorsize), pad)| < 0x1_0000_0000
    ensures var ss := Sector(sectorsize); var src := Frame(segs, ss, pad) + behind;
      var stop := StopOf(codec, src, cap, sectorsize); var more := |Plain(segs)| < cap;
      var skipped := Padding(|Frame(segs, ss, 0)|, ss);
      (stop == SkippedToTotal <==> more && 0 < pad <= skipped)
      && (stop == HeaderCutOff <==> more && skipped < pad && pad + |behind| < skipped + LZO_LEN)
      && (stop == ZeroLength <==> more && skipped < pad && ZerosAt(Zeros(pad) + behind, skipped))
  {
    hide LeBytes, LeU32, Padding, StopFrom, StopAt, Body, AllEncode, Zeros;
    var ss := Sector(sectorsize);
    var body, frame := Body(segs, ss, LZO_LEN), Frame(segs, ss, pad);
    var src, total, end := frame + behind, |frame|, LZO_LEN + |body|;
    assert src[0..LZO_LEN] == LeBytes(total, LZO_LEN);
    HeaderRead(src, 0, total);
    assert src[LZO_LEN..end] == body;
    assert src[end..total] == Zeros(pad) && src[total..] == behind && src[end..] == Zeros(pad) + behind;
    BodyTaken(codec, src, total, ss, cap, LZO_LEN, 0, segs);
    PadStops(codec, src, total, ss, cap, end, Min(cap, |Plain(segs)|), pad);
    BreaksExactly(src, total, ss, end, pad);
  }

  /** Whichever break ends a padded frame, everything framed has been decoded. */
  lemma BreakLosesNothing(codec: BlockCodec, segs: seq<Segment>, sectorsize: u32, pad: nat,
      behind: seq<byte>, cap: nat)
    requires AllEncode(codec, Sector(sectorsize), segs)
    requires |Frame(segs, Sector(sectorsize), pad)| < 0x1_0000_0000
    requires var src := Frame(segs, Sector(sectorsize), pad) + behind;
      StopOf(codec, src, cap, sectorsize) in {SkippedToTotal, HeaderCutOff, ZeroLength}
    ensures Decoded(codec, Frame(segs, Sector(sectorsize), pad) + behind, cap, sectorsize) == Ok(Plain(segs))
  {
    hide Frame, AllEncode, Decoded, Blocks, StopOf, Padding, Plain;
    FrameStops(codec, segs, sectorsize, pad, behind, cap);
    FrameRoundTrip(codec, segs, sectorsize, pad, behind, cap);
    assert PadHarmless(|Frame(segs, Sector(sectorsize), 0)|, Sector(sectorsize), pad, behind);
    assert Take(Plain(segs), cap) == Plain(segs);
  }

  /** Three frames without segments, one for each break. */
  lemma BreaksReached(codec: BlockCodec)
    ensures StopOf(codec, Frame([], 5, 1), 16, 5) == SkippedToTotal
    ensures StopOf(codec, Frame([], 4096, 1), 16, 4096) == HeaderCutOff
    ensures StopOf(codec, Frame([], 4096, 4), 16, 4096) == ZeroLength
  {
    hide StopOf, LeBytes;
    assert Plain([]) == [] && Body([], 5, LZO_LEN) == [] && Body([], 4096, LZO_LEN) == [];
    FrameStops(codec, [], 5, 1, [], 16);
    FrameStops(codec, [], 4096, 1, [], 16);
    FrameStops(codec, [], 4096, 4, [], 16);
    assert Frame([], 5, 1) + [] == Frame([], 5, 1);
    assert Frame([], 4096, 1) + [] == Frame([], 4096, 1);
    assert Frame([], 4096, 4) + [] == Frame([], 4096, 4);
    assert (Zeros(4) + [])[0..LZO_LEN] == Zeros(4);
  }
}
