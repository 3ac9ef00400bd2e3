/** The superblock fields the reader and the auditor use (core/src/superblock.rs). */
module Superblocks {
  import opened Wrappers
  import opened Bytes
  import opened Crc
  import opened SysChunks

  const SUPER_INFO_OFFSET: nat := 65536
  const SUPER_INFO_SIZE: nat := 4096
  const MAGIC: seq<byte> := [0x5f, 0x42, 0x48, 0x52, 0x66, 0x53, 0x5f, 0x4d]
  const SB_MIN_LEN: nat := 0xc9

  /** The bytes the superblock's checksum covers end here. */
  function CoveredEnd(block: seq<byte>): nat {
    Max(Min(LeU32(block, 0x90), |block|), CSUM_SIZE)
  }

  datatype Superblock = Superblock(
    fsid: seq<byte>, generation: u64, root: u64, chunkRoot: u64, sectorsize: u32, nodesize: u32,
    sysChunks: seq<SysChunk>, crcValid: Option<bool>)

  function ParsedSuperblock(block: seq<byte>): Result<Superblock> {
    var magic := BytesAt(block, 0x40, 8);
    if magic != MAGIC then Err(BadMagic(magic))
    else if |block| < SB_MIN_LEN then Err(Truncated(BtrfsSuperblock, SB_MIN_LEN, |block|))
    else
      var sectorsize := LeU32(block, 0x90);
      var covered := CoveredEnd(block);
      var arrayEnd := Min(SYS_CHUNK_ARRAY_OFFSET + LeU32(block, 0xa0), |block|);
      Ok(Superblock(BytesAt(block, 0x20, 16), LeU64(block, 0x48), LeU64(block, 0x50), LeU64(block, 0x58),
        sectorsize, LeU32(block, 0x94), EntriesFrom(block, arrayEnd, SYS_CHUNK_ARRAY_OFFSET),
        CrcStatus(CsumTypeOf(LeU16(block, 0xc4)), block, covered)))
  }

  /** The 4096-byte block at the primary superblock's offset. */
  function SuperblockBlock(image: seq<byte>): Option<seq<byte>> {
    if SUPER_INFO_OFFSET + SUPER_INFO_SIZE <= |image|
    then Some(image[SUPER_INFO_OFFSET..SUPER_INFO_OFFSET + SUPER_INFO_SIZE])
    else None
  }

  lemma SameField(block: seq<byte>, at: nat, w: seq<byte>, off: nat, width: nat)
    requires at + |w| <= |block| && off + width <= |block|
    requires at + |w| <= off || off + width <= at
    ensures Field(Splice(block, at, w), off, width) == Field(block, off, width)
    ensures BytesAt(Splice(block, at, w), off, width) == BytesAt(block, off, width)
  {
    hide BytesAt;
    SpliceOutside(block, at, w, off, off + width);
  }

  /** The fields that decide whether a superblock's checksum is looked at: the magic, and checksum type zero. */
  predicate ReadsAsCrc32c(block: seq<byte>)
    requires |block| >= SB_MIN_LEN
  {
    BytesAt(block, 0x40, 8) == MAGIC && block[0xc4..0xc6] == [0, 0]
  }

  lemma CsumTypeZero(block: seq<byte>)
    requires |block| >= SB_MIN_LEN
    ensures CsumTypeOf(LeU16(block, 0xc4)) == Crc32c <==> block[0xc4..0xc6] == [0, 0]
  {
    hide LeValue, Field;
    ZeroField(block, 0xc4, 2);
    assert Zeros(2) == [0, 0];
  }

  /** A superblock's status is read from its own bytes: failed when its fields ask for CRC32c and the digest differs. */
  lemma StatusOf(block: seq<byte>)
    requires |block| >= SB_MIN_LEN
    ensures var r := ParsedSuperblock(block);
      (r.Ok? <==> BytesAt(block, 0x40, 8) == MAGIC)
      && (r.Ok? ==> r.value.crcValid == if block[0xc4..0xc6] == [0, 0] then Some(VerifyCrc32c(block, CoveredEnd(block))) else None)
  {
    hide EntriesFrom, VerifyCrc32c, LeValue, Field, BytesAt, CsumTypeOf, CoveredEnd;
    CsumTypeZero(block);
  }

  /** The rewrite changes a byte of the stored digest or of the covered range. */
  ghost predicate ChangesGuarded(block: seq<byte>, at: nat, w: seq<byte>)
    requires at + |w| <= |block|
  {
    exists k :: Changed(block, at, w, k) && Guarded(CoveredEnd(block), k)
  }

  lemma ParsedLongEnough(block: seq<byte>)
    requires ParsedSuperblock(block).Ok?
    ensures |block| >= SB_MIN_LEN
  {
    hide EntriesFrom, CrcStatus, BytesAt;
  }

  /** What decides the verdict on a rewritten block whose checksum is looked at. */
  ghost predicate Betrayed(block: seq<byte>, at: nat, w: seq<byte>)
    requires at + |w| <= |block|
  {
    var changed := Splice(block, at, w);
    var covered := CoveredEnd(changed);
    if covered == CoveredEnd(block) then ChangesGuarded(block, at, w)
    else covered == CSUM_SIZE || DigestBytes(Crc32cOf(changed[CSUM_SIZE..covered])) != changed[..4]
  }

  lemma LengthBetrays(block: seq<byte>)
    requires |block| >= SB_MIN_LEN
    ensures var covered := CoveredEnd(block);
      VerifyCrc32c(block, covered)
      <==> covered != CSUM_SIZE && DigestBytes(Crc32cOf(block[CSUM_SIZE..covered])) == block[..4]
  {
    hide Crc32cOf, DigestBytes, LeValue, Field;
  }

  /**
    Any rewrite of up to four consecutive bytes of a verified superblock is seen
    exactly when what it leaves still carries the magic and checksum type zero and
    one of these holds: it keeps the covered length and changes a guarded byte; it
    sets a sector size that covers nothing; it sets another covered length, over
    which the stored digest is wrong.
  */
  lemma SuperblockTamper(block: seq<byte>, at: nat, w: seq<byte>)
    requires ParsedSuperblock(block).Ok? && ParsedSuperblock(block).value.crcValid == Some(true)
    requires at + |w| <= |block| && |w| <= 4
    ensures var changed := Splice(block, at, w); var r := ParsedSuperblock(changed);
      r.Ok? && r.value.crcValid == Some(false) <==> ReadsAsCrc32c(changed) && Betrayed(block, at, w)
  {
    hide VerifyCrc32c, BytesAt, Splice, CoveredEnd, Changed, Guarded, ParsedSuperblock, Crc32cOf, DigestBytes;
    ParsedLongEnough(block);
    StatusOf(block);
    StatusOf(Splice(block, at, w));
    LengthBetrays(Splice(block, at, w));
    BurstTamper(block, CoveredEnd(block), at, w);
  }

  lemma SmallSector(block: seq<byte>)
    requires |block| >= SB_MIN_LEN
    ensures CoveredEnd(block) == CSUM_SIZE <==> LeU32(block, 0x90) <= CSUM_SIZE
  {
    hide LeU32;
  }

  lemma SectorRead(block: seq<byte>, w: seq<byte>)
    requires |block| >= SB_MIN_LEN && |w| == 4
    ensures LeU32(Splice(block, 0x90, w), 0x90) == LeValue(w)
  {
    hide LeValue;
    assert Splice(block, 0x90, w)[0x90..0x94] == w;
  }

  /** Rewriting the sector size to 32 or less covers nothing and is always seen. */
  lemma SectorSizeSeen(block: seq<byte>, w: seq<byte>)
    requires ParsedSuperblock(block).Ok? && ParsedSuperblock(block).value.crcValid == Some(true)
    requires |w| == 4 && LeValue(w) <= CSUM_SIZE
    ensures |block| >= SB_MIN_LEN
    ensures var r := ParsedSuperblock(Splice(block, 0x90, w)); r.Ok? && r.value.crcValid == Some(false)
  {
    hide VerifyCrc32c, BytesAt, CoveredEnd, ParsedSuperblock, LeValue, Betrayed, Splice;
    ParsedLongEnough(block);
    var changed := Splice(block, 0x90, w);
    StatusOf(block);
    StatusOf(changed);
    SameField(block, 0x90, w, 0x40, 8);
    SpliceOutside(block, 0x90, w, 0xc4, 0xc6);
    SectorRead(block, w);
    SmallSector(changed);
    LengthBetrays(changed);
  }

  /** Rewriting the checksum type of any verified superblock switches its check off. */
  lemma ChecksumTypeEscapes(block: seq<byte>)
    requires ParsedSuperblock(block).Ok? && ParsedSuperblock(block).value.crcValid == Some(true)
    ensures |block| >= SB_MIN_LEN
    ensures var r := ParsedSuperblock(Splice(block, 0xc4, [1])); r.Ok? && r.value.crcValid == None
  {
    hide VerifyCrc32c, BytesAt, CoveredEnd, ParsedSuperblock;
    ParsedLongEnough(block);
    StatusOf(block);
    var changed := Splice(block, 0xc4, [1]);
    SameField(block, 0xc4, [1], 0x40, 8);
    StatusOf(changed);
    assert changed[0xc4..0xc6][0] == 1;
  }

  /** Rewriting a byte of the magic of any superblock makes it no superblock. */
  lemma MagicEscapes(block: seq<byte>, v: byte)
    requires ParsedSuperblock(block).Ok? && v != MAGIC[0]
    ensures |block| >= SB_MIN_LEN && ParsedSuperblock(Splice(block, 0x40, [v])).Err?
  {
    hide VerifyCrc32c, CoveredEnd, ParsedSuperblock;
    ParsedLongEnough(block);
    var changed := Splice(block, 0x40, [v]);
    StatusOf(changed);
    assert BytesAt(changed, 0x40, 8) == changed[0x40..0x48];
    assert changed[0x40..0x48][0] == v;
  }
}
