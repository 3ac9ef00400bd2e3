/**
  A superblock written out (core/tests/node.rs): one system chunk, one backup slot,
  a good checksum.
*/
module WrittenSupers {
  import opened Wrappers
  import opened Bytes
  import opened Crc
  import opened SysChunks
  import opened Superblocks
  import opened ChunkMaps
  import opened Backups

  const NODE: nat := 4096
  const GROUND: nat := 131072
  const SPAN: nat := 65536

  // ---- the writer ----

  /** The one system chunk: `SPAN` bytes from `base` on, lying at `GROUND`. */
  function Mapping(base: u64): (r: Record)
    ensures RecordFormed(r)
  {
    OneStripe(base, SPAN, GROUND)
  }

  function FrontBytes(): (bs: seq<byte>)
    ensures |bs| == 0x20
  {
    Zeros(16) + LeBytes(65536, 8) + Zeros(8)
  }

  function RootBytes(root: u64, chunkRoot: u64): (bs: seq<byte>)
    ensures |bs| == 0x20
  {
    MAGIC + Zeros(8) + LeBytes(root, 8) + LeBytes(chunkRoot, 8)
  }

  function SizeBytes(arraySize: nat): (bs: seq<byte>)
    ensures |bs| == 0x44
  {
    Zeros(0x30) + LeBytes(4096, 4) + LeBytes(NODE, 4) + Zeros(8) + LeBytes(arraySize, 4)
  }

  function SlotBytes(b: RootBackup): (bs: seq<byte>)
    ensures |bs| == ROOT_BACKUP_SIZE
  {
    LeBytes(b.treeRoot, 8) + LeBytes(b.treeRootGen, 8) + Zeros(32) + LeBytes(b.fsRoot, 8) + LeBytes(b.fsRootGen, 8) + Zeros(104)
  }

  /** The block before its checksum is written. */
  function Unsealed(root: u64, chunkRoot: u64, array_: seq<byte>, b: RootBackup): (bs: seq<byte>)
    requires |array_| <= 0x800
    ensures |bs| == SUPER_INFO_SIZE
  {
    Zeros(CSUM_SIZE) + FrontBytes() + RootBytes(root, chunkRoot) + SizeBytes(|array_|) + Zeros(0x287)
    + array_ + Zeros(0x800 - |array_|) + SlotBytes(b) + Zeros(0x42d)
  }

  lemma MappingLength(base: u64)
    ensures |ArrayBytes([Mapping(base)])| == 97
  {
    hide EntryBytes;
    var r := Mapping(base);
    var records := [r];
    assert records[0] == r && records[1..] == [];
    assert ArrayBytes(records) == EntryBytes(r.chunk, r.hints) + ArrayBytes([]);
    assert |EntryBytes(r.chunk, r.hints)| == EntrySize(1);
  }

  function MappingBytes(base: u64): (bs: seq<byte>)
    ensures |bs| == 97
  {
    MappingLength(base);
    ArrayBytes([Mapping(base)])
  }

  /** A superblock with this one chunk and this one backup. */
  function SuperBytes(root: u64, chunkRoot: u64, base: u64, b: RootBackup): (bs: seq<byte>)
    ensures |bs| == SUPER_INFO_SIZE
  {
    Reseal(Unsealed(root, chunkRoot, MappingBytes(base), b))
  }

  // ---- what the pieces hold ----

  lemma UnsealedPieces(root: u64, chunkRoot: u64, array_: seq<byte>, b: RootBackup)
    requires |array_| == 97
    ensures var bs := Unsealed(root, chunkRoot, array_, b);
      bs[0x20..0x40] == FrontBytes() && bs[0x40..0x60] == RootBytes(root, chunkRoot) && bs[0x60..0xa4] == SizeBytes(97)
      && bs[0xa4..0x32b] == Zeros(0x287) && bs[0x32b..0x38c] == array_
      && bs[0xb2b..0xbd3] == SlotBytes(b) && bs[0xbd3..0x1000] == Zeros(0x42d)
  {
    hide FrontBytes, RootBytes, SizeBytes, SlotBytes, Zeros;
  }

  lemma SealedPart(bs: seq<byte>, lo: nat, hi: nat)
    requires |bs| > CSUM_SIZE && 4 <= lo <= hi <= |bs|
    ensures Reseal(bs)[lo..hi] == bs[lo..hi]
  {
    hide Crc32cOf, DigestBytes, Splice;
    SpliceOutside(bs, 0, DigestBytes(Crc32cOf(bs[CSUM_SIZE..])), lo, hi);
  }

  lemma SuperPieces(root: u64, chunkRoot: u64, base: u64, b: RootBackup)
    ensures var bs := SuperBytes(root, chunkRoot, base, b);
      bs[0x20..0x40] == FrontBytes() && bs[0x40..0x60] == RootBytes(root, chunkRoot) && bs[0x60..0xa4] == SizeBytes(97)
      && bs[0xa4..0x32b] == Zeros(0x287) && bs[0x32b..0x38c] == MappingBytes(base)
      && bs[0xb2b..0xbd3] == SlotBytes(b) && bs[0xbd3..0x1000] == Zeros(0x42d)
      && VerifyCrc32c(bs, SUPER_INFO_SIZE)
  {
    hide FrontBytes, RootBytes, SizeBytes, SlotBytes, MappingBytes, Unsealed, Reseal, VerifyCrc32c, Zeros;
    var bs := Unsealed(root, chunkRoot, MappingBytes(base), b);
    UnsealedPieces(root, chunkRoot, MappingBytes(base), b);
    SealedPart(bs, 0x20, 0x40);
    SealedPart(bs, 0x40, 0x60);
    SealedPart(bs, 0x60, 0xa4);
    SealedPart(bs, 0xa4, 0x32b);
    SealedPart(bs, 0x32b, 0x38c);
    SealedPart(bs, 0xb2b, 0xbd3);
    SealedPart(bs, 0xbd3, 0x1000);
    ResealVerifies(bs);
  }

  lemma ZeroPart(data: seq<byte>, p: nat, n: nat, at: nat, width: nat)
    requires p + n <= |data| && data[p..p + n] == Zeros(n) && p <= at && at + width <= p + n
    ensures LeValue(Field(data, at, width)) == 0 && data[at..at + width] == Zeros(width)
  {
    hide LeValue, Field;
    Within(data, p, Zeros(n), at - p, at - p + width);
    assert Zeros(n)[at - p..at - p + width] == Zeros(width);
    ZeroField(data, at, width);
  }

  // ---- read back ----

  /** The fields a written superblock is read back with. */
  predicate ReadsBack(sb: Superblock, root: u64, chunkRoot: u64, base: u64) {
    sb.root == root && sb.chunkRoot == chunkRoot && sb.nodesize == NODE && sb.generation == 0 && sb.fsid == Zeros(16)
    && sb.sysChunks == [Mapping(base).chunk] && sb.crcValid == Some(true)
  }

  lemma SuperEntries(bs: seq<byte>, base: u64)
    requires |bs| == SUPER_INFO_SIZE && bs[0x32b..0x38c] == MappingBytes(base)
    ensures EntriesFrom(bs, 0x38c, 0x32b) == [Mapping(base).chunk]
  {
    hide EntriesFrom, ArrayBytes;
    ArrayRoundTrip(bs, 0x32b, 0x38c, [Mapping(base)]);
    assert [Mapping(base)][1..] == [];
  }

  lemma {:induction false} SuperNumbers(bs: seq<byte>, root: u64, chunkRoot: u64)
    requires |bs| == SUPER_INFO_SIZE
    requires bs[0x20..0x40] == FrontBytes() && bs[0x40..0x60] == RootBytes(root, chunkRoot) && bs[0x60..0xa4] == SizeBytes(97)
    ensures LeU64(bs, 0x48) == 0 && LeU64(bs, 0x50) == root && LeU64(bs, 0x58) == chunkRoot
    ensures LeU32(bs, 0x90) == 4096 && LeU32(bs, 0x94) == NODE && LeU32(bs, 0xa0) == 97
    ensures BytesAt(bs, 0x40, 8) == MAGIC && BytesAt(bs, 0x20, 16) == Zeros(16)
  {
    hide LeBytes, LeValue, Field, BytesAt;
    Pow256Values();
    var roots, sizes, front := RootBytes(root, chunkRoot), SizeBytes(97), FrontBytes();
    assert roots[0..8] == MAGIC && roots[16..24] == LeBytes(root, 8) && roots[24..32] == LeBytes(chunkRoot, 8);
    assert roots[8..16] == Zeros(8);
    assert sizes[0x30..0x34] == LeBytes(4096, 4) && sizes[0x34..0x38] == LeBytes(NODE, 4) && sizes[0x40..0x44] == LeBytes(97, 4);
    assert front[0..0x10] == Zeros(16);
    Within(bs, 0x40, roots, 8, 16);
    ZeroField(bs, 0x48, 8);
    ReadNumber(bs, 0x40, roots, 16, 8, root);
    ReadNumber(bs, 0x40, roots, 24, 8, chunkRoot);
    ReadNumber(bs, 0x60, sizes, 0x30, 4, 4096);
    ReadNumber(bs, 0x60, sizes, 0x34, 4, NODE);
    ReadNumber(bs, 0x60, sizes, 0x40, 4, 97);
    FieldInSlice(bs, 0x40, roots, 0, 8);
    FieldInSlice(bs, 0x20, front, 0, 16);
  }

  lemma TwoZeros()
    ensures Zeros(2) == [0, 0]
  {
  }

  /** A written superblock is read back with its roots, its chunk and a checksum that verifies. */
  lemma SuperParsed(root: u64, chunkRoot: u64, base: u64, b: RootBackup)
    ensures var r := ParsedSuperblock(SuperBytes(root, chunkRoot, base, b));
      r.Ok? && ReadsBack(r.value, root, chunkRoot, base)
  {
    hide LeBytes, LeValue, Field, Zeros, BytesAt, EntriesFrom, VerifyCrc32c, CsumTypeOf, MappingBytes, SuperBytes,
      FrontBytes, RootBytes, SizeBytes, SlotBytes;
    var bs := SuperBytes(root, chunkRoot, base, b);
    SuperPieces(root, chunkRoot, base, b);
    SuperNumbers(bs, root, chunkRoot);
    SuperEntries(bs, base);
    ZeroPart(bs, 0xa4, 0x287, 0xc4, 2);
    TwoZeros();
    StatusOf(bs);
  }

  /** Its checksum is looked at and covers the whole block. */
  lemma FullyCovered(root: u64, chunkRoot: u64, base: u64, b: RootBackup)
    ensures var bs := SuperBytes(root, chunkRoot, base, b);
      ReadsAsCrc32c(bs) && CoveredEnd(bs) == SUPER_INFO_SIZE
  {
    hide LeBytes, LeValue, Field, Zeros, BytesAt, VerifyCrc32c, MappingBytes, SuperBytes, FrontBytes, RootBytes, SizeBytes,
      SlotBytes;
    var bs := SuperBytes(root, chunkRoot, base, b);
    SuperPieces(root, chunkRoot, base, b);
    SuperNumbers(bs, root, chunkRoot);
    ZeroPart(bs, 0xa4, 0x287, 0xc4, 2);
    TwoZeros();
  }

  // ---- its backups ----

  const NONE: RootBackup := RootBackup(0, 0, 0, 0)

  lemma EmptySlot(bs: seq<byte>, i: nat)
    requires |bs| == SUPER_INFO_SIZE && bs[0xbd3..0x1000] == Zeros(0x42d) && 0 < i < NUM_BACKUP_ROOTS
    ensures BackupAt(bs, i) == NONE
  {
    hide LeValue, Field, Zeros;
    var slot := BACKUP_ROOTS_OFFSET + i * ROOT_BACKUP_SIZE;
    ZeroPart(bs, 0xbd3, 0x42d, slot, 8);
    ZeroPart(bs, 0xbd3, 0x42d, slot + 8, 8);
    ZeroPart(bs, 0xbd3, 0x42d, slot + 48, 8);
    ZeroPart(bs, 0xbd3, 0x42d, slot + 56, 8);
  }

  lemma FirstSlot(bs: seq<byte>, b: RootBackup)
    requires |bs| == SUPER_INFO_SIZE && bs[0xb2b..0xbd3] == SlotBytes(b)
    ensures BackupAt(bs, 0) == b
  {
    hide LeBytes, LeValue, Field, Zeros;
    Pow256Values();
    var slot := SlotBytes(b);
    assert slot[0..8] == LeBytes(b.treeRoot, 8) && slot[8..16] == LeBytes(b.treeRootGen, 8);
    assert slot[48..56] == LeBytes(b.fsRoot, 8) && slot[56..64] == LeBytes(b.fsRootGen, 8);
    ReadNumber(bs, 0xb2b, slot, 0, 8, b.treeRoot);
    ReadNumber(bs, 0xb2b, slot, 8, 8, b.treeRootGen);
    ReadNumber(bs, 0xb2b, slot, 48, 8, b.fsRoot);
    ReadNumber(bs, 0xb2b, slot, 56, 8, b.fsRootGen);
  }

  /** A written superblock stores its backup in the first slot and nothing in the other three. */
  lemma OneBackup(root: u64, chunkRoot: u64, base: u64, b: RootBackup)
    ensures BackupsIn(SuperBytes(root, chunkRoot, base, b)) == [b, NONE, NONE, NONE]
  {
    hide SuperBytes, SlotBytes, BackupAt, Zeros, VerifyCrc32c, MappingBytes, FrontBytes, RootBytes, SizeBytes, Slots;
    var bs := SuperBytes(root, chunkRoot, base, b);
    SuperPieces(root, chunkRoot, base, b);
    FirstSlot(bs, b);
    EmptySlot(bs, 1);
    EmptySlot(bs, 2);
    EmptySlot(bs, 3);
  }
}
