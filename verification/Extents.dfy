/**
  EXTENT_DATA items to file content (core/src/extent.rs): sort by file offset,
  decode each extent, concatenate, then cut or zero-extend to the inode's size.
*/
module Extents {
  import opened Wrappers
  import opened Bytes
  import opened Nodes
  import opened ChunkMaps
  import opened FsTrees
  import opened Lzo

  const EXTENT_DATA_KEY: byte := 108
  const EXTENT_HEADER_LEN: nat := 21
  const LOGICAL_ALLOC_FLOOR: nat := 0x400_0000

  datatype Compression = Uncompressed | Zlib | LzoFramed | Zstd | Other(code: byte)

  function CompressionOf(b: byte): Compression {
    if b == 0 then Uncompressed
    else if b == 1 then Zlib
    else if b == 2 then LzoFramed
    else if b == 3 then Zstd
    else Other(b)
  }

  /** What an external stream decoder yields within a read cap. */
  datatype Stream = Done(bytes: seq<byte>) | Broken(partial: nat)

  /** The external decoders. */
  datatype Codecs = Codecs(
    zlib: (seq<byte>, nat) -> Stream, zstd: (seq<byte>, nat) -> Stream, lzo1x: BlockCodec)

  /** The streams respect the cap they are read with. */
  ghost predicate CapRespecting(c: Codecs) {
    forall src: seq<byte>, cap: nat {:trigger c.zlib(src, cap)} {:trigger c.zstd(src, cap)} ::
      (c.zlib(src, cap).Done? ==> |c.zlib(src, cap).bytes| <= cap)
      && (c.zstd(src, cap).Done? ==> |c.zstd(src, cap).bytes| <= cap)
  }

  function Finished(s: Stream, structure: Structure, cap: nat): Result<seq<byte>> {
    match s
    case Done(bytes) => Ok(bytes)
    case Broken(partial) => Err(Truncated(structure, cap, partial))
  }

  function RamBound(src: seq<byte>): nat {
    |src| * 1024 + 0x10_0000
  }

  function Decompressed(c: Codecs, algo: Compression, src: seq<byte>, ramBytes: u64, sectorsize: u32): Result<seq<byte>> {
    if algo == Uncompressed then Ok(Take(src, ramBytes))
    else if ramBytes > RamBound(src) then Err(AllocationBomb(RamBytes, ramBytes, Min(RamBound(src), U64_LIMIT - 1)))
    else
      match algo
      case Zlib => Finished(c.zlib(src, ramBytes), ZlibStream, ramBytes)
      case Zstd => Finished(c.zstd(src, ramBytes), ZstdFrame, ramBytes)
      case LzoFramed => Decoded(c.lzo1x, src, ramBytes, sectorsize)
      case Other(code) => Err(Truncated(CodecByte, code, 0))
  }

  /** No extent ever decompresses to more than its declared size. */
  lemma DecompressionBounded(c: Codecs, algo: Compression, src: seq<byte>, ramBytes: u64, sectorsize: u32)
    requires CapRespecting(c)
    ensures var r := Decompressed(c, algo, src, ramBytes, sectorsize); r.Ok? ==> |r.value| <= ramBytes
  {
    hide Blocks, DecodeBlocks;
    var ss := Sector(sectorsize);
    DecodedBounded(c.lzo1x, Blocks(src, FrameTotal(src), ss, LZO_LEN), SegmentCap(ss), ramBytes, []);
  }

  method DecompressExtent(c: Codecs, algo: Compression, src: seq<byte>, ramBytes: u64, sectorsize: u32)
    returns (r: Result<seq<byte>>)
    ensures r == Decompressed(c, algo, src, ramBytes, sectorsize)
    ensures CapRespecting(c) && r.Ok? ==> |r.value| <= ramBytes
  {
    hide Decoded, CapRespecting;
    if CapRespecting(c) {
      DecompressionBounded(c, algo, src, ramBytes, sectorsize);
    }
    if algo == Uncompressed {
      return Ok(Take(src, ramBytes));
    }
    if ramBytes > RamBound(src) {
      return Err(AllocationBomb(RamBytes, ramBytes, Min(RamBound(src), U64_LIMIT - 1)));
    }
    match algo {
      case Zlib => r := Finished(c.zlib(src, ramBytes), ZlibStream, ramBytes);
      case Zstd => r := Finished(c.zstd(src, ramBytes), ZstdFrame, ramBytes);
      case LzoFramed =>
        ghost var stop: Stop;
        r, stop := DecompressLzo(c.lzo1x, src, ramBytes, sectorsize);
      case Other(code) => r := Err(Truncated(CodecByte, code, 0));
    }
  }

  // ---- one extent ----

  /** What reading a leaf's extents depends on besides the leaf. */
  datatype Env = Env(codecs: Codecs, image: seq<byte>, entries: seq<MapEntry>, sectorsize: u32)

  function LogicalBound(env: Env): nat {
    Max(|env.image|, LOGICAL_ALLOC_FLOOR)
  }

  /** `whole.get(off..min(off + num, len)).unwrap_or(&[])`. */
  function Window(whole: seq<byte>, off: nat, num: nat): (r: seq<byte>)
    ensures |r| <= num
  {
    if off <= |whole| then whole[off..Min(off + num, |whole|)] else []
  }

  function RegularBytes(env: Env, comp: Compression, disk: u64, off: u64, num: u64, ram: u64): Result<seq<byte>> {
    if num > |env.image| then Err(AllocationBomb(ExtentBytes, num, |env.image|))
    else
      match Translate(env.entries, disk)
      case None => Err(Truncated(ExtentLogical, disk, 0))
      case Some((_, phys)) =>
        if comp == Uncompressed then
          if phys + off + num > |env.image|
          then Err(Truncated(ExtentData, Min(Min(phys + off, U64_LIMIT - 1) + num, U64_LIMIT - 1), |env.image|))
          else Ok(env.image[phys + off..phys + off + num])
        else if phys > |env.image| then Err(Truncated(ExtentSource, phys, |env.image|))
        else
          match Decompressed(env.codecs, comp, env.image[phys..], ram, env.sectorsize)
          case Err(e) => Err(e)
          case Ok(whole) => Ok(Window(whole, off, num))
  }

  function TypeOf(data: seq<byte>): byte {
    U8At(data, 20)
  }

  function InlinePayload(data: seq<byte>): seq<byte> {
    if |data| >= EXTENT_HEADER_LEN then data[EXTENT_HEADER_LEN..] else []
  }

  /** The bytes one extent adds to the file. */
  function Contribution(env: Env, data: seq<byte>): Result<seq<byte>> {
    var ram := LeU64(data, 8);
    var comp := CompressionOf(U8At(data, 16));
    if TypeOf(data) == 0 then Decompressed(env.codecs, comp, InlinePayload(data), ram, env.sectorsize)
    else if TypeOf(data) == 1 || TypeOf(data) == 2 then
      var disk, off, num := LeU64(data, 21), LeU64(data, 37), LeU64(data, 45);
      if disk == 0 then
        if num > LogicalBound(env) then Err(AllocationBomb(HoleBytes, num, LogicalBound(env))) else Ok(Zeros(num))
      else RegularBytes(env, comp, disk, off, num, ram)
    else Err(Truncated(Structure.ExtentType, TypeOf(data), 0))
  }

  // ---- the file ----

  /** An EXTENT_DATA item: its file offset and its body. */
  datatype Extent = Extent(fileOff: u64, data: seq<byte>)

  predicate IsExtentOf(it: Item, ino: u64) {
    it.key.objectid == ino && it.key.keyType == EXTENT_DATA_KEY
  }

  function ExtentsOf(items: seq<Item>, ino: u64): seq<Extent> {
    if items == [] then []
    else if IsExtentOf(items[0], ino) then [Extent(items[0].key.offset, items[0].data)] + ExtentsOf(items[1..], ino)
    else ExtentsOf(items[1..], ino)
  }

  /** `x` placed before the first extent that does not start before it. */
  function Insert(x: Extent, sorted: seq<Extent>): (r: seq<Extent>)
    ensures |r| == |sorted| + 1
  {
    if sorted == [] || x.fileOff <= sorted[0].fileOff then [x] + sorted
    else [sorted[0]] + Insert(x, sorted[1..])
  }

  /** A stable sort by file offset. */
  function Sorted(es: seq<Extent>): (r: seq<Extent>)
    ensures |r| == |es|
  {
    if es == [] then [] else Insert(es[0], Sorted(es[1..]))
  }

  /** The extents' bytes one after the other, or the first error. */
  function Assembled(env: Env, es: seq<Extent>): Result<seq<byte>>
    decreases |es|
  {
    if es == [] then Ok([])
    else
      match Contribution(env, es[0].data)
      case Err(e) => Err(e)
      case Ok(bytes) =>
        match Assembled(env, es[1..])
        case Err(e) => Err(e)
        case Ok(rest) => Ok(bytes + rest)
  }

  /** Cut or zero-extended to `size`. */
  function Fit(out: seq<byte>, size: nat): seq<byte> {
    if |out| > size then out[..size] else out + Zeros(size - |out|)
  }

  function FileContent(env: Env, items: seq<Item>, ino: u64): Result<seq<byte>> {
    match FindItem(items, ino, FsTrees.INODE_ITEM_KEY)
    case None => Err(Truncated(InodeItem, ino, 0))
    case Some(data) =>
      var size := LeU64(data, INODE_SIZE_OFFSET);
      if size > LogicalBound(env) then Err(AllocationBomb(InodeSize, size, LogicalBound(env)))
      else
        match Assembled(env, Sorted(ExtentsOf(items, ino)))
        case Err(e) => Err(e)
        case Ok(out) => Ok(Fit(out, size))
  }

  method ReadRegularExtent(env: Env, comp: Compression, disk: u64, off: u64, num: u64, ram: u64)
    returns (r: Result<seq<byte>>)
    ensures r == RegularBytes(env, comp, disk, off, num, ram)
    ensures r.Ok? ==> |r.value| <= num
  {
    hide Decompressed, Translate;
    if num > |env.image| {
      return Err(AllocationBomb(ExtentBytes, num, |env.image|));
    }
    var located := Translate(env.entries, disk);
    if located.None? {
      return Err(Truncated(ExtentLogical, disk, 0));
    }
    var phys := located.value.1;
    if comp == Uncompressed {
      if phys + off + num > |env.image| {
        return Err(Truncated(ExtentData, Min(Min(phys + off, U64_LIMIT - 1) + num, U64_LIMIT - 1), |env.image|));
      }
      return Ok(env.image[phys + off..phys + off + num]);
    }
    if phys > |env.image| {
      return Err(Truncated(ExtentSource, phys, |env.image|));
    }
    var whole := DecompressExtent(env.codecs, comp, env.image[phys..], ram, env.sectorsize);
    if whole.Err? {
      return Err(whole.error);
    }
    return Ok(Window(whole.value, off, num));
  }

  function Prefixed(out: seq<byte>, r: Result<seq<byte>>): Result<seq<byte>> {
    match r
    case Err(e) => Err(e)
    case Ok(rest) => Ok(out + rest)
  }

  lemma AssembleNext(env: Env, es: seq<Extent>, i: nat, out: seq<byte>)
    requires i < |es|
    ensures Prefixed(out, Assembled(env, es[i..]))
      == match Contribution(env, es[i].data)
         case Err(e) => Err(e)
         case Ok(bytes) => Prefixed(out + bytes, Assembled(env, es[i + 1..]))
  {
    hide Contribution;
    assert es[i..][0] == es[i] && es[i..][1..] == es[i + 1..];
    var first, later := Contribution(env, es[i].data), Assembled(env, es[i + 1..]);
    if first.Ok? && later.Ok? {
      assert out + (first.value + later.value) == (out + first.value) + later.value;
    }
  }

  lemma PrefixNothing(r: Result<seq<byte>>)
    ensures Prefixed([], r) == r
  {
    if r.Ok? {
      assert [] + r.value == r.value;
    }
  }

  method ReadFileFromLeaf(env: Env, leaf: Node, ino: u64) returns (r: Result<seq<byte>>)
    ensures r == FileContent(env, leaf.LeafItems(), ino)
  {
    hide Decompressed, RegularBytes, LeU64, Sorted, ExtentsOf;
    var found := FindItem(leaf.LeafItems(), ino, FsTrees.INODE_ITEM_KEY);
    if found.None? {
      return Err(Truncated(InodeItem, ino, 0));
    }
    var size := LeU64(found.value, INODE_SIZE_OFFSET);
    var extents := Sorted(ExtentsOf(leaf.LeafItems(), ino));
    var bound := Max(|env.image|, LOGICAL_ALLOC_FLOOR);
    if size > bound {
      return Err(AllocationBomb(InodeSize, size, bound));
    }
    var out: seq<byte> := [];
    PrefixNothing(Assembled(env, extents));
    assert extents[0..] == extents;
    for i := 0 to |extents|
      invariant Assembled(env, extents) == Prefixed(out, Assembled(env, extents[i..]))
    {
      var data := extents[i].data;
      AssembleNext(env, extents, i, out);
      var ram := LeU64(data, 8);
      var comp := CompressionOf(U8At(data, 16));
      if U8At(data, 20) == 0 {
        var bytes := DecompressExtent(env.codecs, comp, InlinePayload(data), ram, env.sectorsize);
        if bytes.Err? {
          return Err(bytes.error);
        }
        out := out + bytes.value;
      } else if U8At(data, 20) == 1 || U8At(data, 20) == 2 {
        var disk, off, num := LeU64(data, 21), LeU64(data, 37), LeU64(data, 45);
        if disk == 0 {
          if num > bound {
            return Err(AllocationBomb(HoleBytes, num, bound));
          }
          out := out + Zeros(num);
          continue;
        }
        var bytes := ReadRegularExtent(env, comp, disk, off, num, ram);
        if bytes.Err? {
          return Err(bytes.error);
        }
        out := out + bytes.value;
      } else {
        return Err(Truncated(Structure.ExtentType, U8At(data, 20), 0));
      }
    }
    assert extents[|extents|..] == [];
    assert out + [] == out;
    if |out| > size {
      out := out[..size];
    } else if |out| < size {
      out := out + Zeros(size - |out|);
    }
    return Ok(out);
  }
}
