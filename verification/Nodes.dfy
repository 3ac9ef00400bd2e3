/**
  B-tree blocks (core/src/node.rs): the 101-byte header, then item headers or key
  pointers, each count capped by what the block can hold and each data slice
  bounds-checked.
*/
module Nodes {
  import opened Wrappers
  import opened Bytes
  import opened Crc
  import opened SysChunks

  const HEADER_SIZE: nat := 101
  const ITEM_SIZE: nat := 25
  const KEY_PTR_SIZE: nat := 33

  datatype Header = Header(
    csum: seq<byte>, fsid: seq<byte>, bytenr: u64, flags: u64, chunkTreeUuid: seq<byte>,
    generation: u64, owner: u64, nritems: u32, level: byte)

  datatype KeyPtr = KeyPtr(key: DiskKey, blockptr: u64, generation: u64)

  datatype Chunk = Chunk(
    length: u64, owner: u64, stripeLen: u64, chunkType: u64, numStripes: u16, subStripes: u16,
    stripes: seq<Stripe>)

  datatype ItemHeader = ItemHeader(key: DiskKey, dataOffset: u32, dataSize: u32)

  datatype Item = Item(key: DiskKey, data: seq<byte>)

  datatype Body = Leaf(items: seq<ItemHeader>) | Interior(ptrs: seq<KeyPtr>)

  function Capacity(len: nat, skip: nat, unit: nat): nat
    requires unit > 0
  {
    (if len >= skip then len - skip else 0) / unit
  }

  function ParsedChunk(data: seq<byte>): Chunk {
    var n := LeU16(data, 44);
    Chunk(LeU64(data, 0), LeU64(data, 8), LeU64(data, 16), LeU64(data, 24), n, LeU16(data, 46),
      ParseStripes(data, CHUNK_HEADER_SIZE, Min(n, Capacity(|data|, CHUNK_HEADER_SIZE, STRIPE_SIZE))))
  }

  function ChunksIn(items: seq<Item>): seq<(u64, Chunk)> {
    if items == [] then []
    else if items[0].key.keyType == CHUNK_ITEM_KEY
    then [(items[0].key.offset, ParsedChunk(items[0].data))] + ChunksIn(items[1..])
    else ChunksIn(items[1..])
  }

  /** `slice.get(start..end)`, empty when the range leaves the block. */
  function ItemData(block: seq<byte>, it: ItemHeader): seq<byte> {
    var start := HEADER_SIZE + it.dataOffset;
    if start + it.dataSize <= |block| then block[start..start + it.dataSize] else []
  }

  function ItemsOf(block: seq<byte>, items: seq<ItemHeader>): (r: seq<Item>)
    ensures |r| == |items|
    ensures forall i :: 0 <= i < |items| ==> r[i] == Item(items[i].key, ItemData(block, items[i]))
  {
    if items == [] then []
    else [Item(items[0].key, ItemData(block, items[0]))] + ItemsOf(block, items[1..])
  }

  datatype Node = Node(header: Header, crcValid: Option<bool>, body: Body, block: seq<byte>)
  {
    predicate IsLeaf() {
      body.Leaf?
    }

    /** Every item of a leaf with its data; an interior node yields nothing. */
    function LeafItems(): (items: seq<Item>)
      ensures |items| == if body.Leaf? then |body.items| else 0
    {
      if body.Leaf? then ItemsOf(block, body.items) else []
    }

    function Pointers(): seq<KeyPtr> {
      if body.Interior? then body.ptrs else []
    }

    /** The chunk items of a leaf as (logical start, chunk). */
    function ChunkItems(): seq<(u64, Chunk)> {
      ChunksIn(LeafItems())
    }
  }

  function Blockptrs(ptrs: seq<KeyPtr>): (r: seq<u64>)
    ensures |r| == |ptrs|
  {
    if ptrs == [] then [] else [ptrs[0].blockptr] + Blockptrs(ptrs[1..])
  }

  function ParseHeader(block: seq<byte>): Header {
    Header(BytesAt(block, 0, 4), BytesAt(block, 0x20, 16), LeU64(block, 0x30), LeU64(block, 0x38),
      BytesAt(block, 0x40, 16), LeU64(block, 0x50), LeU64(block, 0x58), LeU32(block, 0x60), U8At(block, 0x64))
  }

  function ItemHeaderAt(block: seq<byte>, i: nat): ItemHeader {
    var io := HEADER_SIZE + i * ITEM_SIZE;
    ItemHeader(ParseKey(block, io), LeU32(block, io + DISK_KEY_SIZE), LeU32(block, io + DISK_KEY_SIZE + 4))
  }

  function ItemHeaders(block: seq<byte>, n: nat): (r: seq<ItemHeader>)
    ensures |r| == n && forall i :: 0 <= i < n ==> r[i] == ItemHeaderAt(block, i)
  {
    if n == 0 then [] else ItemHeaders(block, n - 1) + [ItemHeaderAt(block, n - 1)]
  }

  function KeyPtrAt(block: seq<byte>, i: nat): KeyPtr {
    var po := HEADER_SIZE + i * KEY_PTR_SIZE;
    KeyPtr(ParseKey(block, po), LeU64(block, po + DISK_KEY_SIZE), LeU64(block, po + DISK_KEY_SIZE + 8))
  }

  function KeyPtrs(block: seq<byte>, n: nat): (r: seq<KeyPtr>)
    ensures |r| == n && forall i :: 0 <= i < n ==> r[i] == KeyPtrAt(block, i)
  {
    if n == 0 then [] else KeyPtrs(block, n - 1) + [KeyPtrAt(block, n - 1)]
  }

  function ParsedBody(block: seq<byte>): Body {
    var nritems := LeU32(block, 0x60);
    if U8At(block, 0x64) == 0
    then Leaf(ItemHeaders(block, Min(nritems, Capacity(|block|, HEADER_SIZE, ITEM_SIZE))))
    else Interior(KeyPtrs(block, Min(nritems, Capacity(|block|, HEADER_SIZE, KEY_PTR_SIZE))))
  }

  function ParsedNode(block: seq<byte>): Result<Node> {
    if |block| < HEADER_SIZE then Err(Truncated(BtrfsHeader, HEADER_SIZE, |block|))
    else Ok(Node(ParseHeader(block), CrcStatus(Crc32c, block, |block|), ParsedBody(block), block))
  }

  // ---- the parsing loops ----

  method ParseItems(block: seq<byte>, nritems: nat) returns (out: seq<ItemHeader>)
    ensures out == ItemHeaders(block, Min(nritems, Capacity(|block|, HEADER_SIZE, ITEM_SIZE)))
  {
    hide LeU32, ParseKey;
    out := [];
    var take := Min(nritems, Capacity(|block|, HEADER_SIZE, ITEM_SIZE));
    for i := 0 to take
      invariant out == ItemHeaders(block, i)
    {
      var io := HEADER_SIZE + i * ITEM_SIZE;
      out := out + [ItemHeader(ParseKey(block, io), LeU32(block, io + DISK_KEY_SIZE), LeU32(block, io + DISK_KEY_SIZE + 4))];
    }
  }

  method ParseKeyPtrs(block: seq<byte>, nritems: nat) returns (out: seq<KeyPtr>)
    ensures out == KeyPtrs(block, Min(nritems, Capacity(|block|, HEADER_SIZE, KEY_PTR_SIZE)))
  {
    hide LeU64, ParseKey;
    out := [];
    var take := Min(nritems, Capacity(|block|, HEADER_SIZE, KEY_PTR_SIZE));
    for i := 0 to take
      invariant out == KeyPtrs(block, i)
    {
      var po := HEADER_SIZE + i * KEY_PTR_SIZE;
      out := out + [KeyPtr(ParseKey(block, po), LeU64(block, po + DISK_KEY_SIZE), LeU64(block, po + DISK_KEY_SIZE + 8))];
    }
  }

  method ParseNode(block: seq<byte>) returns (r: Result<Node>)
    ensures r == ParsedNode(block)
  {
    hide ParseHeader, ItemHeaders, KeyPtrs, CrcStatus, LeU32;
    if |block| < HEADER_SIZE {
      return Err(Truncated(BtrfsHeader, HEADER_SIZE, |block|));
    }
    var body;
    if U8At(block, 0x64) == 0 {
      var items := ParseItems(block, LeU32(block, 0x60));
      body := Leaf(items);
    } else {
      var ptrs := ParseKeyPtrs(block, LeU32(block, 0x60));
      body := Interior(ptrs);
    }
    r := Ok(Node(ParseHeader(block), CrcStatus(Crc32c, block, |block|), body, block));
  }

  method ParseChunk(data: seq<byte>) returns (r: Chunk)
    ensures r == ParsedChunk(data)
  {
    hide LeU16, LeU64, ParseStripe;
    var numStripes := LeU16(data, 44);
    var take := Min(numStripes, Capacity(|data|, CHUNK_HEADER_SIZE, STRIPE_SIZE));
    var stripes := [];
    for i := 0 to take
      invariant stripes == ParseStripes(data, CHUNK_HEADER_SIZE, i)
    {
      stripes := stripes + [ParseStripe(data, CHUNK_HEADER_SIZE + i * STRIPE_SIZE)];
    }
    r := Chunk(LeU64(data, 0), LeU64(data, 8), LeU64(data, 16), LeU64(data, 24), numStripes, LeU16(data, 46), stripes);
  }

  /** Pointers and items never outgrow the block, whatever count it declares. */
  lemma CountsBounded(block: seq<byte>)
    requires |block| >= HEADER_SIZE
    ensures HEADER_SIZE + ITEM_SIZE * |ParsedNode(block).value.LeafItems()| <= |block|
    ensures HEADER_SIZE + KEY_PTR_SIZE * |ParsedNode(block).value.Pointers()| <= |block|
  {
    hide ParseHeader, ItemHeaderAt, KeyPtrAt, CrcStatus, LeU32;
    var body := ParsedBody(block);
    assert |ParsedNode(block).value.LeafItems()| == if body.Leaf? then |body.items| else 0;
  }
}
