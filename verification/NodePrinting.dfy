/** Tree blocks printed back: what the node parser reads, byte for byte (core/src/node.rs). */
module NodePrinting {
  import opened Bytes
  import opened Crc
  import opened SysChunks
  import opened Nodes

  /** The 101 header bytes; `gap` is the part of the checksum field past the digest. */
  function NodeHeaderBytes(h: Header, gap: seq<byte>): (bs: seq<byte>) {
    h.csum + gap + h.fsid + LeBytes(h.bytenr, 8) + LeBytes(h.flags, 8) + h.chunkTreeUuid
    + LeBytes(h.generation, 8) + LeBytes(h.owner, 8) + LeBytes(h.nritems, 4) + [h.level]
  }

  function KeyPtrBytes(kp: KeyPtr): (bs: seq<byte>)
    ensures |bs| == KEY_PTR_SIZE
  {
    KeyBytes(kp.key) + LeBytes(kp.blockptr, 8) + LeBytes(kp.generation, 8)
  }

  function PtrsBytes(ptrs: seq<KeyPtr>): (bs: seq<byte>)
    ensures |bs| == |ptrs| * KEY_PTR_SIZE
  {
    if ptrs == [] then [] else PtrsBytes(ptrs[..|ptrs| - 1]) + KeyPtrBytes(ptrs[|ptrs| - 1])
  }

  function ItemHeaderBytes(it: ItemHeader): (bs: seq<byte>)
    ensures |bs| == ITEM_SIZE
  {
    KeyBytes(it.key) + LeBytes(it.dataOffset, 4) + LeBytes(it.dataSize, 4)
  }

  function ItemsBytes(items: seq<ItemHeader>): (bs: seq<byte>)
    ensures |bs| == |items| * ITEM_SIZE
  {
    if items == [] then [] else ItemsBytes(items[..|items| - 1]) + ItemHeaderBytes(items[|items| - 1])
  }

  function TableBytes(body: Body): seq<byte> {
    match body
    case Leaf(items) => ItemsBytes(items)
    case Interior(ptrs) => PtrsBytes(ptrs)
  }

  // ---- reading back what was printed ----

  lemma ReadKeyPtr(data: seq<byte>, p: nat, kp: KeyPtr)
    requires p + KEY_PTR_SIZE <= |data| && data[p..p + KEY_PTR_SIZE] == KeyPtrBytes(kp)
    ensures ParseKey(data, p) == kp.key
    ensures LeU64(data, p + DISK_KEY_SIZE) == kp.blockptr && LeU64(data, p + DISK_KEY_SIZE + 8) == kp.generation
  {
    hide KeyBytes, ParseKey;
    Pow256Values();
    var piece := KeyPtrBytes(kp);
    Within(data, p, piece, 0, DISK_KEY_SIZE);
    ReadKey(data, p, kp.key);
    ReadNumber(data, p, piece, DISK_KEY_SIZE, 8, kp.blockptr);
    ReadNumber(data, p, piece, DISK_KEY_SIZE + 8, 8, kp.generation);
  }

  lemma {:induction false} ReadPtrs(block: seq<byte>, ptrs: seq<KeyPtr>)
    requires HEADER_SIZE + |PtrsBytes(ptrs)| <= |block|
    requires block[HEADER_SIZE..HEADER_SIZE + |PtrsBytes(ptrs)|] == PtrsBytes(ptrs)
    ensures KeyPtrs(block, |ptrs|) == ptrs
  {
    hide KeyPtrBytes, ParseKey, LeU64;
    if ptrs != [] {
      var n := |ptrs| - 1;
      var whole, q := PtrsBytes(ptrs), n * KEY_PTR_SIZE;
      Within(block, HEADER_SIZE, whole, 0, q);
      Within(block, HEADER_SIZE, whole, q, q + KEY_PTR_SIZE);
      ReadPtrs(block, ptrs[..n]);
      ReadKeyPtr(block, HEADER_SIZE + q, ptrs[n]);
    }
  }

  /** An interior block holding a printed list of key pointers parses to exactly that list. */
  lemma PointersRoundTrip(block: seq<byte>, ptrs: seq<KeyPtr>)
    requires HEADER_SIZE + |PtrsBytes(ptrs)| <= |block|
    requires block[HEADER_SIZE..HEADER_SIZE + |PtrsBytes(ptrs)|] == PtrsBytes(ptrs)
    requires U8At(block, 0x64) != 0 && LeU32(block, 0x60) == |ptrs|
    ensures var r := ParsedNode(block); r.Ok? && !r.value.IsLeaf() && r.value.Pointers() == ptrs
  {
    hide PtrsBytes, KeyPtrs, LeU32, ParseHeader, CrcStatus;
    ReadPtrs(block, ptrs);
  }

  // ---- printing back what was read ----

  lemma NoBytes()
    ensures PtrsBytes([]) == [] && ItemsBytes([]) == []
  {
  }

  lemma PtrsAppend(ptrs: seq<KeyPtr>, kp: KeyPtr)
    ensures PtrsBytes(ptrs + [kp]) == PtrsBytes(ptrs) + KeyPtrBytes(kp)
  {
    hide KeyPtrBytes;
    assert (ptrs + [kp])[..|ptrs|] == ptrs;
  }

  lemma ItemsAppend(items: seq<ItemHeader>, it: ItemHeader)
    ensures ItemsBytes(items + [it]) == ItemsBytes(items) + ItemHeaderBytes(it)
  {
    hide ItemHeaderBytes;
    assert (items + [it])[..|items|] == items;
  }

  lemma WriteKeyPtr(block: seq<byte>, i: nat)
    requires HEADER_SIZE + (i + 1) * KEY_PTR_SIZE <= |block|
    ensures var p := HEADER_SIZE + i * KEY_PTR_SIZE; KeyPtrBytes(KeyPtrAt(block, i)) == block[p..p + KEY_PTR_SIZE]
  {
    hide KeyBytes, ParseKey, LeBytes, LeValue, Field;
    var p := HEADER_SIZE + i * KEY_PTR_SIZE;
    WriteKey(block, p);
    WriteNumber(block, p + 17, 8);
    WriteNumber(block, p + 25, 8);
    Cut(block, p, p + 17, p + 25);
    Cut(block, p, p + 25, p + 33);
  }

  lemma {:induction false} WritePtrs(block: seq<byte>, n: nat)
    requires HEADER_SIZE + n * KEY_PTR_SIZE <= |block|
    ensures PtrsBytes(KeyPtrs(block, n)) == block[HEADER_SIZE..HEADER_SIZE + n * KEY_PTR_SIZE]
  {
    hide KeyPtrAt, KeyPtrBytes, PtrsBytes;
    if n == 0 {
      NoBytes();
    } else {
      WritePtrs(block, n - 1);
      WriteKeyPtr(block, n - 1);
      PtrsAppend(KeyPtrs(block, n - 1), KeyPtrAt(block, n - 1));
      Cut(block, HEADER_SIZE, HEADER_SIZE + (n - 1) * KEY_PTR_SIZE, HEADER_SIZE + n * KEY_PTR_SIZE);
    }
  }

  lemma WriteItemHeader(block: seq<byte>, i: nat)
    requires HEADER_SIZE + (i + 1) * ITEM_SIZE <= |block|
    ensures var p := HEADER_SIZE + i * ITEM_SIZE; ItemHeaderBytes(ItemHeaderAt(block, i)) == block[p..p + ITEM_SIZE]
  {
    hide KeyBytes, ParseKey, LeBytes, LeValue, Field;
    var p := HEADER_SIZE + i * ITEM_SIZE;
    WriteKey(block, p);
    WriteNumber(block, p + 17, 4);
    WriteNumber(block, p + 21, 4);
    Cut(block, p, p + 17, p + 21);
    Cut(block, p, p + 21, p + 25);
  }

  lemma {:induction false} WriteItems(block: seq<byte>, n: nat)
    requires HEADER_SIZE + n * ITEM_SIZE <= |block|
    ensures ItemsBytes(ItemHeaders(block, n)) == block[HEADER_SIZE..HEADER_SIZE + n * ITEM_SIZE]
  {
    hide ItemHeaderAt, ItemHeaderBytes, ItemsBytes;
    if n == 0 {
      NoBytes();
    } else {
      WriteItems(block, n - 1);
      WriteItemHeader(block, n - 1);
      ItemsAppend(ItemHeaders(block, n - 1), ItemHeaderAt(block, n - 1));
      Cut(block, HEADER_SIZE, HEADER_SIZE + (n - 1) * ITEM_SIZE, HEADER_SIZE + n * ITEM_SIZE);
    }
  }

  /** The parsed header prints back to the block's first 101 bytes. */
  lemma HeaderReprint(block: seq<byte>)
    requires |block| >= HEADER_SIZE
    ensures NodeHeaderBytes(ParseHeader(block), block[4..0x20]) == block[..HEADER_SIZE]
  {
    hide LeBytes, LeValue, Field, BytesAt;
    WriteNumber(block, 0x30, 8);
    WriteNumber(block, 0x38, 8);
    WriteNumber(block, 0x50, 8);
    WriteNumber(block, 0x58, 8);
    WriteNumber(block, 0x60, 4);
    Cut(block, 0, 4, 0x20);
    Cut(block, 0, 0x20, 0x30);
    Cut(block, 0, 0x30, 0x38);
    Cut(block, 0, 0x38, 0x40);
    Cut(block, 0, 0x40, 0x50);
    Cut(block, 0, 0x50, 0x58);
    Cut(block, 0, 0x58, 0x60);
    Cut(block, 0, 0x60, 0x64);
    Cut(block, 0, 0x64, 0x65);
    assert block[0x64..0x65] == [U8At(block, 0x64)];
  }

  lemma TimesMonotone(a: nat, b: nat, unit: nat)
    requires a <= b
    ensures a * unit <= b * unit
  {
  }

  lemma TableFits(len: nat, count: nat, unit: nat)
    requires len >= HEADER_SIZE && unit > 0
    ensures HEADER_SIZE + Min(count, Capacity(len, HEADER_SIZE, unit)) * unit <= len
  {
    var capacity := Capacity(len, HEADER_SIZE, unit);
    var n := Min(count, capacity);
    assert capacity * unit <= len - HEADER_SIZE;
    TimesMonotone(n, capacity, unit);
  }

  /** Whatever a block holds, its header and its whole table of items or pointers print back to the block's prefix. */
  lemma NodeReprint(block: seq<byte>)
    requires |block| >= HEADER_SIZE
    ensures var node := ParsedNode(block).value;
      NodeHeaderBytes(node.header, block[4..0x20]) + TableBytes(node.body) <= block
  {
    hide ParseHeader, NodeHeaderBytes, CrcStatus, ItemHeaders, KeyPtrs, ItemsBytes, PtrsBytes, LeU32, Capacity;
    HeaderReprint(block);
    var count := LeU32(block, 0x60);
    if U8At(block, 0x64) == 0 {
      TableFits(|block|, count, ITEM_SIZE);
      WriteItems(block, Min(count, Capacity(|block|, HEADER_SIZE, ITEM_SIZE)));
    } else {
      TableFits(|block|, count, KEY_PTR_SIZE);
      WritePtrs(block, Min(count, Capacity(|block|, HEADER_SIZE, KEY_PTR_SIZE)));
    }
  }
}
