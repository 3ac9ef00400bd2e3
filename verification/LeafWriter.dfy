/**
  The writer side of the leaf codec (core/tests/node.rs): item headers grow
  forward from the node header while item data grows backward from the end of
  the block.
*/
module LeafWriter {
  import opened Wrappers
  import opened Bytes
  import opened Crc
  import opened SysChunks
  import opened Nodes

  function DataLength(items: seq<Item>): nat {
    if items == [] then 0 else DataLength(items[..|items| - 1]) + |items[|items| - 1].data|
  }

  /** The first `k` items' data ends here, counting down from the block's end. */
  function Tail(nodesize: nat, items: seq<Item>, k: nat): int
    requires k <= |items|
  {
    nodesize - DataLength(items[..k])
  }

  function HeaderEnd(i: nat): nat {
    HEADER_SIZE + i * ITEM_SIZE
  }

  /** The writer's own demand: neither region runs off the block by itself. */
  predicate Writable(nodesize: nat, items: seq<Item>) {
    nodesize <= 0x1_0000_0000
    && HeaderEnd(|items|) <= nodesize
    && HEADER_SIZE + DataLength(items) <= nodesize
  }

  /** Headers and data have room side by side. */
  predicate Fits(nodesize: nat, items: seq<Item>) {
    nodesize <= 0x1_0000_0000 && HeaderEnd(|items|) + DataLength(items) <= nodesize
  }

  function ItemBytes(key: DiskKey, dataOffset: nat, dataSize: nat): (bs: seq<byte>)
    ensures |bs| == ITEM_SIZE
  {
    KeyBytes(key) + LeBytes(dataOffset, 4) + LeBytes(dataSize, 4)
  }

  function Blank(nodesize: nat, bytenr: u64, owner: u64, n: u32): (bs: seq<byte>)
    requires nodesize >= HEADER_SIZE
    ensures |bs| == nodesize
  {
    Zeros(0x30) + LeBytes(bytenr, 8) + Zeros(0x20) + LeBytes(owner, 8) + LeBytes(n, 4)
    + Zeros(nodesize - 0x64)
  }

  lemma {:induction false} DataLengthMonotone(items: seq<Item>, j: nat, k: nat)
    requires j <= k <= |items|
    ensures DataLength(items[..j]) <= DataLength(items[..k])
    decreases k
  {
    if j < k {
      DataLengthMonotone(items, j, k - 1);
      assert items[..k][..k - 1] == items[..k - 1];
    }
  }

  lemma DataLengthStep(items: seq<Item>, k: nat)
    requires k < |items|
    ensures DataLength(items[..k + 1]) == DataLength(items[..k]) + |items[k].data|
  {
    assert items[..k + 1][..k] == items[..k];
  }

  lemma TailBounds(nodesize: nat, items: seq<Item>, k: nat)
    requires Writable(nodesize, items) && k <= |items|
    ensures HEADER_SIZE <= Tail(nodesize, items, k) <= nodesize
  {
    DataLengthMonotone(items, k, |items|);
    assert items[..|items|] == items;
  }

  /** One item written: its header slot, then its data. */
  function WithItem(node: seq<byte>, i: nat, tail: nat, item: Item): (r: seq<byte>)
    requires HeaderEnd(i + 1) <= |node| && HEADER_SIZE <= tail && tail + |item.data| <= |node|
    ensures |r| == |node|
  {
    Splice(Splice(node, HeaderEnd(i), ItemBytes(item.key, tail - HEADER_SIZE, |item.data|)), tail, item.data)
  }

  /** The block after the first `k` items. */
  function Filled(base: seq<byte>, items: seq<Item>, k: nat): (r: seq<byte>)
    requires Writable(|base|, items) && k <= |items|
    ensures |r| == |base|
  {
    if k == 0 then base
    else
      TailBounds(|base|, items, k);
      DataLengthStep(items, k - 1);
      TailBounds(|base|, items, k - 1);
      WithItem(Filled(base, items, k - 1), k - 1, Tail(|base|, items, k), items[k - 1])
  }

  function LeafBytes(nodesize: nat, bytenr: u64, owner: u64, items: seq<Item>): (r: seq<byte>)
    requires Writable(nodesize, items)
    ensures |r| == nodesize
  {
    Reseal(Filled(Blank(nodesize, bytenr, owner, |items|), items, |items|))
  }

  // ---- the writer's loop ----

  lemma SpliceAdjacent(s: seq<byte>, off: nat, a: seq<byte>, b: seq<byte>)
    requires off + |a| + |b| <= |s|
    ensures Splice(Splice(s, off, a), off + |a|, b) == Splice(s, off, a + b)
  {
  }

  /** Writing where the zeros of a half-filled buffer begin. */
  lemma Grow(done: seq<byte>, left: nat, bs: seq<byte>)
    requires |bs| <= left
    ensures Splice(done + Zeros(left), |done|, bs) == done + bs + Zeros(left - |bs|)
  {
  }

  /** Skipping a run of zeros. */
  lemma LeaveZeros(done: seq<byte>, n: nat, left: nat)
    ensures done + Zeros(n + left) == done + Zeros(n) + Zeros(left)
  {
    assert Zeros(n + left) == Zeros(n) + Zeros(left);
  }

  lemma OneZero()
    ensures Zeros(1) == [0]
  {
  }

  lemma BlankFront(left: nat, bytenr: u64, owner: u64)
    ensures Splice(Splice(Zeros(0x60 + left), 0x30, LeBytes(bytenr, 8)), 0x58, LeBytes(owner, 8))
      == Zeros(0x30) + LeBytes(bytenr, 8) + Zeros(0x20) + LeBytes(owner, 8) + Zeros(left)
  {
    hide LeBytes, Zeros, Splice;
    LeaveZeros([], 0x30, 0x30 + left);
    assert [] + Zeros(0x60 + left) == Zeros(0x60 + left) && [] + Zeros(0x30) == Zeros(0x30);
    Grow(Zeros(0x30), 0x30 + left, LeBytes(bytenr, 8));
    var done := Zeros(0x30) + LeBytes(bytenr, 8);
    LeaveZeros(done, 0x20, 8 + left);
    Grow(done + Zeros(0x20), 8 + left, LeBytes(owner, 8));
  }

  lemma BlankBack(done: seq<byte>, left: nat, n: u32)
    requires |done| == 0x60
    ensures Splice(Splice(done + Zeros(5 + left), 0x60, LeBytes(n, 4)), 0x64, [0])
      == done + LeBytes(n, 4) + Zeros(1 + left)
  {
    hide LeBytes, Zeros, Splice;
    Grow(done, 5 + left, LeBytes(n, 4));
    Grow(done + LeBytes(n, 4), 1 + left, [0]);
    OneZero();
    LeaveZeros(done + LeBytes(n, 4), 1, left);
  }

  lemma BlankBuilt(nodesize: nat, bytenr: u64, owner: u64, n: u32)
    requires nodesize >= HEADER_SIZE
    ensures Splice(Splice(Splice(Splice(Zeros(nodesize), 0x30, LeBytes(bytenr, 8)), 0x58, LeBytes(owner, 8)),
      0x60, LeBytes(n, 4)), 0x64, [0]) == Blank(nodesize, bytenr, owner, n)
  {
    hide LeBytes, Zeros, Splice;
    BlankFront(nodesize - 0x60, bytenr, owner);
    BlankBack(Zeros(0x30) + LeBytes(bytenr, 8) + Zeros(0x20) + LeBytes(owner, 8), nodesize - 0x65, n);
  }

  method WriteItem(node: array<byte>, i: nat, tail: nat, item: Item)
    requires HeaderEnd(i + 1) <= node.Length && HEADER_SIZE <= tail && tail + |item.data| <= node.Length
    modifies node
    ensures node[..] == WithItem(old(node[..]), i, tail, item)
  {
    hide LeBytes, Splice;
    var io := HEADER_SIZE + i * ITEM_SIZE;
    ghost var s := node[..];
    CopyInto(node, io, LeBytes(item.key.objectid, 8));
    CopyInto(node, io + 8, [item.key.keyType]);
    SpliceAdjacent(s, io, LeBytes(item.key.objectid, 8), [item.key.keyType]);
    CopyInto(node, io + 9, LeBytes(item.key.offset, 8));
    SpliceAdjacent(s, io, LeBytes(item.key.objectid, 8) + [item.key.keyType], LeBytes(item.key.offset, 8));
    CopyInto(node, io + 17, LeBytes(tail - HEADER_SIZE, 4));
    SpliceAdjacent(s, io, KeyBytes(item.key), LeBytes(tail - HEADER_SIZE, 4));
    CopyInto(node, io + 21, LeBytes(|item.data|, 4));
    SpliceAdjacent(s, io, KeyBytes(item.key) + LeBytes(tail - HEADER_SIZE, 4), LeBytes(|item.data|, 4));
    CopyInto(node, tail, item.data);
  }

  lemma EmptyLength()
    ensures DataLength([]) == 0
  {
  }

  method BuildLeaf(nodesize: nat, bytenr: u64, owner: u64, items: seq<Item>) returns (node: array<byte>)
    requires Writable(nodesize, items)
    ensures fresh(node) && node[..] == LeafBytes(nodesize, bytenr, owner, items)
  {
    hide LeBytes, Splice, Blank, WithItem, DataLength;
    node := new byte[nodesize](_ => 0);
    assert node[..] == Zeros(nodesize);
    CopyInto(node, 0x30, LeBytes(bytenr, 8));
    CopyInto(node, 0x58, LeBytes(owner, 8));
    CopyInto(node, 0x60, LeBytes(|items|, 4));
    CopyInto(node, 0x64, [0]);
    BlankBuilt(nodesize, bytenr, owner, |items|);
    ghost var base := node[..];
    EmptyLength();
    var dataTail := nodesize;
    for i := 0 to |items|
      invariant node.Length == nodesize
      invariant dataTail == Tail(nodesize, items, i)
      invariant node[..] == Filled(base, items, i)
    {
      DataLengthStep(items, i);
      TailBounds(nodesize, items, i + 1);
      TailBounds(nodesize, items, i);
      dataTail := dataTail - |items[i].data|;
      WriteItem(node, i, dataTail, items[i]);
    }
    FixNodeCrc(node);
  }

  // ---- nothing overlaps ----

  /** Item `j` is in place: its header in slot `j`, its data just below the previous item's. */
  predicate InPlace(node: seq<byte>, items: seq<Item>, j: nat)
    requires j < |items| && Writable(|node|, items)
  {
    TailBounds(|node|, items, j + 1);
    TailBounds(|node|, items, j);
    DataLengthStep(items, j);
    var tail := Tail(|node|, items, j + 1);
    node[HeaderEnd(j)..HeaderEnd(j + 1)] == ItemBytes(items[j].key, tail - HEADER_SIZE, |items[j].data|)
    && node[tail..tail + |items[j].data|] == items[j].data
  }

  /** Writing item `k` leaves the header and every earlier item where they were. */
  lemma KeepsEarlier(node: seq<byte>, items: seq<Item>, j: nat, k: nat)
    requires Fits(|node|, items) && j < k < |items|
    requires HEADER_SIZE <= Tail(|node|, items, k + 1) && Tail(|node|, items, k + 1) + |items[k].data| <= |node|
    requires InPlace(node, items, j)
    ensures InPlace(WithItem(node, k, Tail(|node|, items, k + 1), items[k]), items, j)
  {
    hide DataLength, ItemBytes, Splice;
    var n := |node|;
    DataLengthMonotone(items, j + 1, k);
    DataLengthMonotone(items, k + 1, |items|);
    DataLengthStep(items, k);
    DataLengthStep(items, j);
    DataLengthMonotone(items, j, |items|);
    assert items[..|items|] == items;
    var tail, tailJ := Tail(n, items, k + 1), Tail(n, items, j + 1);
    var header := ItemBytes(items[k].key, tail - HEADER_SIZE, |items[k].data|);
    var mid := Splice(node, HeaderEnd(k), header);
    assert HeaderEnd(k + 1) <= tail && tail + |items[k].data| <= tailJ;
    SpliceOutside(node, HeaderEnd(k), header, HeaderEnd(j), HeaderEnd(j + 1));
    SpliceOutside(node, HeaderEnd(k), header, tailJ, tailJ + |items[j].data|);
    SpliceOutside(mid, tail, items[k].data, HeaderEnd(j), HeaderEnd(j + 1));
    SpliceOutside(mid, tail, items[k].data, tailJ, tailJ + |items[j].data|);
  }

  lemma PlacesNew(node: seq<byte>, items: seq<Item>, k: nat)
    requires Fits(|node|, items) && k < |items|
    requires HEADER_SIZE <= Tail(|node|, items, k + 1) && Tail(|node|, items, k + 1) + |items[k].data| <= |node|
    ensures InPlace(WithItem(node, k, Tail(|node|, items, k + 1), items[k]), items, k)
    ensures WithItem(node, k, Tail(|node|, items, k + 1), items[k])[..HEADER_SIZE] == node[..HEADER_SIZE]
  {
    hide DataLength, ItemBytes, Splice;
    var n := |node|;
    DataLengthMonotone(items, k + 1, |items|);
    assert items[..|items|] == items;
    var tail := Tail(n, items, k + 1);
    var header := ItemBytes(items[k].key, tail - HEADER_SIZE, |items[k].data|);
    var mid := Splice(node, HeaderEnd(k), header);
    assert HeaderEnd(k + 1) <= tail;
    SpliceInside(node, HeaderEnd(k), header);
    SpliceOutside(mid, tail, items[k].data, HeaderEnd(k), HeaderEnd(k + 1));
    SpliceInside(mid, tail, items[k].data);
    SpliceOutside(node, HeaderEnd(k), header, 0, HEADER_SIZE);
    SpliceOutside(mid, tail, items[k].data, 0, HEADER_SIZE);
  }

  lemma {:induction false} AllInPlace(base: seq<byte>, items: seq<Item>, k: nat)
    requires Fits(|base|, items) && |base| >= HEADER_SIZE && k <= |items|
    ensures forall j :: 0 <= j < k ==> InPlace(Filled(base, items, k), items, j)
    ensures Filled(base, items, k)[..HEADER_SIZE] == base[..HEADER_SIZE]
  {
    hide DataLength, InPlace, WithItem;
    if k > 0 {
      AllInPlace(base, items, k - 1);
      TailBounds(|base|, items, k);
      DataLengthStep(items, k - 1);
      TailBounds(|base|, items, k - 1);
      var before := Filled(base, items, k - 1);
      PlacesNew(before, items, k - 1);
      forall j | 0 <= j < k - 1
        ensures InPlace(Filled(base, items, k), items, j)
      {
        KeepsEarlier(before, items, j, k - 1);
      }
    }
  }

  // ---- the round trip ----

  lemma ReadsItem(node: seq<byte>, items: seq<Item>, j: nat)
    requires Fits(|node|, items) && j < |items| && InPlace(node, items, j)
    ensures Item(ItemHeaderAt(node, j).key, ItemData(node, ItemHeaderAt(node, j))) == items[j]
  {
    hide DataLength, LeBytes, LeValue, Field, ParseKey, KeyBytes;
    TailBounds(|node|, items, j + 1);
    TailBounds(|node|, items, j);
    DataLengthStep(items, j);
    var tail := Tail(|node|, items, j + 1);
    var piece := ItemBytes(items[j].key, tail - HEADER_SIZE, |items[j].data|);
    var io := HeaderEnd(j);
    Pow256Values();
    Within(node, io, piece, 0, DISK_KEY_SIZE);
    ReadKey(node, io, items[j].key);
    ReadNumber(node, io, piece, 17, 4, tail - HEADER_SIZE);
    ReadNumber(node, io, piece, 21, 4, |items[j].data|);
  }

  /** Resealing only rewrites the stored digest. */
  lemma ResealKeeps(node: seq<byte>, items: seq<Item>, j: nat)
    requires Writable(|node|, items) && j < |items| && InPlace(node, items, j)
    ensures InPlace(Reseal(node), items, j)
  {
    hide DataLength, ItemBytes, Splice, Crc32cOf;
    TailBounds(|node|, items, j + 1);
    TailBounds(|node|, items, j);
    DataLengthStep(items, j);
    var tail := Tail(|node|, items, j + 1);
    var digest := DigestBytes(Crc32cOf(node[CSUM_SIZE..]));
    SpliceOutside(node, 0, digest, HeaderEnd(j), HeaderEnd(j + 1));
    SpliceOutside(node, 0, digest, tail, tail + |items[j].data|);
  }

  lemma BlankFields(nodesize: nat, bytenr: u64, owner: u64, n: u32)
    requires nodesize >= HEADER_SIZE
    ensures var base := Blank(nodesize, bytenr, owner, n);
      base[0x30..0x38] == LeBytes(bytenr, 8) && base[0x58..0x60] == LeBytes(owner, 8)
      && base[0x60..0x64] == LeBytes(n, 4) && base[0x64] == 0 && base[0x20..0x30] == Zeros(16)
  {
    hide LeBytes;
  }

  lemma HeaderFields(node: seq<byte>, base: seq<byte>, bytenr: u64, owner: u64, n: u32)
    requires |node| >= HEADER_SIZE && base == Blank(|node|, bytenr, owner, n)
    requires node[4..HEADER_SIZE] == base[4..HEADER_SIZE]
    ensures LeU64(node, 0x30) == bytenr && LeU64(node, 0x58) == owner
    ensures LeU32(node, 0x60) == n && U8At(node, 0x64) == 0 && BytesAt(node, 0x20, 16) == Zeros(16)
  {
    hide LeBytes, LeValue, Field, Blank, Zeros;
    Pow256Values();
    BlankFields(|node|, bytenr, owner, n);
    var piece := base[4..HEADER_SIZE];
    Within(base, 4, piece, 0x2c, 0x34);
    Within(base, 4, piece, 0x54, 0x5c);
    Within(base, 4, piece, 0x5c, 0x60);
    ReadNumber(node, 4, piece, 0x2c, 8, bytenr);
    ReadNumber(node, 4, piece, 0x54, 8, owner);
    ReadNumber(node, 4, piece, 0x5c, 4, n);
    Within(base, 4, piece, 0x1c, 0x2c);
    FieldInSlice(node, 4, piece, 0x1c, 16);
    assert U8At(node, 4 + 0x60) == piece[0x60] == 0;
  }

  /** Past the digest the built leaf's header is the blank one. */
  lemma HeaderKept(nodesize: nat, bytenr: u64, owner: u64, items: seq<Item>)
    requires Fits(nodesize, items)
    ensures LeafBytes(nodesize, bytenr, owner, items)[4..HEADER_SIZE]
      == Blank(nodesize, bytenr, owner, |items|)[4..HEADER_SIZE]
  {
    hide DataLength, InPlace, Crc32cOf, VerifyCrc32c, DigestBytes, Filled, Blank, Reseal;
    var base := Blank(nodesize, bytenr, owner, |items|);
    var raw := Filled(base, items, |items|);
    var node := Reseal(raw);
    AllInPlace(base, items, |items|);
    ResealVerifies(raw);
    assert node[4..][..HEADER_SIZE - 4] == node[4..HEADER_SIZE];
    assert raw[4..][..HEADER_SIZE - 4] == raw[4..HEADER_SIZE];
    assert raw[..HEADER_SIZE][4..] == raw[4..HEADER_SIZE] && base[..HEADER_SIZE][4..] == base[4..HEADER_SIZE];
  }

  /** The built leaf holds every item in place and verifies. */
  lemma ItemsKept(nodesize: nat, bytenr: u64, owner: u64, items: seq<Item>)
    requires Fits(nodesize, items)
    ensures var node := LeafBytes(nodesize, bytenr, owner, items);
      VerifyCrc32c(node, nodesize) && forall j :: 0 <= j < |items| ==> InPlace(node, items, j)
  {
    hide DataLength, InPlace, Crc32cOf, VerifyCrc32c, DigestBytes, Filled, Blank, Reseal;
    var base := Blank(nodesize, bytenr, owner, |items|);
    var raw := Filled(base, items, |items|);
    AllInPlace(base, items, |items|);
    ResealVerifies(raw);
    forall j | 0 <= j < |items|
      ensures InPlace(Reseal(raw), items, j)
    {
      ResealKeeps(raw, items, j);
    }
  }

  /**
    A built leaf parses back to exactly the items written, because the forward
    headers and the backward data never overlap; its checksum verifies and its
    header carries the address, owner and count it was given and a blank filesystem id.
  */
  lemma LeafRoundTrip(nodesize: nat, bytenr: u64, owner: u64, items: seq<Item>)
    requires Fits(nodesize, items)
    ensures var r := ParsedNode(LeafBytes(nodesize, bytenr, owner, items));
      r.Ok? && r.value.IsLeaf() && r.value.LeafItems() == items && r.value.crcValid == Some(true)
      && r.value.header.bytenr == bytenr && r.value.header.owner == owner && r.value.header.nritems == |items|
      && r.value.header.fsid == Zeros(16)
  {
    hide DataLength, InPlace, VerifyCrc32c, LeU64, LeU32, BytesAt, ItemHeaderAt, LeafBytes, Zeros;
    var node := LeafBytes(nodesize, bytenr, owner, items);
    HeaderKept(nodesize, bytenr, owner, items);
    ItemsKept(nodesize, bytenr, owner, items);
    HeaderFields(node, Blank(nodesize, bytenr, owner, |items|), bytenr, owner, |items|);
    var headers := ItemHeaders(node, |items|);
    forall j | 0 <= j < |items|
      ensures ItemsOf(node, headers)[j] == items[j]
    {
      ReadsItem(node, items, j);
    }
    assert ItemsOf(node, headers) == items;
  }

  // ---- chunk items ----

  /** A chunk as the writer is given it; stripes are (device, offset). */
  datatype ChunkSpec = ChunkSpec(start: u64, length: u64, chunkType: u64, stripes: seq<(u64, u64)>)

  function Placed(stripes: seq<(u64, u64)>): (ss: seq<Stripe>)
    ensures |ss| == |stripes| && StripesFormed(ss)
  {
    if stripes == [] then [] else
      var (devid, offset) := stripes[|stripes| - 1];
      Placed(stripes[..|stripes| - 1]) + [Stripe(devid, offset, Zeros(16))]
  }

  function ChunkBytes(c: ChunkSpec): seq<byte> {
    HeaderBytes(c.length, 2, 65536, c.chunkType, Zeros(12), |c.stripes| % 0x1_0000, 1) + StripesBytes(Placed(c.stripes))
  }

  method Append(d: array<byte>, at: nat, bs: seq<byte>, ghost done: seq<byte>, ghost left: nat)
    requires d[..] == done + Zeros(left) && at == |done| && |bs| <= left
    modifies d
    ensures d[..] == done + bs + Zeros(left - |bs|)
  {
    Grow(done, left, bs);
    CopyInto(d, at, bs);
  }

  method WriteChunkHeader(d: array<byte>, c: ChunkSpec, ghost left: nat)
    requires d[..] == Zeros(CHUNK_HEADER_SIZE + left)
    modifies d
    ensures d[..] == HeaderBytes(c.length, 2, 65536, c.chunkType, Zeros(12), |c.stripes| % 0x1_0000, 1) + Zeros(left)
  {
    hide LeBytes, Zeros;
    assert [] + Zeros(CHUNK_HEADER_SIZE + left) == Zeros(CHUNK_HEADER_SIZE + left);
    ghost var words := LeBytes(c.length, 8);
    Append(d, 0, LeBytes(c.length, 8), [], CHUNK_HEADER_SIZE + left);
    assert [] + words == words;
    Append(d, 8, LeBytes(2, 8), words, 40 + left);
    words := words + LeBytes(2, 8);
    Append(d, 16, LeBytes(65536, 8), words, 32 + left);
    words := words + LeBytes(65536, 8);
    Append(d, 24, LeBytes(c.chunkType, 8), words, 24 + left);
    words := words + LeBytes(c.chunkType, 8);
    LeaveZeros(words, 12, 4 + left);
    words := words + Zeros(12);
    Append(d, 44, LeBytes(|c.stripes| % 0x1_0000, 2), words, 4 + left);
    words := words + LeBytes(|c.stripes| % 0x1_0000, 2);
    Append(d, 46, LeBytes(1, 2), words, 2 + left);
  }

  /** The writer's buffer once `i` stripes are in place. */
  function ChunkSoFar(c: ChunkSpec, i: nat): seq<byte>
    requires i <= |c.stripes|
  {
    HeaderBytes(c.length, 2, 65536, c.chunkType, Zeros(12), |c.stripes| % 0x1_0000, 1) + StripesBytes(Placed(c.stripes[..i]))
  }

  lemma NextStripe(c: ChunkSpec, i: nat)
    requires i < |c.stripes|
    ensures ChunkSoFar(c, i + 1)
      == ChunkSoFar(c, i) + LeBytes(c.stripes[i].0, 8) + LeBytes(c.stripes[i].1, 8) + Zeros(16)
  {
    hide LeBytes, HeaderBytes;
    var upto := c.stripes[..i + 1];
    assert upto[|upto| - 1] == c.stripes[i] && upto[..|upto| - 1] == c.stripes[..i];
    var stripe := Stripe(c.stripes[i].0, c.stripes[i].1, Zeros(16));
    assert Placed(upto) == Placed(c.stripes[..i]) + [stripe];
    assert StripesBytes(Placed(upto)) == StripesBytes(Placed(c.stripes[..i])) + StripeBytes(stripe);
  }

  lemma AllZero(bs: seq<byte>)
    requires forall i :: 0 <= i < |bs| ==> bs[i] == 0
    ensures bs == Zeros(|bs|)
  {
  }

  lemma NoZeros(done: seq<byte>)
    ensures done + Zeros(0) == done
  {
  }

  lemma SoFarEnds(c: ChunkSpec)
    ensures ChunkSoFar(c, 0) == HeaderBytes(c.length, 2, 65536, c.chunkType, Zeros(12), |c.stripes| % 0x1_0000, 1)
    ensures ChunkSoFar(c, |c.stripes|) == ChunkBytes(c)
    ensures |ChunkSoFar(c, 0)| == CHUNK_HEADER_SIZE
  {
    assert c.stripes[..|c.stripes|] == c.stripes;
    assert Placed(c.stripes[..0]) == [];
  }

  method ChunkItem(c: ChunkSpec) returns (d: array<byte>)
    ensures fresh(d) && d[..] == ChunkBytes(c)
  {
    hide HeaderBytes, LeBytes, StripesBytes, Placed, Zeros, ChunkSoFar;
    var n := |c.stripes|;
    d := new byte[CHUNK_HEADER_SIZE + n * STRIPE_SIZE](_ => 0);
    AllZero(d[..]);
    WriteChunkHeader(d, c, n * STRIPE_SIZE);
    SoFarEnds(c);
    for i := 0 to n
      invariant d[..] == ChunkSoFar(c, i) + Zeros((n - i) * STRIPE_SIZE)
      invariant |ChunkSoFar(c, i)| == CHUNK_HEADER_SIZE + i * STRIPE_SIZE
    {
      ghost var left := (n - i) * STRIPE_SIZE;
      assert left == (n - (i + 1)) * STRIPE_SIZE + STRIPE_SIZE;
      var so := CHUNK_HEADER_SIZE + i * STRIPE_SIZE;
      var (devid, off) := c.stripes[i];
      ghost var done := ChunkSoFar(c, i);
      Append(d, so, LeBytes(devid, 8), done, left);
      Append(d, so + 8, LeBytes(off, 8), done + LeBytes(devid, 8), left - 8);
      LeaveZeros(done + LeBytes(devid, 8) + LeBytes(off, 8), 16, left - STRIPE_SIZE);
      NextStripe(c, i);
    }
    NoZeros(ChunkSoFar(c, n));
  }

  /** What a reader makes of it: the stripe count is stored in sixteen bits. */
  function ChunkOf(c: ChunkSpec): Chunk {
    var n := |c.stripes| % 0x1_0000;
    Chunk(c.length, 2, 65536, c.chunkType, n, 1, Placed(c.stripes[..n]))
  }

  lemma {:induction false} StripesPrefix(stripes: seq<(u64, u64)>, k: nat)
    requires k <= |stripes|
    ensures StripesBytes(Placed(stripes[..k])) <= StripesBytes(Placed(stripes))
    decreases |stripes|
  {
    hide StripeBytes;
    if k == |stripes| {
      assert stripes[..k] == stripes;
    } else {
      var before := stripes[..|stripes| - 1];
      assert before[..k] == stripes[..k];
      StripesPrefix(before, k);
      assert Placed(stripes)[..|stripes| - 1] == Placed(before);
    }
  }

  /** A written chunk reads back whole exactly when its stripe count fits the sixteen-bit field. */
  lemma ChunkRoundTrip(c: ChunkSpec)
    ensures ParsedChunk(ChunkBytes(c)) == ChunkOf(c)
    ensures ParsedChunk(ChunkBytes(c)).stripes == Placed(c.stripes) <==> |c.stripes| < 0x1_0000
  {
    hide LeU64, LeU16, HeaderBytes, StripesBytes, Placed, Zeros, ParseStripe;
    var data := ChunkBytes(c);
    var n := |c.stripes| % 0x1_0000;
    var all, ss := StripesBytes(Placed(c.stripes)), Placed(c.stripes[..n]);
    assert data[0..CHUNK_HEADER_SIZE] == HeaderBytes(c.length, 2, 65536, c.chunkType, Zeros(12), n, 1);
    ReadChunkHeader(data, 0, c.length, 2, 65536, c.chunkType, Zeros(12), n, 1);
    StripesPrefix(c.stripes, n);
    assert data[CHUNK_HEADER_SIZE..] == all;
    assert data[CHUNK_HEADER_SIZE..CHUNK_HEADER_SIZE + |StripesBytes(ss)|] == all[..|StripesBytes(ss)|];
    ReadStripes(data, CHUNK_HEADER_SIZE, ss);
    if |c.stripes| < 0x1_0000 {
      assert c.stripes[..n] == c.stripes;
    }
  }

  function ChunkLeafItems(cs: seq<ChunkSpec>): (items: seq<Item>) {
    if cs == [] then []
    else [Item(DiskKey(256, CHUNK_ITEM_KEY, cs[0].start), ChunkBytes(cs[0]))] + ChunkLeafItems(cs[1..])
  }

  function ChunksOf(cs: seq<ChunkSpec>): seq<(u64, Chunk)> {
    if cs == [] then [] else [(cs[0].start, ChunkOf(cs[0]))] + ChunksOf(cs[1..])
  }

  lemma {:induction false} ChunksDecode(cs: seq<ChunkSpec>)
    ensures ChunksIn(ChunkLeafItems(cs)) == ChunksOf(cs)
    decreases |cs|
  {
    hide ChunkBytes, ParsedChunk, ChunkOf;
    if cs != [] {
      ChunkRoundTrip(cs[0]);
      ChunksDecode(cs[1..]);
      assert ChunkLeafItems(cs)[1..] == ChunkLeafItems(cs[1..]);
    }
  }

  /** A leaf of chunk items yields exactly the chunks written, in order. */
  lemma ChunkLeafRoundTrip(nodesize: nat, bytenr: u64, owner: u64, cs: seq<ChunkSpec>)
    requires Fits(nodesize, ChunkLeafItems(cs))
    ensures var r := ParsedNode(LeafBytes(nodesize, bytenr, owner, ChunkLeafItems(cs)));
      r.Ok? && r.value.ChunkItems() == ChunksOf(cs)
  {
    hide LeafBytes, ParsedNode, ChunkLeafItems, ChunksOf, Fits;
    LeafRoundTrip(nodesize, bytenr, owner, ChunkLeafItems(cs));
    ChunksDecode(cs);
  }
}
