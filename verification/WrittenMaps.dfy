/** The writer and the walk together (core/tests/node.rs, core/src/node.rs). */
module WrittenMaps {
  import opened Wrappers
  import opened Bytes
  import opened Nodes
  import opened LeafWriter
  import opened Superblocks
  import opened ChunkMaps
  import opened ChunkWalk

  /** The image holds, where the bootstrap places the chunk root, the leaf the writer makes of these chunks. */
  predicate HoldsChunkLeaf(image: seq<byte>, sb: Superblock, bytenr: u64, owner: u64, cs: seq<ChunkSpec>)
    requires Fits(sb.nodesize, ChunkLeafItems(cs))
  {
    match Physical(Translate(BootEntries(sb.sysChunks), sb.chunkRoot))
    case None => false
    case Some(phys) =>
      phys + sb.nodesize <= |image|
      && image[phys..phys + sb.nodesize] == LeafBytes(sb.nodesize, bytenr, owner, ChunkLeafItems(cs))
  }

  lemma ParsedIsLeaf(nodesize: nat, bytenr: u64, owner: u64, cs: seq<ChunkSpec>)
    requires Fits(nodesize, ChunkLeafItems(cs))
    ensures var r := ParsedNode(LeafBytes(nodesize, bytenr, owner, ChunkLeafItems(cs))); r.Ok? && r.value.IsLeaf()
  {
    hide LeafBytes, ParsedNode, ChunkLeafItems, Fits;
    LeafRoundTrip(nodesize, bytenr, owner, ChunkLeafItems(cs));
  }

  lemma WalkEmpty(g: Ground, entries: seq<MapEntry>, budget: nat)
    ensures WalkFrom(g, entries, [], true, budget) == Ok(entries)
  {
  }

  /** The bootstrap finds the written leaf at the chunk root. */
  lemma WrittenLeafFound(image: seq<byte>, sb: Superblock, bytenr: u64, owner: u64, cs: seq<ChunkSpec>)
    requires Fits(sb.nodesize, ChunkLeafItems(cs)) && HoldsChunkLeaf(image, sb, bytenr, owner, cs)
    ensures var at := NodeAt(GroundOf(image, sb), sb.chunkRoot);
      at.Some? && at.value.IsLeaf() && NodeEntries(at.value) == EntriesOfChunks(ChunksOf(cs))
  {
    hide LeafBytes, ParsedNode, ChunkLeafItems, ChunksOf, Fits, EntriesOfChunks, Translate, ChunksIn, ItemsOf;
    ChunkLeafRoundTrip(sb.nodesize, bytenr, owner, cs);
    ParsedIsLeaf(sb.nodesize, bytenr, owner, cs);
  }

  /** Chunks written into the chunk root's leaf are exactly the map the walk returns. */
  lemma WrittenChunksWalked(image: seq<byte>, sb: Superblock, bytenr: u64, owner: u64, cs: seq<ChunkSpec>)
    requires Fits(sb.nodesize, ChunkLeafItems(cs)) && HoldsChunkLeaf(image, sb, bytenr, owner, cs)
    ensures Represents(GroundOf(image, sb), LeafTree(sb.chunkRoot))
    ensures Walked(image, sb) == Ok(EntriesOfChunks(ChunksOf(cs)))
  {
    hide HoldsChunkLeaf, NodeAt, ChunkLeafItems, ChunksOf, Fits, EntriesOfChunks, WalkFrom, NodeEntries, BootEntries;
    var g := GroundOf(image, sb);
    WrittenLeafFound(image, sb, bytenr, owner, cs);
    assert Translate([], sb.chunkRoot) == None;
    assert [] + [sb.chunkRoot] == [sb.chunkRoot];
    WalkNode(g, [], [], sb.chunkRoot, false, WALK_BUDGET);
    var entries := NodeEntries(NodeAt(g, sb.chunkRoot).value);
    assert [] + entries == entries;
    WalkEmpty(g, entries, WALK_BUDGET - 1);
  }
}
