/**
  Whole images written out (core/tests/node.rs): a superblock and two tree blocks.
  One kind is clean; the others are tampered with, or are the inputs on which the
  code and its comments part.
*/
module WrittenImages {
  import opened Wrappers
  import opened Bytes
  import opened Crc
  import opened SysChunks
  import opened Nodes
  import opened NodePrinting
  import opened LeafWriter
  import opened Superblocks
  import opened ChunkMaps
  import opened ChunkWalk
  import opened WrittenMaps
  import opened WrittenSupers
  import opened EmptyMaps
  import opened FsTrees
  import opened Backups
  import opened Sweeps
  import opened SweepReach
  import opened Orphans
  import opened Audits
  import Extents
  import opened Recovery
  import opened Tampering

  // ---- the image ----

  /** Addresses `base` and `base + NODE` are the root's and the chunk root's blocks. */
  function Image(base: u64, b: RootBackup, first: seq<byte>, second: seq<byte>): (image: seq<byte>)
    requires base + SPAN < U64_LIMIT && |first| == |second| == NODE
    ensures |image| == GROUND + 2 * NODE
  {
    Zeros(SUPER_INFO_OFFSET) + SuperBytes(base, base + NODE, base, b) + Zeros(61440) + first + second
  }

  lemma ImagePieces(base: u64, b: RootBackup, first: seq<byte>, second: seq<byte>)
    requires base + SPAN < U64_LIMIT && |first| == |second| == NODE
    ensures var image := Image(base, b, first, second);
      SuperblockBlock(image) == Some(SuperBytes(base, base + NODE, base, b))
      && image[GROUND..GROUND + NODE] == first && image[GROUND + NODE..GROUND + 2 * NODE] == second
  {
    hide SuperBytes, Zeros;
    var super, gap := SuperBytes(base, base + NODE, base, b), Zeros(61440);
    var front := Zeros(SUPER_INFO_OFFSET) + super;
    var image := Image(base, b, first, second);
    assert |front| + |gap| == GROUND;
    assert image == front + gap + first + second;
    assert image[..|front|] == front;
    assert image[SUPER_INFO_OFFSET..SUPER_INFO_OFFSET + SUPER_INFO_SIZE] == front[SUPER_INFO_OFFSET..];
    assert front[SUPER_INFO_OFFSET..] == super;
  }

  /** The superblock of the image. */
  function SuperOf(base: u64, b: RootBackup): (sb: Superblock)
    requires base + SPAN < U64_LIMIT
    ensures ReadsBack(sb, base, base + NODE, base)
  {
    SuperParsed(base, base + NODE, base, b);
    ParsedSuperblock(SuperBytes(base, base + NODE, base, b)).value
  }

  lemma MappedAt(base: u64, b: RootBackup, k: nat)
    requires base + SPAN < U64_LIMIT && k < SPAN
    ensures Translate(BootEntries(SuperOf(base, b).sysChunks), base + k) == Some((1, GROUND + k))
    ensures FindMap(SuperOf(base, b).sysChunks, base + k) == Some(GROUND + k)
  {
    hide SuperOf;
    var c := Mapping(base).chunk;
    assert SuperOf(base, b).sysChunks == [c];
    assert [c][1..] == [] && c.stripes[1..] == [];
    assert StripePairs(c.stripes) == [(1, GROUND)];
    assert BootEntries([c]) == [MapEntry(base, SPAN, [(1, GROUND)])];
    assert TranslateBy(c, base + k) == Some(GROUND + k);
  }

  lemma NotPlaced(base: u64, b: RootBackup, a: u64)
    requires base + SPAN < U64_LIMIT && a < base
    ensures FindMap(SuperOf(base, b).sysChunks, a) == None
  {
    hide SuperOf;
    var c := Mapping(base).chunk;
    assert SuperOf(base, b).sysChunks == [c] && [c][1..] == [];
    assert TranslateBy(c, a) == None;
  }

  lemma EmptyFits()
    ensures Fits(NODE, []) && ChunkLeafItems([]) == []
  {
  }

  /** A sealed leaf with no items. */
  function EmptyLeaf(bytenr: u64, owner: u64): (bs: seq<byte>)
    ensures |bs| == NODE
  {
    EmptyFits();
    LeafBytes(NODE, bytenr, owner, [])
  }

  /** A chunk-root leaf with no chunk items. */
  function EmptyChunkLeaf(base: u64): (bs: seq<byte>)
    requires base + SPAN < U64_LIMIT
    ensures |bs| == NODE
  {
    EmptyLeaf(base + NODE, 3)
  }

  /** A written image whose root is a good leaf without items and whose first backup slot is `b`. */
  function SlotImage(base: u64, b: RootBackup): seq<byte>
    requires base + SPAN < U64_LIMIT
  {
    Image(base, b, EmptyLeaf(base, 1), EmptyChunkLeaf(base))
  }

  lemma ParsedIsSuper(base: u64, b: RootBackup)
    requires base + SPAN < U64_LIMIT
    ensures ParsedSuperblock(SuperBytes(base, base + NODE, base, b)) == Ok(SuperOf(base, b))
  {
    hide SuperBytes, ParsedSuperblock;
    SuperParsed(base, base + NODE, base, b);
  }

  lemma WalkIsEmpty(base: u64, b: RootBackup, first: seq<byte>)
    requires base + SPAN < U64_LIMIT && |first| == NODE
    ensures Walked(Image(base, b, first, EmptyChunkLeaf(base)), SuperOf(base, b)) == Ok([])
  {
    hide SuperBytes, Image, SuperOf, LeafBytes, Walked, Fits, ChunkLeafItems;
    EmptyFits();
    ImagePieces(base, b, first, EmptyChunkLeaf(base));
    MappedAt(base, b, NODE);
    WrittenChunksWalked(Image(base, b, first, EmptyChunkLeaf(base)), SuperOf(base, b), base + NODE, 3, []);
  }

  /** The walk of such an image returns an empty map, and both blocks read through the bootstrap. */
  lemma ImageScene(base: u64, b: RootBackup, first: seq<byte>)
    requires base + SPAN < U64_LIMIT && |first| == NODE
    ensures var image := Image(base, b, first, EmptyChunkLeaf(base)); var sc := Scene(image, SuperOf(base, b), []);
      Walked(image, SuperOf(base, b)) == Ok([]) && SceneOf(image) == Some(sc)
      && sc.Read(base) == ParsedNode(first) && sc.Read(base + NODE) == ParsedNode(EmptyChunkLeaf(base))
      && sc.Backups() == [b, NONE, NONE, NONE]
  {
    hide SuperBytes, Image, SuperOf, ParsedNode, EmptyChunkLeaf, LeafBytes, BackupsIn, ParsedSuperblock, Walked;
    var second := EmptyChunkLeaf(base);
    var image := Image(base, b, first, second);
    ImagePieces(base, b, first, second);
    MappedAt(base, b, 0);
    MappedAt(base, b, NODE);
    WalkIsEmpty(base, b, first);
    ParsedIsSuper(base, b);
    OneBackup(base, base + NODE, base, b);
  }

  // ---- a corrupt node reported away from where it lies ----

  function Flipped(bs: seq<byte>): (r: seq<byte>)
    requires bs != []
    ensures |r| == |bs| && r[0] != bs[0] && r == bs[0 := r[0]]
  {
    bs[0 := if bs[0] == 0 then 1 else 0]
  }

  /** The same leaf with the first byte of its digest changed. */
  function CorruptLeaf(base: u64): (bs: seq<byte>)
    ensures |bs| == NODE
  {
    Flipped(EmptyLeaf(base, 1))
  }

  /** Two blocks that differ in their first byte alone name the same address, filesystem and level. */
  lemma SameLaterBytes(leaf: seq<byte>, bad: seq<byte>)
    requires |leaf| == |bad| == NODE && bad == leaf[0 := bad[0]]
    ensures LeU64(bad, 0x30) == LeU64(leaf, 0x30) && BytesAt(bad, 0x20, 16) == BytesAt(leaf, 0x20, 16)
    ensures U8At(bad, 0x64) == U8At(leaf, 0x64)
  {
    hide LeValue, Field, BytesAt;
    assert bad[0x30..0x38] == leaf[0x30..0x38] && bad[0x20..0x30] == leaf[0x20..0x30];
    SameNumber(bad, leaf, 0x30, 8);
  }

  lemma CorruptLeafParsed(base: u64)
    ensures var r := ParsedNode(CorruptLeaf(base));
      r.Ok? && r.value.IsLeaf() && r.value.header.bytenr == base && r.value.header.fsid == Zeros(16)
      && r.value.crcValid == Some(false)
  {
    hide LeafBytes, VerifyCrc32c, LeU64, LeU32, BytesAt, ItemHeaders, KeyPtrs, Zeros, Fits;
    EmptyFits();
    var leaf, bad := EmptyLeaf(base, 1), CorruptLeaf(base);
    LeafRoundTrip(NODE, base, 1, []);
    SingleByteTamper(leaf, NODE, 0, bad[0]);
    SameLaterBytes(leaf, bad);
  }

  lemma LongPath(sc: Scene, p: seq<u64>)
    requires Path(sc, p) && |p| > 1
    ensures p[0] in Seeds(sc) && Children(sc, p[0]) != []
  {
    hide Seeds, Children;
    assert p[0 + 1] in Children(sc, p[0]);
  }

  lemma {:induction false} NoPointers(sc: Scene, s: set<u64>)
    requires forall a :: a in s ==> Children(sc, a) == []
    ensures PointersFrom(sc, s) == 0
    decreases |s|
  {
    hide Children;
    if s != {} {
      var a :| a in s;
      NoPointers(sc, s - {a});
      PointersWithout(sc, s, a);
    }
  }

  /** A graph whose seeds are all leaves costs the sweep no more than its seeds. */
  lemma LeavesWithinBudget(sc: Scene)
    requires |Seeds(sc)| <= SWEEP_BUDGET && forall a :: a in Seeds(sc) ==> Children(sc, a) == []
    ensures WithinBudget(sc)
  {
    hide Seeds, Children, PointersFrom;
    forall a | a in ReachSet(sc)
      ensures Children(sc, a) == []
    {
      var p :| Path(sc, p) && p[|p| - 1] == a;
      if |p| > 1 {
        LongPath(sc, p);
      }
    }
    NoPointers(sc, ReachSet(sc));
  }

  lemma {:induction false} ZeroRoots(bs: seq<RootBackup>)
    requires forall i :: 0 <= i < |bs| ==> bs[i] == NONE
    ensures NonZero(RootsOf(bs)) == []
  {
    if bs != [] {
      ZeroRoots(bs[1..]);
      assert RootsOf(bs)[1..][1..] == RootsOf(bs[1..]);
    }
  }

  lemma TwoNonZero(a: u64, b: u64)
    requires a != 0 && b != 0
    ensures NonZero([a, b]) == [a, b]
  {
    assert [a, b][1..] == [b] && [b][1..] == [];
    assert NonZero([b]) == [b];
  }

  lemma TwoSeeds(base: u64, first: seq<byte>)
    requires 0 < base && base + SPAN < U64_LIMIT && |first| == NODE
    ensures Seeds(Scene(Image(base, NONE, first, EmptyChunkLeaf(base)), SuperOf(base, NONE), [])) == [base, base + NODE]
  {
    hide SuperOf, Image, EmptyChunkLeaf, SuperBytes, BackupsIn, RootsOf, ParsedNode, Walked, ParsedSuperblock;
    var sc := Scene(Image(base, NONE, first, EmptyChunkLeaf(base)), SuperOf(base, NONE), []);
    ImageScene(base, NONE, first);
    ZeroRoots(sc.Backups());
    NonZeroSplit([base, base + NODE], RootsOf(sc.Backups()));
    TwoNonZero(base, base + NODE);
    assert [base, base + NODE] + [] == [base, base + NODE];
  }

  lemma EmptyLeafPointsNowhere(base: u64)
    requires base + SPAN < U64_LIMIT
    ensures var r := ParsedNode(EmptyChunkLeaf(base));
      r.Ok? && r.value.IsLeaf() && r.value.crcValid == Some(true) && NonZero(Blockptrs(r.value.Pointers())) == []
  {
    hide LeafBytes, ParsedNode, Fits;
    EmptyFits();
    LeafRoundTrip(NODE, base + NODE, 3, []);
  }

  lemma NoneNonZero()
    ensures NonZero([]) == []
  {
  }

  /**
    An image whose root lies at 131072 and fails its checksum: the walked map is
    empty, the bootstrap finds the node, and the audit reports it at 4096.
  */
  lemma WrongOffsetReported()
    ensures var image := Image(4096, NONE, CorruptLeaf(4096), EmptyChunkLeaf(4096));
      SceneOf(image).Some? && NodeCrcMismatch(4096, 4096) in Swept(SceneOf(image).value)
      && NodeCrcMismatch(4096, 4096) in Audited(image)
      && SceneOf(image).value.Read(4096).Ok? && NodeStart(SceneOf(image).value, 4096) == 131072
  {
    hide SuperOf, Image, EmptyChunkLeaf, CorruptLeaf, SuperBytes, BackupsIn, ParsedNode, Walked, SceneOf,
      Reachable, WithinBudget, Audited, Swept, Seeds, NonZero;
    var base: u64 := 4096;
    var first := CorruptLeaf(base);
    var image := Image(base, NONE, first, EmptyChunkLeaf(base));
    var sc := Scene(image, SuperOf(base, NONE), []);
    ImageScene(base, NONE, first);
    CorruptLeafParsed(base);
    EmptyLeafPointsNowhere(base);
    TwoSeeds(base, first);
    MappedAt(base, NONE, 0);
    assert Translate([], base) == None;
    assert OffsetOf(sc, base) == 4096 && Corrupt(sc, base);
    NoneNonZero();
    LeavesWithinBudget(sc);
    SeedReachable(sc, base);
    SweepComplete(sc, base);
    AuditExact(image, NodeCrcMismatch(4096, 4096));
  }

  // ---- one byte of a written image changed ----

  lemma RootLeafParsed(base: u64)
    ensures var r := ParsedNode(EmptyLeaf(base, 1));
      r.Ok? && r.value.IsLeaf() && r.value.header.bytenr == base && r.value.header.fsid == Zeros(16)
      && r.value.crcValid == Some(true) && NonZero(Blockptrs(r.value.Pointers())) == []
  {
    hide LeafBytes, ParsedNode, Fits, Zeros;
    EmptyFits();
    LeafRoundTrip(NODE, base, 1, []);
  }

  /** The walk of a written image reads the chunk root's block and nothing else. */
  lemma OneBlockWalked(base: u64, b: RootBackup, first: seq<byte>)
    requires base + SPAN < U64_LIMIT && |first| == NODE
    ensures var image := Image(base, b, first, EmptyChunkLeaf(base));
      WalkReads(GroundOf(image, SuperOf(base, b)), [], [base + NODE], false, WALK_BUDGET) == [GROUND + NODE]
  {
    hide SuperBytes, Image, SuperOf, LeafBytes, ParsedNode, EmptyLeaf, NodeEntries, BootEntries;
    var image := Image(base, b, first, EmptyChunkLeaf(base));
    var g := GroundOf(image, SuperOf(base, b));
    ImagePieces(base, b, first, EmptyChunkLeaf(base));
    MappedAt(base, b, NODE);
    EmptyLeafPointsNowhere(base);
    assert Translate([], base + NODE) == None;
    assert BlockAt(g, GROUND + NODE) == EmptyChunkLeaf(base);
    var next := After([], [], ParsedNode(BlockAt(g, GROUND + NODE)));
    assert [base + NODE][..0] == [];
    assert WalkReads(g, next.0, [], true, WALK_BUDGET - 1) == [];
  }

  lemma OnlyTwoReachable(sc: Scene, a: u64, b: u64, x: u64)
    requires Seeds(sc) == [a, b] && Children(sc, a) == [] && Children(sc, b) == [] && Reachable(sc, x)
    ensures x == a || x == b
  {
    hide Seeds, Children;
    var p :| Path(sc, p) && p[|p| - 1] == x;
    if |p| > 1 {
      LongPath(sc, p);
    }
  }

  lemma EmptyLeafNamesNoTree(base: u64)
    ensures var r := ParsedNode(EmptyLeaf(base, 1));
      r.Ok? && FindItem(r.value.LeafItems(), FS_TREE_OBJECTID, ROOT_ITEM_KEY) == None
  {
    hide LeafBytes, ParsedNode, Fits, Zeros;
    EmptyFits();
    LeafRoundTrip(NODE, base, 1, []);
  }

  lemma NoRootScanned(sc: Scene)
    requires sc.Read(sc.sb.root).Ok?
    requires FindItem(sc.Read(sc.sb.root).value.LeafItems(), FS_TREE_OBJECTID, ROOT_ITEM_KEY) == None
    requires forall i :: 0 <= i < |sc.Backups()| ==> sc.Backups()[i] == NONE
    ensures NoScannedOrphan(sc)
  {
    hide ReadNode, HasOrphan, BackupsIn;
  }

  /** A written image with a good root leaf is clean, so its audit is empty. */
  lemma WrittenImageClean(base: u64)
    requires 0 < base && base + SPAN < U64_LIMIT
    ensures var image := SlotImage(base, NONE);
      SceneOf(image).Some? && Clean(SceneOf(image).value) && Audited(image) == []
  {
    hide SuperOf, Image, EmptyChunkLeaf, EmptyLeaf, SuperBytes, BackupsIn, ParsedNode, Walked, SceneOf,
      Reachable, WithinBudget, Audited, Seeds, NonZero, NoScannedOrphan;
    var first := EmptyLeaf(base, 1);
    var image := Image(base, NONE, first, EmptyChunkLeaf(base));
    var sc := Scene(image, SuperOf(base, NONE), []);
    ImageScene(base, NONE, first);
    RootLeafParsed(base);
    EmptyLeafPointsNowhere(base);
    EmptyLeafNamesNoTree(base);
    TwoSeeds(base, first);
    NoneNonZero();
    LeavesWithinBudget(sc);
    NoRootScanned(sc);
    forall a: u64 | Reachable(sc, a)
      ensures !Corrupt(sc, a)
    {
      OnlyTwoReachable(sc, base, base + NODE, a);
    }
    CleanImage(image);
  }

  lemma ByteBetrays(block: seq<byte>, v: byte)
    requires |block| == SUPER_INFO_SIZE && v != block[0x48] && CoveredEnd(block) == SUPER_INFO_SIZE
    requires ReadsAsCrc32c(block)
    ensures ReadsAsCrc32c(Splice(block, 0x48, [v])) && Betrayed(block, 0x48, [v])
  {
    hide BytesAt, Splice, LeValue, Field;
    SameField(block, 0x48, [v], 0x40, 8);
    SameField(block, 0x48, [v], 0x90, 4);
    SpliceOutside(block, 0x48, [v], 0xc4, 0xc6);
    assert Changed(block, 0x48, [v], 0x48) && Guarded(SUPER_INFO_SIZE, 0x48);
  }

  /** Changing one byte of a written image's generation is reported by its audit. */
  lemma ChangedSuperReported(base: u64, v: byte)
    requires base + SPAN < U64_LIMIT && v != SuperBytes(base, base + NODE, base, NONE)[0x48]
    ensures var image := SlotImage(base, NONE);
      SuperblockCrcMismatch(SUPER_INFO_OFFSET) in Audited(Splice(image, SUPER_INFO_OFFSET + 0x48, [v]))
  {
    hide SuperOf, Image, EmptyChunkLeaf, EmptyLeaf, SuperBytes, BackupsIn, ParsedNode, Walked, SceneOf,
      Audited, Splice, CoveredEnd, ReadsAsCrc32c, Betrayed;
    var block := SuperBytes(base, base + NODE, base, NONE);
    var image := SlotImage(base, NONE);
    ImageScene(base, NONE, EmptyLeaf(base, 1));
    ImagePieces(base, NONE, EmptyLeaf(base, 1), EmptyChunkLeaf(base));
    FullyCovered(base, base + NODE, base, NONE);
    ByteBetrays(block, v);
    SuperblockTamperReported(image, 0x48, [v]);
  }

  /** Changing byte 200 of a written image's root block, and nothing else, is reported by its audit. */
  lemma ChangedByteReported(v: byte)
    requires v != EmptyLeaf(4096, 1)[200]
    ensures var image := Image(4096, NONE, EmptyLeaf(4096, 1), EmptyChunkLeaf(4096));
      NodeCrcMismatch(4096, 4096) in Audited(Splice(image, GROUND + 200, [v]))
  {
    hide SuperOf, Image, EmptyChunkLeaf, EmptyLeaf, SuperBytes, BackupsIn, ParsedNode, Walked, SceneOf,
      Reachable, WithinBudget, Audited, Seeds, NonZero, Splice, Changed, WalkReads;
    var first := EmptyLeaf(4096, 1);
    var image := Image(4096, NONE, first, EmptyChunkLeaf(4096));
    var sc := Scene(image, SuperOf(4096, NONE), []);
    ImageScene(4096, NONE, first);
    RootLeafParsed(4096);
    EmptyLeafPointsNowhere(4096);
    TwoSeeds(4096, first);
    MappedAt(4096, NONE, 0);
    MappedAt(4096, NONE, NODE);
    ImagePieces(4096, NONE, first, EmptyChunkLeaf(4096));
    assert Translate([], 4096) == None && Translate([], 8192) == None;
    assert BlockOf(sc, 4096) == first && NodeStart(sc, 4096) == GROUND && OffsetOf(sc, 4096) == 4096;
    NoneNonZero();
    LeavesWithinBudget(sc);
    SeedReachable(sc, 4096);
    forall x: u64 | Reachable(sc, x) && x != 4096
      ensures Misses(sc, x, GROUND + 200, 1)
    {
      OnlyTwoReachable(sc, 4096, 8192, x);
    }
    OneBlockWalked(4096, NONE, first);
    OneByteChanged(first, 200, v);
    assert Changed(first, 200, [v], 200) && !Changed(first, 200, [v], 0x64);
    LeafTamperAudited(image, 4096, 200, [v]);
  }

  // ---- a child outside the image, reported as the chunk root ----

  const STRAY: KeyPtr := KeyPtr(DiskKey(256, CHUNK_ITEM_KEY, 0), 20480, 0)

  /** An interior block at 8192 pointing to 20480. */
  function StrayParent(): (bs: seq<byte>)
    ensures |bs| == NODE
  {
    Zeros(0x30) + LeBytes(8192, 8) + Zeros(0x28) + LeBytes(1, 4) + [1] + PtrsBytes([STRAY]) + Zeros(NODE - 134)
  }

  lemma StrayParentParsed()
    ensures var r := ParsedNode(StrayParent()); r.Ok? && !r.value.IsLeaf() && r.value.Pointers() == [STRAY]
  {
    hide LeBytes, LeValue, Field, PtrsBytes, ParsedNode;
    Pow256Values();
    var block, ptrs := StrayParent(), PtrsBytes([STRAY]);
    assert |ptrs| == 33;
    assert block[0x60..0x64] == LeBytes(1, 4) && block[0x64] == 1;
    assert block[HEADER_SIZE..HEADER_SIZE + 33] == ptrs;
    ReadNumber(block, 0x60, LeBytes(1, 4), 0, 4, 1);
    PointersRoundTrip(block, [STRAY]);
  }

  lemma NotOutside(g: Ground, a: u64)
    requires NodeAt(g, a).Some?
    ensures !Outside(g, a)
  {
    hide ParsedNode, Translate;
  }

  lemma StrayWalk(g: Ground)
    requires NodeAt(g, 8192).Some? && !NodeAt(g, 8192).value.IsLeaf() && NodeAt(g, 8192).value.Pointers() == [STRAY]
    requires Outside(g, 20480)
    ensures WalkFrom(g, [], [8192], true, WALK_BUDGET) == Err(RootNodeError(g, 20480))
  {
    hide WalkFrom, Outside, RootNodeError, NodeAt;
    NotOutside(g, 8192);
    BareStep(g, [], 8192, WALK_BUDGET);
    BareStep(g, [], 20480, WALK_BUDGET - 1);
    assert [] + [8192] == [8192] && [STRAY][1..] == [];
    assert Blockptrs([STRAY]) == [20480];
  }

  /** The chunk root reads; its child leaves the image; the walk fails naming the chunk root's node. */
  lemma StrayChildNamedRoot()
    ensures var image := Image(4096, NONE, EmptyLeaf(4096, 1), StrayParent()); var sb := SuperOf(4096, NONE);
      sb.chunkRoot == 8192 && ReadNode(image, sb, [], 8192).Ok?
      && Walked(image, sb) == Err(Truncated(ChunkRootNode, GROUND + 5 * NODE, |image|))
  {
    hide SuperOf, Image, EmptyLeaf, StrayParent, SuperBytes, ParsedNode, WalkFrom, Walked;
    var image, sb := Image(4096, NONE, EmptyLeaf(4096, 1), StrayParent()), SuperOf(4096, NONE);
    var g := GroundOf(image, sb);
    ImagePieces(4096, NONE, EmptyLeaf(4096, 1), StrayParent());
    StrayParentParsed();
    MappedAt(4096, NONE, NODE);
    MappedAt(4096, NONE, 16384);
    assert Translate([], 8192) == None;
    RootedFromStart(image, sb);
    StrayWalk(g);
  }

  // ---- the backup check against reading ----

  /** What the audit of such an image reports of its backups. */
  lemma SlotAudited(base: u64, b: RootBackup, x: Anomaly)
    requires base + SPAN < U64_LIMIT && x.BackupRootDivergence?
    ensures x in Audited(SlotImage(base, b)) <==> Justified([b, NONE, NONE, NONE], 4, 0, GROUND + 2 * NODE, x)
  {
    hide SuperOf, Image, EmptyChunkLeaf, EmptyLeaf, SuperBytes, ParsedNode, Walked, SceneOf, Justified, Audited, BackupsIn;
    ImageScene(base, b, EmptyLeaf(base, 1));
    DivergenceInAudit(SlotImage(base, b), x);
  }

  /** A slot whose two roots pass the check is not reported, whatever they read as. */
  lemma SlotPasses(base: u64, b: RootBackup, x: Anomaly)
    requires base + SPAN < U64_LIMIT && Consistent(b, 0, GROUND + 2 * NODE) && x.BackupRootDivergence?
    ensures x !in Audited(SlotImage(base, b))
  {
    hide SlotImage, Audited;
    SlotAudited(base, b, x);
  }

  /** Stored tree roots below the image's length that have no place: they do not read, and the audit is silent. */
  lemma UnreadableRootPasses(base: u64, a: u64, x: Anomaly)
    requires 0 < a < base && base + SPAN < U64_LIMIT && a < GROUND + 2 * NODE
    ensures var image := SlotImage(base, RootBackup(a, 0, 0, 0));
      SceneOf(image).Some? && SceneOf(image).value.Backups()[0].treeRoot == a && BadRoot(SceneOf(image).value, a)
      && (x.BackupRootDivergence? ==> x !in Audited(image))
  {
    hide SuperOf, Image, EmptyChunkLeaf, EmptyLeaf, SuperBytes, BackupsIn, ParsedNode, Walked, SceneOf, Audited;
    var b := RootBackup(a, 0, 0, 0);
    ImageScene(base, b, EmptyLeaf(base, 1));
    NotPlaced(base, b, a);
    assert Translate([], a) == None;
    if x.BackupRootDivergence? {
      SlotPasses(base, b, x);
    }
  }

  /** The same for stored FS roots, which the check never looks at. */
  lemma UnreadableFsRootPasses(base: u64, a: u64, x: Anomaly)
    requires 0 < a < base && base + SPAN < U64_LIMIT
    ensures var image := SlotImage(base, RootBackup(0, 0, a, 0));
      SceneOf(image).Some? && SceneOf(image).value.Backups()[0].fsRoot == a && BadRoot(SceneOf(image).value, a)
      && (x.BackupRootDivergence? ==> x !in Audited(image))
  {
    hide SuperOf, Image, EmptyChunkLeaf, EmptyLeaf, SuperBytes, BackupsIn, ParsedNode, Walked, SceneOf, Audited;
    var b := RootBackup(0, 0, a, 0);
    ImageScene(base, b, EmptyLeaf(base, 1));
    NotPlaced(base, b, a);
    assert Translate([], a) == None;
    if x.BackupRootDivergence? {
      SlotPasses(base, b, x);
    }
  }

  /** Stored tree roots past the image's length that read: the audit reports them. */
  lemma ReadableRootFlagged(base: u64)
    requires GROUND + 2 * NODE <= base && base + SPAN < U64_LIMIT
    ensures var image := SlotImage(base, RootBackup(base, 0, 0, 0));
      SceneOf(image).Some? && SceneOf(image).value.Backups()[0].treeRoot == base && SceneOf(image).value.Read(base).Ok?
      && BackupRootDivergence(0, TreeRootPastEnd, 0, 0) in Audited(image)
  {
    hide SuperOf, Image, EmptyChunkLeaf, EmptyLeaf, SuperBytes, BackupsIn, ParsedNode, Walked, SceneOf, Audited;
    var b := RootBackup(base, 0, 0, 0);
    ImageScene(base, b, EmptyLeaf(base, 1));
    RootLeafParsed(base);
    SlotAudited(base, b, BackupRootDivergence(0, TreeRootPastEnd, 0, 0));
  }

  // ---- a live FS_TREE root that does not read ----

  /** The item of the root tree that names the FS_TREE root. */
  function RootItem(bytenr: u64): Item {
    Item(DiskKey(FS_TREE_OBJECTID, ROOT_ITEM_KEY, 0), Zeros(176) + LeBytes(bytenr, 8))
  }

  lemma RootItemFits()
    ensures Fits(NODE, [RootItem(1)])
  {
    hide LeBytes;
    var items := [RootItem(1)];
    assert items[..|items| - 1] == [] && items[..1] == items && items[1..] == [];
  }

  /** A root tree of one leaf at 4096, naming address 1. */
  function RootLeaf(): (bs: seq<byte>)
    ensures |bs| == NODE
  {
    RootItemFits();
    LeafBytes(NODE, 4096, 1, [RootItem(1)])
  }

  lemma RootItemNames(bytenr: u64)
    ensures LeU64(RootItem(bytenr).data, 176) == bytenr
  {
    hide LeBytes, LeValue, Field;
    Pow256Values();
    var data := RootItem(bytenr).data;
    assert data[0..184] == data && data[176..184] == LeBytes(bytenr, 8);
    ReadNumber(data, 0, data, 176, 8, bytenr);
  }

  lemma RootItemKey()
    ensures RootItem(1).key.objectid == FS_TREE_OBJECTID && RootItem(1).key.keyType == ROOT_ITEM_KEY
  {
  }

  /** The root tree names an FS_TREE root with no place: recovery stops at a read the source calls unreachable. */
  lemma LiveRootUnreadable(codecs: Extents.Codecs)
    ensures var image := Image(4096, NONE, RootLeaf(), EmptyChunkLeaf(4096));
      SceneOf(image).Some?
      && FsTreeRootAt(image, SceneOf(image).value.sb, SceneOf(image).value.entries).Ok?
      && CurrentLeaf(SceneOf(image).value).None? && RecoveredOver(codecs, image) == []
  {
    hide SuperOf, Image, EmptyChunkLeaf, SuperBytes, BackupsIn, ParsedNode, Walked, SceneOf, LeafBytes,
      RootItem, LeU64, Fits;
    RootItemFits();
    ImageScene(4096, NONE, RootLeaf());
    LeafRoundTrip(NODE, 4096, 1, [RootItem(1)]);
    RootItemNames(1);
    RootItemKey();
    NotPlaced(4096, NONE, 1);
    assert Translate([], 1) == None;
  }
}
