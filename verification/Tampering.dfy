/** What the auditor sees of a tree block rewritten after the fact (forensic/src/lib.rs). */
module Tampering {
  import opened Wrappers
  import opened Bytes
  import opened Crc
  import opened Nodes
  import opened Superblocks
  import opened ChunkMaps
  import opened ChunkWalk
  import opened Backups
  import opened Sweeps
  import opened SweepReach
  import opened Audits

  /** Where the node at `a` lies in the image. */
  function NodeStart(sc: Scene, a: u64): nat
    requires sc.Read(a).Ok?
  {
    Resolve(sc.sb, sc.entries, a).value
  }

  function BlockOf(sc: Scene, a: u64): (block: seq<byte>)
    requires sc.Read(a).Ok?
    ensures |block| == sc.sb.nodesize >= HEADER_SIZE
  {
    sc.image[NodeStart(sc, a)..NodeStart(sc, a) + sc.sb.nodesize]
  }

  /** The scene with `w` written `at` bytes into the node at `a`. */
  function Tampered(sc: Scene, a: u64, at: nat, w: seq<byte>): Scene
    requires sc.Read(a).Ok? && at + |w| <= sc.sb.nodesize
  {
    sc.(image := Splice(sc.image, NodeStart(sc, a) + at, w))
  }

  lemma ReadsBlock(sc: Scene, a: u64)
    requires sc.Read(a).Ok?
    ensures sc.Read(a) == ParsedNode(BlockOf(sc, a))
    ensures var node := sc.Read(a).value; var block := BlockOf(sc, a);
      node.header.fsid == block[0x20..0x30] && node.header.bytenr == LeU64(block, 0x30)
      && node.crcValid == Some(VerifyCrc32c(block, |block|)) && node.body == ParsedBody(block)
  {
    hide ParsedBody, VerifyCrc32c, LeU64, LeU32, Resolve, U8At;
    var block := BlockOf(sc, a);
    assert BytesAt(block, 0x20, 16) == block[0x20..0x30];
  }

  /** The node at `a` after the write is its own block with the write in it. */
  lemma TamperedBlock(sc: Scene, a: u64, at: nat, w: seq<byte>)
    requires sc.Read(a).Ok? && at + |w| <= sc.sb.nodesize
    ensures var tampered := Tampered(sc, a, at, w);
      tampered.Read(a).Ok? && BlockOf(tampered, a) == Splice(BlockOf(sc, a), at, w)
  {
    hide ParseHeader, ParsedBody, CrcStatus, Splice, Resolve;
    SpliceWithin(sc.image, NodeStart(sc, a), sc.sb.nodesize, at, w);
  }

  // ---- which rewrites are seen ----

  /** The write leaves the filesystem id and the block's own address alone. */
  ghost predicate KeepsSelfReference(block: seq<byte>, at: nat, w: seq<byte>)
    requires at + |w| <= |block|
  {
    forall k :: 0x20 <= k < 0x38 ==> !Changed(block, at, w, k)
  }

  /** It keeps the self-reference and changes a byte of the digest or of what is checked besides. */
  ghost predicate Visible(block: seq<byte>, at: nat, w: seq<byte>)
    requires at + |w| <= |block|
  {
    KeepsSelfReference(block, at, w) && exists k :: (k < 4 || 0x38 <= k) && Changed(block, at, w, k)
  }

  lemma StaysGenuine(sc: Scene, a: u64, at: nat, w: seq<byte>)
    requires Genuine(sc, a).Some? && at + |w| <= sc.sb.nodesize
    ensures Genuine(Tampered(sc, a, at, w), a).Some? <==> KeepsSelfReference(BlockOf(sc, a), at, w)
  {
    hide Splice, Resolve, Changed, ReadNode, LeValue, Field, ParsedBody, VerifyCrc32c, ParsedNode;
    var block, changed := BlockOf(sc, a), Splice(BlockOf(sc, a), at, w);
    TamperedBlock(sc, a, at, w);
    ReadsBlock(sc, a);
    ReadsBlock(Tampered(sc, a, at, w), a);
    SliceChanged(block, at, w, 0x20, 0x30);
    SliceChanged(block, at, w, 0x30, 0x38);
    SameNumber(block, changed, 0x30, 8);
  }

  lemma ChangedInside(block: seq<byte>, at: nat, w: seq<byte>)
    requires at + |w| <= |block|
    ensures forall k: nat :: Changed(block, at, w, k) ==> k < |block|
  {
  }

  lemma CorruptIfVisible(sc: Scene, a: u64, at: nat, w: seq<byte>)
    requires Genuine(sc, a).Some? && Genuine(sc, a).value.crcValid == Some(true)
    requires at + |w| <= sc.sb.nodesize && |w| <= 4
    ensures Corrupt(Tampered(sc, a, at, w), a) <==> Visible(BlockOf(sc, a), at, w)
  {
    hide Splice, Resolve, Changed, ReadNode, ParsedBody, VerifyCrc32c, ParsedNode, LeU64;
    var block := BlockOf(sc, a);
    TamperedBlock(sc, a, at, w);
    ReadsBlock(sc, a);
    ReadsBlock(Tampered(sc, a, at, w), a);
    StaysGenuine(sc, a, at, w);
    BurstTamper(block, |block|, at, w);
    ChangedInside(block, at, w);
  }

  /**
    Rewriting up to four consecutive bytes of a verified node that is still swept
    is reported exactly when it leaves the node's self-reference alone and changes
    a byte of the stored digest or of the block from 0x38 on.
  */
  lemma TamperIsReported(sc: Scene, a: u64, at: nat, w: seq<byte>)
    requires Genuine(sc, a).Some? && Genuine(sc, a).value.crcValid == Some(true)
    requires at + |w| <= sc.sb.nodesize && |w| <= 4
    requires Reachable(Tampered(sc, a, at, w), a) && WithinBudget(Tampered(sc, a, at, w))
    ensures NodeCrcMismatch(a, OffsetOf(sc, a)) in Swept(Tampered(sc, a, at, w)) <==> Visible(BlockOf(sc, a), at, w)
  {
    hide Reachable, WithinBudget, Swept, Corrupt, Visible, ReadNode, Splice, Translate;
    CorruptIfVisible(sc, a, at, w);
    SweepComplete(Tampered(sc, a, at, w), a);
  }

  lemma OneByteChanged(block: seq<byte>, i: nat, v: byte)
    requires i < |block| && v != block[i]
    ensures forall k: nat :: Changed(block, i, [v], k) <==> k == i
  {
  }

  /** One byte rewritten is reported exactly below 4 or from 0x38 on. */
  lemma ByteTamperIsReported(sc: Scene, a: u64, i: nat, v: byte)
    requires Genuine(sc, a).Some? && Genuine(sc, a).value.crcValid == Some(true)
    requires i < sc.sb.nodesize && v != BlockOf(sc, a)[i]
    requires Reachable(Tampered(sc, a, i, [v]), a) && WithinBudget(Tampered(sc, a, i, [v]))
    ensures NodeCrcMismatch(a, OffsetOf(sc, a)) in Swept(Tampered(sc, a, i, [v])) <==> i < 4 || i >= 0x38
  {
    hide Reachable, WithinBudget, Swept, ReadNode, Splice, Changed, BlockOf, OffsetOf;
    OneByteChanged(BlockOf(sc, a), i, v);
    assert Changed(BlockOf(sc, a), i, [v], i);
    TamperIsReported(sc, a, i, [v]);
  }

  /** A verified node whose own address has its first byte rewritten is never reported, whatever the budget. */
  lemma BytenrEscapes(sc: Scene, a: u64, v: byte)
    requires Genuine(sc, a).Some? && v != BlockOf(sc, a)[0x30]
    ensures var r := Swept(Tampered(sc, a, 0x30, [v]));
      AllMismatches(r) && forall i :: 0 <= i < |r| ==> r[i].bytenr != a
  {
    hide Swept, ReadNode, Splice, Changed, BlockOf, OffsetOf, Reachable;
    var tampered := Tampered(sc, a, 0x30, [v]);
    OneByteChanged(BlockOf(sc, a), 0x30, v);
    StaysGenuine(sc, a, 0x30, [v]);
    assert Changed(BlockOf(sc, a), 0x30, [v], 0x30);
    SweepSound(tampered);
    forall i | 0 <= i < |Swept(tampered)|
      ensures Swept(tampered)[i].bytenr != a
    {
      assert Reports(tampered, Swept(tampered)[i], Swept(tampered)[i].bytenr);
    }
  }

  // ---- what the write does not touch ----

  /** The byte ranges do not meet. */
  predicate Apart(p: nat, n: nat, lo: nat, len: nat) {
    lo + len <= p || p + n <= lo
  }

  /** The write misses the block of the node at `x`, if that reads at all. */
  predicate Misses(sc: Scene, x: u64, lo: nat, len: nat) {
    sc.Read(x).Ok? ==> Apart(NodeStart(sc, x), sc.sb.nodesize, lo, len)
  }

  predicate MissesSuperblock(lo: nat, len: nat) {
    Apart(SUPER_INFO_OFFSET, SUPER_INFO_SIZE, lo, len)
  }

  ghost predicate MissesOthers(sc: Scene, a: u64, lo: nat, len: nat) {
    forall x: u64 :: Reachable(sc, x) && x != a ==> Misses(sc, x, lo, len)
  }

  lemma ReadUntouched(sc: Scene, x: u64, lo: nat, w: seq<byte>)
    requires lo + |w| <= |sc.image| && Misses(sc, x, lo, |w|)
    ensures sc.(image := Splice(sc.image, lo, w)).Read(x) == sc.Read(x)
  {
    hide Resolve, Splice, ParseHeader, ParsedBody, CrcStatus;
    var at := Resolve(sc.sb, sc.entries, x);
    if at.Some? && at.value + sc.sb.nodesize <= |sc.image| && sc.sb.nodesize >= HEADER_SIZE {
      SpliceOutside(sc.image, lo, w, at.value, at.value + sc.sb.nodesize);
    }
  }

  lemma SuperblockUntouched(image: seq<byte>, lo: nat, w: seq<byte>)
    requires lo + |w| <= |image| && MissesSuperblock(lo, |w|)
    ensures SuperblockBlock(Splice(image, lo, w)) == SuperblockBlock(image)
  {
    hide Splice;
    if SUPER_INFO_OFFSET + SUPER_INFO_SIZE <= |image| {
      SpliceOutside(image, lo, w, SUPER_INFO_OFFSET, SUPER_INFO_OFFSET + SUPER_INFO_SIZE);
    }
  }

  lemma SameSeeds(sc: Scene, lo: nat, w: seq<byte>)
    requires lo + |w| <= |sc.image| && MissesSuperblock(lo, |w|)
    ensures Seeds(sc.(image := Splice(sc.image, lo, w))) == Seeds(sc)
  {
    hide Splice, SuperblockBlock, BackupsIn, NonZero;
    SuperblockUntouched(sc.image, lo, w);
  }

  // ---- reachability carries over ----

  /** A path up to the first time it meets `a`. */
  lemma {:induction false} FirstMeeting(sc: Scene, p: seq<u64>, a: u64) returns (q: seq<u64>)
    requires Path(sc, p) && a in p
    ensures Path(sc, q) && q[|q| - 1] == a && a !in q[..|q| - 1]
    decreases |p|
  {
    hide Seeds, Children;
    var front := p[..|p| - 1];
    if a in front {
      assert front != [] && Path(sc, front) by {
        forall i | 0 <= i < |front| - 1
          ensures front[i + 1] in Children(sc, front[i])
        {
          assert p[i + 1] in Children(sc, p[i]);
        }
      }
      q := FirstMeeting(sc, front, a);
    } else {
      q := p;
    }
  }

  lemma {:induction false} AlongPath(sc: Scene, p: seq<u64>, i: nat)
    requires Path(sc, p) && i < |p|
    ensures Reachable(sc, p[i])
    decreases i
  {
    hide Seeds, Children, Reachable;
    if i == 0 {
      SeedReachable(sc, p[0]);
    } else {
      AlongPath(sc, p, i - 1);
      assert p[i - 1 + 1] in Children(sc, p[i - 1]);
      ChildReachable(sc, p[i - 1], p[i]);
    }
  }

  lemma SameChildren(sc: Scene, x: u64, lo: nat, w: seq<byte>)
    requires lo + |w| <= |sc.image| && Misses(sc, x, lo, |w|)
    ensures Children(sc.(image := Splice(sc.image, lo, w)), x) == Children(sc, x)
  {
    hide Splice, ReadNode, Misses, NonZero;
    ReadUntouched(sc, x, lo, w);
  }

  /** A node stays reachable when the write is inside it and misses every other reachable node. */
  lemma StaysReachable(sc: Scene, a: u64, lo: nat, w: seq<byte>)
    requires lo + |w| <= |sc.image| && MissesSuperblock(lo, |w|) && MissesOthers(sc, a, lo, |w|)
    requires Reachable(sc, a)
    ensures Reachable(sc.(image := Splice(sc.image, lo, w)), a)
  {
    hide Seeds, Children, Splice, Misses, MissesSuperblock, ReadNode;
    var after := sc.(image := Splice(sc.image, lo, w));
    var p :| Path(sc, p) && p[|p| - 1] == a;
    var q := FirstMeeting(sc, p, a);
    SameSeeds(sc, lo, w);
    forall i | 0 <= i < |q| - 1
      ensures q[i + 1] in Children(after, q[i])
    {
      AlongPath(sc, q, i);
      assert q[i] in q[..|q| - 1];
      SameChildren(sc, q[i], lo, w);
      assert q[i + 1] in Children(sc, q[i]);
    }
    assert Path(after, q);
  }

  /** Every reachable node points where it pointed. */
  ghost predicate SamePointers(sc: Scene, after: Scene) {
    Seeds(after) == Seeds(sc) && forall x: u64 :: Reachable(sc, x) ==> Children(after, x) == Children(sc, x)
  }

  lemma PathFront(sc: Scene, p: seq<u64>)
    requires |p| > 1
    ensures Path(sc, p) <==> Path(sc, p[..|p| - 1]) && p[|p| - 1] in Children(sc, p[|p| - 2])
  {
    hide Seeds, Children;
    var front := p[..|p| - 1];
    if Path(sc, p) {
      forall i | 0 <= i < |front| - 1
        ensures front[i + 1] in Children(sc, front[i])
      {
        assert p[i + 1] in Children(sc, p[i]);
      }
      assert p[|p| - 2 + 1] in Children(sc, p[|p| - 2]);
    }
    if Path(sc, front) && p[|p| - 1] in Children(sc, p[|p| - 2]) {
      forall i | 0 <= i < |p| - 1
        ensures p[i + 1] in Children(sc, p[i])
      {
        if i < |front| - 1 {
          assert front[i + 1] in Children(sc, front[i]);
        }
      }
    }
  }

  lemma {:induction false} SamePaths(sc: Scene, after: Scene, p: seq<u64>)
    requires SamePointers(sc, after)
    ensures Path(after, p) <==> Path(sc, p)
    decreases |p|
  {
    hide Seeds, Children, Reachable;
    if |p| > 1 {
      var front := p[..|p| - 1];
      SamePaths(sc, after, front);
      PathFront(sc, p);
      PathFront(after, p);
      if Path(sc, front) {
        AlongPath(sc, front, |front| - 1);
      }
    }
  }

  lemma SameReach(sc: Scene, after: Scene)
    requires SamePointers(sc, after)
    ensures ReachSet(after) == ReachSet(sc)
  {
    hide Seeds, Children;
    forall a: u64
      ensures Reachable(after, a) <==> Reachable(sc, a)
    {
      if Reachable(sc, a) {
        var p :| Path(sc, p) && p[|p| - 1] == a;
        SamePaths(sc, after, p);
      }
      if Reachable(after, a) {
        var p :| Path(after, p) && p[|p| - 1] == a;
        SamePaths(sc, after, p);
      }
    }
  }

  lemma {:induction false} SameCount(sc: Scene, after: Scene, s: set<u64>)
    requires forall x :: x in s ==> Children(after, x) == Children(sc, x)
    ensures PointersFrom(after, s) == PointersFrom(sc, s)
    decreases |s|
  {
    hide Children;
    if s != {} {
      var x :| x in s;
      SameCount(sc, after, s - {x});
      PointersWithout(sc, s, x);
      PointersWithout(after, s, x);
    }
  }

  lemma SameBudget(sc: Scene, after: Scene)
    requires SamePointers(sc, after)
    ensures WithinBudget(after) <==> WithinBudget(sc)
  {
    hide Seeds, Children, Reachable, PointersFrom;
    SameReach(sc, after);
    SameCount(sc, after, ReachSet(sc));
  }

  lemma LevelKept(block: seq<byte>, at: nat, w: seq<byte>)
    requires at + |w| <= |block| && |block| >= HEADER_SIZE && !Changed(block, at, w, 0x64)
    ensures U8At(Splice(block, at, w), 0x64) == U8At(block, 0x64)
  {
  }

  /** A leaf whose level byte is kept still points nowhere. */
  lemma LeafKeepsPointers(sc: Scene, a: u64, at: nat, w: seq<byte>)
    requires sc.Read(a).Ok? && sc.Read(a).value.IsLeaf() && at + |w| <= sc.sb.nodesize
    requires !Changed(BlockOf(sc, a), at, w, 0x64)
    ensures Children(sc, a) == [] && Children(Tampered(sc, a, at, w), a) == []
  {
    hide Splice, Resolve, ReadNode, VerifyCrc32c, ParsedNode, LeU64, LeU32, ItemHeaders, KeyPtrs;
    TamperedBlock(sc, a, at, w);
    ReadsBlock(sc, a);
    ReadsBlock(Tampered(sc, a, at, w), a);
    LevelKept(BlockOf(sc, a), at, w);
  }

  lemma InsideImage(sc: Scene, a: u64)
    requires sc.Read(a).Ok?
    ensures NodeStart(sc, a) + sc.sb.nodesize <= |sc.image|
  {
    hide Resolve, ParsedNode;
  }

  /** Rewriting a leaf alone changes neither what the sweep reaches nor how much it costs. */
  lemma LeafKeepsBudget(sc: Scene, a: u64, at: nat, w: seq<byte>)
    requires sc.Read(a).Ok? && sc.Read(a).value.IsLeaf() && at + |w| <= sc.sb.nodesize
    requires !Changed(BlockOf(sc, a), at, w, 0x64)
    requires MissesSuperblock(NodeStart(sc, a) + at, |w|) && MissesOthers(sc, a, NodeStart(sc, a) + at, |w|)
    ensures WithinBudget(Tampered(sc, a, at, w)) <==> WithinBudget(sc)
  {
    hide Seeds, Children, Reachable, Splice, ReadNode, WithinBudget, Misses, MissesSuperblock, Changed, BlockOf;
    var lo := NodeStart(sc, a) + at;
    var after := Tampered(sc, a, at, w);
    InsideImage(sc, a);
    SameSeeds(sc, lo, w);
    LeafKeepsPointers(sc, a, at, w);
    forall x: u64 | Reachable(sc, x)
      ensures Children(after, x) == Children(sc, x)
    {
      if x != a {
        SameChildren(sc, x, lo, w);
      }
    }
    SameBudget(sc, after);
  }

  // ---- the map carries over ----

  /** What the walk does after reading `block`: the map, the stack and the budget it goes on with. */
  function After(entries: seq<MapEntry>, rest: seq<u64>, r: Result<Node>): (seq<MapEntry>, seq<u64>) {
    match r
    case Err(_) => (entries, rest)
    case Ok(node) =>
      if node.IsLeaf() then (entries + NodeEntries(node), rest) else (entries, rest + Blockptrs(node.Pointers()))
  }

  function BlockAt(g: Ground, phys: nat): seq<byte>
    requires phys + g.nodesize <= |g.image|
  {
    g.image[phys..phys + g.nodesize]
  }

  /** Where the walk reads blocks. */
  function WalkReads(g: Ground, entries: seq<MapEntry>, stack: seq<u64>, rooted: bool, budget: nat): seq<nat>
    decreases budget
  {
    if stack == [] || budget == 0 then []
    else
      var at, rest := Locate(g, entries, stack[|stack| - 1]), stack[..|stack| - 1];
      if at.None? then
        if rooted then WalkReads(g, entries, rest, rooted, budget - 1) else []
      else if at.value + g.nodesize > |g.image| then
        if entries == [] then [] else WalkReads(g, entries, rest, true, budget - 1)
      else
        var next := After(entries, rest, ParsedNode(BlockAt(g, at.value)));
        [at.value] + WalkReads(g, next.0, next.1, true, budget - 1)
  }

  ghost predicate MissesWalk(image: seq<byte>, sb: Superblock, lo: nat, len: nat) {
    forall p :: p in WalkReads(GroundOf(image, sb), [], [sb.chunkRoot], false, WALK_BUDGET) ==> Apart(p, sb.nodesize, lo, len)
  }

  lemma {:induction false} WalkUntouched(g: Ground, lo: nat, w: seq<byte>, entries: seq<MapEntry>, stack: seq<u64>,
      rooted: bool, budget: nat)
    requires lo + |w| <= |g.image|
    requires forall p :: p in WalkReads(g, entries, stack, rooted, budget) ==> Apart(p, g.nodesize, lo, |w|)
    ensures WalkFrom(g.(image := Splice(g.image, lo, w)), entries, stack, rooted, budget)
      == WalkFrom(g, entries, stack, rooted, budget)
    decreases budget
  {
    hide ParsedNode, NodeEntries, Translate, Splice;
    var after := g.(image := Splice(g.image, lo, w));
    if stack != [] && budget > 0 {
      var at, rest := Locate(g, entries, stack[|stack| - 1]), stack[..|stack| - 1];
      assert Locate(after, entries, stack[|stack| - 1]) == at;
      if at.None? {
        if rooted {
          WalkUntouched(g, lo, w, entries, rest, rooted, budget - 1);
        }
      } else if at.value + g.nodesize > |g.image| {
        if entries != [] {
          WalkUntouched(g, lo, w, entries, rest, true, budget - 1);
        }
      } else {
        assert at.value in WalkReads(g, entries, stack, rooted, budget);
        SpliceOutside(g.image, lo, w, at.value, at.value + g.nodesize);
        var next := After(entries, rest, ParsedNode(BlockAt(g, at.value)));
        WalkUntouched(g, lo, w, next.0, next.1, true, budget - 1);
      }
    }
  }

  /** The changed image is audited with the same superblock and the same map. */
  lemma SceneCarries(image: seq<byte>, lo: nat, w: seq<byte>)
    requires SceneOf(image).Some? && lo + |w| <= |image| && MissesSuperblock(lo, |w|)
    requires MissesWalk(image, SceneOf(image).value.sb, lo, |w|)
    ensures SceneOf(Splice(image, lo, w)) == Some(SceneOf(image).value.(image := Splice(image, lo, w)))
  {
    hide ParsedSuperblock, WalkFrom, WalkReads, Splice, SuperblockBlock, MissesSuperblock;
    var sb := SceneOf(image).value.sb;
    SuperblockUntouched(image, lo, w);
    WalkUntouched(GroundOf(image, sb), lo, w, [], [sb.chunkRoot], false, WALK_BUDGET);
    assert GroundOf(Splice(image, lo, w), sb) == GroundOf(image, sb).(image := Splice(image, lo, w));
  }

  lemma SceneImage(image: seq<byte>)
    requires SceneOf(image).Some?
    ensures SceneOf(image).value.image == image
  {
    hide ParsedSuperblock, WalkedOrEmpty;
  }

  /** Rewritten bytes that the audit reads as part of the node at `a` and of nothing else. */
  ghost predicate InsideNodeOnly(image: seq<byte>, sc: Scene, a: u64, at: nat, w: seq<byte>)
    requires sc.Read(a).Ok?
  {
    var lo := NodeStart(sc, a) + at;
    at + |w| <= sc.sb.nodesize
    && MissesSuperblock(lo, |w|) && MissesOthers(sc, a, lo, |w|) && MissesWalk(image, sc.sb, lo, |w|)
  }

  /**
    End to end: a reachable, verified node of an image, leaf or interior, is
    rewritten in up to four bytes, inside it and away from everything else the
    audit reads.  If the sweep of the changed image stays within its budget, the
    next audit reports the node exactly when the rewrite is visible.
  */
  lemma TamperAudited(image: seq<byte>, a: u64, at: nat, w: seq<byte>)
    requires SceneOf(image).Some? && |w| <= 4
    requires var sc := SceneOf(image).value;
      Reachable(sc, a) && Genuine(sc, a).Some? && Genuine(sc, a).value.crcValid == Some(true)
      && InsideNodeOnly(image, sc, a, at, w) && WithinBudget(Tampered(sc, a, at, w))
    ensures var sc := SceneOf(image).value;
      NodeCrcMismatch(a, OffsetOf(sc, a)) in Audited(Splice(image, NodeStart(sc, a) + at, w))
      <==> Visible(BlockOf(sc, a), at, w)
  {
    hide SceneOf, Reachable, WithinBudget, Visible, Changed, BlockOf, MissesSuperblock, MissesOthers, MissesWalk, Corrupt,
      Splice, Translate, ReadNode, Audited, Resolve;
    var sc := SceneOf(image).value;
    SceneImage(image);
    var lo := NodeStart(sc, a) + at;
    InsideImage(sc, a);
    SceneCarries(image, lo, w);
    StaysReachable(sc, a, lo, w);
    CorruptIfVisible(sc, a, at, w);
    AuditExact(Splice(image, lo, w), NodeCrcMismatch(a, OffsetOf(sc, a)));
  }

  /** For a leaf whose level byte is kept it is enough that the image itself is swept within the budget. */
  lemma LeafTamperAudited(image: seq<byte>, a: u64, at: nat, w: seq<byte>)
    requires SceneOf(image).Some? && WithinBudget(SceneOf(image).value) && |w| <= 4
    requires var sc := SceneOf(image).value;
      Reachable(sc, a) && Genuine(sc, a).Some? && Genuine(sc, a).value.IsLeaf()
      && Genuine(sc, a).value.crcValid == Some(true)
      && InsideNodeOnly(image, sc, a, at, w) && !Changed(BlockOf(sc, a), at, w, 0x64)
    ensures var sc := SceneOf(image).value;
      NodeCrcMismatch(a, OffsetOf(sc, a)) in Audited(Splice(image, NodeStart(sc, a) + at, w))
      <==> Visible(BlockOf(sc, a), at, w)
  {
    hide SceneOf, Reachable, WithinBudget, Visible, Changed, BlockOf, MissesSuperblock, MissesOthers, MissesWalk,
      Splice, ReadNode, Audited, Resolve;
    LeafKeepsBudget(SceneOf(image).value, a, at, w);
    TamperAudited(image, a, at, w);
  }
}
