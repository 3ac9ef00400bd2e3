/** The whole-image audit (forensic/src/lib.rs) and what its report means. */
module Audits {
  import opened Wrappers
  import opened Bytes
  import opened Crc
  import opened Superblocks
  import opened ChunkMaps
  import opened ChunkWalk
  import opened Backups
  import opened Sweeps
  import opened SweepReach
  import opened Orphans

  function SuperblockMismatch(sb: Superblock): seq<Anomaly> {
    if sb.crcValid == Some(false) then [SuperblockCrcMismatch(SUPER_INFO_OFFSET)] else []
  }

  /** The superblock and the map an image is audited with. */
  function SceneOf(image: seq<byte>): Option<Scene> {
    match SuperblockBlock(image)
    case None => None
    case Some(block) =>
      match ParsedSuperblock(block)
      case Err(_) => None
      case Ok(sb) => Some(Scene(image, sb, WalkedOrEmpty(image, sb)))
  }

  /** Every check's reports, in the order the checks run. */
  function ReportsOf(sc: Scene, block: seq<byte>): seq<Anomaly> {
    SuperblockMismatch(sc.sb)
    + Geometry(sc, RootTree, sc.sb.root) + Geometry(sc, ChunkTree, sc.sb.chunkRoot)
    + Swept(sc) + AllDivergences(block, sc.sb.generation, |sc.image|) + OrphanReports(OrphanList(sc))
  }

  function Audited(image: seq<byte>): seq<Anomaly> {
    match SceneOf(image)
    case None => []
    case Some(sc) => ReportsOf(sc, SuperblockBlock(image).value)
  }

  method WalkOrDefault(image: seq<byte>, sb: Superblock) returns (entries: seq<MapEntry>)
    ensures entries == WalkedOrEmpty(image, sb)
  {
    var walked := Walk(image, sb);
    match walked {
      case Built(map_) => entries := map_.entries;
      case Failed(_) => entries := [];
    }
  }

  method AuditImage(image: seq<byte>) returns (r: seq<Anomaly>)
    ensures r == Audited(image)
  {
    hide ParsedSuperblock, WalkedOrEmpty, Geometry, Swept, AllDivergences, OrphanList, OrphanReports;
    var out := new Report();
    var block := SuperblockBlock(image);
    if block.None? {
      return out.anomalies;
    }
    var parsed := ParsedSuperblock(block.value);
    if parsed.Err? {
      return out.anomalies;
    }
    var sb := parsed.value;
    if sb.crcValid == Some(false) {
      out.Push(SuperblockCrcMismatch(SUPER_INFO_OFFSET));
    }
    var entries := WalkOrDefault(image, sb);
    var sc := Scene(image, sb, entries);
    CheckRootReachable(out, sc, RootTree, sb.root);
    CheckRootReachable(out, sc, ChunkTree, sb.chunkRoot);
    SweepNodeCrcs(out, sc);
    CheckBackupRoots(out, block.value, sb.generation, |image|);
    ScanOrphans(out, sc);
    return out.anomalies;
  }

  // ---- what a report means ----

  function RootOf(sb: Superblock, field: RootField): u64 {
    match field
    case RootTree => sb.root
    case ChunkTree => sb.chunkRoot
  }

  ghost predicate OrphanSomewhere(sc: Scene, inode: u64) {
    exists a: u64 :: ScannedRoot(sc, a) && HasOrphan(sc, a, inode)
  }

  /** The fact about the image that an anomaly states. */
  ghost predicate Holds(sc: Scene, bs: seq<RootBackup>, x: Anomaly) {
    match x
    case SuperblockCrcMismatch(offset) => offset == SUPER_INFO_OFFSET && sc.sb.crcValid == Some(false)
    case NodeCrcMismatch(a, offset) => offset == OffsetOf(sc, a) && Reachable(sc, a) && Corrupt(sc, a)
    case BackupRootDivergence(_, _, _, _) => Justified(bs, |bs|, sc.sb.generation, |sc.image|, x)
    case OrphanedInode(inode) => OrphanSomewhere(sc, inode)
    case ImpossibleGeometry(field, value, limit) =>
      value == RootOf(sc.sb, field) && value != 0 && limit == |sc.image| && sc.Read(value).Err?
  }

  lemma DivergenceListed(bs: seq<RootBackup>, currentGen: u64, imageLen: nat, x: Anomaly)
    ensures x in Divergences(bs, |bs|, currentGen, imageLen)
      <==> x.BackupRootDivergence? && Justified(bs, |bs|, currentGen, imageLen, x)
  {
    hide Divergences;
    DivergencesJustified(bs, |bs|, currentGen, imageLen);
    if Justified(bs, |bs|, currentGen, imageLen, x) {
      var i := DivergencesComplete(bs, |bs|, currentGen, imageLen, x.slot);
      var y := Divergences(bs, |bs|, currentGen, imageLen)[i];
      assert Justified(bs, |bs|, currentGen, imageLen, y);
      assert x == y;
    }
  }

  lemma OrphanReported(sc: Scene, x: Anomaly)
    ensures x in OrphanReports(OrphanList(sc)) <==> x.OrphanedInode? && OrphanSomewhere(sc, x.inode)
  {
    hide OrphanReports, OrphanList, ScannedRoot, HasOrphan;
    if x.OrphanedInode? {
      OrphanScanExact(sc, x.inode);
      if x.inode in OrphanList(sc) {
        var i :| 0 <= i < |OrphanList(sc)| && OrphanList(sc)[i] == x.inode;
        assert OrphanReports(OrphanList(sc))[i] == x;
      }
    }
  }

  lemma MismatchListed(sc: Scene, x: Anomaly)
    requires WithinBudget(sc)
    ensures x in Swept(sc)
      <==> x.NodeCrcMismatch? && x.offset == OffsetOf(sc, x.bytenr) && Reachable(sc, x.bytenr) && Corrupt(sc, x.bytenr)
  {
    hide Swept, WithinBudget, OffsetOf, Reachable, Corrupt;
    SweepSound(sc);
    if x.NodeCrcMismatch? {
      SweepComplete(sc, x.bytenr);
    }
  }

  lemma GeometryListed(sc: Scene, x: Anomaly)
    ensures x in Geometry(sc, RootTree, sc.sb.root) + Geometry(sc, ChunkTree, sc.sb.chunkRoot)
      <==> x.ImpossibleGeometry? && Holds(sc, sc.Backups(), x)
  {
    hide ReadNode, OffsetOf, Corrupt, Reachable, OrphanSomewhere, Justified, BackupsIn;
  }

  /** Whatever the budget, an anomaly reported is a fact about the image. */
  lemma AuditSound(image: seq<byte>, x: Anomaly)
    ensures x in Audited(image)
      ==> SceneOf(image).Some? && Holds(SceneOf(image).value, SceneOf(image).value.Backups(), x)
  {
    hide ParsedSuperblock, WalkedOrEmpty, Geometry, Swept, Divergences, OrphanList, OrphanReports, ReadNode, OffsetOf,
      Corrupt, Reachable, OrphanSomewhere, Justified, BackupsIn;
    if SceneOf(image).Some? {
      var sc := SceneOf(image).value;
      GeometryListed(sc, x);
      SweepSound(sc);
      DivergenceListed(sc.Backups(), sc.sb.generation, |sc.image|, x);
      OrphanReported(sc, x);
    }
  }

  /** Within the sweep's budget an anomaly is reported exactly when the fact it states holds of the image. */
  lemma AuditExact(image: seq<byte>, x: Anomaly)
    requires SceneOf(image).Some? && WithinBudget(SceneOf(image).value)
    ensures x in Audited(image) <==> Holds(SceneOf(image).value, SceneOf(image).value.Backups(), x)
  {
    hide ParsedSuperblock, WalkedOrEmpty, Geometry, Swept, Divergences, OrphanList, OrphanReports, ReadNode, OffsetOf,
      Corrupt, Reachable, OrphanSomewhere, Justified, BackupsIn, WithinBudget;
    var sc := SceneOf(image).value;
    GeometryListed(sc, x);
    MismatchListed(sc, x);
    DivergenceListed(sc.Backups(), sc.sb.generation, |sc.image|, x);
    OrphanReported(sc, x);
  }

  predicate RootReadable(sc: Scene, logical: u64) {
    logical == 0 || sc.Read(logical).Ok?
  }

  ghost predicate NoScannedOrphan(sc: Scene) {
    forall a: u64, inode: u64 :: ScannedRoot(sc, a) ==> !HasOrphan(sc, a, inode)
  }

  ghost predicate NoCorruptNode(sc: Scene) {
    forall a: u64 :: Reachable(sc, a) ==> !Corrupt(sc, a)
  }

  predicate BackupsConsistent(sc: Scene) {
    forall i :: 0 <= i < |sc.Backups()| ==> Consistent(sc.Backups()[i], sc.sb.generation, |sc.image|)
  }

  /** What a clean image is. */
  ghost predicate Clean(sc: Scene) {
    sc.sb.crcValid != Some(false)
    && RootReadable(sc, sc.sb.root) && RootReadable(sc, sc.sb.chunkRoot)
    && NoCorruptNode(sc) && BackupsConsistent(sc) && NoScannedOrphan(sc)
  }

  lemma SweptEmpty(sc: Scene)
    requires WithinBudget(sc)
    ensures Swept(sc) == [] <==> NoCorruptNode(sc)
  {
    hide Swept, WithinBudget, OffsetOf, Reachable, Corrupt;
    SweepSound(sc);
    if Swept(sc) != [] {
      var x := Swept(sc)[0];
      assert Reports(sc, x, x.bytenr) && Reachable(sc, x.bytenr);
    }
    if !NoCorruptNode(sc) {
      var a: u64 :| Reachable(sc, a) && Corrupt(sc, a);
      SweepComplete(sc, a);
    }
  }

  lemma DivergencesEmpty(bs: seq<RootBackup>, currentGen: u64, imageLen: nat)
    ensures Divergences(bs, |bs|, currentGen, imageLen) == []
      <==> forall i :: 0 <= i < |bs| ==> Consistent(bs[i], currentGen, imageLen)
  {
    hide Divergences, Consistent, Explains;
    var r := Divergences(bs, |bs|, currentGen, imageLen);
    DivergencesJustified(bs, |bs|, currentGen, imageLen);
    if r != [] {
      assert Justified(bs, |bs|, currentGen, imageLen, r[0]);
    }
    if i :| 0 <= i < |bs| && !Consistent(bs[i], currentGen, imageLen) {
      var k := DivergencesComplete(bs, |bs|, currentGen, imageLen, i);
    }
  }

  lemma OrphansEmpty(sc: Scene)
    ensures OrphanReports(OrphanList(sc)) == [] <==> NoScannedOrphan(sc)
  {
    hide OrphanList, OrphanReports, ScannedRoot, HasOrphan;
    var list := OrphanList(sc);
    if list != [] {
      OrphanScanExact(sc, list[0]);
    }
    if a: u64, inode: u64 :| ScannedRoot(sc, a) && HasOrphan(sc, a, inode) {
      OrphanScanExact(sc, inode);
    }
  }

  /** Within the sweep's budget the audit of a btrfs image is empty exactly when the image is clean. */
  lemma CleanImage(image: seq<byte>)
    requires SceneOf(image).Some? && WithinBudget(SceneOf(image).value)
    ensures Audited(image) == [] <==> Clean(SceneOf(image).value)
  {
    hide ParsedSuperblock, WalkedOrEmpty, Swept, Divergences, OrphanList, OrphanReports, ReadNode,
      BackupsIn, WithinBudget, NoCorruptNode, NoScannedOrphan, Consistent;
    var sc := SceneOf(image).value;
    SweptEmpty(sc);
    DivergencesEmpty(sc.Backups(), sc.sb.generation, |sc.image|);
    OrphansEmpty(sc);
  }

  lemma SuperblockSpliced(image: seq<byte>, at: nat, w: seq<byte>)
    requires SuperblockBlock(image).Some? && at + |w| <= SUPER_INFO_SIZE
    ensures SuperblockBlock(Splice(image, SUPER_INFO_OFFSET + at, w))
      == Some(Splice(SuperblockBlock(image).value, at, w))
  {
    SpliceWithin(image, SUPER_INFO_OFFSET, SUPER_INFO_SIZE, at, w);
  }

  lemma MismatchInAudit(image: seq<byte>)
    ensures SuperblockCrcMismatch(SUPER_INFO_OFFSET) in Audited(image)
      <==> SceneOf(image).Some? && SceneOf(image).value.sb.crcValid == Some(false)
  {
    hide ParsedSuperblock, WalkedOrEmpty, Geometry, Swept, AllDivergences, OrphanList, OrphanReports, Reachable, Corrupt,
      OffsetOf, OrphanSomewhere, Justified, BackupsIn, ReadNode;
    AuditSound(image, SuperblockCrcMismatch(SUPER_INFO_OFFSET));
  }

  /** Whatever the sweep costs, the backup anomalies reported are exactly those the stored slots justify. */
  lemma DivergenceInAudit(image: seq<byte>, x: Anomaly)
    requires SceneOf(image).Some? && x.BackupRootDivergence?
    ensures var sc := SceneOf(image).value;
      x in Audited(image) <==> Justified(sc.Backups(), |sc.Backups()|, sc.sb.generation, |image|, x)
  {
    hide ParsedSuperblock, WalkedOrEmpty, Geometry, Swept, Divergences, OrphanList, OrphanReports, Reachable, Corrupt,
      OffsetOf, OrphanSomewhere, Justified, BackupsIn, ReadNode;
    AuditSound(image, x);
    DivergenceListed(SceneOf(image).value.Backups(), SceneOf(image).value.sb.generation, |image|, x);
  }

  lemma SceneStatus(image: seq<byte>)
    requires SuperblockBlock(image).Some?
    ensures SceneOf(image).Some? <==> ParsedSuperblock(SuperblockBlock(image).value).Ok?
    ensures SceneOf(image).Some? ==> SceneOf(image).value.sb == ParsedSuperblock(SuperblockBlock(image).value).value
  {
    hide ParsedSuperblock, WalkedOrEmpty;
  }

  lemma HasBlock(image: seq<byte>)
    requires SceneOf(image).Some?
    ensures SuperblockBlock(image).Some?
  {
    hide ParsedSuperblock, WalkedOrEmpty;
  }

  /**
    Any rewrite of up to four consecutive bytes of a verified superblock is reported
    exactly when it leaves the magic and checksum type zero in place and betrays
    itself over the range it leaves covered.
  */
  lemma SuperblockTamperReported(image: seq<byte>, at: nat, w: seq<byte>)
    requires SceneOf(image).Some? && SceneOf(image).value.sb.crcValid == Some(true)
    requires at + |w| <= SUPER_INFO_SIZE && |w| <= 4
    ensures var block := SuperblockBlock(image).value;
      SuperblockCrcMismatch(SUPER_INFO_OFFSET) in Audited(Splice(image, SUPER_INFO_OFFSET + at, w))
      <==> ReadsAsCrc32c(Splice(block, at, w)) && Betrayed(block, at, w)
  {
    hide ParsedSuperblock, SceneOf, Audited, Splice, Betrayed, ReadsAsCrc32c;
    HasBlock(image);
    SceneStatus(image);
    SuperblockSpliced(image, at, w);
    SuperblockTamper(SuperblockBlock(image).value, at, w);
    SceneStatus(Splice(image, SUPER_INFO_OFFSET + at, w));
    MismatchInAudit(Splice(image, SUPER_INFO_OFFSET + at, w));
  }

  /** Rewriting the sector size of a verified superblock to 32 or less is always reported. */
  lemma SectorSizeReported(image: seq<byte>, w: seq<byte>)
    requires SceneOf(image).Some? && SceneOf(image).value.sb.crcValid == Some(true)
    requires |w| == 4 && LeValue(w) <= CSUM_SIZE
    ensures SuperblockCrcMismatch(SUPER_INFO_OFFSET) in Audited(Splice(image, SUPER_INFO_OFFSET + 0x90, w))
  {
    hide ParsedSuperblock, SceneOf, Audited, Splice, LeValue;
    HasBlock(image);
    SceneStatus(image);
    SuperblockSpliced(image, 0x90, w);
    SectorSizeSeen(SuperblockBlock(image).value, w);
    SceneStatus(Splice(image, SUPER_INFO_OFFSET + 0x90, w));
    MismatchInAudit(Splice(image, SUPER_INFO_OFFSET + 0x90, w));
  }

  /** Rewriting the checksum type of a verified superblock is never reported as a mismatch. */
  lemma ChecksumTypeSilencesAudit(image: seq<byte>)
    requires SceneOf(image).Some? && SceneOf(image).value.sb.crcValid == Some(true)
    ensures SuperblockCrcMismatch(SUPER_INFO_OFFSET) !in Audited(Splice(image, SUPER_INFO_OFFSET + 0xc4, [1]))
  {
    hide ParsedSuperblock, SceneOf, Audited, Splice;
    HasBlock(image);
    SceneStatus(image);
    SuperblockSpliced(image, 0xc4, [1]);
    ChecksumTypeEscapes(SuperblockBlock(image).value);
    SceneStatus(Splice(image, SUPER_INFO_OFFSET + 0xc4, [1]));
    MismatchInAudit(Splice(image, SUPER_INFO_OFFSET + 0xc4, [1]));
  }

  /** Rewriting the first byte of the magic empties the audit. */
  lemma MagicSilencesAudit(image: seq<byte>, v: byte)
    requires SceneOf(image).Some? && v != MAGIC[0]
    ensures Audited(Splice(image, SUPER_INFO_OFFSET + 0x40, [v])) == []
  {
    hide ParsedSuperblock, SceneOf, Splice;
    HasBlock(image);
    SceneStatus(image);
    SuperblockSpliced(image, 0x40, [v]);
    MagicEscapes(SuperblockBlock(image).value, v);
    SceneStatus(Splice(image, SUPER_INFO_OFFSET + 0x40, [v]));
  }
}
