/**
  The superblock's root backups and the anomalies they and the live roots give
  rise to (forensic/src/lib.rs).
*/
module Backups {
  import opened Wrappers
  import opened Bytes
  import opened Nodes
  import opened Superblocks
  import opened ChunkMaps

  const BACKUP_ROOTS_OFFSET: nat := 0xb2b
  const ROOT_BACKUP_SIZE: nat := 168
  const NUM_BACKUP_ROOTS: nat := 4

  datatype RootBackup = RootBackup(treeRoot: u64, treeRootGen: u64, fsRoot: u64, fsRootGen: u64)

  datatype RootField = RootTree | ChunkTree

  datatype Reason = TreeRootNewer | FsRootNewer | TreeRootPastEnd

  datatype Anomaly =
    | SuperblockCrcMismatch(offset: u64)
    | NodeCrcMismatch(bytenr: u64, offset: u64)
    | BackupRootDivergence(slot: nat, reason: Reason, backupGen: u64, currentGen: u64)
    | OrphanedInode(inode: u64)
    | ImpossibleGeometry(field: RootField, value: u64, limit: nat)

  /** The vector every check appends to. */
  class Report {
    var anomalies: seq<Anomaly>

    constructor ()
      ensures anomalies == []
    {
      anomalies := [];
    }

    method Push(a: Anomaly)
      modifies this
      ensures anomalies == old(anomalies) + [a]
    {
      anomalies := anomalies + [a];
    }
  }

  function BackupAt(block: seq<byte>, slot: nat): RootBackup {
    var base := BACKUP_ROOTS_OFFSET + slot * ROOT_BACKUP_SIZE;
    RootBackup(LeU64(block, base), LeU64(block, base + 8), LeU64(block, base + 48), LeU64(block, base + 56))
  }

  /** The first `n` slots. */
  function Slots(block: seq<byte>, n: nat): (r: seq<RootBackup>)
    ensures |r| == n && forall i :: 0 <= i < n ==> r[i] == BackupAt(block, i)
  {
    if n == 0 then [] else Slots(block, n - 1) + [BackupAt(block, n - 1)]
  }

  /** Every slot wholly inside the block, four at most. */
  function BackupsIn(block: seq<byte>): seq<RootBackup> {
    Slots(block, Min(NUM_BACKUP_ROOTS, Capacity(|block|, BACKUP_ROOTS_OFFSET, ROOT_BACKUP_SIZE)))
  }

  /** What the checks look at: the image, its superblock and the walked map. */
  datatype Scene = Scene(image: seq<byte>, sb: Superblock, entries: seq<MapEntry>)
  {
    function Read(logical: u64): Result<Node> {
      ReadNode(image, sb, entries, logical)
    }

    /** The backups stored in the image's superblock block, if it has one. */
    function Backups(): seq<RootBackup> {
      match SuperblockBlock(image)
      case Some(block) => BackupsIn(block)
      case None => []
    }
  }

  // ---- the backup array ----

  /** A field read from an entry's own slice is the field of the block. */
  lemma EntryField(block: seq<byte>, base: nat, k: nat)
    requires base + ROOT_BACKUP_SIZE <= |block| && k + 8 <= ROOT_BACKUP_SIZE
    ensures LeU64(block[base..base + ROOT_BACKUP_SIZE], k) == LeU64(block, base + k)
  {
    var entry := block[base..base + ROOT_BACKUP_SIZE];
    Within(block, base, entry, k, k + 8);
  }

  /** A slot's two root-and-generation pairs print back to the bytes they were read from. */
  lemma SlotReprint(block: seq<byte>, slot: nat)
    requires BACKUP_ROOTS_OFFSET + (slot + 1) * ROOT_BACKUP_SIZE <= |block|
    ensures var b := BackupAt(block, slot); var base := BACKUP_ROOTS_OFFSET + slot * ROOT_BACKUP_SIZE;
      LeBytes(b.treeRoot, 8) + LeBytes(b.treeRootGen, 8) == block[base..base + 16]
      && LeBytes(b.fsRoot, 8) + LeBytes(b.fsRootGen, 8) == block[base + 48..base + 64]
  {
    hide LeBytes, LeValue, Field;
    var base := BACKUP_ROOTS_OFFSET + slot * ROOT_BACKUP_SIZE;
    WriteNumber(block, base, 8);
    WriteNumber(block, base + 8, 8);
    WriteNumber(block, base + 48, 8);
    WriteNumber(block, base + 56, 8);
    Cut(block, base, base + 8, base + 16);
    Cut(block, base + 48, base + 56, base + 64);
  }

  method ParseBackupRoots(block: seq<byte>) returns (out: seq<RootBackup>)
    ensures out == BackupsIn(block)
  {
    hide LeU64;
    out := [];
    for slot := 0 to NUM_BACKUP_ROOTS
      invariant slot <= Capacity(|block|, BACKUP_ROOTS_OFFSET, ROOT_BACKUP_SIZE)
      invariant out == Slots(block, slot)
    {
      var base := BACKUP_ROOTS_OFFSET + slot * ROOT_BACKUP_SIZE;
      if base + ROOT_BACKUP_SIZE > |block| {
        break;
      }
      var entry := block[base..base + ROOT_BACKUP_SIZE];
      EntryField(block, base, 0);
      EntryField(block, base, 8);
      EntryField(block, base, 48);
      EntryField(block, base, 56);
      out := out + [RootBackup(LeU64(entry, 0), LeU64(entry, 8), LeU64(entry, 48), LeU64(entry, 56))];
    }
  }

  // ---- backup divergence ----

  /** What one slot is reported for. */
  function Divergence(b: RootBackup, slot: nat, currentGen: u64, imageLen: nat): seq<Anomaly> {
    if b.treeRootGen > currentGen
    then [BackupRootDivergence(slot, TreeRootNewer, b.treeRootGen, currentGen)]
    else if b.fsRootGen > currentGen
    then [BackupRootDivergence(slot, FsRootNewer, b.fsRootGen, currentGen)]
    else if b.treeRoot != 0 && b.treeRoot >= imageLen
    then [BackupRootDivergence(slot, TreeRootPastEnd, b.treeRootGen, currentGen)]
    else []
  }

  /** What the first `n` slots are reported for. */
  function Divergences(bs: seq<RootBackup>, n: nat, currentGen: u64, imageLen: nat): seq<Anomaly>
    requires n <= |bs|
  {
    if n == 0 then []
    else Divergences(bs, n - 1, currentGen, imageLen) + Divergence(bs[n - 1], n - 1, currentGen, imageLen)
  }

  function AllDivergences(block: seq<byte>, currentGen: u64, imageLen: nat): seq<Anomaly> {
    Divergences(BackupsIn(block), |BackupsIn(block)|, currentGen, imageLen)
  }

  lemma NoSlots(bs: seq<RootBackup>, currentGen: u64, imageLen: nat)
    ensures Divergences(bs, 0, currentGen, imageLen) == []
  {
  }

  lemma NextSlot(bs: seq<RootBackup>, n: nat, currentGen: u64, imageLen: nat)
    requires n < |bs|
    ensures Divergences(bs, n + 1, currentGen, imageLen)
      == Divergences(bs, n, currentGen, imageLen) + Divergence(bs[n], n, currentGen, imageLen)
  {
    hide Divergence;
  }

  method CheckBackupRoots(out: Report, block: seq<byte>, currentGen: u64, imageLen: nat)
    modifies out
    ensures out.anomalies == old(out.anomalies) + AllDivergences(block, currentGen, imageLen)
  {
    hide BackupsIn, Divergences;
    var bs := ParseBackupRoots(block);
    NoSlots(bs, currentGen, imageLen);
    for slot := 0 to |bs|
      invariant out.anomalies == old(out.anomalies) + Divergences(bs, slot, currentGen, imageLen)
    {
      NextSlot(bs, slot, currentGen, imageLen);
      var b := bs[slot];
      if b.treeRootGen > currentGen {
        out.Push(BackupRootDivergence(slot, TreeRootNewer, b.treeRootGen, currentGen));
      } else if b.fsRootGen > currentGen {
        out.Push(BackupRootDivergence(slot, FsRootNewer, b.fsRootGen, currentGen));
      } else if b.treeRoot != 0 && b.treeRoot >= imageLen {
        out.Push(BackupRootDivergence(slot, TreeRootPastEnd, b.treeRootGen, currentGen));
      }
    }
  }

  /** A backup the check accepts. */
  predicate Consistent(b: RootBackup, currentGen: u64, imageLen: nat) {
    b.treeRootGen <= currentGen && b.fsRootGen <= currentGen && (b.treeRoot == 0 || b.treeRoot < imageLen)
  }

  /** The reason given is the first of the three that applies, with the generation it names. */
  predicate Explains(x: Anomaly, b: RootBackup, currentGen: u64, imageLen: nat)
    requires x.BackupRootDivergence?
  {
    var treeNewer, fsNewer := b.treeRootGen > currentGen, b.fsRootGen > currentGen;
    x.currentGen == currentGen
    && x.backupGen == (if x.reason == FsRootNewer then b.fsRootGen else b.treeRootGen)
    && (x.reason == TreeRootNewer <==> treeNewer)
    && (x.reason == FsRootNewer <==> fsNewer && !treeNewer)
    && (x.reason == TreeRootPastEnd ==> b.treeRoot != 0 && b.treeRoot >= imageLen)
  }

  predicate InSlot(x: Anomaly, slot: nat) {
    x.BackupRootDivergence? && x.slot == slot
  }

  /** `x` reports an inconsistent slot among the first `n`. */
  predicate Justified(bs: seq<RootBackup>, n: nat, currentGen: u64, imageLen: nat, x: Anomaly) {
    x.BackupRootDivergence? && x.slot < n <= |bs|
    && !Consistent(bs[x.slot], currentGen, imageLen) && Explains(x, bs[x.slot], currentGen, imageLen)
  }

  lemma SlotVerdict(b: RootBackup, slot: nat, currentGen: u64, imageLen: nat)
    ensures var r := Divergence(b, slot, currentGen, imageLen);
      if Consistent(b, currentGen, imageLen) then r == []
      else |r| == 1 && InSlot(r[0], slot) && Explains(r[0], b, currentGen, imageLen)
  {
  }

  ghost predicate InSlotOrder(r: seq<Anomaly>) {
    (forall i :: 0 <= i < |r| ==> r[i].BackupRootDivergence?)
    && forall i, j :: 0 <= i < j < |r| ==> r[i].slot < r[j].slot
  }

  /** Only inconsistent slots are reported, each once and in slot order. */
  lemma {:induction false} DivergencesJustified(bs: seq<RootBackup>, n: nat, currentGen: u64, imageLen: nat)
    requires n <= |bs|
    ensures var r := Divergences(bs, n, currentGen, imageLen);
      InSlotOrder(r) && forall i :: 0 <= i < |r| ==> Justified(bs, n, currentGen, imageLen, r[i])
  {
    hide Divergence, Divergences, Consistent, Explains;
    if n == 0 {
      NoSlots(bs, currentGen, imageLen);
    } else {
      var before := Divergences(bs, n - 1, currentGen, imageLen);
      DivergencesJustified(bs, n - 1, currentGen, imageLen);
      forall i | 0 <= i < |before|
        ensures before[i].slot < n - 1 && Justified(bs, n, currentGen, imageLen, before[i])
      {
        assert Justified(bs, n - 1, currentGen, imageLen, before[i]);
      }
      SlotVerdict(bs[n - 1], n - 1, currentGen, imageLen);
      NextSlot(bs, n - 1, currentGen, imageLen);
    }
  }

  /** Every inconsistent slot is reported. */
  lemma {:induction false} DivergencesComplete(bs: seq<RootBackup>, n: nat, currentGen: u64, imageLen: nat, k: nat)
    returns (i: nat)
    requires k < n <= |bs| && !Consistent(bs[k], currentGen, imageLen)
    ensures i < |Divergences(bs, n, currentGen, imageLen)| && InSlot(Divergences(bs, n, currentGen, imageLen)[i], k)
  {
    hide Divergence, Divergences, Consistent, Explains;
    NextSlot(bs, n - 1, currentGen, imageLen);
    if k == n - 1 {
      SlotVerdict(bs[k], k, currentGen, imageLen);
      i := |Divergences(bs, n - 1, currentGen, imageLen)|;
    } else {
      i := DivergencesComplete(bs, n - 1, currentGen, imageLen, k);
    }
  }

  // ---- divergence against readability ----

  /** A nonzero root that does not read. */
  predicate BadRoot(sc: Scene, logical: u64) {
    logical != 0 && sc.Read(logical).Err?
  }

  /** A nonzero root without a readable place: unmapped, its block leaves the image, or the node size is below the header's. */
  predicate NoPlace(sc: Scene, logical: u64) {
    logical != 0 && Unreadable(sc.image, sc.sb, sc.entries, logical)
  }

  /**
    A slot is reported exactly when one of its two roots is bad, if and only if
    being inconsistent agrees with one of them having no readable place.
  */
  lemma CheckAgainstReading(sc: Scene, b: RootBackup, slot: nat, currentGen: u64)
    ensures (Divergence(b, slot, currentGen, |sc.image|) != [] <==> BadRoot(sc, b.treeRoot) || BadRoot(sc, b.fsRoot))
      <==> (!Consistent(b, currentGen, |sc.image|) <==> NoPlace(sc, b.treeRoot) || NoPlace(sc, b.fsRoot))
  {
    hide ReadNode, Unreadable;
    ReadFails(sc.image, sc.sb, sc.entries, b.treeRoot);
    ReadFails(sc.image, sc.sb, sc.entries, b.fsRoot);
  }

  lemma NumberBeside(block: seq<byte>, at: nat, w: seq<byte>, p: nat)
    requires at + |w| <= |block| && (p + 8 <= at || at + |w| <= p)
    ensures LeU64(Splice(block, at, w), p) == LeU64(block, p)
  {
    hide LeValue, Splice;
    if p + 8 <= |block| {
      SpliceOutside(block, at, w, p, p + 8);
    }
  }

  lemma SlotWithoutFsRoot(block: seq<byte>, slot: nat, w: seq<byte>, i: nat)
    requires |w| == 8 && BACKUP_ROOTS_OFFSET + (slot + 1) * ROOT_BACKUP_SIZE <= |block|
    ensures var changed := Splice(block, BACKUP_ROOTS_OFFSET + slot * ROOT_BACKUP_SIZE + 48, w);
      BackupAt(changed, i) == BackupAt(block, i).(fsRoot := BackupAt(changed, i).fsRoot)
  {
    hide LeU64, Splice;
    var at, base := BACKUP_ROOTS_OFFSET + slot * ROOT_BACKUP_SIZE + 48, BACKUP_ROOTS_OFFSET + i * ROOT_BACKUP_SIZE;
    NumberBeside(block, at, w, base);
    NumberBeside(block, at, w, base + 8);
    NumberBeside(block, at, w, base + 56);
  }

  lemma SameDivergence(a: RootBackup, b: RootBackup, slot: nat, currentGen: u64, imageLen: nat)
    requires b == a.(fsRoot := b.fsRoot)
    ensures Divergence(b, slot, currentGen, imageLen) == Divergence(a, slot, currentGen, imageLen)
  {
  }

  /** The check never looks at an FS root: whatever a slot's is rewritten to, the same is reported. */
  lemma {:induction false} FsRootNeverCompared(block: seq<byte>, slot: nat, w: seq<byte>, n: nat, currentGen: u64, imageLen: nat)
    requires |w| == 8 && BACKUP_ROOTS_OFFSET + (slot + 1) * ROOT_BACKUP_SIZE <= |block|
    requires n <= |BackupsIn(block)|
    ensures var changed := Splice(block, BACKUP_ROOTS_OFFSET + slot * ROOT_BACKUP_SIZE + 48, w);
      |BackupsIn(changed)| == |BackupsIn(block)|
      && Divergences(BackupsIn(changed), n, currentGen, imageLen) == Divergences(BackupsIn(block), n, currentGen, imageLen)
  {
    hide BackupAt, Splice, Slots, Divergence;
    if n > 0 {
      var changed := Splice(block, BACKUP_ROOTS_OFFSET + slot * ROOT_BACKUP_SIZE + 48, w);
      FsRootNeverCompared(block, slot, w, n - 1, currentGen, imageLen);
      SlotWithoutFsRoot(block, slot, w, n - 1);
      SameDivergence(BackupsIn(block)[n - 1], BackupsIn(changed)[n - 1], n - 1, currentGen, imageLen);
    }
  }

  // ---- the live roots ----

  function Geometry(sc: Scene, field: RootField, logical: u64): seq<Anomaly> {
    if logical == 0 || sc.Read(logical).Ok? then []
    else [ImpossibleGeometry(field, logical, |sc.image|)]
  }

  method CheckRootReachable(out: Report, sc: Scene, field: RootField, logical: u64)
    modifies out
    ensures out.anomalies == old(out.anomalies) + Geometry(sc, field, logical)
  {
    hide ReadNode;
    if logical == 0 {
      return;
    }
    if sc.Read(logical).Err? {
      out.Push(ImpossibleGeometry(field, logical, |sc.image|));
    }
  }
}
