/** The orphan scan over every FS_TREE leaf the auditor can name (forensic/src/lib.rs). */
module Orphans {
  import opened Bytes
  import opened SysChunks
  import opened Nodes
  import opened Superblocks
  import opened ChunkMaps
  import opened FsTrees
  import opened Backups

  const ORPHAN_OBJECTID: u64 := 0xffff_ffff_ffff_fffb
  const ORPHAN_ITEM_KEY: byte := 48

  predicate IsOrphan(k: DiskKey) {
    k.objectid == ORPHAN_OBJECTID && k.keyType == ORPHAN_ITEM_KEY
  }

  // ---- lists without repeats ----

  /** `out` followed by each number of `more` that is new. */
  function AddUnseen(out: seq<u64>, more: seq<u64>): seq<u64>
    decreases |more|
  {
    if more == [] then out
    else AddUnseen(if more[0] in out then out else out + [more[0]], more[1..])
  }

  lemma {:induction false} AddUnseenSplit(out: seq<u64>, a: seq<u64>, b: seq<u64>)
    ensures AddUnseen(out, a + b) == AddUnseen(AddUnseen(out, a), b)
    decreases |a|
  {
    if a == [] {
      assert a + b == b;
    } else {
      assert (a + b)[0] == a[0] && (a + b)[1..] == a[1..] + b;
      AddUnseenSplit(if a[0] in out then out else out + [a[0]], a[1..], b);
    }
  }

  /** Nothing is lost, nothing invented, nothing repeated, and `out` stays in front. */
  lemma {:induction false} AddUnseenExact(out: seq<u64>, more: seq<u64>)
    ensures forall x :: x in AddUnseen(out, more) <==> x in out || x in more
    ensures Distinct(out) ==> Distinct(AddUnseen(out, more))
    ensures out <= AddUnseen(out, more)
    decreases |more|
  {
    if more != [] {
      assert more == [more[0]] + more[1..];
      AddUnseenExact(if more[0] in out then out else out + [more[0]], more[1..]);
    }
  }

  // ---- which leaves are scanned ----

  /** The live FS_TREE root, when the root tree names one. */
  function LiveRoot(sc: Scene): seq<u64> {
    match FsTreeRootAt(sc.image, sc.sb, sc.entries)
    case Ok(root) => [root.bytenr]
    case Err(_) => []
  }

  function BackupFsRoots(bs: seq<RootBackup>): seq<u64> {
    if bs == [] then []
    else if bs[0].fsRoot == 0 then BackupFsRoots(bs[1..])
    else [bs[0].fsRoot] + BackupFsRoots(bs[1..])
  }

  function FsRoots(sc: Scene): seq<u64> {
    AddUnseen(LiveRoot(sc), BackupFsRoots(sc.Backups()))
  }

  method CollectFsRoots(sc: Scene) returns (roots: seq<u64>)
    ensures roots == FsRoots(sc)
  {
    hide BackupsIn, FsTreeRootAt;
    roots := [];
    var live := FsTreeRootAt(sc.image, sc.sb, sc.entries);
    if live.Ok? {
      roots := roots + [live.value.bytenr];
    }
    assert roots == LiveRoot(sc);
    var block := SuperblockBlock(sc.image);
    if block.Some? {
      var bs := ParseBackupRoots(block.value);
      assert bs[0..] == bs;
      for i := 0 to |bs|
        invariant AddUnseen(roots, BackupFsRoots(bs[i..])) == AddUnseen(LiveRoot(sc), BackupFsRoots(bs))
      {
        ghost var todo := bs[i..];
        assert todo[0] == bs[i] && todo[1..] == bs[i + 1..];
        if bs[i].fsRoot != 0 {
          assert BackupFsRoots(todo)[0] == bs[i].fsRoot && BackupFsRoots(todo)[1..] == BackupFsRoots(bs[i + 1..]);
          if bs[i].fsRoot !in roots {
            roots := roots + [bs[i].fsRoot];
          }
        }
      }
    }
  }

  // ---- the scan ----

  function OrphansIn(items: seq<Item>): seq<u64> {
    if items == [] then []
    else if IsOrphan(items[0].key) then [items[0].key.offset] + OrphansIn(items[1..])
    else OrphansIn(items[1..])
  }

  /** The orphan items of the FS_TREE leaf at `logical`. */
  function OrphansAt(sc: Scene, logical: u64): seq<u64> {
    match sc.Read(logical)
    case Err(_) => []
    case Ok(leaf) => if leaf.header.owner == FS_TREE_OBJECTID then OrphansIn(leaf.LeafItems()) else []
  }

  function OrphansOver(sc: Scene, roots: seq<u64>): seq<u64> {
    if roots == [] then [] else OrphansAt(sc, roots[0]) + OrphansOver(sc, roots[1..])
  }

  /** The orphaned inodes, first sighting first. */
  function OrphanList(sc: Scene): seq<u64> {
    AddUnseen([], OrphansOver(sc, FsRoots(sc)))
  }

  function OrphanReports(inodes: seq<u64>): (r: seq<Anomaly>)
    ensures |r| == |inodes| && forall i :: 0 <= i < |r| ==> r[i] == OrphanedInode(inodes[i])
  {
    if inodes == [] then []
    else OrphanReports(inodes[..|inodes| - 1]) + [OrphanedInode(inodes[|inodes| - 1])]
  }

  lemma ReportOne(seen: seq<u64>, x: u64)
    ensures OrphanReports(seen + [x]) == OrphanReports(seen) + [OrphanedInode(x)]
  {
    hide OrphanReports;
  }

  method ScanLeaf(out: Report, items: seq<Item>, seen: seq<u64>, ghost before: seq<Anomaly>) returns (now: seq<u64>)
    requires out.anomalies == before + OrphanReports(seen)
    modifies out
    ensures now == AddUnseen(seen, OrphansIn(items))
    ensures out.anomalies == before + OrphanReports(now)
  {
    hide OrphanReports, IsOrphan;
    now := seen;
    for i := 0 to |items|
      invariant out.anomalies == before + OrphanReports(now)
      invariant AddUnseen(now, OrphansIn(items[i..])) == AddUnseen(seen, OrphansIn(items))
    {
      var key := items[i].key;
      ghost var todo := items[i..];
      assert todo[0] == items[i] && todo[1..] == items[i + 1..];
      if IsOrphan(key) {
        assert OrphansIn(todo)[0] == key.offset && OrphansIn(todo)[1..] == OrphansIn(items[i + 1..]);
        if key.offset !in now {
          ReportOne(now, key.offset);
          now := now + [key.offset];
          out.Push(OrphanedInode(key.offset));
        }
      }
    }
  }

  lemma NoneLeft(roots: seq<u64>, sc: Scene, seen: seq<u64>)
    ensures AddUnseen(seen, OrphansOver(sc, roots[|roots|..])) == seen
  {
  }

  lemma NoneYet(roots: seq<u64>, sc: Scene)
    ensures OrphanReports([]) == [] && roots[0..] == roots
  {
  }

  lemma OverNext(sc: Scene, roots: seq<u64>, i: nat, seen: seq<u64>)
    requires i < |roots|
    ensures AddUnseen(seen, OrphansOver(sc, roots[i..]))
      == AddUnseen(AddUnseen(seen, OrphansAt(sc, roots[i])), OrphansOver(sc, roots[i + 1..]))
    ensures AddUnseen(seen, []) == seen
  {
    hide OrphansAt;
    assert roots[i..][0] == roots[i] && roots[i..][1..] == roots[i + 1..];
    AddUnseenSplit(seen, OrphansAt(sc, roots[i]), OrphansOver(sc, roots[i + 1..]));
  }

  method ScanOrphans(out: Report, sc: Scene)
    modifies out
    ensures out.anomalies == old(out.anomalies) + OrphanReports(OrphanList(sc))
  {
    hide FsRoots, ReadNode, OrphanReports, OrphansIn, AddUnseen;
    var roots := CollectFsRoots(sc);
    var seen := [];
    NoneYet(roots, sc);
    for i := 0 to |roots|
      invariant out.anomalies == old(out.anomalies) + OrphanReports(seen)
      invariant AddUnseen(seen, OrphansOver(sc, roots[i..])) == OrphanList(sc)
    {
      OverNext(sc, roots, i, seen);
      var leaf := sc.Read(roots[i]);
      if leaf.Err? {
        continue;
      }
      if leaf.value.header.owner != FS_TREE_OBJECTID {
        continue;
      }
      seen := ScanLeaf(out, leaf.value.LeafItems(), seen, old(out.anomalies));
    }
    NoneLeft(roots, sc, seen);
  }

  // ---- what the scan finds ----

  /** The root tree's FS_TREE root, or a nonzero backup FS_TREE root. */
  ghost predicate ScannedRoot(sc: Scene, logical: u64) {
    var live := FsTreeRootAt(sc.image, sc.sb, sc.entries);
    (live.Ok? && live.value.bytenr == logical)
    || (logical != 0 && exists b :: b in sc.Backups() && b.fsRoot == logical)
  }

  /** A scanned FS_TREE leaf holds an orphan item for `inode`. */
  ghost predicate HasOrphan(sc: Scene, logical: u64, inode: u64) {
    sc.Read(logical).Ok? && sc.Read(logical).value.header.owner == FS_TREE_OBJECTID
    && exists it :: it in sc.Read(logical).value.LeafItems() && IsOrphan(it.key) && it.key.offset == inode
  }

  lemma {:induction false} BackupFsRootsMember(bs: seq<RootBackup>, a: u64)
    ensures a in BackupFsRoots(bs) <==> a != 0 && exists b :: b in bs && b.fsRoot == a
  {
    if bs != [] {
      assert bs == [bs[0]] + bs[1..];
      BackupFsRootsMember(bs[1..], a);
    }
  }

  lemma {:induction false} OrphansInMember(items: seq<Item>, inode: u64)
    ensures inode in OrphansIn(items) <==> exists it :: it in items && IsOrphan(it.key) && it.key.offset == inode
  {
    hide IsOrphan;
    if items != [] {
      assert items == [items[0]] + items[1..];
      OrphansInMember(items[1..], inode);
    }
  }

  lemma {:induction false} OrphansOverMember(sc: Scene, roots: seq<u64>, inode: u64)
    ensures inode in OrphansOver(sc, roots) <==> exists a :: a in roots && inode in OrphansAt(sc, a)
  {
    hide OrphansAt;
    if roots != [] {
      assert roots == [roots[0]] + roots[1..];
      OrphansOverMember(sc, roots[1..], inode);
    }
  }

  lemma ScannedExactly(sc: Scene, a: u64)
    ensures a in FsRoots(sc) <==> ScannedRoot(sc, a)
  {
    hide FsTreeRootAt, BackupsIn, AddUnseen;
    AddUnseenExact(LiveRoot(sc), BackupFsRoots(sc.Backups()));
    BackupFsRootsMember(sc.Backups(), a);
  }

  /** An inode is reported exactly when a scanned leaf holds an orphan item for it, and only once. */
  lemma OrphanScanExact(sc: Scene, inode: u64)
    ensures inode in OrphanList(sc) <==> exists a: u64 :: ScannedRoot(sc, a) && HasOrphan(sc, a, inode)
    ensures Distinct(OrphanList(sc))
  {
    hide ScannedRoot, FsRoots, ReadNode, AddUnseen, OrphansIn, OrphansOver;
    AddUnseenExact([], OrphansOver(sc, FsRoots(sc)));
    OrphansOverMember(sc, FsRoots(sc), inode);
    forall a: u64
      ensures a in FsRoots(sc) <==> ScannedRoot(sc, a)
      ensures inode in OrphansAt(sc, a) <==> HasOrphan(sc, a, inode)
    {
      ScannedExactly(sc, a);
      if sc.Read(a).Ok? {
        OrphansInMember(sc.Read(a).value.LeafItems(), inode);
      }
    }
  }
}
