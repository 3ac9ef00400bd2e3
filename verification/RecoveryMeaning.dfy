/** What deleted-file recovery finds, stated over the items of the leaves. */
module RecoveryMeaning {
  import opened Wrappers
  import opened Bytes
  import opened Nodes
  import opened ChunkMaps
  import opened FsTrees
  import opened Extents
  import opened FileMeaning
  import opened Backups
  import opened Audits
  import opened Recovery

  // ---- two leaves ----

  lemma {:induction false} InodeSetMember(items: seq<Item>, ino: u64)
    ensures ino in InodeSet(items) <==> exists it :: it in items && KeyedBy(it, ino, FsTrees.INODE_ITEM_KEY)
  {
    if items != [] {
      assert items == [items[0]] + items[1..];
      InodeSetMember(items[1..], ino);
      if KeyedBy(items[0], ino, FsTrees.INODE_ITEM_KEY) {
        assert items[0] in items;
      }
      if it :| it in items[1..] && KeyedBy(it, ino, FsTrees.INODE_ITEM_KEY) {
        assert it in items;
      }
    }
  }

  /** The positions, from `from_` on, of the deleted inode items. */
  function DeletedAt(items: seq<Item>, current: seq<Item>, from_: nat): seq<nat>
    requires from_ <= |items|
    decreases |items| - from_
  {
    if from_ == |items| then []
    else if IsDeleted(items, current, items[from_]) then [from_] + DeletedAt(items, current, from_ + 1)
    else DeletedAt(items, current, from_ + 1)
  }

  lemma {:induction false} DeletedAtMember(items: seq<Item>, current: seq<Item>, from_: nat, k: nat)
    requires from_ <= |items|
    ensures k in DeletedAt(items, current, from_) <==> from_ <= k < |items| && IsDeleted(items, current, items[k])
    decreases |items| - from_
  {
    hide IsDeleted;
    if from_ < |items| {
      DeletedAtMember(items, current, from_ + 1, k);
    }
  }

  ghost predicate Ascending(pos: seq<nat>) {
    forall i, j :: 0 <= i < j < |pos| ==> pos[i] < pos[j]
  }

  lemma {:induction false} DeletedAtAscends(items: seq<Item>, current: seq<Item>, from_: nat)
    requires from_ <= |items|
    ensures Ascending(DeletedAt(items, current, from_))
    decreases |items| - from_
  {
    hide IsDeleted;
    if from_ < |items| {
      var later := DeletedAt(items, current, from_ + 1);
      DeletedAtAscends(items, current, from_ + 1);
      forall i | 0 <= i < |later|
        ensures from_ < later[i]
      {
        assert later[i] in later;
        DeletedAtMember(items, current, from_ + 1, later[i]);
      }
    }
  }

  ghost predicate AllBelow(pos: seq<nat>, n: nat) {
    forall i :: 0 <= i < |pos| ==> pos[i] < n
  }

  /** The files carved at these positions of the old leaf. */
  ghost predicate CarvedEach(env: Env, old_: Node, pos: seq<nat>, r: seq<RecoveredFile>) {
    |r| == |pos| && AllBelow(pos, |old_.LeafItems()|)
    && forall i :: 0 <= i < |r| ==> r[i] == Carved(env, old_, old_.LeafItems()[pos[i]])
  }

  lemma NothingCarved(env: Env, old_: Node)
    ensures CarvedEach(env, old_, [], [])
  {
  }

  lemma CarvedCons(env: Env, old_: Node, k: nat, pos: seq<nat>, r: seq<RecoveredFile>)
    requires CarvedEach(env, old_, pos, r) && k < |old_.LeafItems()|
    ensures CarvedEach(env, old_, [k] + pos, [Carved(env, old_, old_.LeafItems()[k])] + r)
  {
    hide Carved;
  }

  lemma {:induction false} CarvedInOrder(env: Env, old_: Node, current: Node, from_: nat)
    requires from_ <= |old_.LeafItems()|
    ensures var items := old_.LeafItems();
      CarvedEach(env, old_, DeletedAt(items, current.LeafItems(), from_), CarvedFrom(env, old_, current, items[from_..]))
    decreases |old_.LeafItems()| - from_
  {
    hide Carved, IsDeleted, CarvedEach;
    var items := old_.LeafItems();
    if from_ == |items| {
      NothingCarved(env, old_);
    } else {
      assert items[from_..][0] == items[from_] && items[from_..][1..] == items[from_ + 1..];
      CarvedInOrder(env, old_, current, from_ + 1);
      CarvedCons(env, old_, from_, DeletedAt(items, current.LeafItems(), from_ + 1),
        CarvedFrom(env, old_, current, items[from_ + 1..]));
    }
  }

  /** The position of a deleted inode item of an FS_TREE leaf. */
  predicate IsDeletedAt(old_: Node, current: Node, k: nat) {
    old_.header.owner == FS_TREE_OBJECTID && k < |old_.LeafItems()|
    && IsDeleted(old_.LeafItems(), current.LeafItems(), old_.LeafItems()[k])
  }

  /**
    A pair of leaves yields, in old-leaf order, exactly the files whose inode item
    the old FS_TREE leaf holds with an extent and the current leaf does not hold.
  */
  lemma DiffExact(env: Env, old_: Node, current: Node) returns (pos: seq<nat>)
    ensures Ascending(pos)
    ensures forall k: nat :: k in pos <==> IsDeletedAt(old_, current, k)
    ensures CarvedEach(env, old_, pos, RecoveredFrom(env, old_, current))
  {
    hide Carved, IsDeleted, CarvedFrom, DeletedAt, CarvedEach;
    if old_.header.owner != FS_TREE_OBJECTID {
      pos := [];
      NothingCarved(env, old_);
    } else {
      var items := old_.LeafItems();
      pos := DeletedAt(items, current.LeafItems(), 0);
      DeletedAtAscends(items, current.LeafItems(), 0);
      forall k: nat
        ensures k in pos <==> IsDeletedAt(old_, current, k)
      {
        DeletedAtMember(items, current.LeafItems(), 0, k);
      }
      CarvedInOrder(env, old_, current, 0);
      assert items[0..] == items;
    }
  }

  /** The inodes a diff recovers. */
  predicate Diffed(old_: Node, current: Node, ino: u64) {
    old_.header.owner == FS_TREE_OBJECTID && ino >= FIRST_FREE_OBJECTID
    && ino in InodeSet(old_.LeafItems()) && ino !in InodeSet(current.LeafItems())
    && HasExtent(old_.LeafItems(), ino)
  }

  lemma DeletedInode(items: seq<Item>, current: seq<Item>, k: nat)
    requires k < |items| && IsDeleted(items, current, items[k])
    ensures var ino := items[k].key.objectid;
      ino >= FIRST_FREE_OBJECTID && ino in InodeSet(items) && ino !in InodeSet(current) && HasExtent(items, ino)
  {
    hide InodeSet, HasExtent;
    assert KeyedBy(items[k], items[k].key.objectid, FsTrees.INODE_ITEM_KEY);
    InodeSetMember(items, items[k].key.objectid);
  }

  lemma DeletedItem(items: seq<Item>, current: seq<Item>, ino: u64) returns (k: nat)
    requires ino >= FIRST_FREE_OBJECTID && ino in InodeSet(items) && ino !in InodeSet(current) && HasExtent(items, ino)
    ensures k < |items| && items[k].key.objectid == ino && IsDeleted(items, current, items[k])
  {
    hide InodeSet, HasExtent;
    InodeSetMember(items, ino);
    var it :| it in items && KeyedBy(it, ino, FsTrees.INODE_ITEM_KEY);
    k :| 0 <= k < |items| && items[k] == it;
  }

  lemma CarvedOne(env: Env, old_: Node, current: Node, pos: seq<nat>, r: seq<RecoveredFile>, i: nat)
    requires CarvedEach(env, old_, pos, r) && i < |pos|
    requires forall k: nat :: k in pos <==> IsDeletedAt(old_, current, k)
    ensures |r| == |pos| && IsDeletedAt(old_, current, pos[i])
    ensures r[i] == Carved(env, old_, old_.LeafItems()[pos[i]]) && r[i].inode == old_.LeafItems()[pos[i]].key.objectid
  {
    hide ContentOf, RecoveredPath, IsDeleted;
    assert pos[i] in pos;
  }

  lemma CarvedLength(env: Env, old_: Node, pos: seq<nat>, r: seq<RecoveredFile>)
    requires CarvedEach(env, old_, pos, r)
    ensures |r| == |pos|
  {
  }

  lemma DiffInodes(env: Env, old_: Node, current: Node, ino: u64)
    ensures Recovers(RecoveredFrom(env, old_, current), ino) <==> Diffed(old_, current, ino)
  {
    hide InodeSet, HasExtent, RecoveredFrom, Carved, IsDeleted, CarvedEach;
    var items, r := old_.LeafItems(), RecoveredFrom(env, old_, current);
    var pos := DiffExact(env, old_, current);
    CarvedLength(env, old_, pos, r);
    if Recovers(r, ino) {
      var i :| 0 <= i < |r| && r[i].inode == ino;
      CarvedOne(env, old_, current, pos, r, i);
      DeletedInode(items, current.LeafItems(), pos[i]);
    }
    if Diffed(old_, current, ino) {
      var k := DeletedItem(items, current.LeafItems(), ino);
      assert IsDeletedAt(old_, current, k);
      var i :| 0 <= i < |pos| && pos[i] == k;
      CarvedOne(env, old_, current, pos, r, i);
    }
  }

  /** A leaf diffed with itself yields nothing. */
  lemma SelfDiffEmpty(env: Env, leaf: Node)
    ensures RecoveredFrom(env, leaf, leaf) == []
  {
    hide RecoveredFrom, InodeSet, HasExtent;
    var r := RecoveredFrom(env, leaf, leaf);
    if r != [] {
      assert Recovers(r, r[0].inode);
      DiffInodes(env, leaf, leaf, r[0].inode);
    }
  }

  /** Carved content is empty or as long as the inode's first inode item says. */
  lemma ContentLength(env: Env, items: seq<Item>, ino: u64)
    ensures ContentOf(env, items, ino) != [] ==> FindItem(items, ino, FsTrees.INODE_ITEM_KEY).Some?
    ensures ContentOf(env, items, ino) != [] ==> |ContentOf(env, items, ino)| == SizeOf(items, ino)
  {
    hide FileContent;
    if FileContent(env, items, ino).Ok? {
      ReadPlacesBytes(env, items, ino, 0, 0);
    }
  }

  /** An inode item of the leaf gives the size the content is fitted to. */
  predicate SizeIsFirst(items: seq<Item>, it: Item) {
    FindItem(items, it.key.objectid, FsTrees.INODE_ITEM_KEY).Some?
    && LeU64(it.data, INODE_SIZE_OFFSET) == SizeOf(items, it.key.objectid)
  }

  /** Recovered content is empty or exactly the recorded size, precisely when the first inode item records that size. */
  lemma CarvedSize(env: Env, old_: Node, it: Item)
    ensures var rec := Carved(env, old_, it);
      rec.content != [] ==> (|rec.content| == rec.size <==> SizeIsFirst(old_.LeafItems(), it))
  {
    hide FileContent, FindItem, RecoveredPath;
    ContentLength(env, old_.LeafItems(), it.key.objectid);
  }

  lemma OneInodeItem(items: seq<Item>, it: Item)
    requires it in items && it.key.keyType == FsTrees.INODE_ITEM_KEY
    requires OneOf(items, it.key.objectid, FsTrees.INODE_ITEM_KEY)
    ensures SizeIsFirst(items, it)
  {
    hide LeU64;
    assert KeyedBy(it, it.key.objectid, FsTrees.INODE_ITEM_KEY);
    FindItemIn(items, it.key.objectid, FsTrees.INODE_ITEM_KEY);
  }

  /** With unique inode items everything a diff recovers is empty or exactly its recorded size. */
  lemma RecoveredSizes(env: Env, old_: Node, current: Node, i: nat)
    requires i < |RecoveredFrom(env, old_, current)|
    requires OneOf(old_.LeafItems(), RecoveredFrom(env, old_, current)[i].inode, FsTrees.INODE_ITEM_KEY)
    ensures var rec := RecoveredFrom(env, old_, current)[i]; rec.content == [] || |rec.content| == rec.size
  {
    hide RecoveredFrom, ContentOf, RecoveredPath, FileContent, HasExtent, InodeSet, LeU64;
    var pos := DiffExact(env, old_, current);
    CarvedLength(env, old_, pos, RecoveredFrom(env, old_, current));
    CarvedOne(env, old_, current, pos, RecoveredFrom(env, old_, current), i);
    var it := old_.LeafItems()[pos[i]];
    OneInodeItem(old_.LeafItems(), it);
    CarvedSize(env, old_, it);
  }

  // ---- deletion undone ----

  predicate UserFile(items: seq<Item>, ino: u64) {
    ino >= FIRST_FREE_OBJECTID && ino in InodeSet(items) && HasExtent(items, ino)
  }

  /** Of the old leaf's user files with extents, `ino` and no other has lost its inode item. */
  ghost predicate OnlyGone(items: seq<Item>, current: seq<Item>, ino: u64) {
    UserFile(items, ino) && forall x: u64 :: UserFile(items, x) ==> (x in InodeSet(current) <==> x != ino)
  }

  /**
    Diffing two generations of an FS_TREE leaf gives back `ino` and nothing else
    exactly when it alone is gone, whatever else the two leaves differ in.
  */
  lemma OneDeletion(env: Env, old_: Node, current: Node, ino: u64)
    requires old_.header.owner == FS_TREE_OBJECTID
    ensures (forall x: u64 :: Recovers(RecoveredFrom(env, old_, current), x) <==> x == ino)
      <==> OnlyGone(old_.LeafItems(), current.LeafItems(), ino)
  {
    hide InodeSet, HasExtent, RecoveredFrom, Recovers;
    var items, r := old_.LeafItems(), RecoveredFrom(env, old_, current);
    forall x: u64
      ensures Recovers(r, x) <==> UserFile(items, x) && x !in InodeSet(current.LeafItems())
    {
      DiffInodes(env, old_, current, x);
    }
    if forall x: u64 :: Recovers(r, x) <==> x == ino {
      assert Recovers(r, ino);
    }
  }

  /** What comes back then has the old leaf's name and the content the old leaf reads as. */
  lemma DeletionUndone(env: Env, old_: Node, current: Node, ino: u64)
    requires old_.header.owner == FS_TREE_OBJECTID && OnlyGone(old_.LeafItems(), current.LeafItems(), ino)
    ensures var items, r := old_.LeafItems(), RecoveredFrom(env, old_, current);
      r != [] && forall i :: 0 <= i < |r| ==>
        r[i].inode == ino && r[i].content == ContentOf(env, items, ino) && r[i].path == RecoveredPath(items, ino)
  {
    hide OnlyGone, RecoveredFrom, ContentOf, RecoveredPath, IsDeleted;
    var items, r := old_.LeafItems(), RecoveredFrom(env, old_, current);
    OneDeletion(env, old_, current, ino);
    assert Recovers(r, ino);
    var pos := DiffExact(env, old_, current);
    forall i | 0 <= i < |r|
      ensures r[i].inode == ino && r[i].content == ContentOf(env, items, ino) && r[i].path == RecoveredPath(items, ino)
    {
      assert Recovers(r, r[i].inode);
    }
  }

  /**
    The leaf after an unlink: the file's own items and every directory entry that
    names it are gone, and the data of what stays, such as the parent's inode
    item, may be rewritten.
  */
  function Unlinked(items: seq<Item>, ino: u64, rewrite: Item -> seq<byte>): seq<Item> {
    if items == [] then []
    else
      var it, later := items[0], Unlinked(items[1..], ino, rewrite);
      if it.key.objectid == ino || (NameIn(it).Some? && NameIn(it).value.child == ino) then later
      else [Item(it.key, rewrite(it))] + later
  }

  lemma {:induction false} UnlinkedInodes(items: seq<Item>, ino: u64, rewrite: Item -> seq<byte>, x: u64)
    ensures x in InodeSet(Unlinked(items, ino, rewrite)) <==> x in InodeSet(items) && x != ino
  {
    hide ParseDirItem;
    if items != [] {
      UnlinkedInodes(items[1..], ino, rewrite, x);
      var it, later := items[0], Unlinked(items[1..], ino, rewrite);
      assert ([Item(it.key, rewrite(it))] + later)[1..] == later;
    }
  }

  /** Unlinking a user file from an FS_TREE leaf and diffing the two generations gives back that file and no other. */
  lemma UnlinkUndone(env: Env, old_: Node, current: Node, ino: u64, rewrite: Item -> seq<byte>)
    requires old_.header.owner == FS_TREE_OBJECTID && UserFile(old_.LeafItems(), ino)
    requires current.LeafItems() == Unlinked(old_.LeafItems(), ino, rewrite)
    ensures var items, r := old_.LeafItems(), RecoveredFrom(env, old_, current);
      (forall x: u64 :: Recovers(r, x) <==> x == ino)
      && forall i :: 0 <= i < |r| ==> r[i].content == ContentOf(env, items, ino) && r[i].path == RecoveredPath(items, ino)
  {
    hide InodeSet, HasExtent, RecoveredFrom, ContentOf, RecoveredPath, Unlinked;
    var items := old_.LeafItems();
    forall x: u64
      ensures x in InodeSet(Unlinked(items, ino, rewrite)) <==> x in InodeSet(items) && x != ino
    {
      UnlinkedInodes(items, ino, rewrite, x);
    }
    OneDeletion(env, old_, current, ino);
    DeletionUndone(env, old_, current, ino);
  }

  // ---- the whole image ----

  ghost predicate DistinctInodes(r: seq<RecoveredFile>) {
    forall i, j :: 0 <= i < j < |r| ==> r[i].inode != r[j].inode
  }

  /** The first file of a list with this inode. */
  function FirstOf(r: seq<RecoveredFile>, ino: u64): Option<RecoveredFile> {
    if r == [] then None else if r[0].inode == ino then Some(r[0]) else FirstOf(r[1..], ino)
  }

  lemma {:induction false} FirstOfAppend(a: seq<RecoveredFile>, x: RecoveredFile, ino: u64)
    ensures FirstOf(a + [x], ino)
      == if FirstOf(a, ino).Some? then FirstOf(a, ino) else if x.inode == ino then Some(x) else None
  {
    if a != [] {
      assert (a + [x])[1..] == a[1..] + [x];
      FirstOfAppend(a[1..], x, ino);
    }
  }

  lemma {:induction false} FirstOfListed(r: seq<RecoveredFile>, ino: u64)
    ensures FirstOf(r, ino).Some? <==> Recovers(r, ino)
    ensures FirstOf(r, ino).Some? ==> FirstOf(r, ino).value in r && FirstOf(r, ino).value.inode == ino
  {
    if r != [] {
      FirstOfListed(r[1..], ino);
      if Recovers(r[1..], ino) {
        var i :| 0 <= i < |r[1..]| && r[1..][i].inode == ino;
        assert r[i + 1].inode == ino;
      }
      if Recovers(r, ino) && r[0].inode != ino {
        var i :| 0 <= i < |r| && r[i].inode == ino;
        assert r[1..][i - 1].inode == ino;
      }
    }
  }

  lemma AppendDistinct(out: seq<RecoveredFile>, x: RecoveredFile)
    requires DistinctInodes(out) && !Recovers(out, x.inode)
    ensures DistinctInodes(out + [x])
  {
  }

  /** Merging keeps inodes distinct and, for each inode, the first file offered. */
  lemma {:induction false} AddNewKeepsFirst(out: seq<RecoveredFile>, more: seq<RecoveredFile>, ino: u64)
    requires DistinctInodes(out)
    ensures DistinctInodes(AddNew(out, more))
    ensures FirstOf(AddNew(out, more), ino)
      == if FirstOf(out, ino).Some? then FirstOf(out, ino) else FirstOf(more, ino)
    decreases |more|
  {
    hide Recovers, DistinctInodes;
    if more != [] {
      if Recovers(out, more[0].inode) {
        FirstOfListed(out, more[0].inode);
        AddNewKeepsFirst(out, more[1..], ino);
      } else {
        AppendDistinct(out, more[0]);
        FirstOfAppend(out, more[0], ino);
        AddNewKeepsFirst(out + [more[0]], more[1..], ino);
      }
    }
  }

  /** The first backup, in slot order, whose leaf's diff holds `ino`. */
  function FirstBackupFile(env: Env, sc: Scene, current: Node, live: u64, bs: seq<RootBackup>, ino: u64)
    : Option<RecoveredFile>
  {
    if bs == [] then None
    else
      var found := FirstOf(FromBackup(env, sc, current, live, bs[0]), ino);
      if found.Some? then found else FirstBackupFile(env, sc, current, live, bs[1..], ino)
  }

  lemma {:induction false} FirstOfSplit(a: seq<RecoveredFile>, b: seq<RecoveredFile>, ino: u64)
    ensures FirstOf(a + b, ino) == if FirstOf(a, ino).Some? then FirstOf(a, ino) else FirstOf(b, ino)
    decreases |a|
  {
    if a == [] {
      assert a + b == b;
    } else {
      assert (a + b)[0] == a[0] && (a + b)[1..] == a[1..] + b;
      FirstOfSplit(a[1..], b, ino);
    }
  }

  lemma {:induction false} BackupsInOrder(env: Env, sc: Scene, current: Node, live: u64, bs: seq<RootBackup>, ino: u64)
    ensures FirstOf(FromBackups(env, sc, current, live, bs), ino) == FirstBackupFile(env, sc, current, live, bs, ino)
    decreases |bs|
  {
    hide FromBackup;
    if bs != [] {
      BackupsInOrder(env, sc, current, live, bs[1..], ino);
      FirstOfSplit(FromBackup(env, sc, current, live, bs[0]), FromBackups(env, sc, current, live, bs[1..]), ino);
    }
  }

  /** Some backup other than the live root reads as a leaf whose diff holds `ino`. */
  ghost predicate DeletedSince(sc: Scene, current: Node, live: u64, bs: seq<RootBackup>, ino: u64) {
    exists b :: b in bs && b.fsRoot != 0 && b.fsRoot != live
      && sc.Read(b.fsRoot).Ok? && Diffed(sc.Read(b.fsRoot).value, current, ino)
  }

  lemma BackupHolds(env: Env, sc: Scene, current: Node, live: u64, b: RootBackup, ino: u64)
    ensures FirstOf(FromBackup(env, sc, current, live, b), ino).Some?
      <==> b.fsRoot != 0 && b.fsRoot != live && sc.Read(b.fsRoot).Ok? && Diffed(sc.Read(b.fsRoot).value, current, ino)
  {
    hide ReadNode, RecoveredFrom, Diffed;
    FirstOfListed(FromBackup(env, sc, current, live, b), ino);
    if sc.Read(b.fsRoot).Ok? {
      DiffInodes(env, sc.Read(b.fsRoot).value, current, ino);
    }
  }

  lemma {:induction false} BackupsHold(env: Env, sc: Scene, current: Node, live: u64, bs: seq<RootBackup>, ino: u64)
    ensures FirstBackupFile(env, sc, current, live, bs, ino).Some? <==> DeletedSince(sc, current, live, bs, ino)
    decreases |bs|
  {
    hide FromBackup, ReadNode, Diffed;
    if bs != [] {
      assert bs == [bs[0]] + bs[1..];
      BackupHolds(env, sc, current, live, bs[0], ino);
      BackupsHold(env, sc, current, live, bs[1..], ino);
    }
  }

  /**
    Over a whole image: inodes are distinct; a file is recovered exactly when some
    backup generation other than the live one holds it and the current leaf does
    not; and its record is the one the lowest such slot gives.
  */
  lemma RecoveryExact(codecs: Codecs, image: seq<byte>, ino: u64)
    requires SceneOf(image).Some? && CurrentLeaf(SceneOf(image).value).Some?
    ensures DistinctInodes(RecoveredOver(codecs, image))
    ensures var sc := SceneOf(image).value; var (live, current) := CurrentLeaf(sc).value;
      FirstOf(RecoveredOver(codecs, image), ino)
        == FirstBackupFile(EnvOf(codecs, sc), sc, current, live, sc.Backups(), ino)
      && (Recovers(RecoveredOver(codecs, image), ino) <==> DeletedSince(sc, current, live, sc.Backups(), ino))
  {
    hide SceneOf, CurrentLeaf, AddNew, FromBackups, FirstBackupFile, DeletedSince, Recovers, BackupsIn;
    var sc := SceneOf(image).value;
    var (live, current) := CurrentLeaf(sc).value;
    var env := EnvOf(codecs, sc);
    AddNewKeepsFirst([], FromBackups(env, sc, current, live, sc.Backups()), ino);
    BackupsInOrder(env, sc, current, live, sc.Backups(), ino);
    BackupsHold(env, sc, current, live, sc.Backups(), ino);
    FirstOfListed(RecoveredOver(codecs, image), ino);
  }

  /**
    When the root tree names the live FS_TREE root, its leaf still fails to read
    exactly when the address has no place or its block leaves the image.
  */
  lemma LiveRootMayNotRead(sc: Scene)
    requires FsTreeRootAt(sc.image, sc.sb, sc.entries).Ok?
    ensures var at := Resolve(sc.sb, sc.entries, FsTreeRootAt(sc.image, sc.sb, sc.entries).value.bytenr);
      CurrentLeaf(sc).None? <==> at.None? || at.value + sc.sb.nodesize > |sc.image|
  {
    hide ReadNode, Resolve, FindItem, LeU64;
    ReadFails(sc.image, sc.sb, sc.entries, sc.sb.root);
    ReadFails(sc.image, sc.sb, sc.entries, FsTreeRootAt(sc.image, sc.sb, sc.entries).value.bytenr);
  }

  /** No inode of the current leaf is ever recovered. */
  lemma NothingLiveRecovered(codecs: Codecs, image: seq<byte>, i: nat)
    requires SceneOf(image).Some? && CurrentLeaf(SceneOf(image).value).Some? && i < |RecoveredOver(codecs, image)|
    ensures RecoveredOver(codecs, image)[i].inode !in InodeSet(CurrentLeaf(SceneOf(image).value).value.1.LeafItems())
  {
    hide SceneOf, CurrentLeaf, RecoveredOver, InodeSet;
    var ino := RecoveredOver(codecs, image)[i].inode;
    assert Recovers(RecoveredOver(codecs, image), ino);
    RecoveryExact(codecs, image, ino);
  }
}
