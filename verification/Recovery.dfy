/**
  Deleted-file recovery (forensic/src/lib.rs): an older copy-on-write generation of
  the FS_TREE diffed against the current one, the difference carved from its extents.
*/
module Recovery {
  import opened Wrappers
  import opened Bytes
  import opened Nodes
  import opened Superblocks
  import opened ChunkMaps
  import opened ChunkWalk
  import opened FsTrees
  import opened Extents
  import opened Backups
  import opened Audits
  import S = Sha256

  const FIRST_FREE_OBJECTID: u64 := 257

  /** The recovered path: a directory-entry name, or `inode_N`. */
  datatype FilePath = Named(name: seq<byte>) | Numbered(inode: u64)

  datatype RecoveredFile = RecoveredFile(
    path: FilePath, inode: u64, generation: u64, size: u64, content: seq<byte>, contentSha256: string)

  // ---- inodes and names of a leaf ----

  function InodeSet(items: seq<Item>): seq<u64> {
    if items == [] then []
    else if items[0].key.keyType == FsTrees.INODE_ITEM_KEY then [items[0].key.objectid] + InodeSet(items[1..])
    else InodeSet(items[1..])
  }

  /** The entry of a directory item, whichever directory it belongs to. */
  function NameIn(it: Item): Option<DirEntry> {
    if it.key.keyType == DIR_ITEM_KEY || it.key.keyType == DIR_INDEX_KEY then ParseDirItem(it.data) else None
  }

  /** The first name given to `ino` in item order. */
  function FirstName(items: seq<Item>, ino: u64): Option<seq<byte>> {
    if items == [] then None
    else if NameIn(items[0]).Some? && NameIn(items[0]).value.child == ino then Some(NameIn(items[0]).value.name)
    else FirstName(items[1..], ino)
  }

  function GetName(names: seq<(u64, seq<byte>)>, ino: u64): Option<seq<byte>> {
    if names == [] then None
    else if names[0].0 == ino then Some(names[0].1)
    else GetName(names[1..], ino)
  }

  lemma {:induction false} GetNameAppend(names: seq<(u64, seq<byte>)>, child: u64, name: seq<byte>, ino: u64)
    ensures GetName(names + [(child, name)], ino)
      == if GetName(names, ino).Some? then GetName(names, ino) else if child == ino then Some(name) else None
  {
    if names != [] {
      assert (names + [(child, name)])[1..] == names[1..] + [(child, name)];
      GetNameAppend(names[1..], child, name, ino);
    }
  }

  lemma {:induction false} NameListed(names: seq<(u64, seq<byte>)>, ino: u64)
    ensures GetName(names, ino).Some? <==> exists i :: 0 <= i < |names| && names[i].0 == ino
  {
    if names != [] {
      NameListed(names[1..], ino);
      if GetName(names[1..], ino).Some? {
        var i :| 0 <= i < |names[1..]| && names[1..][i].0 == ino;
        assert names[i + 1].0 == ino;
      }
      if i :| 0 <= i < |names| && names[i].0 == ino && i > 0 {
        assert names[1..][i - 1].0 == ino;
      }
    }
  }

  /** What the name map answers once the items still to come have been added. */
  ghost predicate NamesUpTo(names: seq<(u64, seq<byte>)>, rest: seq<Item>, all: seq<Item>) {
    forall ino: u64 {:trigger GetName(names, ino)} ::
      FirstName(all, ino) == if GetName(names, ino).Some? then GetName(names, ino) else FirstName(rest, ino)
  }

  /** The child-to-name map: the first entry for each child. */
  method DirNames(items: seq<Item>) returns (names: seq<(u64, seq<byte>)>)
    ensures forall ino: u64 :: GetName(names, ino) == FirstName(items, ino)
  {
    hide LeU64, LeU16;
    names := [];
    for i := 0 to |items|
      invariant NamesUpTo(names, items[i..], items)
    {
      var key, data := items[i].key, items[i].data;
      assert items[i..][0] == items[i] && items[i..][1..] == items[i + 1..];
      if key.keyType != DIR_ITEM_KEY && key.keyType != DIR_INDEX_KEY {
        continue;
      }
      if |data| < DIR_NAME {
        continue;
      }
      var child := LeU64(data, 0);
      var take := Min(LeU16(data, 27), |data| - DIR_NAME);
      var name := data[DIR_NAME..DIR_NAME + take];
      NameListed(names, child);
      if forall j :: 0 <= j < |names| ==> names[j].0 != child {
        forall ino: u64 {
          GetNameAppend(names, child, name, ino);
        }
        names := names + [(child, name)];
      }
    }
  }

  // ---- the diff of two leaves ----

  predicate HasExtent(items: seq<Item>, ino: u64) {
    exists i :: 0 <= i < |items| && IsExtentOf(items[i], ino)
  }

  /** `it` is the inode item of a user file with extents, gone from the current leaf. */
  predicate IsDeleted(old_: seq<Item>, current: seq<Item>, it: Item) {
    it.key.keyType == FsTrees.INODE_ITEM_KEY
    && it.key.objectid >= FIRST_FREE_OBJECTID
    && it.key.objectid !in InodeSet(current)
    && HasExtent(old_, it.key.objectid)
  }

  function ContentOf(env: Env, items: seq<Item>, ino: u64): seq<byte> {
    var r := FileContent(env, items, ino);
    if r.Ok? then r.value else []
  }

  function RecoveredPath(items: seq<Item>, ino: u64): FilePath {
    match FirstName(items, ino)
    case Some(name) => Named(name)
    case None => Numbered(ino)
  }

  function Carved(env: Env, old_: Node, it: Item): RecoveredFile {
    var ino := it.key.objectid;
    var content := ContentOf(env, old_.LeafItems(), ino);
    RecoveredFile(RecoveredPath(old_.LeafItems(), ino), ino, old_.header.generation,
      LeU64(it.data, INODE_SIZE_OFFSET), content, S.HexOf(S.Digest(content)))
  }

  function CarvedFrom(env: Env, old_: Node, current: Node, items: seq<Item>): seq<RecoveredFile> {
    if items == [] then []
    else if IsDeleted(old_.LeafItems(), current.LeafItems(), items[0])
    then [Carved(env, old_, items[0])] + CarvedFrom(env, old_, current, items[1..])
    else CarvedFrom(env, old_, current, items[1..])
  }

  /** What diffing two leaves recovers. */
  function RecoveredFrom(env: Env, old_: Node, current: Node): seq<RecoveredFile> {
    if old_.header.owner != FS_TREE_OBJECTID then []
    else CarvedFrom(env, old_, current, old_.LeafItems())
  }

  method CarveFile(env: Env, old_: Node, it: Item, names: seq<(u64, seq<byte>)>) returns (r: RecoveredFile)
    requires forall ino: u64 :: GetName(names, ino) == FirstName(old_.LeafItems(), ino)
    ensures r == Carved(env, old_, it)
  {
    hide FileContent, LeU64, S.Digest, S.HexOf;
    var ino := it.key.objectid;
    var read := ReadFileFromLeaf(env, old_, ino);
    var content := if read.Ok? then read.value else [];
    var sha := S.Sha256Hex(content);
    var name := GetName(names, ino);
    r := RecoveredFile(if name.Some? then Named(name.value) else Numbered(ino), ino, old_.header.generation,
      LeU64(it.data, INODE_SIZE_OFFSET), content, sha);
  }

  method RecoverDeletedFromLeaves(env: Env, old_: Node, current: Node) returns (out: seq<RecoveredFile>)
    ensures out == RecoveredFrom(env, old_, current)
  {
    hide Carved, InodeSet;
    if old_.header.owner != FS_TREE_OBJECTID {
      return [];
    }
    var currentInodes := InodeSet(current.LeafItems());
    var items := old_.LeafItems();
    var oldNames := DirNames(items);
    out := [];
    for i := 0 to |items|
      invariant out + CarvedFrom(env, old_, current, items[i..]) == RecoveredFrom(env, old_, current)
    {
      var key := items[i].key;
      assert items[i..][0] == items[i] && items[i..][1..] == items[i + 1..];
      if key.keyType != FsTrees.INODE_ITEM_KEY {
        continue;
      }
      if key.objectid < FIRST_FREE_OBJECTID {
        continue;
      }
      if key.objectid in currentInodes {
        continue;
      }
      if !HasExtent(items, key.objectid) {
        continue;
      }
      var rec := CarveFile(env, old_, items[i], oldNames);
      out := out + [rec];
    }
  }

  // ---- the whole image ----

  predicate Recovers(out: seq<RecoveredFile>, inode: u64) {
    exists i :: 0 <= i < |out| && out[i].inode == inode
  }

  /** `out` followed by the files of `more` whose inode it lacks. */
  function AddNew(out: seq<RecoveredFile>, more: seq<RecoveredFile>): seq<RecoveredFile>
    decreases |more|
  {
    if more == [] then out
    else AddNew(if Recovers(out, more[0].inode) then out else out + [more[0]], more[1..])
  }

  /** What one backup adds, given the current FS_TREE root and leaf. */
  function FromBackup(env: Env, sc: Scene, current: Node, live: u64, b: RootBackup): seq<RecoveredFile> {
    if b.fsRoot == 0 || b.fsRoot == live then []
    else
      match sc.Read(b.fsRoot)
      case Err(_) => []
      case Ok(old_) => RecoveredFrom(env, old_, current)
  }

  function FromBackups(env: Env, sc: Scene, current: Node, live: u64, bs: seq<RootBackup>): seq<RecoveredFile> {
    if bs == [] then [] else FromBackup(env, sc, current, live, bs[0]) + FromBackups(env, sc, current, live, bs[1..])
  }

  /** The live FS_TREE root's address and leaf. */
  function CurrentLeaf(sc: Scene): Option<(u64, Node)> {
    match FsTreeRootAt(sc.image, sc.sb, sc.entries)
    case Err(_) => None
    case Ok(root) =>
      match sc.Read(root.bytenr)
      case Err(_) => None
      case Ok(node) => Some((root.bytenr, node))
  }

  function EnvOf(codecs: Codecs, sc: Scene): Env {
    Env(codecs, sc.image, sc.entries, sc.sb.sectorsize)
  }

  function RecoveredOver(codecs: Codecs, image: seq<byte>): seq<RecoveredFile> {
    match SceneOf(image)
    case None => []
    case Some(sc) =>
      match CurrentLeaf(sc)
      case None => []
      case Some((live, current)) => AddNew([], FromBackups(EnvOf(codecs, sc), sc, current, live, sc.Backups()))
  }

  lemma {:induction false} AddNewSplit(out: seq<RecoveredFile>, a: seq<RecoveredFile>, b: seq<RecoveredFile>)
    ensures AddNew(out, a + b) == AddNew(AddNew(out, a), b)
    decreases |a|
  {
    hide Recovers;
    if a == [] {
      assert a + b == b;
    } else {
      assert (a + b)[0] == a[0] && (a + b)[1..] == a[1..] + b;
      AddNewSplit(if Recovers(out, a[0].inode) then out else out + [a[0]], a[1..], b);
    }
  }

  method MergeRecovered(out: seq<RecoveredFile>, found: seq<RecoveredFile>) returns (r: seq<RecoveredFile>)
    ensures r == AddNew(out, found)
  {
    hide Recovers;
    r := out;
    for i := 0 to |found|
      invariant AddNew(r, found[i..]) == AddNew(out, found)
    {
      assert found[i..][0] == found[i] && found[i..][1..] == found[i + 1..];
      if !Recovers(r, found[i].inode) {
        r := r + [found[i]];
      }
    }
  }

  lemma AddNothing(out: seq<RecoveredFile>)
    ensures AddNew(out, []) == out
  {
  }

  lemma NextBackup(env: Env, sc: Scene, current: Node, live: u64, bs: seq<RootBackup>, i: nat,
      out: seq<RecoveredFile>)
    requires i < |bs|
    ensures AddNew(out, FromBackups(env, sc, current, live, bs[i..]))
      == AddNew(AddNew(out, FromBackup(env, sc, current, live, bs[i])), FromBackups(env, sc, current, live, bs[i + 1..]))
    ensures AddNew(out, []) == out
  {
    hide FromBackup;
    assert bs[i..][0] == bs[i] && bs[i..][1..] == bs[i + 1..];
    AddNewSplit(out, FromBackup(env, sc, current, live, bs[i]), FromBackups(env, sc, current, live, bs[i + 1..]));
  }

  method RecoverFromBackups(env: Env, sc: Scene, current: Node, live: u64, bs: seq<RootBackup>)
    returns (out: seq<RecoveredFile>)
    ensures out == AddNew([], FromBackups(env, sc, current, live, bs))
  {
    hide AddNew, ReadNode, RecoveredFrom;
    out := [];
    assert bs[0..] == bs;
    for i := 0 to |bs|
      invariant AddNew(out, FromBackups(env, sc, current, live, bs[i..])) == AddNew([], FromBackups(env, sc, current, live, bs))
    {
      NextBackup(env, sc, current, live, bs, i, out);
      if bs[i].fsRoot == 0 || bs[i].fsRoot == live {
        continue;
      }
      var old_ := sc.Read(bs[i].fsRoot);
      if old_.Err? {
        continue;
      }
      var found := RecoverDeletedFromLeaves(env, old_.value, current);
      out := MergeRecovered(out, found);
    }
    AddNothing(out);
  }

  method RecoverDeleted(codecs: Codecs, image: seq<byte>) returns (out: seq<RecoveredFile>)
    ensures out == RecoveredOver(codecs, image)
  {
    hide ParsedSuperblock, WalkedOrEmpty, ReadNode, FsTreeRootAt, BackupsIn, AddNew, FromBackups;
    var block := SuperblockBlock(image);
    if block.None? {
      return [];
    }
    var parsed := ParsedSuperblock(block.value);
    if parsed.Err? {
      return [];
    }
    var sb := parsed.value;
    var entries := WalkOrDefault(image, sb);
    var sc := Scene(image, sb, entries);
    var live := FsTreeRootAt(image, sb, entries);
    if live.Err? {
      return [];
    }
    var current := sc.Read(live.value.bytenr);
    if current.Err? {
      return [];
    }
    var bs := ParseBackupRoots(block.value);
    out := RecoverFromBackups(EnvOf(codecs, sc), sc, current.value, live.value.bytenr, bs);
  }
}
