/** Inodes, directories and paths within an FS_TREE leaf (core/src/fstree.rs). */
module FsTrees {
  import opened Wrappers
  import opened Bytes
  import opened SysChunks
  import opened Nodes
  import opened Superblocks
  import opened ChunkMaps

  const FS_TREE_OBJECTID: u64 := 5
  const ROOT_DIR_OBJECTID: u64 := 256
  const INODE_ITEM_KEY: byte := 1
  const DIR_ITEM_KEY: byte := 84
  const DIR_INDEX_KEY: byte := 96
  const ROOT_ITEM_KEY: byte := 132
  const INODE_SIZE_OFFSET: nat := 16
  const DIR_NAME: nat := 30

  datatype Inode = Inode(objectid: u64, generation: u64, size: u64, mode: u32)
  {
    /** The mode's type bits mark a directory (0o40000 under the mask 0o170000). */
    predicate IsDir() {
      mode / 0x1000 % 16 == 4
    }
  }

  datatype DirEntry = DirEntry(name: seq<byte>, child: u64, itemType: byte)

  datatype FsTreeRoot = FsTreeRoot(bytenr: u64, level: byte, rootDirid: u64, generation: u64)

  function ParseInode(objectid: u64, data: seq<byte>): Inode {
    Inode(objectid, LeU64(data, 0), LeU64(data, INODE_SIZE_OFFSET), LeU32(data, 52))
  }

  /** The data of the first item with this key. */
  function FindItem(items: seq<Item>, objectid: u64, keyType: byte): Option<seq<byte>> {
    if items == [] then None
    else if items[0].key.objectid == objectid && items[0].key.keyType == keyType then Some(items[0].data)
    else FindItem(items[1..], objectid, keyType)
  }

  function ReadInode(items: seq<Item>, objectid: u64): Option<Inode> {
    match FindItem(items, objectid, INODE_ITEM_KEY)
    case Some(data) => Some(ParseInode(objectid, data))
    case None => None
  }

  /** Where the root tree says the FS_TREE's own root lives. */
  function FsTreeRootAt(image: seq<byte>, sb: Superblock, entries: seq<MapEntry>): Result<FsTreeRoot> {
    match ReadNode(image, sb, entries, sb.root)
    case Err(e) => Err(e)
    case Ok(node) =>
      match FindItem(node.LeafItems(), FS_TREE_OBJECTID, ROOT_ITEM_KEY)
      case Some(data) => Ok(FsTreeRoot(LeU64(data, 176), U8At(data, 238), LeU64(data, 168), LeU64(data, 160)))
      case None => Err(Truncated(FsTreeRootItem, FS_TREE_OBJECTID, node.header.nritems))
  }

  // ---- directories ----

  function ParseDirItem(data: seq<byte>): Option<DirEntry> {
    if |data| < DIR_NAME then None
    else
      var take := Min(LeU16(data, 27), |data| - DIR_NAME);
      Some(DirEntry(data[DIR_NAME..DIR_NAME + take], LeU64(data, 0), U8At(data, 29)))
  }

  /** A directory item as written; `between` is the rest of the location key, the transaction and the data length. */
  function DirItemBytes(e: DirEntry, between: seq<byte>): (bs: seq<byte>) {
    LeBytes(e.child, 8) + between + LeBytes(|e.name|, 2) + [e.itemType] + e.name
  }

  /** A written directory item reads back as its entry, whatever data follows the name. */
  lemma DirItemRoundTrip(e: DirEntry, between: seq<byte>, behind: seq<byte>)
    requires |between| == 19 && |e.name| < 0x1_0000
    ensures ParseDirItem(DirItemBytes(e, between) + behind) == Some(e)
  {
    hide LeBytes, LeValue, Field;
    Pow256Values();
    var piece := DirItemBytes(e, between);
    var data := piece + behind;
    assert data[0..|piece|] == piece;
    assert piece[0..8] == LeBytes(e.child, 8) && piece[27..29] == LeBytes(|e.name|, 2);
    ReadNumber(data, 0, piece, 0, 8, e.child);
    ReadNumber(data, 0, piece, 27, 2, |e.name|);
    assert data[29] == e.itemType;
    assert data[DIR_NAME..DIR_NAME + |e.name|] == e.name;
  }

  predicate IsDirKey(k: DiskKey, dir: u64) {
    k.objectid == dir && (k.keyType == DIR_ITEM_KEY || k.keyType == DIR_INDEX_KEY)
  }

  /** Every entry of a directory, each name once per item that carries it. */
  function RawEntries(items: seq<Item>, dir: u64): seq<DirEntry> {
    if items == [] then []
    else if IsDirKey(items[0].key, dir) && ParseDirItem(items[0].data).Some?
    then [ParseDirItem(items[0].data).value] + RawEntries(items[1..], dir)
    else RawEntries(items[1..], dir)
  }

  predicate SameEntry(a: DirEntry, b: DirEntry) {
    a.name == b.name && a.child == b.child
  }

  predicate Listed(out: seq<DirEntry>, e: DirEntry) {
    exists i :: 0 <= i < |out| && SameEntry(out[i], e)
  }

  /** `out` followed by what `raw` adds to it. */
  function Deduplicated(out: seq<DirEntry>, raw: seq<DirEntry>): seq<DirEntry>
    decreases |raw|
  {
    if raw == [] then out
    else if Listed(out, raw[0]) then Deduplicated(out, raw[1..])
    else Deduplicated(out + [raw[0]], raw[1..])
  }

  function Listing(items: seq<Item>, dir: u64): seq<DirEntry> {
    Deduplicated([], RawEntries(items, dir))
  }

  method ListDir(leaf: Node, dir: u64) returns (out: seq<DirEntry>)
    ensures out == Listing(leaf.LeafItems(), dir)
  {
    hide ParseDirItem, Listed;
    out := [];
    var items := leaf.LeafItems();
    for i := 0 to |items|
      invariant Deduplicated(out, RawEntries(items[i..], dir)) == Listing(items, dir)
    {
      var key, data := items[i].key, items[i].data;
      ghost var todo := items[i..];
      assert todo[0] == items[i] && todo[1..] == items[i + 1..];
      if key.objectid != dir || (key.keyType != DIR_ITEM_KEY && key.keyType != DIR_INDEX_KEY) {
        continue;
      }
      var entry := ParseDirItem(data);
      if entry.None? {
        continue;
      }
      assert RawEntries(todo, dir)[0] == entry.value && RawEntries(todo, dir)[1..] == RawEntries(items[i + 1..], dir);
      if Listed(out, entry.value) {
        continue;
      }
      out := out + [entry.value];
    }
  }

  /** The first entry with this name. */
  function FindName(entries: seq<DirEntry>, name: seq<byte>): Option<u64> {
    if entries == [] then None
    else if entries[0].name == name then Some(entries[0].child)
    else FindName(entries[1..], name)
  }

  lemma {:induction false} FindNameSplit(a: seq<DirEntry>, b: seq<DirEntry>, name: seq<byte>)
    ensures FindName(a + b, name) == if FindName(a, name).Some? then FindName(a, name) else FindName(b, name)
    decreases |a|
  {
    if a == [] {
      assert a + b == b;
    } else {
      FindNameSplit(a[1..], b, name);
      assert (a + b)[1..] == a[1..] + b;
    }
  }

  lemma {:induction false} ListedNameFound(out: seq<DirEntry>, e: DirEntry)
    requires Listed(out, e)
    ensures FindName(out, e.name).Some?
    decreases |out|
  {
    if out[0].name != e.name {
      var i :| 0 <= i < |out| && SameEntry(out[i], e);
      assert SameEntry(out[1..][i - 1], e);
      ListedNameFound(out[1..], e);
    }
  }

  /** De-duplicating never changes which child a name finds first. */
  lemma {:induction false} DeduplicationKeepsLookups(out: seq<DirEntry>, raw: seq<DirEntry>, name: seq<byte>)
    ensures FindName(Deduplicated(out, raw), name) == FindName(out + raw, name)
    decreases |raw|
  {
    hide Listed;
    if raw == [] {
      assert out + raw == out;
    } else {
      assert raw == [raw[0]] + raw[1..];
      FindNameSplit(out, raw, name);
      if Listed(out, raw[0]) {
        DeduplicationKeepsLookups(out, raw[1..], name);
        FindNameSplit(out, raw[1..], name);
        ListedNameFound(out, raw[0]);
      } else {
        DeduplicationKeepsLookups(out + [raw[0]], raw[1..], name);
        assert out + [raw[0]] + raw[1..] == out + raw;
      }
    }
  }

  ghost predicate NoRepeats(out: seq<DirEntry>) {
    forall i, j :: 0 <= i < j < |out| ==> !SameEntry(out[i], out[j])
  }

  lemma ListedCons(raw: seq<DirEntry>, e: DirEntry)
    requires raw != []
    ensures Listed(raw, e) <==> SameEntry(raw[0], e) || Listed(raw[1..], e)
  {
    if Listed(raw[1..], e) {
      var i :| 0 <= i < |raw[1..]| && SameEntry(raw[1..][i], e);
      assert SameEntry(raw[i + 1], e);
    }
    if Listed(raw, e) && !SameEntry(raw[0], e) {
      var i :| 0 <= i < |raw| && SameEntry(raw[i], e);
      assert SameEntry(raw[1..][i - 1], e);
    }
  }

  lemma ListedSnoc(out: seq<DirEntry>, x: DirEntry, e: DirEntry)
    ensures Listed(out + [x], e) <==> Listed(out, e) || SameEntry(x, e)
  {
    var more := out + [x];
    if Listed(out, e) {
      var i :| 0 <= i < |out| && SameEntry(out[i], e);
      assert SameEntry(more[i], e);
    }
    if SameEntry(x, e) {
      assert SameEntry(more[|out|], e);
    }
    if Listed(more, e) && !SameEntry(x, e) {
      var i :| 0 <= i < |more| && SameEntry(more[i], e);
      assert SameEntry(out[i], e);
    }
  }

  /** A listing repeats no (name, child) pair and loses none. */
  lemma {:induction false} DeduplicationExact(out: seq<DirEntry>, raw: seq<DirEntry>)
    requires NoRepeats(out)
    ensures NoRepeats(Deduplicated(out, raw))
    ensures forall e :: Listed(Deduplicated(out, raw), e) <==> Listed(out, e) || Listed(raw, e)
    decreases |raw|
  {
    if raw != [] {
      forall e
        ensures Listed(raw, e) <==> SameEntry(raw[0], e) || Listed(raw[1..], e)
      {
        ListedCons(raw, e);
      }
      if Listed(out, raw[0]) {
        DeduplicationExact(out, raw[1..]);
      } else {
        var more := out + [raw[0]];
        forall i, j | 0 <= i < j < |more|
          ensures !SameEntry(more[i], more[j])
        {
        }
        forall e
          ensures Listed(more, e) <==> Listed(out, e) || SameEntry(raw[0], e)
        {
          ListedSnoc(out, raw[0], e);
        }
        DeduplicationExact(more, raw[1..]);
      }
    }
  }

  ghost predicate UniqueNames(es: seq<DirEntry>) {
    forall i, j :: 0 <= i < j < |es| ==> es[i].name != es[j].name
  }

  ghost predicate OneChildPerName(es: seq<DirEntry>) {
    forall i, j :: 0 <= i < |es| && 0 <= j < |es| && es[i].name == es[j].name ==> es[i].child == es[j].child
  }

  lemma ListedAt(es: seq<DirEntry>, e: DirEntry) returns (i: nat)
    requires Listed(es, e)
    ensures i < |es| && SameEntry(es[i], e)
  {
    i :| 0 <= i < |es| && SameEntry(es[i], e);
  }

  lemma IsListed(es: seq<DirEntry>, i: nat)
    requires i < |es|
    ensures Listed(es, es[i])
  {
    assert SameEntry(es[i], es[i]);
  }

  lemma NothingListed()
    ensures forall e :: !Listed([], e)
  {
  }

  /** A listing surfaces each name once exactly when the directory's items never give one name two children. */
  lemma NamesListedOnce(raw: seq<DirEntry>)
    ensures UniqueNames(Deduplicated([], raw)) <==> OneChildPerName(raw)
  {
    hide Deduplicated, Listed;
    var r := Deduplicated([], raw);
    assert NoRepeats([]);
    DeduplicationExact([], raw);
    NothingListed();
    if UniqueNames(r) {
      forall i, j | 0 <= i < |raw| && 0 <= j < |raw| && raw[i].name == raw[j].name
        ensures raw[i].child == raw[j].child
      {
        IsListed(raw, i);
        IsListed(raw, j);
        var k := ListedAt(r, raw[i]);
        var l := ListedAt(r, raw[j]);
      }
    }
    if OneChildPerName(raw) {
      forall i, j | 0 <= i < j < |r|
        ensures r[i].name != r[j].name
      {
        IsListed(r, i);
        IsListed(r, j);
        var k := ListedAt(raw, r[i]);
        var l := ListedAt(raw, r[j]);
        assert !SameEntry(r[i], r[j]);
      }
    }
  }

  /** A written directory entry: an item of `dir`. */
  function EntryItem(dir: u64, index: u64, e: DirEntry): Item {
    Item(DiskKey(dir, DIR_INDEX_KEY, index), DirItemBytes(e, Zeros(19)))
  }

  lemma NoRawEntries(dir: u64)
    ensures RawEntries([], dir) == []
  {
  }

  lemma RawNext(items: seq<Item>, dir: u64, index: u64, e: DirEntry)
    requires items != [] && items[0] == EntryItem(dir, index, e) && |e.name| < 0x1_0000
    ensures RawEntries(items, dir) == [e] + RawEntries(items[1..], dir)
  {
    hide DirItemBytes, ParseDirItem, Zeros;
    DirItemRoundTrip(e, Zeros(19), []);
    assert items[0].data + [] == items[0].data;
  }

  /** Two written entries giving one name to two children: the directory lists the name twice. */
  lemma NameListedTwice(dir: u64, name: seq<byte>)
    requires |name| < 0x1_0000
    ensures var items := [EntryItem(dir, 2, DirEntry(name, 257, 1)), EntryItem(dir, 3, DirEntry(name, 258, 1))];
      Listing(items, dir) == [DirEntry(name, 257, 1), DirEntry(name, 258, 1)] && !UniqueNames(Listing(items, dir))
  {
    hide EntryItem, RawEntries;
    var first, second := DirEntry(name, 257, 1), DirEntry(name, 258, 1);
    var raw := [first, second];
    var items := [EntryItem(dir, 2, first), EntryItem(dir, 3, second)];
    RawNext(items, dir, 2, first);
    RawNext(items[1..], dir, 3, second);
    NoRawEntries(dir);
    assert items[1..][1..] == [];
    assert RawEntries(items, dir) == raw;
    assert raw[1..] == [second] && [] + [first] == [first] && [first] + [second] == raw;
    assert !Listed([], first) && !Listed([first], second);
    assert Deduplicated([], raw) == Deduplicated([first], [second]);
    assert [second][1..] == [];
    assert Deduplicated([first], [second]) == Deduplicated(raw, []) == raw;
    assert raw[0].name == raw[1].name;
  }

  // ---- paths ----

  const SLASH: byte := 47

  /** One more character in front of a split path. */
  function Prepend(c: byte, parts: seq<seq<byte>>): (r: seq<seq<byte>>)
    requires |parts| >= 1
    ensures |r| >= 1
  {
    if c == SLASH then [[]] + parts else [[c] + parts[0]] + parts[1..]
  }

  /** `path.split('/')`. */
  function Split(path: seq<byte>): (parts: seq<seq<byte>>)
    ensures |parts| >= 1
  {
    if path == [] then [[]] else Prepend(path[0], Split(path[1..]))
  }

  function NonEmpty(parts: seq<seq<byte>>): seq<seq<byte>> {
    if parts == [] then []
    else if parts[0] == [] then NonEmpty(parts[1..])
    else [parts[0]] + NonEmpty(parts[1..])
  }

  function Components(path: seq<byte>): seq<seq<byte>> {
    NonEmpty(Split(path))
  }

  function ResolveFrom(items: seq<Item>, current: u64, inode: Inode, parts: seq<seq<byte>>): Option<(u64, Inode)>
    decreases |parts|
  {
    if parts == [] then Some((current, inode))
    else if !inode.IsDir() then None
    else
      match FindName(Listing(items, current), parts[0])
      case None => None
      case Some(child) =>
        match ReadInode(items, child)
        case None => None
        case Some(next) => ResolveFrom(items, child, next, parts[1..])
  }

  function Resolved(items: seq<Item>, path: seq<byte>): Option<(u64, Inode)> {
    match ReadInode(items, ROOT_DIR_OBJECTID)
    case None => None
    case Some(inode) => ResolveFrom(items, ROOT_DIR_OBJECTID, inode, Components(path))
  }

  /** `entries.into_iter().find(..)`. */
  method FindEntry(entries: seq<DirEntry>, name: seq<byte>) returns (child: Option<u64>)
    ensures child == FindName(entries, name)
  {
    for i := 0 to |entries|
      invariant FindName(entries[i..], name) == FindName(entries, name)
    {
      assert entries[i..][0] == entries[i] && entries[i..][1..] == entries[i + 1..];
      if entries[i].name == name {
        return Some(entries[i].child);
      }
    }
    return None;
  }

  method ReadByPath(leaf: Node, path: seq<byte>) returns (r: Option<(u64, Inode)>)
    ensures r == Resolved(leaf.LeafItems(), path)
  {
    hide Listing, ReadInode, FindName;
    ghost var items := leaf.LeafItems();
    var current := ROOT_DIR_OBJECTID;
    var start := ReadInode(leaf.LeafItems(), current);
    if start.None? {
      return None;
    }
    var inode := start.value;
    var parts := Components(path);
    for i := 0 to |parts|
      invariant ResolveFrom(items, current, inode, parts[i..]) == Resolved(items, path)
    {
      assert parts[i..][0] == parts[i] && parts[i..][1..] == parts[i + 1..];
      if !inode.IsDir() {
        return None;
      }
      var entries := ListDir(leaf, current);
      var child := FindEntry(entries, parts[i]);
      if child.None? {
        return None;
      }
      var next := ReadInode(leaf.LeafItems(), child.value);
      if next.None? {
        return None;
      }
      current, inode := child.value, next.value;
    }
    return Some((current, inode));
  }

  lemma PrependSplit(c: byte, a: seq<seq<byte>>, b: seq<seq<byte>>)
    requires |a| >= 1
    ensures Prepend(c, a + b) == Prepend(c, a) + b
  {
    assert (a + b)[0] == a[0] && (a + b)[1..] == a[1..] + b;
  }

  lemma {:induction false} SplitJoin(p: seq<byte>, q: seq<byte>)
    ensures Split(p + [SLASH] + q) == Split(p) + Split(q)
    decreases |p|
  {
    var whole := p + [SLASH] + q;
    if p == [] {
      assert whole[0] == SLASH && whole[1..] == q;
    } else {
      SplitJoin(p[1..], q);
      assert whole[0] == p[0] && whole[1..] == p[1..] + [SLASH] + q;
      PrependSplit(p[0], Split(p[1..]), Split(q));
    }
  }

  lemma {:induction false} NonEmptySplit(a: seq<seq<byte>>, b: seq<seq<byte>>)
    ensures NonEmpty(a + b) == NonEmpty(a) + NonEmpty(b)
    decreases |a|
  {
    if a == [] {
      assert a + b == b;
    } else {
      NonEmptySplit(a[1..], b);
      assert (a + b)[1..] == a[1..] + b;
    }
  }

  function Slashes(n: nat): (s: seq<byte>)
    ensures |s| == n
  {
    if n == 0 then [] else [SLASH] + Slashes(n - 1)
  }

  lemma EmptyPath()
    ensures Components([]) == []
  {
  }

  /** Any run of slashes joins two paths' components; with an empty side it changes nothing. */
  lemma {:induction false} SlashesJoin(p: seq<byte>, n: nat, q: seq<byte>)
    ensures Components(p + Slashes(n + 1) + q) == Components(p) + Components(q)
    decreases n
  {
    hide Split, NonEmpty;
    if n == 0 {
      assert Slashes(1) == [SLASH];
      SplitJoin(p, q);
      NonEmptySplit(Split(p), Split(q));
    } else {
      SlashesJoin(p + [SLASH], n - 1, q);
      assert p + [SLASH] + Slashes(n) + q == p + Slashes(n + 1) + q;
      SplitJoin(p, []);
      assert p + [SLASH] + [] == p + [SLASH];
      NonEmptySplit(Split(p), Split([]));
      EmptyPath();
    }
  }

  lemma {:induction false} ResolveComposes(items: seq<Item>, current: u64, inode: Inode, a: seq<seq<byte>>, b: seq<seq<byte>>)
    ensures ResolveFrom(items, current, inode, a + b)
      == match ResolveFrom(items, current, inode, a)
         case None => None
         case Some((c, i)) => ResolveFrom(items, c, i, b)
    decreases |a|
  {
    hide Listing, ReadInode, FindName;
    if a == [] {
      assert a + b == b;
    } else {
      assert (a + b)[0] == a[0] && (a + b)[1..] == a[1..] + b;
      if inode.IsDir() && FindName(Listing(items, current), a[0]).Some? {
        var child := FindName(Listing(items, current), a[0]).value;
        if ReadInode(items, child).Some? {
          ResolveComposes(items, child, ReadInode(items, child).value, a[1..], b);
        }
      }
    }
  }

  /** Resolving `p/q` is resolving `q` from wherever `p` resolves to, for any run of slashes between. */
  lemma PathComposes(items: seq<Item>, p: seq<byte>, n: nat, q: seq<byte>)
    ensures Resolved(items, p + Slashes(n + 1) + q)
      == match Resolved(items, p)
         case None => None
         case Some((c, i)) => ResolveFrom(items, c, i, Components(q))
  {
    hide Components, Slashes, ResolveFrom;
    SlashesJoin(p, n, q);
    match ReadInode(items, ROOT_DIR_OBJECTID)
    case None =>
    case Some(inode) => ResolveComposes(items, ROOT_DIR_OBJECTID, inode, Components(p), Components(q));
  }

  /** Leading, trailing and repeated slashes never change what a path resolves to. */
  lemma SlashesIgnored(items: seq<Item>, p: seq<byte>, n: nat, q: seq<byte>)
    ensures Resolved(items, p + Slashes(n + 1) + q) == Resolved(items, p + [SLASH] + q)
    ensures Resolved(items, Slashes(n) + p) == Resolved(items, p)
    ensures Resolved(items, p + Slashes(n)) == Resolved(items, p)
  {
    hide Split, NonEmpty, ResolveFrom;
    SlashesJoin(p, n, q);
    SlashesJoin(p, 0, q);
    assert Slashes(1) == [SLASH];
    EmptyPath();
    if n == 0 {
      assert Slashes(0) + p == p && p + Slashes(0) == p;
    } else {
      SlashesJoin([], n - 1, p);
      SlashesJoin(p, n - 1, []);
      assert [] + Slashes(n) + p == Slashes(n) + p && p + Slashes(n) + [] == p + Slashes(n);
      assert [] + Components(p) == Components(p) && Components(p) + [] == Components(p);
    }
  }

  predicate ProperName(name: seq<byte>) {
    name != [] && SLASH !in name
  }

  ghost predicate ProperNames(names: seq<seq<byte>>) {
    forall i :: 0 <= i < |names| ==> ProperName(names[i])
  }

  function PathOf(names: seq<seq<byte>>): seq<byte> {
    if names == [] then [] else [SLASH] + names[0] + PathOf(names[1..])
  }

  lemma {:induction false} SplitName(name: seq<byte>)
    requires SLASH !in name
    ensures Split(name) == [name]
    decreases |name|
  {
    if name != [] {
      SplitName(name[1..]);
      assert name == [name[0]] + name[1..];
    }
  }

  /** Writing names as a path and taking it apart gives the names back. */
  lemma {:induction false} ComponentsOfPath(names: seq<seq<byte>>)
    requires ProperNames(names)
    ensures Components(PathOf(names)) == names
    decreases |names|
  {
    if names == [] {
      EmptyPath();
    } else {
      var name, rest := names[0], names[1..];
      assert names == [name] + rest;
      assert ProperNames(rest);
      ComponentsOfPath(rest);
      assert ProperName(name);
      SplitName(name);
      assert NonEmpty([name][1..]) == [];
      assert Components(name) == [name];
      if rest == [] {
        assert PathOf(names) == [SLASH] + name + [];
        SplitJoin([], name);
        assert [] + [SLASH] + name == PathOf(names);
        NonEmptySplit(Split([]), Split(name));
      } else {
        var tail := rest[0] + PathOf(rest[1..]);
        assert PathOf(rest) == [SLASH] + tail;
        assert PathOf(names) == [SLASH] + name + ([SLASH] + tail);
        assert PathOf(names) == [] + [SLASH] + (name + [SLASH] + tail);
        SplitJoin([], name + [SLASH] + tail);
        NonEmptySplit(Split([]), Split(name + [SLASH] + tail));
        SplitJoin(name, tail);
        NonEmptySplit(Split(name), Split(tail));
        SplitJoin([], tail);
        assert [] + [SLASH] + tail == PathOf(rest);
        NonEmptySplit(Split([]), Split(tail));
      }
    }
  }

  lemma {:induction false} SplitHasNoSlash(path: seq<byte>)
    ensures forall i :: 0 <= i < |Split(path)| ==> SLASH !in Split(path)[i]
    decreases |path|
  {
    if path != [] {
      SplitHasNoSlash(path[1..]);
    }
  }

  lemma {:induction false} NonEmptyKeeps(parts: seq<seq<byte>>)
    requires forall i :: 0 <= i < |parts| ==> SLASH !in parts[i]
    ensures ProperNames(NonEmpty(parts))
    decreases |parts|
  {
    if parts != [] {
      assert forall i :: 0 <= i < |parts[1..]| ==> parts[1..][i] == parts[i + 1];
      NonEmptyKeeps(parts[1..]);
    }
  }

  /** Every path is, for resolution, the canonical path of its components. */
  lemma CanonicalPath(items: seq<Item>, path: seq<byte>)
    ensures ProperNames(Components(path))
    ensures Resolved(items, PathOf(Components(path))) == Resolved(items, path)
  {
    hide ResolveFrom, ReadInode;
    SplitHasNoSlash(path);
    NonEmptyKeeps(Split(path));
    ComponentsOfPath(Components(path));
  }
}
