/**
  Logical-to-physical translation (core/src/node.rs, core/src/chunk.rs) as a
  mathematical address map.
*/
module ChunkMaps {
  import opened Wrappers
  import opened Bytes
  import opened SysChunks
  import opened Nodes
  import opened Superblocks

  datatype MapEntry = MapEntry(logicalStart: u64, length: u64, stripes: seq<(u64, u64)>)

  predicate Overflows(e: MapEntry) {
    e.logicalStart + e.length >= U64_LIMIT
  }

  predicate Covers(e: MapEntry, a: u64) {
    e.logicalStart <= a < e.logicalStart + e.length
  }

  /** Where `a` lands on the first stripe, if that is representable. */
  function Place(e: MapEntry, a: u64): Option<(u64, u64)>
    requires Covers(e, a)
  {
    if e.stripes == [] then None
    else if e.stripes[0].1 + (a - e.logicalStart) >= U64_LIMIT then None
    else Some((e.stripes[0].0, e.stripes[0].1 + (a - e.logicalStart)))
  }

  /** The lookup: the first entry that overflows or covers `a` decides. */
  function Translate(entries: seq<MapEntry>, a: u64): Option<(u64, u64)> {
    if entries == [] then None
    else if Overflows(entries[0]) then None
    else if Covers(entries[0], a) then Place(entries[0], a)
    else Translate(entries[1..], a)
  }

  function StripePairs(ss: seq<Stripe>): (r: seq<(u64, u64)>)
    ensures |r| == |ss|
  {
    if ss == [] then [] else [(ss[0].devid, ss[0].offset)] + StripePairs(ss[1..])
  }

  function EntriesOfChunks(cs: seq<(u64, Chunk)>): seq<MapEntry> {
    if cs == [] then []
    else [MapEntry(cs[0].0, cs[0].1.length, StripePairs(cs[0].1.stripes))] + EntriesOfChunks(cs[1..])
  }

  /** The entries a leaf contributes. */
  function NodeEntries(node: Node): seq<MapEntry> {
    EntriesOfChunks(node.ChunkItems())
  }

  /** The bootstrap map seeded from the superblock. */
  function BootEntries(cs: seq<SysChunk>): seq<MapEntry> {
    if cs == [] then []
    else [MapEntry(cs[0].key.offset, cs[0].length, StripePairs(cs[0].stripes))] + BootEntries(cs[1..])
  }

  // ---- reading a node through the map ----

  /** The fallback lookup of `read_node`: the first bootstrap chunk that answers. */
  function FindMap(cs: seq<SysChunk>, a: u64): Option<u64> {
    if cs == [] then None
    else if TranslateBy(cs[0], a).Some? then TranslateBy(cs[0], a)
    else FindMap(cs[1..], a)
  }

  function Resolve(sb: Superblock, entries: seq<MapEntry>, logical: u64): Option<u64> {
    match Translate(entries, logical)
    case Some((_, phys)) => Some(phys)
    case None => FindMap(sb.sysChunks, logical)
  }

  function ReadNode(image: seq<byte>, sb: Superblock, entries: seq<MapEntry>, logical: u64): Result<Node> {
    match Resolve(sb, entries, logical)
    case None => Err(Truncated(LogicalAddress, logical, 0))
    case Some(phys) =>
      if phys + sb.nodesize > |image|
      then Err(Truncated(NodeBlock, Min(phys + sb.nodesize, U64_LIMIT - 1), |image|))
      else ParsedNode(image[phys..phys + sb.nodesize])
  }

  /** The address has no place, or the block there leaves the image or is too short for a header. */
  predicate Unreadable(image: seq<byte>, sb: Superblock, entries: seq<MapEntry>, logical: u64) {
    var at := Resolve(sb, entries, logical);
    at.None? || at.value + sb.nodesize > |image| || sb.nodesize < HEADER_SIZE
  }

  /** Reading fails exactly for an unreadable address. */
  lemma ReadFails(image: seq<byte>, sb: Superblock, entries: seq<MapEntry>, logical: u64)
    ensures ReadNode(image, sb, entries, logical).Err? <==> Unreadable(image, sb, entries, logical)
  {
    hide Resolve, ParseHeader, ParsedBody;
  }

  // ---- the lookup against a simple address map ----

  /** The first chunk that covers `a`, chunks that leave the address space aside. */
  function FirstCover(entries: seq<MapEntry>, a: u64): Option<(u64, u64)> {
    if entries == [] then None
    else if !Overflows(entries[0]) && Covers(entries[0], a) then Place(entries[0], a)
    else FirstCover(entries[1..], a)
  }

  predicate Answers(e: MapEntry, a: u64) {
    !Overflows(e) && Covers(e, a)
  }

  /** An overflowing entry hides a later chunk that would have answered. */
  ghost predicate Hidden(entries: seq<MapEntry>, a: u64) {
    exists i, j {:trigger Overflows(entries[i]), Answers(entries[j], a)} ::
      0 <= i < j < |entries| && Overflows(entries[i]) && Answers(entries[j], a)
      && Place(entries[j], a).Some?
      && forall k :: 0 <= k < j ==> !Answers(entries[k], a)
  }

  /** Stepping past a first entry that does not answer. */
  lemma HiddenTail(entries: seq<MapEntry>, a: u64)
    requires entries != [] && !Overflows(entries[0]) && !Answers(entries[0], a)
    ensures Hidden(entries, a) <==> Hidden(entries[1..], a)
  {
    var tail := entries[1..];
    if Hidden(entries, a) {
      var i, j :| 0 <= i < j < |entries| && Overflows(entries[i]) && Answers(entries[j], a)
        && Place(entries[j], a).Some? && forall k :: 0 <= k < j ==> !Answers(entries[k], a);
      assert Overflows(tail[i - 1]) && Answers(tail[j - 1], a);
      assert forall k :: 0 <= k < j - 1 ==> tail[k] == entries[k + 1];
    }
    if Hidden(tail, a) {
      var i, j :| 0 <= i < j < |tail| && Overflows(tail[i]) && Answers(tail[j], a)
        && Place(tail[j], a).Some? && forall k :: 0 <= k < j ==> !Answers(tail[k], a);
      assert Overflows(entries[i + 1]) && Answers(entries[j + 1], a);
      forall k | 0 <= k < j + 1
        ensures !Answers(entries[k], a)
      {
        if k > 0 {
          assert entries[k] == tail[k - 1];
        }
      }
    }
  }

  lemma {:induction false} FirstCoverWitness(entries: seq<MapEntry>, a: u64) returns (j: nat)
    requires FirstCover(entries, a).Some?
    ensures j < |entries| && Answers(entries[j], a) && Place(entries[j], a) == FirstCover(entries, a)
    ensures forall k :: 0 <= k < j ==> !Answers(entries[k], a)
    decreases |entries|
  {
    if Answers(entries[0], a) {
      j := 0;
    } else {
      j := FirstCoverWitness(entries[1..], a);
      j := j + 1;
      assert forall k :: 0 < k < j ==> entries[k] == entries[1..][k - 1];
    }
  }

  lemma {:induction false} FirstCoverAt(entries: seq<MapEntry>, a: u64, j: nat)
    requires j < |entries| && Answers(entries[j], a)
    requires forall k :: 0 <= k < j ==> !Answers(entries[k], a)
    ensures FirstCover(entries, a) == Place(entries[j], a)
    decreases |entries|
  {
    if j > 0 {
      assert forall k :: 0 <= k < j - 1 ==> entries[1..][k] == entries[k + 1];
      FirstCoverAt(entries[1..], a, j - 1);
    }
  }

  /** The lookup is the simple address map exactly where no overflowing entry comes first. */
  lemma {:induction false} LookupIsFirstCover(entries: seq<MapEntry>, a: u64)
    ensures Translate(entries, a) == FirstCover(entries, a) <==> !Hidden(entries, a)
    decreases |entries|
  {
    if entries != [] {
      if Overflows(entries[0]) {
        if FirstCover(entries, a).Some? {
          var j := FirstCoverWitness(entries, a);
          assert Overflows(entries[0]) && Answers(entries[j], a);
        }
        if Hidden(entries, a) {
          var i, j :| 0 <= i < j < |entries| && Overflows(entries[i]) && Answers(entries[j], a)
            && Place(entries[j], a).Some? && forall k :: 0 <= k < j ==> !Answers(entries[k], a);
          FirstCoverAt(entries, a, j);
        }
      } else if Covers(entries[0], a) {
        assert Answers(entries[0], a);
      } else {
        HiddenTail(entries, a);
        LookupIsFirstCover(entries[1..], a);
      }
    }
  }

  /** A successful lookup is answered by one entry, and nothing before it overflows or covers. */
  lemma {:induction false} TranslateWitness(entries: seq<MapEntry>, a: u64) returns (i: nat)
    requires Translate(entries, a).Some?
    ensures i < |entries| && Answers(entries[i], a) && Place(entries[i], a) == Translate(entries, a)
    ensures forall k :: 0 <= k < i ==> !Overflows(entries[k]) && !Covers(entries[k], a)
    decreases |entries|
  {
    if Covers(entries[0], a) {
      i := 0;
    } else {
      i := TranslateWitness(entries[1..], a);
      i := i + 1;
      assert forall k :: 0 < k < i ==> entries[k] == entries[1..][k - 1];
    }
  }

  lemma {:induction false} TranslateAt(entries: seq<MapEntry>, a: u64, i: nat)
    requires i < |entries| && Answers(entries[i], a)
    requires forall k :: 0 <= k < i ==> !Overflows(entries[k]) && !Covers(entries[k], a)
    ensures Translate(entries, a) == Place(entries[i], a)
    decreases |entries|
  {
    if i > 0 {
      assert forall k :: 0 <= k < i - 1 ==> entries[1..][k] == entries[k + 1];
      TranslateAt(entries[1..], a, i - 1);
    }
  }

  /** Appending chunks never changes a successful lookup. */
  lemma AppendStable(entries: seq<MapEntry>, more: seq<MapEntry>, a: u64)
    requires Translate(entries, a).Some?
    ensures Translate(entries + more, a) == Translate(entries, a)
  {
    var i := TranslateWitness(entries, a);
    assert (entries + more)[i] == entries[i];
    assert forall k :: 0 <= k < i ==> (entries + more)[k] == entries[k];
    TranslateAt(entries + more, a, i);
  }

  // ---- order independence ----

  predicate Disjoint(e: MapEntry, f: MapEntry) {
    e.logicalStart + e.length <= f.logicalStart || f.logicalStart + f.length <= e.logicalStart
    || e.length == 0 || f.length == 0
  }

  ghost predicate PairwiseDisjoint(entries: seq<MapEntry>) {
    forall i, j :: 0 <= i < j < |entries| ==> Disjoint(entries[i], entries[j])
  }

  ghost predicate NoOverflow(entries: seq<MapEntry>) {
    forall e :: e in entries ==> !Overflows(e)
  }

  lemma {:induction false} NoneCovers(entries: seq<MapEntry>, a: u64)
    requires NoOverflow(entries) && forall e :: e in entries ==> !Covers(e, a)
    ensures Translate(entries, a) == None
    decreases |entries|
  {
    if entries != [] {
      NoneCovers(entries[1..], a);
    }
  }

  /** With disjoint chunks, whichever entry covers an address answers for it. */
  lemma CoveringEntryAnswers(entries: seq<MapEntry>, a: u64, e: MapEntry)
    requires NoOverflow(entries) && PairwiseDisjoint(entries) && e in entries && Covers(e, a)
    ensures Translate(entries, a) == Place(e, a)
  {
    var i :| 0 <= i < |entries| && entries[i] == e;
    forall k | 0 <= k < i
      ensures !Overflows(entries[k]) && !Covers(entries[k], a)
    {
      assert entries[k] in entries;
      assert Disjoint(entries[k], entries[i]);
    }
    TranslateAt(entries, a, i);
  }

  lemma {:induction false} FirstCoverOrNone(entries: seq<MapEntry>, a: u64) returns (e: Option<MapEntry>)
    requires NoOverflow(entries)
    ensures e.None? ==> forall x :: x in entries ==> !Covers(x, a)
    ensures e.Some? ==> e.value in entries && Covers(e.value, a) && Translate(entries, a) == Place(e.value, a)
    decreases |entries|
  {
    if entries == [] {
      e := None;
    } else if Covers(entries[0], a) {
      e := Some(entries[0]);
    } else {
      e := FirstCoverOrNone(entries[1..], a);
    }
  }

  /** Any order of the same disjoint chunks translates every address alike. */
  lemma OrderIndependent(entries: seq<MapEntry>, shuffled: seq<MapEntry>, a: u64)
    requires multiset(entries) == multiset(shuffled)
    requires NoOverflow(entries) && PairwiseDisjoint(entries)
    ensures Translate(entries, a) == Translate(shuffled, a)
  {
    forall e
      ensures e in entries <==> e in shuffled
    {
      assert e in entries <==> e in multiset(entries);
      assert e in shuffled <==> e in multiset(shuffled);
    }
    var hit := FirstCoverOrNone(shuffled, a);
    if hit.Some? {
      CoveringEntryAnswers(entries, a, hit.value);
    } else {
      NoneCovers(entries, a);
      NoneCovers(shuffled, a);
    }
  }

  // ---- injectivity ----

  /** The chunk has a first stripe and its physical range is representable. */
  predicate Placeable(e: MapEntry) {
    e.stripes != [] && e.stripes[0].1 + e.length <= U64_LIMIT
  }

  /** The first-stripe ranges of two chunks share a byte of one device. */
  predicate Collide(e: MapEntry, f: MapEntry) {
    e.stripes != [] && f.stripes != [] && e.length > 0 && f.length > 0 && e.stripes[0].0 == f.stripes[0].0
    && e.stripes[0].1 < f.stripes[0].1 + f.length && f.stripes[0].1 < e.stripes[0].1 + e.length
  }

  ghost predicate AllPlaceable(entries: seq<MapEntry>) {
    forall e :: e in entries ==> Placeable(e)
  }

  ghost predicate NoCollisions(entries: seq<MapEntry>) {
    forall i, j :: 0 <= i < j < |entries| ==> !Collide(entries[i], entries[j])
  }

  ghost predicate OneToOne(entries: seq<MapEntry>) {
    forall a: u64, b: u64 :: Translate(entries, a).Some? && Translate(entries, a) == Translate(entries, b) ==> a == b
  }

  lemma SharedByteCollides(e: MapEntry, f: MapEntry, a: u64, b: u64)
    requires Covers(e, a) && Covers(f, b) && Place(e, a).Some? && Place(e, a) == Place(f, b)
    ensures Collide(e, f) && Collide(f, e)
  {
  }

  lemma SameByteSameAddress(entries: seq<MapEntry>, a: u64, b: u64)
    requires NoCollisions(entries)
    requires Translate(entries, a).Some? && Translate(entries, a) == Translate(entries, b)
    ensures a == b
  {
    var i := TranslateWitness(entries, a);
    var j := TranslateWitness(entries, b);
    if i != j {
      SharedByteCollides(entries[i], entries[j], a, b);
    }
  }

  lemma CollisionSharesByte(entries: seq<MapEntry>, i: nat, j: nat)
    requires NoOverflow(entries) && PairwiseDisjoint(entries) && AllPlaceable(entries)
    requires i < j < |entries| && Collide(entries[i], entries[j])
    ensures !OneToOne(entries)
  {
    var e, f := entries[i], entries[j];
    assert e in entries && f in entries && Disjoint(e, f);
    assert !Overflows(e) && !Overflows(f);
    var p := Max(e.stripes[0].1, f.stripes[0].1);
    var a: u64 := e.logicalStart + (p - e.stripes[0].1);
    var b: u64 := f.logicalStart + (p - f.stripes[0].1);
    CoveringEntryAnswers(entries, a, e);
    CoveringEntryAnswers(entries, b, f);
    assert Translate(entries, a) == Translate(entries, b) && a != b;
  }

  /** Disjoint chunks map addresses one to one exactly when their first-stripe ranges do not collide. */
  lemma OneToOneIffNoCollisions(entries: seq<MapEntry>)
    requires NoOverflow(entries) && PairwiseDisjoint(entries) && AllPlaceable(entries)
    ensures OneToOne(entries) <==> NoCollisions(entries)
  {
    if NoCollisions(entries) {
      forall a: u64, b: u64 | Translate(entries, a).Some? && Translate(entries, a) == Translate(entries, b)
        ensures a == b
      {
        SameByteSameAddress(entries, a, b);
      }
    } else {
      var i, j :| 0 <= i < j < |entries| && Collide(entries[i], entries[j]);
      CollisionSharesByte(entries, i, j);
    }
  }

  // ---- the two bootstrap translations ----

  function EntryOf(c: SysChunk): MapEntry {
    MapEntry(c.key.offset, c.length, StripePairs(c.stripes))
  }

  /** What the map form answers at this chunk is what the chunk itself answers. */
  lemma EntryAgrees(c: SysChunk, a: u64)
    ensures TranslateBy(c, a).Some? <==> Answers(EntryOf(c), a) && Place(EntryOf(c), a).Some?
    ensures TranslateBy(c, a).Some? ==> Place(EntryOf(c), a).value.1 == TranslateBy(c, a).value
  {
  }

  function Physical(r: Option<(u64, u64)>): Option<u64> {
    if r.Some? then Some(r.value.1) else None
  }

  /** The map form stops at this chunk without an answer. */
  predicate Stops(c: SysChunk, a: u64) {
    Overflows(EntryOf(c)) || (Covers(EntryOf(c), a) && Place(EntryOf(c), a).None?)
  }

  /** A chunk that blocks the map form comes before the first one that answers. */
  ghost predicate BlockedBefore(cs: seq<SysChunk>, a: u64) {
    exists i, j {:trigger Stops(cs[i], a), TranslateBy(cs[j], a)} ::
      0 <= i < j < |cs| && Stops(cs[i], a) && TranslateBy(cs[j], a).Some?
      && forall k :: 0 <= k < j ==> TranslateBy(cs[k], a).None?
  }

  lemma {:induction false} FindMapWitness(cs: seq<SysChunk>, a: u64) returns (j: nat)
    requires FindMap(cs, a).Some?
    ensures j < |cs| && TranslateBy(cs[j], a) == FindMap(cs, a)
    ensures forall k :: 0 <= k < j ==> TranslateBy(cs[k], a).None?
    decreases |cs|
  {
    if TranslateBy(cs[0], a).Some? {
      j := 0;
    } else {
      j := FindMapWitness(cs[1..], a);
      j := j + 1;
      assert forall k :: 0 < k < j ==> cs[k] == cs[1..][k - 1];
    }
  }

  lemma {:induction false} FindMapAt(cs: seq<SysChunk>, a: u64, j: nat)
    requires j < |cs| && TranslateBy(cs[j], a).Some?
    ensures FindMap(cs, a).Some?
    decreases |cs|
  {
    if j > 0 && TranslateBy(cs[0], a).None? {
      assert cs[1..][j - 1] == cs[j];
      FindMapAt(cs[1..], a, j - 1);
    }
  }

  lemma BlockedTail(cs: seq<SysChunk>, a: u64)
    requires cs != [] && !Stops(cs[0], a) && TranslateBy(cs[0], a).None?
    ensures BlockedBefore(cs, a) <==> BlockedBefore(cs[1..], a)
  {
    hide Stops, TranslateBy;
    var tail := cs[1..];
    if BlockedBefore(cs, a) {
      var i, j :| 0 <= i < j < |cs| && Stops(cs[i], a) && TranslateBy(cs[j], a).Some?
        && forall k :: 0 <= k < j ==> TranslateBy(cs[k], a).None?;
      assert Stops(tail[i - 1], a) && TranslateBy(tail[j - 1], a).Some?;
      assert forall k :: 0 <= k < j - 1 ==> tail[k] == cs[k + 1];
    }
    if BlockedBefore(tail, a) {
      var i, j :| 0 <= i < j < |tail| && Stops(tail[i], a) && TranslateBy(tail[j], a).Some?
        && forall k :: 0 <= k < j ==> TranslateBy(tail[k], a).None?;
      assert Stops(cs[i + 1], a) && TranslateBy(cs[j + 1], a).Some?;
      forall k | 0 <= k < j + 1
        ensures TranslateBy(cs[k], a).None?
      {
        if k > 0 {
          assert cs[k] == tail[k - 1];
        }
      }
    }
  }

  lemma BlockedHead(cs: seq<SysChunk>, a: u64)
    requires cs != [] && Stops(cs[0], a) && TranslateBy(cs[0], a).None?
    ensures BlockedBefore(cs, a) <==> FindMap(cs, a).Some?
  {
    hide Stops, TranslateBy;
    if FindMap(cs, a).Some? {
      var j := FindMapWitness(cs, a);
      assert Stops(cs[0], a) && TranslateBy(cs[j], a).Some?;
    }
    if BlockedBefore(cs, a) {
      var i, j :| 0 <= i < j < |cs| && Stops(cs[i], a) && TranslateBy(cs[j], a).Some?;
      FindMapAt(cs, a, j);
    }
  }

  /**
    The map form used by the walk and the first-match form used by `read_node`
    give the same physical byte exactly where no blocking chunk comes first.
  */
  lemma {:induction false} BootstrapsAgree(cs: seq<SysChunk>, a: u64)
    ensures Physical(Translate(BootEntries(cs), a)) == FindMap(cs, a) <==> !BlockedBefore(cs, a)
    ensures Translate(BootEntries(cs), a).Some? ==> Physical(Translate(BootEntries(cs), a)) == FindMap(cs, a)
    decreases |cs|
  {
    if cs != [] {
      EntryAgrees(cs[0], a);
      assert BootEntries(cs)[0] == EntryOf(cs[0]) && BootEntries(cs)[1..] == BootEntries(cs[1..]);
      if Stops(cs[0], a) {
        BlockedHead(cs, a);
      } else if Covers(EntryOf(cs[0]), a) {
        assert TranslateBy(cs[0], a).Some?;
      } else {
        BlockedTail(cs, a);
        BootstrapsAgree(cs[1..], a);
      }
    }
  }

  /** In particular they agree everywhere when every bootstrap chunk has a stripe and no sum overflows. */
  lemma SoundBootstrapsAgree(cs: seq<SysChunk>, a: u64)
    requires forall c :: c in cs ==> c.stripes != [] && c.key.offset + c.length < U64_LIMIT
    requires forall c :: c in cs ==> c.stripes == [] || c.stripes[0].offset + c.length <= U64_LIMIT
    ensures Physical(Translate(BootEntries(cs), a)) == FindMap(cs, a)
  {
    BootstrapsAgree(cs, a);
    forall i | 0 <= i < |cs|
      ensures !Stops(cs[i], a)
    {
      assert cs[i] in cs;
    }
  }

  /** An overflowing chunk hides one that covers the address: the lookup answers nothing, the address map does. */
  lemma OverflowHidesChunk()
    ensures var entries := [MapEntry(U64_LIMIT - 1, 1, [(1, 0)]), MapEntry(0, 10, [(1, 4096)])];
      Translate(entries, 0) == None && FirstCover(entries, 0) == Some((1, 4096))
  {
    var entries := [MapEntry(U64_LIMIT - 1, 1, [(1, 0)]), MapEntry(0, 10, [(1, 4096)])];
    assert entries[1..] == [MapEntry(0, 10, [(1, 4096)])];
  }

  /** A chunk with one stripe. */
  function OneStripe(start: u64, length: u64, offset: u64): (r: Record)
    ensures RecordFormed(r)
  {
    Record(SysChunk(DiskKey(256, CHUNK_ITEM_KEY, start), length, 2, 65536, 2, 1, 1, [Stripe(1, offset, Zeros(16))]), Zeros(12))
  }

  /** A system-chunk array as it stands on disk, where `find_map` answers and the map form does not. */
  lemma BootstrapsDisagree()
    ensures var block := ArrayBytes([OneStripe(U64_LIMIT - 1, 1, 0), OneStripe(0, 10, 4096)]);
      var cs := EntriesFrom(block, |block|, 0);
      FindMap(cs, 0) == Some(4096) && Translate(BootEntries(cs), 0) == None
  {
    hide ArrayBytes, EntriesFrom, Zeros;
    var first, second := OneStripe(U64_LIMIT - 1, 1, 0), OneStripe(0, 10, 4096);
    var rs := [first, second];
    var block := ArrayBytes(rs);
    assert block[0..|block|] == block;
    ArrayRoundTrip(block, 0, |block|, rs);
    var cs := [first.chunk, second.chunk];
    assert rs[1..] == [second] && cs[1..] == [second.chunk];
    assert Chunks(rs) == cs;
    assert TranslateBy(cs[0], 0) == None && TranslateBy(cs[1], 0) == Some(4096);
  }
}
