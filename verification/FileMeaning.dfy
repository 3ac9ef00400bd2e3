/** What a successful file read means, byte by byte (core/src/extent.rs). */
module FileMeaning {
  import opened Wrappers
  import opened Bytes
  import opened SysChunks
  import opened Nodes
  import opened ChunkMaps
  import opened FsTrees
  import opened Extents

  // ---- the sort is the only stable one ----

  ghost predicate Ordered(es: seq<Extent>) {
    forall i, j :: 0 <= i < j < |es| ==> es[i].fileOff <= es[j].fileOff
  }

  /** The extents starting at `off`, in order. */
  function ByOffset(es: seq<Extent>, off: u64): seq<Extent> {
    if es == [] then []
    else if es[0].fileOff == off then [es[0]] + ByOffset(es[1..], off)
    else ByOffset(es[1..], off)
  }

  lemma {:induction false} InsertMembers(x: Extent, s: seq<Extent>)
    ensures forall e :: e in Insert(x, s) ==> e == x || e in s
    decreases |s|
  {
    if s != [] && x.fileOff > s[0].fileOff {
      InsertMembers(x, s[1..]);
    }
  }

  lemma OrderedCons(e: Extent, r: seq<Extent>)
    requires Ordered(r) && forall f :: f in r ==> e.fileOff <= f.fileOff
    ensures Ordered([e] + r)
  {
    var all := [e] + r;
    forall i, j | 0 <= i < j < |all|
      ensures all[i].fileOff <= all[j].fileOff
    {
      assert all[j] in r;
    }
  }

  lemma {:induction false} InsertOrdered(x: Extent, s: seq<Extent>)
    requires Ordered(s)
    ensures Ordered(Insert(x, s))
    decreases |s|
  {
    if s != [] && x.fileOff > s[0].fileOff {
      InsertOrdered(x, s[1..]);
      InsertMembers(x, s[1..]);
      OrderedCons(s[0], Insert(x, s[1..]));
    } else {
      OrderedCons(x, s);
    }
  }

  lemma ByOffsetCons(e: Extent, r: seq<Extent>, off: u64)
    ensures ByOffset([e] + r, off) == (if e.fileOff == off then [e] else []) + ByOffset(r, off)
  {
    assert ([e] + r)[1..] == r;
  }

  lemma {:induction false} InsertStable(x: Extent, s: seq<Extent>, off: u64)
    ensures ByOffset(Insert(x, s), off) == ByOffset([x] + s, off)
    decreases |s|
  {
    hide ByOffset;
    if s != [] && x.fileOff > s[0].fileOff {
      var tail := s[1..];
      InsertStable(x, tail, off);
      ByOffsetCons(s[0], Insert(x, tail), off);
      ByOffsetCons(x, tail, off);
      ByOffsetCons(x, s, off);
      ByOffsetCons(s[0], tail, off);
      assert [s[0]] + tail == s;
    }
  }

  /** The sort orders by offset and keeps extents of equal offset in their original order. */
  lemma {:induction false} SortIsStable(es: seq<Extent>)
    ensures Ordered(Sorted(es))
    ensures forall off :: ByOffset(Sorted(es), off) == ByOffset(es, off)
    decreases |es|
  {
    hide Insert, ByOffset;
    if es == [] {
      assert Sorted(es) == es;
    } else {
      var s := Sorted(es[1..]);
      SortIsStable(es[1..]);
      InsertOrdered(es[0], s);
      forall off
        ensures ByOffset(Sorted(es), off) == ByOffset(es, off)
      {
        InsertStable(es[0], s, off);
        ByOffsetCons(es[0], s, off);
        ByOffsetCons(es[0], es[1..], off);
        assert [es[0]] + es[1..] == es;
      }
    }
  }

  lemma {:induction false} ByOffsetMember(es: seq<Extent>, off: u64)
    ensures ByOffset(es, off) != [] ==> ByOffset(es, off)[0] in es && ByOffset(es, off)[0].fileOff == off
    ensures forall e :: e in es && e.fileOff == off ==> ByOffset(es, off) != []
    decreases |es|
  {
    if es != [] {
      ByOffsetMember(es[1..], off);
    }
  }

  /** Two ordered sequences that agree at every offset are equal, so any stable sort gives this one. */
  lemma {:induction false} StableOrderUnique(a: seq<Extent>, b: seq<Extent>)
    requires Ordered(a) && Ordered(b)
    requires forall off :: ByOffset(a, off) == ByOffset(b, off)
    ensures a == b
    decreases |a|
  {
    if a == [] {
      if b != [] {
        assert ByOffset(a, b[0].fileOff) == [];
        ByOffsetMember(b, b[0].fileOff);
      }
    } else {
      var o := a[0].fileOff;
      ByOffsetMember(a, o);
      ByOffsetMember(b, o);
      assert ByOffset(a, o) == ByOffset(b, o);
      var p := b[0].fileOff;
      ByOffsetMember(b, p);
      ByOffsetMember(a, p);
      assert ByOffset(a, p) == ByOffset(b, p);
      assert o == p;
      assert ByOffset(a, o)[0] == a[0] && ByOffset(b, o)[0] == b[0];
      forall off
        ensures ByOffset(a[1..], off) == ByOffset(b[1..], off)
      {
        assert ByOffset(a, off) == ByOffset(b, off);
        if off == o {
          assert ByOffset(a, off)[1..] == ByOffset(a[1..], off);
          assert ByOffset(b, off)[1..] == ByOffset(b[1..], off);
        }
      }
      StableOrderUnique(a[1..], b[1..]);
      assert a == [a[0]] + a[1..] && b == [b[0]] + b[1..];
    }
  }

  // ---- where each byte comes from ----

  /** How many bytes an extent adds. */
  function Length(env: Env, e: Extent): nat {
    var r := Contribution(env, e.data);
    if r.Ok? then |r.value| else 0
  }

  /** How many bytes the extents before the `i`th add. */
  function StartOf(env: Env, es: seq<Extent>, i: nat): nat
    requires i <= |es|
    decreases i
  {
    if i == 0 then 0 else Length(env, es[0]) + StartOf(env, es[1..], i - 1)
  }

  lemma {:induction false} StartStep(env: Env, es: seq<Extent>, i: nat)
    requires i < |es|
    ensures StartOf(env, es, i + 1) == StartOf(env, es, i) + Length(env, es[i])
    decreases i
  {
    hide Length;
    if i > 0 {
      StartStep(env, es[1..], i - 1);
    }
  }

  lemma {:induction false} AssembledBytes(env: Env, es: seq<Extent>, i: nat, k: nat)
    requires Assembled(env, es).Ok? && i < |es| && k < Length(env, es[i])
    ensures Contribution(env, es[i].data).Ok?
    ensures StartOf(env, es, i) + k < |Assembled(env, es).value|
    ensures Assembled(env, es).value[StartOf(env, es, i) + k] == Contribution(env, es[i].data).value[k]
    decreases |es|
  {
    hide Contribution;
    if i > 0 {
      AssembledBytes(env, es[1..], i - 1, k);
    }
  }

  lemma {:induction false} AssembledLength(env: Env, es: seq<Extent>)
    requires Assembled(env, es).Ok?
    ensures |Assembled(env, es).value| == StartOf(env, es, |es|)
    decreases |es|
  {
    hide Contribution;
    if es != [] {
      AssembledLength(env, es[1..]);
    }
  }

  predicate Yields(r: Result<seq<byte>>, k: nat, b: byte) {
    r.Ok? && k < |r.value| && r.value[k] == b
  }

  predicate InWhole(env: Env, comp: Compression, phys: nat, ram: u64, k: nat, b: byte)
    requires phys <= |env.image|
  {
    Yields(Decompressed(env.codecs, comp, env.image[phys..], ram, env.sectorsize), k, b)
  }

  /** `b` is the byte at position `k` of what this extent stores, by the extent's kind. */
  predicate Defines(env: Env, data: seq<byte>, k: nat, b: byte) {
    var ram, comp := LeU64(data, 8), CompressionOf(U8At(data, 16));
    var disk, off, num := LeU64(data, 21), LeU64(data, 37), LeU64(data, 45);
    if U8At(data, 20) == 0 then
      if comp == Uncompressed then EXTENT_HEADER_LEN + k < |data| && k < ram && b == data[EXTENT_HEADER_LEN + k]
      else Yields(Decompressed(env.codecs, comp, InlinePayload(data), ram, env.sectorsize), k, b)
    else if disk == 0 then k < num && b == 0
    else
      match Translate(env.entries, disk)
      case None => false
      case Some((_, phys)) =>
        if comp == Uncompressed then k < num && phys + off + k < |env.image| && b == env.image[phys + off + k]
        else k < num && phys <= |env.image| && InWhole(env, comp, phys, ram, off + k, b)
  }

  lemma ContributionDefined(env: Env, data: seq<byte>, k: nat)
    requires Contribution(env, data).Ok? && k < |Contribution(env, data).value|
    ensures Defines(env, data, k, Contribution(env, data).value[k])
  {
    hide LeU64, Finished, Translate;
  }

  function SizeOf(items: seq<Item>, ino: u64): u64
    requires FindItem(items, ino, FsTrees.INODE_ITEM_KEY).Some?
  {
    LeU64(FindItem(items, ino, FsTrees.INODE_ITEM_KEY).value, INODE_SIZE_OFFSET)
  }

  /** `b` is the `k`th byte the extent adds, and the byte its kind defines there. */
  predicate Lands(env: Env, e: Extent, k: nat, b: byte) {
    Yields(Contribution(env, e.data), k, b) && Defines(env, e.data, k, b)
  }

  /**
    A successful read has exactly the inode's size; the `k`th byte of the `i`th
    extent in offset order stands where the bytes before it end, and everything
    past the last extent is zero.
  */
  lemma ReadPlacesBytes(env: Env, items: seq<Item>, ino: u64, i: nat, k: nat)
    requires FileContent(env, items, ino).Ok?
    ensures FindItem(items, ino, FsTrees.INODE_ITEM_KEY).Some?
    ensures |FileContent(env, items, ino).value| == SizeOf(items, ino)
    ensures var r := FileContent(env, items, ino).value; var es := Sorted(ExtentsOf(items, ino));
      i < |es| && k < Length(env, es[i]) && StartOf(env, es, i) + k < |r|
      ==> Lands(env, es[i], k, r[StartOf(env, es, i) + k])
    ensures var r := FileContent(env, items, ino).value; var es := Sorted(ExtentsOf(items, ino));
      forall p :: StartOf(env, es, |es|) <= p < |r| ==> r[p] == 0
  {
    hide Contribution, Defines, Sorted, ExtentsOf, StartOf;
    var r := FileContent(env, items, ino).value;
    var es := Sorted(ExtentsOf(items, ino));
    AssembledLength(env, es);
    if i < |es| && k < Length(env, es[i]) && StartOf(env, es, i) + k < |r| {
      AssembledBytes(env, es, i, k);
      ContributionDefined(env, es[i].data, k);
    }
  }

  /** Where the extent before the `i`th ends. */
  function EndBefore(env: Env, es: seq<Extent>, i: nat): nat
    requires i < |es|
  {
    if i == 0 then 0 else es[i - 1].fileOff + Length(env, es[i - 1])
  }

  /** Each extent starts where the one before it ends, the first at zero. */
  ghost predicate Contiguous(env: Env, es: seq<Extent>) {
    forall i :: 0 <= i < |es| ==> es[i].fileOff == EndBefore(env, es, i)
  }

  /** Every extent lands at its own file offset exactly when the extents are contiguous from zero. */
  lemma {:induction false} PlacedIffContiguous(env: Env, es: seq<Extent>)
    ensures Contiguous(env, es) <==> forall i :: 0 <= i < |es| ==> StartOf(env, es, i) == es[i].fileOff
  {
    hide Length;
    if Contiguous(env, es) {
      for n := 0 to |es|
        invariant forall i :: 0 <= i < n ==> StartOf(env, es, i) == es[i].fileOff
      {
        if n > 0 {
          StartStep(env, es, n - 1);
          assert StartOf(env, es, n - 1) == es[n - 1].fileOff;
        }
        assert es[n].fileOff == if n == 0 then 0 else es[n - 1].fileOff + Length(env, es[n - 1]);
      }
    }
    if forall i :: 0 <= i < |es| ==> StartOf(env, es, i) == es[i].fileOff {
      forall i | 0 <= i < |es|
        ensures es[i].fileOff == if i == 0 then 0 else es[i - 1].fileOff + Length(env, es[i - 1])
      {
        if i > 0 {
          StartStep(env, es, i - 1);
          assert StartOf(env, es, i - 1) == es[i - 1].fileOff;
        }
        assert StartOf(env, es, i) == es[i].fileOff;
      }
    }
  }

  lemma {:induction false} StartsMonotone(env: Env, es: seq<Extent>, i: nat, j: nat)
    requires i <= j <= |es|
    ensures StartOf(env, es, i) <= StartOf(env, es, j)
    decreases j
  {
    hide Length;
    if i < j {
      StartsMonotone(env, es, i, j - 1);
      StartStep(env, es, j - 1);
    }
  }

  predicate Spans(env: Env, e: Extent, p: nat) {
    e.fileOff <= p < e.fileOff + Length(env, e)
  }

  /** A position no placed extent covers lies behind all of them. */
  lemma {:induction false} BehindAll(env: Env, es: seq<Extent>, n: nat, p: nat)
    requires n <= |es| && forall i :: 0 <= i < |es| ==> StartOf(env, es, i) == es[i].fileOff && !Spans(env, es[i], p)
    ensures StartOf(env, es, n) <= p
    decreases n
  {
    hide Length;
    if n > 0 {
      BehindAll(env, es, n - 1, p);
      StartStep(env, es, n - 1);
      assert !Spans(env, es[n - 1], p);
    }
  }

  /**
    For contiguous extents every byte of the file is the one the extent covering
    its position defines, and positions behind every extent are zero.
  */
  lemma ContiguousFileMeaning(env: Env, items: seq<Item>, ino: u64, p: nat)
    requires FileContent(env, items, ino).Ok? && p < |FileContent(env, items, ino).value|
    requires Contiguous(env, Sorted(ExtentsOf(items, ino)))
    ensures var r := FileContent(env, items, ino).value; var es := Sorted(ExtentsOf(items, ino));
      && (forall i :: 0 <= i < |es| && Spans(env, es[i], p) ==> Defines(env, es[i].data, p - es[i].fileOff, r[p]))
      && ((forall i :: 0 <= i < |es| ==> !Spans(env, es[i], p)) ==> r[p] == 0)
  {
    hide Contribution, Defines, Sorted, ExtentsOf, FileContent, Contiguous, StartOf, Length;
    var r := FileContent(env, items, ino).value;
    var es := Sorted(ExtentsOf(items, ino));
    ReadPlacesBytes(env, items, ino, 0, 0);
    PlacedIffContiguous(env, es);
    forall i | 0 <= i < |es| && Spans(env, es[i], p)
      ensures Defines(env, es[i].data, p - es[i].fileOff, r[p])
    {
      var k: nat := p - es[i].fileOff;
      assert StartOf(env, es, i) + k == p;
      ReadPlacesBytes(env, items, ino, i, k);
    }
    if forall i :: 0 <= i < |es| ==> !Spans(env, es[i], p) {
      BehindAll(env, es, |es|, p);
    }
  }

  // ---- errors and gaps ----

  /** A failing extent makes the read fail with that extent's own error; the first one wins. */
  lemma {:induction false} FirstErrorWins(env: Env, es: seq<Extent>, i: nat)
    requires i < |es| && Contribution(env, es[i].data).Err?
    requires forall k :: 0 <= k < i ==> Contribution(env, es[k].data).Ok?
    ensures Assembled(env, es) == Err(Contribution(env, es[i].data).error)
    decreases i
  {
    hide Contribution;
    if i > 0 {
      assert Contribution(env, es[0].data).Ok?;
      FirstErrorWins(env, es[1..], i - 1);
    }
  }

  /** An uncompressed inline extent body holding `bytes`. */
  function InlineExtent(bytes: seq<byte>): seq<byte> {
    Zeros(8) + LeBytes(|bytes|, 8) + Zeros(5) + bytes
  }

  function InodeData(size: u64): seq<byte> {
    Zeros(16) + LeBytes(size, 8)
  }

  lemma ReadInline(env: Env, bytes: seq<byte>)
    requires |bytes| < U64_LIMIT
    ensures Contribution(env, InlineExtent(bytes)) == Ok(bytes)
  {
    hide LeBytes, LeValue, Field;
    Pow256Values();
    var data := InlineExtent(bytes);
    var head := data[..21];
    assert data[0..21] == head && head[8..16] == LeBytes(|bytes|, 8);
    ReadNumber(data, 0, head, 8, 8, |bytes|);
    assert data[16] == 0 && data[20] == 0;
    assert InlinePayload(data) == bytes && bytes[..|bytes|] == bytes;
  }

  lemma ReadSize(size: u64)
    ensures LeU64(InodeData(size), INODE_SIZE_OFFSET) == size
  {
    hide LeBytes, LeValue, Field;
    Pow256Values();
    var data := InodeData(size);
    assert data[0..24] == data && data[16..24] == LeBytes(size, 8);
    ReadNumber(data, 0, data, 16, 8, size);
  }

  /**
    A gap between extents is not zero-filled: with one byte at offset 0 and one at
    offset 4, the second byte of a five-byte file is the second extent's, not zero.
  */
  lemma GapIsNotFilled(env: Env, ino: u64)
    ensures var items := [
        Item(DiskKey(ino, FsTrees.INODE_ITEM_KEY, 0), InodeData(5)),
        Item(DiskKey(ino, EXTENT_DATA_KEY, 0), InlineExtent([65])),
        Item(DiskKey(ino, EXTENT_DATA_KEY, 4), InlineExtent([66]))];
      FileContent(env, items, ino) == Ok([65, 66, 0, 0, 0])
      && !Contiguous(env, Sorted(ExtentsOf(items, ino)))
  {
    hide InlineExtent, InodeData, Contribution, LeU64;
    var inode := Item(DiskKey(ino, FsTrees.INODE_ITEM_KEY, 0), InodeData(5));
    var a := Item(DiskKey(ino, EXTENT_DATA_KEY, 0), InlineExtent([65]));
    var b := Item(DiskKey(ino, EXTENT_DATA_KEY, 4), InlineExtent([66]));
    var items := [inode, a, b];
    ReadSize(5);
    ReadInline(env, [65]);
    ReadInline(env, [66]);
    var ea, eb := Extent(0, a.data), Extent(4, b.data);
    assert items[1..] == [a, b] && [a, b][1..] == [b];
    assert ExtentsOf([b][1..], ino) == [] && Sorted([eb][1..]) == [];
    assert ExtentsOf([b], ino) == [eb];
    assert ExtentsOf([a, b], ino) == [ea, eb];
    assert [ea, eb][1..] == [eb] && Sorted([eb]) == [eb];
    assert Sorted([ea, eb]) == [ea, eb];
    var first: seq<byte>, second: seq<byte> := [65], [66];
    assert second + [] == second && first + second == [65, 66];
    assert Assembled(env, [eb]) == Ok(second);
    assert Assembled(env, [ea, eb]) == Ok(first + second);
    assert Fit([65, 66], 5) == [65, 66, 0, 0, 0];
  }

  // ---- PREALLOC extents ----

  predicate IsDiskExtent(data: seq<byte>) {
    TypeOf(data) == 1 || TypeOf(data) == 2
  }

  lemma FieldBefore(data: seq<byte>, i: nat, v: byte, off: nat, width: nat)
    requires i < |data| && (i < off || off + width <= i)
    ensures Field(data[i := v], off, width) == Field(data, off, width)
  {
  }

  /** A PREALLOC extent contributes what a regular extent with the same fields does. */
  lemma PreallocIsRegular(env: Env, data: seq<byte>)
    requires |data| > 20
    ensures Contribution(env, data[20 := 1]) == Contribution(env, data[20 := 2])
  {
    hide Decompressed, RegularBytes, LeValue, Field, CompressionOf;
    FieldBefore(data, 20, 1, 8, 8);
    FieldBefore(data, 20, 2, 8, 8);
    FieldBefore(data, 20, 1, 21, 8);
    FieldBefore(data, 20, 2, 21, 8);
    FieldBefore(data, 20, 1, 37, 8);
    FieldBefore(data, 20, 2, 37, 8);
    FieldBefore(data, 20, 1, 45, 8);
    FieldBefore(data, 20, 2, 45, 8);
  }

  /** The bytes on disk that an uncompressed extent names. */
  function StoredRange(env: Env, data: seq<byte>): seq<byte> {
    var disk, off, num := LeU64(data, 21), LeU64(data, 37), LeU64(data, 45);
    match Translate(env.entries, disk)
    case None => []
    case Some((_, phys)) => if phys + off + num <= |env.image| then env.image[phys + off..phys + off + num] else []
  }

  /** An uncompressed disk or PREALLOC extent that reads gives zeros exactly for address zero or a zero stored range. */
  lemma DiskExtentZeros(env: Env, data: seq<byte>)
    requires IsDiskExtent(data) && CompressionOf(U8At(data, 16)) == Uncompressed && Contribution(env, data).Ok?
    ensures var bytes, stored := Contribution(env, data).value, StoredRange(env, data);
      bytes == Zeros(|bytes|) <==> LeU64(data, 21) == 0 || stored == Zeros(|stored|)
  {
    hide LeU64, Translate, Zeros, Decompressed;
  }

  /** An uncompressed PREALLOC extent of one byte at logical 4096. */
  function PreallocExtent(): seq<byte> {
    Zeros(16) + [0, 0, 0, 0, 2] + LeBytes(4096, 8) + Zeros(16) + LeBytes(0 + 1, 8)
  }

  lemma PreallocFields()
    ensures var data := PreallocExtent();
      TypeOf(data) == 2 && CompressionOf(U8At(data, 16)) == Uncompressed
      && LeU64(data, 21) == 4096 && LeU64(data, 37) == 0 && LeU64(data, 45) == 1
  {
    hide LeBytes, LeValue, Field;
    Pow256Values();
    var data := PreallocExtent();
    assert |data| == 53 && data[0..53] == data;
    assert data[21..29] == LeBytes(4096, 8) && data[45..53] == LeBytes(1, 8);
    ReadNumber(data, 0, data, 21, 8, 4096);
    ReadNumber(data, 0, data, 45, 8, 1);
    assert data[37..45] == Zeros(8);
    ZeroField(data, 37, 8);
  }

  /** A preallocated byte that reads as 7: what lies on disk, not zero. */
  lemma PreallocReadsDisk(codecs: Codecs, sectorsize: u32)
    ensures Contribution(Env(codecs, [7], [MapEntry(4096, 4096, [(1, 0)])], sectorsize), PreallocExtent()) == Ok([7])
  {
    hide LeU64, PreallocExtent, Decompressed;
    PreallocFields();
    var entries := [MapEntry(4096, 4096, [(1, 0)])];
    assert Translate(entries, 4096) == Some((1, 0));
    var image: seq<byte> := [7];
    assert image[0..1] == [7];
  }

  // ---- contiguity read off the headers ----

  /** A hole or an uncompressed extent, whose length its header declares. */
  predicate Declares(data: seq<byte>) {
    if TypeOf(data) == 0 then CompressionOf(U8At(data, 16)) == Uncompressed
    else IsDiskExtent(data) && (LeU64(data, 21) == 0 || CompressionOf(U8At(data, 16)) == Uncompressed)
  }

  function DeclaredLength(data: seq<byte>): nat {
    if TypeOf(data) == 0 then Min(LeU64(data, 8), |InlinePayload(data)|) else LeU64(data, 45)
  }

  lemma DeclaredIsLength(env: Env, data: seq<byte>)
    requires Declares(data) && Contribution(env, data).Ok?
    ensures |Contribution(env, data).value| == DeclaredLength(data)
  {
    hide LeU64, Translate;
  }

  function DeclaredBefore(es: seq<Extent>, i: nat): nat
    requires i < |es|
  {
    if i == 0 then 0 else es[i - 1].fileOff + DeclaredLength(es[i - 1].data)
  }

  /** Each extent's offset is where its predecessor's declared length ends, the first at zero. */
  ghost predicate DeclaredContiguous(es: seq<Extent>) {
    forall i :: 0 <= i < |es| ==> es[i].fileOff == DeclaredBefore(es, i)
  }

  lemma {:induction false} AllRead(env: Env, es: seq<Extent>, i: nat)
    requires Assembled(env, es).Ok? && i < |es|
    ensures Contribution(env, es[i].data).Ok?
    decreases |es|
  {
    hide Contribution;
    if i > 0 {
      AllRead(env, es[1..], i - 1);
    }
  }

  lemma SameBefore(env: Env, es: seq<Extent>, i: nat)
    requires i < |es| && forall k :: 0 <= k < |es| ==> Length(env, es[k]) == DeclaredLength(es[k].data)
    ensures EndBefore(env, es, i) == DeclaredBefore(es, i)
  {
    hide Length, DeclaredLength;
  }

  lemma SameContiguity(env: Env, es: seq<Extent>)
    requires forall i :: 0 <= i < |es| ==> Length(env, es[i]) == DeclaredLength(es[i].data)
    ensures Contiguous(env, es) <==> DeclaredContiguous(es)
  {
    hide Length, DeclaredLength, EndBefore, DeclaredBefore;
    forall i | 0 <= i < |es|
      ensures EndBefore(env, es, i) == DeclaredBefore(es, i)
    {
      SameBefore(env, es, i);
    }
  }

  /**
    For holes and uncompressed extents that read, every extent stands at its own
    file offset exactly when the headers alone declare them contiguous.
  */
  lemma PlacedIffDeclared(env: Env, es: seq<Extent>)
    requires Assembled(env, es).Ok? && forall i :: 0 <= i < |es| ==> Declares(es[i].data)
    ensures DeclaredContiguous(es) <==> forall i :: 0 <= i < |es| ==> StartOf(env, es, i) == es[i].fileOff
  {
    hide Contribution, Declares, DeclaredLength, StartOf, Assembled;
    forall i | 0 <= i < |es|
      ensures Length(env, es[i]) == DeclaredLength(es[i].data)
    {
      AllRead(env, es, i);
      DeclaredIsLength(env, es[i].data);
    }
    SameContiguity(env, es);
    PlacedIffContiguous(env, es);
  }

  // ---- independence of leaf item order ----

  ghost predicate DistinctOffsets(es: seq<Extent>) {
    forall i, j :: 0 <= i < j < |es| ==> es[i].fileOff != es[j].fileOff
  }

  /** The item an extent came from. */
  function ItemOf(e: Extent, ino: u64): Item {
    Item(DiskKey(ino, EXTENT_DATA_KEY, e.fileOff), e.data)
  }

  lemma {:induction false} ExtentCount(items: seq<Item>, ino: u64, e: Extent)
    ensures multiset(ExtentsOf(items, ino))[e] == multiset(items)[ItemOf(e, ino)]
    decreases |items|
  {
    if items != [] {
      ExtentCount(items[1..], ino, e);
      assert items == [items[0]] + items[1..];
      if IsExtentOf(items[0], ino) {
        var x := Extent(items[0].key.offset, items[0].data);
        assert ItemOf(x, ino) == items[0];
        assert ExtentsOf(items, ino) == [x] + ExtentsOf(items[1..], ino);
        assert x == e <==> items[0] == ItemOf(e, ino);
      }
    }
  }

  lemma SameExtents(items: seq<Item>, shuffled: seq<Item>, ino: u64)
    requires multiset(items) == multiset(shuffled)
    ensures multiset(ExtentsOf(items, ino)) == multiset(ExtentsOf(shuffled, ino))
  {
    forall e
      ensures multiset(ExtentsOf(items, ino))[e] == multiset(ExtentsOf(shuffled, ino))[e]
    {
      ExtentCount(items, ino, e);
      ExtentCount(shuffled, ino, e);
    }
  }

  lemma HeadAlone(es: seq<Extent>)
    requires DistinctOffsets(es) && es != []
    ensures DistinctOffsets(es[1..])
    ensures forall f :: f in es[1..] ==> f.fileOff != es[0].fileOff
  {
  }

  lemma {:induction false} DistinctSingle(es: seq<Extent>, e: Extent)
    requires DistinctOffsets(es) && e in es
    ensures ByOffset(es, e.fileOff) == [e] && multiset(es)[e] == 1
    decreases |es|
  {
    assert es == [es[0]] + es[1..];
    HeadAlone(es);
    if es[0] == e {
      ByOffsetMember(es[1..], e.fileOff);
      assert e !in multiset(es[1..]);
    } else {
      DistinctSingle(es[1..], e);
    }
  }

  lemma TwiceCounts(es: seq<Extent>, i: nat, j: nat)
    requires i < j < |es| && es[i] == es[j]
    ensures multiset(es)[es[i]] >= 2
  {
    assert es == es[..i] + [es[i]] + es[i + 1..j] + [es[j]] + es[j + 1..];
  }

  /** Distinct offsets survive any reordering. */
  lemma DistinctShuffled(es: seq<Extent>, shuffled: seq<Extent>)
    requires DistinctOffsets(es) && multiset(es) == multiset(shuffled)
    ensures DistinctOffsets(shuffled)
  {
    forall i, j | 0 <= i < j < |shuffled|
      ensures shuffled[i].fileOff != shuffled[j].fileOff
    {
      assert shuffled[i] in multiset(shuffled) && shuffled[j] in multiset(shuffled);
      DistinctSingle(es, shuffled[i]);
      DistinctSingle(es, shuffled[j]);
      if shuffled[i] == shuffled[j] {
        TwiceCounts(shuffled, i, j);
      }
    }
  }

  lemma SameSorted(es: seq<Extent>, shuffled: seq<Extent>)
    requires DistinctOffsets(es) && multiset(es) == multiset(shuffled)
    ensures Sorted(es) == Sorted(shuffled)
  {
    DistinctShuffled(es, shuffled);
    forall e
      ensures e in es <==> e in shuffled
    {
      assert e in es <==> e in multiset(es);
      assert e in shuffled <==> e in multiset(shuffled);
    }
    SortIsStable(es);
    SortIsStable(shuffled);
    forall off
      ensures ByOffset(Sorted(es), off) == ByOffset(Sorted(shuffled), off)
    {
      assert ByOffset(Sorted(es), off) == ByOffset(es, off);
      assert ByOffset(Sorted(shuffled), off) == ByOffset(shuffled, off);
      ByOffsetMember(es, off);
      ByOffsetMember(shuffled, off);
      if ByOffset(es, off) != [] {
        var e := ByOffset(es, off)[0];
        DistinctSingle(es, e);
        assert e in multiset(shuffled);
        DistinctSingle(shuffled, e);
      }
    }
    StableOrderUnique(Sorted(es), Sorted(shuffled));
  }

  predicate KeyedBy(it: Item, objectid: u64, keyType: byte) {
    it.key.objectid == objectid && it.key.keyType == keyType
  }

  lemma {:induction false} FindItemIn(items: seq<Item>, objectid: u64, keyType: byte)
    ensures var r := FindItem(items, objectid, keyType);
      (r.Some? ==> exists it :: it in items && KeyedBy(it, objectid, keyType) && it.data == r.value)
      && (r.None? ==> forall it :: it in items ==> !KeyedBy(it, objectid, keyType))
    decreases |items|
  {
    if items != [] {
      FindItemIn(items[1..], objectid, keyType);
      if FindItem(items, objectid, keyType).Some? {
        if KeyedBy(items[0], objectid, keyType) {
          assert items[0] in items;
        } else {
          var it :| it in items[1..] && KeyedBy(it, objectid, keyType)
            && it.data == FindItem(items, objectid, keyType).value;
          assert it in items;
        }
      }
    }
  }

  /** All items with this key carry the same data. */
  ghost predicate OneOf(items: seq<Item>, objectid: u64, keyType: byte) {
    forall a, b | a in items && b in items && KeyedBy(a, objectid, keyType) && KeyedBy(b, objectid, keyType) ::
      a.data == b.data
  }

  lemma FindItemShuffled(items: seq<Item>, shuffled: seq<Item>, objectid: u64, keyType: byte)
    requires multiset(items) == multiset(shuffled) && OneOf(items, objectid, keyType)
    ensures FindItem(items, objectid, keyType) == FindItem(shuffled, objectid, keyType)
  {
    FindItemIn(items, objectid, keyType);
    FindItemIn(shuffled, objectid, keyType);
    forall it
      ensures it in items <==> it in shuffled
    {
      assert it in items <==> it in multiset(items);
      assert it in shuffled <==> it in multiset(shuffled);
    }
  }

  /** Permuting a leaf's items never changes what a file with one inode item and distinct extent offsets reads as. */
  lemma ItemOrderIrrelevant(env: Env, items: seq<Item>, shuffled: seq<Item>, ino: u64)
    requires multiset(items) == multiset(shuffled)
    requires OneOf(items, ino, FsTrees.INODE_ITEM_KEY)
    requires DistinctOffsets(ExtentsOf(items, ino))
    ensures FileContent(env, items, ino) == FileContent(env, shuffled, ino)
  {
    hide Sorted, Assembled, FindItem;
    FindItemShuffled(items, shuffled, ino, FsTrees.INODE_ITEM_KEY);
    SameExtents(items, shuffled, ino);
    SameSorted(ExtentsOf(items, ino), ExtentsOf(shuffled, ino));
  }
}
