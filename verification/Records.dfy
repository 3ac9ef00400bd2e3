/**
  Variable-length records packed into one item (core/src/fstree.rs): inode
  back-references and extended attributes.  A malformed record ends the walk.
*/
module Records {
  import opened Wrappers
  import opened Bytes
  import opened Nodes

  const INODE_REF_KEY: byte := 12
  const XATTR_ITEM_KEY: byte := 24
  const REF_NAME: nat := 10
  const XATTR_NAME: nat := 30

  // ---- inode references ----

  datatype InodeRef = InodeRef(parent: u64, index: u64, name: seq<byte>)

  /** The record at the front of `data` and how many bytes it takes. */
  function ParseInodeRef(data: seq<byte>, parent: u64): (r: Option<(InodeRef, nat)>)
    ensures r.Some? ==> REF_NAME < r.value.1 <= |data|
  {
    if |data| < REF_NAME then None
    else
      var nameEnd := REF_NAME + LeU16(data, 8);
      if LeU16(data, 8) == 0 || nameEnd > |data| then None
      else Some((InodeRef(parent, LeU64(data, 0), data[REF_NAME..nameEnd]), nameEnd))
  }

  function RefsIn(data: seq<byte>, parent: u64): seq<InodeRef>
    decreases |data|
  {
    match ParseInodeRef(data, parent)
    case None => []
    case Some((r, n)) => [r] + RefsIn(data[n..], parent)
  }

  /** How far the walk gets. */
  function RefsLength(data: seq<byte>): (n: nat)
    ensures n <= |data|
    decreases |data|
  {
    match ParseInodeRef(data, 0)
    case None => 0
    case Some((_, n)) => n + RefsLength(data[n..])
  }

  function RefsOf(items: seq<Item>, objectid: u64): seq<InodeRef> {
    if items == [] then []
    else if items[0].key.objectid == objectid && items[0].key.keyType == INODE_REF_KEY
    then RefsIn(items[0].data, items[0].key.offset) + RefsOf(items[1..], objectid)
    else RefsOf(items[1..], objectid)
  }

  method CollectRefs(data: seq<byte>, parent: u64) returns (out: seq<InodeRef>)
    ensures out == RefsIn(data, parent)
  {
    hide ParseInodeRef;
    out := [];
    var off := 0;
    while off <= |data|
      invariant off <= |data|
      invariant out + RefsIn(data[off..], parent) == RefsIn(data, parent)
      decreases |data| - off
    {
      var rest := data[off..];
      var parsed := ParseInodeRef(rest, parent);
      if parsed.None? {
        break;
      }
      var (r, consumed) := parsed.value;
      assert rest[consumed..] == data[off + consumed..];
      out := out + [r];
      off := off + consumed;
    }
  }

  method ListInodeRefs(leaf: Node, objectid: u64) returns (out: seq<InodeRef>)
    ensures out == RefsOf(leaf.LeafItems(), objectid)
  {
    hide RefsIn;
    out := [];
    var items := leaf.LeafItems();
    for i := 0 to |items|
      invariant out + RefsOf(items[i..], objectid) == RefsOf(items, objectid)
    {
      ghost var todo := items[i..];
      assert todo[0] == items[i] && todo[1..] == items[i + 1..];
      if items[i].key.objectid != objectid || items[i].key.keyType != INODE_REF_KEY {
        continue;
      }
      var found := CollectRefs(items[i].data, items[i].key.offset);
      out := out + found;
    }
  }

  /** A reference the on-disk record can hold. */
  predicate RefPrintable(r: InodeRef, parent: u64) {
    r.parent == parent && 0 < |r.name| < 0x1_0000
  }

  ghost predicate RefsPrintable(rs: seq<InodeRef>, parent: u64) {
    forall i :: 0 <= i < |rs| ==> RefPrintable(rs[i], parent)
  }

  function RefBytes(r: InodeRef): (bs: seq<byte>)
    ensures |bs| == REF_NAME + |r.name|
  {
    LeBytes(r.index, 8) + LeBytes(|r.name|, 2) + r.name
  }

  function RefsBytes(rs: seq<InodeRef>): seq<byte> {
    if rs == [] then [] else RefBytes(rs[0]) + RefsBytes(rs[1..])
  }

  lemma ReadRef(r: InodeRef, parent: u64, rest: seq<byte>)
    requires RefPrintable(r, parent)
    ensures ParseInodeRef(RefBytes(r) + rest, parent) == Some((r, |RefBytes(r)|))
  {
    hide LeBytes, LeValue, Field;
    Pow256Values();
    var piece := RefBytes(r);
    var data := piece + rest;
    assert data[0..|piece|] == piece;
    assert piece[0..8] == LeBytes(r.index, 8) && piece[8..10] == LeBytes(|r.name|, 2);
    ReadNumber(data, 0, piece, 0, 8, r.index);
    ReadNumber(data, 0, piece, 8, 2, |r.name|);
    Within(data, 0, piece, REF_NAME, |piece|);
    assert piece[REF_NAME..|piece|] == r.name;
  }

  lemma NextRef(r: InodeRef, parent: u64, piece: seq<byte>, later: seq<byte>)
    requires ParseInodeRef(piece + later, parent) == Some((r, |piece|))
    ensures RefsIn(piece + later, parent) == [r] + RefsIn(later, parent)
  {
    hide ParseInodeRef;
    assert (piece + later)[|piece|..] == later;
  }

  /** Printed references parse back in order, and the walk goes on with whatever follows them. */
  lemma {:induction false} RefsRoundTrip(rs: seq<InodeRef>, parent: u64, rest: seq<byte>)
    requires RefsPrintable(rs, parent)
    ensures RefsIn(RefsBytes(rs) + rest, parent) == rs + RefsIn(rest, parent)
    decreases |rs|
  {
    hide ParseInodeRef, RefBytes, RefPrintable, RefsIn;
    if rs == [] {
      assert RefsBytes(rs) + rest == rest;
    } else {
      assert RefPrintable(rs[0], parent);
      assert forall i :: 0 <= i < |rs[1..]| ==> rs[1..][i] == rs[i + 1];
      RefsRoundTrip(rs[1..], parent, rest);
      ReadRef(rs[0], parent, RefsBytes(rs[1..]) + rest);
      assert RefsBytes(rs) + rest == RefBytes(rs[0]) + (RefsBytes(rs[1..]) + rest);
      NextRef(rs[0], parent, RefBytes(rs[0]), RefsBytes(rs[1..]) + rest);
      assert rs == [rs[0]] + rs[1..];
    }
  }

  lemma WriteRef(data: seq<byte>, parent: u64)
    requires ParseInodeRef(data, parent).Some?
    ensures var (r, n) := ParseInodeRef(data, parent).value;
      RefPrintable(r, parent) && RefBytes(r) == data[..n]
  {
    hide LeBytes, LeValue, Field;
    var (r, n) := ParseInodeRef(data, parent).value;
    Pow256Values();
    WriteNumber(data, 0, 8);
    WriteNumber(data, 8, 2);
    Cut(data, 0, 8, 10);
    Cut(data, 0, 10, n);
    assert data[0..n] == data[..n];
  }

  lemma ParseAnyParent(data: seq<byte>, p: u64, q: u64)
    ensures ParseInodeRef(data, p).Some? <==> ParseInodeRef(data, q).Some?
    ensures ParseInodeRef(data, p).Some? ==> ParseInodeRef(data, p).value.1 == ParseInodeRef(data, q).value.1
  {
  }

  lemma RefsBytesCons(r: InodeRef, tail: seq<InodeRef>, parent: u64)
    requires RefPrintable(r, parent) && RefsPrintable(tail, parent)
    ensures RefsPrintable([r] + tail, parent)
    ensures RefsBytes([r] + tail) == RefBytes(r) + RefsBytes(tail)
  {
    hide RefPrintable;
    assert ([r] + tail)[1..] == tail;
  }

  /**
    For arbitrary bytes: the parsed references print back to exactly the consumed
    prefix, each is printable, and the suffix left starts no record.
  */
  lemma {:induction false} RefsReprint(data: seq<byte>, parent: u64)
    ensures RefsPrintable(RefsIn(data, parent), parent)
    ensures RefsBytes(RefsIn(data, parent)) == data[..RefsLength(data)]
    ensures ParseInodeRef(data[RefsLength(data)..], parent).None?
    decreases |data|
  {
    hide ParseInodeRef, RefBytes, RefPrintable;
    ParseAnyParent(data, parent, 0);
    match ParseInodeRef(data, parent)
    case None =>
      assert data[0..] == data;
    case Some((r, n)) =>
      var tail := data[n..];
      RefsReprint(tail, parent);
      WriteRef(data, parent);
      var m := RefsLength(tail);
      RefsBytesCons(r, RefsIn(tail, parent), parent);
      assert data[..n + m] == data[..n] + tail[..m];
      assert data[n + m..] == tail[m..];
  }

  // ---- extended attributes ----

  datatype Xattr = Xattr(name: seq<byte>, value: seq<byte>)

  function ParseXattr(data: seq<byte>): (r: Option<(Xattr, nat)>)
    ensures r.Some? ==> XATTR_NAME < r.value.1 <= |data|
  {
    if |data| < XATTR_NAME then None
    else
      var nameEnd := XATTR_NAME + LeU16(data, 27);
      var valueEnd := nameEnd + LeU16(data, 25);
      if LeU16(data, 27) == 0 || nameEnd > |data| || valueEnd > |data| then None
      else Some((Xattr(data[XATTR_NAME..nameEnd], data[nameEnd..valueEnd]), valueEnd))
  }

  function XattrsIn(data: seq<byte>): seq<Xattr>
    decreases |data|
  {
    match ParseXattr(data)
    case None => []
    case Some((x, n)) => [x] + XattrsIn(data[n..])
  }

  function XattrsLength(data: seq<byte>): (n: nat)
    ensures n <= |data|
    decreases |data|
  {
    match ParseXattr(data)
    case None => 0
    case Some((_, n)) => n + XattrsLength(data[n..])
  }

  function XattrsOf(items: seq<Item>, objectid: u64): seq<Xattr> {
    if items == [] then []
    else if items[0].key.objectid == objectid && items[0].key.keyType == XATTR_ITEM_KEY
    then XattrsIn(items[0].data) + XattrsOf(items[1..], objectid)
    else XattrsOf(items[1..], objectid)
  }

  method CollectXattrs(data: seq<byte>) returns (out: seq<Xattr>)
    ensures out == XattrsIn(data)
  {
    hide ParseXattr;
    out := [];
    var off := 0;
    while off <= |data|
      invariant off <= |data|
      invariant out + XattrsIn(data[off..]) == XattrsIn(data)
      decreases |data| - off
    {
      var rest := data[off..];
      var parsed := ParseXattr(rest);
      if parsed.None? {
        break;
      }
      var (x, consumed) := parsed.value;
      assert rest[consumed..] == data[off + consumed..];
      out := out + [x];
      off := off + consumed;
    }
  }

  method ListXattrs(leaf: Node, objectid: u64) returns (out: seq<Xattr>)
    ensures out == XattrsOf(leaf.LeafItems(), objectid)
  {
    hide XattrsIn;
    out := [];
    var items := leaf.LeafItems();
    for i := 0 to |items|
      invariant out + XattrsOf(items[i..], objectid) == XattrsOf(items, objectid)
    {
      ghost var todo := items[i..];
      assert todo[0] == items[i] && todo[1..] == items[i + 1..];
      if items[i].key.objectid != objectid || items[i].key.keyType != XATTR_ITEM_KEY {
        continue;
      }
      var found := CollectXattrs(items[i].data);
      out := out + found;
    }
  }

  /** A record as written: the attribute and the prefix and type byte the reader skips. */
  datatype XattrRecord = XattrRecord(prefix: seq<byte>, kind: byte, xattr: Xattr)

  predicate XattrPrintable(r: XattrRecord) {
    |r.prefix| == 25 && 0 < |r.xattr.name| < 0x1_0000 && |r.xattr.value| < 0x1_0000
  }

  ghost predicate XattrsPrintable(rs: seq<XattrRecord>) {
    forall i :: 0 <= i < |rs| ==> XattrPrintable(rs[i])
  }

  function XattrHead(r: XattrRecord): (bs: seq<byte>)
    requires XattrPrintable(r)
    ensures |bs| == XATTR_NAME
  {
    r.prefix + LeBytes(|r.xattr.value|, 2) + LeBytes(|r.xattr.name|, 2) + [r.kind]
  }

  function XattrBytes(r: XattrRecord): (bs: seq<byte>)
    requires XattrPrintable(r)
    ensures |bs| == XATTR_NAME + |r.xattr.name| + |r.xattr.value|
  {
    XattrHead(r) + r.xattr.name + r.xattr.value
  }

  function XattrsBytes(rs: seq<XattrRecord>): seq<byte>
    requires XattrsPrintable(rs)
  {
    if rs == [] then [] else XattrBytes(rs[0]) + XattrsBytes(rs[1..])
  }

  function Attributes(rs: seq<XattrRecord>): (xs: seq<Xattr>)
    ensures |xs| == |rs|
  {
    if rs == [] then [] else [rs[0].xattr] + Attributes(rs[1..])
  }

  lemma ReadXattr(r: XattrRecord, rest: seq<byte>)
    requires XattrPrintable(r)
    ensures ParseXattr(XattrBytes(r) + rest) == Some((r.xattr, |XattrBytes(r)|))
  {
    hide LeBytes, LeValue, Field;
    Pow256Values();
    var head := XattrHead(r);
    var data := XattrBytes(r) + rest;
    assert data[0..|head|] == head;
    assert head[25..27] == LeBytes(|r.xattr.value|, 2) && head[27..29] == LeBytes(|r.xattr.name|, 2);
    ReadNumber(data, 0, head, 25, 2, |r.xattr.value|);
    ReadNumber(data, 0, head, 27, 2, |r.xattr.name|);
    var nameEnd := XATTR_NAME + |r.xattr.name|;
    assert data[XATTR_NAME..nameEnd] == r.xattr.name;
    assert data[nameEnd..nameEnd + |r.xattr.value|] == r.xattr.value;
  }

  lemma NoXattrs(rest: seq<byte>)
    ensures XattrsBytes([]) + rest == rest
  {
  }

  lemma FirstXattr(rs: seq<XattrRecord>, rest: seq<byte>)
    requires XattrsPrintable(rs) && rs != []
    ensures XattrPrintable(rs[0]) && XattrsPrintable(rs[1..])
    ensures XattrsBytes(rs) + rest == XattrBytes(rs[0]) + (XattrsBytes(rs[1..]) + rest)
  {
    hide XattrBytes, XattrPrintable;
  }

  lemma NextXattr(x: Xattr, piece: seq<byte>, later: seq<byte>)
    requires ParseXattr(piece + later) == Some((x, |piece|))
    ensures XattrsIn(piece + later) == [x] + XattrsIn(later)
  {
    hide ParseXattr;
    assert (piece + later)[|piece|..] == later;
  }

  /** Printed attributes parse back in order, and the walk goes on with whatever follows them. */
  lemma {:induction false} XattrsRoundTrip(rs: seq<XattrRecord>, rest: seq<byte>)
    requires XattrsPrintable(rs)
    ensures XattrsIn(XattrsBytes(rs) + rest) == Attributes(rs) + XattrsIn(rest)
    decreases |rs|
  {
    hide ParseXattr, XattrBytes, XattrPrintable, XattrsIn, XattrsBytes;
    if rs == [] {
      NoXattrs(rest);
    } else {
      assert XattrPrintable(rs[0]);
      assert forall i :: 0 <= i < |rs[1..]| ==> rs[1..][i] == rs[i + 1];
      XattrsRoundTrip(rs[1..], rest);
      ReadXattr(rs[0], XattrsBytes(rs[1..]) + rest);
      FirstXattr(rs, rest);
      NextXattr(rs[0].xattr, XattrBytes(rs[0]), XattrsBytes(rs[1..]) + rest);
    }
  }

  /** The record the parser read at the front of `data`, with what it skipped. */
  function XattrRecordAt(data: seq<byte>): XattrRecord
    requires ParseXattr(data).Some?
  {
    XattrRecord(data[..25], data[29], ParseXattr(data).value.0)
  }

  function XattrRecordsIn(data: seq<byte>): seq<XattrRecord>
    decreases |data|
  {
    match ParseXattr(data)
    case None => []
    case Some((_, n)) => [XattrRecordAt(data)] + XattrRecordsIn(data[n..])
  }

  lemma WriteXattr(data: seq<byte>)
    requires ParseXattr(data).Some?
    ensures XattrPrintable(XattrRecordAt(data))
    ensures XattrBytes(XattrRecordAt(data)) == data[..ParseXattr(data).value.1]
  {
    hide LeBytes, LeValue, Field;
    Pow256Values();
    var n := ParseXattr(data).value.1;
    var nameEnd := XATTR_NAME + LeU16(data, 27);
    WriteNumber(data, 25, 2);
    WriteNumber(data, 27, 2);
    Cut(data, 0, 25, 27);
    Cut(data, 0, 27, 29);
    Cut(data, 0, 29, 30);
    assert data[29..30] == [data[29]];
    Cut(data, 0, 30, nameEnd);
    Cut(data, 0, nameEnd, n);
    assert data[0..25] == data[..25] && data[0..n] == data[..n];
  }

  lemma XattrsBytesCons(r: XattrRecord, tail: seq<XattrRecord>)
    requires XattrPrintable(r) && XattrsPrintable(tail)
    ensures XattrsPrintable([r] + tail)
    ensures XattrsBytes([r] + tail) == XattrBytes(r) + XattrsBytes(tail)
    ensures Attributes([r] + tail) == [r.xattr] + Attributes(tail)
  {
    hide XattrPrintable;
    assert ([r] + tail)[1..] == tail;
  }

  /**
    For arbitrary bytes: the parsed attributes print back to exactly the consumed
    prefix, and the suffix left starts no record.
  */
  lemma {:induction false} XattrsReprint(data: seq<byte>)
    ensures XattrsPrintable(XattrRecordsIn(data))
    ensures Attributes(XattrRecordsIn(data)) == XattrsIn(data)
    ensures XattrsBytes(XattrRecordsIn(data)) == data[..XattrsLength(data)]
    ensures ParseXattr(data[XattrsLength(data)..]).None?
    decreases |data|
  {
    hide ParseXattr, XattrBytes, XattrPrintable;
    match ParseXattr(data)
    case None =>
      assert data[0..] == data;
    case Some((x, n)) =>
      var tail := data[n..];
      XattrsReprint(tail);
      WriteXattr(data);
      var m := XattrsLength(tail);
      XattrsBytesCons(XattrRecordAt(data), XattrRecordsIn(tail));
      assert data[..n + m] == data[..n] + tail[..m];
      assert data[n + m..] == tail[m..];
  }
}
