/**
  The superblock's `sys_chunk_array` (core/src/chunk.rs): packed
  `[disk key][chunk header][stripes]` entries, parsed until one does not fit.
*/
module SysChunks {
  import opened Wrappers
  import opened Bytes

  const SYS_CHUNK_ARRAY_OFFSET: nat := 0x32b
  const DISK_KEY_SIZE: nat := 17
  const CHUNK_HEADER_SIZE: nat := 48
  const STRIPE_SIZE: nat := 32
  const CHUNK_ITEM_KEY: byte := 228

  datatype DiskKey = DiskKey(objectid: u64, keyType: byte, offset: u64)

  datatype Stripe = Stripe(devid: u64, offset: u64, devUuid: seq<byte>)

  datatype SysChunk = SysChunk(
    key: DiskKey, length: u64, owner: u64, stripeLen: u64, chunkType: u64,
    numStripes: u16, subStripes: u16, stripes: seq<Stripe>)

  function ParseKey(data: seq<byte>, off: nat): DiskKey {
    DiskKey(LeU64(data, off), U8At(data, off + 8), LeU64(data, off + 9))
  }

  function ParseStripe(data: seq<byte>, off: nat): Stripe {
    Stripe(LeU64(data, off), LeU64(data, off + 8), BytesAt(data, off + 16, 16))
  }

  function ParseStripes(data: seq<byte>, off: nat, n: nat): (ss: seq<Stripe>)
    ensures |ss| == n
  {
    if n == 0 then [] else ParseStripes(data, off, n - 1) + [ParseStripe(data, off + (n - 1) * STRIPE_SIZE)]
  }

  /** Translation by one bootstrap chunk. */
  function TranslateBy(c: SysChunk, logical: u64): Option<u64> {
    if c.key.offset + c.length >= U64_LIMIT then None
    else if logical < c.key.offset || logical >= c.key.offset + c.length then None
    else if c.stripes == [] then None
    else if c.stripes[0].offset + (logical - c.key.offset) >= U64_LIMIT then None
    else Some(c.stripes[0].offset + (logical - c.key.offset))
  }

  function EntrySize(numStripes: nat): nat {
    DISK_KEY_SIZE + CHUNK_HEADER_SIZE + numStripes * STRIPE_SIZE
  }

  /** Does a whole entry start at `p` and end by `end`? */
  predicate EntryFits(block: seq<byte>, end: nat, p: nat) {
    p + DISK_KEY_SIZE + CHUNK_HEADER_SIZE <= end
    && p + EntrySize(LeU16(block, p + DISK_KEY_SIZE + 44)) <= end
  }

  function ParseEntry(block: seq<byte>, p: nat): SysChunk {
    var c := p + DISK_KEY_SIZE;
    var n := LeU16(block, c + 44);
    SysChunk(ParseKey(block, p), LeU64(block, c), LeU64(block, c + 8), LeU64(block, c + 16),
      LeU64(block, c + 24), n, LeU16(block, c + 46), ParseStripes(block, c + CHUNK_HEADER_SIZE, n))
  }

  /** Where the entry at `p` ends, by its declared stripe count. */
  function NextEntry(block: seq<byte>, p: nat): (q: nat)
    ensures q > p
  {
    p + EntrySize(LeU16(block, p + DISK_KEY_SIZE + 44))
  }

  /** The entries found from `p` on in the valid region ending at `end`. */
  function EntriesFrom(block: seq<byte>, end: nat, p: nat): seq<SysChunk>
    decreases end - p
  {
    if EntryFits(block, end, p)
    then [ParseEntry(block, p)] + EntriesFrom(block, end, NextEntry(block, p))
    else []
  }

  method CollectStripes(block: seq<byte>, start: nat, n: nat) returns (stripes: seq<Stripe>)
    ensures stripes == ParseStripes(block, start, n)
  {
    stripes := [];
    var s := start;
    for i := 0 to n
      invariant s == start + i * STRIPE_SIZE
      invariant stripes == ParseStripes(block, start, i)
    {
      stripes := stripes + [ParseStripe(block, s)];
      s := s + STRIPE_SIZE;
    }
  }

  method ParseArray(block: seq<byte>, arrayOff: nat, arraySize: u32) returns (out: seq<SysChunk>)
    ensures out == EntriesFrom(block, Min(arrayOff + arraySize, |block|), arrayOff)
  {
    hide LeU16, LeU64, ParseKey, ParseStripes;
    out := [];
    var end := Min(arrayOff + arraySize, |block|);
    var p := arrayOff;
    while true
      invariant out + EntriesFrom(block, end, p) == EntriesFrom(block, end, arrayOff)
      decreases end - p
    {
      var c := p + DISK_KEY_SIZE;
      if c + CHUNK_HEADER_SIZE > end {
        break;
      }
      var numStripes := LeU16(block, c + 44);
      var stripesEnd := c + CHUNK_HEADER_SIZE + numStripes * STRIPE_SIZE;
      if stripesEnd > end {
        break;
      }
      var stripes := CollectStripes(block, c + CHUNK_HEADER_SIZE, numStripes);
      out := out + [SysChunk(ParseKey(block, p), LeU64(block, c), LeU64(block, c + 8), LeU64(block, c + 16),
        LeU64(block, c + 24), numStripes, LeU16(block, c + 46), stripes)];
      p := stripesEnd;
    }
  }

  // ---- the writer side ----

  /** A stripe whose UUID has its on-disk width. */
  predicate StripeFormed(s: Stripe) {
    |s.devUuid| == 16
  }

  predicate StripesFormed(ss: seq<Stripe>) {
    forall i :: 0 <= i < |ss| ==> StripeFormed(ss[i])
  }

  predicate Formed(c: SysChunk) {
    |c.stripes| == c.numStripes && StripesFormed(c.stripes)
  }

  function KeyBytes(k: DiskKey): (bs: seq<byte>)
    ensures |bs| == DISK_KEY_SIZE
  {
    LeBytes(k.objectid, 8) + [k.keyType] + LeBytes(k.offset, 8)
  }

  function StripeBytes(s: Stripe): (bs: seq<byte>)
    requires StripeFormed(s)
    ensures |bs| == STRIPE_SIZE
  {
    LeBytes(s.devid, 8) + LeBytes(s.offset, 8) + s.devUuid
  }

  function StripesBytes(ss: seq<Stripe>): (bs: seq<byte>)
    requires StripesFormed(ss)
    ensures |bs| == |ss| * STRIPE_SIZE
  {
    if ss == [] then [] else StripesBytes(ss[..|ss| - 1]) + StripeBytes(ss[|ss| - 1])
  }

  /** `hints` are the three geometry words the reader skips. */
  function HeaderBytes(length: u64, owner: u64, stripeLen: u64, chunkType: u64, hints: seq<byte>,
      numStripes: u16, subStripes: u16): (bs: seq<byte>)
    requires |hints| == 12
    ensures |bs| == CHUNK_HEADER_SIZE
  {
    LeBytes(length, 8) + LeBytes(owner, 8) + LeBytes(stripeLen, 8) + LeBytes(chunkType, 8) + hints
    + LeBytes(numStripes, 2) + LeBytes(subStripes, 2)
  }

  function EntryBytes(c: SysChunk, hints: seq<byte>): (bs: seq<byte>)
    requires Formed(c) && |hints| == 12
    ensures |bs| == EntrySize(c.numStripes)
  {
    KeyBytes(c.key)
    + HeaderBytes(c.length, c.owner, c.stripeLen, c.chunkType, hints, c.numStripes, c.subStripes)
    + StripesBytes(c.stripes)
  }

  /** An entry as written: the chunk and its skipped geometry words. */
  datatype Record = Record(chunk: SysChunk, hints: seq<byte>)

  predicate RecordFormed(r: Record) {
    Formed(r.chunk) && |r.hints| == 12
  }

  predicate AllFormed(rs: seq<Record>) {
    forall i :: 0 <= i < |rs| ==> RecordFormed(rs[i])
  }

  function ArrayBytes(rs: seq<Record>): seq<byte>
    requires AllFormed(rs)
  {
    if rs == [] then [] else EntryBytes(rs[0].chunk, rs[0].hints) + ArrayBytes(rs[1..])
  }

  function Chunks(rs: seq<Record>): (cs: seq<SysChunk>)
    ensures |cs| == |rs|
  {
    if rs == [] then [] else [rs[0].chunk] + Chunks(rs[1..])
  }

  // ---- field lemmas ----

  lemma ReadKey(data: seq<byte>, p: nat, k: DiskKey)
    requires p + DISK_KEY_SIZE <= |data| && data[p..p + DISK_KEY_SIZE] == KeyBytes(k)
    ensures ParseKey(data, p) == k
  {
    Pow256Values();
    var piece := KeyBytes(k);
    ReadNumber(data, p, piece, 0, 8, k.objectid);
    ReadNumber(data, p, piece, 9, 8, k.offset);
    FieldInSlice(data, p, piece, 0, 0);
    assert piece[8] == k.keyType;
  }

  lemma ReadStripe(data: seq<byte>, p: nat, s: Stripe)
    requires StripeFormed(s)
    requires p + STRIPE_SIZE <= |data| && data[p..p + STRIPE_SIZE] == StripeBytes(s)
    ensures ParseStripe(data, p) == s
  {
    Pow256Values();
    var piece := StripeBytes(s);
    ReadNumber(data, p, piece, 0, 8, s.devid);
    ReadNumber(data, p, piece, 8, 8, s.offset);
    FieldInSlice(data, p, piece, 16, 16);
  }

  lemma {:induction false} ReadStripes(data: seq<byte>, p: nat, ss: seq<Stripe>)
    requires StripesFormed(ss)
    requires p + |StripesBytes(ss)| <= |data| && data[p..p + |StripesBytes(ss)|] == StripesBytes(ss)
    ensures ParseStripes(data, p, |ss|) == ss
  {
    hide ParseStripe, StripeBytes;
    if ss != [] {
      var n := |ss| - 1;
      var whole := StripesBytes(ss);
      var q := n * STRIPE_SIZE;
      Within(data, p, whole, 0, q);
      Within(data, p, whole, q, q + STRIPE_SIZE);
      ReadStripes(data, p, ss[..n]);
      ReadStripe(data, p + q, ss[n]);
    }
  }

  lemma {:induction false} HeaderWords(length: u64, owner: u64, stripeLen: u64, chunkType: u64,
      hints: seq<byte>, numStripes: u16, subStripes: u16)
    requires |hints| == 12
    ensures var bs := HeaderBytes(length, owner, stripeLen, chunkType, hints, numStripes, subStripes);
      bs[0..8] == LeBytes(length, 8) && bs[8..16] == LeBytes(owner, 8)
      && bs[16..24] == LeBytes(stripeLen, 8) && bs[24..32] == LeBytes(chunkType, 8)
      && bs[44..46] == LeBytes(numStripes, 2) && bs[46..48] == LeBytes(subStripes, 2)
  {
    hide LeBytes;
    var words := LeBytes(length, 8) + LeBytes(owner, 8) + LeBytes(stripeLen, 8) + LeBytes(chunkType, 8);
    var bs := HeaderBytes(length, owner, stripeLen, chunkType, hints, numStripes, subStripes);
    assert words[0..8] == LeBytes(length, 8) && words[8..16] == LeBytes(owner, 8);
    assert words[16..24] == LeBytes(stripeLen, 8) && words[24..32] == LeBytes(chunkType, 8);
    assert bs[..32] == words;
    Within(bs, 0, words, 0, 8);
    Within(bs, 0, words, 8, 16);
    Within(bs, 0, words, 16, 24);
    Within(bs, 0, words, 24, 32);
    assert bs[44..] == LeBytes(numStripes, 2) + LeBytes(subStripes, 2);
    assert bs[44..46] == bs[44..][..2] && bs[46..48] == bs[44..][2..];
  }

  lemma ReadChunkHeader(data: seq<byte>, c: nat, length: u64, owner: u64, stripeLen: u64, chunkType: u64,
      hints: seq<byte>, numStripes: u16, subStripes: u16)
    requires |hints| == 12
    requires c + CHUNK_HEADER_SIZE <= |data|
    requires data[c..c + CHUNK_HEADER_SIZE]
      == HeaderBytes(length, owner, stripeLen, chunkType, hints, numStripes, subStripes)
    ensures LeU64(data, c) == length && LeU64(data, c + 8) == owner && LeU64(data, c + 16) == stripeLen
    ensures LeU64(data, c + 24) == chunkType
    ensures LeU16(data, c + 44) == numStripes && LeU16(data, c + 46) == subStripes
  {
    hide HeaderBytes, LeBytes, LeValue, Field;
    Pow256Values();
    var piece := HeaderBytes(length, owner, stripeLen, chunkType, hints, numStripes, subStripes);
    HeaderWords(length, owner, stripeLen, chunkType, hints, numStripes, subStripes);
    ReadNumber(data, c, piece, 0, 8, length);
    ReadNumber(data, c, piece, 8, 8, owner);
    ReadNumber(data, c, piece, 16, 8, stripeLen);
    ReadNumber(data, c, piece, 24, 8, chunkType);
    ReadNumber(data, c, piece, 44, 2, numStripes);
    ReadNumber(data, c, piece, 46, 2, subStripes);
  }

  lemma ReadEntry(data: seq<byte>, p: nat, r: Record)
    requires RecordFormed(r)
    requires p + |EntryBytes(r.chunk, r.hints)| <= |data|
    requires data[p..p + |EntryBytes(r.chunk, r.hints)|] == EntryBytes(r.chunk, r.hints)
    ensures LeU16(data, p + DISK_KEY_SIZE + 44) == r.chunk.numStripes
    ensures ParseEntry(data, p) == r.chunk
  {
    var ch := r.chunk;
    var whole := EntryBytes(ch, r.hints);
    var c := p + DISK_KEY_SIZE;
    var s := c + CHUNK_HEADER_SIZE;
    Within(data, p, whole, 0, DISK_KEY_SIZE);
    Within(data, p, whole, DISK_KEY_SIZE, DISK_KEY_SIZE + CHUNK_HEADER_SIZE);
    Within(data, p, whole, DISK_KEY_SIZE + CHUNK_HEADER_SIZE, |whole|);
    ReadKey(data, p, ch.key);
    ReadChunkHeader(data, c, ch.length, ch.owner, ch.stripeLen, ch.chunkType, r.hints, ch.numStripes, ch.subStripes);
    ReadStripes(data, s, ch.stripes);
  }

  /** A written entry fits, parses back, and ends where its bytes end. */
  lemma ReadEntryFits(data: seq<byte>, end: nat, p: nat, r: Record)
    requires RecordFormed(r)
    requires p + |EntryBytes(r.chunk, r.hints)| <= end <= |data|
    requires data[p..p + |EntryBytes(r.chunk, r.hints)|] == EntryBytes(r.chunk, r.hints)
    ensures EntryFits(data, end, p) && ParseEntry(data, p) == r.chunk
    ensures NextEntry(data, p) == p + |EntryBytes(r.chunk, r.hints)|
  {
    ReadEntry(data, p, r);
  }

  lemma NothingAtEnd(block: seq<byte>, end: nat)
    ensures !EntryFits(block, end, end)
  {
  }

  // ---- the codec's laws ----

  /** Parsing an encoded list of entries gives the list back, whatever surrounds it. */
  lemma {:induction false} ArrayRoundTrip(block: seq<byte>, p: nat, end: nat, rs: seq<Record>)
    requires AllFormed(rs)
    requires p <= end <= |block| && block[p..end] == ArrayBytes(rs)
    ensures EntriesFrom(block, end, p) == Chunks(rs)
    decreases |rs|
  {
    hide EntryBytes, EntryFits, NextEntry, ParseEntry;
    if rs == [] {
      NothingAtEnd(block, end);
    } else {
      var e := EntryBytes(rs[0].chunk, rs[0].hints);
      var next := p + |e|;
      Within(block, p, ArrayBytes(rs), 0, |e|);
      Within(block, p, ArrayBytes(rs), |e|, end - p);
      ReadEntryFits(block, end, p, rs[0]);
      ArrayRoundTrip(block, next, end, rs[1..]);
    }
  }

  /** Where the parser stopped. */
  function EntriesEnd(block: seq<byte>, end: nat, p: nat): (q: nat)
    ensures p <= q && (p <= end ==> q <= end)
    decreases end - p
  {
    if EntryFits(block, end, p) then EntriesEnd(block, end, NextEntry(block, p)) else p
  }

  /** An entry with the geometry words the parser skips. */
  function RecordAt(block: seq<byte>, p: nat): Record {
    Record(ParseEntry(block, p), BytesAt(block, p + DISK_KEY_SIZE + 32, 12))
  }

  function RecordsFrom(block: seq<byte>, end: nat, p: nat): seq<Record>
    decreases end - p
  {
    if EntryFits(block, end, p) then [RecordAt(block, p)] + RecordsFrom(block, end, NextEntry(block, p)) else []
  }

  lemma WriteKey(data: seq<byte>, p: nat)
    requires p + DISK_KEY_SIZE <= |data|
    ensures KeyBytes(ParseKey(data, p)) == data[p..p + DISK_KEY_SIZE]
  {
    hide LeBytes, LeValue, Field;
    WriteNumber(data, p, 8);
    WriteNumber(data, p + 9, 8);
    Cut(data, p, p + 8, p + 17);
    Cut(data, p + 8, p + 9, p + 17);
    assert data[p + 8..p + 9] == [U8At(data, p + 8)];
  }

  lemma WriteStripe(data: seq<byte>, p: nat)
    requires p + STRIPE_SIZE <= |data|
    ensures StripeFormed(ParseStripe(data, p))
    ensures StripeBytes(ParseStripe(data, p)) == data[p..p + STRIPE_SIZE]
  {
    hide LeBytes, LeValue, Field;
    WriteNumber(data, p, 8);
    WriteNumber(data, p + 8, 8);
    Cut(data, p, p + 16, p + 32);
    Cut(data, p, p + 8, p + 16);
  }

  lemma StripesAppend(ss: seq<Stripe>, s: Stripe)
    requires StripesFormed(ss) && StripeFormed(s)
    ensures StripesFormed(ss + [s]) && StripesBytes(ss + [s]) == StripesBytes(ss) + StripeBytes(s)
  {
    assert (ss + [s])[..|ss|] == ss;
  }

  lemma {:induction false} WriteStripes(data: seq<byte>, p: nat, n: nat)
    requires p + n * STRIPE_SIZE <= |data|
    ensures StripesFormed(ParseStripes(data, p, n))
    ensures StripesBytes(ParseStripes(data, p, n)) == data[p..p + n * STRIPE_SIZE]
  {
    hide ParseStripe, StripeBytes;
    if n > 0 {
      var init, last := ParseStripes(data, p, n - 1), ParseStripe(data, p + (n - 1) * STRIPE_SIZE);
      WriteStripes(data, p, n - 1);
      WriteStripe(data, p + (n - 1) * STRIPE_SIZE);
      StripesAppend(init, last);
      var q := p + (n - 1) * STRIPE_SIZE;
      Cut(data, p, q, p + n * STRIPE_SIZE);
    }
  }

  lemma WriteHeader(data: seq<byte>, c: nat)
    requires c + CHUNK_HEADER_SIZE <= |data|
    ensures HeaderBytes(LeU64(data, c), LeU64(data, c + 8), LeU64(data, c + 16), LeU64(data, c + 24),
      BytesAt(data, c + 32, 12), LeU16(data, c + 44), LeU16(data, c + 46)) == data[c..c + CHUNK_HEADER_SIZE]
  {
    hide LeBytes, LeValue, Field;
    WriteNumber(data, c, 8);
    WriteNumber(data, c + 8, 8);
    WriteNumber(data, c + 16, 8);
    WriteNumber(data, c + 24, 8);
    WriteNumber(data, c + 44, 2);
    WriteNumber(data, c + 46, 2);
    Cut(data, c, c + 46, c + 48);
    Cut(data, c, c + 44, c + 46);
    Cut(data, c, c + 32, c + 44);
    Cut(data, c, c + 24, c + 32);
    Cut(data, c, c + 16, c + 24);
    Cut(data, c, c + 8, c + 16);
  }

  lemma WriteEntry(data: seq<byte>, p: nat)
    requires EntryFits(data, |data|, p)
    ensures RecordFormed(RecordAt(data, p))
    ensures EntryBytes(RecordAt(data, p).chunk, RecordAt(data, p).hints) == data[p..NextEntry(data, p)]
  {
    var c := p + DISK_KEY_SIZE;
    var s := c + CHUNK_HEADER_SIZE;
    hide LeU16, LeU64, BytesAt, ParseKey, ParseStripes, KeyBytes, HeaderBytes, StripesBytes;
    WriteKey(data, p);
    WriteHeader(data, c);
    WriteStripes(data, s, LeU16(data, c + 44));
    Cut(data, p, s, NextEntry(data, p));
    Cut(data, p, c, s);
  }

  lemma RecordsCons(r: Record, tail: seq<Record>)
    requires RecordFormed(r) && AllFormed(tail)
    ensures AllFormed([r] + tail) && Chunks([r] + tail) == [r.chunk] + Chunks(tail)
    ensures ArrayBytes([r] + tail) == EntryBytes(r.chunk, r.hints) + ArrayBytes(tail)
  {
    assert ([r] + tail)[1..] == tail;
  }

  /**
    For arbitrary bytes: the entries parsed print back to exactly the bytes
    consumed, each holds as many stripes as it declares, and what is left starts
    no entry that fits.
  */
  lemma {:induction false} ArrayReprint(block: seq<byte>, end: nat, p: nat)
    requires p <= end <= |block|
    ensures AllFormed(RecordsFrom(block, end, p))
    ensures Chunks(RecordsFrom(block, end, p)) == EntriesFrom(block, end, p)
    ensures ArrayBytes(RecordsFrom(block, end, p)) == block[p..EntriesEnd(block, end, p)]
    ensures !EntryFits(block, end, EntriesEnd(block, end, p))
    decreases end - p
  {
    if EntryFits(block, end, p) {
      var r, next := RecordAt(block, p), NextEntry(block, p);
      ArrayReprint(block, end, next);
      WriteEntry(block, p);
      var tail := RecordsFrom(block, end, next);
      RecordsCons(r, tail);
      Cut(block, p, next, EntriesEnd(block, end, next));
    }
  }

  /** Declaring a smaller array only drops entries from the end. */
  lemma {:induction false} SmallerSizeIsPrefix(block: seq<byte>, small: nat, large: nat, p: nat)
    requires small <= large
    ensures EntriesFrom(block, small, p) <= EntriesFrom(block, large, p)
    decreases small - p
  {
    if EntryFits(block, small, p) {
      SmallerSizeIsPrefix(block, small, large, NextEntry(block, p));
    }
  }
}
