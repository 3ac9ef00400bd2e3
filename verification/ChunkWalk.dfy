/**
  The chunk-tree walk (core/src/node.rs): an explicit-stack traversal that
  translates its own pointers through the map it is still building, with a
  bootstrap fallback and a visit budget.
*/
module ChunkWalk {
  import opened Wrappers
  import opened Bytes
  import opened SysChunks
  import opened Nodes
  import opened Superblocks
  import opened ChunkMaps

  const WALK_BUDGET: nat := 4096

  /** The mutable map: a growing vector of entries. */
  class ChunkMap {
    var entries: seq<MapEntry>

    constructor ()
      ensures entries == []
    {
      entries := [];
    }

    method AddFromNode(node: Node)
      modifies this
      ensures entries == old(entries) + NodeEntries(node)
    {
      hide ChunksIn, StripePairs;
      var chunks := node.ChunkItems();
      for i := 0 to |chunks|
        invariant entries + EntriesOfChunks(chunks[i..]) == old(entries) + NodeEntries(node)
      {
        var (logical, chunk) := chunks[i];
        assert chunks[i..][1..] == chunks[i + 1..];
        entries := entries + [MapEntry(logical, chunk.length, StripePairs(chunk.stripes))];
      }
    }

    method LogicalToPhysical(logical: u64) returns (r: Option<(u64, u64)>)
      ensures r == Translate(entries, logical)
    {
      var i := 0;
      while i < |entries|
        invariant i <= |entries|
        invariant Translate(entries[i..], logical) == Translate(entries, logical)
      {
        var e := entries[i];
        assert entries[i..][0] == e && entries[i..][1..] == entries[i + 1..];
        if e.logicalStart + e.length >= U64_LIMIT {
          return None;
        }
        if e.logicalStart <= logical && logical < e.logicalStart + e.length {
          if e.stripes == [] {
            return None;
          }
          var (devid, physStart) := e.stripes[0];
          if physStart + (logical - e.logicalStart) >= U64_LIMIT {
            return None;
          }
          return Some((devid, physStart + (logical - e.logicalStart)));
        }
        i := i + 1;
      }
      return None;
    }
  }

  /** The walk's view of the image: what stays fixed while it runs. */
  datatype Ground = Ground(image: seq<byte>, nodesize: u32, boot: seq<MapEntry>)

  /** The map built so far, falling back to the bootstrap. */
  function Locate(g: Ground, entries: seq<MapEntry>, logical: u64): Option<u64> {
    match Translate(entries, logical)
    case Some((_, phys)) => Some(phys)
    case None => Physical(Translate(g.boot, logical))
  }

  /** `start.saturating_add(nodesize)`. */
  function EndOf(nodesize: u32, phys: u64): u64 {
    Min(phys + nodesize, U64_LIMIT - 1)
  }

  /** The traversal from a given stack. */
  function WalkFrom(g: Ground, entries: seq<MapEntry>, stack: seq<u64>, rooted: bool, budget: nat)
    : Result<seq<MapEntry>>
    decreases budget, |stack|
  {
    if stack == [] || budget == 0 then Ok(entries)
    else
      var logical, rest := stack[|stack| - 1], stack[..|stack| - 1];
      match Locate(g, entries, logical)
      case None =>
        if !rooted then Err(Truncated(ChunkRootLogical, logical, 0))
        else WalkFrom(g, entries, rest, rooted, budget - 1)
      case Some(phys) =>
        if phys + g.nodesize > |g.image| then
          if entries == [] then Err(Truncated(ChunkRootNode, EndOf(g.nodesize, phys), |g.image|))
          else WalkFrom(g, entries, rest, true, budget - 1)
        else
          match ParsedNode(g.image[phys..phys + g.nodesize])
          case Err(_) => WalkFrom(g, entries, rest, true, budget - 1)
          case Ok(node) =>
            if node.IsLeaf()
            then WalkFrom(g, entries + NodeEntries(node), rest, true, budget - 1)
            else WalkFrom(g, entries, rest + Blockptrs(node.Pointers()), true, budget - 1)
  }

  function GroundOf(image: seq<byte>, sb: Superblock): Ground {
    Ground(image, sb.nodesize, BootEntries(sb.sysChunks))
  }

  /** The entries `walk` ends with, or its error. */
  function Walked(image: seq<byte>, sb: Superblock): Result<seq<MapEntry>> {
    WalkFrom(GroundOf(image, sb), [], [sb.chunkRoot], false, WALK_BUDGET)
  }

  /** `ChunkMap::walk(..).unwrap_or_default()`. */
  function WalkedOrEmpty(image: seq<byte>, sb: Superblock): seq<MapEntry> {
    var r := Walked(image, sb);
    if r.Ok? then r.value else []
  }

  /** A result that carries a map object instead of its entries. */
  datatype Outcome = Built(map_: ChunkMap) | Failed(error: BtrfsError)

  method SeedBoot(cs: seq<SysChunk>) returns (boot: ChunkMap)
    ensures fresh(boot) && boot.entries == BootEntries(cs)
  {
    boot := new ChunkMap();
    for i := 0 to |cs|
      invariant fresh(boot) && boot.entries + BootEntries(cs[i..]) == BootEntries(cs)
    {
      assert cs[i..][1..] == cs[i + 1..];
      boot.entries := boot.entries + [MapEntry(cs[i].key.offset, cs[i].length, StripePairs(cs[i].stripes))];
    }
  }

  method LocateNode(m: ChunkMap, boot: ChunkMap, ghost g: Ground, logical: u64) returns (r: Option<u64>)
    requires g.boot == boot.entries
    ensures r == Locate(g, m.entries, logical)
  {
    var phys := m.LogicalToPhysical(logical);
    if phys.None? {
      phys := boot.LogicalToPhysical(logical);
    }
    r := if phys.Some? then Some(phys.value.1) else None;
  }

  method Walk(image: seq<byte>, sb: Superblock) returns (r: Outcome)
    ensures r.Built? ==> fresh(r.map_) && Walked(image, sb) == Ok(r.map_.entries)
    ensures r.Failed? ==> Walked(image, sb) == Err(r.error)
  {
    hide ParsedNode, NodeEntries, Locate;
    var boot := SeedBoot(sb.sysChunks);
    ghost var g := GroundOf(image, sb);
    var nodesize := sb.nodesize;
    var m := new ChunkMap();
    var budget := WALK_BUDGET;
    var stack := [sb.chunkRoot];
    var rooted := false;
    while stack != []
      invariant fresh(m) && fresh(boot) && m != boot && boot.entries == g.boot
      invariant WalkFrom(g, m.entries, stack, rooted, budget) == Walked(image, sb)
      decreases budget, |stack|
    {
      var logical := stack[|stack| - 1];
      stack := stack[..|stack| - 1];
      if budget == 0 {
        break;
      }
      budget := budget - 1;
      var phys := LocateNode(m, boot, g, logical);
      if phys.None? {
        if !rooted {
          return Failed(Truncated(ChunkRootLogical, logical, 0));
        }
        continue;
      }
      rooted := true;
      var start := phys.value;
      if start + nodesize > |image| {
        if m.entries == [] {
          return Failed(Truncated(ChunkRootNode, EndOf(nodesize, start), |image|));
        }
        continue;
      }
      var parsed := ParseNode(image[start..start + nodesize]);
      if parsed.Err? {
        continue;
      }
      var node := parsed.value;
      if node.IsLeaf() {
        m.AddFromNode(node);
      } else {
        var ptrs := node.Pointers();
        ghost var before := stack;
        for i := 0 to |ptrs|
          invariant stack + Blockptrs(ptrs[i..]) == before + Blockptrs(ptrs)
        {
          assert ptrs[i..][1..] == ptrs[i + 1..];
          stack := stack + [ptrs[i].blockptr];
        }
        assert stack + Blockptrs(ptrs[|ptrs|..]) == stack;
      }
    }
    return Built(m);
  }

  // ---- the walk refines a recursive traversal ----

  /** An unfolding of the chunk tree by logical addresses. */
  datatype Tree = LeafTree(addr: u64) | InnerTree(addr: u64, kids: seq<Tree>)

  function Kids(t: Tree): seq<Tree> {
    if t.InnerTree? then t.kids else []
  }

  function Addrs(ts: seq<Tree>): (r: seq<u64>)
    ensures |r| == |ts| && forall i :: 0 <= i < |ts| ==> r[i] == ts[i].addr
  {
    if ts == [] then [] else [ts[0].addr] + Addrs(ts[1..])
  }

  /** The node the bootstrap alone finds at `a`. */
  function NodeAt(g: Ground, a: u64): Option<Node> {
    match Physical(Translate(g.boot, a))
    case None => None
    case Some(phys) =>
      if phys + g.nodesize > |g.image| then None
      else
        var r := ParsedNode(g.image[phys..phys + g.nodesize]);
        if r.Ok? then Some(r.value) else None
  }

  /** The image holds this tree: bootstrap-covered, in the image, with these children. */
  predicate Represents(g: Ground, t: Tree)
    decreases t
  {
    NodeAt(g, t.addr).Some?
    && match t
       case LeafTree(a) => NodeAt(g, a).value.IsLeaf()
       case InnerTree(a, kids) =>
         !NodeAt(g, a).value.IsLeaf()
         && Blockptrs(NodeAt(g, a).value.Pointers()) == Addrs(kids)
         && forall i :: 0 <= i < |kids| ==> Represents(g, kids[i])
  }

  predicate AllRepresented(g: Ground, ts: seq<Tree>) {
    forall i :: 0 <= i < |ts| ==> Represents(g, ts[i])
  }

  /** Node addresses in right-to-left pre-order. */
  function Visit(ts: seq<Tree>): seq<u64>
    decreases ts
  {
    if ts == [] then []
    else
      var t := ts[|ts| - 1];
      [t.addr] + (if t.InnerTree? then Visit(t.kids) else []) + Visit(ts[..|ts| - 1])
  }

  /** The chunk entries of the leaf at `a`; an interior node has none. */
  function EntriesAt(g: Ground, a: u64): seq<MapEntry> {
    match NodeAt(g, a)
    case Some(node) => if node.IsLeaf() then NodeEntries(node) else []
    case None => []
  }

  function Gather(g: Ground, addrs: seq<u64>): seq<MapEntry> {
    if addrs == [] then [] else EntriesAt(g, addrs[0]) + Gather(g, addrs[1..])
  }

  /** The plain recursive traversal: all leaves' chunk entries, rightmost child first. */
  function RecursiveEntries(g: Ground, t: Tree): seq<MapEntry>
    decreases t, 0
  {
    match t
    case LeafTree(a) => EntriesAt(g, a)
    case InnerTree(_, kids) => ForestEntries(g, kids)
  }

  function ForestEntries(g: Ground, ts: seq<Tree>): seq<MapEntry>
    decreases ts, 1
  {
    if ts == [] then []
    else RecursiveEntries(g, ts[|ts| - 1]) + ForestEntries(g, ts[..|ts| - 1])
  }

  /** Where a chunk covers a node address it places it where the bootstrap does. */
  predicate Agrees(g: Ground, e: MapEntry, a: u64) {
    Answers(e, a) && Place(e, a).Some? ==> Physical(Translate(g.boot, a)) == Some(Place(e, a).value.1)
  }

  ghost predicate AllAgree(g: Ground, es: seq<MapEntry>, addrs: seq<u64>) {
    forall e, a :: e in es && a in addrs ==> Agrees(g, e, a)
  }

  /** Where no entry disagrees with the bootstrap, it decides where the walk looks. */
  lemma LocateByBootstrap(g: Ground, entries: seq<MapEntry>, a: u64)
    requires forall e :: e in entries ==> Agrees(g, e, a)
    ensures Locate(g, entries, a) == Physical(Translate(g.boot, a))
  {
    if Translate(entries, a).Some? {
      var i := TranslateWitness(entries, a);
      assert entries[i] in entries;
    }
  }

  lemma {:induction false} GatherSplit(g: Ground, a: seq<u64>, b: seq<u64>)
    ensures Gather(g, a + b) == Gather(g, a) + Gather(g, b)
    decreases |a|
  {
    hide EntriesAt;
    if a == [] {
      assert a + b == b;
    } else {
      GatherSplit(g, a[1..], b);
      assert (a + b)[1..] == a[1..] + b;
    }
  }

  /** The top of the stack and its subtree. */
  function VisitTop(t: Tree): seq<u64> {
    [t.addr] + Visit(Kids(t))
  }

  lemma VisitUnfold(ts: seq<Tree>)
    ensures ts == [] ==> Visit(ts) == []
    ensures ts != [] ==> Visit(ts) == VisitTop(ts[|ts| - 1]) + Visit(ts[..|ts| - 1])
  {
    if ts != [] {
      var t := ts[|ts| - 1];
      assert Visit(Kids(t)) == if t.InnerTree? then Visit(t.kids) else [];
    }
  }

  lemma {:induction false} VisitSplit(a: seq<Tree>, b: seq<Tree>)
    ensures Visit(a + b) == Visit(b) + Visit(a)
    decreases |b|
  {
    hide Visit, VisitTop;
    VisitUnfold(b);
    if b == [] {
      assert a + b == a;
    } else {
      var t, rest := b[|b| - 1], b[..|b| - 1];
      VisitSplit(a, rest);
      assert (a + b)[..|a + b| - 1] == a + rest;
      assert (a + b)[|a + b| - 1] == t;
      VisitUnfold(a + b);
    }
  }

  lemma AddrsSplit(a: seq<Tree>, b: seq<Tree>)
    ensures Addrs(a + b) == Addrs(a) + Addrs(b)
  {
  }

  /** One turn of the walk at a node the bootstrap finds. */
  lemma WalkNode(g: Ground, entries: seq<MapEntry>, rest: seq<u64>, a: u64, rooted: bool, budget: nat)
    requires budget > 0 && NodeAt(g, a).Some?
    requires Locate(g, entries, a) == Physical(Translate(g.boot, a))
    ensures var node := NodeAt(g, a).value;
      WalkFrom(g, entries, rest + [a], rooted, budget)
      == if node.IsLeaf() then WalkFrom(g, entries + NodeEntries(node), rest, true, budget - 1)
      else WalkFrom(g, entries, rest + Blockptrs(node.Pointers()), true, budget - 1)
  {
    hide NodeEntries, ParsedNode, Locate, Translate;
    var stack := rest + [a];
    assert stack[|stack| - 1] == a && stack[..|stack| - 1] == rest;
  }

  lemma AddrOf(t: Tree)
    ensures Addrs([t]) == [t.addr] && Addrs([]) == []
  {
  }

  /** The rest of the walk after one node, with that node's children on the stack. */
  lemma WalkStep(g: Ground, ts: seq<Tree>, entries: seq<MapEntry>, rooted: bool, budget: nat)
    requires ts != [] && budget > 0 && AllRepresented(g, ts)
    requires forall e :: e in entries ==> Agrees(g, e, ts[|ts| - 1].addr)
    ensures var t := ts[|ts| - 1];
      WalkFrom(g, entries, Addrs(ts), rooted, budget)
      == WalkFrom(g, entries + EntriesAt(g, t.addr), Addrs(ts[..|ts| - 1] + Kids(t)), true, budget - 1)
  {
    hide NodeEntries, NodeAt, Locate, WalkFrom, Addrs, Agrees;
    var t, rest := ts[|ts| - 1], ts[..|ts| - 1];
    assert Represents(g, t);
    LocateByBootstrap(g, entries, t.addr);
    assert rest + [t] == ts;
    AddrsSplit(rest, [t]);
    AddrsSplit(rest, Kids(t));
    AddrOf(t);
    WalkNode(g, entries, Addrs(rest), t.addr, rooted, budget);
    if t.LeafTree? {
      assert Addrs(rest) + [] == Addrs(rest);
    } else {
      assert entries + [] == entries;
    }
  }

  lemma AgreeStep(g: Ground, entries: seq<MapEntry>, found: seq<MapEntry>, a: u64, later: seq<u64>)
    requires AllAgree(g, entries + found, [a] + later)
    ensures forall e :: e in entries ==> Agrees(g, e, a)
    ensures AllAgree(g, entries + found, later)
  {
    hide Agrees;
    assert a in [a] + later;
    forall e | e in entries
      ensures Agrees(g, e, a)
    {
      assert e in entries + found;
    }
  }

  lemma GatherCons(g: Ground, a: u64, later: seq<u64>)
    ensures Gather(g, [a] + later) == EntriesAt(g, a) + Gather(g, later)
  {
    hide EntriesAt;
    assert ([a] + later)[1..] == later;
  }

  lemma KidsRepresented(g: Ground, t: Tree)
    requires Represents(g, t)
    ensures AllRepresented(g, Kids(t))
  {
  }

  /** What remains to visit after the top of the stack. */
  lemma VisitStep(ts: seq<Tree>)
    requires ts != []
    ensures var t := ts[|ts| - 1]; var next := ts[..|ts| - 1] + Kids(t);
      Visit(ts) == [t.addr] + Visit(next) && Visit(ts)[1..] == Visit(next)
  {
    hide Visit;
    var t, rest := ts[|ts| - 1], ts[..|ts| - 1];
    VisitUnfold(ts);
    VisitSplit(rest, Kids(t));
    assert [t.addr] + (Visit(Kids(t)) + Visit(rest)) == [t.addr] + Visit(Kids(t)) + Visit(rest);
  }

  lemma WalkDone(g: Ground, ts: seq<Tree>, entries: seq<MapEntry>, rooted: bool, budget: nat)
    requires ts == [] || budget == 0
    ensures WalkFrom(g, entries, Addrs(ts), rooted, budget) == Ok(entries + Gather(g, Take(Visit(ts), budget)))
  {
    assert Take(Visit(ts), budget) == [];
    assert entries + [] == entries;
  }

  /** The walk visits a forest in right-to-left pre-order until its budget is spent. */
  lemma {:induction false} WalkVisits(g: Ground, ts: seq<Tree>, entries: seq<MapEntry>, rooted: bool, budget: nat)
    requires AllRepresented(g, ts)
    requires AllAgree(g, entries + Gather(g, Visit(ts)), Visit(ts))
    ensures WalkFrom(g, entries, Addrs(ts), rooted, budget) == Ok(entries + Gather(g, Take(Visit(ts), budget)))
    decreases budget
  {
    hide EntriesAt, Agrees, Represents, Visit, WalkFrom, AllAgree, Gather;
    if ts == [] || budget == 0 {
      WalkDone(g, ts, entries, rooted, budget);
    } else {
      var t, rest := ts[|ts| - 1], ts[..|ts| - 1];
      var next := rest + Kids(t);
      var more := entries + EntriesAt(g, t.addr);
      VisitStep(ts);
      GatherCons(g, t.addr, Visit(next));
      assert entries + Gather(g, Visit(ts)) == more + Gather(g, Visit(next));
      AgreeStep(g, entries, Gather(g, Visit(ts)), t.addr, Visit(next));
      WalkStep(g, ts, entries, rooted, budget);
      KidsRepresented(g, t);
      WalkVisits(g, next, more, true, budget - 1);
      var seen := Take(Visit(next), budget - 1);
      assert Take(Visit(ts), budget) == [t.addr] + seen;
      GatherCons(g, t.addr, seen);
      assert more + Gather(g, seen) == entries + (EntriesAt(g, t.addr) + Gather(g, seen));
    }
  }

  lemma TreeEntries(g: Ground, t: Tree)
    requires Represents(g, t)
    ensures RecursiveEntries(g, t) == EntriesAt(g, t.addr) + ForestEntries(g, Kids(t))
  {
    hide NodeEntries, NodeAt;
    assert Kids(t) == if t.InnerTree? then t.kids else [];
  }

  lemma GatherVisit(g: Ground, t: Tree, later: seq<u64>)
    ensures Gather(g, VisitTop(t) + later) == EntriesAt(g, t.addr) + Gather(g, Visit(Kids(t))) + Gather(g, later)
  {
    hide EntriesAt, Gather, Visit;
    GatherSplit(g, VisitTop(t), later);
    GatherCons(g, t.addr, Visit(Kids(t)));
  }

  lemma {:induction false} GatherIsRecursive(g: Ground, ts: seq<Tree>)
    requires AllRepresented(g, ts)
    ensures Gather(g, Visit(ts)) == ForestEntries(g, ts)
    decreases ts
  {
    hide EntriesAt, Represents, Visit, VisitTop, RecursiveEntries, NodeEntries;
    VisitUnfold(ts);
    if ts != [] {
      var t, rest := ts[|ts| - 1], ts[..|ts| - 1];
      KidsRepresented(g, t);
      if t.InnerTree? {
        GatherIsRecursive(g, t.kids);
      } else {
        VisitUnfold([]);
      }
      GatherIsRecursive(g, rest);
      GatherVisit(g, t, Visit(rest));
      TreeEntries(g, t);
    }
  }

  /**
    Over any chunk tree in the image whose chunks agree with the bootstrap on the
    tree's own addresses, `walk` returns the chunk entries of the first 4096 node
    occurrences in right-to-left pre-order; with at most 4096 occurrences that is
    what the recursive traversal returns.
  */
  lemma {:induction false} WalkRefinesRecursion(image: seq<byte>, sb: Superblock, t: Tree)
    requires t.addr == sb.chunkRoot && Represents(GroundOf(image, sb), t)
    requires AllAgree(GroundOf(image, sb), RecursiveEntries(GroundOf(image, sb), t), Visit([t]))
    ensures Walked(image, sb) == Ok(Gather(GroundOf(image, sb), Take(Visit([t]), WALK_BUDGET)))
    ensures |Visit([t])| <= WALK_BUDGET ==> Walked(image, sb) == Ok(RecursiveEntries(GroundOf(image, sb), t))
  {
    hide Represents, EntriesAt;
    var g := GroundOf(image, sb);
    GatherIsRecursive(g, [t]);
    assert ForestEntries(g, []) == [];
    assert ForestEntries(g, [t]) == RecursiveEntries(g, t) + [];
    assert [] + Gather(g, Visit([t])) == RecursiveEntries(g, t);
    WalkVisits(g, [t], [], false, WALK_BUDGET);
    assert Addrs([t]) == [sb.chunkRoot];
    assert [] + Gather(g, Take(Visit([t]), WALK_BUDGET)) == Gather(g, Take(Visit([t]), WALK_BUDGET));
    if |Visit([t])| <= WALK_BUDGET {
      assert Take(Visit([t]), WALK_BUDGET) == Visit([t]);
    }
  }

  // ---- when the walk fails, and when it returns nothing ----

  lemma {:induction false} RootedNeverFailsBootstrap(g: Ground, entries: seq<MapEntry>, stack: seq<u64>, budget: nat)
    ensures var r := WalkFrom(g, entries, stack, true, budget);
      r.Err? ==> r.error.Truncated? && r.error.structure == ChunkRootNode
    decreases budget
  {
    hide ParsedNode, NodeEntries, Locate;
    if stack != [] && budget > 0 {
      var logical, rest := stack[|stack| - 1], stack[..|stack| - 1];
      RootedNeverFailsBootstrap(g, entries, rest, budget - 1);
      if Locate(g, entries, logical).Some? {
        var phys := Locate(g, entries, logical).value;
        if phys + g.nodesize <= |g.image| {
          var r := ParsedNode(g.image[phys..phys + g.nodesize]);
          if r.Ok? {
            RootedNeverFailsBootstrap(g, entries + NodeEntries(r.value), rest, budget - 1);
            RootedNeverFailsBootstrap(g, entries, rest + Blockptrs(r.value.Pointers()), budget - 1);
          }
        }
      }
    }
  }

  /** The bootstrap error is reported exactly when the bootstrap does not cover the chunk root. */
  lemma BootstrapFailureIsLoud(image: seq<byte>, sb: Superblock)
    ensures Walked(image, sb) == Err(Truncated(ChunkRootLogical, sb.chunkRoot, 0))
      <==> Translate(BootEntries(sb.sysChunks), sb.chunkRoot).None?
  {
    hide ParsedNode, NodeEntries;
    var g := GroundOf(image, sb);
    assert Translate([], sb.chunkRoot) == None;
    if Locate(g, [], sb.chunkRoot).Some? {
      var phys := Locate(g, [], sb.chunkRoot).value;
      RootedNeverFailsBootstrap(g, [], [], WALK_BUDGET - 1);
      if phys + g.nodesize <= |g.image| {
        var r := ParsedNode(g.image[phys..phys + g.nodesize]);
        if r.Ok? {
          RootedNeverFailsBootstrap(g, [] + NodeEntries(r.value), [], WALK_BUDGET - 1);
          RootedNeverFailsBootstrap(g, [], [] + Blockptrs(r.value.Pointers()), WALK_BUDGET - 1);
        }
      }
    }
  }

  /** A node size below the header size yields an empty map, not an error, once the root block is in the image. */
  lemma TinyNodesGiveEmptyMap(image: seq<byte>, sb: Superblock)
    requires sb.nodesize < HEADER_SIZE
    ensures Walked(image, sb) == Ok([])
      <==> (match Translate(BootEntries(sb.sysChunks), sb.chunkRoot)
            case None => false
            case Some((_, phys)) => phys + sb.nodesize <= |image|)
  {
    hide NodeEntries;
    var g := GroundOf(image, sb);
    assert Translate([], sb.chunkRoot) == None;
    assert [sb.chunkRoot][..0] == [];
    assert WalkFrom(g, [], [], true, WALK_BUDGET - 1) == Ok([]);
    if Locate(g, [], sb.chunkRoot).Some? {
      var phys := Locate(g, [], sb.chunkRoot).value;
      if phys + g.nodesize <= |g.image| {
        assert ParsedNode(g.image[phys..phys + g.nodesize]).Err?;
      }
    }
  }
}
