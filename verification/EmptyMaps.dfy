/** Exactly when the chunk-tree walk returns an empty map, and when it fails (core/src/node.rs). */
module EmptyMaps {
  import opened Wrappers
  import opened Bytes
  import opened Nodes
  import opened Superblocks
  import opened ChunkMaps
  import opened ChunkWalk

  /** Where the node at `a` points; a leaf or an unreadable address points nowhere. */
  function Pointed(g: Ground, a: u64): seq<u64> {
    match NodeAt(g, a)
    case Some(node) => Blockptrs(node.Pointers())
    case None => []
  }

  /** The addresses a traversal translating through the bootstrap alone takes off its stack. */
  function BootVisit(g: Ground, stack: seq<u64>, budget: nat): seq<u64>
    decreases budget, |stack|
  {
    if stack == [] || budget == 0 then []
    else
      var a, rest := stack[|stack| - 1], stack[..|stack| - 1];
      [a] + BootVisit(g, rest + Pointed(g, a), budget - 1)
  }

  /** The bootstrap places `a` so that its block leaves the image. */
  predicate Outside(g: Ground, a: u64) {
    var at := Physical(Translate(g.boot, a));
    at.Some? && at.value + g.nodesize > |g.image|
  }

  /** The first address that leaves the image, if no leaf with chunks comes before it. */
  function FirstOutside(g: Ground, visit: seq<u64>): Option<u64> {
    if visit == [] then None
    else if Outside(g, visit[0]) then Some(visit[0])
    else if EntriesAt(g, visit[0]) != [] then None
    else FirstOutside(g, visit[1..])
  }

  /** No address leaves the image and no leaf holds a chunk. */
  ghost predicate AllBare(g: Ground, visit: seq<u64>) {
    forall a :: a in visit ==> !Outside(g, a) && EntriesAt(g, a) == []
  }

  function RootNodeError(g: Ground, a: u64): BtrfsError
    requires Outside(g, a)
  {
    Truncated(ChunkRootNode, EndOf(g.nodesize, Physical(Translate(g.boot, a)).value), |g.image|)
  }

  /** Once an entry is in the map the walk cannot fail, and the map only grows. */
  lemma {:induction false} StartedNeverFails(g: Ground, entries: seq<MapEntry>, stack: seq<u64>, budget: nat)
    requires entries != []
    ensures var r := WalkFrom(g, entries, stack, true, budget); r.Ok? && entries <= r.value
    decreases budget
  {
    hide ParsedNode, NodeEntries, Locate;
    if stack != [] && budget > 0 {
      var a, rest := stack[|stack| - 1], stack[..|stack| - 1];
      StartedNeverFails(g, entries, rest, budget - 1);
      if Locate(g, entries, a).Some? && Locate(g, entries, a).value + g.nodesize <= |g.image| {
        var phys := Locate(g, entries, a).value;
        var r := ParsedNode(g.image[phys..phys + g.nodesize]);
        if r.Ok? {
          StartedNeverFails(g, entries + NodeEntries(r.value), rest, budget - 1);
          StartedNeverFails(g, entries, rest + Blockptrs(r.value.Pointers()), budget - 1);
        }
      }
    }
  }

  lemma PointsOrHolds(node: Node)
    ensures node.IsLeaf() ==> Blockptrs(node.Pointers()) == []
  {
  }

  /** One turn with an empty map. */
  lemma BareStep(g: Ground, rest: seq<u64>, a: u64, budget: nat)
    requires budget > 0
    ensures var stack := rest + [a]; var r := WalkFrom(g, [], stack, true, budget);
      if Outside(g, a) then r == Err(RootNodeError(g, a))
      else if EntriesAt(g, a) != [] then r == WalkFrom(g, EntriesAt(g, a), rest, true, budget - 1)
      else r == WalkFrom(g, [], rest + Pointed(g, a), true, budget - 1)
  {
    hide ParsedNode, NodeEntries;
    var stack := rest + [a];
    assert stack[|stack| - 1] == a && stack[..|stack| - 1] == rest;
    assert Translate([], a) == None;
    assert rest + [] == rest;
    if NodeAt(g, a).Some? {
      var node := NodeAt(g, a).value;
      assert [] + NodeEntries(node) == NodeEntries(node);
      PointsOrHolds(node);
    }
  }

  lemma VisitNext(g: Ground, rest: seq<u64>, a: u64, budget: nat)
    requires budget > 0
    ensures BootVisit(g, rest + [a], budget) == [a] + BootVisit(g, rest + Pointed(g, a), budget - 1)
  {
    hide Pointed;
    var stack := rest + [a];
    assert stack[|stack| - 1] == a && stack[..|stack| - 1] == rest;
  }

  lemma BareEnd(g: Ground, stack: seq<u64>, budget: nat)
    requires stack == [] || budget == 0
    ensures BootVisit(g, stack, budget) == [] && WalkFrom(g, [], stack, true, budget) == Ok([])
  {
  }

  /** From an empty map the walk's outcome is decided by the bootstrap's traversal. */
  lemma {:induction false} BareWalk(g: Ground, stack: seq<u64>, budget: nat)
    ensures var visit := BootVisit(g, stack, budget); var r := WalkFrom(g, [], stack, true, budget);
      (r.Err? <==> FirstOutside(g, visit).Some?)
      && (r == Ok([]) <==> AllBare(g, visit))
    ensures var stop := FirstOutside(g, BootVisit(g, stack, budget));
      stop.Some? ==> Outside(g, stop.value) && WalkFrom(g, [], stack, true, budget) == Err(RootNodeError(g, stop.value))
    decreases budget
  {
    hide WalkFrom, BootVisit, Outside, EntriesAt, Pointed, RootNodeError;
    if stack == [] || budget == 0 {
      BareEnd(g, stack, budget);
    } else {
      var a, rest := stack[|stack| - 1], stack[..|stack| - 1];
      assert rest + [a] == stack;
      BareStep(g, rest, a, budget);
      VisitNext(g, rest, a, budget);
      var later := BootVisit(g, rest + Pointed(g, a), budget - 1);
      assert ([a] + later)[0] == a && ([a] + later)[1..] == later;
      if !Outside(g, a) {
        if EntriesAt(g, a) != [] {
          StartedNeverFails(g, EntriesAt(g, a), rest, budget - 1);
        } else {
          BareWalk(g, rest + Pointed(g, a), budget - 1);
        }
      }
    }
  }

  /** What the walk of an image visits while its map is empty. */
  function RootVisit(image: seq<byte>, sb: Superblock): seq<u64> {
    BootVisit(GroundOf(image, sb), [sb.chunkRoot], WALK_BUDGET)
  }

  predicate RootTranslated(sb: Superblock) {
    Translate(BootEntries(sb.sysChunks), sb.chunkRoot).Some?
  }

  lemma RootedFromStart(image: seq<byte>, sb: Superblock)
    requires RootTranslated(sb)
    ensures Walked(image, sb) == WalkFrom(GroundOf(image, sb), [], [sb.chunkRoot], true, WALK_BUDGET)
  {
    hide ParsedNode, NodeEntries;
    assert Translate([], sb.chunkRoot) == None;
  }

  /**
    The map is empty exactly when the bootstrap places the root, nothing visited
    leaves the image and no leaf visited holds a chunk.
  */
  lemma EmptyMapExactly(image: seq<byte>, sb: Superblock)
    ensures Walked(image, sb) == Ok([]) <==> RootTranslated(sb) && AllBare(GroundOf(image, sb), RootVisit(image, sb))
  {
    hide WalkFrom, BootVisit, AllBare, FirstOutside, GroundOf;
    if RootTranslated(sb) {
      RootedFromStart(image, sb);
      BareWalk(GroundOf(image, sb), [sb.chunkRoot], WALK_BUDGET);
    } else {
      BootstrapFailureIsLoud(image, sb);
    }
  }

  /**
    The `chunk_root node` error is returned exactly when some address visited, not
    necessarily the chunk root, leaves the image before any leaf with chunks is met;
    it carries the first such address's end.
  */
  lemma RootNodeErrorExactly(image: seq<byte>, sb: Superblock)
    ensures var g := GroundOf(image, sb); var r := Walked(image, sb); var stop := FirstOutside(g, RootVisit(image, sb));
      (r.Err? && r.error.Truncated? && r.error.structure == ChunkRootNode <==> RootTranslated(sb) && stop.Some?)
      && (RootTranslated(sb) && stop.Some? ==> Outside(g, stop.value) && r == Err(RootNodeError(g, stop.value)))
  {
    hide WalkFrom, BootVisit, AllBare, FirstOutside, GroundOf, Outside, RootNodeError;
    if RootTranslated(sb) {
      RootedFromStart(image, sb);
      BareWalk(GroundOf(image, sb), [sb.chunkRoot], WALK_BUDGET);
      RootedNeverFailsBootstrap(GroundOf(image, sb), [], [sb.chunkRoot], WALK_BUDGET);
    } else {
      BootstrapFailureIsLoud(image, sb);
    }
  }

  lemma {:induction false} GatherNothing(g: Ground, addrs: seq<u64>)
    ensures Gather(g, addrs) == [] <==> forall a :: a in addrs ==> EntriesAt(g, a) == []
    decreases |addrs|
  {
    hide EntriesAt;
    if addrs != [] {
      assert addrs == [addrs[0]] + addrs[1..];
      GatherNothing(g, addrs[1..]);
    }
  }

  /** Over a tree the image holds, the map is empty exactly when none of the first 4096 nodes is a leaf with chunks. */
  lemma EmptyTreeMap(image: seq<byte>, sb: Superblock, t: Tree)
    requires t.addr == sb.chunkRoot && Represents(GroundOf(image, sb), t)
    requires AllAgree(GroundOf(image, sb), RecursiveEntries(GroundOf(image, sb), t), Visit([t]))
    ensures Walked(image, sb) == Ok([])
      <==> forall a :: a in Take(Visit([t]), WALK_BUDGET) ==> EntriesAt(GroundOf(image, sb), a) == []
  {
    hide Represents, AllAgree, Visit, RecursiveEntries, Walked, EntriesAt, Take;
    WalkRefinesRecursion(image, sb, t);
    GatherNothing(GroundOf(image, sb), Take(Visit([t]), WALK_BUDGET));
  }
}
