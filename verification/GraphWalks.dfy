/**
  The chunk-tree walk over any graph of blocks, shared and cyclic ones included
  (core/src/node.rs).
*/
module GraphWalks {
  import opened Wrappers
  import opened Bytes
  import opened Nodes
  import opened Superblocks
  import opened ChunkMaps
  import opened ChunkWalk
  import opened EmptyMaps

  /** One turn of the walk at any address. */
  lemma GraphStep(g: Ground, entries: seq<MapEntry>, rest: seq<u64>, a: u64, budget: nat)
    requires budget > 0 && Locate(g, entries, a) == Physical(Translate(g.boot, a))
    ensures WalkFrom(g, entries, rest + [a], true, budget)
      == if Outside(g, a) && entries == [] then Err(RootNodeError(g, a))
         else WalkFrom(g, entries + EntriesAt(g, a), rest + Pointed(g, a), true, budget - 1)
  {
    hide ParsedNode, NodeEntries, Locate, Translate;
    var stack := rest + [a];
    assert stack[|stack| - 1] == a && stack[..|stack| - 1] == rest;
    assert rest + [] == rest && entries + [] == entries;
    if NodeAt(g, a).Some? {
      PointsOrHolds(NodeAt(g, a).value);
    }
  }

  lemma {:induction false} FirstIsOutside(g: Ground, visit: seq<u64>)
    ensures FirstOutside(g, visit).Some? ==> Outside(g, FirstOutside(g, visit).value)
  {
    hide Outside, EntriesAt;
    if visit != [] {
      FirstIsOutside(g, visit[1..]);
    }
  }

  /** What the walk returns once the addresses it takes off the stack are known. */
  function Collected(g: Ground, entries: seq<MapEntry>, visit: seq<u64>): Result<seq<MapEntry>> {
    FirstIsOutside(g, visit);
    if entries == [] && FirstOutside(g, visit).Some? then Err(RootNodeError(g, FirstOutside(g, visit).value))
    else Ok(entries + Gather(g, visit))
  }

  lemma CollectedCons(g: Ground, entries: seq<MapEntry>, a: u64, later: seq<u64>)
    ensures Collected(g, entries, [a] + later)
      == if Outside(g, a) && entries == [] then Err(RootNodeError(g, a)) else Collected(g, entries + EntriesAt(g, a), later)
  {
    hide EntriesAt, Outside, Gather, RootNodeError;
    assert ([a] + later)[0] == a && ([a] + later)[1..] == later;
    GatherCons(g, a, later);
    assert entries + (EntriesAt(g, a) + Gather(g, later)) == entries + EntriesAt(g, a) + Gather(g, later);
    assert entries == [] ==> entries + EntriesAt(g, a) == EntriesAt(g, a);
  }

  lemma GraphEnd(g: Ground, entries: seq<MapEntry>, stack: seq<u64>, budget: nat)
    requires stack == [] || budget == 0
    ensures WalkFrom(g, entries, stack, true, budget) == Collected(g, entries, BootVisit(g, stack, budget))
  {
    assert entries + [] == entries;
  }

  /**
    Over any graph whose chunks agree with the bootstrap on the addresses visited,
    the walk collects what a traversal through the bootstrap alone visits.
  */
  lemma {:induction false} GraphVisits(g: Ground, entries: seq<MapEntry>, stack: seq<u64>, budget: nat)
    requires AllAgree(g, entries + Gather(g, BootVisit(g, stack, budget)), BootVisit(g, stack, budget))
    ensures WalkFrom(g, entries, stack, true, budget) == Collected(g, entries, BootVisit(g, stack, budget))
    decreases budget
  {
    hide EntriesAt, Agrees, WalkFrom, BootVisit, AllAgree, Gather, Collected, Outside, Pointed, RootNodeError;
    if stack == [] || budget == 0 {
      GraphEnd(g, entries, stack, budget);
    } else {
      var a, rest := stack[|stack| - 1], stack[..|stack| - 1];
      assert rest + [a] == stack;
      var more := entries + EntriesAt(g, a);
      var later := BootVisit(g, rest + Pointed(g, a), budget - 1);
      VisitNext(g, rest, a, budget);
      GatherCons(g, a, later);
      assert entries + Gather(g, [a] + later) == more + Gather(g, later);
      AgreeStep(g, entries, Gather(g, [a] + later), a, later);
      LocateByBootstrap(g, entries, a);
      GraphStep(g, entries, rest, a, budget);
      CollectedCons(g, entries, a, later);
      GraphVisits(g, more, rest + Pointed(g, a), budget - 1);
    }
  }

  /**
    `walk` on any image whose chunks agree with the bootstrap on what is visited:
    an untranslated root is an error, an address outside the image met before any
    chunk is an error, and otherwise the map holds the chunks of the first 4096
    addresses visited, each as often as it is visited.
  */
  lemma GraphWalked(image: seq<byte>, sb: Superblock)
    requires AllAgree(GroundOf(image, sb), Gather(GroundOf(image, sb), RootVisit(image, sb)), RootVisit(image, sb))
    ensures Walked(image, sb)
      == if RootTranslated(sb) then Collected(GroundOf(image, sb), [], RootVisit(image, sb))
         else Err(Truncated(ChunkRootLogical, sb.chunkRoot, 0))
  {
    hide WalkFrom, BootVisit, AllAgree, Gather, GroundOf, Collected;
    var g, visit := GroundOf(image, sb), RootVisit(image, sb);
    BootstrapFailureIsLoud(image, sb);
    if RootTranslated(sb) {
      RootedFromStart(image, sb);
      assert [] + Gather(g, visit) == Gather(g, visit);
      GraphVisits(g, [], [sb.chunkRoot], WALK_BUDGET);
    }
  }
}
