/** What the sweep reports, stated by paths through the block graph. */
module SweepReach {
  import opened Wrappers
  import opened Bytes
  import opened Nodes
  import opened ChunkMaps
  import opened Backups
  import opened Sweeps

  /** A chain of pointers from a seed through genuine interior nodes. */
  predicate Path(sc: Scene, p: seq<u64>) {
    p != [] && p[0] in Seeds(sc) && forall i :: 0 <= i < |p| - 1 ==> p[i + 1] in Children(sc, p[i])
  }

  ghost predicate Reachable(sc: Scene, a: u64) {
    exists p: seq<u64> :: Path(sc, p) && p[|p| - 1] == a
  }

  ghost function ReachSet(sc: Scene): (r: set<u64>)
    ensures forall a: u64 :: a in r <==> Reachable(sc, a)
  {
    set a: u64 | 0 <= a < U64_LIMIT && Reachable(sc, a)
  }

  /** How many pointers leave the nodes of a set. */
  ghost function PointersFrom(sc: Scene, s: set<u64>): nat {
    if s == {} then 0
    else
      var a :| a in s;
      |Children(sc, a)| + PointersFrom(sc, s - {a})
  }

  lemma {:induction false} PointersWithout(sc: Scene, s: set<u64>, a: u64)
    requires a in s
    ensures PointersFrom(sc, s) == |Children(sc, a)| + PointersFrom(sc, s - {a})
    decreases |s|
  {
    hide Children;
    var b :| b in s && PointersFrom(sc, s) == |Children(sc, b)| + PointersFrom(sc, s - {b});
    if b != a {
      PointersWithout(sc, s - {b}, a);
      PointersWithout(sc, s - {a}, b);
      assert s - {b} - {a} == s - {a} - {b};
    }
  }

  lemma SeedReachable(sc: Scene, a: u64)
    requires a in Seeds(sc)
    ensures Reachable(sc, a)
  {
    hide Seeds, Children;
    assert Path(sc, [a]) && [a][|[a]| - 1] == a;
  }

  lemma ChildReachable(sc: Scene, a: u64, b: u64)
    requires Reachable(sc, a) && b in Children(sc, a)
    ensures Reachable(sc, b)
  {
    hide Seeds, Children;
    var p :| Path(sc, p) && p[|p| - 1] == a;
    var q := p + [b];
    forall i | 0 <= i < |q| - 1
      ensures q[i + 1] in Children(sc, q[i])
    {
      if i < |p| - 1 {
        assert p[i + 1] in Children(sc, p[i]);
      }
    }
    assert Path(sc, q) && q[|q| - 1] == b;
  }

  // ---- the seen list ----

  ghost predicate AllReachable(sc: Scene, s: seq<u64>) {
    forall a :: a in s ==> Reachable(sc, a)
  }

  /** Seeds and pointers of seen nodes are all seen or still on the stack. */
  ghost predicate Closed(sc: Scene, seen: seq<u64>, stack: seq<u64>) {
    (forall a :: a in Seeds(sc) ==> a in seen || a in stack)
    && forall a, b :: a in seen && b in Children(sc, a) ==> b in seen || b in stack
  }

  function ToSet(s: seq<u64>): set<u64> {
    set a | a in s
  }

  ghost function Unseen(sc: Scene, seen: seq<u64>): set<u64> {
    ReachSet(sc) - ToSet(seen)
  }

  lemma StackReachable(sc: Scene, rest: seq<u64>, a: u64)
    requires AllReachable(sc, rest) && Reachable(sc, a)
    ensures AllReachable(sc, rest + Children(sc, a))
  {
    hide Reachable, Children;
    forall b | b in rest + Children(sc, a)
      ensures Reachable(sc, b)
    {
      if b in Children(sc, a) {
        ChildReachable(sc, a, b);
      }
    }
  }

  /** Whatever the budget: only reachable addresses are looked at, each once. */
  lemma {:induction false} SearchSound(sc: Scene, stack: seq<u64>, seen: seq<u64>, budget: nat)
    requires AllReachable(sc, stack) && AllReachable(sc, seen) && Distinct(seen)
    ensures var r := SearchFrom(sc, stack, seen, budget).seen;
      AllReachable(sc, r) && Distinct(r) && |r| <= |seen| + budget
    decreases budget
  {
    hide Reachable, Children;
    if stack != [] && budget > 0 {
      var a, rest := stack[|stack| - 1], stack[..|stack| - 1];
      assert a in stack && AllReachable(sc, rest);
      if a in seen {
        SearchSound(sc, rest, seen, budget - 1);
      } else {
        StackReachable(sc, rest, a);
        SearchSound(sc, rest + Children(sc, a), seen + [a], budget - 1);
      }
    }
  }

  lemma UnseenStep(sc: Scene, seen: seq<u64>, a: u64)
    requires Reachable(sc, a) && a !in seen
    ensures PointersFrom(sc, Unseen(sc, seen)) == |Children(sc, a)| + PointersFrom(sc, Unseen(sc, seen + [a]))
  {
    hide Reachable, Children;
    assert Unseen(sc, seen + [a]) == Unseen(sc, seen) - {a};
    PointersWithout(sc, Unseen(sc, seen), a);
  }

  lemma ClosedStep(sc: Scene, seen: seq<u64>, stack: seq<u64>)
    requires stack != [] && Closed(sc, seen, stack)
    ensures var a, rest := stack[|stack| - 1], stack[..|stack| - 1];
      if a in seen then Closed(sc, seen, rest) else Closed(sc, seen + [a], rest + Children(sc, a))
  {
    hide Seeds, Children;
    var a, rest := stack[|stack| - 1], stack[..|stack| - 1];
    assert stack == rest + [a];
  }

  /** Nothing a seen node points to is ever dropped. */
  lemma {:induction false} SearchKeepsClosed(sc: Scene, stack: seq<u64>, seen: seq<u64>, budget: nat)
    requires Closed(sc, seen, stack)
    ensures var r := SearchFrom(sc, stack, seen, budget); Closed(sc, r.seen, r.stack)
    decreases budget
  {
    hide Children, Closed;
    if stack != [] && budget > 0 {
      var a, rest := stack[|stack| - 1], stack[..|stack| - 1];
      ClosedStep(sc, seen, stack);
      if a in seen {
        SearchKeepsClosed(sc, rest, seen, budget - 1);
      } else {
        SearchKeepsClosed(sc, rest + Children(sc, a), seen + [a], budget - 1);
      }
    }
  }

  lemma {:induction false} ClosedHoldsPath(sc: Scene, seen: seq<u64>, p: seq<u64>)
    requires Closed(sc, seen, []) && Path(sc, p)
    ensures p[|p| - 1] in seen
    decreases |p|
  {
    hide Seeds, Children;
    if |p| > 1 {
      var q := p[..|p| - 1];
      ClosedHoldsPath(sc, seen, q);
      assert p[|p| - 2 + 1] in Children(sc, p[|p| - 2]);
    }
  }

  lemma NothingUnseen(sc: Scene, seen: seq<u64>)
    requires Closed(sc, seen, [])
    ensures Unseen(sc, seen) == {}
  {
    hide Closed, Seeds, Children;
    forall a: u64 | Reachable(sc, a)
      ensures a in seen
    {
      var p :| Path(sc, p) && p[|p| - 1] == a;
      ClosedHoldsPath(sc, seen, p);
    }
  }

  /** The stack empties exactly when the budget pays for every address waiting or pointed to by an unseen node. */
  lemma {:induction false} SearchDrains(sc: Scene, stack: seq<u64>, seen: seq<u64>, budget: nat)
    requires AllReachable(sc, stack) && Closed(sc, seen, stack)
    ensures SearchFrom(sc, stack, seen, budget).stack == [] <==> |stack| + PointersFrom(sc, Unseen(sc, seen)) <= budget
    decreases budget
  {
    hide Reachable, Children, Closed, Unseen;
    if stack == [] {
      NothingUnseen(sc, seen);
    } else if budget > 0 {
      var a, rest := stack[|stack| - 1], stack[..|stack| - 1];
      assert a in stack && AllReachable(sc, rest);
      ClosedStep(sc, seen, stack);
      if a in seen {
        SearchDrains(sc, rest, seen, budget - 1);
      } else {
        StackReachable(sc, rest, a);
        UnseenStep(sc, seen, a);
        SearchDrains(sc, rest + Children(sc, a), seen + [a], budget - 1);
      }
    }
  }

  /** Seeds and pointers of reachable genuine nodes fit the budget. */
  ghost predicate WithinBudget(sc: Scene) {
    |Seeds(sc)| + PointersFrom(sc, ReachSet(sc)) <= SWEEP_BUDGET
  }

  lemma StartClosed(sc: Scene)
    ensures AllReachable(sc, Seeds(sc)) && Closed(sc, [], Seeds(sc)) && Unseen(sc, []) == ReachSet(sc)
  {
    hide Seeds, Children, Reachable;
    forall a | a in Seeds(sc)
      ensures Reachable(sc, a)
    {
      SeedReachable(sc, a);
    }
  }

  /** The sweep gets through its whole work list exactly within that bound. */
  lemma SweepFinishes(sc: Scene)
    ensures Searched(sc).stack == [] <==> WithinBudget(sc)
  {
    hide Seeds, Unseen, AllReachable, Closed, SearchFrom, PointersFrom;
    StartClosed(sc);
    SearchDrains(sc, Seeds(sc), [], SWEEP_BUDGET);
  }

  /** The addresses looked at are distinct and reachable; within budget they are all the reachable ones. */
  lemma VisitedIsReachable(sc: Scene)
    ensures var r := Searched(sc).seen; Distinct(r) && |r| <= SWEEP_BUDGET
    ensures forall a :: a in Searched(sc).seen ==> Reachable(sc, a)
    ensures WithinBudget(sc) ==> forall a: u64 :: Reachable(sc, a) ==> a in Searched(sc).seen
  {
    hide Seeds, Children, SearchFrom, PointersFrom, Reachable, Closed, WithinBudget;
    StartClosed(sc);
    SearchSound(sc, Seeds(sc), [], SWEEP_BUDGET);
    if WithinBudget(sc) {
      SweepFinishes(sc);
      SearchKeepsClosed(sc, Seeds(sc), [], SWEEP_BUDGET);
      NothingUnseen(sc, Searched(sc).seen);
      forall a: u64 | Reachable(sc, a)
        ensures a in Searched(sc).seen
      {
        assert a in ReachSet(sc) && a !in Unseen(sc, Searched(sc).seen);
      }
    }
  }

  // ---- the reports ----

  /** `x` reports the corrupt node at `a`. */
  predicate Reports(sc: Scene, x: Anomaly, a: u64) {
    x.NodeCrcMismatch? && x.bytenr == a && x.offset == OffsetOf(sc, a) && Corrupt(sc, a)
  }

  predicate AllMismatches(r: seq<Anomaly>) {
    forall i :: 0 <= i < |r| ==> r[i].NodeCrcMismatch?
  }

  lemma {:induction false} MismatchesExact(sc: Scene, seen: seq<u64>)
    requires Distinct(seen)
    ensures var r := Mismatches(sc, seen);
      AllMismatches(r)
      && (forall i :: 0 <= i < |r| ==> Reports(sc, r[i], r[i].bytenr) && r[i].bytenr in seen)
      && forall i, j :: 0 <= i < j < |r| ==> r[i].bytenr != r[j].bytenr
  {
    hide Corrupt, OffsetOf;
    if seen != [] {
      var a, before := seen[|seen| - 1], seen[..|seen| - 1];
      MismatchesExact(sc, before);
      assert a !in before;
    }
  }

  lemma {:induction false} MismatchesComplete(sc: Scene, seen: seq<u64>, a: u64)
    requires a in seen && Corrupt(sc, a)
    ensures NodeCrcMismatch(a, OffsetOf(sc, a)) in Mismatches(sc, seen)
  {
    hide Corrupt, OffsetOf;
    var before := seen[..|seen| - 1];
    if a != seen[|seen| - 1] {
      assert seen == before + [seen[|seen| - 1]];
      MismatchesComplete(sc, before, a);
    }
  }

  /**
    On any image the sweep reports only genuine nodes that fail their checksum and
    are reachable from a seed, at the offset the map gives, and no address twice.
  */
  lemma SweepSound(sc: Scene)
    ensures AllMismatches(Swept(sc))
    ensures forall i :: 0 <= i < |Swept(sc)| ==> Reports(sc, Swept(sc)[i], Swept(sc)[i].bytenr)
    ensures forall i :: 0 <= i < |Swept(sc)| ==> Reachable(sc, Swept(sc)[i].bytenr)
    ensures forall i, j :: 0 <= i < j < |Swept(sc)| ==> Swept(sc)[i].bytenr != Swept(sc)[j].bytenr
  {
    hide Reachable, Reports, Searched, Mismatches;
    VisitedIsReachable(sc);
    MismatchesExact(sc, Searched(sc).seen);
  }

  /** Within budget every reachable corrupt node is reported. */
  lemma SweepComplete(sc: Scene, a: u64)
    ensures WithinBudget(sc) ==>
      (NodeCrcMismatch(a, OffsetOf(sc, a)) in Swept(sc) <==> Reachable(sc, a) && Corrupt(sc, a))
  {
    hide Reachable, WithinBudget, Corrupt, OffsetOf, Searched, Mismatches;
    VisitedIsReachable(sc);
    MismatchesExact(sc, Searched(sc).seen);
    if WithinBudget(sc) && Reachable(sc, a) && Corrupt(sc, a) {
      MismatchesComplete(sc, Searched(sc).seen, a);
    }
  }

  // ---- the reported offset ----

  /**
    The offset reported is where the node was read from exactly when the walked map
    translates its address, or the bootstrap places it at an equal offset.
  */
  lemma OffsetIsPhysical(sc: Scene, a: u64)
    requires Resolve(sc.sb, sc.entries, a).Some?
    ensures OffsetOf(sc, a) == Resolve(sc.sb, sc.entries, a).value
      <==> Translate(sc.entries, a).Some? || FindMap(sc.sb.sysChunks, a) == Some(a)
  {
    hide Translate, FindMap;
  }

  // ---- the graph's edges ----

  lemma {:induction false} NonZeroMember(addrs: seq<u64>, a: u64)
    ensures a in NonZero(addrs) <==> a != 0 && a in addrs
  {
    if addrs != [] {
      assert addrs == [addrs[0]] + addrs[1..];
      NonZeroMember(addrs[1..], a);
    }
  }

  lemma {:induction false} RootsMember(bs: seq<RootBackup>, a: u64)
    ensures a in RootsOf(bs) <==> exists b :: b in bs && (a == b.treeRoot || a == b.fsRoot)
  {
    if bs != [] {
      assert bs == [bs[0]] + bs[1..];
      RootsMember(bs[1..], a);
    }
  }

  /** The search starts from the nonzero live roots and backup roots. */
  lemma SeedsExact(sc: Scene, a: u64)
    ensures a in Seeds(sc) <==>
      a != 0 && (a == sc.sb.root || a == sc.sb.chunkRoot || exists b :: b in sc.Backups() && (a == b.treeRoot || a == b.fsRoot))
  {
    hide NonZero, BackupsIn;
    NonZeroMember([sc.sb.root, sc.sb.chunkRoot] + RootsOf(sc.Backups()), a);
    RootsMember(sc.Backups(), a);
  }

  lemma {:induction false} BlockptrsMember(ptrs: seq<KeyPtr>, a: u64)
    ensures a in Blockptrs(ptrs) <==> exists kp :: kp in ptrs && kp.blockptr == a
  {
    if ptrs != [] {
      assert ptrs == [ptrs[0]] + ptrs[1..];
      BlockptrsMember(ptrs[1..], a);
    }
  }

  /** It follows the nonzero block pointers of genuine interior nodes, and nothing else. */
  lemma ChildrenExact(sc: Scene, a: u64, b: u64)
    ensures b in Children(sc, a) <==>
      b != 0 && Genuine(sc, a).Some? && exists kp :: kp in Genuine(sc, a).value.Pointers() && kp.blockptr == b
  {
    hide NonZero, Genuine;
    if Genuine(sc, a).Some? {
      var ptrs := Genuine(sc, a).value.Pointers();
      NonZeroMember(Blockptrs(ptrs), b);
      BlockptrsMember(ptrs, b);
    }
  }
}
