/**
  The checksum sweep (forensic/src/lib.rs): a depth-first search over an untrusted
  graph of tree blocks, with a seen list and a visit budget.
*/
module Sweeps {
  import opened Wrappers
  import opened Bytes
  import opened Nodes
  import opened Superblocks
  import opened ChunkMaps
  import opened Backups

  const SWEEP_BUDGET: nat := 8192

  // ---- the graph ----

  /** The node at `a`, when it names its own address and this filesystem. */
  function Genuine(sc: Scene, a: u64): Option<Node> {
    match sc.Read(a)
    case Err(_) => None
    case Ok(node) => if node.header.bytenr == a && node.header.fsid == sc.sb.fsid then Some(node) else None
  }

  function NonZero(addrs: seq<u64>): seq<u64> {
    if addrs == [] then []
    else if addrs[0] == 0 then NonZero(addrs[1..])
    else [addrs[0]] + NonZero(addrs[1..])
  }

  /** The addresses a genuine interior node points to. */
  function Children(sc: Scene, a: u64): seq<u64> {
    match Genuine(sc, a)
    case None => []
    case Some(node) => NonZero(Blockptrs(node.Pointers()))
  }

  function RootsOf(bs: seq<RootBackup>): seq<u64> {
    if bs == [] then [] else [bs[0].treeRoot, bs[0].fsRoot] + RootsOf(bs[1..])
  }

  /** The live roots, then every backup's roots. */
  function Seeds(sc: Scene): seq<u64> {
    NonZero([sc.sb.root, sc.sb.chunkRoot] + RootsOf(sc.Backups()))
  }

  /** The physical offset reported for a node. */
  function OffsetOf(sc: Scene, a: u64): u64 {
    match Translate(sc.entries, a)
    case Some((_, phys)) => phys
    case None => a
  }

  predicate Corrupt(sc: Scene, a: u64) {
    Genuine(sc, a).Some? && Genuine(sc, a).value.crcValid == Some(false)
  }

  // ---- the search ----

  /** The addresses looked at, in order, and those still waiting. */
  datatype Search = Search(seen: seq<u64>, stack: seq<u64>)

  /** The search from a given stack. */
  function SearchFrom(sc: Scene, stack: seq<u64>, seen: seq<u64>, budget: nat): Search
    decreases budget, |stack|
  {
    if stack == [] || budget == 0 then Search(seen, stack)
    else
      var a, rest := stack[|stack| - 1], stack[..|stack| - 1];
      if a in seen then SearchFrom(sc, rest, seen, budget - 1)
      else SearchFrom(sc, rest + Children(sc, a), seen + [a], budget - 1)
  }

  function Searched(sc: Scene): Search {
    SearchFrom(sc, Seeds(sc), [], SWEEP_BUDGET)
  }

  /** What the node at `a` is reported for. */
  function MismatchAt(sc: Scene, a: u64): seq<Anomaly> {
    if Corrupt(sc, a) then [NodeCrcMismatch(a, OffsetOf(sc, a))] else []
  }

  function Mismatches(sc: Scene, seen: seq<u64>): seq<Anomaly> {
    if seen == [] then [] else Mismatches(sc, seen[..|seen| - 1]) + MismatchAt(sc, seen[|seen| - 1])
  }

  /** Everything the sweep reports. */
  function Swept(sc: Scene): seq<Anomaly> {
    Mismatches(sc, Searched(sc).seen)
  }

  lemma {:induction false} NonZeroSplit(a: seq<u64>, b: seq<u64>)
    ensures NonZero(a + b) == NonZero(a) + NonZero(b)
    decreases |a|
  {
    if a == [] {
      assert a + b == b;
    } else {
      var x, rest := a[0], a[1..];
      assert (a + b)[0] == x && (a + b)[1..] == rest + b;
      NonZeroSplit(rest, b);
      if x != 0 {
        assert [x] + (NonZero(rest) + NonZero(b)) == ([x] + NonZero(rest)) + NonZero(b);
      }
    }
  }

  /** `for x in more { if x != 0 { stack.push(x) } }`. */
  method PushNonZero(stack: seq<u64>, more: seq<u64>) returns (r: seq<u64>)
    ensures r == stack + NonZero(more)
  {
    r := stack;
    for i := 0 to |more|
      invariant r + NonZero(more[i..]) == stack + NonZero(more)
    {
      assert more[i..][0] == more[i] && more[i..][1..] == more[i + 1..];
      if more[i] != 0 {
        r := r + [more[i]];
      }
    }
  }

  lemma RootsNext(bs: seq<RootBackup>, i: nat)
    requires i < |bs|
    ensures RootsOf(bs[i..]) == [bs[i].treeRoot, bs[i].fsRoot] + RootsOf(bs[i + 1..])
  {
    assert bs[i..][0] == bs[i] && bs[i..][1..] == bs[i + 1..];
  }

  method PushBackupRoots(stack: seq<u64>, bs: seq<RootBackup>) returns (r: seq<u64>)
    ensures r == stack + NonZero(RootsOf(bs))
  {
    r := stack;
    for i := 0 to |bs|
      invariant r + NonZero(RootsOf(bs[i..])) == stack + NonZero(RootsOf(bs))
    {
      ghost var roots, later := [bs[i].treeRoot, bs[i].fsRoot], RootsOf(bs[i + 1..]);
      RootsNext(bs, i);
      NonZeroSplit(roots, later);
      ghost var before := r;
      r := PushNonZero(r, [bs[i].treeRoot, bs[i].fsRoot]);
      assert before + (NonZero(roots) + NonZero(later)) == r + NonZero(later);
    }
  }

  method SeedStack(sc: Scene) returns (stack: seq<u64>)
    ensures stack == Seeds(sc)
  {
    hide BackupsIn, NonZero;
    ghost var roots := [sc.sb.root, sc.sb.chunkRoot];
    NonZeroSplit(roots, RootsOf(sc.Backups()));
    assert roots + [] == roots;
    stack := PushNonZero([], [sc.sb.root, sc.sb.chunkRoot]);
    var block := SuperblockBlock(sc.image);
    if block.Some? {
      var bs := ParseBackupRoots(block.value);
      stack := PushBackupRoots(stack, bs);
    }
  }

  /** Checks one address not seen before and returns what it points to. */
  method Inspect(out: Report, sc: Scene, logical: u64) returns (kids: seq<u64>)
    modifies out
    ensures out.anomalies == old(out.anomalies) + MismatchAt(sc, logical)
    ensures kids == Children(sc, logical)
  {
    hide ReadNode, Translate;
    kids := [];
    var read := sc.Read(logical);
    if read.Err? {
      return;
    }
    var node := read.value;
    if node.header.bytenr != logical || node.header.fsid != sc.sb.fsid {
      return;
    }
    var located := Translate(sc.entries, logical);
    var offset := if located.Some? then located.value.1 else logical;
    if node.crcValid == Some(false) {
      out.Push(NodeCrcMismatch(node.header.bytenr, offset));
    }
    if !node.IsLeaf() {
      kids := PushNonZero([], Blockptrs(node.Pointers()));
    }
  }

  method SweepNodeCrcs(out: Report, sc: Scene)
    modifies out
    ensures out.anomalies == old(out.anomalies) + Swept(sc)
  {
    hide Children, MismatchAt, Seeds;
    var seen := [];
    var stack := SeedStack(sc);
    var budget := SWEEP_BUDGET;
    while stack != []
      invariant SearchFrom(sc, stack, seen, budget) == Searched(sc)
      invariant out.anomalies == old(out.anomalies) + Mismatches(sc, seen)
      decreases budget, |stack|
    {
      var logical := stack[|stack| - 1];
      stack := stack[..|stack| - 1];
      if budget == 0 {
        break;
      }
      budget := budget - 1;
      if logical in seen {
        continue;
      }
      seen := seen + [logical];
      assert seen[..|seen| - 1] + [logical] == seen;
      var kids := Inspect(out, sc, logical);
      stack := stack + kids;
    }
  }
}
