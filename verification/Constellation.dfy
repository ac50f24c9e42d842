/** The capped edge loop of the beacon constellation. */
module Constellation {

  /** Beyond this many connections at both ends an edge is left out. */
  const CAP := 8

  datatype Node = Node(beaconId: string, capability: string)

  /** Nodes belong together when they have the same primary capability, and have one at all. */
  predicate Shares(a: Node, b: Node) {
    a.capability != "" && a.capability == b.capability
  }

  method SharesCapability(a: Node, b: Node) returns (shared: bool)
    ensures shared <==> Shares(a, b)
    ensures shared <==> a.capability != "" && a.capability == b.capability
  {
    var mine := if a.capability != "" then [a.capability] else [];
    var theirs := if b.capability != "" then [b.capability] else [];
    assert Shares(a, b) ==> |mine| == 1 && mine[0] in theirs;
    for i := 0 to |mine|
      invariant forall k :: 0 <= k < i ==> mine[k] !in theirs
    {
      if mine[i] in theirs {
        return true;
      }
    }
    return false;
  }

  ghost predicate DistinctIds(nodes: seq<Node>) {
    forall i, j :: 0 <= i < j < |nodes| ==> nodes[i].beaconId != nodes[j].beaconId
  }

  /** How many of the nodes from `lo` up to `hi` have the capability. */
  function CountRange(nodes: seq<Node>, lo: nat, hi: nat, capability: string): nat
    requires hi <= |nodes|
    decreases hi
  {
    if hi <= lo then 0
    else CountRange(nodes, lo, hi - 1, capability) + if nodes[hi - 1].capability == capability then 1 else 0
  }

  /** The node's place in its group, counting from 0. */
  function Rank(nodes: seq<Node>, i: nat): nat
    requires i < |nodes|
  {
    CountRange(nodes, 0, i, nodes[i].capability)
  }

  /** The pairs that end up joined: those of one group whose earlier node is among its first. */
  ghost predicate Joined(nodes: seq<Node>, i: int, j: int) {
    0 <= i < j < |nodes| && Shares(nodes[i], nodes[j]) && Rank(nodes, i) < 8
  }

  function Capped(n: nat): nat {
    if n < CAP then n else CAP
  }

  // The potential that bounds the edges

  /** The connections spent below the cap, over all listed beacons. */
  ghost function Spent(counts: map<string, nat>, ids: seq<string>): nat {
    if ids == [] then 0
    else
      var id := ids[|ids| - 1];
      Spent(counts, ids[..|ids| - 1]) + if id in counts then Capped(counts[id]) else 0
  }

  ghost predicate Distinct(ids: seq<string>) {
    forall i, j :: 0 <= i < j < |ids| ==> ids[i] != ids[j]
  }

  lemma {:induction false} SpentBound(counts: map<string, nat>, ids: seq<string>)
    ensures Spent(counts, ids) <= CAP * |ids|
  {
    if ids != [] {
      SpentBound(counts, ids[..|ids| - 1]);
    }
  }

  /** One more connection spends one more unless its beacon is at the cap. */
  lemma {:induction false} SpentStep(counts: map<string, nat>, ids: seq<string>, id: string)
    requires Distinct(ids) && id in counts
    ensures Spent(counts[id := counts[id] + 1], ids) ==
            Spent(counts, ids) + if id in ids && counts[id] < CAP then 1 else 0
  {
    if ids != [] {
      var init, last := ids[..|ids| - 1], ids[|ids| - 1];
      assert ids == init + [last];
      assert Distinct(init);
      SpentStep(counts, init, id);
    }
  }

  lemma {:induction false} SpentNothing(counts: map<string, nat>, ids: seq<string>)
    requires forall id :: id in counts ==> counts[id] == 0
    ensures Spent(counts, ids) == 0
  {
    if ids != [] {
      SpentNothing(counts, ids[..|ids| - 1]);
    }
  }

  // Where the counters stand while row `i` is at column `j`

  /** The counter of a node not before row `i`: what the earlier rows gave it, what row `i` gave it if the
      column has passed it, and for row `i` itself the edges drawn so far. */
  function CountAt(nodes: seq<Node>, i: nat, j: nat, x: nat): nat
    requires i < |nodes| && i < j <= |nodes| && i <= x < |nodes|
  {
    var c := nodes[x].capability;
    if c == "" then 0
    else if x == i then Capped(Rank(nodes, i)) + if Rank(nodes, i) < CAP then CountRange(nodes, i + 1, j, c) else 0
    else if x < j then Capped(CountRange(nodes, 0, i + 1, c))
    else Capped(CountRange(nodes, 0, i, c))
  }

  ghost predicate CountsAt(nodes: seq<Node>, counts: map<string, nat>, i: nat, j: nat)
    requires i < |nodes| && i < j <= |nodes|
  {
    forall x :: i <= x < |nodes| ==> nodes[x].beaconId in counts && counts[nodes[x].beaconId] == CountAt(nodes, i, j, x)
  }

  /** The decision at one pair: the two counters are both at the cap exactly when the row's node is late. */
  lemma CapDecides(nodes: seq<Node>, counts: map<string, nat>, i: nat, j: nat)
    requires i < j < |nodes| && CountsAt(nodes, counts, i, j) && Shares(nodes[i], nodes[j])
    ensures nodes[i].beaconId in counts && nodes[j].beaconId in counts
    ensures (counts[nodes[i].beaconId] >= CAP && counts[nodes[j].beaconId] >= CAP) <==> Rank(nodes, i) >= CAP
  {
    assert counts[nodes[i].beaconId] == CountAt(nodes, i, j, i);
    assert counts[nodes[j].beaconId] == CountAt(nodes, i, j, j);
  }

  lemma CountsSkip(nodes: seq<Node>, counts: map<string, nat>, i: nat, j: nat)
    requires i < j < |nodes| && CountsAt(nodes, counts, i, j) && !Joined(nodes, i, j)
    ensures CountsAt(nodes, counts, i, j + 1)
  {
    forall x | i <= x < |nodes| ensures CountAt(nodes, i, j + 1, x) == CountAt(nodes, i, j, x) {}
  }

  lemma CountsDraw(nodes: seq<Node>, counts: map<string, nat>, i: nat, j: nat)
    requires i < j < |nodes| && DistinctIds(nodes) && CountsAt(nodes, counts, i, j) && Joined(nodes, i, j)
    ensures nodes[i].beaconId in counts && nodes[j].beaconId in counts
    ensures var a := counts[nodes[i].beaconId := counts[nodes[i].beaconId] + 1];
            nodes[j].beaconId in a && CountsAt(nodes, a[nodes[j].beaconId := a[nodes[j].beaconId] + 1], i, j + 1)
  {
    forall x | i <= x < |nodes|
      ensures CountAt(nodes, i, j + 1, x) == CountAt(nodes, i, j, x) + if x == i || x == j then 1 else 0
    {}
  }

  lemma CountsNextRow(nodes: seq<Node>, counts: map<string, nat>, i: nat)
    requires i + 1 < |nodes| && CountsAt(nodes, counts, i, |nodes|)
    ensures CountsAt(nodes, counts, i + 1, i + 2)
  {
    forall x | i + 1 <= x < |nodes| ensures CountAt(nodes, i + 1, i + 2, x) == CountAt(nodes, i, |nodes|, x) {
      assert CountRange(nodes, i + 2, i + 2, nodes[x].capability) == 0;
    }
  }

  /** The pairs before row `i`, column `j` that are joined, each once. */
  ghost predicate DrawnSoFar(nodes: seq<Node>, edges: seq<(nat, nat)>, i: nat, j: nat) {
    && (forall a, b :: (a, b) in edges <==> Joined(nodes, a, b) && (a < i || (a == i && b < j)))
    && (forall k, l :: 0 <= k < l < |edges| ==> edges[k] != edges[l])
  }

  lemma NothingDrawn(nodes: seq<Node>)
    ensures DrawnSoFar(nodes, [], 0, 1)
  {
  }

  lemma DrawnStep(nodes: seq<Node>, edges: seq<(nat, nat)>, i: nat, j: nat)
    requires i < j < |nodes| && DrawnSoFar(nodes, edges, i, j)
    ensures DrawnSoFar(nodes, if Joined(nodes, i, j) then edges + [(i, j)] else edges, i, j + 1)
  {
    hide Joined;
    assert (i, j) !in edges;
  }

  lemma DrawnNextRow(nodes: seq<Node>, edges: seq<(nat, nat)>, i: nat)
    requires DrawnSoFar(nodes, edges, i, |nodes|)
    ensures DrawnSoFar(nodes, edges, i + 1, i + 2)
  {
  }

  lemma AllDrawn(nodes: seq<Node>, edges: seq<(nat, nat)>)
    requires DrawnSoFar(nodes, edges, |nodes|, |nodes| + 1)
    ensures forall a, b :: (a, b) in edges <==> Joined(nodes, a, b)
    ensures forall k, l :: 0 <= k < l < |edges| ==> edges[k] != edges[l]
  {
  }

  /** One column further, with the counters the loop will have. */
  lemma PairDecision(nodes: seq<Node>, counts: map<string, nat>, i: nat, j: nat)
    requires i < j < |nodes| && DistinctIds(nodes) && CountsAt(nodes, counts, i, j)
    ensures nodes[i].beaconId in counts && nodes[j].beaconId in counts && nodes[i].beaconId != nodes[j].beaconId
    ensures var a, b := nodes[i].beaconId, nodes[j].beaconId;
            if Joined(nodes, i, j) then
              && Shares(nodes[i], nodes[j]) && !(counts[a] >= CAP && counts[b] >= CAP)
              && CountsAt(nodes, counts[a := counts[a] + 1][b := counts[b] + 1], i, j + 1)
            else
              && (Shares(nodes[i], nodes[j]) ==> counts[a] >= CAP && counts[b] >= CAP)
              && CountsAt(nodes, counts, i, j + 1)
  {
    if Shares(nodes[i], nodes[j]) {
      CapDecides(nodes, counts, i, j);
    }
    if Joined(nodes, i, j) {
      CountsDraw(nodes, counts, i, j);
    } else {
      CountsSkip(nodes, counts, i, j);
    }
  }

  /** However the beacons are named, each edge has spent something. */
  ghost predicate Bounded(nodes: seq<Node>, counts: map<string, nat>, ids: seq<string>, edges: seq<(nat, nat)>) {
    && Distinct(ids) && |ids| <= |nodes|
    && (forall node :: node in nodes ==> node.beaconId in counts && node.beaconId in ids)
    && |edges| <= Spent(counts, ids)
    && (forall a, b :: (a, b) in edges ==> a < b < |nodes| && Shares(nodes[a], nodes[b]))
  }

  lemma IdsCounted(nodes: seq<Node>, counts: map<string, nat>, ids: seq<string>, edges: seq<(nat, nat)>)
    requires Bounded(nodes, counts, ids, edges)
    ensures forall node :: node in nodes ==> node.beaconId in counts
    ensures |edges| <= CAP * |nodes|
    ensures forall a, b :: (a, b) in edges ==> a < b < |nodes| && Shares(nodes[a], nodes[b])
  {
    SpentBound(counts, ids);
  }

  lemma BoundedStep(nodes: seq<Node>, counts: map<string, nat>, ids: seq<string>, edges: seq<(nat, nat)>, i: nat, j: nat)
    requires Bounded(nodes, counts, ids, edges) && i < j < |nodes| && Shares(nodes[i], nodes[j])
    requires nodes[i].beaconId in counts && nodes[j].beaconId in counts
    requires !(counts[nodes[i].beaconId] >= CAP && counts[nodes[j].beaconId] >= CAP)
    ensures var a, b := nodes[i].beaconId, nodes[j].beaconId;
            var once := counts[a := counts[a] + 1];
            Bounded(nodes, once[b := once[b] + 1], ids, edges + [(i, j)])
  {
    var a, b := nodes[i].beaconId, nodes[j].beaconId;
    assert nodes[i] in nodes && nodes[j] in nodes;
    var once := counts[a := counts[a] + 1];
    SpentStep(counts, ids, a);
    SpentStep(once, ids, b);
    hide Spent;
  }

  method ResetCounts(nodes: seq<Node>) returns (counts: map<string, nat>, ghost ids: seq<string>)
    ensures Bounded(nodes, counts, ids, [])
    ensures forall id :: id in counts ==> counts[id] == 0
  {
    counts, ids := map[], [];
    for i := 0 to |nodes|
      invariant Distinct(ids) && |ids| <= i
      invariant forall node :: node in nodes[..i] ==> node.beaconId in counts && node.beaconId in ids
      invariant forall id :: id in counts ==> counts[id] == 0
    {
      assert nodes[..i + 1] == nodes[..i] + [nodes[i]];
      counts := counts[nodes[i].beaconId := 0];
      if nodes[i].beaconId !in ids {
        ids := ids + [nodes[i].beaconId];
      }
    }
    assert nodes[..|nodes|] == nodes;
  }

  lemma FreshCounts(nodes: seq<Node>, counts: map<string, nat>)
    requires nodes != [] && forall node :: node in nodes ==> node.beaconId in counts && counts[node.beaconId] == 0
    ensures CountsAt(nodes, counts, 0, 1)
  {
    forall x | 0 <= x < |nodes| ensures CountAt(nodes, 0, 1, x) == 0 && nodes[x] in nodes {
      assert CountRange(nodes, 1, 1, nodes[x].capability) == 0;
    }
  }

  // What the loop decides pair by pair, however the beacons are named

  /** How often a beacon is at an end of one of the edges. */
  ghost function Degree(nodes: seq<Node>, edges: seq<(nat, nat)>, id: string): nat
    requires forall a, b :: (a, b) in edges ==> a < |nodes| && b < |nodes|
  {
    if edges == [] then 0
    else
      var init, e := edges[..|edges| - 1], edges[|edges| - 1];
      assert forall a, b :: (a, b) in init ==> (a, b) in edges;
      assert (e.0, e.1) in edges;
      Degree(nodes, init, id) + (if nodes[e.0].beaconId == id then 1 else 0) + (if nodes[e.1].beaconId == id then 1 else 0)
  }

  ghost predicate Inside(nodes: seq<Node>, edges: seq<(nat, nat)>) {
    forall a, b :: (a, b) in edges ==> a < |nodes| && b < |nodes|
  }

  /** Both ends have eight connections among the edges already. */
  ghost predicate Full(nodes: seq<Node>, edges: seq<(nat, nat)>, i: nat, j: nat)
    requires Inside(nodes, edges) && i < |nodes| && j < |nodes|
  {
    Degree(nodes, edges, nodes[i].beaconId) >= 8 && Degree(nodes, edges, nodes[j].beaconId) >= 8
  }

  /** The pair comes before the other when all pairs are gone through. */
  predicate Sooner(e: (nat, nat), i: nat, j: nat) {
    e.0 < i || (e.0 == i && e.1 < j)
  }

  /** The first `m` edges are those drawn before the pair comes up. */
  ghost predicate CutAt(edges: seq<(nat, nat)>, m: nat, i: nat, j: nat) {
    && m <= |edges|
    && (forall k :: 0 <= k < m ==> Sooner(edges[k], i, j))
    && (forall k :: m <= k < |edges| ==> Sooner((i, j), edges[k].0, edges[k].1))
  }

  ghost predicate Alike(a: Node, b: Node) {
    a.capability != "" && a.capability == b.capability
  }

  /** Of the pairs that come up before row `i`, column `j`, exactly those are drawn, in order, that are alike and
      not both full by then. */
  ghost predicate GreedyUpTo(nodes: seq<Node>, edges: seq<(nat, nat)>, i: nat, j: nat) {
    && Inside(nodes, edges)
    && (forall k, l :: 0 <= k < l < |edges| ==> Sooner(edges[k], edges[l].0, edges[l].1))
    && (forall k :: 0 <= k < |edges| ==> Sooner(edges[k], i, j) && Drawable(nodes, edges, k))
    && (forall a: nat, b: nat, m: nat :: a < b < |nodes| && Sooner((a, b), i, j) && Alike(nodes[a], nodes[b]) && CutAt(edges, m, a, b)
                                         ==> FullAfter(nodes, edges, m, a, b))
  }

  ghost predicate Drawable(nodes: seq<Node>, edges: seq<(nat, nat)>, k: nat)
    requires Inside(nodes, edges) && k < |edges|
  {
    var e := edges[k];
    assert (e.0, e.1) in edges;
    && e.0 < e.1 < |nodes| && Alike(nodes[e.0], nodes[e.1])
    && !FullAfter(nodes, edges, k, e.0, e.1)
  }

  ghost predicate FullAfter(nodes: seq<Node>, edges: seq<(nat, nat)>, m: nat, i: nat, j: nat)
    requires Inside(nodes, edges) && m <= |edges| && i < |nodes| && j < |nodes|
  {
    assert forall a, b :: (a, b) in edges[..m] ==> (a, b) in edges;
    Full(nodes, edges[..m], i, j)
  }

  /** The edges are what going through the pairs in order and drawing greedily gives. */
  ghost predicate Greedy(nodes: seq<Node>, edges: seq<(nat, nat)>) {
    GreedyUpTo(nodes, edges, |nodes|, |nodes| + 1)
  }

  ghost predicate Counted(nodes: seq<Node>, edges: seq<(nat, nat)>, counts: map<string, nat>) {
    && Inside(nodes, edges)
    && (forall id :: id in counts ==> counts[id] == Degree(nodes, edges, id))
  }

  lemma GreedyNothing(nodes: seq<Node>, counts: map<string, nat>)
    requires forall id :: id in counts ==> counts[id] == 0
    ensures GreedyUpTo(nodes, [], 0, 1) && Counted(nodes, [], counts)
  {
  }

  lemma GreedySkip(nodes: seq<Node>, edges: seq<(nat, nat)>, i: nat, j: nat)
    requires i < j < |nodes| && GreedyUpTo(nodes, edges, i, j)
    requires Alike(nodes[i], nodes[j]) ==> Full(nodes, edges, i, j)
    ensures GreedyUpTo(nodes, edges, i, j + 1)
  {
    hide Drawable, Degree;
    forall a: nat, b: nat, m: nat | a < b < |nodes| && Sooner((a, b), i, j + 1) && Alike(nodes[a], nodes[b]) && CutAt(edges, m, a, b)
      ensures FullAfter(nodes, edges, m, a, b)
    {
      if a == i && b == j {
        assert m < |edges| ==> Sooner(edges[m], i, j);
        assert m == |edges|;
        assert edges[..m] == edges;
      }
    }
  }

  lemma GreedyDraw(nodes: seq<Node>, edges: seq<(nat, nat)>, i: nat, j: nat)
    requires i < j < |nodes| && GreedyUpTo(nodes, edges, i, j)
    requires Alike(nodes[i], nodes[j]) && !Full(nodes, edges, i, j)
    ensures GreedyUpTo(nodes, edges + [(i, j)], i, j + 1)
  {
    hide Full, Alike;
    var more := edges + [(i, j)];
    forall k | 0 <= k < |more| ensures Sooner(more[k], i, j + 1) && Drawable(nodes, more, k) {
      assert more[..k] == edges[..k];
      if k < |edges| {
        assert Drawable(nodes, edges, k);
      } else {
        assert edges[..k] == edges;
      }
    }
    forall a: nat, b: nat, m: nat | a < b < |nodes| && Sooner((a, b), i, j + 1) && Alike(nodes[a], nodes[b]) && CutAt(more, m, a, b)
      ensures FullAfter(nodes, more, m, a, b)
    {
      GreedyEarlier(nodes, edges, i, j, a, b, m);
    }
  }

  lemma GreedyEarlier(nodes: seq<Node>, edges: seq<(nat, nat)>, i: nat, j: nat, a: nat, b: nat, m: nat)
    requires i < j < |nodes| && GreedyUpTo(nodes, edges, i, j) && Inside(nodes, edges + [(i, j)])
    requires a < b < |nodes| && Sooner((a, b), i, j + 1) && Alike(nodes[a], nodes[b]) && CutAt(edges + [(i, j)], m, a, b)
    ensures FullAfter(nodes, edges + [(i, j)], m, a, b)
  {
    hide Full, Alike, Drawable;
    var more := edges + [(i, j)];
    assert more[|edges|] == (i, j) && forall k :: 0 <= k < |edges| ==> more[k] == edges[k];
    assert m <= |edges| && Sooner((a, b), i, j);
    assert CutAt(edges, m, a, b);
    assert more[..m] == edges[..m];
  }

  lemma GreedyNextRow(nodes: seq<Node>, edges: seq<(nat, nat)>, i: nat)
    requires GreedyUpTo(nodes, edges, i, |nodes|)
    ensures GreedyUpTo(nodes, edges, i + 1, i + 2)
  {
    hide Drawable, FullAfter;
  }

  lemma CountedDraw(nodes: seq<Node>, edges: seq<(nat, nat)>, counts: map<string, nat>, i: nat, j: nat)
    requires i < j < |nodes| && Counted(nodes, edges, counts)
    requires nodes[i].beaconId in counts && nodes[j].beaconId in counts
    ensures var a, b := nodes[i].beaconId, nodes[j].beaconId;
            var once := counts[a := counts[a] + 1];
            Counted(nodes, edges + [(i, j)], once[b := once[b] + 1])
  {
    var more := edges + [(i, j)];
    assert more[..|edges|] == edges;
  }

  lemma CountedIsFull(nodes: seq<Node>, edges: seq<(nat, nat)>, counts: map<string, nat>, i: nat, j: nat)
    requires i < j < |nodes| && Counted(nodes, edges, counts)
    requires nodes[i].beaconId in counts && nodes[j].beaconId in counts
    ensures Inside(nodes, edges)
    ensures Full(nodes, edges, i, j) <==> counts[nodes[i].beaconId] >= CAP && counts[nodes[j].beaconId] >= CAP
  {
  }

  /** Draws the edges in loop order. However the beacons are named there are at most eight times as many edges
      as nodes and none between nodes that share nothing; with one node per beacon the edges are exactly the
      joined pairs. */
  method DrawEdges(nodes: seq<Node>) returns (edges: seq<(nat, nat)>)
    ensures Greedy(nodes, edges)
    ensures |edges| <= 8 * |nodes|
    ensures forall a, b :: (a, b) in edges ==> a < b < |nodes| && Alike(nodes[a], nodes[b])
    ensures DistinctIds(nodes) ==> forall a, b :: (a, b) in edges <==> Joined(nodes, a, b)
    ensures DistinctIds(nodes) ==> forall k, l :: 0 <= k < l < |edges| ==> edges[k] != edges[l]
  {
    hide CountsAt, DrawnSoFar, Bounded, Joined, Spent, GreedyUpTo, Counted, Full;
    var counts: map<string, nat>;
    ghost var ids: seq<string>;
    counts, ids := ResetCounts(nodes);
    edges := [];
    IdsCounted(nodes, counts, ids, edges);
    if nodes != [] {
      FreshCounts(nodes, counts);
    }
    assert DrawnSoFar(nodes, edges, 0, 1) by { NothingDrawn(nodes); }
    GreedyNothing(nodes, counts);
    for i := 0 to |nodes|
      invariant GreedyUpTo(nodes, edges, i, i + 1) && Counted(nodes, edges, counts)
      invariant Bounded(nodes, counts, ids, edges)
      invariant DistinctIds(nodes) ==> DrawnSoFar(nodes, edges, i, i + 1)
      invariant DistinctIds(nodes) && i < |nodes| ==> CountsAt(nodes, counts, i, i + 1)
    {
      var j := i + 1;
      while j < |nodes|
        invariant i < j <= |nodes|
        invariant GreedyUpTo(nodes, edges, i, j) && Counted(nodes, edges, counts)
        invariant Bounded(nodes, counts, ids, edges)
        invariant DistinctIds(nodes) ==> DrawnSoFar(nodes, edges, i, j) && CountsAt(nodes, counts, i, j)
      {
        var a, b := nodes[i].beaconId, nodes[j].beaconId;
        IdsCounted(nodes, counts, ids, edges);
        assert nodes[i] in nodes && nodes[j] in nodes;
        var shared := SharesCapability(nodes[i], nodes[j]);
        if DistinctIds(nodes) {
          DrawnStep(nodes, edges, i, j);
          PairDecision(nodes, counts, i, j);
        }
        CountedIsFull(nodes, edges, counts, i, j);
        if shared && !(counts[a] >= CAP && counts[b] >= CAP) {
          GreedyDraw(nodes, edges, i, j);
          CountedDraw(nodes, edges, counts, i, j);
          BoundedStep(nodes, counts, ids, edges, i, j);
          counts := counts[a := counts[a] + 1];
          counts := counts[b := counts[b] + 1];
          edges := edges + [(i, j)];
        } else {
          GreedySkip(nodes, edges, i, j);
        }
        j := j + 1;
      }
      GreedyNextRow(nodes, edges, i);
      if DistinctIds(nodes) {
        DrawnNextRow(nodes, edges, i);
        if i + 1 < |nodes| {
          CountsNextRow(nodes, counts, i);
        }
      }
    }
    IdsCounted(nodes, counts, ids, edges);
    if DistinctIds(nodes) {
      AllDrawn(nodes, edges);
    }
  }

  // What the cap leaves

  /** The first node of a group is joined to every other node of it. */
  lemma FirstReachesAll(nodes: seq<Node>, first: nat, other: nat)
    requires first < |nodes| && other < |nodes| && first != other && Shares(nodes[first], nodes[other])
    requires forall k :: 0 <= k < first ==> !Shares(nodes[k], nodes[first])
    ensures Joined(nodes, first, other)
  {
    NoneBefore(nodes, first, nodes[first].capability);
  }

  lemma {:induction false} NoneBefore(nodes: seq<Node>, hi: nat, capability: string)
    requires hi <= |nodes| && forall k :: 0 <= k < hi ==> nodes[k].capability != capability
    ensures CountRange(nodes, 0, hi, capability) == 0
  {
    if hi > 0 {
      NoneBefore(nodes, hi - 1, capability);
    }
  }

  /** So the cap never takes a group apart: two of its nodes are joined or have a common neighbour. */
  lemma GroupsStayConnected(nodes: seq<Node>, i: nat, j: nat)
    requires i < j < |nodes| && Shares(nodes[i], nodes[j])
    ensures Joined(nodes, i, j) || exists hub :: 0 <= hub < i && Joined(nodes, hub, i) && Joined(nodes, hub, j)
  {
    var hub := FirstOfGroup(nodes, i);
    if hub < i {
      FirstReachesAll(nodes, hub, i);
      FirstReachesAll(nodes, hub, j);
    } else {
      FirstReachesAll(nodes, i, j);
    }
  }

  lemma {:induction false} FirstOfGroup(nodes: seq<Node>, i: nat) returns (first: nat)
    requires i < |nodes| && nodes[i].capability != ""
    ensures first <= i && nodes[first].capability == nodes[i].capability
    ensures forall k :: 0 <= k < first ==> !Shares(nodes[k], nodes[first])
    decreases i
  {
    if k :| 0 <= k < i && Shares(nodes[k], nodes[i]) {
      first := FirstOfGroup(nodes, k);
    } else {
      first := i;
    }
  }

  ghost function EarlierNeighbours(nodes: seq<Node>, j: nat, hi: nat): set<int> {
    set i | 0 <= i < hi && Joined(nodes, i, j)
  }

  /** A node is joined to the first eight of its group that come before it, so a late one has exactly eight
      connections and starts none of its own. */
  lemma {:induction false} NeighboursCapped(nodes: seq<Node>, j: nat, hi: nat)
    requires hi <= j < |nodes| && nodes[j].capability != ""
    ensures |EarlierNeighbours(nodes, j, hi)| == Capped(CountRange(nodes, 0, hi, nodes[j].capability))
    ensures Rank(nodes, j) >= 8 ==> forall k :: !Joined(nodes, j, k)
  {
    if hi == 0 {
      assert EarlierNeighbours(nodes, j, 0) == {};
    } else {
      NeighboursCapped(nodes, j, hi - 1);
      var before, now := EarlierNeighbours(nodes, j, hi - 1), EarlierNeighbours(nodes, j, hi);
      if Joined(nodes, hi - 1, j) {
        assert now == before + {hi - 1};
      } else {
        assert now == before;
      }
    }
  }
}
