/** The critical path of a run: predecessor lists, the memoised longest-chain search with its cycle
    guard, and the guarded walk back along the best predecessors. */
module CriticalPath {
  import opened Option
  import opened StableSort
  import opened TaskRows
  import opened PredecessorGraph

  /** An edge of the operation graph; a missing end is the empty string. */
  datatype Connection = Connection(source: Key, target: Key) {
    predicate Usable() {
      source.Named() && target.Named()
    }
  }

  /** The key a row answers to in the operation graph. */
  function KeyOf(row: Row): Key {
    Key(if row.nodeHash != "" then row.nodeHash else row.workItemHash)
  }

  /** How far past its successor's start a task may end and still count as its predecessor. */
  const OVERLAP_MS := 200

  /** Extra steps the walk back may take beyond one per task. */
  const GUARD_SLACK := 5

  // Building the graph

  function ListOf(preds: map<Key, seq<Key>>, k: Key): seq<Key> {
    if k in preds then preds[k] else []
  }

  function Push(preds: map<Key, seq<Key>>, k: Key, p: Key): map<Key, seq<Key>> {
    preds[k := ListOf(preds, k) + [p]]
  }

  function GraphPreds(connections: seq<Connection>): map<Key, seq<Key>> {
    if connections == [] then map[]
    else
      var preds, c := GraphPreds(connections[..|connections| - 1]), connections[|connections| - 1];
      if c.Usable() then Push(preds, c.target, c.source) else preds
  }

  /** The latest of the first `j` rows that ends no more than the overlap after `row` starts. */
  function LatestBefore(sorted: seq<Row>, row: Row, j: nat): (r: Option<nat>)
    requires j <= |sorted|
    ensures r.Some? ==> r.value < j && sorted[r.value].endAt <= row.at + 200
    ensures forall i :: (if r.Some? then r.value + 1 else 0) <= i < j ==> sorted[i].endAt > row.at + 200
  {
    if j == 0 then None
    else if sorted[j - 1].endAt <= row.at + OVERLAP_MS then Some(j - 1)
    else LatestBefore(sorted, row, j - 1)
  }

  function OverlapPreds(sorted: seq<Row>, n: nat): map<Key, seq<Key>>
    requires n <= |sorted|
  {
    if n == 0 then map[]
    else
      var preds, row := OverlapPreds(sorted, n - 1), sorted[n - 1];
      match LatestBefore(sorted, row, n - 1)
      case Some(j) => Push(preds, KeyOf(row), KeyOf(sorted[j]))
      case None => preds
  }

  /** The durations by key; the first row to use a key speaks for it. */
  function FirstDurations(tasks: seq<Row>): (d: map<Key, int>)
    ensures forall k :: k in d <==> k in TaskKeys(tasks)
  {
    if tasks == [] then map[]
    else
      var d, last := FirstDurations(tasks[..|tasks| - 1]), tasks[|tasks| - 1];
      assert tasks == tasks[..|tasks| - 1] + [last];
      if KeyOf(last) in d then d else d[KeyOf(last) := last.DurationMs()]
  }

  ghost function TaskKeys(tasks: seq<Row>): set<Key> {
    set row | row in tasks :: KeyOf(row)
  }

  function SortByStart(tasks: seq<Row>): seq<Row> {
    SortBy((row: Row) => row.at, tasks)
  }

  /** The operation's connections when it has any, and otherwise the overlap heuristic. */
  function PredsOf(tasks: seq<Row>, connections: seq<Connection>): map<Key, seq<Key>> {
    if connections != [] then GraphPreds(connections)
    else
      var sorted := SortByStart(tasks);
      OverlapPreds(sorted, |sorted|)
  }

  function GraphOf(tasks: seq<Row>, connections: seq<Connection>): Graph {
    Graph(PredsOf(tasks, connections), FirstDurations(tasks))
  }

  // What the lists and durations are, without running the loops that fill them

  ghost predicate Rising(at: seq<nat>) {
    forall a, b :: 0 <= a < b < |at| ==> at[a] < at[b]
  }

  /** `at` are the positions of all connections into `k` that have both ends, in order, and `list` their sources. */
  ghost predicate SourcesAt(connections: seq<Connection>, k: Key, list: seq<Key>, at: seq<nat>) {
    && |at| == |list| && Rising(at)
    && (forall a :: 0 <= a < |at| ==>
          at[a] < |connections| && connections[at[a]] == Connection(list[a], k) && HasEnds(connections[at[a]]))
    && (forall i :: 0 <= i < |connections| && connections[i].target == k && HasEnds(connections[i]) ==> i in at)
  }

  ghost predicate HasEnds(c: Connection) {
    c.source.hash != "" && c.target.hash != ""
  }

  /** The sources of the connections with both ends into `k`, each as often and in the order that they come. */
  ghost predicate ListsSources(connections: seq<Connection>, k: Key, list: seq<Key>) {
    exists at :: SourcesAt(connections, k, list, at)
  }

  lemma Pushed(preds: map<Key, seq<Key>>, k: Key, p: Key, x: Key)
    ensures ListOf(Push(preds, k, p), x) == if x == k then ListOf(preds, x) + [p] else ListOf(preds, x)
  {
  }

  lemma SourcesStep(init: seq<Connection>, c: Connection, k: Key, list: seq<Key>)
    requires ListsSources(init, k, list)
    ensures ListsSources(init + [c], k, if c.Usable() && c.target == k then list + [c.source] else list)
  {
    var at :| SourcesAt(init, k, list, at);
    if c.Usable() && c.target == k {
      SourceAdded(init, c, k, list, at);
    } else {
      assert SourcesAt(init + [c], k, list, at);
    }
  }

  lemma SourceAdded(init: seq<Connection>, c: Connection, k: Key, list: seq<Key>, at: seq<nat>)
    requires SourcesAt(init, k, list, at) && c.Usable() && c.target == k
    ensures SourcesAt(init + [c], k, list + [c.source], at + [|init|])
  {
    var connections, longer := init + [c], at + [|init|];
    forall i | 0 <= i < |connections| && connections[i].target == k && HasEnds(connections[i]) ensures i in longer {
      assert i < |init| ==> i in at;
      assert longer[|at|] == |init|;
    }
  }

  lemma NoSources(k: Key)
    ensures ListsSources([], k, []) && ListOf(map[], k) == []
  {
    assert SourcesAt([], k, [], []);
  }

  lemma {:induction false} GraphPredsAre(connections: seq<Connection>, k: Key)
    ensures ListsSources(connections, k, ListOf(GraphPreds(connections), k))
  {
    hide ListsSources, ListOf, Push;
    if connections == [] {
      NoSources(k);
    } else {
      var init, c := connections[..|connections| - 1], connections[|connections| - 1];
      GraphPredsAre(init, k);
      SourcesStep(init, c, k, ListOf(GraphPreds(init), k));
      Pushed(GraphPreds(init), c.target, c.source, k);
      assert connections == init + [c];
    }
  }

  /** `at` are the positions of the first `n` rows with key `k` that find a row when looking back, in order, and
      `list` are the keys of the rows found. */
  ghost predicate LinksAt(sorted: seq<Row>, n: nat, k: Key, list: seq<Key>, at: seq<nat>)
    requires n <= |sorted|
  {
    && |at| == |list| && Rising(at)
    && (forall a :: 0 <= a < |at| ==> at[a] < n && Links(sorted, at[a], k, list[a]))
    && (forall i, p :: 0 <= i < n && Links(sorted, i, k, p) ==> i in at)
  }

  /** Row `i` has the key `k` and the row it looks back to has the key `p`. */
  ghost predicate Links(sorted: seq<Row>, i: nat, k: Key, p: Key)
    requires i < |sorted|
  {
    && KeyOf(sorted[i]) == k
    && var j := LatestBefore(sorted, sorted[i], i);
       j.Some? && KeyOf(sorted[j.value]) == p
  }

  ghost predicate ListsLinks(sorted: seq<Row>, n: nat, k: Key, list: seq<Key>)
    requires n <= |sorted|
  {
    exists at :: LinksAt(sorted, n, k, list, at)
  }

  lemma LinksStep(sorted: seq<Row>, n: nat, k: Key, list: seq<Key>)
    requires 0 < n <= |sorted| && ListsLinks(sorted, n - 1, k, list)
    ensures var j := LatestBefore(sorted, sorted[n - 1], n - 1);
            ListsLinks(sorted, n, k,
                       if j.Some? && KeyOf(sorted[n - 1]) == k then list + [KeyOf(sorted[j.value])] else list)
  {
    hide KeyOf, LatestBefore;
    var at :| LinksAt(sorted, n - 1, k, list, at);
    if LatestBefore(sorted, sorted[n - 1], n - 1).Some? && KeyOf(sorted[n - 1]) == k {
      LinkAdded(sorted, n, k, list, at);
    } else {
      assert LinksAt(sorted, n, k, list, at);
    }
  }

  lemma NoLinksYet(sorted: seq<Row>, k: Key)
    ensures ListsLinks(sorted, 0, k, []) && ListOf(map[], k) == []
  {
    assert LinksAt(sorted, 0, k, [], []);
  }

  lemma {:induction false} OverlapPredsAre(sorted: seq<Row>, n: nat, k: Key)
    requires n <= |sorted|
    ensures ListsLinks(sorted, n, k, ListOf(OverlapPreds(sorted, n), k))
  {
    hide KeyOf, LatestBefore, ListsLinks, ListOf, Push;
    if n == 0 {
      NoLinksYet(sorted, k);
    } else {
      OverlapPredsAre(sorted, n - 1, k);
      LinksStep(sorted, n, k, ListOf(OverlapPreds(sorted, n - 1), k));
      var j := LatestBefore(sorted, sorted[n - 1], n - 1);
      if j.Some? {
        Pushed(OverlapPreds(sorted, n - 1), KeyOf(sorted[n - 1]), KeyOf(sorted[j.value]), k);
      }
    }
  }

  lemma LinkAdded(sorted: seq<Row>, n: nat, k: Key, list: seq<Key>, at: seq<nat>)
    requires 0 < n <= |sorted| && LinksAt(sorted, n - 1, k, list, at)
    requires KeyOf(sorted[n - 1]) == k && LatestBefore(sorted, sorted[n - 1], n - 1).Some?
    ensures LinksAt(sorted, n, k, list + [KeyOf(sorted[LatestBefore(sorted, sorted[n - 1], n - 1).value])], at + [n - 1])
  {
    hide KeyOf, LatestBefore;
    var longer := at + [n - 1];
    forall i, p | 0 <= i < n && Links(sorted, i, k, p) ensures i in longer {
      assert i < n - 1 ==> i in at;
      assert longer[|at|] == n - 1;
    }
  }

  /** No earlier row uses the key of row `i`. */
  ghost predicate IsFirst(tasks: seq<Row>, i: nat)
    requires i < |tasks|
  {
    forall j :: 0 <= j < i ==> KeyOf(tasks[j]) != KeyOf(tasks[i])
  }

  lemma {:induction false} FirstSpeaks(tasks: seq<Row>, i: nat)
    requires i < |tasks| && IsFirst(tasks, i)
    ensures KeyOf(tasks[i]) in FirstDurations(tasks) && FirstDurations(tasks)[KeyOf(tasks[i])] == tasks[i].DurationMs()
  {
    hide KeyOf;
    var init := tasks[..|tasks| - 1];
    if i < |init| {
      FirstSpeaks(init, i);
    } else {
      FirstsOnly(init);
    }
  }

  lemma FirstsOnly(tasks: seq<Row>)
    ensures forall k :: k in FirstDurations(tasks) ==> exists j :: 0 <= j < |tasks| && KeyOf(tasks[j]) == k
  {
  }

  method CollectDurations(tasks: seq<Row>) returns (d: map<Key, int>)
    ensures d == FirstDurations(tasks) && d.Keys == TaskKeys(tasks)
    ensures forall i :: 0 <= i < |tasks| && IsFirst(tasks, i) ==> d[KeyOf(tasks[i])] == tasks[i].DurationMs()
  {
    hide KeyOf, IsFirst;
    d := map[];
    for i := 0 to |tasks|
      invariant d == FirstDurations(tasks[..i])
    {
      assert tasks[..i + 1][..i] == tasks[..i];
      if KeyOf(tasks[i]) !in d {
        d := d[KeyOf(tasks[i]) := tasks[i].DurationMs()];
      }
    }
    assert tasks[..|tasks|] == tasks;
    forall i | 0 <= i < |tasks| && IsFirst(tasks, i)
      ensures KeyOf(tasks[i]) in d && d[KeyOf(tasks[i])] == tasks[i].DurationMs()
    {
      FirstSpeaks(tasks, i);
    }
  }

  method CollectGraphPreds(connections: seq<Connection>) returns (preds: map<Key, seq<Key>>)
    ensures preds == GraphPreds(connections)
    ensures forall k :: ListsSources(connections, k, ListOf(preds, k))
  {
    hide Push, ListOf, ListsSources;
    preds := map[];
    for i := 0 to |connections|
      invariant preds == GraphPreds(connections[..i])
    {
      assert connections[..i + 1][..i] == connections[..i];
      var c := connections[i];
      if !c.source.Named() || !c.target.Named() {
        continue;
      }
      preds := Push(preds, c.target, c.source);
    }
    assert connections[..|connections|] == connections;
    forall k ensures ListsSources(connections, k, ListOf(preds, k)) {
      GraphPredsAre(connections, k);
    }
  }

  /** The rows in order, each looking back for its predecessor. */
  method CollectOverlapPreds(sorted: seq<Row>) returns (preds: map<Key, seq<Key>>)
    ensures preds == OverlapPreds(sorted, |sorted|)
    ensures forall k :: ListsLinks(sorted, |sorted|, k, ListOf(preds, k))
  {
    hide Push, KeyOf, ListOf, ListsLinks;
    preds := map[];
    if sorted != [] {
      OverlapFirst(sorted);
    }
    var i := 1;
    while i < |sorted|
      invariant 1 <= i && (i <= |sorted| || sorted == [])
      invariant preds == if sorted == [] then map[] else OverlapPreds(sorted, i)
    {
      var j := LookBack(sorted, i);
      if j >= 0 {
        preds := Push(preds, KeyOf(sorted[i]), KeyOf(sorted[j]));
      }
      i := i + 1;
    }
    forall k ensures ListsLinks(sorted, |sorted|, k, ListOf(preds, k)) {
      OverlapPredsAre(sorted, |sorted|, k);
    }
  }

  lemma OverlapFirst(sorted: seq<Row>)
    requires sorted != []
    ensures OverlapPreds(sorted, 1) == map[]
  {
    assert LatestBefore(sorted, sorted[0], 0) == None;
  }

  /** The inner loop: from the row before `i` down to the first that ends early enough, -1 if none does. */
  method LookBack(sorted: seq<Row>, i: nat) returns (j: int)
    requires i < |sorted|
    ensures -1 <= j < i
    ensures LatestBefore(sorted, sorted[i], i) == if j >= 0 then Some(j) else None
  {
    j := i - 1;
    while j >= 0
      invariant -1 <= j < i
      invariant LatestBefore(sorted, sorted[i], i) == LatestBefore(sorted, sorted[i], j + 1)
    {
      if sorted[j].endAt <= sorted[i].at + OVERLAP_MS {
        break;
      }
      j := j - 1;
    }
  }

  /** The operation's connections decide when there are any; otherwise the rows do, taken by start. */
  method CollectPreds(tasks: seq<Row>, connections: seq<Connection>) returns (preds: map<Key, seq<Key>>)
    ensures preds == PredsOf(tasks, connections)
    ensures connections != [] ==> forall k :: ListsSources(connections, k, ListOf(preds, k))
    ensures connections == [] ==>
              var sorted := SortByStart(tasks); forall k :: ListsLinks(sorted, |sorted|, k, ListOf(preds, k))
  {
    hide GraphPreds, OverlapPreds, SortByStart, ListsSources, ListsLinks, ListOf;
    if connections != [] {
      preds := CollectGraphPreds(connections);
    } else {
      preds := CollectOverlapPreds(SortByStart(tasks));
    }
  }

  // The search

  /** Every predecessor the graph lists is a proper key of the universe. */
  ghost predicate Closed(g: Graph, universe: set<Key>) {
    && (forall k :: k in universe ==> k.Named())
    && (forall k, p :: p in g.Preds(k) ==> p in universe)
  }

  ghost predicate Extends(a: map<Key, int>, b: map<Key, int>) {
    forall k :: k in a ==> k in b && a[k] == b[k]
  }

  /** Each finished key's length is its own task's plus that of its chosen predecessor, if it chose
      one, and a chosen predecessor finished earlier. */
  ghost predicate Linked(g: Graph, dist: map<Key, int>, from: map<Key, Key>, rank: map<Key, nat>) {
    && rank.Keys == dist.Keys
    && (forall k :: k in from ==> k in dist && LinkedAt(g, dist, rank, k, from[k]))
    && (forall k :: k in dist ==> k in from || dist[k] == g.Duration(k))
  }

  ghost predicate LinkedAt(g: Graph, dist: map<Key, int>, rank: map<Key, nat>, k: Key, p: Key)
    requires rank.Keys == dist.Keys && k in dist
  {
    && p in g.Preds(k)
    && p in dist
    && rank[p] < rank[k]
    && dist[p] > 0
    && dist[k] == dist[p] + g.Duration(k)
  }

  lemma OpenPredClosesLoop(g: Graph, path: seq<Key>, p: Key)
    requires path != [] && IsChain(g, path) && p in path
    ensures ClosesLoop(g, p, path[0])
  {
    var i :| 0 <= i < |path| && path[i] == p;
    assert ChainTo(g, path[..i + 1], p);
  }

  lemma PathExtends(g: Graph, path: seq<Key>, k: Key)
    requires path != [] ==> IsChain(g, path) && k in g.Preds(path[0])
    ensures IsChain(g, [k] + path)
  {
  }

  lemma PathShrinks(g: Graph, path: seq<Key>)
    requires IsChain(g, path) && NoRepeats(path)
    ensures Elements(path) == Elements(path[1..]) + {path[0]} && path[0] !in Elements(path[1..])
    ensures NoRepeats(path[1..])
    ensures path[1..] != [] ==> IsChain(g, path[1..])
  {
    var rest := path[1..];
    assert path == [path[0]] + rest;
    forall i | 0 < i < |rest| ensures rest[i - 1] in g.Preds(rest[i]) {
      assert path[i] in g.Preds(path[i + 1]);
    }
  }

  lemma FinishSettles(g: Graph, dist: map<Key, int>, k: Key, d: int)
    requires Settled(g, dist) && k !in dist && g.Duration(k) <= d
    requires forall p :: p in g.Preds(k) ==> (p in dist && dist[p] + g.Duration(k) <= d) || ClosesLoop(g, p, k)
    ensures Settled(g, dist[k := d])
  {
    var next := dist[k := d];
    forall x | x in next ensures SettledAt(g, next, x) {
      forall p | p in g.Preds(x) ensures Covers(g, next, p, x) {
        if x != k {
          assert SettledAt(g, dist, x) && Covers(g, dist, p, x);
        }
      }
    }
  }

  lemma LinkedRanks(g: Graph, dist: map<Key, int>, from: map<Key, Key>, rank: map<Key, nat>)
    requires Linked(g, dist, from, rank)
    ensures rank.Keys == dist.Keys
  {
  }

  lemma FinishLinks(g: Graph, dist: map<Key, int>, from: map<Key, Key>, rank: map<Key, nat>,
                    k: Key, p: Option<Key>, now: nat)
    requires Linked(g, dist, from, rank) && k !in dist
    requires p.Some? ==> p.value in g.Preds(k) && p.value in dist && dist[p.value] > 0 && rank[p.value] < now
    ensures var d := (if p.Some? then dist[p.value] else 0) + g.Duration(k);
            Linked(g, dist[k := d], if p.Some? then from[k := p.value] else from, rank[k := now])
  {
    var d := (if p.Some? then dist[p.value] else 0) + g.Duration(k);
    var dist', from', rank' := dist[k := d], if p.Some? then from[k := p.value] else from, rank[k := now];
    if p.Some? {
      LinkNew(g, dist, rank, k, p.value, now);
    }
    hide LinkedAt;
    forall x | x in from' ensures x in dist' && LinkedAt(g, dist', rank', x, from'[x]) {
      if x != k {
        LinkPersists(g, dist, rank, x, from[x], k, d, now);
      }
    }
  }

  lemma LinkNew(g: Graph, dist: map<Key, int>, rank: map<Key, nat>, k: Key, p: Key, now: nat)
    requires rank.Keys == dist.Keys && k !in dist
    requires p in g.Preds(k) && p in dist && dist[p] > 0 && rank[p] < now
    ensures LinkedAt(g, dist[k := dist[p] + g.Duration(k)], rank[k := now], k, p)
  {
  }

  lemma LinkPersists(g: Graph, dist: map<Key, int>, rank: map<Key, nat>, x: Key, p: Key, k: Key, d: int, now: nat)
    requires rank.Keys == dist.Keys && x in dist && LinkedAt(g, dist, rank, x, p) && k !in dist
    ensures LinkedAt(g, dist[k := d], rank[k := now], x, p)
  {
  }

  /** Every visited key is either finished or on the chain of open ones. */
  ghost predicate Opened(g: Graph, dist: map<Key, int>, visited: set<Key>, path: seq<Key>) {
    && visited == dist.Keys + Elements(path)
    && dist.Keys !! Elements(path)
    && NoRepeats(path)
    && (path != [] ==> IsChain(g, path))
  }

  ghost predicate Recorded(g: Graph, dist: map<Key, int>, from: map<Key, Key>, rank: map<Key, nat>, finished: nat) {
    && Settled(g, dist)
    && Linked(g, dist, from, rank)
    && FirstChoices(g, dist, from)
    && (forall k :: k in rank ==> rank[k] < finished)
  }

  lemma OpenStep(g: Graph, dist: map<Key, int>, visited: set<Key>, path: seq<Key>, k: Key)
    requires Opened(g, dist, visited, path) && k !in visited
    requires path != [] ==> k in g.Preds(path[0])
    ensures Opened(g, dist, visited + {k}, [k] + path)
  {
    PathExtends(g, path, k);
    assert Elements([k] + path) == Elements(path) + {k};
  }

  lemma CloseStep(g: Graph, dist: map<Key, int>, visited: set<Key>, path: seq<Key>, d: int)
    requires Opened(g, dist, visited, path) && path != []
    ensures path[0] !in dist
    ensures Opened(g, dist[path[0] := d], visited, path[1..])
  {
    PathShrinks(g, path);
    assert path[0] in Elements(path);
  }

  lemma FinishStep(g: Graph, dist: map<Key, int>, from: map<Key, Key>, rank: map<Key, nat>, finished: nat,
                    k: Key, best: int, bestPred: Option<Key>)
    requires Recorded(g, dist, from, rank, finished) && k !in dist
    requires IsBest(g, dist, k, |g.Preds(k)|, best, bestPred)
    ensures Recorded(g, dist[k := best + g.Duration(k)], if bestPred.Some? then from[k := bestPred.value] else from,
                    rank[k := finished], finished + 1)
  {
    hide ClosesLoop, IsBest, Settled, Linked, FirstChoices;
    BestCoversPreds(g, dist, k, best, bestPred);
    FinishChooses(g, dist, from, k, best, bestPred, best + g.Duration(k));
    LinkedRanks(g, dist, from, rank);
    FinishSettles(g, dist, k, best + g.Duration(k));
    FinishLinks(g, dist, from, rank, k, bestPred, finished);
  }

  /** The closure state of the search: finished lengths, chosen predecessors and the keys entered.
      `path` is the chain of keys still open, innermost first; `rank` orders keys by finish. */
  class LongestSearch {
    const g: Graph
    ghost const universe: set<Key>
    var dist: map<Key, int>
    var from: map<Key, Key>
    var visited: set<Key>
    ghost var path: seq<Key>
    ghost var rank: map<Key, nat>
    ghost var finished: nat

    ghost predicate Valid()
      reads this
    {
      && Closed(g, universe)
      && visited <= universe
      && Opened(g, dist, visited, path)
      && Recorded(g, dist, from, rank, finished)
    }

    constructor (g: Graph, ghost universe: set<Key>)
      requires Closed(g, universe)
      ensures Valid() && this.g == g && this.universe == universe
      ensures path == [] && dist == map[]
    {
      this.g := g;
      this.universe := universe;
      dist, from, visited := map[], map[], {};
      path, rank, finished := [], map[], 0;
    }

    /** Records the total of the innermost open key and its best predecessor, and closes it. */
    method Finish(k: Key, best: int, bestPred: Option<Key>) returns (total: int)
      requires Valid() && path != [] && path[0] == k
      requires IsBest(g, dist, k, |g.Preds(k)|, best, bestPred)
      modifies this
      ensures Valid() && path == old(path[1..]) && visited == old(visited)
      ensures total == best + g.Duration(k) && dist == old(dist)[k := total]
    {
      hide Recorded, Opened, Closed, IsBest;
      total := best + g.Duration(k);
      CloseStep(g, dist, visited, path, total);
      FinishStep(g, dist, from, rank, finished, k, best, bestPred);
      dist := dist[k := total];
      rank := rank[k := finished];
      finished := finished + 1;
      path := path[1..];
      if bestPred.Some? {
        from := from[k := bestPred.value];
      }
    }

    /** Finishes `k` unless it is still open, in which case the cycle guard answers 0. Nothing that
        was finished before changes. */
    method Visit(k: Key) returns (d: int)
      requires Valid() && k in universe
      requires path != [] ==> k in g.Preds(path[0])
      modifies this
      ensures Valid() && path == old(path)
      ensures old(visited) <= visited && k in visited
      ensures Extends(old(dist), dist)
      ensures if k in dist then d == dist[k] else d == 0 && k in path
      decreases universe - visited
    {
      hide Recorded, ClosesLoop, IsChain, Closed, IsBest;
      if k in dist {
        return dist[k];
      }
      if k in visited {
        return 0;
      }
      OpenStep(g, dist, visited, path, k);
      visited := visited + {k};
      path := [k] + path;
      assert path[1..] == old(path);
      var preds := g.Preds(k);
      var best, bestPred := 0, None;
      NothingTried(g, dist, k);
      for i := 0 to |preds|
        invariant Valid() && path == [k] + old(path)
        invariant old(visited) + {k} <= visited
        invariant Extends(old(dist), dist)
        invariant IsBest(g, dist, k, i, best, bestPred)
      {
        InUniverse(g, universe, k, preds[i]);
        label tried:
        var length := Visit(preds[i]);
        ghost var wasBest, wasPred := best, bestPred;
        if length > best {
          best, bestPred := length, Some(preds[i]);
        }
        if preds[i] !in dist {
          OpenPredClosesLoop(g, path, preds[i]);
        }
        TryPred(g, old@tried(dist), dist, k, i, wasBest, wasPred, length);
      }
      d := Finish(k, best, bestPred);
    }
  }

  /** Among the first `n` predecessors of `k`, `best` is the greatest positive finished length, with
      the first predecessor that has it, or 0 with none; edges that close a loop do not count. */
  ghost predicate IsBest(g: Graph, dist: map<Key, int>, k: Key, n: nat, best: int, bestPred: Option<Key>)
    requires n <= |g.Preds(k)|
  {
    && (bestPred.None? ==> best == 0)
    && (bestPred.Some? ==> bestPred.value in g.Preds(k) && bestPred.value in dist && best == dist[bestPred.value] > 0)
    && (forall j :: 0 <= j < n ==> Bounded(g, dist, k, g.Preds(k)[j], best))
    && (bestPred.Some? ==> FirstToReach(g, dist, k, n, best, bestPred.value))
  }

  /** `p` is among the first `n` predecessors, and no predecessor before it reaches that length. */
  ghost predicate FirstToReach(g: Graph, dist: map<Key, int>, k: Key, n: nat, best: int, p: Key)
    requires n <= |g.Preds(k)|
  {
    exists j :: 0 <= j < n && g.Preds(k)[j] == p && forall i :: 0 <= i < j ==> Beaten(g, dist, k, g.Preds(k)[i], best)
  }

  ghost predicate Beaten(g: Graph, dist: map<Key, int>, k: Key, p: Key, best: int) {
    (p in dist && dist[p] < best) || ClosesLoop(g, p, k)
  }

  lemma FirstToReachPersists(g: Graph, before: map<Key, int>, dist: map<Key, int>, k: Key, n: nat, m: nat, best: int, p: Key)
    requires n <= m <= |g.Preds(k)| && FirstToReach(g, before, k, n, best, p) && Extends(before, dist)
    ensures FirstToReach(g, dist, k, m, best, p)
  {
    hide ClosesLoop;
    var j :| 0 <= j < n && g.Preds(k)[j] == p && forall i :: 0 <= i < j ==> Beaten(g, before, k, g.Preds(k)[i], best);
    forall i | 0 <= i < j ensures Beaten(g, dist, k, g.Preds(k)[i], best) {
      assert Beaten(g, before, k, g.Preds(k)[i], best);
    }
  }

  /** Each chosen predecessor is the first that reaches the greatest length. */
  ghost predicate FirstChoices(g: Graph, dist: map<Key, int>, from: map<Key, Key>) {
    forall k :: k in from ==> FirstChoice(g, dist, k, from[k])
  }

  ghost predicate FirstChoice(g: Graph, dist: map<Key, int>, k: Key, p: Key) {
    p in dist && FirstToReach(g, dist, k, |g.Preds(k)|, dist[p], p)
  }

  lemma FinishChooses(g: Graph, dist: map<Key, int>, from: map<Key, Key>, k: Key, best: int, bestPred: Option<Key>, d: int)
    requires FirstChoices(g, dist, from) && k !in dist && IsBest(g, dist, k, |g.Preds(k)|, best, bestPred)
    ensures FirstChoices(g, dist[k := d], if bestPred.Some? then from[k := bestPred.value] else from)
  {
    var from' := if bestPred.Some? then from[k := bestPred.value] else from;
    hide FirstToReach;
    forall x | x in from' ensures FirstChoice(g, dist[k := d], x, from'[x]) {
      var length := dist[from'[x]];
      FirstToReachPersists(g, dist, dist[k := d], x, |g.Preds(x)|, |g.Preds(x)|, length, from'[x]);
    }
  }

  ghost predicate Bounded(g: Graph, dist: map<Key, int>, k: Key, p: Key, best: int) {
    (p in dist && dist[p] <= best) || ClosesLoop(g, p, k)
  }

  lemma NothingTried(g: Graph, dist: map<Key, int>, k: Key)
    ensures IsBest(g, dist, k, 0, 0, None)
  {
  }

  lemma TryPred(g: Graph, before: map<Key, int>, dist: map<Key, int>, k: Key, i: nat,
                best: int, bestPred: Option<Key>, length: int)
    requires i < |g.Preds(k)| && IsBest(g, before, k, i, best, bestPred) && Extends(before, dist)
    requires var p := g.Preds(k)[i]; if p in dist then length == dist[p] else length == 0 && ClosesLoop(g, p, k)
    ensures if length > best then IsBest(g, dist, k, i + 1, length, Some(g.Preds(k)[i]))
            else IsBest(g, dist, k, i + 1, best, bestPred)
  {
    var best' := if length > best then length else best;
    hide ClosesLoop;
    if length > best {
      assert FirstToReach(g, dist, k, i + 1, length, g.Preds(k)[i]) by {
        NowReached(g, before, dist, k, i, best, bestPred, length);
      }
    } else if bestPred.Some? {
      FirstToReachPersists(g, before, dist, k, i, i + 1, best, bestPred.value);
    }
    hide FirstToReach;
    forall j | 0 <= j < i + 1 ensures Bounded(g, dist, k, g.Preds(k)[j], best') {
      if j < i {
        assert Bounded(g, before, k, g.Preds(k)[j], best);
      }
    }
  }

  lemma NowReached(g: Graph, before: map<Key, int>, dist: map<Key, int>, k: Key, i: nat,
                   best: int, bestPred: Option<Key>, length: int)
    requires i < |g.Preds(k)| && IsBest(g, before, k, i, best, bestPred) && Extends(before, dist) && length > best
    ensures FirstToReach(g, dist, k, i + 1, length, g.Preds(k)[i])
  {
    hide ClosesLoop, FirstToReach;
    forall j | 0 <= j < i ensures Beaten(g, dist, k, g.Preds(k)[j], length) {
      assert Bounded(g, before, k, g.Preds(k)[j], best);
    }
    FirstHere(g, dist, k, i, length);
  }

  lemma FirstHere(g: Graph, dist: map<Key, int>, k: Key, i: nat, length: int)
    requires i < |g.Preds(k)| && forall j :: 0 <= j < i ==> Beaten(g, dist, k, g.Preds(k)[j], length)
    ensures FirstToReach(g, dist, k, i + 1, length, g.Preds(k)[i])
  {
  }

  lemma BestCoversPreds(g: Graph, dist: map<Key, int>, k: Key, best: int, bestPred: Option<Key>)
    requires IsBest(g, dist, k, |g.Preds(k)|, best, bestPred)
    ensures forall p :: p in g.Preds(k) ==>
                          (p in dist && dist[p] + g.Duration(k) <= best + g.Duration(k)) || ClosesLoop(g, p, k)
    ensures best >= 0
    ensures bestPred.None? ==> best == 0
    ensures bestPred.Some? ==> bestPred.value in g.Preds(k) && bestPred.value in dist && best == dist[bestPred.value] > 0
  {
    forall p | p in g.Preds(k) ensures Bounded(g, dist, k, p, best) {
      var j :| 0 <= j < |g.Preds(k)| && g.Preds(k)[j] == p;
    }
  }

  lemma InUniverse(g: Graph, universe: set<Key>, k: Key, p: Key)
    requires Closed(g, universe) && p in g.Preds(k)
    ensures p in universe
  {
  }

  // The walk back

  /** The keys reached from `k` by following chosen predecessors, earliest first. */
  ghost function BackChain(g: Graph, dist: map<Key, int>, from: map<Key, Key>, rank: map<Key, nat>, k: Key): seq<Key>
    requires Linked(g, dist, from, rank) && k in dist
    decreases rank[k]
  {
    if k in from then
      assert LinkedAt(g, dist, rank, k, from[k]);
      BackChain(g, dist, from, rank, from[k]) + [k]
    else [k]
  }

  /** Each key of `c` was chosen as the predecessor of the next, and the first chose none. */
  ghost predicate Follows(from: map<Key, Key>, c: seq<Key>) {
    && c != []
    && c[0] !in from
    && forall i :: 0 < i < |c| ==> c[i] in from && from[c[i]] == c[i - 1]
  }

  /** `c` is the chain of chosen predecessors that ends at `k`, and its tasks account for the whole
      recorded length. */
  ghost predicate IsBackChain(g: Graph, dist: map<Key, int>, from: map<Key, Key>, c: seq<Key>, k: Key) {
    && ChainTo(g, c, k)
    && NoRepeats(c)
    && Follows(from, c)
    && PositivePrefixes(g, c)
    && k in dist
    && Weight(g, c) == dist[k]
    && Lengths(g, dist, c)
  }

  ghost predicate Lengths(g: Graph, dist: map<Key, int>, c: seq<Key>) {
    forall i :: 0 <= i < |c| ==> c[i] in dist && dist[c[i]] == Weight(g, c[..i + 1])
  }

  lemma BackChainAppend(g: Graph, dist: map<Key, int>, from: map<Key, Key>, c: seq<Key>, p: Key, k: Key)
    requires IsBackChain(g, dist, from, c, p) && p in g.Preds(k)
    requires k in from && from[k] == p && k in dist && dist[k] == dist[p] + g.Duration(k) && dist[p] > 0
    requires k !in c
    ensures IsBackChain(g, dist, from, c + [k], k)
  {
    hide Lengths, PositivePrefixes;
    ChainAppend(g, c, k);
    WeightAppend(g, c, k);
    PrefixesAppend(g, c, k);
    LengthsAppend(g, dist, c, k);
  }

  lemma PrefixesAppend(g: Graph, c: seq<Key>, k: Key)
    requires PositivePrefixes(g, c) && Weight(g, c) > 0
    ensures PositivePrefixes(g, c + [k])
  {
    forall i | 0 < i < |c + [k]| ensures Weight(g, (c + [k])[..i]) > 0 {
      assert (c + [k])[..i] == c[..i];
      assert c[..|c|] == c;
    }
  }

  lemma LengthsAppend(g: Graph, dist: map<Key, int>, c: seq<Key>, k: Key)
    requires Lengths(g, dist, c) && k in dist && Weight(g, c + [k]) == dist[k]
    ensures Lengths(g, dist, c + [k])
  {
    var d := c + [k];
    hide Weight;
    forall i | 0 <= i < |d| ensures d[i] in dist && dist[d[i]] == Weight(g, d[..i + 1]) {
      if i < |c| {
        assert d[..i + 1] == c[..i + 1] && d[i] == c[i];
      } else {
        assert d[..i + 1] == d;
      }
    }
  }

  lemma BackChainAlone(g: Graph, dist: map<Key, int>, from: map<Key, Key>, k: Key)
    requires k !in from && k in dist && dist[k] == g.Duration(k)
    ensures IsBackChain(g, dist, from, [k], k)
  {
    assert [k][..0] == [] && [k][..1] == [k];
  }

  /** Back-pointers lead to keys finished strictly earlier, so following them never comes round. */
  lemma {:induction false} BackChainLaws(g: Graph, dist: map<Key, int>, from: map<Key, Key>, rank: map<Key, nat>, k: Key)
    requires Linked(g, dist, from, rank) && k in dist
    ensures var c := BackChain(g, dist, from, rank, k);
            IsBackChain(g, dist, from, c, k) && forall x :: x in c ==> x in rank && rank[x] <= rank[k]
    decreases rank[k]
  {
    hide IsBackChain;
    if k in from {
      assert LinkedAt(g, dist, rank, k, from[k]);
      BackChainLaws(g, dist, from, rank, from[k]);
      BackChainAppend(g, dist, from, BackChain(g, dist, from, rank, from[k]), from[k], k);
    } else {
      BackChainAlone(g, dist, from, k);
    }
  }

  method WalkBack(from: map<Key, Key>, end: Key, guard: nat, ghost c: seq<Key>) returns (out: set<Key>)
    requires Follows(from, c) && Last(c) == end && forall k :: k in c ==> k.Named()
    ensures out == Elements(Suffix(c, guard))
  {
    out := {};
    var cursor, left := Some(end), guard;
    ghost var m := |c|;
    while cursor.Some? && cursor.value.Named() && left > 0
      invariant 0 <= m <= |c| && 0 <= left == guard - (|c| - m)
      invariant cursor == if m == 0 then None else Some(c[m - 1])
      invariant out == Elements(c[m..])
      decreases left
    {
      var k := cursor.value;
      assert c[m - 1..] == [k] + c[m..];
      out := out + {k};
      cursor := if k in from then Some(from[k]) else None;
      left := left - 1;
      m := m - 1;
    }
    if m > 0 {
      assert c[m - 1] in c;
    } else {
      assert c[m..] == c;
    }
  }

  // The whole computation

  /** All keys the search can come across. */
  ghost function Universe(g: Graph): set<Key> {
    (set k, p | k in g.preds && p in g.preds[k] :: p) + g.durations.Keys
  }

  ghost predicate AllNamed(preds: map<Key, seq<Key>>) {
    forall k, p :: k in preds && p in preds[k] ==> p.Named()
  }

  lemma {:induction false} GraphPredsNamed(connections: seq<Connection>)
    ensures AllNamed(GraphPreds(connections))
  {
    if connections != [] {
      GraphPredsNamed(connections[..|connections| - 1]);
    }
  }

  lemma {:induction false} OverlapPredsNamed(sorted: seq<Row>, n: nat)
    requires n <= |sorted| && forall row :: row in sorted ==> row.workItemHash != ""
    ensures AllNamed(OverlapPreds(sorted, n))
  {
    if n > 0 {
      OverlapPredsNamed(sorted, n - 1);
    }
  }

  lemma UniverseClosed(tasks: seq<Row>, connections: seq<Connection>)
    requires forall row :: row in tasks ==> row.workItemHash != ""
    ensures var g := GraphOf(tasks, connections); Closed(g, Universe(g)) && TaskKeys(tasks) <= Universe(g)
  {
    var g := GraphOf(tasks, connections);
    assert AllNamed(g.preds) by {
      if connections != [] {
        GraphPredsNamed(connections);
      } else {
        SortBySorts((row: Row) => row.at, (a: Row, b: Row) => true, tasks);
        OverlapPredsNamed(SortByStart(tasks), |tasks|);
      }
    }
    hide SortBy, GraphPreds, OverlapPreds;
    forall k | k in g.durations ensures k.Named() {
      var row :| row in tasks && KeyOf(row) == k;
    }
  }

  /** The end of the search: every task is finished, and `end` is the key of the first that has the greatest
      length of them all, unless none of them reaches 0. */
  ghost predicate Ended(dist: map<Key, int>, tasks: seq<Row>, end: Option<Key>, endDist: int) {
    && (forall i :: 0 <= i < |tasks| ==> KeyOf(tasks[i]) in dist && dist[KeyOf(tasks[i])] <= endDist)
    && (end.None? ==> endDist == -1)
    && (end.Some? ==> end.value in dist && dist[end.value] == endDist >= 0 && EndsFirst(dist, tasks, end.value, endDist))
  }

  ghost predicate EndsFirst(dist: map<Key, int>, tasks: seq<Row>, end: Key, endDist: int) {
    exists m :: 0 <= m < |tasks| && KeyOf(tasks[m]) == end
                && forall i :: 0 <= i < m ==> KeyOf(tasks[i]) in dist && dist[KeyOf(tasks[i])] < endDist
  }

  lemma EndStep(before: map<Key, int>, dist: map<Key, int>, tasks: seq<Row>, n: nat, end: Option<Key>, endDist: int)
    requires n < |tasks| && Ended(before, tasks[..n], end, endDist) && Extends(before, dist) && KeyOf(tasks[n]) in dist
    ensures var d := dist[KeyOf(tasks[n])];
            if d > endDist then Ended(dist, tasks[..n + 1], Some(KeyOf(tasks[n])), d)
            else Ended(dist, tasks[..n + 1], end, endDist)
  {
    var d := dist[KeyOf(tasks[n])];
    var init, more := tasks[..n], tasks[..n + 1];
    hide KeyOf;
    assert more == init + [tasks[n]];
    if d > endDist {
      assert EndsFirst(dist, more, KeyOf(more[n]), d);
    } else if end.Some? {
      EndStays(before, dist, init, tasks[n], end.value, endDist);
    }
  }

  lemma EndStays(before: map<Key, int>, dist: map<Key, int>, init: seq<Row>, last: Row, end: Key, endDist: int)
    requires EndsFirst(before, init, end, endDist) && Extends(before, dist)
    ensures EndsFirst(dist, init + [last], end, endDist)
  {
    hide KeyOf;
    var m :| 0 <= m < |init| && KeyOf(init[m]) == end
             && forall i :: 0 <= i < m ==> KeyOf(init[i]) in before && before[KeyOf(init[i])] < endDist;
    var more := init + [last];
    assert KeyOf(more[m]) == end && forall i :: 0 <= i < m ==> more[i] == init[i];
  }

  lemma NothingEnded(dist: map<Key, int>)
    ensures Ended(dist, [], None, -1)
  {
  }

  lemma EndedKeys(dist: map<Key, int>, tasks: seq<Row>, end: Option<Key>, endDist: int)
    requires Ended(dist, tasks, end, endDist)
    ensures forall k :: k in TaskKeys(tasks) ==> k in dist && dist[k] <= endDist
    ensures end.Some? ==> end.value in TaskKeys(tasks)
  {
    hide KeyOf;
  }

  lemma EndedIsCritical(g: Graph, tasks: seq<Row>, dist: map<Key, int>, from: map<Key, Key>, rank: map<Key, nat>,
                        end: Option<Key>, endDist: int)
    requires Settled(g, dist) && Linked(g, dist, from, rank) && FirstChoices(g, dist, from)
    requires Ended(dist, tasks, end, endDist) && g.durations.Keys == TaskKeys(tasks)
    ensures Critical(g, tasks, if end.Some? then BackChain(g, dist, from, rank, end.value) else [])
  {
    var chain := if end.Some? then BackChain(g, dist, from, rank, end.value) else [];
    EndedKeys(dist, tasks, end, endDist);
    if end.Some? {
      BackChainLaws(g, dist, from, rank, end.value);
      BackChainPreferred(g, dist, from, chain, end.value);
      EndPreferred(g, dist, tasks, chain, end.value);
    }
    hide BackChain, Linked, FirstChoices, Ended, Preferred, EndsWithFirst, Lengths;
    forall k, c | k in TaskKeys(tasks) && LoopFree(g, k) && ChainTo(g, c, k) ensures Weight(g, c) <= Best(g, chain) {
      SettledBoundsChains(g, dist, k, c);
    }
    if chain == [] {
      forall k | k in TaskKeys(tasks) ensures g.Duration(k) < 0 {
        assert SettledAt(g, dist, k);
      }
    } else if forall k :: k in TaskKeys(tasks) ==> g.Duration(k) < 0 {
      NegativeWeight(g, chain);
    }
  }

  lemma Bounds(g: Graph, dist: map<Key, int>, k: Key, q: Key, w: int)
    requires Settled(g, dist) && LoopFree(g, k) && q in g.Preds(k) && q in dist
    ensures dist[q] <= w ==> NoneHeavier(g, q, w)
    ensures dist[q] < w ==> AllLighter(g, q, w)
  {
    LoopFreePreds(g, k, q);
    forall c | ChainTo(g, c, q) ensures Weight(g, c) <= dist[q] {
      SettledBoundsChains(g, dist, q, c);
    }
  }

  lemma ChoiceIsHeaviest(g: Graph, dist: map<Key, int>, k: Key, p: Key)
    requires Settled(g, dist) && k in dist && LoopFree(g, k)
    requires p in dist && FirstChoice(g, dist, k, p) && dist[k] == dist[p] + g.Duration(k)
    ensures FirstHeaviest(g, k, p, dist[p])
  {
    assert SettledAt(g, dist, k);
    forall q | q in g.Preds(k) ensures q in dist && dist[q] <= dist[p] && !ClosesLoop(g, q, k) {
      LoopFreePreds(g, k, q);
      assert Covers(g, dist, q, k);
    }
    var j :| 0 <= j < |g.Preds(k)| && g.Preds(k)[j] == p && forall i :: 0 <= i < j ==> Beaten(g, dist, k, g.Preds(k)[i], dist[p]);
    hide ClosesLoop, LoopFree, NoneHeavier, AllLighter, Settled;
    forall i | 0 <= i < j ensures AllLighter(g, g.Preds(k)[i], dist[p]) {
      assert Beaten(g, dist, k, g.Preds(k)[i], dist[p]);
      Bounds(g, dist, k, g.Preds(k)[i], dist[p]);
    }
    forall q | q in g.Preds(k) ensures NoneHeavier(g, q, dist[p]) {
      Bounds(g, dist, k, q, dist[p]);
    }
  }

  lemma NothingUpstream(g: Graph, dist: map<Key, int>, k: Key)
    requires Settled(g, dist) && k in dist && LoopFree(g, k) && dist[k] == g.Duration(k)
    ensures forall q :: q in g.Preds(k) ==> NoneHeavier(g, q, 0)
  {
    assert SettledAt(g, dist, k);
    forall q | q in g.Preds(k) ensures NoneHeavier(g, q, 0) {
      LoopFreePreds(g, k, q);
      assert Covers(g, dist, q, k);
      Bounds(g, dist, k, q, 0);
    }
  }

  lemma LengthAt(g: Graph, dist: map<Key, int>, c: seq<Key>, i: int)
    requires Lengths(g, dist, c) && 0 <= i < |c|
    ensures c[i] in dist && dist[c[i]] == Weight(g, c[..i]) + g.Duration(c[i])
    ensures i > 0 ==> c[i - 1] in dist && dist[c[i - 1]] == Weight(g, c[..i])
  {
    assert c[..i + 1][..i] == c[..i] && Last(c[..i + 1]) == c[i];
    assert i > 0 ==> c[..i - 1 + 1] == c[..i];
  }

  /** The chain of back-pointers always goes by the first of the heaviest predecessors. */
  lemma BackChainPreferred(g: Graph, dist: map<Key, int>, from: map<Key, Key>, c: seq<Key>, k: Key)
    requires Settled(g, dist) && FirstChoices(g, dist, from) && IsBackChain(g, dist, from, c, k)
    ensures Preferred(g, c)
  {
    hide Settled, LoopFree, FirstHeaviest, NoneHeavier, FirstChoice, Lengths, IsChain, PositivePrefixes, Weight;
    forall i | 0 < i < |c| && LoopFree(g, c[i]) ensures FirstHeaviest(g, c[i], c[i - 1], Weight(g, c[..i])) {
      LengthAt(g, dist, c, i);
      assert FirstChoice(g, dist, c[i], c[i - 1]);
      ChoiceIsHeaviest(g, dist, c[i], c[i - 1]);
    }
    if LoopFree(g, c[0]) {
      LengthAt(g, dist, c, 0);
      assert Weight(g, c[..0]) == 0 by { WeightOfNone(g, c); }
      NothingUpstream(g, dist, c[0]);
    }
  }

  lemma WeightOfNone(g: Graph, c: seq<Key>)
    ensures Weight(g, c[..0]) == 0
  {
  }

  /** The chain ends at the first task that a chain so heavy leads to, leaving out tasks downstream of loops. */
  ghost predicate EndsWithFirst(g: Graph, tasks: seq<Row>, chain: seq<Key>)
    requires chain != []
  {
    exists m :: 0 <= m < |tasks| && KeyOf(tasks[m]) == Last(chain)
                && forall i :: 0 <= i < m && LoopFree(g, KeyOf(tasks[i])) ==> AllLighter(g, KeyOf(tasks[i]), Weight(g, chain))
  }

  lemma EndPreferred(g: Graph, dist: map<Key, int>, tasks: seq<Row>, chain: seq<Key>, end: Key)
    requires Settled(g, dist) && ChainTo(g, chain, end) && EndsFirst(dist, tasks, end, Weight(g, chain))
    ensures EndsWithFirst(g, tasks, chain)
  {
    var w := Weight(g, chain);
    hide KeyOf, Settled, LoopFree;
    var m :| 0 <= m < |tasks| && KeyOf(tasks[m]) == end && forall i :: 0 <= i < m ==> KeyOf(tasks[i]) in dist && dist[KeyOf(tasks[i])] < w;
    forall i | 0 <= i < m && LoopFree(g, KeyOf(tasks[i])) ensures AllLighter(g, KeyOf(tasks[i]), w) {
      forall c | ChainTo(g, c, KeyOf(tasks[i])) ensures Weight(g, c) < w {
        SettledBoundsChains(g, dist, KeyOf(tasks[i]), c);
      }
    }
  }

  /** What the search promises about the chain it settles on; `Best` of an empty chain is the search's
      initial end distance. */
  ghost predicate Critical(g: Graph, tasks: seq<Row>, chain: seq<Key>) {
    && (chain == [] <==> forall k :: k in TaskKeys(tasks) ==> g.Duration(k) < 0)
    && (chain != [] ==>
          && IsChain(g, chain) && NoRepeats(chain) && Last(chain) in TaskKeys(tasks)
          && PositivePrefixes(g, chain) && 0 <= Weight(g, chain)
          && Preferred(g, chain) && EndsWithFirst(g, tasks, chain))
    && (forall k, c :: k in TaskKeys(tasks) && LoopFree(g, k) && ChainTo(g, c, k) ==> Weight(g, c) <= Best(g, chain))
  }

  ghost function Best(g: Graph, chain: seq<Key>): int {
    if chain == [] then -1 else Weight(g, chain)
  }

  lemma FinishedTables(g: Graph, dist: map<Key, int>, from: map<Key, Key>, rank: map<Key, nat>, finished: nat)
    requires Recorded(g, dist, from, rank, finished)
    ensures Settled(g, dist) && Linked(g, dist, from, rank) && FirstChoices(g, dist, from)
  {
  }

  lemma DurationKeys(tasks: seq<Row>)
    ensures FirstDurations(tasks).Keys == TaskKeys(tasks)
  {
  }

  lemma NamedChain(g: Graph, universe: set<Key>, c: seq<Key>)
    requires Closed(g, universe) && IsChain(g, c) && Last(c) in universe
    ensures forall k :: k in c ==> k.Named()
  {
    forall i | 0 <= i < |c| ensures c[i].Named() {
      assert i < |c| - 1 ==> c[i + 1 - 1] in g.Preds(c[i + 1]);
    }
  }

  /** Searches from every task in turn; the first task with the greatest length is the end. */
  method FindEnd(g: Graph, tasks: seq<Row>, ghost universe: set<Key>)
    returns (search: LongestSearch, end: Option<Key>, endDist: int)
    requires Closed(g, universe) && TaskKeys(tasks) <= universe
    ensures Settled(g, search.dist) && Linked(g, search.dist, search.from, search.rank)
    ensures FirstChoices(g, search.dist, search.from)
    ensures Ended(search.dist, tasks, end, endDist)
  {
    hide Recorded, Closed, Ended, KeyOf;
    search := new LongestSearch(g, universe);
    end, endDist := None, -1;
    NothingEnded(search.dist);
    assert tasks[..0] == [];
    for i := 0 to |tasks|
      invariant search.Valid() && search.path == [] && search.g == g && search.universe == universe
      invariant Ended(search.dist, tasks[..i], end, endDist)
    {
      var k := KeyOf(tasks[i]);
      assert tasks[i] in tasks;
      ghost var before := search.dist;
      var d := search.Visit(k);
      EndStep(before, search.dist, tasks, i, end, endDist);
      if d > endDist {
        endDist, end := d, Some(k);
      }
    }
    assert tasks[..|tasks|] == tasks;
    FinishedTables(g, search.dist, search.from, search.rank, search.finished);
  }

  /** The marked keys are the last ones of a critical chain, as many as there are tasks and the slack besides. */
  ghost predicate MarksCritical(tasks: seq<Row>, connections: seq<Connection>, marked: set<Key>) {
    exists chain :: && Critical(GraphOf(tasks, connections), tasks, chain)
                    && marked == Elements(Suffix(chain, |tasks| + GUARD_SLACK))
  }

  method ComputeCriticalPath(tasks: seq<Row>, connections: seq<Connection>) returns (out: set<Key>)
    requires forall row :: row in tasks ==> row.workItemHash != ""
    ensures MarksCritical(tasks, connections, out)
  {
    out := {};
    if tasks == [] {
      NothingToMark(connections);
      return;
    }
    var durations := CollectDurations(tasks);
    var preds := CollectPreds(tasks, connections);
    var g := Graph(preds, durations);
    UniverseClosed(tasks, connections);
    DurationKeys(tasks);
    hide GraphOf, Critical, Settled, Linked, FirstChoices, Ended;
    var search, end, endDist := FindEnd(g, tasks, Universe(g));
    EndedIsCritical(g, tasks, search.dist, search.from, search.rank, end, endDist);
    if end.Some? {
      ghost var chain := BackChain(g, search.dist, search.from, search.rank, end.value);
      BackChainLaws(g, search.dist, search.from, search.rank, end.value);
      NamedChain(g, Universe(g), chain);
      out := WalkBack(search.from, end.value, |tasks| + GUARD_SLACK, chain);
    } else {
      assert Suffix([], |tasks| + GUARD_SLACK) == [];
    }
  }

  lemma NothingToMark(connections: seq<Connection>)
    ensures MarksCritical([], connections, {})
  {
    assert Critical(GraphOf([], connections), [], []);
  }
}
