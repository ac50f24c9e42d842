/** When the marked keys are a longest chain, when the walk back marks all of it, and when the overlap
    heuristic is safe. */
module CriticalPathLaws {
  import opened StableSort
  import opened TaskRows
  import opened TaskRowLaws
  import opened PredecessorGraph
  import opened CriticalPath

  /** Without loops the critical chain is the longest of all chains in the graph, those that end at a
      key without a task included; a chain that weighs nothing is never beaten by less. */
  lemma CriticalIsLongest(g: Graph, tasks: seq<Row>, chain: seq<Key>, c: seq<Key>)
    requires Critical(g, tasks, chain) && g.durations.Keys == TaskKeys(tasks)
    requires Acyclic(g) && IsChain(g, c)
    ensures Weight(g, c) <= if Best(g, chain) < 0 then 0 else Best(g, chain)
  {
    var d := CutToTask(g, c);
    if d != [] {
      assert LoopFree(g, Last(d)) && ChainTo(g, d, Last(d));
    }
  }

  /** The keys of a chain that carry no task. */
  ghost function Relays(tasks: seq<Row>, chain: seq<Key>): set<Key> {
    Elements(chain) - TaskKeys(tasks)
  }

  lemma {:induction false} TaskKeysBound(tasks: seq<Row>)
    ensures |TaskKeys(tasks)| <= |tasks|
  {
    if tasks == [] {
      assert TaskKeys(tasks) == {};
    } else {
      var init, last := tasks[..|tasks| - 1], tasks[|tasks| - 1];
      TaskKeysBound(init);
      assert tasks == init + [last];
      assert TaskKeys(tasks) == TaskKeys(init) + {KeyOf(last)};
    }
  }

  lemma SubsetCount<T>(a: set<T>, b: set<T>)
    requires a <= b
    ensures |a| <= |b|
  {
    assert b == a + (b - a);
  }

  /** The walk back marks the whole chain whenever no more than the slack of its keys are relays. */
  lemma GuardSuffices(g: Graph, tasks: seq<Row>, chain: seq<Key>)
    requires Critical(g, tasks, chain) && |Relays(tasks, chain)| <= 5
    ensures Elements(Suffix(chain, |tasks| + GUARD_SLACK)) == Elements(chain)
  {
    if chain != [] {
      var keys := Elements(chain);
      DistinctElements(chain);
      assert keys == (keys * TaskKeys(tasks)) + Relays(tasks, chain);
      SubsetCount(keys * TaskKeys(tasks), TaskKeys(tasks));
      TaskKeysBound(tasks);
      SuffixIsWhole(chain, |tasks| + GUARD_SLACK);
    }
  }

  /** In full: the walk back loses part of the chain exactly when it is longer than the guard. */
  lemma GuardExact(g: Graph, tasks: seq<Row>, chain: seq<Key>)
    requires Critical(g, tasks, chain)
    ensures Elements(Suffix(chain, |tasks| + GUARD_SLACK)) == Elements(chain) <==> |chain| <= |tasks| + 5
  {
    if chain != [] {
      SuffixIsWhole(chain, |tasks| + GUARD_SLACK);
    }
  }

  /** A chain without repeats that no chain outweighs; an empty chain weighs nothing. */
  ghost predicate LongestChain(g: Graph, chain: seq<Key>) {
    && NoRepeats(chain)
    && (chain != [] ==> IsChain(g, chain))
    && (forall c :: IsChain(g, c) ==> Weight(g, c) <= Weight(g, chain))
  }

  ghost predicate MarksLongest(g: Graph, marked: set<Key>) {
    exists chain :: LongestChain(g, chain) && marked == Elements(chain)
  }

  lemma ChainInUniverse(g: Graph, c: seq<Key>)
    requires IsChain(g, c) && Last(c) in g.durations
    ensures Elements(c) <= Universe(g)
  {
    forall i | 0 <= i < |c| ensures c[i] in Universe(g) {
      if i < |c| - 1 {
        assert c[i + 1 - 1] in g.Preds(c[i + 1]);
      }
    }
  }

  lemma CriticalIsLongestChain(g: Graph, tasks: seq<Row>, chain: seq<Key>)
    requires Critical(g, tasks, chain) && g.durations.Keys == TaskKeys(tasks) && Acyclic(g)
    ensures LongestChain(g, chain)
  {
    forall c | IsChain(g, c) ensures Weight(g, c) <= Weight(g, chain) {
      CriticalIsLongest(g, tasks, chain, c);
    }
  }

  lemma FewRelaysOnChain(g: Graph, tasks: seq<Row>, chain: seq<Key>)
    requires Critical(g, tasks, chain) && g.durations.Keys == TaskKeys(tasks)
    ensures |Relays(tasks, chain)| <= |Universe(g) - TaskKeys(tasks)|
  {
    hide TaskKeys, Universe, PositivePrefixes, NoRepeats;
    if chain != [] {
      ChainInUniverse(g, chain);
    }
    SubsetCount(Relays(tasks, chain), Universe(g) - TaskKeys(tasks));
  }

  /** On an operation graph without loops and with no more nodes without a task than the slack, what is
      marked is the whole of a longest chain. */
  lemma FewRelaysMarkLongest(tasks: seq<Row>, connections: seq<Connection>, marked: set<Key>)
    requires MarksCritical(tasks, connections, marked)
    requires var g := GraphOf(tasks, connections); Acyclic(g) && |Universe(g) - TaskKeys(tasks)| <= 5
    ensures MarksLongest(GraphOf(tasks, connections), marked)
  {
    var g := GraphOf(tasks, connections);
    DurationKeys(tasks);
    GraphDurations(tasks, connections);
    hide GraphOf, Critical, Acyclic, LongestChain, Universe, TaskKeys, FirstDurations, Suffix, Elements, Relays;
    var chain :| Critical(g, tasks, chain) && marked == Elements(Suffix(chain, |tasks| + GUARD_SLACK));
    FewRelaysOnChain(g, tasks, chain);
    GuardSuffices(g, tasks, chain);
    CriticalIsLongestChain(g, tasks, chain);
  }

  lemma SameWeight(g: Graph, tasks: seq<Row>, c: seq<Key>, d: seq<Key>)
    requires Acyclic(g) && Critical(g, tasks, c) && Critical(g, tasks, d) && c != [] && d != []
    ensures Weight(g, c) == Weight(g, d)
  {
    hide Preferred, PositivePrefixes, NoRepeats, EndsWithFirst, TaskKeys;
    assert ChainTo(g, c, Last(c)) && ChainTo(g, d, Last(d)) && LoopFree(g, Last(c)) && LoopFree(g, Last(d));
  }

  lemma SameEnd(g: Graph, tasks: seq<Row>, c: seq<Key>, d: seq<Key>)
    requires Acyclic(g) && IsChain(g, c) && IsChain(g, d) && Weight(g, c) == Weight(g, d)
    requires EndsWithFirst(g, tasks, c) && EndsWithFirst(g, tasks, d)
    ensures Last(c) == Last(d)
  {
    var w := Weight(g, c);
    assert ChainTo(g, c, Last(c)) && ChainTo(g, d, Last(d));
    hide KeyOf, LoopFree, IsChain, Weight;
    var m :| 0 <= m < |tasks| && KeyOf(tasks[m]) == Last(c)
             && forall i :: 0 <= i < m && LoopFree(g, KeyOf(tasks[i])) ==> AllLighter(g, KeyOf(tasks[i]), w);
    var n :| 0 <= n < |tasks| && KeyOf(tasks[n]) == Last(d)
             && forall i :: 0 <= i < n && LoopFree(g, KeyOf(tasks[i])) ==> AllLighter(g, KeyOf(tasks[i]), w);
    assert LoopFree(g, KeyOf(tasks[m])) && LoopFree(g, KeyOf(tasks[n]));
    assert m < n ==> AllLighter(g, Last(c), w);
    assert n < m ==> AllLighter(g, Last(d), w);
  }

  lemma CriticalUnique(g: Graph, tasks: seq<Row>, c: seq<Key>, d: seq<Key>)
    requires Acyclic(g) && g.durations.Keys == TaskKeys(tasks)
    requires Critical(g, tasks, c) && Critical(g, tasks, d)
    ensures c == d
  {
    if c != [] {
      SameWeight(g, tasks, c, d);
      SameEnd(g, tasks, c, d);
      PreferredUnique(g, c, d);
    }
  }

  /** Without loops nothing is left open, however many longest chains there are: the tasks and the connections
      determine the marked keys. */
  lemma MarkedUnique(tasks: seq<Row>, connections: seq<Connection>, a: set<Key>, b: set<Key>)
    requires Acyclic(GraphOf(tasks, connections))
    requires MarksCritical(tasks, connections, a) && MarksCritical(tasks, connections, b)
    ensures a == b
  {
    var g := GraphOf(tasks, connections);
    DurationKeys(tasks);
    GraphDurations(tasks, connections);
    hide GraphOf, Critical, Acyclic, TaskKeys, FirstDurations, Suffix, Elements;
    var c :| Critical(g, tasks, c) && a == Elements(Suffix(c, |tasks| + GUARD_SLACK));
    var d :| Critical(g, tasks, d) && b == Elements(Suffix(d, |tasks| + GUARD_SLACK));
    CriticalUnique(g, tasks, c, d);
  }

  // A line of relays between two tasks, to show that the slack is exact

  /** The `i`-th node of the line; the hashes differ in length. */
  function Node(i: nat): (k: Key)
    ensures |k.hash| == i + 1
  {
    Key(seq(i + 1, _ => 'n'))
  }

  function Line(n: nat): seq<Connection> {
    seq(n, i requires 0 <= i < n => Connection(Node(i), Node(i + 1)))
  }

  /** The record of work item `i` that ran `node`. */
  function Ran(i: nat, node: string, start: int, end: int): Record {
    Record(Node(i).hash, node, Option.Some(start), Option.Some(end), "", "", "")
  }

  lemma NodeInjective(i: nat, j: nat)
    ensures Node(i) == Node(j) <==> i == j
  {
  }

  lemma {:induction false} LinePred(n: nat, i: nat)
    ensures 0 < i <= n ==> Node(i) in GraphPreds(Line(n)) && GraphPreds(Line(n))[Node(i)] == [Node(i - 1)]
    ensures i == 0 || n < i ==> Node(i) !in GraphPreds(Line(n))
    decreases n
  {
    hide Node;
    if n == 0 {
      assert Line(0) == [];
    } else {
      assert Line(n)[..n - 1] == Line(n - 1);
      LinePred(n - 1, i);
      LinePred(n - 1, n);
      NodeInjective(i, n);
    }
  }

  lemma {:induction false} LineKeys(n: nat, k: Key)
    requires k in GraphPreds(Line(n))
    ensures exists i :: 0 < i <= n && k == Node(i)
  {
    hide Node;
    if n > 0 {
      assert Line(n)[..n - 1] == Line(n - 1);
      if k != Node(n) {
        LineKeys(n - 1, k);
      }
    }
  }

  function Nodes(lo: nat, hi: nat): seq<Key>
    requires lo <= hi
  {
    seq(hi - lo, i requires 0 <= i < hi - lo => Node(lo + i))
  }

  /** Two tasks of 10 ms and 1 ms joined through `n` relays, and their operation graph. */
  function LineRecords(n: nat): seq<Record> {
    [Ran(0, Node(0).hash, 0, 10), Ran(n + 1, Node(n + 1).hash, 20, 21)]
  }

  function LineTasks(n: nat): seq<Row> {
    Singles(LineRecords(n))
  }

  lemma LineRows(n: nat)
    ensures OneEach(LineRecords(n)) && |LineTasks(n)| == 2
    ensures KeyOf(LineTasks(n)[0]) == Node(0) && LineTasks(n)[0].DurationMs() == 10
    ensures KeyOf(LineTasks(n)[1]) == Node(n + 1) && LineTasks(n)[1].DurationMs() == 1
  {
    hide Node, Single, FindSeparator;
    NodeInjective(0, n + 1);
    SingleIs(Ran(0, Node(0).hash, 0, 10));
    SingleIs(Ran(n + 1, Node(n + 1).hash, 20, 21));
  }

  function LineGraph(n: nat): Graph {
    GraphOf(LineTasks(n), Line(n + 1))
  }

  lemma LineIsTable(n: nat)
    ensures IsTable(LineRecords(n), LineTasks(n))
  {
    LineRows(n);
    hide IsTable, LineRecords, OneEach;
    SinglesAreTable(LineRecords(n));
  }

  lemma LineDurations(n: nat)
    ensures LineGraph(n).durations == map[Node(0) := 10, Node(n + 1) := 1]
    ensures TaskKeys(LineTasks(n)) == {Node(0), Node(n + 1)}
  {
    var tasks := LineTasks(n);
    NodeInjective(0, n + 1);
    LineRows(n);
    hide Node, GraphPreds, KeyOf, LineTasks;
    assert tasks[..1] == [tasks[0]] && tasks[..1][..0] == [];
    assert tasks[0] in tasks && tasks[1] in tasks;
    assert FirstDurations(tasks[..1]) == map[Node(0) := 10];
    assert FirstDurations(tasks) == map[Node(0) := 10, Node(n + 1) := 1];
    assert Line(n + 1) != [];
  }

  lemma LinePredsOf(n: nat, j: nat)
    requires j <= n + 1
    ensures LineGraph(n).Preds(Node(j)) == if j == 0 then [] else [Node(j - 1)]
  {
    LinePred(n + 1, j);
    hide Node, GraphPreds, FirstDurations;
    assert Line(n + 1) != [];
  }

  lemma LineAcyclic(n: nat)
    ensures Acyclic(LineGraph(n))
  {
    var g := LineGraph(n);
    var rank := map k | k in (set i | 0 <= i <= n + 1 :: Node(i)) :: |k.hash|;
    forall k | k in g.preds ensures k in rank && forall p :: p in g.preds[k] ==> p in rank && rank[p] < rank[k] {
      LineKeys(n + 1, k);
      var i :| 0 < i <= n + 1 && k == Node(i);
      LinePred(n + 1, i);
    }
    RankedIsAcyclic(g, rank);
  }

  lemma {:induction false} LineWeight(n: nat, i: nat, j: nat)
    requires i <= j <= n + 2
    ensures Weight(LineGraph(n), Nodes(i, j)) == (if i == 0 < j then 10 else 0) + (if i < j == n + 2 then 1 else 0)
    decreases j - i
  {
    hide LineGraph, Node;
    LineDurations(n);
    if i < j {
      LineWeight(n, i, j - 1);
      var c := Nodes(i, j);
      assert c[..|c| - 1] == Nodes(i, j - 1);
      assert Last(c) == Node(j - 1);
      NodeInjective(j - 1, 0);
      NodeInjective(j - 1, n + 1);
    } else {
      assert Nodes(i, j) == [];
    }
  }

  /** Every node has one predecessor at most, so a chain is a stretch of the line. */
  lemma {:induction false} LineChains(n: nat, c: seq<Key>, j: nat) returns (i: nat)
    requires j <= n + 1 && ChainTo(LineGraph(n), c, Node(j))
    ensures i <= j && c == Nodes(i, j + 1)
    decreases |c|
  {
    hide Node, LineGraph;
    var g := LineGraph(n);
    LinePredsOf(n, j);
    if |c| == 1 {
      i := j;
    } else {
      ChainInit(g, c);
      var d := c[..|c| - 1];
      assert Last(d) in g.Preds(Node(j));
      i := LineChains(n, d, j - 1);
      assert c == d + [Node(j)];
    }
  }

  lemma LineIsChain(n: nat)
    ensures ChainTo(LineGraph(n), Nodes(0, n + 2), Node(n + 1))
  {
    hide LineGraph, Node;
    var c := Nodes(0, n + 2);
    forall i | 0 < i < |c| ensures c[i - 1] in LineGraph(n).Preds(c[i]) {
      LinePredsOf(n, i);
    }
  }

  lemma LineChainIsWhole(n: nat, chain: seq<Key>)
    requires Critical(LineGraph(n), LineTasks(n), chain)
    ensures chain == Nodes(0, n + 2)
  {
    var g, whole, tasks := LineGraph(n), Nodes(0, n + 2), LineTasks(n);
    LineDurations(n);
    LineAcyclic(n);
    LineIsChain(n);
    LineWeight(n, 0, n + 2);
    hide LineGraph, LineTasks, Node, TaskKeys, NoRepeats, PositivePrefixes, Preferred, EndsWithFirst;
    assert LoopFree(g, Node(n + 1));
    assert Weight(g, whole) <= Best(g, chain);
    var j := if Last(chain) == Node(0) then 0 else n + 1;
    var i := LineChains(n, chain, j);
    LineWeight(n, i, j + 1);
  }

  /** Whatever chain the search settles on for the line, it is the whole line, and the walk back marks
      all of it exactly when there are no more relays than the slack: with one more the first task, which
      takes most of the time, is left unmarked. */
  lemma RelaysPastSlackAreLost(n: nat, marked: set<Key>)
    requires MarksCritical(LineTasks(n), Line(n + 1), marked)
    ensures IsTable(LineRecords(n), LineTasks(n))
    ensures Node(0) in marked <==> n <= 5
    ensures Node(n + 1) in marked
  {
    hide Critical, GraphOf, Node, Line, LineTasks, LineRecords, IsTable;
    LineIsTable(n);
    LineRows(n);
    var chain :| Critical(LineGraph(n), LineTasks(n), chain) && marked == Elements(Suffix(chain, |LineTasks(n)| + GUARD_SLACK));
    LineChainIsWhole(n, chain);
    LineSuffix(n);
  }

  lemma LineSuffix(n: nat)
    ensures var s := Suffix(Nodes(0, n + 2), 2 + GUARD_SLACK); (Node(0) in s <==> n <= GUARD_SLACK) && Node(n + 1) in s
  {
    hide Node;
    var chain := Nodes(0, n + 2);
    var s := Suffix(chain, 2 + GUARD_SLACK);
    assert s[|s| - 1] == Node(n + 1);
    if n <= GUARD_SLACK {
      assert s == chain && chain[0] == Node(0);
    } else {
      forall k | 0 <= k < |s| ensures s[k] != Node(0) {
        NodeInjective(n - GUARD_SLACK + k, 0);
      }
    }
  }

  // The overlap heuristic

  ghost predicate DistinctKeys(rows: seq<Row>) {
    forall i, j :: 0 <= i < j < |rows| ==> KeyOf(rows[i]) != KeyOf(rows[j])
  }

  /** Row `i` of the first `n` has the key `k` and lists row `j`, an earlier one, as its predecessor. */
  ghost predicate OverlapLink(sorted: seq<Row>, n: nat, k: Key, i: int, j: int)
    requires n <= |sorted|
  {
    && 0 <= j < i < n
    && k == KeyOf(sorted[i])
    && LatestBefore(sorted, sorted[i], i) == Option.Some(j)
    && k in OverlapPreds(sorted, n) && OverlapPreds(sorted, n)[k] == [KeyOf(sorted[j])]
  }

  lemma {:induction false} OverlapPredsShape(sorted: seq<Row>, n: nat, k: Key) returns (i: int, j: int)
    requires n <= |sorted| && DistinctKeys(sorted)
    requires k in OverlapPreds(sorted, n)
    ensures OverlapLink(sorted, n, k, i, j)
  {
    hide KeyOf, LatestBefore;
    if k in OverlapPreds(sorted, n - 1) {
      i, j := OverlapPredsShape(sorted, n - 1, k);
    } else {
      i, j := n - 1, LatestBefore(sorted, sorted[n - 1], n - 1).value;
    }
  }

  lemma SortKeepsKeysDistinct(tasks: seq<Row>)
    requires DistinctKeys(tasks)
    ensures DistinctKeys(SortByStart(tasks))
  {
    var key := (row: Row) => row.at;
    var differ := (a: Row, b: Row) => KeyOf(a) != KeyOf(b);
    SortBySorts(key, differ, tasks);
    var sorted := SortByStart(tasks);
    assert sorted == SortBy(key, tasks);
    hide SortBy, KeyOf;
    forall i, j | 0 <= i < j < |sorted| ensures KeyOf(sorted[i]) != KeyOf(sorted[j]) {
      assert sorted[i] in tasks && sorted[j] in tasks;
      if sorted[i].at == sorted[j].at {
        assert differ(sorted[i], sorted[j]);
      }
    }
  }

  /** Where the last row with key `k` stands. */
  function PositionOf(sorted: seq<Row>, k: Key): int {
    if sorted == [] then -1
    else if KeyOf(sorted[|sorted| - 1]) == k then |sorted| - 1
    else PositionOf(sorted[..|sorted| - 1], k)
  }

  lemma {:induction false} PositionIs(sorted: seq<Row>, i: nat)
    requires i < |sorted|
    requires DistinctKeys(sorted)
    ensures PositionOf(sorted, KeyOf(sorted[i])) == i
  {
    hide KeyOf;
    if i < |sorted| - 1 {
      PositionIs(sorted[..|sorted| - 1], i);
    }
  }

  lemma OverlapRanked(g: Graph, sorted: seq<Row>, rank: map<Key, int>, k: Key)
    requires DistinctKeys(sorted) && g.preds == OverlapPreds(sorted, |sorted|) && k in g.preds
    requires forall i :: 0 <= i < |sorted| ==> KeyOf(sorted[i]) in rank
    requires forall x :: x in rank ==> rank[x] == PositionOf(sorted, x)
    ensures k in rank && |g.preds[k]| == 1 && forall p :: p in g.preds[k] ==> p in rank && rank[p] < rank[k]
  {
    hide OverlapPreds, PositionOf, DistinctKeys, KeyOf, LatestBefore;
    var i, j := OverlapPredsShape(sorted, |sorted|, k);
    PositionIs(sorted, i);
    PositionIs(sorted, j);
  }

  /** With distinct task keys the heuristic gives each task at most one predecessor, one that starts no
      later, so its graph never loops and the critical chain is the longest there is. */
  lemma OverlapIsAcyclic(tasks: seq<Row>)
    requires DistinctKeys(tasks)
    ensures var g := GraphOf(tasks, []); Acyclic(g) && forall k :: |g.Preds(k)| <= 1
  {
    var g, sorted := GraphOf(tasks, []), SortByStart(tasks);
    assert g.preds == OverlapPreds(sorted, |sorted|);
    SortKeepsKeysDistinct(tasks);
    hide GraphOf, SortByStart, OverlapPreds, PositionOf, DistinctKeys, KeyOf, Acyclic;
    var rank: map<Key, int> := map k | k in (set i | 0 <= i < |sorted| :: KeyOf(sorted[i])) :: PositionOf(sorted, k);
    forall k | k in g.preds
      ensures k in rank && |g.preds[k]| == 1 && forall p :: p in g.preds[k] ==> p in rank && rank[p] < rank[k]
    {
      OverlapRanked(g, sorted, rank, k);
    }
    RankedIsAcyclic(g, rank);
  }

  /** The heuristic brings in no keys but the tasks' own. */
  lemma {:induction false} OverlapKeys(sorted: seq<Row>, n: nat)
    requires n <= |sorted|
    ensures forall k :: k in OverlapPreds(sorted, n) ==> Elements(OverlapPreds(sorted, n)[k]) <= TaskKeys(sorted)
  {
    hide KeyOf;
    if n > 0 {
      OverlapKeys(sorted, n - 1);
    }
  }

  lemma OverlapHasNoRelays(tasks: seq<Row>)
    ensures Universe(GraphOf(tasks, [])) == TaskKeys(tasks)
  {
    var g, sorted := GraphOf(tasks, []), SortByStart(tasks);
    SortBySorts((row: Row) => row.at, (a: Row, b: Row) => true, tasks);
    OverlapKeys(sorted, |sorted|);
    DurationKeys(tasks);
    hide SortByStart, OverlapPreds, KeyOf, FirstDurations;
    forall k, p | k in g.preds && p in g.preds[k] ensures p in TaskKeys(tasks) {
      assert p in Elements(g.preds[k]);
    }
  }

  /** So without an operation graph, and with distinct task keys, what is marked is the whole of a longest
      chain without any further condition. */
  lemma OverlapMarksLongest(tasks: seq<Row>, marked: set<Key>)
    requires DistinctKeys(tasks) && MarksCritical(tasks, [], marked)
    ensures MarksLongest(GraphOf(tasks, []), marked)
  {
    hide GraphOf, Acyclic, Universe, TaskKeys, DistinctKeys, MarksCritical, MarksLongest;
    OverlapIsAcyclic(tasks);
    OverlapHasNoRelays(tasks);
    assert Universe(GraphOf(tasks, [])) - TaskKeys(tasks) == {};
    FewRelaysMarkLongest(tasks, [], marked);
  }

  lemma GraphDurations(tasks: seq<Row>, connections: seq<Connection>)
    ensures GraphOf(tasks, connections).durations == FirstDurations(tasks)
  {
  }

  // When the heuristic loops

  /** Each row of the path but the first looks back to the row before it on the path. */
  ghost predicate LinkPath(sorted: seq<Row>, path: seq<nat>) {
    && (forall m :: 0 <= m < |path| ==> path[m] < |sorted|)
    && (forall m :: 0 < m < |path| ==> LatestBefore(sorted, sorted[path[m]], path[m]) == Option.Some(path[m - 1]))
  }

  lemma LinkedIsPred(sorted: seq<Row>, i: nat, j: nat)
    requires i < |sorted| && LatestBefore(sorted, sorted[i], i) == Option.Some(j)
    ensures KeyOf(sorted[j]) in ListOf(OverlapPreds(sorted, |sorted|), KeyOf(sorted[i]))
  {
    var k, list := KeyOf(sorted[i]), ListOf(OverlapPreds(sorted, |sorted|), KeyOf(sorted[i]));
    OverlapPredsAre(sorted, |sorted|, k);
    hide OverlapPreds, KeyOf, ListOf, LatestBefore;
    var at :| LinksAt(sorted, |sorted|, k, list, at);
    assert Links(sorted, i, k, KeyOf(sorted[j]));
    var a :| 0 <= a < |at| && at[a] == i;
    assert Links(sorted, at[a], k, list[a]);
  }

  lemma PathIsChain(g: Graph, sorted: seq<Row>, path: seq<nat>) returns (c: seq<Key>)
    requires g.preds == OverlapPreds(sorted, |sorted|) && LinkPath(sorted, path) && path != []
    ensures |c| == |path| && IsChain(g, c) && forall m :: 0 <= m < |path| ==> c[m] == KeyOf(sorted[path[m]])
  {
    hide OverlapPreds, KeyOf, LatestBefore;
    c := seq(|path|, m requires 0 <= m < |path| => KeyOf(sorted[path[m]]));
    forall m | 0 < m < |c| ensures c[m - 1] in g.Preds(c[m]) {
      LinkedIsPred(sorted, path[m], path[m - 1]);
    }
  }

  /** A node that runs again further along a path of look-backs makes a loop. */
  lemma RepeatOnPathLoops(tasks: seq<Row>, path: seq<nat>)
    requires var sorted := SortByStart(tasks);
             && LinkPath(sorted, path) && |path| >= 2
             && KeyOf(sorted[path[0]]) == KeyOf(sorted[path[|path| - 1]])
    ensures !Acyclic(GraphOf(tasks, []))
  {
    var g, sorted := GraphOf(tasks, []), SortByStart(tasks);
    assert g.preds == OverlapPreds(sorted, |sorted|);
    hide GraphOf, OverlapPreds, KeyOf, LatestBefore, SortByStart;
    var c := PathIsChain(g, sorted, path);
    assert ChainTo(g, c, Last(c)) && c[0] == c[|c| - 1];
    assert !LoopFree(g, Last(c));
  }

  /** Each row starts after the one before it has ended, or no more than the overlap earlier. */
  ghost predicate OneAfterAnother(rows: seq<Row>) {
    forall i :: 0 < i < |rows| ==> rows[i - 1].endAt <= rows[i].at + 200
  }

  /** For a run whose tasks come one after another the condition is exact: the heuristic is free of loops if
      and only if no node ran twice. */
  lemma SequentialLoopExact(records: seq<Record>, rows: seq<Row>)
    requires IsTable(records, rows) && OneAfterAnother(rows)
    ensures Acyclic(GraphOf(rows, [])) <==> DistinctKeys(rows)
  {
    hide IsTable, OneAfterAnother, Acyclic, GraphOf, KeyOf, SortByStart;
    TableIsSorted(records, rows);
    if DistinctKeys(rows) {
      OverlapIsAcyclic(rows);
    } else {
      var i, j :| 0 <= i < j < |rows| && KeyOf(rows[i]) == KeyOf(rows[j]);
      SequentialRepeatLoops(rows, i, j);
    }
  }

  lemma SequentialRepeatLoops(rows: seq<Row>, i: nat, j: nat)
    requires SortByStart(rows) == rows && OneAfterAnother(rows)
    requires i < j < |rows| && KeyOf(rows[i]) == KeyOf(rows[j])
    ensures !Acyclic(GraphOf(rows, []))
  {
    hide OneAfterAnother, LinkPath, Acyclic, GraphOf, KeyOf, SortByStart;
    var path := seq(j - i + 1, m requires 0 <= m < j - i + 1 => (i + m) as nat);
    SequentialPath(rows, i, j, path);
    RepeatOnPathLoops(rows, path);
  }

  lemma SequentialPath(rows: seq<Row>, i: nat, j: nat, path: seq<nat>)
    requires OneAfterAnother(rows) && i < j < |rows|
    requires |path| == j - i + 1 && forall m :: 0 <= m < |path| ==> path[m] == i + m
    ensures LinkPath(rows, path)
  {
  }

  lemma TableIsSorted(records: seq<Record>, rows: seq<Row>)
    requires IsTable(records, rows)
    ensures SortByStart(rows) == rows
  {
    hide Describes, SortBy;
    SortedAlready((row: Row) => row.at, rows);
  }

  /** Work items told apart by the length of their hashes, in time order. */
  lemma NumberedOneEach(records: seq<Record>)
    requires forall i :: 0 <= i < |records| ==> records[i].Usable() && |records[i].workItemHash| == i + 1
    requires forall i, j :: 0 <= i < j < |records| ==> Single(records[i]).at <= Single(records[j]).at
    ensures OneEach(records) && forall r :: r in records ==> r.Usable()
  {
    hide Single;
  }

  lemma RanIs(i: nat, node: string, start: int, end: int)
    requires node != ""
    ensures var r := Ran(i, node, start, end);
            && r.Usable() && |r.workItemHash| == i + 1
            && Single(r).at == start && Single(r).endAt == end && KeyOf(Single(r)) == Key(node)
  {
    hide Node, FindSeparator, Single;
    SingleIs(Ran(i, node, start, end));
  }

  lemma ReturningRows(records: seq<Record>, n: string, m: string)
    requires n != "" && m != "" && records == [Ran(0, n, 0, 0), Ran(1, m, 0, 0), Ran(2, n, 0, 0)]
    ensures OneEach(records) && forall r :: r in records ==> r.Usable()
    ensures forall i :: 0 <= i < 3 ==> Single(records[i]).at == 0 && Single(records[i]).endAt == 0
    ensures KeyOf(Single(records[0])) == KeyOf(Single(records[2]))
  {
    hide Single, Ran, KeyOf, OneEach;
    RanIs(0, n, 0, 0);
    RanIs(1, m, 0, 0);
    RanIs(2, n, 0, 0);
    NumberedOneEach(records);
  }

  /** So the heuristic does make a loop for some records. */
  lemma OverlapCanLoop()
    ensures exists records, rows :: IsTable(records, rows) && !Acyclic(GraphOf(rows, []))
  {
    hide Ran, Single, Acyclic, GraphOf, IsTable, OneEach, KeyOf;
    // Three records at one instant, of which the first and the last ran the same node
    var records := [Ran(0, "n", 0, 0), Ran(1, "m", 0, 0), Ran(2, "n", 0, 0)];
    ReturningRows(records, "n", "m");
    SinglesAreTable(records);
    var rows := Singles(records);
    assert OneAfterAnother(rows);
    assert KeyOf(rows[0]) == KeyOf(rows[2]);
    assert !DistinctKeys(rows);
    SequentialLoopExact(records, rows);
  }

  lemma ParallelRows(records: seq<Record>, n: string)
    requires n != "" && records == [Ran(0, n, 0, 1000), Ran(1, n, 0, 1000)]
    ensures OneEach(records) && forall r :: r in records ==> r.Usable()
    ensures forall i :: 0 <= i < 2 ==>
              var row := Single(records[i]); row.at == 0 && row.endAt == 1000 && KeyOf(row) == Key(n)
  {
    hide Single, Ran, KeyOf, OneEach;
    RanIs(0, n, 0, 1000);
    RanIs(1, n, 0, 1000);
    NumberedOneEach(records);
  }

  /** Away from such runs a repeated node need not make a loop. */
  lemma RepeatCanBeHarmless()
    ensures exists records, rows :: IsTable(records, rows) && !DistinctKeys(rows) && Acyclic(GraphOf(rows, []))
  {
    hide Ran, Single, Acyclic, IsTable, OneEach, SortByStart, KeyOf, FirstDurations;
    // One node that ran twice for a second at the same time
    var records := [Ran(0, "n", 0, 1000), Ran(1, "n", 0, 1000)];
    ParallelRows(records, "n");
    SinglesAreTable(records);
    var rows := Singles(records);
    assert KeyOf(rows[0]) == KeyOf(rows[1]);
    assert !DistinctKeys(rows);
    TableIsSorted(records, rows);
    NoLinks(rows);
    RankedIsAcyclic(GraphOf(rows, []), map[]);
  }

  lemma NoLinks(rows: seq<Row>)
    requires |rows| == 2 && rows[0].endAt > rows[1].at + OVERLAP_MS
    ensures OverlapPreds(rows, 2) == map[]
  {
    assert LatestBefore(rows, rows[1], 1) == Option.None;
    OverlapFirst(rows);
  }

  /** Two nodes that each ran twice, so that the second run of either looks back to the first of the other. */
  ghost predicate Crossing(rows: seq<Row>, a: Key, b: Key) {
    && |rows| == 4 && a != b
    && rows[0].at == 0 && rows[1].at == 50 && rows[2].at == 150 && rows[3].at == 250
    && rows[0].endAt == 300 && rows[1].endAt == 400 && rows[2].endAt == 1000 && rows[3].endAt == 1000
    && KeyOf(rows[0]) == KeyOf(rows[3]) == a && KeyOf(rows[1]) == KeyOf(rows[2]) == b
  }

  lemma CrossingRows(records: seq<Record>, a: string, b: string)
    requires a != "" && b != "" && a != b
    requires records == [Ran(0, a, 0, 300), Ran(1, b, 50, 400), Ran(2, b, 150, 1000), Ran(3, a, 250, 1000)]
    ensures OneEach(records) && (forall r :: r in records ==> r.Usable()) && Crossing(Singles(records), Key(a), Key(b))
  {
    hide Single, Ran, KeyOf, OneEach;
    RanIs(0, a, 0, 300);
    RanIs(1, b, 50, 400);
    RanIs(2, b, 150, 1000);
    RanIs(3, a, 250, 1000);
    NumberedOneEach(records);
  }

  lemma CrossingLinks(rows: seq<Row>, a: Key, b: Key)
    requires Crossing(rows, a, b)
    ensures LatestBefore(rows, rows[0], 0) == LatestBefore(rows, rows[1], 1) == Option.None
    ensures LatestBefore(rows, rows[2], 2) == Option.Some(0) && LatestBefore(rows, rows[3], 3) == Option.Some(1)
  {
    hide KeyOf;
  }

  lemma CrossingStep(rows: seq<Row>, a: Key, b: Key, path: seq<nat>, m: nat)
    requires Crossing(rows, a, b) && LinkPath(rows, path) && 0 < m < |path|
    ensures (path[m - 1] == 0 && path[m] == 2) || (path[m - 1] == 1 && path[m] == 3)
  {
    CrossingLinks(rows, a, b);
    hide KeyOf, LatestBefore;
    assert path[m] < 4 && LatestBefore(rows, rows[path[m]], path[m]) == Option.Some(path[m - 1]);
  }

  lemma CrossingPaths(rows: seq<Row>, a: Key, b: Key, path: seq<nat>)
    requires Crossing(rows, a, b) && LinkPath(rows, path) && |path| >= 2
    ensures KeyOf(rows[path[0]]) != KeyOf(rows[path[|path| - 1]])
  {
    hide KeyOf, LatestBefore, LinkPath;
    CrossingStep(rows, a, b, path, 1);
    if |path| > 2 {
      CrossingStep(rows, a, b, path, 2);
    }
  }

  lemma CrossingLoops(rows: seq<Row>, a: Key, b: Key)
    requires Crossing(rows, a, b) && SortByStart(rows) == rows
    ensures !Acyclic(GraphOf(rows, []))
  {
    hide KeyOf, LatestBefore, OverlapPreds, SortByStart, FirstDurations, Acyclic;
    CrossingLinks(rows, a, b);
    LinkedIsPred(rows, 2, 0);
    LinkedIsPred(rows, 3, 1);
    TwoNodeLoop(GraphOf(rows, []), a, b);
  }

  ghost predicate NoRepeatOnPaths(rows: seq<Row>) {
    forall path :: LinkPath(rows, path) && |path| >= 2 ==> KeyOf(rows[path[0]]) != KeyOf(rows[path[|path| - 1]])
  }

  /** And a loop need not return to a node along one path: it can change from one run of a node to another on the
      way, so that no condition on the paths alone decides. */
  lemma LoopAcrossPaths()
    ensures exists records, rows :: IsTable(records, rows) && NoRepeatOnPaths(rows) && !Acyclic(GraphOf(rows, []))
  {
    hide Ran, Single, Acyclic, IsTable, OneEach, SortByStart, KeyOf, GraphOf, LinkPath, Crossing;
    var a, b := "a", "b";
    var records := [Ran(0, a, 0, 300), Ran(1, b, 50, 400), Ran(2, b, 150, 1000), Ran(3, a, 250, 1000)];
    CrossingRows(records, a, b);
    SinglesAreTable(records);
    var rows := Singles(records);
    TableIsSorted(records, rows);
    CrossingLoops(rows, Key(a), Key(b));
    NoRepeatOnCrossing(rows, Key(a), Key(b));
  }

  lemma NoRepeatOnCrossing(rows: seq<Row>, a: Key, b: Key)
    requires Crossing(rows, a, b)
    ensures NoRepeatOnPaths(rows)
  {
    hide Crossing, KeyOf;
    forall path | LinkPath(rows, path) && |path| >= 2 ensures KeyOf(rows[path[0]]) != KeyOf(rows[path[|path| - 1]]) {
      CrossingPaths(rows, a, b, path);
    }
  }

  lemma TwoNodeLoop(g: Graph, a: Key, b: Key)
    requires a in g.Preds(b) && b in g.Preds(a)
    ensures !Acyclic(g)
  {
    var c := [a, b, a];
    assert ChainTo(g, c, a) && c[0] == c[2];
    assert !LoopFree(g, a);
  }
}
