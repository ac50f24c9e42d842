/** Predecessor graphs, the chains that run through them and what a longest chain is.
    Everything here is independent of how a longest chain is searched for. */
module PredecessorGraph {

  /** A node of the operation graph, by the hash that names it. */
  datatype Key = Key(hash: string) {
    /** An empty hash is what the source treats as no key at all. */
    predicate Named() {
      hash != ""
    }
  }

  /** `preds` lists the direct predecessors of a key in the order they are tried, `durations`
      holds the keys that carry a task. A graph may name keys without a task, and may loop. */
  datatype Graph = Graph(preds: map<Key, seq<Key>>, durations: map<Key, int>) {
    function Preds(k: Key): seq<Key> {
      if k in preds then preds[k] else []
    }

    function Duration(k: Key): int {
      if k in durations then durations[k] else 0
    }
  }

  /** A chain is a non-empty walk along predecessor edges, earliest key first. */
  ghost predicate IsChain(g: Graph, c: seq<Key>) {
    && c != []
    && forall i :: 0 < i < |c| ==> c[i - 1] in g.Preds(c[i])
  }

  function Last(c: seq<Key>): Key
    requires c != []
  {
    c[|c| - 1]
  }

  ghost predicate ChainTo(g: Graph, c: seq<Key>, k: Key) {
    IsChain(g, c) && Last(c) == k
  }

  function Weight(g: Graph, c: seq<Key>): int {
    if c == [] then 0 else Weight(g, c[..|c| - 1]) + g.Duration(Last(c))
  }

  ghost predicate NoRepeats(c: seq<Key>) {
    forall i, j :: 0 <= i < j < |c| ==> c[i] != c[j]
  }

  /** No chain that ends at `k` visits a key twice: nothing upstream of `k` loops. */
  ghost predicate LoopFree(g: Graph, k: Key) {
    forall c :: ChainTo(g, c, k) ==> NoRepeats(c)
  }

  ghost predicate Acyclic(g: Graph) {
    forall k: Key :: LoopFree(g, k)
  }

  /** The edge from `p` to `k` closes a loop: some chain already leads from `k` to `p`. */
  ghost predicate ClosesLoop(g: Graph, p: Key, k: Key) {
    exists c :: ChainTo(g, c, p) && c[0] == k
  }

  // Which of several longest chains

  ghost predicate PositivePrefixes(g: Graph, c: seq<Key>) {
    forall i :: 0 < i < |c| ==> Weight(g, c[..i]) > 0
  }

  ghost predicate NoneHeavier(g: Graph, k: Key, w: int) {
    forall c :: ChainTo(g, c, k) ==> Weight(g, c) <= w
  }

  ghost predicate AllLighter(g: Graph, k: Key, w: int) {
    forall c :: ChainTo(g, c, k) ==> Weight(g, c) < w
  }

  /** Of the predecessors of `k`, `p` is the first that the heaviest chain leads to, which weighs `w`. */
  ghost predicate FirstHeaviest(g: Graph, k: Key, p: Key, w: int) {
    && (exists j :: 0 <= j < |g.Preds(k)| && g.Preds(k)[j] == p && forall i :: 0 <= i < j ==> AllLighter(g, g.Preds(k)[i], w))
    && (forall q :: q in g.Preds(k) ==> NoneHeavier(g, q, w))
  }

  /** A chain that goes back by the first of the heaviest predecessors as long as one weighs anything, as far
      as no loop is upstream. */
  ghost predicate Preferred(g: Graph, c: seq<Key>) {
    && (forall i :: 0 < i < |c| && LoopFree(g, c[i]) ==> FirstHeaviest(g, c[i], c[i - 1], Weight(g, c[..i])))
    && (c != [] && LoopFree(g, c[0]) ==> forall q :: q in g.Preds(c[0]) ==> NoneHeavier(g, q, 0))
  }

  lemma PreferredInit(g: Graph, c: seq<Key>)
    requires Preferred(g, c) && PositivePrefixes(g, c) && c != []
    ensures Preferred(g, c[..|c| - 1]) && PositivePrefixes(g, c[..|c| - 1])
  {
    var d := c[..|c| - 1];
    hide FirstHeaviest, LoopFree;
    assert forall i :: 0 < i <= |d| ==> d[..i] == c[..i];
  }

  lemma StartsAlone(g: Graph, c: seq<Key>, d: seq<Key>)
    requires IsChain(g, c) && IsChain(g, d) && Last(c) == Last(d) && |c| == 1 && LoopFree(g, Last(c))
    requires Preferred(g, c) && PositivePrefixes(g, d)
    ensures |d| == 1
  {
    if |d| > 1 {
      ChainInit(g, d);
      var e := d[..|d| - 1];
      assert Weight(g, e) > 0 && ChainTo(g, e, Last(e));
    }
  }

  lemma SameFirstHeaviest(g: Graph, k: Key, c: seq<Key>, d: seq<Key>)
    requires IsChain(g, c) && IsChain(g, d) && Last(c) in g.Preds(k) && Last(d) in g.Preds(k)
    requires FirstHeaviest(g, k, Last(c), Weight(g, c)) && FirstHeaviest(g, k, Last(d), Weight(g, d))
    ensures Last(c) == Last(d)
  {
    var p, q := Last(c), Last(d);
    assert ChainTo(g, c, p) && ChainTo(g, d, q);
    assert NoneHeavier(g, q, Weight(g, c)) && NoneHeavier(g, p, Weight(g, d));
    var i :| 0 <= i < |g.Preds(k)| && g.Preds(k)[i] == p
             && forall m :: 0 <= m < i ==> AllLighter(g, g.Preds(k)[m], Weight(g, c));
    var j :| 0 <= j < |g.Preds(k)| && g.Preds(k)[j] == q
             && forall m :: 0 <= m < j ==> AllLighter(g, g.Preds(k)[m], Weight(g, d));
    assert j < i ==> AllLighter(g, q, Weight(g, c));
    assert i < j ==> AllLighter(g, p, Weight(g, d));
  }

  lemma LastIsHeaviest(g: Graph, c: seq<Key>)
    requires Preferred(g, c) && |c| > 1 && LoopFree(g, Last(c))
    ensures FirstHeaviest(g, Last(c), Last(c[..|c| - 1]), Weight(g, c[..|c| - 1]))
  {
    assert c[|c| - 1] == Last(c) && c[|c| - 2] == Last(c[..|c| - 1]);
    hide FirstHeaviest, LoopFree, Weight;
  }

  /** There is one such chain to a key. */
  lemma {:induction false} PreferredUnique(g: Graph, c: seq<Key>, d: seq<Key>)
    requires Acyclic(g) && IsChain(g, c) && IsChain(g, d) && Last(c) == Last(d)
    requires Preferred(g, c) && PositivePrefixes(g, c) && Preferred(g, d) && PositivePrefixes(g, d)
    ensures c == d
    decreases |c|
  {
    var k := Last(c);
    assert LoopFree(g, k);
    hide LoopFree, FirstHeaviest, Preferred, PositivePrefixes, IsChain, Weight;
    if |c| == 1 {
      StartsAlone(g, c, d);
    } else if |d| == 1 {
      StartsAlone(g, d, c);
    } else {
      ChainInit(g, c);
      ChainInit(g, d);
      var c', d' := c[..|c| - 1], d[..|d| - 1];
      LastIsHeaviest(g, c);
      LastIsHeaviest(g, d);
      PreferredInit(g, c);
      PreferredInit(g, d);
      SameFirstHeaviest(g, k, c', d');
      PreferredUnique(g, c', d');
      assert c == c' + [k] && d == d' + [k];
    }
  }

  ghost function Elements(c: seq<Key>): set<Key> {
    set k | k in c
  }

  /** The last `n` keys of a chain, or all of it when it is not longer than that. */
  function Suffix(c: seq<Key>, n: nat): (s: seq<Key>)
    ensures |s| == if |c| <= n then |c| else n
  {
    if |c| <= n then c else c[|c| - n..]
  }

  lemma WeightAppend(g: Graph, c: seq<Key>, k: Key)
    ensures Weight(g, c + [k]) == Weight(g, c) + g.Duration(k)
  {
    assert (c + [k])[..|c|] == c;
  }

  lemma ChainAppend(g: Graph, c: seq<Key>, k: Key)
    requires IsChain(g, c) && Last(c) in g.Preds(k)
    ensures ChainTo(g, c + [k], k)
  {
  }

  lemma ChainInit(g: Graph, c: seq<Key>)
    requires IsChain(g, c) && |c| > 1
    ensures IsChain(g, c[..|c| - 1])
    ensures Last(c[..|c| - 1]) in g.Preds(Last(c))
    ensures Weight(g, c) == Weight(g, c[..|c| - 1]) + g.Duration(Last(c))
  {
    var d := c[..|c| - 1];
    assert Last(d) == c[|c| - 2];
    forall i | 0 < i < |d| ensures d[i - 1] in g.Preds(d[i]) {
      assert c[i - 1] in g.Preds(c[i]);
    }
  }

  /** Being loop free is inherited by predecessors, and none of their edges closes a loop. */
  lemma LoopFreePreds(g: Graph, k: Key, p: Key)
    requires LoopFree(g, k) && p in g.Preds(k)
    ensures LoopFree(g, p) && !ClosesLoop(g, p, k)
  {
    forall c | ChainTo(g, c, p)
      ensures NoRepeats(c) && c[0] != k
    {
      ChainAppend(g, c, k);
      var d := c + [k];
      assert NoRepeats(d);
      assert d[0] != d[|c|];
      forall i, j | 0 <= i < j < |c| ensures c[i] != c[j] {
        assert d[i] != d[j];
      }
    }
  }

  /** A table of chain lengths is settled when each entry covers its own task and every
      predecessor edge into it, apart from edges that close a loop. */
  ghost predicate SettledAt(g: Graph, dist: map<Key, int>, k: Key)
    requires k in dist
  {
    && g.Duration(k) <= dist[k]
    && forall p :: p in g.Preds(k) ==> Covers(g, dist, p, k)
  }

  ghost predicate Covers(g: Graph, dist: map<Key, int>, p: Key, k: Key)
    requires k in dist
  {
    (p in dist && dist[p] + g.Duration(k) <= dist[k]) || ClosesLoop(g, p, k)
  }

  ghost predicate Settled(g: Graph, dist: map<Key, int>) {
    forall k :: k in dist ==> SettledAt(g, dist, k)
  }

  /** In a settled table no chain into a loop-free key outweighs that key's entry. */
  lemma {:induction false} SettledBoundsChains(g: Graph, dist: map<Key, int>, k: Key, c: seq<Key>)
    requires Settled(g, dist) && k in dist
    requires LoopFree(g, k) && ChainTo(g, c, k)
    ensures Weight(g, c) <= dist[k]
    decreases |c|
  {
    assert SettledAt(g, dist, k);
    if |c| == 1 {
      assert c[..0] == [];
    } else {
      ChainInit(g, c);
      var d := c[..|c| - 1];
      var p := Last(d);
      LoopFreePreds(g, k, p);
      assert Covers(g, dist, p, k);
      SettledBoundsChains(g, dist, p, d);
    }
  }

  /** Keys that can be numbered so that predecessors come first are on no loop. */
  lemma RankedIsAcyclic(g: Graph, rank: map<Key, int>)
    requires forall k :: k in g.preds ==> k in rank
    requires forall k, p :: k in g.preds && p in g.preds[k] ==> p in rank && rank[p] < rank[k]
    ensures Acyclic(g)
  {
    forall k: Key, c | ChainTo(g, c, k) ensures NoRepeats(c) {
      forall i, j | 0 <= i < j < |c| ensures c[i] != c[j] {
        RankGrows(g, rank, c, i, j);
      }
    }
  }

  lemma {:induction false} RankGrows(g: Graph, rank: map<Key, int>, c: seq<Key>, i: nat, j: nat)
    requires forall k :: k in g.preds ==> k in rank
    requires forall k, p :: k in g.preds && p in g.preds[k] ==> p in rank && rank[p] < rank[k]
    requires IsChain(g, c) && i < j < |c|
    ensures c[i] in rank && c[j] in rank && rank[c[i]] < rank[c[j]]
    decreases j
  {
    assert c[j - 1] in g.Preds(c[j]);
    if i < j - 1 {
      RankGrows(g, rank, c, i, j - 1);
    }
  }

  /** Keys without a task weigh nothing, so any chain can be cut back to end at a task. */
  lemma {:induction false} CutToTask(g: Graph, c: seq<Key>) returns (d: seq<Key>)
    requires IsChain(g, c)
    ensures Weight(g, d) == Weight(g, c)
    ensures d == [] || (IsChain(g, d) && Last(d) in g.durations)
    decreases |c|
  {
    if Last(c) in g.durations {
      d := c;
    } else if |c| == 1 {
      d := [];
      assert c[..0] == [];
    } else {
      ChainInit(g, c);
      d := CutToTask(g, c[..|c| - 1]);
    }
  }

  /** When no task takes longer than nothing, no chain does. */
  lemma {:induction false} NonPositiveWeight(g: Graph, c: seq<Key>)
    requires forall k :: k in g.durations ==> g.durations[k] <= 0
    ensures Weight(g, c) <= 0
  {
    if c != [] {
      NonPositiveWeight(g, c[..|c| - 1]);
    }
  }

  /** When every task's duration is negative, so is a chain that ends at a task. */
  lemma NegativeWeight(g: Graph, c: seq<Key>)
    requires forall k :: k in g.durations ==> g.durations[k] < 0
    requires c != [] && Last(c) in g.durations
    ensures Weight(g, c) < 0
  {
    NonPositiveWeight(g, c[..|c| - 1]);
  }

  lemma DistinctElements(c: seq<Key>)
    requires NoRepeats(c)
    ensures |Elements(c)| == |c|
  {
    if c != [] {
      var d := c[..|c| - 1];
      assert NoRepeats(d);
      DistinctElements(d);
      assert Elements(c) == Elements(d) + {Last(c)};
      assert Last(c) !in Elements(d);
    } else {
      assert Elements(c) == {};
    }
  }

  /** A chain without repeats loses its first key, and nothing else can stand in for it, as soon
      as it is cut to a suffix that is too short. */
  lemma SuffixIsWhole(c: seq<Key>, n: nat)
    requires NoRepeats(c)
    ensures Elements(Suffix(c, n)) == Elements(c) <==> |c| <= n
  {
    if |c| > n {
      assert c[0] in Elements(c);
      assert c[0] !in Elements(Suffix(c, n)) by {
        forall j | 0 <= j < n ensures Suffix(c, n)[j] != c[0] {
          assert Suffix(c, n)[j] == c[|c| - n + j];
        }
      }
    }
  }
}
