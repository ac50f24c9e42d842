/** The library sort the source calls with a numeric comparator: stable, ascending by a key. */
module StableSort {

  function InsertLast<T>(key: T -> int, s: seq<T>, x: T): seq<T> {
    if s == [] || key(s[|s| - 1]) <= key(x) then s + [x]
    else InsertLast(key, s[..|s| - 1], x) + [s[|s| - 1]]
  }

  function SortBy<T>(key: T -> int, s: seq<T>): seq<T> {
    if s == [] then [] else InsertLast(key, SortBy(key, s[..|s| - 1]), s[|s| - 1])
  }

  ghost predicate Ascending<T>(key: T -> int, s: seq<T>) {
    forall i, j :: 0 <= i < j < |s| ==> key(s[i]) <= key(s[j])
  }

  /** The elements keep the order `before` gives them as long as their keys are equal. */
  ghost predicate TiesOrdered<T>(key: T -> int, before: (T, T) -> bool, s: seq<T>) {
    forall i, j :: 0 <= i < j < |s| && key(s[i]) == key(s[j]) ==> before(s[i], s[j])
  }

  lemma {:induction false} InsertLastPermutes<T>(key: T -> int, s: seq<T>, x: T)
    ensures multiset(InsertLast(key, s, x)) == multiset(s + [x])
  {
    if s == [] || key(s[|s| - 1]) <= key(x) {
    } else {
      var t, last := s[..|s| - 1], s[|s| - 1];
      InsertLastPermutes(key, t, x);
      assert s == t + [last];
    }
  }

  lemma InsertLastMembers<T(!new)>(key: T -> int, s: seq<T>, x: T)
    ensures |InsertLast(key, s, x)| == |s| + 1
    ensures forall y :: y in InsertLast(key, s, x) <==> y == x || y in s
  {
    InsertLastPermutes(key, s, x);
    var r := InsertLast(key, s, x);
    assert |multiset(r)| == |multiset(s + [x])|;
    forall y ensures y in r <==> y == x || y in s {
      assert y in r <==> y in multiset(r);
      assert y in s + [x] <==> y in multiset(s + [x]);
    }
  }

  lemma {:induction false} InsertLastAscends<T(!new)>(key: T -> int, s: seq<T>, x: T)
    requires Ascending(key, s)
    ensures Ascending(key, InsertLast(key, s, x))
  {
    if s == [] || key(s[|s| - 1]) <= key(x) {
    } else {
      var t, last := s[..|s| - 1], s[|s| - 1];
      InsertLastAscends(key, t, x);
      InsertLastMembers(key, t, x);
      var r := InsertLast(key, t, x);
      forall i | 0 <= i < |r| ensures key(r[i]) <= key(last) {
        assert r[i] in r;
      }
    }
  }

  lemma {:induction false} InsertLastTies<T(!new)>(key: T -> int, before: (T, T) -> bool, s: seq<T>, x: T)
    requires Ascending(key, s) && TiesOrdered(key, before, s)
    requires forall y :: y in s ==> before(y, x)
    ensures TiesOrdered(key, before, InsertLast(key, s, x))
  {
    if s == [] || key(s[|s| - 1]) <= key(x) {
    } else {
      var t, last := s[..|s| - 1], s[|s| - 1];
      InsertLastTies(key, before, t, x);
      InsertLastMembers(key, t, x);
      var r := InsertLast(key, t, x);
      forall i | 0 <= i < |r| && key(r[i]) == key(last) ensures before(r[i], last) {
        assert r[i] in r;
        var k :| 0 <= k < |t| && t[k] == r[i];
        assert before(s[k], s[|s| - 1]);
      }
    }
  }

  /** Sorting permutes its input into ascending order and never swaps two equal keys. */
  lemma {:induction false} SortBySorts<T(!new)>(key: T -> int, before: (T, T) -> bool, s: seq<T>)
    requires forall i, j :: 0 <= i < j < |s| ==> before(s[i], s[j])
    ensures |SortBy(key, s)| == |s|
    ensures multiset(SortBy(key, s)) == multiset(s)
    ensures Ascending(key, SortBy(key, s))
    ensures TiesOrdered(key, before, SortBy(key, s))
    ensures forall y :: y in SortBy(key, s) <==> y in s
  {
    hide InsertLast;
    if s != [] {
      var t, x := s[..|s| - 1], s[|s| - 1];
      SortBySorts(key, before, t);
      InsertLastAscends(key, SortBy(key, t), x);
      InsertLastMembers(key, SortBy(key, t), x);
      InsertLastPermutes(key, SortBy(key, t), x);
      forall y | y in SortBy(key, t) ensures before(y, x) {
        var k :| 0 <= k < |t| && t[k] == y;
        assert before(s[k], s[|s| - 1]);
      }
      InsertLastTies(key, before, SortBy(key, t), x);
      assert s == t + [x];
    }
  }

  lemma InitMembers<T(!new)>(before: (T, T) -> bool, s: seq<T>)
    requires s != [] && !before(s[|s| - 1], s[|s| - 1])
    requires forall i, j :: 0 <= i < j < |s| ==> before(s[i], s[j])
    ensures forall z :: z in s[..|s| - 1] <==> z in s && z != s[|s| - 1]
  {
    var init, x := s[..|s| - 1], s[|s| - 1];
    assert s == init + [x];
    forall i | 0 <= i < |init| ensures init[i] != x {
      assert before(s[i], s[|s| - 1]);
    }
  }

  /** Elements that a strict order tells apart can be listed in that order in one way only. */
  lemma {:induction false} OrderedListUnique<T(!new)>(before: (T, T) -> bool, s: seq<T>, t: seq<T>)
    requires forall i, j :: 0 <= i < j < |s| ==> before(s[i], s[j])
    requires forall i, j :: 0 <= i < j < |t| ==> before(t[i], t[j])
    requires forall x :: x in s <==> x in t
    requires forall x, y :: x in s && y in s && before(x, y) ==> !before(y, x)
    ensures s == t
  {
    if s == [] {
      assert forall i :: 0 <= i < |t| ==> t[i] in s;
    } else {
      var x := s[|s| - 1];
      assert x in t;
      var y := t[|t| - 1];
      assert y in s;
      var k :| 0 <= k < |t| && t[k] == x;
      var m :| 0 <= m < |s| && s[m] == y;
      assert x == y;
      var s', t' := s[..|s| - 1], t[..|t| - 1];
      InitMembers(before, s);
      InitMembers(before, t);
      forall z ensures z in s' <==> z in t' {
        assert z in s' <==> z in s && z != x;
        assert z in t' <==> z in t && z != y;
      }
      OrderedListUnique(before, s', t');
      assert s == s' + [x] && t == t' + [x];
    }
  }
}
