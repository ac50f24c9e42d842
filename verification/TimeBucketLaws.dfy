/** Laws of client-side bucketing: nothing is lost, zooming out only merges, panning changes nothing, and
    the number of buckets is bounded. */
module TimeBucketLaws {
  import opened Option
  import opened StableSort
  import opened TimeBuckets

  // What a bucket says, in terms of the records' own fields

  /** What a record must say to be counted there; a missing event type goes by "Unknown". */
  ghost predicate Says(r: Record, t: Tally) {
    match t
    case All => true
    case EventType(name) => name != "" && (r.eventType == name || (r.eventType == "" && name == "Unknown"))
    case Capability(name) => name != "" && r.capability == name
    case Status(name) => name != "" && r.status == name
  }

  /** The records in the interval that say so. */
  ghost function Where(records: seq<Record>, start: int, length: nat, t: Tally): set<int> {
    set i | 0 <= i < |records| && InInterval(records[i], start, length) && Says(records[i], t)
  }

  ghost predicate InInterval(r: Record, start: int, length: nat) {
    r.at.Some? && start <= r.at.value < start + length
  }

  lemma {:induction false} CountInIs(records: seq<Record>, step: nat, start: int, t: Tally)
    requires step > 0 && start == Floor(start, step)
    ensures CountIn(records, step, start, t) == |Where(records, start, step, t)|
  {
    if records == [] {
      assert Where(records, start, step, t) == {};
    } else {
      var init, r := records[..|records| - 1], records[|records| - 1];
      CountInIs(init, step, start, t);
      InIntervalIs(r, step, start);
      assert Says(r, t) <==> Matches(r, t);
      hide CountIn, Says, Matches, InInterval, Floor;
      assert records == init + [r];
      WhereStep(init, r, start, step, t);
      CountInStep(init, r, step, start, t);
    }
  }

  lemma CountInStep(init: seq<Record>, r: Record, step: nat, start: int, t: Tally)
    requires step > 0
    ensures CountIn(init + [r], step, start, t) == CountIn(init, step, start, t) + if Falls(r, step, start) && Matches(r, t) then 1 else 0
  {
    assert (init + [r])[..|init|] == init;
  }

  lemma InIntervalIs(r: Record, step: nat, start: int)
    requires step > 0 && start == Floor(start, step)
    ensures Falls(r, step, start) <==> InInterval(r, start, step)
  {
    if r.at.Some? {
      FloorBounds(r.at.value, step);
      if InInterval(r, start, step) {
        FloorUnique(r.at.value, step, start);
      }
    }
  }

  lemma WhereStep(init: seq<Record>, r: Record, start: int, length: nat, t: Tally)
    ensures var more := Where(init + [r], start, length, t);
            |more| == |Where(init, start, length, t)| + if InInterval(r, start, length) && Says(r, t) then 1 else 0
  {
    hide InInterval, Says;
    var before, more := Where(init, start, length, t), Where(init + [r], start, length, t);
    assert more == before + if InInterval(r, start, length) && Says(r, t) then {|init|} else {};
  }

  /** A bucket covers one step from an aligned start, its count is the number of records in that time, and each
      of its breakdowns holds, for every name that is given there and no other, how many of them give it. */
  lemma BucketSays(records: seq<Record>, step: nat, out: seq<Bucket>, b: Bucket, name: string)
    requires step > 0 && IsHistogram(records, step, out) && b in out
    ensures b.durationMs == step && b.at % step == 0
    ensures b.count == |Where(records, b.at, step, All)| > 0
    ensures Holding(b.byEventType, name, |Where(records, b.at, step, EventType(name))|)
    ensures Holding(b.byCapability, name, |Where(records, b.at, step, Capability(name))|)
    ensures Holding(b.byStatus, name, |Where(records, b.at, step, Status(name))|)
  {
    assert Tallies(records, step, b);
    BucketAligned(records, step, b);
    CountInIs(records, step, b.at, All);
    CountInIs(records, step, b.at, EventType(name));
    CountInIs(records, step, b.at, Capability(name));
    CountInIs(records, step, b.at, Status(name));
    hide CountIn, Where;
    assert b.Get(All) == b.count;
    assert b.Get(EventType(name)) == Lookup(b.byEventType, name);
    assert b.Get(Capability(name)) == Lookup(b.byCapability, name);
    assert b.Get(Status(name)) == Lookup(b.byStatus, name);
    assert b.at == step * (b.at / step) + b.at % step;
  }

  ghost predicate Holding(m: map<string, nat>, name: string, n: nat) {
    if n == 0 then name !in m else name in m && m[name] == n
  }

  // The outcome is determined by the records and the step

  lemma HistogramUnique(records: seq<Record>, step: nat, a: seq<Bucket>, b: seq<Bucket>)
    requires step > 0 && IsHistogram(records, step, a) && IsHistogram(records, step, b)
    ensures a == b
  {
    var before := (x: Bucket, y: Bucket) => x.at < y.at;
    forall x ensures x in a <==> x in b {
      if x in a {
        BucketInBoth(records, step, a, b, x);
      }
      if x in b {
        BucketInBoth(records, step, b, a, x);
      }
    }
    OrderedListUnique(before, a, b);
  }

  lemma BucketInBoth(records: seq<Record>, step: nat, a: seq<Bucket>, b: seq<Bucket>, x: Bucket)
    requires step > 0 && IsHistogram(records, step, a) && IsHistogram(records, step, b) && x in a
    ensures x in b
  {
    hide Tallies, CountIn;
    assert HasBucket(a, x.at);
    assert HasBucket(b, x.at);
    var y :| y in b && y.at == x.at;
    TalliesUnique(records, step, x, y);
  }

  lemma TalliesUnique(records: seq<Record>, step: nat, x: Bucket, y: Bucket)
    requires step > 0 && Tallies(records, step, x) && Tallies(records, step, y) && x.at == y.at
    ensures x == y
  {
    hide CountIn;
    forall t: Tally ensures x.Get(t) == y.Get(t) {}
    forall name: string
      ensures Lookup(x.byEventType, name) == Lookup(y.byEventType, name)
      ensures Lookup(x.byCapability, name) == Lookup(y.byCapability, name)
      ensures Lookup(x.byStatus, name) == Lookup(y.byStatus, name)
    {
      assert x.Get(EventType(name)) == y.Get(EventType(name));
      assert x.Get(Capability(name)) == y.Get(Capability(name));
      assert x.Get(Status(name)) == y.Get(Status(name));
    }
    SparseEqual(x.byEventType, y.byEventType);
    SparseEqual(x.byCapability, y.byCapability);
    SparseEqual(x.byStatus, y.byStatus);
    assert x.Get(All) == y.Get(All);
  }

  lemma SparseEqual(m: map<string, nat>, n: map<string, nat>)
    requires forall k :: Lookup(m, k) == Lookup(n, k)
    requires (forall k :: k in m ==> m[k] > 0) && (forall k :: k in n ==> n[k] > 0)
    ensures m == n
  {
    forall k ensures k in m <==> k in n {
      assert Lookup(m, k) == Lookup(n, k);
    }
    forall k | k in m ensures m[k] == n[k] {
      assert Lookup(m, k) == Lookup(n, k);
    }
  }

  lemma SnappedUnique(span: int, target: nat, s: nat, t: nat)
    requires Snapped(span, target, s) && Snapped(span, target, t)
    ensures s == t
  {
    assert STEPS_MS[0] <= s && STEPS_MS[0] <= t by {
      var i :| 0 <= i < |STEPS_MS| && STEPS_MS[i] == s;
      var j :| 0 <= j < |STEPS_MS| && STEPS_MS[j] == t;
      StepsAscend(0, i);
      StepsAscend(0, j);
    }
  }

  /** Nothing but the records, the target and the window's length decides the buckets, so moving the window
      moves no record to another bucket. */
  lemma SpanDeterminesBuckets(records: seq<Record>, span: int, target: nat, a: seq<Bucket>, b: seq<Bucket>)
    requires Bucketed(records, span, target, a) && Bucketed(records, span, target, b)
    ensures a == b
  {
    hide Snapped, IsHistogram;
    var s: nat :| Snapped(span, target, s) && s > 0 && IsHistogram(records, s, a);
    var t: nat :| Snapped(span, target, t) && t > 0 && IsHistogram(records, t, b);
    SnappedUnique(span, target, s, t);
    HistogramUnique(records, s, a, b);
  }

  // Conservation and refinement

  /** The sum of one tally over the buckets whose start is picked. */
  ghost function SumWhere(out: seq<Bucket>, picked: int -> bool, t: Tally): nat {
    if out == [] then 0
    else
      var b := out[|out| - 1];
      SumWhere(out[..|out| - 1], picked, t) + if picked(b.at) then b.Get(t) else 0
  }

  /** The records that match and whose bucket start is picked. */
  ghost function CountWhere(records: seq<Record>, step: nat, picked: int -> bool, t: Tally): nat
    requires step > 0
  {
    if records == [] then 0
    else
      var r := records[|records| - 1];
      CountWhere(records[..|records| - 1], step, picked, t)
      + if r.at.Some? && picked(Floor(r.at.value, step)) && Matches(r, t) then 1 else 0
  }

  ghost function SumCounts(records: seq<Record>, step: nat, starts: seq<int>, picked: int -> bool, t: Tally): nat
    requires step > 0
  {
    if starts == [] then 0
    else
      var start := starts[|starts| - 1];
      SumCounts(records, step, starts[..|starts| - 1], picked, t)
      + if picked(start) then CountIn(records, step, start, t) else 0
  }

  /** One more record adds to at most one of the distinct starts. */
  lemma {:induction false} SumCountsStep(records: seq<Record>, r: Record, step: nat, starts: seq<int>, picked: int -> bool, t: Tally)
    requires step > 0 && forall i, j :: 0 <= i < j < |starts| ==> starts[i] != starts[j]
    ensures SumCounts(records + [r], step, starts, picked, t) == SumCounts(records, step, starts, picked, t)
            + if r.at.Some? && Floor(r.at.value, step) in starts && picked(Floor(r.at.value, step)) && Matches(r, t) then 1 else 0
  {
    assert (records + [r])[..|records|] == records;
    hide Floor, Matches;
    if starts != [] {
      var init, last := starts[..|starts| - 1], starts[|starts| - 1];
      assert starts == init + [last];
      SumCountsStep(records, r, step, init, picked, t);
    }
  }

  lemma {:induction false} SumCountsNone(step: nat, starts: seq<int>, picked: int -> bool, t: Tally)
    requires step > 0
    ensures SumCounts([], step, starts, picked, t) == 0
  {
    if starts != [] {
      SumCountsNone(step, starts[..|starts| - 1], picked, t);
    }
  }

  /** Distinct starts that cover every dated record account for each of them exactly once. */
  lemma {:induction false} CoveringStarts(records: seq<Record>, step: nat, starts: seq<int>, picked: int -> bool, t: Tally)
    requires step > 0 && forall i, j :: 0 <= i < j < |starts| ==> starts[i] != starts[j]
    requires forall r :: r in records && r.at.Some? ==> Floor(r.at.value, step) in starts
    ensures SumCounts(records, step, starts, picked, t) == CountWhere(records, step, picked, t)
  {
    hide Floor, Matches;
    if records == [] {
      SumCountsNone(step, starts, picked, t);
    } else {
      var init, r := records[..|records| - 1], records[|records| - 1];
      assert records == init + [r];
      CoveringStarts(init, step, starts, picked, t);
      SumCountsStep(init, r, step, starts, picked, t);
    }
  }

  lemma {:induction false} CountInPositive(records: seq<Record>, step: nat, r: Record)
    requires step > 0 && r in records && r.at.Some?
    ensures CountIn(records, step, Floor(r.at.value, step), All) > 0
  {
    hide Floor;
    var init, last := records[..|records| - 1], records[|records| - 1];
    assert records == init + [last];
    if last != r {
      CountInPositive(init, step, r);
    }
  }

  lemma {:induction false} SumWhereCounts(records: seq<Record>, step: nat, out: seq<Bucket>, starts: seq<int>, picked: int -> bool, t: Tally)
    requires step > 0 && |starts| == |out| && forall i :: 0 <= i < |out| ==> starts[i] == out[i].at
    requires forall b :: b in out ==> Tallies(records, step, b)
    ensures SumWhere(out, picked, t) == SumCounts(records, step, starts, picked, t)
  {
    hide CountIn;
    if out != [] {
      SumWhereCounts(records, step, out[..|out| - 1], starts[..|starts| - 1], picked, t);
      assert Tallies(records, step, out[|out| - 1]);
    }
  }

  /** Over any choice of bucket starts, the buckets' tallies add up to the records that fall there. */
  lemma BucketsConserve(records: seq<Record>, step: nat, out: seq<Bucket>, picked: int -> bool, t: Tally)
    requires step > 0 && IsHistogram(records, step, out)
    ensures SumWhere(out, picked, t) == CountWhere(records, step, picked, t)
  {
    hide Tallies, CountIn, Floor;
    var starts := seq(|out|, i requires 0 <= i < |out| => out[i].at);
    forall r | r in records && r.at.Some? ensures Floor(r.at.value, step) in starts {
      CountInPositive(records, step, r);
      assert HasBucket(out, Floor(r.at.value, step));
      var b :| b in out && b.at == Floor(r.at.value, step);
      var i :| 0 <= i < |out| && out[i] == b;
      assert starts[i] == b.at;
    }
    SumWhereCounts(records, step, out, starts, picked, t);
    CoveringStarts(records, step, starts, picked, t);
  }

  /** How many records could be placed in time at all. */
  function DatedCount(records: seq<Record>): nat {
    if records == [] then 0
    else DatedCount(records[..|records| - 1]) + if records[|records| - 1].at.Some? then 1 else 0
  }

  lemma {:induction false} CountWhereAll(records: seq<Record>, step: nat)
    requires step > 0
    ensures CountWhere(records, step, _ => true, All) == DatedCount(records)
  {
    if records != [] {
      CountWhereAll(records[..|records| - 1], step);
    }
  }

  /** No dated record is lost or counted twice, and each bucket's event types add up to its count. */
  lemma NothingIsLost(records: seq<Record>, step: nat, out: seq<Bucket>)
    requires step > 0 && IsHistogram(records, step, out)
    ensures SumWhere(out, _ => true, All) == DatedCount(records)
    ensures forall b :: b in out ==> Total(b.byEventType) == b.count
  {
    BucketsConserve(records, step, out, _ => true, All);
    CountWhereAll(records, step);
    forall b | b in out ensures Total(b.byEventType) == b.count {
      assert Tallies(records, step, b);
    }
  }

  predicate Holds(b: Bucket, t: int) {
    b.at <= t < b.at + b.durationMs
  }

  /** Each dated record is inside exactly one bucket's interval, and buckets are aligned. */
  lemma RecordInOneBucket(records: seq<Record>, step: nat, out: seq<Bucket>, r: Record)
    requires step > 0 && IsHistogram(records, step, out) && r in records && r.at.Some?
    ensures exists b :: b in out && Holds(b, r.at.value)
    ensures forall b, c :: b in out && c in out && Holds(b, r.at.value) && Holds(c, r.at.value) ==> b == c
    ensures forall b :: b in out ==> b.at == Floor(b.at, step)
  {
    var start := Floor(r.at.value, step);
    CountInPositive(records, step, r);
    assert HasBucket(out, start);
    var b :| b in out && b.at == start;
    FloorBounds(r.at.value, step);
    assert Tallies(records, step, b);
    forall c | c in out ensures c.at == Floor(c.at, step) {
      BucketAligned(records, step, c);
    }
    hide CountIn;
    forall c | c in out && Holds(c, r.at.value) ensures c == b {
      assert Tallies(records, step, c);
      FloorUnique(r.at.value, step, c.at);
      var i :| 0 <= i < |out| && out[i] == c;
      var j :| 0 <= j < |out| && out[j] == b;
    }
  }

  lemma ProductGap(p: int, q: int, step: nat)
    requires p < q
    ensures p * step + step <= q * step
  {
    var d: nat := q - p - 1;
    Distribute(p + 1, d, step);
    Distribute(p, 1, step);
  }

  lemma Distribute(a: int, d: nat, step: nat)
    ensures (a + d) * step == a * step + d * step && d * step >= 0
  {
  }

  /** `q` is the quotient as soon as the remainder it leaves is one. */
  lemma QuotientUnique(t: int, q: int, step: nat)
    requires step > 0 && q * step <= t < q * step + step
    ensures t / step == q
  {
    var p := t / step;
    assert t == step * p + t % step;
    assert step * p == p * step;
    if p < q {
      ProductGap(p, q, step);
    } else if q < p {
      ProductGap(q, p, step);
    }
  }

  lemma FloorBounds(t: int, step: nat)
    requires step > 0
    ensures Floor(t, step) <= t < Floor(t, step) + step
    ensures Floor(Floor(t, step), step) == Floor(t, step)
  {
    var q := t / step;
    assert t == step * q + t % step;
    assert step * q == q * step;
    QuotientUnique(q * step, q, step);
  }

  lemma FloorUnique(t: int, step: nat, start: int)
    requires step > 0 && start == Floor(start, step) && start <= t < start + step
    ensures start == Floor(t, step)
  {
    QuotientUnique(t, start / step, step);
  }

  lemma {:induction false} CountedSomewhere(records: seq<Record>, step: nat, start: int) returns (r: Record)
    requires step > 0 && CountIn(records, step, start, All) > 0
    ensures r in records && Falls(r, step, start)
  {
    var init, last := records[..|records| - 1], records[|records| - 1];
    assert records == init + [last];
    if Falls(last, step, start) {
      r := last;
    } else {
      r := CountedSomewhere(init, step, start);
    }
  }

  lemma BucketAligned(records: seq<Record>, step: nat, b: Bucket)
    requires step > 0 && Tallies(records, step, b)
    ensures b.at == Floor(b.at, step)
  {
    assert b.Get(All) > 0;
    var r := CountedSomewhere(records, step, b.at);
    FloorBounds(r.at.value, step);
  }

  /** Each step divides every later one. */
  lemma StepsDivide(i: nat, j: nat)
    requires i <= j < |STEPS_MS|
    ensures STEPS_MS[i] > 0 && STEPS_MS[j] % STEPS_MS[i] == 0
  {
  }

  lemma FloorOfFloor(t: int, fine: nat, coarse: nat)
    requires fine > 0 && coarse > 0 && coarse % fine == 0
    ensures Floor(Floor(t, fine), coarse) == Floor(t, coarse)
  {
    var start, base := Floor(t, fine), Floor(t, coarse);
    FloorBounds(t, fine);
    FloorBounds(t, coarse);
    var k := coarse / fine;
    var q := t / coarse;
    assert coarse == k * fine;
    assert base == q * k * fine by { assert q * (k * fine) == q * k * fine; }
    AlignedBelow(q * k, t / fine, t, fine);
    FloorUnique(start, coarse, base);
  }

  lemma AlignedBelow(m: int, n: int, t: int, fine: nat)
    requires fine > 0 && m * fine <= t && n == t / fine
    ensures m * fine <= n * fine
  {
    FloorBounds(t, fine);
    if n < m {
      ProductGap(n, m, fine);
    }
  }

  lemma {:induction false} CountWhereRefines(records: seq<Record>, fine: nat, coarse: nat, start: int, t: Tally)
    requires fine > 0 && coarse > 0 && coarse % fine == 0
    ensures CountWhere(records, fine, x => Floor(x, coarse) == start, t) == CountIn(records, coarse, start, t)
  {
    if records != [] {
      var r := records[|records| - 1];
      CountWhereRefines(records[..|records| - 1], fine, coarse, start, t);
      if r.at.Some? {
        FloorOfFloor(r.at.value, fine, coarse);
      }
    }
  }

  /** Zooming out only merges buckets: gathering the finer buckets under each coarser start gives exactly
      the coarser bucket, in its count and in every breakdown, and there is a coarser bucket for each start
      so reached and for no other. */
  lemma ZoomOutMerges(records: seq<Record>, i: nat, j: nat, fine: seq<Bucket>, coarse: seq<Bucket>)
    requires i <= j < |STEPS_MS|
    requires STEPS_MS[i] > 0 && STEPS_MS[j] > 0
    requires IsHistogram(records, STEPS_MS[i], fine) && IsHistogram(records, STEPS_MS[j], coarse)
    ensures forall b, t :: b in coarse ==> b.Get(t) == SumWhere(fine, x => Floor(x, STEPS_MS[j]) == b.at, t)
    ensures forall start :: HasBucket(coarse, start) <==> exists x :: x in fine && Floor(x.at, STEPS_MS[j]) == start
  {
    var a, c := STEPS_MS[i], STEPS_MS[j];
    StepsDivide(i, j);
    forall start, t ensures SumWhere(fine, x => Floor(x, c) == start, t) == CountIn(records, c, start, t) {
      BucketsConserve(records, a, fine, x => Floor(x, c) == start, t);
      CountWhereRefines(records, a, c, start, t);
    }
    forall b, t | b in coarse ensures b.Get(t) == SumWhere(fine, x => Floor(x, c) == b.at, t) {
      assert Tallies(records, c, b);
    }
    forall start ensures HasBucket(coarse, start) <==> exists x :: x in fine && Floor(x.at, c) == start {
      CoarseStart(records, a, c, fine, start);
    }
  }

  lemma CoarseStart(records: seq<Record>, a: nat, c: nat, fine: seq<Bucket>, start: int)
    requires a > 0 && c > 0 && c % a == 0 && IsHistogram(records, a, fine)
    ensures CountIn(records, c, start, All) > 0 <==> exists x :: x in fine && Floor(x.at, c) == start
  {
    if CountIn(records, c, start, All) > 0 {
      var r := CountedSomewhere(records, c, start);
      FloorOfFloor(r.at.value, a, c);
      CountInPositive(records, a, r);
      assert HasBucket(fine, Floor(r.at.value, a));
    }
    if x :| x in fine && Floor(x.at, c) == start {
      assert Tallies(records, a, x) && x.Get(All) > 0;
      var r := CountedSomewhere(records, a, x.at);
      FloorOfFloor(r.at.value, a, c);
      CountInPositive(records, c, r);
    }
  }

  // How many buckets there can be

  /** Aligned starts that ascend are at least a step apart. */
  lemma {:induction false} StartsSpread(records: seq<Record>, step: nat, out: seq<Bucket>, i: nat)
    requires step > 0 && IsHistogram(records, step, out) && i < |out|
    ensures out[0].at + i * step <= out[i].at
  {
    if i > 0 {
      StartsSpread(records, step, out, i - 1);
      BucketAligned(records, step, out[i - 1]);
      BucketAligned(records, step, out[i]);
      hide IsHistogram;
      if out[i - 1].at / step < out[i].at / step {
        ProductGap(out[i - 1].at / step, out[i].at / step, step);
      } else if out[i].at / step < out[i - 1].at / step {
        ProductGap(out[i].at / step, out[i - 1].at / step, step);
      }
      assert i * step == (i - 1) * step + step;
    }
  }

  ghost predicate Within(records: seq<Record>, from: int, to: int) {
    forall r :: r in records && r.at.Some? ==> from <= r.at.value <= to
  }

  /** Records inside a window fill no more buckets than its span holds steps, and one at either edge. */
  lemma BucketsPerSpan(records: seq<Record>, step: nat, out: seq<Bucket>, from: int, to: int)
    requires step > 0 && IsHistogram(records, step, out) && Within(records, from, to) && from <= to
    ensures (|out| - 1) * step < to - from + step
  {
    if out != [] {
      var first, last := out[0], out[|out| - 1];
      StartsSpread(records, step, out, |out| - 1);
      assert Tallies(records, step, first) && first.Get(All) > 0;
      assert Tallies(records, step, last) && last.Get(All) > 0;
      var r := CountedSomewhere(records, step, first.at);
      var q := CountedSomewhere(records, step, last.at);
      FloorBounds(r.at.value, step);
      FloorBounds(q.at.value, step);
    }
  }

  const DAY_MS := 86400000

  /** With the 60 buckets aimed for, records inside a window shorter than 360 days never fill more than 361. */
  lemma SixtyAimedFor(records: seq<Record>, out: seq<Bucket>, from: int, to: int)
    requires Bucketed(records, to - from, 60, out)
    requires Within(records, from, to) && 0 <= to - from < 360 * DAY_MS
    ensures |out| <= 361
  {
    hide Snapped, IsHistogram, Within;
    var step: nat :| Snapped(to - from, 60, step) && step > 0 && IsHistogram(records, step, out);
    BucketsPerSpan(records, step, out, from, to);
    SpanInSteps(to - from, step);
    if 360 < |out| - 1 {
      ProductGap(360, |out| - 1, step);
    }
  }

  /** Neighbouring steps are at most six times apart, so the span is less than 360 of the chosen step. */
  lemma SpanInSteps(span: int, step: nat)
    requires Snapped(span, 60, step) && 0 <= span < 360 * DAY_MS
    ensures span < 360 * step
  {
    var i :| 0 <= i < |STEPS_MS| && STEPS_MS[i] == step;
    if i < |STEPS_MS| - 1 {
      assert STEPS_MS[i + 1] in STEPS_MS;
      assert STEPS_MS[i] < STEPS_MS[i + 1] <= 6 * STEPS_MS[i];
    }
  }
}
