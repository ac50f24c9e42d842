/** Client-side bucketing of timeline records on epoch-aligned boundaries. Times are milliseconds. */
module TimeBuckets {
  import opened Option
  import opened StableSort

  const STEPS_MS: seq<nat> :=
    [1000, 5000, 10000, 30000, 60000, 300000, 600000, 1800000, 3600000, 21600000, 86400000]

  /** The time is None when its text did not parse; a missing text is empty. */
  datatype Record = Record(at: Option<int>, eventType: string, capability: string, status: string)

  datatype Bucket = Bucket(at: int, durationMs: nat, count: nat,
                           byEventType: map<string, nat>, byCapability: map<string, nat>, byStatus: map<string, nat>)
  {
    /** One of the numbers the bucket keeps. */
    function Get(t: Tally): nat {
      match t
      case All => count
      case EventType(name) => Lookup(byEventType, name)
      case Capability(name) => Lookup(byCapability, name)
      case Status(name) => Lookup(byStatus, name)
    }
  }

  datatype Tally = All | EventType(name: string) | Capability(name: string) | Status(name: string)

  function Lookup(m: map<string, nat>, k: string): nat {
    if k in m then m[k] else 0
  }

  function TypeOf(r: Record): string {
    if r.eventType != "" then r.eventType else "Unknown"
  }

  predicate Matches(r: Record, t: Tally) {
    match t
    case All => true
    case EventType(name) => TypeOf(r) == name
    case Capability(name) => r.capability == name && name != ""
    case Status(name) => r.status == name && name != ""
  }

  /** The start of the aligned interval of length `step` that holds `t`; division rounds down. */
  function Floor(t: int, step: nat): int
    requires step > 0
  {
    t / step * step
  }

  /** The chosen step: the greatest whose multiple by the target count fits the span, or the least step. */
  ghost predicate Snapped(span: int, target: nat, step: nat) {
    && step in STEPS_MS
    && (step * target <= span || step == STEPS_MS[0])
    && (forall other :: other in STEPS_MS && other * target <= span ==> other <= step)
  }

  const SECOND_MS := 1000
  const MINUTE_MS := 60000
  const HOUR_MS := 3600000

  /** What a clock displays cleanly. */
  predicate Nice(ms: int) {
    || ms in {SECOND_MS, 5 * SECOND_MS, 10 * SECOND_MS, 30 * SECOND_MS}
    || ms in {MINUTE_MS, 5 * MINUTE_MS, 10 * MINUTE_MS, 30 * MINUTE_MS}
    || ms in {HOUR_MS, 6 * HOUR_MS, 24 * HOUR_MS}
  }

  lemma StepsAreNice()
    ensures forall ms: nat :: Nice(ms) <==> ms in STEPS_MS
    ensures STEPS_MS[0] == 1000
  {
  }

  method SnapBucketSize(span: int, target: nat) returns (pick: nat)
    requires target > 0
    ensures Snapped(span, target, pick)
    ensures Nice(pick) && (pick * target <= span || pick == 1000)
    ensures forall ms: nat :: Nice(ms) && ms * target <= span ==> ms <= pick
  {
    StepsAreNice();
    hide Nice;
    pick := STEPS_MS[0];
    var i := 0;
    while i < |STEPS_MS|
      invariant 0 <= i <= |STEPS_MS|
      invariant pick in STEPS_MS && (pick * target <= span || pick == STEPS_MS[0])
      invariant forall j :: 0 <= j < i ==> STEPS_MS[j] <= pick
    {
      if STEPS_MS[i] * target <= span {
        pick := STEPS_MS[i];
      } else {
        forall j | i <= j < |STEPS_MS| ensures STEPS_MS[j] * target > span {
          StepsAscend(i, j);
          ScaleUp(STEPS_MS[i], STEPS_MS[j], target);
        }
        break;
      }
      i := i + 1;
    }
  }

  lemma StepsAscend(i: nat, j: nat)
    requires i <= j < |STEPS_MS|
    ensures 0 < STEPS_MS[i] <= STEPS_MS[j]
  {
  }

  lemma ScaleUp(a: nat, b: nat, target: nat)
    requires a <= b
    ensures a * target <= b * target
  {
  }

  // What the buckets must say about the records

  predicate Falls(r: Record, step: nat, start: int)
    requires step > 0
  {
    r.at.Some? && Floor(r.at.value, step) == start
  }

  function CountIn(records: seq<Record>, step: nat, start: int, t: Tally): nat
    requires step > 0
  {
    if records == [] then 0
    else
      var r := records[|records| - 1];
      CountIn(records[..|records| - 1], step, start, t) + if Falls(r, step, start) && Matches(r, t) then 1 else 0
  }

  /** The sum of a breakdown's values. */
  ghost function Total(m: map<string, nat>): nat {
    if m == map[] then 0
    else
      var k :| k in m;
      m[k] + Total(m - {k})
  }

  /** A breakdown never keeps a zero. */
  ghost predicate Sparse(b: Bucket) {
    && (forall k :: k in b.byEventType ==> b.byEventType[k] > 0)
    && (forall k :: k in b.byCapability ==> b.byCapability[k] > 0)
    && (forall k :: k in b.byStatus ==> b.byStatus[k] > 0)
  }

  ghost predicate Tallies(records: seq<Record>, step: nat, b: Bucket)
    requires step > 0
  {
    && b.durationMs == step
    && b.count > 0
    && Sparse(b)
    && Total(b.byEventType) == b.count
    && forall t: Tally :: b.Get(t) == CountIn(records, step, b.at, t)
  }

  ghost predicate HasBucket(buckets: seq<Bucket>, start: int) {
    exists b :: b in buckets && b.at == start
  }

  /** One bucket for every aligned interval that holds a dated record and for no other, in time order. */
  ghost predicate IsHistogram(records: seq<Record>, step: nat, out: seq<Bucket>)
    requires step > 0
  {
    && (forall i, j :: 0 <= i < j < |out| ==> out[i].at < out[j].at)
    && (forall b :: b in out ==> Tallies(records, step, b))
    && (forall start :: HasBucket(out, start) <==> CountIn(records, step, start, All) > 0)
  }

  /** The histogram for a window of that length at the step chosen for it. */
  ghost predicate Bucketed(records: seq<Record>, span: int, target: nat, out: seq<Bucket>) {
    exists step: nat :: Snapped(span, target, step) && step > 0 && IsHistogram(records, step, out)
  }

  // Counting one more record

  function Bump(m: map<string, nat>, k: string): map<string, nat> {
    m[k := Lookup(m, k) + 1]
  }

  function Fresh(start: int, step: nat): Bucket {
    Bucket(start, step, 0, map[], map[], map[])
  }

  function Count(b: Bucket, r: Record): Bucket {
    b.(count := b.count + 1,
       byEventType := Bump(b.byEventType, TypeOf(r)),
       byCapability := if r.capability != "" then Bump(b.byCapability, r.capability) else b.byCapability,
       byStatus := if r.status != "" then Bump(b.byStatus, r.status) else b.byStatus)
  }

  lemma CountGets(b: Bucket, r: Record, t: Tally)
    ensures Count(b, r).Get(t) == b.Get(t) + if Matches(r, t) then 1 else 0
  {
  }

  /** The total does not depend on the order the keys are taken in. */
  lemma {:induction false} TotalSplit(m: map<string, nat>, k: string)
    requires k in m
    ensures Total(m) == m[k] + Total(m - {k})
    decreases |m|
  {
    var first :| first in m && Total(m) == m[first] + Total(m - {first});
    if first != k {
      TotalSplit(m - {first}, k);
      var rest := m - {k};
      TotalSplit(rest, first);
      assert m - {first} - {k} == rest - {first};
    }
  }

  lemma TotalBump(m: map<string, nat>, k: string)
    ensures Total(Bump(m, k)) == Total(m) + 1
  {
    var n := Bump(m, k);
    TotalSplit(n, k);
    if k in m {
      TotalSplit(m, k);
      assert n - {k} == m - {k};
    } else {
      assert n - {k} == m;
    }
  }

  lemma {:induction false} CountInMonotone(records: seq<Record>, step: nat, start: int, t: Tally)
    requires step > 0
    ensures CountIn(records, step, start, t) <= CountIn(records, step, start, All)
  {
    if records != [] {
      CountInMonotone(records[..|records| - 1], step, start, t);
    }
  }

  lemma TalliesStep(records: seq<Record>, step: nat, b: Bucket, r: Record)
    requires step > 0 && Tallies(records, step, b)
    ensures Tallies(records + [r], step, if Falls(r, step, b.at) then Count(b, r) else b)
  {
    var next := if Falls(r, step, b.at) then Count(b, r) else b;
    assert (records + [r])[..|records|] == records;
    forall t: Tally ensures next.Get(t) == CountIn(records + [r], step, b.at, t) {
      CountGets(b, r, t);
    }
    TotalBump(b.byEventType, TypeOf(r));
  }

  lemma TalliesFirst(records: seq<Record>, step: nat, start: int, r: Record)
    requires step > 0 && CountIn(records, step, start, All) == 0 && Falls(r, step, start)
    ensures Tallies(records + [r], step, Count(Fresh(start, step), r))
  {
    var b := Fresh(start, step);
    var next := Count(b, r);
    assert (records + [r])[..|records|] == records;
    forall t: Tally ensures next.Get(t) == CountIn(records + [r], step, start, t) {
      CountGets(b, r, t);
      CountInMonotone(records, step, start, t);
    }
    TotalBump(b.byEventType, TypeOf(r));
  }

  /** The buckets gathered so far, by start, and their starts as they were first met. */
  ghost predicate Gathered(records: seq<Record>, step: nat, buckets: map<int, Bucket>, order: seq<int>)
    requires step > 0
  {
    && (forall i, j :: 0 <= i < j < |order| ==> order[i] != order[j])
    && (forall start :: start in order <==> start in buckets)
    && (forall start :: start in buckets <==> CountIn(records, step, start, All) > 0)
    && (forall start :: start in buckets ==> buckets[start].at == start && Tallies(records, step, buckets[start]))
  }

  lemma GatheredNone(step: nat)
    requires step > 0
    ensures Gathered([], step, map[], [])
  {
  }

  lemma GatheredStep(records: seq<Record>, step: nat, buckets: map<int, Bucket>, order: seq<int>, r: Record)
    requires step > 0 && Gathered(records, step, buckets, order)
    ensures r.at.None? ==> Gathered(records + [r], step, buckets, order)
    ensures r.at.Some? ==>
              var start := Floor(r.at.value, step);
              var known := start in buckets;
              Gathered(records + [r], step,
                       buckets[start := Count(if known then buckets[start] else Fresh(start, step), r)],
                       if known then order else order + [start])
  {
    hide Tallies, Floor;
    assert (records + [r])[..|records|] == records;
    forall start | start in buckets {
      TalliesStep(records, step, buckets[start], r);
    }
    if r.at.Some? && Floor(r.at.value, step) !in buckets {
      TalliesFirst(records, step, Floor(r.at.value, step), r);
    }
  }

  method ClientBucket(records: seq<Record>, fromMs: int, toMs: int, target: nat) returns (out: seq<Bucket>)
    requires target > 0
    ensures Bucketed(records, toMs - fromMs, target, out)
  {
    hide Tallies, Snapped, Nice, Floor, IsListing, IsHistogram, SortBy, Count, Fresh, CountIn;
    var bucketMs := SnapBucketSize(toMs - fromMs, target);
    SnappedPositive(toMs - fromMs, target, bucketMs);
    var buckets: map<int, Bucket> := map[];
    var order: seq<int> := [];
    GatheredNone(bucketMs);
    assert records[..0] == [];
    for i := 0 to |records|
      invariant Gathered(records[..i], bucketMs, buckets, order)
    {
      var r := records[i];
      GatheredStep(records[..i], bucketMs, buckets, order, r);
      assert records[..i + 1] == records[..i] + [r];
      if r.at.None? {
        continue;
      }
      var start := Floor(r.at.value, bucketMs);
      if start !in buckets {
        buckets := buckets[start := Fresh(start, bucketMs)];
        order := order + [start];
      }
      buckets := buckets[start := Count(buckets[start], r)];
    }
    assert records[..|records|] == records;
    assert forall i :: 0 <= i < |order| ==> order[i] in order;
    var listed := seq(|order|, i requires 0 <= i < |order| && order[i] in buckets => buckets[order[i]]);
    GatheredIsListing(records, bucketMs, buckets, order, listed);
    var key := (b: Bucket) => b.at;
    SortedIsHistogram(records, bucketMs, listed, key);
    out := SortBy(key, listed);
  }

  lemma SnappedPositive(span: int, target: nat, step: nat)
    requires Snapped(span, target, step)
    ensures step > 0
  {
    var i :| 0 <= i < |STEPS_MS| && STEPS_MS[i] == step;
    StepsAscend(i, i);
  }

  /** A histogram but for its order. */
  ghost predicate IsListing(records: seq<Record>, step: nat, listed: seq<Bucket>)
    requires step > 0
  {
    && (forall i, j :: 0 <= i < j < |listed| ==> listed[i].at != listed[j].at)
    && (forall b :: b in listed ==> Tallies(records, step, b))
    && (forall start :: HasBucket(listed, start) <==> CountIn(records, step, start, All) > 0)
  }

  lemma GatheredIsListing(records: seq<Record>, step: nat, buckets: map<int, Bucket>, order: seq<int>, listed: seq<Bucket>)
    requires step > 0 && Gathered(records, step, buckets, order)
    requires |listed| == |order| && forall i :: 0 <= i < |order| ==> order[i] in buckets && listed[i] == buckets[order[i]]
    ensures IsListing(records, step, listed)
  {
    hide Tallies, CountIn;
    forall b | b in listed ensures Tallies(records, step, b) && b.at in buckets {
      var i :| 0 <= i < |listed| && listed[i] == b;
    }
    forall start ensures HasBucket(listed, start) <==> start in buckets {
      if start in buckets {
        var i :| 0 <= i < |order| && order[i] == start;
        assert listed[i] in listed;
      }
    }
  }

  lemma SortedIsHistogram(records: seq<Record>, step: nat, listed: seq<Bucket>, key: Bucket -> int)
    requires step > 0 && IsListing(records, step, listed)
    requires forall b :: key(b) == b.at
    ensures IsHistogram(records, step, SortBy(key, listed))
  {
    hide Tallies, CountIn, SortBy;
    var out := SortBy(key, listed);
    SortBySorts(key, (a: Bucket, b: Bucket) => a.at != b.at, listed);
    forall i, j | 0 <= i < j < |out| ensures out[i].at < out[j].at {
      assert key(out[i]) <= key(out[j]);
    }
    forall start ensures HasBucket(out, start) <==> HasBucket(listed, start) {}
  }
}
