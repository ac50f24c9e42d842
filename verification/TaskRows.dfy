/** Folding a run's event records into one waterfall row per work item. */
module TaskRows {
  import opened Option
  import opened StableSort

  /** An event of the run; times are milliseconds, None when the text did not parse, and a
      missing text field is the empty string. */
  datatype Record = Record(workItemHash: string, nodeHash: string, at: Option<int>, endAt: Option<int>,
                           status: string, capability: string, beaconId: string)
  {
    /** Run-wide envelopes carry no work item, and a record needs a start time to be placed. */
    predicate Usable() {
      workItemHash != "" && at.Some?
    }

    function Stamp(): Stamped
      requires Usable()
    {
      Stamped(at.value, if endAt.Some? then endAt.value else at.value, this)
    }

    function Text(field: Field): string {
      match field
      case Status => status
      case Capability => capability
      case BeaconId => beaconId
    }
  }

  /** A usable record with its times resolved. */
  datatype Stamped = Stamped(at: int, endAt: int, record: Record)

  datatype Field = Status | Capability | BeaconId

  datatype Row = Row(workItemHash: string, nodeHash: string, capability: string, beaconId: string, status: string,
                     at: int, endAt: int, lastRecord: Record, lastAt: int)
  {
    function DurationMs(): int {
      endAt - at
    }
  }

  /** Position of the first "::" at or after `from`, if there is one. */
  function FindSeparator(s: string, from: nat): (r: Option<nat>)
    requires from <= |s|
    ensures r.Some? ==> from <= r.value <= |s| - 2 && s[r.value] == ':' && s[r.value + 1] == ':'
    ensures r.Some? ==> forall i :: from <= i < r.value ==> s[i] != ':' || s[i + 1] != ':'
    ensures r.None? ==> forall i :: from <= i < |s| - 1 ==> s[i] != ':' || s[i + 1] != ':'
    decreases |s| - from
  {
    if from + 2 > |s| then None
    else if s[from] == ':' && s[from + 1] == ':' then Some(from)
    else FindSeparator(s, from + 1)
  }

  function NodeHashOf(r: Record): string {
    if r.nodeHash != "" then r.nodeHash
    else
      match FindSeparator(r.workItemHash, 0)
      case Some(i) => r.workItemHash[i + 2..]
      case None => r.workItemHash
  }

  /** The usable records of one work item, in arrival order. */
  function GroupOf(records: seq<Record>, h: string): seq<Stamped> {
    if records == [] then []
    else
      var g, r := GroupOf(records[..|records| - 1], h), records[|records| - 1];
      if r.Usable() && r.workItemHash == h then g + [r.Stamp()] else g
  }

  /** The work items that have a usable record, in the order they first appear. */
  function WorkItems(records: seq<Record>): (items: seq<string>)
    ensures forall i, j :: 0 <= i < j < |items| ==> items[i] != items[j]
  {
    if records == [] then []
    else
      var items, r := WorkItems(records[..|records| - 1]), records[|records| - 1];
      if r.Usable() && r.workItemHash !in items then items + [r.workItemHash] else items
  }

  lemma {:induction false} WorkItemsHaveRecords(records: seq<Record>, h: string)
    ensures h in WorkItems(records) <==> GroupOf(records, h) != []
  {
    if records != [] {
      WorkItemsHaveRecords(records[..|records| - 1], h);
    }
  }

  lemma {:induction false} GroupMembers(records: seq<Record>, h: string, x: Stamped)
    ensures x in GroupOf(records, h) <==>
            x.record in records && x.record.Usable() && x.record.workItemHash == h && x == x.record.Stamp()
  {
    if records != [] {
      var init := records[..|records| - 1];
      GroupMembers(init, h, x);
      assert records == init + [records[|records| - 1]];
    }
  }

  // What a row must say about its group, stated without folding over it

  /** The times reach exactly from the earliest start to the latest end. */
  ghost predicate Spans(g: seq<Stamped>, at: int, endAt: int) {
    && (exists x :: x in g && x.at == at)
    && (exists x :: x in g && x.endAt == endAt)
    && (forall x :: x in g ==> at <= x.at && x.endAt <= endAt)
  }

  /** Record `i` is no older than any record that arrived before it. */
  ghost predicate Fresh(g: seq<Stamped>, i: int) {
    0 <= i < |g| && forall j :: 0 <= j < i ==> g[j].at <= g[i].at
  }

  ghost predicate LastTextAt(g: seq<Stamped>, field: Field, i: int) {
    Fresh(g, i) && forall j :: i < j && Fresh(g, j) ==> g[j].record.Text(field) == ""
  }

  /** `v` is the last non-empty text among the fresh records, or empty if they have none. */
  ghost predicate LatestText(g: seq<Stamped>, field: Field, v: string) {
    if v == "" then
      forall i :: Fresh(g, i) ==> g[i].record.Text(field) == ""
    else
      exists i :: LastTextAt(g, field, i) && g[i].record.Text(field) == v
  }

  ghost predicate LastFresh(g: seq<Stamped>, i: int) {
    Fresh(g, i) && forall j :: Fresh(g, j) ==> j <= i
  }

  /** `last` is the last fresh record, and so the last of those that start latest. */
  ghost predicate LatestRecord(g: seq<Stamped>, last: Record, lastAt: int) {
    && (exists i :: LastFresh(g, i) && last == g[i].record && lastAt == g[i].at)
    && (forall x :: x in g ==> x.at <= lastAt)
  }

  ghost predicate Describes(g: seq<Stamped>, row: Row) {
    && g != []
    && row.nodeHash == NodeHashOf(g[0].record)
    && Spans(g, row.at, row.endAt)
    && LatestRecord(g, row.lastRecord, row.lastAt)
    && LatestText(g, Status, row.status)
    && LatestText(g, Capability, row.capability)
    && LatestText(g, BeaconId, row.beaconId)
  }

  // The fold, one record at a time

  function Begin(x: Stamped): Row {
    var r := x.record;
    Row(r.workItemHash, NodeHashOf(r), r.capability, r.beaconId, "", x.at, x.endAt, r, x.at)
  }

  function Widen(row: Row, x: Stamped): Row {
    row.(at := if x.at < row.at then x.at else row.at,
         endAt := if x.endAt > row.endAt then x.endAt else row.endAt)
  }

  function Freshen(row: Row, x: Stamped): Row {
    if x.at < row.lastAt then row
    else
      var r := x.record;
      row.(lastAt := x.at,
           lastRecord := r,
           status := if r.status != "" then r.status else row.status,
           capability := if r.capability != "" then r.capability else row.capability,
           beaconId := if r.beaconId != "" then r.beaconId else row.beaconId)
  }

  lemma BeginDescribes(x: Stamped)
    ensures Describes([x], Freshen(Begin(x), x))
  {
    var g, row := [x], Freshen(Begin(x), x);
    assert LastFresh(g, 0) && g[0] == x;
    assert LastTextAt(g, Status, 0) && LastTextAt(g, Capability, 0) && LastTextAt(g, BeaconId, 0);
  }

  lemma SpansStep(g: seq<Stamped>, x: Stamped, at: int, endAt: int)
    requires Spans(g, at, endAt)
    ensures Spans(g + [x], if x.at < at then x.at else at, if x.endAt > endAt then x.endAt else endAt)
  {
    var first :| first in g && first.at == at;
    var last :| last in g && last.endAt == endAt;
    assert first in g + [x] && last in g + [x] && x in g + [x];
  }

  lemma FreshStep(g: seq<Stamped>, x: Stamped)
    ensures forall i :: i < |g| ==> (Fresh(g + [x], i) <==> Fresh(g, i))
    ensures Fresh(g + [x], |g|) <==> forall y :: y in g ==> y.at <= x.at
  {
    var h := g + [x];
    if Fresh(h, |g|) {
      forall y | y in g ensures y.at <= x.at {
        var j :| 0 <= j < |g| && g[j] == y;
        assert h[j].at <= h[|g|].at;
      }
    }
    forall i | 0 <= i < |g| ensures Fresh(h, i) <==> Fresh(g, i) {
      assert forall j :: 0 <= j <= i ==> h[j] == g[j];
    }
  }

  lemma TextStep(g: seq<Stamped>, x: Stamped, field: Field, v: string)
    requires LatestText(g, field, v)
    ensures LatestText(g + [x], field,
                       if Fresh(g + [x], |g|) && x.record.Text(field) != "" then x.record.Text(field) else v)
  {
    var h := g + [x];
    FreshStep(g, x);
    if Fresh(h, |g|) && x.record.Text(field) != "" {
      assert LastTextAt(h, field, |g|);
    } else if v != "" {
      var i :| LastTextAt(g, field, i) && g[i].record.Text(field) == v;
      forall j | i < j && Fresh(h, j) ensures h[j].record.Text(field) == "" {
        assert j == |g| || Fresh(g, j);
      }
      assert LastTextAt(h, field, i) && h[i].record.Text(field) == v;
    } else {
      forall j | Fresh(h, j) ensures h[j].record.Text(field) == "" {
        assert j == |g| || Fresh(g, j);
      }
    }
  }

  /** A new record is fresh exactly when it starts no earlier than the freshest so far. */
  lemma RecordStep(g: seq<Stamped>, x: Stamped, last: Record, lastAt: int)
    requires LatestRecord(g, last, lastAt)
    ensures Fresh(g + [x], |g|) <==> lastAt <= x.at
    ensures if lastAt <= x.at then LatestRecord(g + [x], x.record, x.at) else LatestRecord(g + [x], last, lastAt)
  {
    var h := g + [x];
    FreshStep(g, x);
    var i :| LastFresh(g, i) && last == g[i].record && lastAt == g[i].at;
    assert g[i] in g;
    assert Fresh(h, i) && h[i] == g[i];
    assert LastFresh(h, if Fresh(h, |g|) then |g| else i);
  }

  lemma DescribesStep(g: seq<Stamped>, x: Stamped, row: Row)
    requires Describes(g, row)
    ensures Describes(g + [x], Freshen(Widen(row, x), x))
  {
    SpansStep(g, x, row.at, row.endAt);
    RecordStep(g, x, row.lastRecord, row.lastAt);
    TextStep(g, x, Status, row.status);
    TextStep(g, x, Capability, row.capability);
    TextStep(g, x, BeaconId, row.beaconId);
  }

  /** A complete table: one row per work item that has a usable record, ascending by start, and rows
      that start together stay in the order their work items first appeared. */
  ghost predicate IsTable(records: seq<Record>, rows: seq<Row>) {
    && (forall i, j :: 0 <= i < j < |rows| ==> rows[i].at <= rows[j].at && rows[i].workItemHash != rows[j].workItemHash)
    && (forall row :: row in rows ==> Describes(GroupOf(records, row.workItemHash), row))
    && (forall h :: h in WorkItems(records) <==> HasRow(rows, h))
    && (forall i, j :: 0 <= i < j < |rows| && rows[i].at == rows[j].at ==> AppearsFirst(records, rows[i], rows[j]))
  }

  ghost predicate HasRow(rows: seq<Row>, h: string) {
    exists row :: row in rows && row.workItemHash == h
  }

  ghost predicate AppearsFirst(records: seq<Record>, a: Row, b: Row) {
    var items := WorkItems(records);
    exists i, j :: 0 <= i < j < |items| && items[i] == a.workItemHash && items[j] == b.workItemHash
  }

  /** `listed` holds the finished row of every work item, in order of first appearance. */
  ghost predicate IsListing(records: seq<Record>, listed: seq<Row>) {
    && |listed| == |WorkItems(records)|
    && (forall i :: 0 <= i < |listed| ==> listed[i].workItemHash == WorkItems(records)[i])
    && (forall row :: row in listed ==> Describes(GroupOf(records, row.workItemHash), row))
  }

  lemma AppearsFirstDistinct(records: seq<Record>, a: Row, b: Row)
    requires AppearsFirst(records, a, b)
    ensures a.workItemHash != b.workItemHash
  {
  }

  lemma ListingInOrder(records: seq<Record>, listed: seq<Row>, i: nat, j: nat)
    requires IsListing(records, listed) && i < j < |listed|
    ensures AppearsFirst(records, listed[i], listed[j])
  {
    hide Describes;
    var items := WorkItems(records);
    assert items[i] == listed[i].workItemHash && items[j] == listed[j].workItemHash;
  }

  /** A listing has exactly one row per work item. */
  lemma ListingHasRows(records: seq<Record>, listed: seq<Row>, h: string)
    requires IsListing(records, listed)
    ensures h in WorkItems(records) <==> HasRow(listed, h)
  {
    hide Describes;
    var items := WorkItems(records);
    if h in items {
      var k :| 0 <= k < |items| && items[k] == h;
      assert listed[k] in listed;
    }
    if HasRow(listed, h) {
      var row :| row in listed && row.workItemHash == h;
      var k :| 0 <= k < |listed| && listed[k] == row;
      assert items[k] in items;
    }
  }

  /** Equal rows cannot meet in the sorted listing: no work item appears before itself. */
  lemma SortedListingIsTable(records: seq<Record>, listed: seq<Row>, key: Row -> int)
    requires IsListing(records, listed) && forall row :: key(row) == row.at
    ensures IsTable(records, SortBy(key, listed))
  {
    hide Describes, AppearsFirst, SortBy, GroupOf, WorkItems;
    ghost var before := (a: Row, b: Row) => AppearsFirst(records, a, b);
    forall i, j | 0 <= i < j < |listed| ensures before(listed[i], listed[j]) {
      ListingInOrder(records, listed, i, j);
    }
    SortBySorts(key, before, listed);
    var rows := SortBy(key, listed);
    forall i, j | 0 <= i < j < |rows|
      ensures rows[i].at <= rows[j].at && rows[i].workItemHash != rows[j].workItemHash
      ensures rows[i].at == rows[j].at ==> AppearsFirst(records, rows[i], rows[j])
    {
      assert key(rows[i]) <= key(rows[j]);
      assert rows[i] in listed && rows[j] in listed;
      if rows[i].at == rows[j].at {
        assert before(rows[i], rows[j]);
        AppearsFirstDistinct(records, rows[i], rows[j]);
      } else {
        SameHashSameRow(records, listed, rows[i], rows[j]);
      }
    }
    forall h ensures h in WorkItems(records) <==> HasRow(rows, h) {
      ListingHasRows(records, listed, h);
      assert HasRow(rows, h) <==> HasRow(listed, h);
    }
  }

  lemma SameHashSameRow(records: seq<Record>, listed: seq<Row>, a: Row, b: Row)
    requires IsListing(records, listed) && a in listed && b in listed
    ensures a.workItemHash == b.workItemHash ==> a == b
  {
    hide Describes;
    var i :| 0 <= i < |listed| && listed[i] == a;
    var j :| 0 <= j < |listed| && listed[j] == b;
    var items := WorkItems(records);
    assert items[i] == a.workItemHash && items[j] == b.workItemHash;
  }

  /** The rows gathered so far: `groups` by work item, `order` as they were first met. */
  ghost predicate Gathered(records: seq<Record>, groups: map<string, Row>, order: seq<string>) {
    && order == WorkItems(records)
    && (forall h :: h in groups <==> h in order)
    && (forall h :: h in groups ==> groups[h].workItemHash == h && Describes(GroupOf(records, h), groups[h]))
  }

  lemma GatheredNone()
    ensures Gathered([], map[], [])
  {
  }

  /** One more record joins the group of its own work item and no other. */
  lemma GroupStep(records: seq<Record>, r: Record, h: string)
    ensures GroupOf(records + [r], h) ==
            if r.Usable() && r.workItemHash == h then GroupOf(records, h) + [r.Stamp()] else GroupOf(records, h)
  {
    assert (records + [r])[..|records|] == records;
  }

  lemma WorkItemsStep(records: seq<Record>, r: Record)
    ensures WorkItems(records + [r]) ==
            if r.Usable() && r.workItemHash !in WorkItems(records) then WorkItems(records) + [r.workItemHash]
            else WorkItems(records)
  {
    assert (records + [r])[..|records|] == records;
  }

  lemma GatheredSkip(records: seq<Record>, r: Record, groups: map<string, Row>, order: seq<string>)
    requires Gathered(records, groups, order) && !r.Usable()
    ensures Gathered(records + [r], groups, order)
  {
    hide Describes, GroupOf, WorkItems;
    WorkItemsStep(records, r);
    forall h | h in groups ensures Describes(GroupOf(records + [r], h), groups[h]) {
      GroupStep(records, r, h);
    }
  }

  /** Storing the finished row of the newest record's work item. */
  lemma GatheredPut(records: seq<Record>, r: Record, groups: map<string, Row>, order: seq<string>, row: Row)
    requires Gathered(records, groups, order) && r.Usable() && row.workItemHash == r.workItemHash
    requires Describes(GroupOf(records, r.workItemHash) + [r.Stamp()], row)
    ensures Gathered(records + [r], groups[r.workItemHash := row],
                     if r.workItemHash in groups then order else order + [r.workItemHash])
  {
    hide Describes, GroupOf, WorkItems;
    var put := groups[r.workItemHash := row];
    WorkItemsStep(records, r);
    forall h | h in put ensures put[h].workItemHash == h && Describes(GroupOf(records + [r], h), put[h]) {
      GroupStep(records, r, h);
      if h != r.workItemHash {
        assert h in groups;
      }
    }
  }

  lemma GatheredNew(records: seq<Record>, r: Record, groups: map<string, Row>, order: seq<string>)
    requires Gathered(records, groups, order) && r.Usable() && r.workItemHash !in groups
    ensures Gathered(records + [r], groups[r.workItemHash := Freshen(Begin(r.Stamp()), r.Stamp())], order + [r.workItemHash])
  {
    hide Describes, GroupOf, WorkItems, Freshen, Begin;
    WorkItemsHaveRecords(records, r.workItemHash);
    BeginDescribes(r.Stamp());
    assert GroupOf(records, r.workItemHash) + [r.Stamp()] == [r.Stamp()];
    FoldKeepsHash(Begin(r.Stamp()), r.Stamp());
    GatheredPut(records, r, groups, order, Freshen(Begin(r.Stamp()), r.Stamp()));
  }

  lemma GatheredKnown(records: seq<Record>, r: Record, groups: map<string, Row>, order: seq<string>)
    requires Gathered(records, groups, order) && r.Usable() && r.workItemHash in groups
    ensures Gathered(records + [r], groups[r.workItemHash := Freshen(Widen(groups[r.workItemHash], r.Stamp()), r.Stamp())], order)
  {
    hide Describes, GroupOf, WorkItems, Freshen, Widen;
    var row := groups[r.workItemHash];
    DescribesStep(GroupOf(records, r.workItemHash), r.Stamp(), row);
    FoldKeepsHash(row, r.Stamp());
    FoldKeepsHash(Widen(row, r.Stamp()), r.Stamp());
    GatheredPut(records, r, groups, order, Freshen(Widen(row, r.Stamp()), r.Stamp()));
  }

  lemma FoldKeepsHash(row: Row, x: Stamped)
    ensures Begin(x).workItemHash == x.record.workItemHash
    ensures Widen(row, x).workItemHash == row.workItemHash
    ensures Freshen(row, x).workItemHash == row.workItemHash
  {
  }

  lemma GatheredIsListing(records: seq<Record>, groups: map<string, Row>, order: seq<string>, listed: seq<Row>)
    requires Gathered(records, groups, order)
    requires |listed| == |order| && forall i :: 0 <= i < |order| ==> order[i] in groups && listed[i] == groups[order[i]]
    ensures IsListing(records, listed)
  {
    hide Describes, GroupOf;
    forall row | row in listed ensures Describes(GroupOf(records, row.workItemHash), row) {
      var i :| 0 <= i < |listed| && listed[i] == row;
    }
  }

  lemma GatheredKeys(records: seq<Record>, groups: map<string, Row>, order: seq<string>)
    requires Gathered(records, groups, order)
    ensures forall i :: 0 <= i < |order| ==> order[i] in groups
  {
    hide Describes;
  }

  method BuildTaskRows(records: seq<Record>) returns (rows: seq<Row>)
    ensures IsTable(records, rows)
  {
    hide Gathered, IsListing, IsTable, SortBy, Freshen, Widen, Begin;
    var groups: map<string, Row> := map[];
    var order: seq<string> := [];
    GatheredNone();
    assert records[..0] == [];
    for i := 0 to |records|
      invariant Gathered(records[..i], groups, order)
    {
      var r := records[i];
      assert records[..i + 1] == records[..i] + [r];
      if !r.Usable() {
        GatheredSkip(records[..i], r, groups, order);
        continue;
      }
      var h, x := r.workItemHash, r.Stamp();
      ghost var known := groups;
      if h !in groups {
        GatheredNew(records[..i], r, groups, order);
        groups := groups[h := Begin(x)];
        order := order + [h];
      } else {
        GatheredKnown(records[..i], r, groups, order);
        groups := groups[h := Widen(groups[h], x)];
      }
      groups := groups[h := Freshen(groups[h], x)];
      assert groups == known[h := groups[h]];
    }
    assert records[..|records|] == records;
    GatheredKeys(records, groups, order);
    var listed := seq(|order|, i requires 0 <= i < |order| && order[i] in groups => groups[order[i]]);
    GatheredIsListing(records, groups, order, listed);
    var key := (row: Row) => row.at;
    SortedListingIsTable(records, listed, key);
    rows := SortBy(key, listed);
  }
}
