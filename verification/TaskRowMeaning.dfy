/** What the rows of a table say, in terms of the records' own fields. */
module TaskRowMeaning {
  import opened Option
  import opened TaskRows
  import opened TaskRowLaws

  /** Record `i` belongs to the work item and can be placed in time. */
  ghost predicate Counts(records: seq<Record>, h: string, i: int) {
    0 <= i < |records| && h != "" && records[i].workItemHash == h && records[i].at.Some?
  }

  ghost predicate StartsAt(records: seq<Record>, h: string, i: int, t: int) {
    Counts(records, h, i) && records[i].at.value == t
  }

  /** A record ends when it starts if nothing else is said. */
  ghost predicate EndsAt(records: seq<Record>, h: string, i: int, e: int) {
    Counts(records, h, i) && e == if records[i].endAt.Some? then records[i].endAt.value else records[i].at.value
  }

  /** `d` is the longest time from the start of one record of the work item to the end of another. */
  ghost predicate IsExtent(records: seq<Record>, h: string, d: int) {
    && (exists i, j, t, e :: StartsAt(records, h, i, t) && EndsAt(records, h, j, e) && d == e - t)
    && (forall i, j, t, e :: StartsAt(records, h, i, t) && EndsAt(records, h, j, e) ==> e - t <= d)
  }

  /** Where the records of a group stand, in arrival order. */
  ghost predicate StandsAt(records: seq<Record>, h: string, g: seq<Stamped>, at: seq<int>) {
    && |at| == |g|
    && (forall a, b :: 0 <= a < b < |at| ==> at[a] < at[b])
    && (forall a :: 0 <= a < |at| ==> IsStamp(records, h, at[a], g[a]))
    && (forall i :: Counts(records, h, i) ==> i in at)
  }

  ghost predicate IsStamp(records: seq<Record>, h: string, i: int, x: Stamped) {
    StartsAt(records, h, i, x.at) && EndsAt(records, h, i, x.endAt) && x.record == records[i]
  }

  lemma {:induction false} GroupStands(records: seq<Record>, h: string) returns (at: seq<int>)
    ensures StandsAt(records, h, GroupOf(records, h), at)
  {
    if records == [] {
      at := [];
    } else {
      var init, r := records[..|records| - 1], records[|records| - 1];
      var before := GroupStands(init, h);
      assert records == init + [r];
      at := before;
      if r.Usable() && r.workItemHash == h {
        at := before + [|init|];
        Joins(init, r, h, GroupOf(init, h), before);
      } else {
        Skips(init, r, h, GroupOf(init, h), before);
      }
    }
  }

  lemma Joins(init: seq<Record>, r: Record, h: string, g: seq<Stamped>, at: seq<int>)
    requires StandsAt(init, h, g, at) && r.Usable() && r.workItemHash == h
    ensures StandsAt(init + [r], h, g + [r.Stamp()], at + [|init|])
  {
    var records, longer := init + [r], at + [|init|];
    forall i | Counts(records, h, i) ensures i in longer {
      if i < |init| {
        assert Counts(init, h, i);
      } else {
        assert longer[|at|] == i;
      }
    }
  }

  lemma Skips(init: seq<Record>, r: Record, h: string, g: seq<Stamped>, at: seq<int>)
    requires StandsAt(init, h, g, at) && !(r.Usable() && r.workItemHash == h)
    ensures StandsAt(init + [r], h, g, at)
  {
    forall i | Counts(init + [r], h, i) ensures i in at {
      assert Counts(init, h, i);
    }
  }

  /** A work item has a row if and only if it has a record that can be placed. */
  lemma RowExists(records: seq<Record>, rows: seq<Row>, h: string)
    requires IsTable(records, rows)
    ensures (exists row :: row in rows && row.workItemHash == h) <==> exists i :: Counts(records, h, i)
  {
    hide Describes, AppearsFirst;
    WorkItemsHaveRecords(records, h);
    var at := GroupStands(records, h);
    assert h in WorkItems(records) <==> HasRow(rows, h);
    if i :| Counts(records, h, i) {
      assert i in at;
    }
    if GroupOf(records, h) != [] {
      assert Counts(records, h, at[0]);
    }
  }

  lemma Standing(records: seq<Record>, h: string, g: seq<Stamped>, at: seq<int>, i: int) returns (a: int)
    requires StandsAt(records, h, g, at) && Counts(records, h, i)
    ensures 0 <= a < |g| && at[a] == i && IsStamp(records, h, i, g[a])
  {
    a :| 0 <= a < |at| && at[a] == i;
  }

  /** A row starts with the earliest of its work item's records. */
  lemma RowStart(records: seq<Record>, rows: seq<Row>, row: Row)
    requires IsTable(records, rows) && row in rows
    ensures exists i :: StartsAt(records, row.workItemHash, i, row.at)
    ensures forall i, t :: StartsAt(records, row.workItemHash, i, t) ==> row.at <= t
  {
    var h, g := row.workItemHash, GroupOf(records, row.workItemHash);
    var at := GroupStands(records, h);
    assert Spans(g, row.at, row.endAt) by { TableDescribes(records, rows, row); }
    hide IsTable, GroupOf, StandsAt;
    var x :| x in g && x.at == row.at;
    var a :| 0 <= a < |g| && g[a] == x;
    Stands(records, h, g, at, a);
    assert StartsAt(records, h, at[a], row.at);
    forall i, t | StartsAt(records, h, i, t) ensures row.at <= t {
      var b := Standing(records, h, g, at, i);
      assert g[b] in g;
    }
  }

  lemma Stands(records: seq<Record>, h: string, g: seq<Stamped>, at: seq<int>, a: int)
    requires StandsAt(records, h, g, at) && 0 <= a < |g|
    ensures |at| == |g| && IsStamp(records, h, at[a], g[a])
  {
  }

  /** It ends with the latest of their ends. */
  lemma RowEnd(records: seq<Record>, rows: seq<Row>, row: Row)
    requires IsTable(records, rows) && row in rows
    ensures exists i :: EndsAt(records, row.workItemHash, i, row.endAt)
    ensures forall i, e :: EndsAt(records, row.workItemHash, i, e) ==> e <= row.endAt
  {
    var h, g := row.workItemHash, GroupOf(records, row.workItemHash);
    var at := GroupStands(records, h);
    assert Spans(g, row.at, row.endAt) by { TableDescribes(records, rows, row); }
    hide IsTable, GroupOf, StandsAt;
    var x :| x in g && x.endAt == row.endAt;
    var a :| 0 <= a < |g| && g[a] == x;
    Stands(records, h, g, at, a);
    assert EndsAt(records, h, at[a], row.endAt);
    forall i, e | EndsAt(records, h, i, e) ensures e <= row.endAt {
      var b := Standing(records, h, g, at, i);
      assert g[b] in g;
    }
  }

  /** And it lasts as long as any start and any end among them are apart. */
  lemma RowDuration(records: seq<Record>, rows: seq<Row>, row: Row)
    requires IsTable(records, rows) && row in rows
    ensures IsExtent(records, row.workItemHash, row.DurationMs())
  {
    RowStart(records, rows, row);
    RowEnd(records, rows, row);
    hide IsTable, StartsAt, EndsAt;
    var i :| StartsAt(records, row.workItemHash, i, row.at);
    var j :| EndsAt(records, row.workItemHash, j, row.endAt);
    assert row.DurationMs() == row.endAt - row.at;
  }

  // Node hashes

  ghost predicate SeparatorAt(s: string, i: int) {
    0 <= i < |s| - 1 && s[i] == ':' && s[i + 1] == ':'
  }

  ghost predicate FirstRecord(records: seq<Record>, h: string, i: int) {
    Counts(records, h, i) && forall j :: Counts(records, h, j) ==> i <= j
  }

  /** The node is the one the record names, otherwise what follows the first "::" of the work item's hash, and
      otherwise that hash. */
  ghost predicate NamesNode(r: Record, node: string) {
    && (r.nodeHash != "" ==> node == r.nodeHash)
    && (forall i :: r.nodeHash == "" && SeparatorAt(r.workItemHash, i) && (forall j :: j < i ==> !SeparatorAt(r.workItemHash, j))
                    ==> r.workItemHash == r.workItemHash[..i] + "::" + node)
    && (r.nodeHash == "" && (forall i :: !SeparatorAt(r.workItemHash, i)) ==> node == r.workItemHash)
  }

  lemma NodeHashIs(r: Record)
    ensures NamesNode(r, NodeHashOf(r))
  {
    var h := r.workItemHash;
    var found := FindSeparator(h, 0);
    if found.Some? {
      assert SeparatorAt(h, found.value);
      forall j | j < found.value ensures !SeparatorAt(h, j) {}
      assert h == h[..found.value] + "::" + h[found.value + 2..];
    } else {
      forall j ensures !SeparatorAt(h, j) {}
    }
  }

  /** A row's node is what the first record of its work item says. */
  lemma RowNode(records: seq<Record>, rows: seq<Row>, row: Row, i: int)
    requires IsTable(records, rows) && row in rows && FirstRecord(records, row.workItemHash, i)
    ensures NamesNode(records[i], row.nodeHash)
  {
    var h, g := row.workItemHash, GroupOf(records, row.workItemHash);
    assert g != [] && row.nodeHash == NodeHashOf(g[0].record) by { TableDescribes(records, rows, row); }
    var at := GroupStands(records, h);
    Stands(records, h, g, at, 0);
    var a := Standing(records, h, g, at, i);
    NodeHashIs(records[i]);
  }

  // Texts and the last record

  /** Record `i` is no older than any of the work item's records that arrived before it. */
  ghost predicate NotStale(records: seq<Record>, h: string, i: int) {
    Counts(records, h, i) && forall j, t :: j < i && StartsAt(records, h, j, t) ==> t <= records[i].at.value
  }

  ghost predicate GivesAt(records: seq<Record>, h: string, i: int, text: Record -> string, v: string) {
    NotStale(records, h, i) && text(records[i]) == v
  }

  /** `v` is the last text that a record which is not stale gives, or empty if none gives any. */
  ghost predicate IsLatest(records: seq<Record>, h: string, text: Record -> string, v: string) {
    if v == "" then forall i, w :: GivesAt(records, h, i, text, w) ==> w == ""
    else
      exists i :: GivesAt(records, h, i, text, v) && forall j, w :: i < j && GivesAt(records, h, j, text, w) ==> w == ""
  }

  lemma FreshIs(records: seq<Record>, h: string, g: seq<Stamped>, at: seq<int>, a: int)
    requires StandsAt(records, h, g, at) && 0 <= a < |g|
    ensures Fresh(g, a) <==> NotStale(records, h, at[a])
  {
    Stands(records, h, g, at, a);
    if NotStale(records, h, at[a]) {
      forall b | 0 <= b < a ensures g[b].at <= g[a].at {
        Stands(records, h, g, at, b);
        assert StartsAt(records, h, at[b], g[b].at);
      }
    }
    if Fresh(g, a) {
      forall j, t | j < at[a] && StartsAt(records, h, j, t) ensures t <= records[at[a]].at.value {
        var b := Standing(records, h, g, at, j);
        assert b < a;
      }
    }
  }

  lemma TextIs(records: seq<Record>, h: string, g: seq<Stamped>, at: seq<int>, field: Field, text: Record -> string, v: string)
    requires StandsAt(records, h, g, at) && LatestText(g, field, v)
    requires forall r: Record :: r.Text(field) == text(r)
    ensures IsLatest(records, h, text, v)
  {
    hide StandsAt, NotStale;
    if v == "" {
      forall i, w | GivesAt(records, h, i, text, w) ensures w == "" {
        var a := TextGiven(records, h, g, at, i);
      }
    } else {
      var a :| LastTextAt(g, field, a) && g[a].record.Text(field) == v;
      FreshIndex(g, a);
      Stands(records, h, g, at, a);
      FreshIs(records, h, g, at, a);
      assert GivesAt(records, h, at[a], text, v);
      forall j, w | at[a] < j && GivesAt(records, h, j, text, w) ensures w == "" {
        var b := TextGiven(records, h, g, at, j);
        Later(records, h, g, at, a, b);
      }
    }
  }

  lemma FreshIndex(g: seq<Stamped>, a: int)
    requires Fresh(g, a)
    ensures 0 <= a < |g|
  {
  }

  lemma Later(records: seq<Record>, h: string, g: seq<Stamped>, at: seq<int>, a: int, b: int)
    requires StandsAt(records, h, g, at) && 0 <= a < |g| && 0 <= b < |g|
    ensures |at| == |g| && (at[a] < at[b] ==> a < b)
  {
  }

  lemma TextGiven(records: seq<Record>, h: string, g: seq<Stamped>, at: seq<int>, i: int) returns (a: int)
    requires StandsAt(records, h, g, at) && NotStale(records, h, i)
    ensures 0 <= a < |g| && |at| == |g| && at[a] == i && g[a].record == records[i] && Fresh(g, a)
  {
    a := Standing(records, h, g, at, i);
    FreshIs(records, h, g, at, a);
  }

  /** A row's status, capability and beacon are each the last that its records give, leaving out records that
      were stale when they arrived. */
  lemma RowTexts(records: seq<Record>, rows: seq<Row>, row: Row)
    requires IsTable(records, rows) && row in rows
    ensures IsLatest(records, row.workItemHash, (r: Record) => r.status, row.status)
    ensures IsLatest(records, row.workItemHash, (r: Record) => r.capability, row.capability)
    ensures IsLatest(records, row.workItemHash, (r: Record) => r.beaconId, row.beaconId)
  {
    var h := row.workItemHash;
    var g := GroupOf(records, h);
    TableDescribes(records, rows, row);
    var at := GroupStands(records, h);
    hide IsTable, GroupOf, LatestText, LatestRecord, Spans, StandsAt, IsLatest;
    TextIs(records, h, g, at, Status, (r: Record) => r.status, row.status);
    TextIs(records, h, g, at, Capability, (r: Record) => r.capability, row.capability);
    TextIs(records, h, g, at, BeaconId, (r: Record) => r.beaconId, row.beaconId);
  }

  /** And its last record is the last of them that was not stale. */
  lemma RowLastRecord(records: seq<Record>, rows: seq<Row>, row: Row)
    requires IsTable(records, rows) && row in rows
    ensures exists i :: && NotStale(records, row.workItemHash, i) && row.lastRecord == records[i]
                        && StartsAt(records, row.workItemHash, i, row.lastAt)
                        && (forall j :: i < j ==> !NotStale(records, row.workItemHash, j))
  {
    var h := row.workItemHash;
    var g := GroupOf(records, h);
    assert LatestRecord(g, row.lastRecord, row.lastAt) by { TableDescribes(records, rows, row); }
    var at := GroupStands(records, h);
    hide IsTable, GroupOf, StandsAt, Fresh, NotStale;
    var a :| LastFresh(g, a) && row.lastRecord == g[a].record && row.lastAt == g[a].at;
    FreshIndex(g, a);
    Stands(records, h, g, at, a);
    FreshIs(records, h, g, at, a);
    forall j | at[a] < j ensures !NotStale(records, h, j) {
      if NotStale(records, h, j) {
        var b := TextGiven(records, h, g, at, j);
        Later(records, h, g, at, a, b);
      }
    }
  }
}
