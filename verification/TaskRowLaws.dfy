/** What a finished waterfall table promises whatever order its records arrived in. */
module TaskRowLaws {
  import opened Option
  import opened StableSort
  import opened TaskRows

  /** A group determines everything its row says. */
  lemma DescribesUnique(g: seq<Stamped>, a: Row, b: Row)
    requires Describes(g, a) && Describes(g, b) && a.workItemHash == b.workItemHash
    ensures a == b
  {
    SpansUnique(g, a.at, a.endAt, b.at, b.endAt);
    TextUnique(g, Status, a.status, b.status);
    TextUnique(g, Capability, a.capability, b.capability);
    TextUnique(g, BeaconId, a.beaconId, b.beaconId);
    assert a.lastRecord == b.lastRecord && a.lastAt == b.lastAt by {
      hide Spans, LatestText;
    }
  }

  lemma SpansUnique(g: seq<Stamped>, at: int, endAt: int, at': int, endAt': int)
    requires Spans(g, at, endAt) && Spans(g, at', endAt')
    ensures at == at' && endAt == endAt'
  {
  }

  lemma TextUnique(g: seq<Stamped>, field: Field, v: string, w: string)
    requires LatestText(g, field, v) && LatestText(g, field, w)
    ensures v == w
  {
    if v != "" && w != "" {
      var i :| LastTextAt(g, field, i) && g[i].record.Text(field) == v;
      var j :| LastTextAt(g, field, j) && g[j].record.Text(field) == w;
      assert i == j;
    }
  }

  /** The records leave no choice: there is exactly one complete table for them. */
  lemma TableUnique(records: seq<Record>, a: seq<Row>, b: seq<Row>)
    requires IsTable(records, a) && IsTable(records, b)
    ensures a == b
  {
    ghost var before := (x: Row, y: Row) => x.at < y.at || (x.at == y.at && AppearsFirst(records, x, y));
    forall x ensures x in a <==> x in b {
      if x in a {
        RowInBoth(records, a, b, x);
      }
      if x in b {
        RowInBoth(records, b, a, x);
      }
    }
    forall x, y | before(x, y) ensures !before(y, x) {}
    OrderedListUnique(before, a, b);
  }

  lemma RowInBoth(records: seq<Record>, a: seq<Row>, b: seq<Row>, x: Row)
    requires IsTable(records, a) && IsTable(records, b) && x in a
    ensures x in b
  {
    hide Describes, AppearsFirst;
    assert HasRow(a, x.workItemHash);
    assert HasRow(b, x.workItemHash);
    var y :| y in b && y.workItemHash == x.workItemHash;
    DescribesUnique(GroupOf(records, x.workItemHash), x, y);
  }

  ghost function Extents(rows: seq<Row>): set<(string, int, int)> {
    set row | row in rows :: (row.workItemHash, row.at, row.endAt)
  }

  /** Records may arrive in any order: the same work items get rows, with the same start and end. */
  lemma ArrivalOrderIrrelevant(records: seq<Record>, shuffled: seq<Record>, a: seq<Row>, b: seq<Row>)
    requires multiset(records) == multiset(shuffled)
    requires IsTable(records, a) && IsTable(shuffled, b)
    ensures Extents(a) == Extents(b) && |a| == |b|
  {
    forall row | row in a ensures (row.workItemHash, row.at, row.endAt) in Extents(b) {
      SameExtent(records, shuffled, a, b, row);
    }
    forall row | row in b ensures (row.workItemHash, row.at, row.endAt) in Extents(a) {
      SameExtent(shuffled, records, b, a, row);
    }
    hide Describes, AppearsFirst;
    ExtentsCount(a);
    ExtentsCount(b);
  }

  lemma GroupOfShuffled(records: seq<Record>, shuffled: seq<Record>, h: string)
    requires multiset(records) == multiset(shuffled)
    ensures forall y :: y in GroupOf(records, h) <==> y in GroupOf(shuffled, h)
  {
    forall y ensures y in GroupOf(records, h) <==> y in GroupOf(shuffled, h) {
      GroupMembers(records, h, y);
      GroupMembers(shuffled, h, y);
      assert y.record in records <==> y.record in multiset(records);
      assert y.record in shuffled <==> y.record in multiset(shuffled);
    }
  }

  lemma SpansOfShuffled(g: seq<Stamped>, g': seq<Stamped>, at: int, endAt: int)
    requires forall y :: y in g <==> y in g'
    requires Spans(g, at, endAt)
    ensures Spans(g', at, endAt)
  {
  }

  lemma SameExtent(records: seq<Record>, shuffled: seq<Record>, a: seq<Row>, b: seq<Row>, x: Row)
    requires multiset(records) == multiset(shuffled)
    requires IsTable(records, a) && IsTable(shuffled, b) && x in a
    ensures (x.workItemHash, x.at, x.endAt) in Extents(b)
  {
    var h := x.workItemHash;
    var g, g' := GroupOf(records, h), GroupOf(shuffled, h);
    TableDescribes(records, a, x);
    GroupOfShuffled(records, shuffled, h);
    hide GroupOf, WorkItems, Spans, LatestRecord, LatestText, AppearsFirst;
    assert g[0] in g';
    WorkItemsHaveRecords(shuffled, h);
    assert HasRow(b, h);
    var y :| y in b && y.workItemHash == h;
    TableDescribes(shuffled, b, y);
    hide IsTable;
    SpansOfShuffled(g, g', x.at, x.endAt);
    SpansUnique(g', x.at, x.endAt, y.at, y.endAt);
  }

  lemma {:induction false} ExtentsCount(rows: seq<Row>)
    requires forall i, j :: 0 <= i < j < |rows| ==> rows[i].workItemHash != rows[j].workItemHash
    ensures |Extents(rows)| == |rows|
  {
    if rows != [] {
      var init, last := rows[..|rows| - 1], rows[|rows| - 1];
      ExtentsCount(init);
      var e := (last.workItemHash, last.at, last.endAt);
      assert rows == init + [last];
      assert Extents(rows) == Extents(init) + {e};
      assert e !in Extents(init);
    }
  }

  ghost predicate InTimeOrder(records: seq<Record>) {
    forall i, j :: 0 <= i < j < |records| && records[i].Usable() && records[j].Usable()
                   ==> records[i].Stamp().at <= records[j].Stamp().at
  }

  ghost predicate Nondecreasing(g: seq<Stamped>) {
    forall i, j :: 0 <= i < j < |g| ==> g[i].at <= g[j].at
  }

  ghost predicate LastNonEmpty(g: seq<Stamped>, field: Field, v: string) {
    if v == "" then
      forall i :: 0 <= i < |g| ==> g[i].record.Text(field) == ""
    else
      exists i :: && 0 <= i < |g| && g[i].record.Text(field) == v
                  && forall j :: i < j < |g| ==> g[j].record.Text(field) == ""
  }

  /** When the records arrive in time order nothing is skipped as stale: each text of a row is simply
      the last non-empty one of its work item. */
  lemma TimeOrderKeepsLastTexts(records: seq<Record>, rows: seq<Row>, row: Row)
    requires InTimeOrder(records) && IsTable(records, rows) && row in rows
    ensures var g := GroupOf(records, row.workItemHash);
            && g != []
            && row.lastRecord == g[|g| - 1].record
            && LastNonEmpty(g, Status, row.status)
            && LastNonEmpty(g, Capability, row.capability)
            && LastNonEmpty(g, BeaconId, row.beaconId)
  {
    hide *;
    TableDescribes(records, rows, row);
    GroupInTimeOrder(records, row.workItemHash);
    TimeOrderedGroup(GroupOf(records, row.workItemHash), row);
  }

  lemma TableDescribes(records: seq<Record>, rows: seq<Row>, row: Row)
    requires IsTable(records, rows) && row in rows
    ensures Describes(GroupOf(records, row.workItemHash), row)
  {
    hide Describes, AppearsFirst;
  }

  lemma TimeOrderedGroup(g: seq<Stamped>, row: Row)
    requires Describes(g, row) && Nondecreasing(g)
    ensures g != [] && row.lastRecord == g[|g| - 1].record
    ensures LastNonEmpty(g, Status, row.status)
    ensures LastNonEmpty(g, Capability, row.capability)
    ensures LastNonEmpty(g, BeaconId, row.beaconId)
  {
    hide Spans, LatestText, LastNonEmpty;
    forall i | 0 <= i < |g| ensures Fresh(g, i) {}
    InOrderText(g, Status, row.status);
    InOrderText(g, Capability, row.capability);
    InOrderText(g, BeaconId, row.beaconId);
    assert Fresh(g, |g| - 1);
  }

  lemma {:induction false} GroupInTimeOrder(records: seq<Record>, h: string)
    requires InTimeOrder(records)
    ensures Nondecreasing(GroupOf(records, h))
  {
    if records != [] {
      var init, last := records[..|records| - 1], records[|records| - 1];
      GroupInTimeOrder(init, h);
      var g := GroupOf(init, h);
      if last.Usable() {
        forall i | 0 <= i < |g| ensures g[i].at <= last.Stamp().at {
          assert g[i] in g;
          GroupMembers(init, h, g[i]);
          var k :| 0 <= k < |init| && init[k] == g[i].record;
          assert records[k].Stamp().at <= records[|records| - 1].Stamp().at;
        }
        var grown := GroupOf(records, h);
        assert grown == if last.workItemHash == h then g + [last.Stamp()] else g;
      }
    }
  }

  lemma InOrderText(g: seq<Stamped>, field: Field, v: string)
    requires LatestText(g, field, v) && forall i :: 0 <= i < |g| ==> Fresh(g, i)
    ensures LastNonEmpty(g, field, v)
  {
    if v != "" {
      var i :| LastTextAt(g, field, i) && g[i].record.Text(field) == v;
      forall j | i < j < |g| ensures g[j].record.Text(field) == "" {
        assert Fresh(g, j);
      }
    } else {
      forall i | 0 <= i < |g| ensures g[i].record.Text(field) == "" {
        assert Fresh(g, i);
      }
    }
  }

  /** Every row names its work item. */
  lemma RowsAreNamed(records: seq<Record>, rows: seq<Row>)
    requires IsTable(records, rows)
    ensures forall row :: row in rows ==> row.workItemHash != ""
  {
    forall row | row in rows ensures row.workItemHash != "" {
      TableDescribes(records, rows, row);
      var g := GroupOf(records, row.workItemHash);
      GroupMembers(records, row.workItemHash, g[0]);
    }
  }

  // The simplest tables

  /** The row of a work item with a single record. */
  function Single(r: Record): Row
    requires r.Usable()
  {
    Freshen(Begin(r.Stamp()), r.Stamp())
  }

  /** One record for each work item, in time order. */
  ghost predicate OneEach(records: seq<Record>) {
    && (forall r :: r in records ==> r.Usable())
    && (forall i, j :: 0 <= i < j < |records| ==>
          records[i].workItemHash != records[j].workItemHash && Single(records[i]).at <= Single(records[j]).at)
  }

  function Singles(records: seq<Record>): seq<Row>
    requires forall r :: r in records ==> r.Usable()
  {
    seq(|records|, i requires 0 <= i < |records| => Single(records[i]))
  }

  lemma SingleIs(r: Record)
    requires r.Usable()
    ensures Single(r).workItemHash == r.workItemHash && Single(r).nodeHash == NodeHashOf(r)
    ensures Single(r).at == r.at.value && Single(r).endAt == (if r.endAt.Some? then r.endAt.value else r.at.value)
    ensures Describes([r.Stamp()], Single(r))
  {
    BeginDescribes(r.Stamp());
    hide Describes;
  }

  lemma ListingStep(records: seq<Record>, r: Record, listed: seq<Row>)
    requires IsListing(records, listed) && r.Usable() && r.workItemHash !in WorkItems(records)
    ensures IsListing(records + [r], listed + [Single(r)])
  {
    hide Describes, GroupOf, WorkItems, Single;
    WorkItemsStep(records, r);
    SingleIs(r);
    WorkItemsHaveRecords(records, r.workItemHash);
    forall row | row in listed + [Single(r)] ensures Describes(GroupOf(records + [r], row.workItemHash), row) {
      GroupStep(records, r, row.workItemHash);
      if row in listed {
        ListedIsKnown(records, listed, row);
      } else {
        assert GroupOf(records, r.workItemHash) + [r.Stamp()] == [r.Stamp()];
      }
    }
  }

  lemma ListedIsKnown(records: seq<Record>, listed: seq<Row>, row: Row)
    requires IsListing(records, listed) && row in listed
    ensures row.workItemHash in WorkItems(records)
  {
    hide Describes, GroupOf, WorkItems;
    var i :| 0 <= i < |listed| && listed[i] == row;
    assert WorkItems(records)[i] == row.workItemHash;
  }

  lemma {:induction false} WorkItemsAreOf(records: seq<Record>, h: string)
    requires h in WorkItems(records)
    ensures exists r :: r in records && r.workItemHash == h
  {
    var init := records[..|records| - 1];
    if h in WorkItems(init) {
      WorkItemsAreOf(init, h);
    } else {
      assert records[|records| - 1] in records;
    }
  }

  lemma LastIsNew(records: seq<Record>)
    requires OneEach(records) && records != []
    ensures var init, last := records[..|records| - 1], records[|records| - 1];
            OneEach(init) && last.Usable() && last.workItemHash !in WorkItems(init)
  {
    hide WorkItems, Single;
    var init, last := records[..|records| - 1], records[|records| - 1];
    if last.workItemHash in WorkItems(init) {
      WorkItemsAreOf(init, last.workItemHash);
    }
  }

  lemma SinglesStep(init: seq<Record>, last: Record)
    requires last.Usable() && forall r :: r in init ==> r.Usable()
    ensures Singles(init + [last]) == Singles(init) + [Single(last)]
  {
    hide Single;
  }

  lemma {:induction false} SinglesListed(records: seq<Record>)
    requires OneEach(records)
    ensures IsListing(records, Singles(records))
  {
    hide Single, WorkItems, Describes;
    if records != [] {
      var init, last := records[..|records| - 1], records[|records| - 1];
      LastIsNew(records);
      SinglesListed(init);
      hide IsListing, Singles;
      assert records == init + [last];
      SinglesStep(init, last);
      ListingStep(init, last, Singles(init));
    } else {
      NothingListed();
    }
  }

  lemma NothingListed()
    ensures IsListing([], [])
  {
    hide Describes;
  }

  /** Records of one work item each, in time order, give one row each. */
  lemma SinglesAreTable(records: seq<Record>)
    requires OneEach(records)
    ensures IsTable(records, Singles(records))
  {
    hide IsTable, IsListing, SortBy, Single;
    var key := (row: Row) => row.at;
    SinglesListed(records);
    SortedAlready(key, Singles(records));
    SortedListingIsTable(records, Singles(records), key);
  }

  lemma {:induction false} SortedAlready(key: Row -> int, rows: seq<Row>)
    requires forall i, j :: 0 <= i < j < |rows| ==> key(rows[i]) <= key(rows[j])
    ensures SortBy(key, rows) == rows
  {
    if rows != [] {
      SortedAlready(key, rows[..|rows| - 1]);
      assert rows == rows[..|rows| - 1] + [rows[|rows| - 1]];
    }
  }
}
