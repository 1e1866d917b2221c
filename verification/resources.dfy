/** The public resources page: a type and a subject drop-down, and a
    download button that opens the file and bumps the row's counter. */
module ResourcesPage {
  import opened Wrappers
  import opened TextOrder
  import opened Schema
  import opened Store
  import opened Seqs
  import opened Links

  /** The two drop-downs; `'all'` switches one off. */
  datatype Query = Query(resourceType: string, subject: string)

  const Unfiltered := Query("all", "all")

  predicate Shown(q: Query, r: Resource) {
    && (q.resourceType == "all" || r.resourceType == q.resourceType)
    && (q.subject == "all" || r.subject == Some(q.subject))
  }

  /** `filteredResources`: listed iff both drop-downs accept it; a resource
      without a subject only ever shows under "all subjects". */
  function Visible(q: Query, rows: seq<Row<Resource>>): (r: seq<Row<Resource>>)
    ensures forall i :: 0 <= i < |r| ==> r[i] in rows && Shown(q, r[i].fields)
    ensures forall i :: 0 <= i < |rows| && Shown(q, rows[i].fields) ==> rows[i] in r
    ensures forall i :: 0 <= i < |r| && r[i].fields.subject.None? ==> q.subject == "all"
  {
    Filter(rows, (row: Row<Resource>) => Shown(q, row.fields))
  }

  /** The list keeps the fetched (newest first) order. */
  lemma VisibleInOrder(q: Query, rows: seq<Row<Resource>>)
    ensures IsSubsequence(Visible(q, rows), rows)
  {
    FilterIsSubsequence(rows, (row: Row<Resource>) => Shown(q, row.fields));
  }

  /** With both drop-downs at "all", everything fetched is listed. */
  lemma UnfilteredShowsAll(rows: seq<Row<Resource>>)
    ensures Visible(Unfiltered, rows) == rows
  {
    FilterKeepsAll(rows, (row: Row<Resource>) => Shown(Unfiltered, row.fields));
  }

  function Types(rows: seq<Row<Resource>>): (r: seq<string>)
    ensures |r| == |rows|
    ensures forall i :: 0 <= i < |rows| ==> r[i] == rows[i].fields.resourceType
  {
    seq(|rows|, i requires 0 <= i < |rows| => rows[i].fields.resourceType)
  }

  /** The type drop-down: each type once, ascending. */
  function TypeOptions(rows: seq<Row<Resource>>): (r: seq<string>)
    ensures Ascending(r)
    ensures forall t :: t in r <==> exists i :: 0 <= i < |rows| && rows[i].fields.resourceType == t
  {
    var types := Types(rows);
    assert forall t :: t in types ==> exists i :: 0 <= i < |rows| && rows[i].fields.resourceType == t by {
      forall t | t in types
        ensures exists i :: 0 <= i < |rows| && rows[i].fields.resourceType == t
      {
        var i :| 0 <= i < |types| && types[i] == t;
        assert rows[i].fields.resourceType == t;
      }
    }
    SortedSet(types)
  }

  /** `r.subject` for the rows where it is truthy. */
  function PresentSubjects(rows: seq<Row<Resource>>): (r: seq<string>)
    ensures forall s :: s in r <==> s != "" && exists i :: 0 <= i < |rows| && rows[i].fields.subject == Some(s)
  {
    if |rows| == 0 then []
    else
      var rest := PresentSubjects(rows[1..]);
      forall s | exists i :: 1 <= i < |rows| && rows[i].fields.subject == Some(s)
        ensures exists i :: 0 <= i < |rows[1..]| && rows[1..][i].fields.subject == Some(s)
      {
        var i :| 1 <= i < |rows| && rows[i].fields.subject == Some(s);
        assert rows[1..][i - 1] == rows[i];
      }
      if Present(rows[0].fields.subject) then [rows[0].fields.subject.value] + rest else rest
  }

  /** The subject drop-down: each non-empty subject once, ascending;
      resources without a subject contribute nothing. */
  function SubjectOptions(rows: seq<Row<Resource>>): (r: seq<string>)
    ensures Ascending(r)
    ensures forall s :: s in r <==> s != "" && exists i :: 0 <= i < |rows| && rows[i].fields.subject == Some(s)
  {
    SortedSet(PresentSubjects(rows))
  }

  /** What one click on a download button does: the address opened, the
      table after the counter write, and whether the list is refetched. */
  datatype Download = Download(url: Option<string>, table: Table<Resource>, refetch: bool)

  /** The counter value written: the snapshot's count, null read as 0, plus one. */
  function Bumped(snapshot: Resource): (r: Resource)
    ensures r.downloads == Some(snapshot.downloads.GetOr(0) + 1)
    ensures r.(downloads := snapshot.downloads) == snapshot
  {
    snapshot.(downloads := Some(snapshot.downloads.GetOr(0) + 1))
  }

  /** `handleDownload(resource)`: an empty address does nothing; otherwise
      the fixed-up address opens, the count read from the page's copy of
      the row plus one is written to that row, and the list is refetched
      once the write settles, whether it failed or not. */
  function HandleDownload(t: Table<Resource>, snapshot: Row<Resource>, fault: Option<string>): (d: Download)
    ensures snapshot.fields.fileUrl == "" <==> d.url.None?
    ensures snapshot.fields.fileUrl == "" ==> d.table == t && !d.refetch
    ensures snapshot.fields.fileUrl != "" ==>
      && d.url == Some(FixUrl(snapshot.fields.fileUrl))
      && d.refetch
      && d.table.Keys == t.Keys
      && (forall k :: k in t && k != snapshot.id ==> d.table[k] == t[k])
      && (fault.None? && snapshot.id in t ==>
            d.table[snapshot.id] == t[snapshot.id].(downloads := Some(snapshot.fields.downloads.GetOr(0) + 1)))
      && (fault.Some? ==> d.table == t)
  {
    if snapshot.fields.fileUrl == "" then Download(None, t, false)
    else
      var count := snapshot.fields.downloads.GetOr(0) + 1;
      var (t', _) := UpdateRow(t, snapshot.id, (r: Resource) => r.(downloads := Some(count)), fault);
      Download(Some(FixUrl(snapshot.fields.fileUrl)), t', true)
  }

  /** Two downloads clicked before the refetch lands both start from the
      same copy holding `n`, so the stored count ends at `n + 1`, not
      `n + 2`: one of the two downloads is lost. */
  lemma LostUpdate(t: Table<Resource>, snapshot: Row<Resource>)
    requires snapshot.id in t && snapshot.fields.fileUrl != ""
    ensures var once := HandleDownload(t, snapshot, None).table;
      var twice := HandleDownload(once, snapshot, None).table;
      twice[snapshot.id].downloads == Some(snapshot.fields.downloads.GetOr(0) + 1)
      && twice == once
  {
  }

  /** A download started from a fresh copy of the row does count up by one. */
  lemma FreshSnapshotCounts(t: Table<Resource>, id: Id)
    requires id in t && t[id].fileUrl != ""
    ensures var after := HandleDownload(t, Row(id, t[id]), None).table;
      after[id].downloads == Some(t[id].downloads.GetOr(0) + 1)
      && after[id] == Bumped(t[id])
  {
  }
}
