/** The hosted database as the client sees it: one table is a map from row
    key to record. Every call is one atomic step whose failure is an input
    (`fault`), because the client never sees why the store refused. */
module Store {
  import opened Wrappers

  type Id = string

  type Table<R> = map<Id, R>

  /** A fetched row: its key and its other columns. */
  datatype Row<R> = Row(id: Id, fields: R)

  /** The `error` half of a write's `{ data, error }` reply. */
  datatype Reply = Ok | Err(message: string)

  /** A select's reply: `data` (possibly null) or an error. */
  datatype Fetched<T> = Data(rows: Option<seq<T>>) | Failed(message: string)

  /** What a page holds after a select: the old list when the store
      reports an error, otherwise `data || []`. */
  function ApplyFetch<T>(held: seq<T>, reply: Fetched<T>): (r: seq<T>)
    ensures reply.Failed? ==> r == held
    ensures reply.Data? ==> r == reply.rows.GetOr([])
  {
    match reply
    case Failed(_) => held
    case Data(rows) => rows.GetOr([])
  }

  /** Applying the same successful reply twice is applying it once. */
  lemma ApplyFetchIdempotent<T>(held: seq<T>, reply: Fetched<T>)
    ensures ApplyFetch(ApplyFetch(held, reply), reply) == ApplyFetch(held, reply)
  {
  }

  /** `update(patch).eq('id', id)`: on success exactly the row keyed `id`
      changes, and a missing key matches no row without error. */
  function UpdateRow<R>(t: Table<R>, id: Id, patch: R -> R, fault: Option<string>): (res: (Table<R>, Reply))
    ensures fault.Some? ==> res == (t, Err(fault.value))
    ensures fault.None? ==> res.1 == Ok
    ensures res.0.Keys == t.Keys
    ensures forall k :: k in t && k != id ==> res.0[k] == t[k]
    ensures fault.None? && id in t ==> res.0[id] == patch(t[id])
  {
    match fault
    case Some(m) => (t, Err(m))
    case None => (if id in t then t[id := patch(t[id])] else t, Ok)
  }

  /** `insert(row)`: the store keys the new row with `id`; a key already in
      use is a conflict the store reports as an error. */
  function InsertRow<R>(t: Table<R>, id: Id, r: R, fault: Option<string>): (res: (Table<R>, Reply))
    ensures fault.Some? || id in t ==> res.0 == t && res.1.Err?
    ensures fault.None? && id !in t ==> res.1 == Ok
    ensures fault.None? && id !in t ==> res.0.Keys == t.Keys + {id} && res.0[id] == r
    ensures forall k :: k in t ==> k in res.0 && res.0[k] == t[k]
  {
    match fault
    case Some(m) => (t, Err(m))
    case None =>
      if id in t then (t, Err("duplicate key value violates unique constraint"))
      else (t[id := r], Ok)
  }

  /** `delete().eq('id', id)`: on success the row keyed `id` is gone and
      nothing else changes. */
  function DeleteRow<R>(t: Table<R>, id: Id, fault: Option<string>): (res: (Table<R>, Reply))
    ensures fault.Some? ==> res == (t, Err(fault.value))
    ensures fault.None? ==> res.1 == Ok && res.0.Keys == t.Keys - {id}
    ensures forall k :: k in res.0 ==> k in t && res.0[k] == t[k]
  {
    match fault
    case Some(m) => (t, Err(m))
    case None => (t - {id}, Ok)
  }

  /** `rows` is a complete listing of `t`: every key once, with its record. */
  ghost predicate Lists<R>(rows: seq<Row<R>>, t: Table<R>) {
    && (forall i, j :: 0 <= i < j < |rows| ==> rows[i].id != rows[j].id)
    && (forall i :: 0 <= i < |rows| ==> rows[i].id in t && t[rows[i].id] == rows[i].fields)
    && (forall k :: k in t ==> exists i :: 0 <= i < |rows| && rows[i].id == k)
  }

  /** Dropping the last entry of a complete listing lists the table
      without that entry's key. */
  lemma ListsInit<R>(rows: seq<Row<R>>, t: Table<R>)
    requires Lists(rows, t) && |rows| > 0
    ensures Lists(rows[..|rows| - 1], t - {rows[|rows| - 1].id})
  {
    var last := rows[|rows| - 1];
    var init := rows[..|rows| - 1];
    var t' := t - {last.id};
    forall k | k in t'
      ensures exists i :: 0 <= i < |init| && init[i].id == k
    {
      var i :| 0 <= i < |rows| && rows[i].id == k;
      assert i != |rows| - 1;
      assert init[i].id == k;
    }
  }

  /** A complete listing has one entry per key, which is what an exact
      `count` returns. */
  lemma {:induction false} ListsCount<R>(rows: seq<Row<R>>, t: Table<R>)
    requires Lists(rows, t)
    ensures |rows| == |t|
    decreases |rows|
  {
    if |rows| == 0 {
      assert t.Keys == {};
    } else {
      ListsInit(rows, t);
      ListsCount(rows[..|rows| - 1], t - {rows[|rows| - 1].id});
    }
  }
}
