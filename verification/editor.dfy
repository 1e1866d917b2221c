/** The pattern every admin manager component repeats, written once and
    instantiated per table: a list of fetched rows, a dialog holding a form,
    and the row being edited, if any. `handleSubmit` updates the edited row
    or inserts a new one; `handleEdit` loads a row into the form;
    `handleDelete` asks for confirmation first. */
module Editor {
  import opened Wrappers
  import opened Store

  /** A manager's component state: `isDialogOpen`, `editingX`, `formData`
      and the fetched list. */
  datatype Editor<R, F> = Editor(dialogOpen: bool, editing: Option<Row<R>>, form: F, rows: seq<Row<R>>)

  /** Calls a handler makes after its store call: `fetchX()` and the
      dashboard's `onUpdate()`. */
  datatype Effects = Effects(refetch: bool, notify: bool)

  const NoEffects := Effects(false, false)

  /** The editor, the table and the follow-up calls after one handler. */
  datatype Outcome<R, F> = Outcome(editor: Editor<R, F>, table: Table<R>, effects: Effects)

  /** The state a manager mounts with. */
  function Initial<R, F>(form: F): Editor<R, F> {
    Editor(false, None, form, [])
  }

  /** The store call `handleSubmit` makes: an update of the edited row, or
      an insert keyed `newId` when nothing is being edited. */
  function Save<R, P>(editing: Option<Row<R>>, t: Table<R>, payload: P, patch: (R, P) -> R,
                      create: P -> R, newId: Id, fault: Option<string>): (Table<R>, Reply)
  {
    match editing
    case Some(row) => UpdateRow(t, row.id, r => patch(r, payload), fault)
    case None => InsertRow(t, newId, create(payload), fault)
  }

  /** The store refuses a submit when it reports an error, or when an
      insert's key is already taken. */
  predicate SubmitFails<R>(editing: Option<Row<R>>, t: Table<R>, newId: Id, fault: Option<string>) {
    fault.Some? || (editing.None? && newId in t)
  }

  /** `handleSubmit`. On a store error the handler returns early and keeps
      everything; on success it closes the dialog, forgets the edited row,
      resets the form to `reset` and refetches (and calls `onUpdate` when the
      manager was given one, `callback`). */
  function Submit<R, F, P>(e: Editor<R, F>, t: Table<R>, payload: P, patch: (R, P) -> R, create: P -> R,
                           newId: Id, fault: Option<string>, reset: F, callback: bool): (o: Outcome<R, F>)
    ensures SubmitFails(e.editing, t, newId, fault) ==> o == Outcome(e, t, NoEffects)
    ensures !SubmitFails(e.editing, t, newId, fault) ==>
      && o.editor == Editor(false, None, reset, e.rows)
      && o.effects == Effects(true, callback)
    ensures e.editing.Some? && !SubmitFails(e.editing, t, newId, fault) ==>
      var id := e.editing.value.id;
      && o.table.Keys == t.Keys
      && (forall k :: k in t && k != id ==> o.table[k] == t[k])
      && (id in t ==> o.table[id] == patch(t[id], payload))
    ensures e.editing.None? && !SubmitFails(e.editing, t, newId, fault) ==>
      && o.table.Keys == t.Keys + {newId}
      && |o.table| == |t| + 1
      && o.table[newId] == create(payload)
      && (forall k :: k in t ==> o.table[k] == t[k])
  {
    var (t', reply) := Save(e.editing, t, payload, patch, create, newId, fault);
    match reply
    case Err(_) => Outcome(e, t, NoEffects)
    case Ok => Outcome(Editor(false, None, reset, e.rows), t', Effects(true, callback))
  }

  /** A failed submit leaves the form in place, so submitting again once the
      store accepts has the same result as if the first attempt had worked. */
  lemma RetryAfterFailure<R, F, P>(e: Editor<R, F>, t: Table<R>, payload: P, patch: (R, P) -> R,
                                   create: P -> R, newId: Id, m: string, reset: F, callback: bool)
    ensures var failed := Submit(e, t, payload, patch, create, newId, Some(m), reset, callback);
      Submit(failed.editor, failed.table, payload, patch, create, newId, None, reset, callback)
        == Submit(e, t, payload, patch, create, newId, None, reset, callback)
  {
  }

  /** `handleEdit`: remember the row, load it into the form (`formOf` is the
      manager's field-by-field copy) and open the dialog. */
  function Edit<R, F>(e: Editor<R, F>, row: Row<R>, formOf: R -> F): (r: Editor<R, F>)
    ensures r.dialogOpen && r.editing == Some(row)
    ensures r.form == formOf(row.fields) && r.rows == e.rows
  {
    Editor(true, Some(row), formOf(row.fields), e.rows)
  }

  /** Editing a listed row and saving succeeds as an update of exactly that
      row: the next complete listing shows the patched record under the same
      key and every other row as it was. */
  lemma {:induction false} EditThenSubmitUpdatesListedRow<R, F, P>(
    e: Editor<R, F>, t: Table<R>, row: Row<R>, formOf: R -> F, payload: P, patch: (R, P) -> R,
    create: P -> R, newId: Id, reset: F, callback: bool, listing: seq<Row<R>>)
    requires row.id in t
    requires var o := Submit(Edit(e, row, formOf), t, payload, patch, create, newId, None, reset, callback);
      Lists(listing, o.table)
    ensures var o := Submit(Edit(e, row, formOf), t, payload, patch, create, newId, None, reset, callback);
      && Refetch(o.editor, Data(Some(listing))).rows == listing
      && |listing| == |t|
      && (exists i :: 0 <= i < |listing| && listing[i] == Row(row.id, patch(t[row.id], payload)))
      && (forall i :: 0 <= i < |listing| && listing[i].id != row.id ==> listing[i] == Row(listing[i].id, t[listing[i].id]))
  {
    var o := Submit(Edit(e, row, formOf), t, payload, patch, create, newId, None, reset, callback);
    ListsCount(listing, o.table);
    var i :| 0 <= i < |listing| && listing[i].id == row.id;
    assert listing[i] == Row(row.id, patch(t[row.id], payload));
  }

  /** `fetchX()`: replace the list with the store's rows; on error keep it. */
  function Refetch<R, F>(e: Editor<R, F>, reply: Fetched<Row<R>>): (r: Editor<R, F>)
    ensures reply.Failed? ==> r == e
    ensures reply.Data? ==> r == e.(rows := reply.rows.GetOr([]))
  {
    e.(rows := ApplyFetch(e.rows, reply))
  }

  /** `handleDelete`: nothing happens unless `confirmed`; a store error
      changes nothing; success removes exactly the row keyed `id` and
      refetches (calling `onUpdate` too when given one). */
  function Delete<R>(t: Table<R>, id: Id, confirmed: bool, fault: Option<string>, callback: bool): (o: (Table<R>, Effects))
    ensures !confirmed || fault.Some? ==> o == (t, NoEffects)
    ensures confirmed && fault.None? ==>
      && o.0.Keys == t.Keys - {id}
      && (forall k :: k in o.0 ==> o.0[k] == t[k])
      && o.1 == Effects(true, callback)
  {
    if !confirmed then (t, NoEffects)
    else
      var (t', reply) := DeleteRow(t, id, fault);
      if reply.Err? then (t, NoEffects) else (t', Effects(true, callback))
  }

  /** Deleting twice is deleting once. */
  lemma DeleteIdempotent<R>(t: Table<R>, id: Id, callback: bool)
    ensures var once := Delete(t, id, true, None, callback).0;
      Delete(once, id, true, None, callback).0 == once
  {
  }

  /** The dialog's `onOpenChange`: the Add trigger, the close ×, Escape
      and a click outside only flip `isDialogOpen`; the edited row and the
      form stay as they were. */
  function SetDialogOpen<R, F>(e: Editor<R, F>, open: bool): (r: Editor<R, F>)
    ensures r.dialogOpen == open
    ensures r.editing == e.editing && r.form == e.form && r.rows == e.rows
  {
    e.(dialogOpen := open)
  }

  /** The Cancel button: closes the dialog and forgets the edited row, but
      keeps the form as it was. */
  function Cancel<R, F>(e: Editor<R, F>): (r: Editor<R, F>)
    ensures !r.dialogOpen && r.editing.None?
    ensures r.form == e.form && r.rows == e.rows
  {
    e.(dialogOpen := false, editing := None)
  }

  /** After the Cancel button, "Add" reopens the dialog on the form the
      edit left behind, a copy of the edited row; its submit inserts a new
      row and leaves the edited one alone. */
  lemma CancelThenAddInserts<R, F, P>(
    e: Editor<R, F>, t: Table<R>, row: Row<R>, formOf: R -> F, payload: P, patch: (R, P) -> R,
    create: P -> R, newId: Id, reset: F, callback: bool)
    requires newId !in t
    ensures var reopened := SetDialogOpen(Cancel(Edit(e, row, formOf)), true);
      var o := Submit(reopened, t, payload, patch, create, newId, None, reset, callback);
      && reopened.dialogOpen
      && reopened.form == formOf(row.fields)
      && o.table.Keys == t.Keys + {newId}
      && o.table[newId] == create(payload)
      && (forall k :: k in t ==> o.table[k] == t[k])
  {
  }

  /** Dismissing an edit (Escape, a click outside or the close ×) and
      pressing "Add" reopens the dialog still in edit mode: the submit that
      follows updates the dismissed row instead of inserting a new one. */
  lemma {:induction false} AddAfterDismissedEditUpdates<R, F, P>(
    e: Editor<R, F>, t: Table<R>, row: Row<R>, formOf: R -> F, payload: P, patch: (R, P) -> R,
    create: P -> R, newId: Id, reset: F, callback: bool)
    requires row.id in t && newId !in t
    ensures var reopened := SetDialogOpen(SetDialogOpen(Edit(e, row, formOf), false), true);
      var o := Submit(reopened, t, payload, patch, create, newId, None, reset, callback);
      && reopened.dialogOpen
      && reopened.editing == Some(row)
      && newId !in o.table
      && o.table[row.id] == patch(t[row.id], payload)
  {
  }

  /** What the Add button evidently means: a fresh dialog with the default
      form and no edited row. */
  function OpenForAdd<R, F>(e: Editor<R, F>, reset: F): (r: Editor<R, F>)
    ensures r.dialogOpen && r.editing.None? && r.form == reset && r.rows == e.rows
  {
    Editor(true, None, reset, e.rows)
  }

  /** With `OpenForAdd`, a dismissed edit no longer leaks into the next
      submit: it inserts one new row and leaves every existing row alone. */
  lemma {:induction false} AddAfterDismissedEditInserts<R, F, P>(
    e: Editor<R, F>, t: Table<R>, row: Row<R>, formOf: R -> F, payload: P, patch: (R, P) -> R,
    create: P -> R, newId: Id, reset: F, callback: bool)
    requires newId !in t
    ensures var reopened := OpenForAdd(SetDialogOpen(Edit(e, row, formOf), false), reset);
      var o := Submit(reopened, t, payload, patch, create, newId, None, reset, callback);
      && o.table.Keys == t.Keys + {newId}
      && o.table[newId] == create(payload)
      && (forall k :: k in t ==> o.table[k] == t[k])
  {
  }
}
