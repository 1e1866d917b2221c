/** The resources editor: the shared editor pattern over `resources`. Its
    form has no download counter, so no edit ever writes one. */
module ResourcesManager {
  import opened Wrappers
  import opened Schema
  import opened Store
  import opened Editor
  import ResourcesPage

  /** `formData`: six text fields, no `downloads`. */
  datatype ResourceForm = ResourceForm(title: string, description: string, fileUrl: string, fileSize: string,
                                       resourceType: string, subject: string)

  const DefaultForm := ResourceForm("", "", "", "", "", "")

  /** `update(formData)`: the six columns written, empty text as `''`;
      the counter is not in the payload and keeps its value. */
  function Patch(r: Resource, f: ResourceForm): (p: Resource)
    ensures p.downloads == r.downloads
    ensures p.title == f.title && p.description == Some(f.description) && p.fileSize == Some(f.fileSize)
    ensures p.fileUrl == f.fileUrl && p.resourceType == f.resourceType && p.subject == Some(f.subject)
  {
    Resource(f.title, Some(f.description), f.fileUrl, Some(f.fileSize), f.resourceType, Some(f.subject), r.downloads)
  }

  /** `insert(formData)`: the counter is left to the column (null). */
  function Create(f: ResourceForm): (r: Resource)
    ensures r.downloads.None?
    ensures r == Patch(r, f)
  {
    Resource(f.title, Some(f.description), f.fileUrl, Some(f.fileSize), f.resourceType, Some(f.subject), None)
  }

  /** `handleEdit`'s copy: a missing description, size or subject as `''`. */
  function FormOf(r: Resource): (f: ResourceForm)
    ensures f.title == r.title && f.fileUrl == r.fileUrl && f.resourceType == r.resourceType
    ensures f.description == OrElse(r.description, "") && f.fileSize == OrElse(r.fileSize, "")
    ensures f.subject == OrElse(r.subject, "")
  {
    ResourceForm(r.title, OrElse(r.description, ""), r.fileUrl, OrElse(r.fileSize, ""), r.resourceType,
                 OrElse(r.subject, ""))
  }

  /** `handleSubmit`: the shared submit; success refetches, with no
      dashboard callback. */
  function SubmitResource(e: Editor<Resource, ResourceForm>, t: Table<Resource>, newId: Id, fault: Option<string>)
    : (o: Outcome<Resource, ResourceForm>)
    ensures SubmitFails(e.editing, t, newId, fault) ==> o == Outcome(e, t, NoEffects)
    ensures !SubmitFails(e.editing, t, newId, fault) ==>
      o.editor == Editor(false, None, DefaultForm, e.rows) && o.effects == Effects(true, false)
    ensures e.editing.Some? && !SubmitFails(e.editing, t, newId, fault) ==>
      var id := e.editing.value.id;
      && o.table.Keys == t.Keys
      && (forall k :: k in t && k != id ==> o.table[k] == t[k])
      && (id in t ==> o.table[id] == Patch(t[id], e.form))
    ensures e.editing.None? && !SubmitFails(e.editing, t, newId, fault) ==>
      && o.table.Keys == t.Keys + {newId}
      && o.table[newId] == Create(e.form)
      && (forall k :: k in t ==> o.table[k] == t[k])
  {
    Submit(e, t, e.form, Patch, Create, newId, fault, DefaultForm, false)
  }

  function EditResource(e: Editor<Resource, ResourceForm>, row: Row<Resource>): (r: Editor<Resource, ResourceForm>)
    ensures r.dialogOpen && r.editing == Some(row) && r.form == FormOf(row.fields) && r.rows == e.rows
  {
    Edit(e, row, FormOf)
  }

  /** `handleDelete`: behind a confirm; success refetches. */
  function DeleteResource(t: Table<Resource>, id: Id, confirmed: bool, fault: Option<string>): (r: (Table<Resource>, Effects))
    ensures !confirmed || fault.Some? ==> r == (t, NoEffects)
    ensures confirmed && fault.None? ==>
      && r.0.Keys == t.Keys - {id}
      && (forall k :: k in r.0 ==> r.0[k] == t[k])
      && r.1 == Effects(true, false)
  {
    Delete(t, id, confirmed, fault, false)
  }

  /** No submit, whatever the form holds, changes any row's download count. */
  lemma SubmitKeepsDownloads(e: Editor<Resource, ResourceForm>, t: Table<Resource>, newId: Id, fault: Option<string>)
    ensures var o := SubmitResource(e, t, newId, fault);
      forall k :: k in t ==> k in o.table && o.table[k].downloads == t[k].downloads
  {
  }

  /** Edits and downloads interleave cleanly: after an edit of a resource
      with a non-empty file address, a download from a fresh copy still
      counts one more than before the edit. */
  lemma EditThenDownloadCounts(e: Editor<Resource, ResourceForm>, t: Table<Resource>, row: Row<Resource>, newId: Id)
    requires row.id in t
    requires var t' := SubmitResource(EditResource(e, row), t, newId, None).table; t'[row.id].fileUrl != ""
    ensures var t' := SubmitResource(EditResource(e, row), t, newId, None).table;
      var after := ResourcesPage.HandleDownload(t', Row(row.id, t'[row.id]), None).table;
      after[row.id].downloads == Some(t[row.id].downloads.GetOr(0) + 1)
  {
  }
}
