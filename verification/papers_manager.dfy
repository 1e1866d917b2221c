/** The past-papers editor: the shared editor pattern over `past_papers`,
    with the year defaulting to the current one and the dashboard told of
    every change. */
module PapersManager {
  import opened Wrappers
  import opened Schema
  import opened Store
  import opened Editor

  /** `formData`: the two links are plain text, empty when absent. */
  datatype PaperForm = PaperForm(title: string, subject: string, paperType: string, year: int,
                                 session: string, questionPaperUrl: string, markSchemeUrl: string)

  /** The form as mounted and after each successful save. */
  function DefaultForm(currentYear: int): (f: PaperForm)
    ensures f.year == currentYear
    ensures f.title == "" && f.subject == "" && f.paperType == "" && f.session == ""
    ensures f.questionPaperUrl == "" && f.markSchemeUrl == ""
  {
    PaperForm("", "", "", currentYear, "", "", "")
  }

  /** `update(formData)`: all seven columns written, empty links as `''`. */
  function Patch(p: PastPaper, f: PaperForm): (r: PastPaper)
    ensures r.title == f.title && r.subject == f.subject && r.paperType == f.paperType
    ensures r.year == f.year && r.session == f.session
    ensures r.questionPaperUrl == Some(f.questionPaperUrl) && r.markSchemeUrl == Some(f.markSchemeUrl)
  {
    PastPaper(f.title, f.subject, f.paperType, f.year, f.session, Some(f.questionPaperUrl), Some(f.markSchemeUrl))
  }

  /** `insert(formData)`. */
  function Create(f: PaperForm): (r: PastPaper)
    ensures r == Patch(r, f)
  {
    PastPaper(f.title, f.subject, f.paperType, f.year, f.session, Some(f.questionPaperUrl), Some(f.markSchemeUrl))
  }

  /** `handleEdit`'s copy: the five required fields as stored, a missing
      link as `''`. */
  function FormOf(p: PastPaper): (f: PaperForm)
    ensures f.title == p.title && f.subject == p.subject && f.paperType == p.paperType
    ensures f.year == p.year && f.session == p.session
    ensures f.questionPaperUrl == OrElse(p.questionPaperUrl, "") && f.markSchemeUrl == OrElse(p.markSchemeUrl, "")
  {
    PaperForm(p.title, p.subject, p.paperType, p.year, p.session,
              OrElse(p.questionPaperUrl, ""), OrElse(p.markSchemeUrl, ""))
  }

  /** `handleSubmit`: the shared submit; the form resets with this year
      and both `fetchPapers` and `onUpdate` run on success. */
  function SubmitPaper(e: Editor<PastPaper, PaperForm>, t: Table<PastPaper>, newId: Id, fault: Option<string>, currentYear: int)
    : (o: Outcome<PastPaper, PaperForm>)
    ensures SubmitFails(e.editing, t, newId, fault) ==> o == Outcome(e, t, NoEffects)
    ensures !SubmitFails(e.editing, t, newId, fault) ==>
      o.editor == Editor(false, None, DefaultForm(currentYear), e.rows) && o.effects == Effects(true, true)
    ensures e.editing.Some? && !SubmitFails(e.editing, t, newId, fault) ==>
      var id := e.editing.value.id;
      && o.table.Keys == t.Keys
      && (forall k :: k in t && k != id ==> o.table[k] == t[k])
      && (id in t ==> o.table[id] == Patch(t[id], e.form))
    ensures e.editing.None? && !SubmitFails(e.editing, t, newId, fault) ==>
      && o.table.Keys == t.Keys + {newId}
      && o.table[newId] == Create(e.form)
      && (forall k :: k in t ==> o.table[k] == t[k])
  {
    Submit(e, t, e.form, Patch, Create, newId, fault, DefaultForm(currentYear), true)
  }

  function EditPaper(e: Editor<PastPaper, PaperForm>, row: Row<PastPaper>): (r: Editor<PastPaper, PaperForm>)
    ensures r.dialogOpen && r.editing == Some(row) && r.form == FormOf(row.fields) && r.rows == e.rows
  {
    Edit(e, row, FormOf)
  }

  /** `handleDelete`: behind a confirm; success refetches and calls `onUpdate`. */
  function DeletePaper(t: Table<PastPaper>, id: Id, confirmed: bool, fault: Option<string>): (r: (Table<PastPaper>, Effects))
    ensures !confirmed || fault.Some? ==> r == (t, NoEffects)
    ensures confirmed && fault.None? ==>
      && r.0.Keys == t.Keys - {id}
      && (forall k :: k in r.0 ==> r.0[k] == t[k])
      && r.1 == Effects(true, true)
  {
    Delete(t, id, confirmed, fault, true)
  }

  /** Opening a paper and saving it untouched keeps every field; a missing
      link comes back as `''`, which the public page treats alike: no link
      before, no link after, and a present link unchanged. */
  lemma SaveUnchangedKeepsPaper(e: Editor<PastPaper, PaperForm>, t: Table<PastPaper>, row: Row<PastPaper>, newId: Id, year: int)
    requires row.id in t && t[row.id] == row.fields
    ensures var p := row.fields;
      var after := SubmitPaper(EditPaper(e, row), t, newId, None, year).table[row.id];
      && after.(questionPaperUrl := p.questionPaperUrl, markSchemeUrl := p.markSchemeUrl) == p
      && (Present(after.questionPaperUrl) <==> Present(p.questionPaperUrl))
      && (Present(after.markSchemeUrl) <==> Present(p.markSchemeUrl))
      && (Present(p.questionPaperUrl) ==> after.questionPaperUrl == p.questionPaperUrl)
      && (Present(p.markSchemeUrl) ==> after.markSchemeUrl == p.markSchemeUrl)
  {
  }
}
