/** The testimonials editor: the shared editor pattern over
    `testimonials`, with new testimonials active unless switched off. */
module TestimonialsManager {
  import opened Wrappers
  import opened Schema
  import opened Store
  import opened Editor

  datatype TestimonialForm = TestimonialForm(name: string, quote: string, imageUrl: string, isActive: bool)

  /** The form as mounted and after each successful save: active. */
  const DefaultForm := TestimonialForm("", "", "", true)

  /** `update(formData)`: the four columns written; `created_at` stays. */
  function Patch(r: Testimonial, f: TestimonialForm): (p: Testimonial)
    ensures p.name == f.name && p.quote == f.quote
    ensures p.isActive == f.isActive && p.imageUrl == Some(f.imageUrl) && p.createdAt == r.createdAt
  {
    Testimonial(f.name, f.quote, Some(f.imageUrl), f.isActive, r.createdAt)
  }

  /** `insert(formData)`, with `created_at` filled in by the store. */
  function Create(now: string, f: TestimonialForm): (r: Testimonial)
    ensures r.createdAt == now
    ensures r == Patch(r, f)
  {
    Testimonial(f.name, f.quote, Some(f.imageUrl), f.isActive, now)
  }

  /** `handleEdit`'s copy: `is_active` as stored, a missing image as `''`. */
  function FormOf(r: Testimonial): (f: TestimonialForm)
    ensures f.name == r.name && f.quote == r.quote && f.isActive == r.isActive
    ensures f.imageUrl == OrElse(r.imageUrl, "")
  {
    TestimonialForm(r.name, r.quote, OrElse(r.imageUrl, ""), r.isActive)
  }

  /** `handleSubmit`: the shared submit; success refetches, with no
      dashboard callback, and the form resets to active. */
  function SubmitTestimonial(e: Editor<Testimonial, TestimonialForm>, t: Table<Testimonial>, newId: Id,
                             fault: Option<string>, now: string)
    : (o: Outcome<Testimonial, TestimonialForm>)
    ensures SubmitFails(e.editing, t, newId, fault) ==> o == Outcome(e, t, NoEffects)
    ensures !SubmitFails(e.editing, t, newId, fault) ==>
      o.editor == Editor(false, None, DefaultForm, e.rows) && o.effects == Effects(true, false)
    ensures !SubmitFails(e.editing, t, newId, fault) ==> o.editor.form.isActive
    ensures e.editing.Some? && !SubmitFails(e.editing, t, newId, fault) ==>
      var id := e.editing.value.id;
      && o.table.Keys == t.Keys
      && (forall k :: k in t && k != id ==> o.table[k] == t[k])
      && (id in t ==> o.table[id] == Patch(t[id], e.form))
    ensures e.editing.None? && !SubmitFails(e.editing, t, newId, fault) ==>
      && o.table.Keys == t.Keys + {newId}
      && o.table[newId] == Create(now, e.form)
      && (forall k :: k in t ==> o.table[k] == t[k])
  {
    Submit(e, t, e.form, Patch, (f: TestimonialForm) => Create(now, f), newId, fault, DefaultForm, false)
  }

  function EditTestimonial(e: Editor<Testimonial, TestimonialForm>, row: Row<Testimonial>)
    : (r: Editor<Testimonial, TestimonialForm>)
    ensures r.dialogOpen && r.editing == Some(row) && r.form == FormOf(row.fields) && r.rows == e.rows
  {
    Edit(e, row, FormOf)
  }

  /** `handleDelete`: behind a confirm; success removes that row only and
      refetches. */
  function DeleteTestimonial(t: Table<Testimonial>, id: Id, confirmed: bool, fault: Option<string>)
    : (r: (Table<Testimonial>, Effects))
    ensures !confirmed || fault.Some? ==> r == (t, NoEffects)
    ensures confirmed && fault.None? ==>
      && r.0.Keys == t.Keys - {id}
      && (forall k :: k in r.0 ==> r.0[k] == t[k])
      && r.1 == Effects(true, false)
  {
    Delete(t, id, confirmed, fault, false)
  }

  /** A testimonial added from a freshly mounted or freshly reset form,
      with only name, quote and image typed in, is stored active. */
  lemma AddedFromDefaultsIsActive(rows: seq<Row<Testimonial>>, t: Table<Testimonial>, newId: Id,
                                  name: string, quote: string, image: string, now: string)
    requires newId !in t
    ensures var e := Editor(true, None, DefaultForm.(name := name, quote := quote, imageUrl := image), rows);
      SubmitTestimonial(e, t, newId, None, now).table[newId].isActive
  {
  }

  /** Opening a testimonial and saving it untouched keeps whether it is
      active, so an edit never hides or reveals it on the home page. */
  lemma SaveUnchangedKeepsActive(e: Editor<Testimonial, TestimonialForm>, t: Table<Testimonial>,
                                 row: Row<Testimonial>, newId: Id, now: string)
    requires row.id in t && t[row.id] == row.fields
    ensures var after := SubmitTestimonial(EditTestimonial(e, row), t, newId, None, now).table[row.id];
      && after.(imageUrl := row.fields.imageUrl) == row.fields
      && after.isActive == row.fields.isActive
  {
  }
}
