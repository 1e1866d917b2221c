/** The public contact form: four text fields and a `loading` flag around
    one insert into `contact_messages`. */
module ContactPage {
  import opened Wrappers
  import opened Schema
  import opened Store

  /** The component's state: the four controlled inputs and `loading`. */
  datatype Form = Form(name: string, email: string, subject: string, message: string, loading: bool)

  /** The form as it mounts, and as a successful send leaves it. */
  const Blank := Form("", "", "", "", false)

  /** `setLoading(true)` before the insert: the fields are untouched. */
  function BeginSubmit(f: Form): (r: Form)
    ensures r.loading
    ensures r.name == f.name && r.email == f.email && r.subject == f.subject && r.message == f.message
  {
    f.(loading := true)
  }

  /** The row the insert sends: the four fields as typed; `is_read`,
      `replied` are left to the column (null), `created_at` is the store's
      clock. */
  function NewMessage(f: Form, now: string): (m: ContactMessage)
    ensures m.name == f.name && m.email == f.email && m.subject == Some(f.subject) && m.message == f.message
    ensures m.isRead.None? && m.replied.None? && m.createdAt == now
  {
    ContactMessage(f.name, f.email, Some(f.subject), f.message, None, None, now)
  }

  /** The insert settles: `loading` is cleared either way; an error keeps
      what was typed, success clears all four fields. */
  function FinishSubmit(f: Form, t: Table<ContactMessage>, newId: Id, fault: Option<string>, now: string)
    : (r: (Form, Table<ContactMessage>, Reply))
    ensures !r.0.loading
    ensures r.2.Err? ==> r.0 == f.(loading := false) && r.1 == t
    ensures r.2.Ok? ==>
      && r.0 == Blank
      && r.1.Keys == t.Keys + {newId} && newId !in t
      && r.1[newId] == NewMessage(f, now)
      && (forall k :: k in t ==> r.1[k] == t[k])
  {
    var (t', reply) := InsertRow(t, newId, NewMessage(f, now), fault);
    if reply.Ok? then (Blank, t', reply) else (f.(loading := false), t, reply)
  }

  /** The send button is disabled exactly while the insert is pending. */
  predicate SubmitDisabled(f: Form) {
    f.loading
  }

  /** A send always ends with the button enabled again, and a failed send
      can be resent as it stands: the retry inserts the same message. */
  lemma ResendAfterFailure(f: Form, t: Table<ContactMessage>, newId: Id, m: string, now: string)
    requires newId !in t
    ensures var failed := FinishSubmit(BeginSubmit(f), t, newId, Some(m), now);
      && !SubmitDisabled(failed.0)
      && failed.1 == t
      && FinishSubmit(BeginSubmit(failed.0), failed.1, newId, None, now)
           == FinishSubmit(BeginSubmit(f), t, newId, None, now)
      && FinishSubmit(BeginSubmit(f), t, newId, None, now).1[newId] == NewMessage(f, now)
  {
  }
}
