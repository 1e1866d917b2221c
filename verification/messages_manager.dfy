/** The admin inbox: the list of contact messages, the read and replied
    flags the admin sets, deletion, the detail dialog, and the reply link. */
module MessagesManager {
  import opened Wrappers
  import opened Schema
  import opened Store
  import opened Editor
  import opened Mailto
  import opened Dashboard
  import ContactPage

  /** The component's state: the fetched list, the message in the dialog
      and whether the dialog is open. */
  datatype Inbox = Inbox(messages: seq<Row<ContactMessage>>, selected: Option<Row<ContactMessage>>, dialogOpen: bool)

  /** `fetchMessages`: an error keeps the list, success stores `data || []`. */
  function FetchMessages(i: Inbox, reply: Fetched<Row<ContactMessage>>): (r: Inbox)
    ensures reply.Failed? ==> r == i
    ensures reply.Data? ==> r == i.(messages := reply.rows.GetOr([]))
  {
    i.(messages := ApplyFetch(i.messages, reply))
  }

  /** One flag write on one message: on success only that row changes,
      and the list is refetched and the dashboard told; an error does
      neither. */
  function SetFlag(t: Table<ContactMessage>, id: Id, flag: ContactMessage -> ContactMessage, fault: Option<string>)
    : (r: (Table<ContactMessage>, Effects))
    ensures fault.Some? ==> r == (t, NoEffects)
    ensures fault.None? ==>
      && r.1 == Effects(true, true)
      && r.0.Keys == t.Keys
      && (forall k :: k in t && k != id ==> r.0[k] == t[k])
      && (id in t ==> r.0[id] == flag(t[id]))
  {
    var (t', reply) := UpdateRow(t, id, flag, fault);
    if reply.Err? then (t, NoEffects) else (t', Effects(true, true))
  }

  /** `markAsRead(id)`: `is_read = true` on that row only. */
  function MarkAsRead(t: Table<ContactMessage>, id: Id, fault: Option<string>): (r: (Table<ContactMessage>, Effects))
    ensures fault.Some? ==> r == (t, NoEffects)
    ensures fault.None? ==> r.1 == Effects(true, true) && r.0.Keys == t.Keys
    ensures fault.None? ==> forall k :: k in t && k != id ==> r.0[k] == t[k]
    ensures fault.None? && id in t ==> r.0[id] == t[id].(isRead := Some(true))
  {
    SetFlag(t, id, (m: ContactMessage) => m.(isRead := Some(true)), fault)
  }

  /** `markAsReplied(id)`: `replied = true` on that row only. */
  function MarkAsReplied(t: Table<ContactMessage>, id: Id, fault: Option<string>): (r: (Table<ContactMessage>, Effects))
    ensures fault.Some? ==> r == (t, NoEffects)
    ensures fault.None? ==> r.1 == Effects(true, true) && r.0.Keys == t.Keys
    ensures fault.None? ==> forall k :: k in t && k != id ==> r.0[k] == t[k]
    ensures fault.None? && id in t ==> r.0[id] == t[id].(replied := Some(true))
  {
    SetFlag(t, id, (m: ContactMessage) => m.(replied := Some(true)), fault)
  }

  /** Marking an unread message read takes exactly one off the unread
      count; marking a read one leaves the count alone. */
  lemma MarkAsReadCounts(t: Table<ContactMessage>, id: Id)
    requires id in t
    ensures var after := MarkAsRead(t, id, None).0;
      |UnreadIds(after)| == |UnreadIds(t)| - (if Truthy(t[id].isRead) then 0 else 1)
  {
    var after := MarkAsRead(t, id, None).0;
    UnreadIdsRemove(t, id);
    UnreadIdsRemove(after, id);
    assert after - {id} == t - {id};
  }

  /** Marking read twice is marking read once. */
  lemma MarkAsReadIdempotent(t: Table<ContactMessage>, id: Id)
    ensures var once := MarkAsRead(t, id, None).0;
      MarkAsRead(once, id, None).0 == once
  {
  }

  /** `handleDelete(id)`: behind a confirm; success refetches and tells
      the dashboard. */
  function DeleteMessage(t: Table<ContactMessage>, id: Id, confirmed: bool, fault: Option<string>)
    : (r: (Table<ContactMessage>, Effects))
    ensures !confirmed || fault.Some? ==> r == (t, NoEffects)
    ensures confirmed && fault.None? ==>
      && r.0.Keys == t.Keys - {id}
      && (forall k :: k in r.0 ==> r.0[k] == t[k])
      && r.1 == Effects(true, true)
  {
    Delete(t, id, confirmed, fault, true)
  }

  /** `handleViewMessage(message)`: open the dialog on the message, and
      mark it read when the list's copy says it is unread; a read one
      causes no write. */
  function ViewMessage(i: Inbox, t: Table<ContactMessage>, m: Row<ContactMessage>, fault: Option<string>)
    : (r: (Inbox, Table<ContactMessage>, Effects))
    ensures r.0 == i.(selected := Some(m), dialogOpen := true)
    ensures Truthy(m.fields.isRead) ==> r.1 == t && r.2 == NoEffects
    ensures !Truthy(m.fields.isRead) ==> (r.1, r.2) == MarkAsRead(t, m.id, fault)
  {
    var shown := i.(selected := Some(m), dialogOpen := true);
    if !Truthy(m.fields.isRead) then
      var (t', effects) := MarkAsRead(t, m.id, fault);
      (shown, t', effects)
    else (shown, t, NoEffects)
  }

  /** Opening a listed unread message marks it read in the store; once the
      list is refetched, opening it again writes nothing. */
  lemma ViewThenRefetchWritesOnce(i: Inbox, t: Table<ContactMessage>, m: Row<ContactMessage>,
                                  listing: seq<Row<ContactMessage>>, k: nat)
    requires m.id in t && t[m.id] == m.fields && !Truthy(m.fields.isRead)
    requires var (_, t', _) := ViewMessage(i, t, m, None);
      Lists(listing, t') && k < |listing| && listing[k].id == m.id
    ensures var (i', t', effects) := ViewMessage(i, t, m, None);
      && effects == Effects(true, true)
      && Truthy(t'[m.id].isRead)
      && var refreshed := FetchMessages(i', Data(Some(listing)));
         ViewMessage(refreshed, t', refreshed.messages[k], None).1 == t'
  {
  }

  /** The reply buttons: the `mailto:` link as written, and an
      unconditional `markAsReplied`, whatever the mail client then does. */
  function Reply(t: Table<ContactMessage>, m: Row<ContactMessage>, fault: Option<string>)
    : (r: (string, Table<ContactMessage>, Effects))
    ensures r.0 == ReplyUri(m.fields.email, m.fields.subject)
    ensures (r.1, r.2) == MarkAsReplied(t, m.id, fault)
  {
    var (t', effects) := MarkAsReplied(t, m.id, fault);
    (ReplyUri(m.fields.email, m.fields.subject), t', effects)
  }

  /** A reply whose address and subject hold none of `?`, `&`, `#`, `%` opens
      a mail to the sender with the intended subject, and marks the
      message replied. */
  lemma PlainReplyReadsBack(t: Table<ContactMessage>, m: Row<ContactMessage>)
    requires m.id in t
    requires '?' !in m.fields.email && '%' !in m.fields.email && '#' !in m.fields.email
    requires var s := ReplySubject(m.fields.subject); '&' !in s && '#' !in s && '%' !in s
    ensures var (uri, t', _) := Reply(t, m, None);
      && Read(uri) == Some(Mail(m.fields.email, Some(ReplySubject(m.fields.subject))))
      && Truthy(t'[m.id].replied)
  {
    ReplyUriPlain(m.fields.email, m.fields.subject);
  }

  /** A reply to a subject with `&` or `#` in it opens a mail whose subject
      is cut there, yet the message is recorded as replied. */
  lemma TruncatedReplyStillMarked(t: Table<ContactMessage>, m: Row<ContactMessage>, before: string, cut: char, after: string)
    requires m.id in t
    requires cut == '&' || cut == '#'
    requires m.fields.subject == Some(before + [cut] + after)
    requires '?' !in m.fields.email && '%' !in m.fields.email && '#' !in m.fields.email
    requires '&' !in before && '#' !in before && '%' !in before
    ensures var (uri, t', _) := Reply(t, m, None);
      && Read(uri) == Some(Mail(m.fields.email, Some("Re: " + before)))
      && Truthy(t'[m.id].replied)
  {
    ReplyUriTruncates(m.fields.email, before, cut, after);
  }

  /** The badges in the status column. */
  datatype Status = Status(badge: string, repliedBadge: bool)

  /** `Read` or `Unread` from `is_read`, and the `Replied` badge iff
      `replied` is true; null counts as false for both. */
  function StatusOf(m: ContactMessage): (s: Status)
    ensures s.badge == "Read" <==> Truthy(m.isRead)
    ensures s.badge == "Unread" <==> !Truthy(m.isRead)
    ensures s.repliedBadge <==> Truthy(m.replied)
  {
    Status(if Truthy(m.isRead) then "Read" else "Unread", Truthy(m.replied))
  }

  /** `subject || 'No subject'`. */
  function SubjectText(m: ContactMessage): (r: string)
    ensures r != ""
    ensures Present(m.subject) ==> r == m.subject.value
  {
    OrElse(m.subject, "No subject")
  }

  /** A message sent from the contact form reaches the inbox unread and
      unreplied, adds one to the unread count, and shows "No subject" when
      the subject field was left empty. */
  lemma SentMessageArrivesUnread(f: ContactPage.Form, t: Table<ContactMessage>, newId: Id, now: string)
    requires newId !in t
    ensures var (_, t', _) := ContactPage.FinishSubmit(f, t, newId, None, now);
      && StatusOf(t'[newId]) == Status("Unread", false)
      && |UnreadIds(t')| == |UnreadIds(t)| + 1
      && (f.subject == "" ==> SubjectText(t'[newId]) == "No subject")
  {
    var (_, t', _) := ContactPage.FinishSubmit(f, t, newId, None, now);
    UnreadIdsRemove(t', newId);
    assert t' - {newId} == t;
  }
}
