/** The home page's testimonial section: the three newest active
    testimonials from the store, or three built-in ones when the store
    has none to show. */
module HomePage {
  import opened Wrappers
  import opened TextOrder
  import opened Schema
  import opened Store

  /** The keys of the active testimonials. */
  ghost function ActiveIds(t: Table<Testimonial>): set<Id> {
    set k | k in t && t[k].isActive
  }

  /** What the select (`is_active = true`, newest `created_at` first,
      limit 3) answers: distinct active rows of the table, as many as there
      are up to three, newest first, and no active row left out that is
      newer than one returned. */
  ghost predicate QueryAnswer(t: Table<Testimonial>, rows: seq<Row<Testimonial>>) {
    && (forall i :: 0 <= i < |rows| ==> rows[i].id in t && t[rows[i].id] == rows[i].fields && rows[i].fields.isActive)
    && (forall i, j :: 0 <= i < j < |rows| ==> rows[i].id != rows[j].id)
    && |rows| == (if |ActiveIds(t)| < 3 then |ActiveIds(t)| else 3)
    && (forall i, j :: 0 <= i < j < |rows| ==> !Less(rows[i].fields.createdAt, rows[j].fields.createdAt))
    && (forall k, i :: k in ActiveIds(t) && 0 <= i < |rows| && Less(rows[i].fields.createdAt, t[k].createdAt) ==>
          exists j :: 0 <= j < |rows| && rows[j].id == k)
  }

  /** An inactive testimonial is never returned, and the answer is empty
      exactly when the table holds no active testimonial. */
  lemma QueryAnswerEmpty(t: Table<Testimonial>, rows: seq<Row<Testimonial>>)
    requires QueryAnswer(t, rows)
    ensures |rows| == 0 <==> ActiveIds(t) == {}
    ensures forall k :: k in t && !t[k].isActive ==> forall i :: 0 <= i < |rows| ==> rows[i].id != k
  {
  }

  /** `fetchTestimonials`: an error is only logged and keeps the list;
      success stores `data || []`. */
  function FetchTestimonials(held: seq<Row<Testimonial>>, reply: Fetched<Row<Testimonial>>): (r: seq<Row<Testimonial>>)
    ensures reply.Failed? ==> r == held
    ensures reply.Data? ==> r == reply.rows.GetOr([])
  {
    ApplyFetch(held, reply)
  }

  /** A card: a stored testimonial, or a built-in one with its `grade`. */
  datatype Shown = Stored(row: Row<Testimonial>) | Fallback(quote: string, name: string, grade: string)

  const Fallbacks: seq<Shown> := [
    Fallback("Kweku's teaching style made complex calculus concepts so much easier to understand. I improved from a C to an A* in A-Level Maths!",
             "Sarah M.", "A-Level Student"),
    Fallback("The video lessons are incredibly clear and the past papers helped me prepare perfectly for my IGCSE exams.",
             "James K.", "IGCSE Student"),
    Fallback("Additional Maths was my biggest challenge, but Kweku's step-by-step approach made it click. Highly recommended!",
             "Ama T.", "Additional Maths Student")
  ]

  /** `displayTestimonials`: the fetched rows when there are any, in
      order, otherwise exactly the three built-in ones. */
  function Display(testimonials: seq<Row<Testimonial>>): (r: seq<Shown>)
    ensures |testimonials| > 0 ==> |r| == |testimonials| && forall i :: 0 <= i < |r| ==> r[i] == Stored(testimonials[i])
    ensures |testimonials| == 0 ==> r == Fallbacks
  {
    if |testimonials| > 0 then seq(|testimonials|, i requires 0 <= i < |testimonials| => Stored(testimonials[i]))
    else Fallbacks
  }

  /** The line under the name: `'Student'` for a row with an id, the
      built-in card's grade otherwise (a stored row without an id has no
      `grade` and shows nothing). */
  function Subtitle(s: Shown): (r: string)
    ensures s.Fallback? ==> r == s.grade
    ensures s.Stored? ==> (r == "Student" <==> s.row.id != "")
    ensures s.Stored? && s.row.id == "" ==> r == ""
  {
    match s
    case Stored(row) => if row.id != "" then "Student" else ""
    case Fallback(_, _, grade) => grade
  }

  function NameOf(s: Shown): string {
    match s
    case Stored(row) => row.fields.name
    case Fallback(_, name, _) => name
  }

  /** `name.charAt(0)`: the first character, or `''` for an empty name. */
  function Avatar(name: string): (r: string)
    ensures |name| > 0 ==> r == [name[0]]
    ensures |name| == 0 ==> r == ""
    ensures r <= name
  {
    if |name| > 0 then name[..1] else ""
  }

  /** From the store's answer to the query: when the table has no active
      testimonial the three built-in cards show with their grades; and
      otherwise every card is an active stored row subtitled "Student"
      (rows always carry a key). */
  lemma ShownFromStore(t: Table<Testimonial>, rows: seq<Row<Testimonial>>)
    requires QueryAnswer(t, rows)
    requires forall i :: 0 <= i < |rows| ==> rows[i].id != ""
    ensures ActiveIds(t) == {} ==> Display(rows) == Fallbacks
    ensures ActiveIds(t) == {} ==>
      forall i :: 0 <= i < 3 ==> Subtitle(Display(rows)[i]) == Fallbacks[i].grade
    ensures ActiveIds(t) != {} ==>
      && 1 <= |Display(rows)| <= 3
      && forall i :: 0 <= i < |Display(rows)| ==>
           Display(rows)[i].Stored? && Display(rows)[i].row.fields.isActive && Subtitle(Display(rows)[i]) == "Student"
  {
    QueryAnswerEmpty(t, rows);
  }

  /** Before any fetch succeeds (the first one failing, say) the built-in
      cards show, led by Sarah M. */
  lemma FailedFirstFetchShowsFallback(m: string)
    ensures Display(FetchTestimonials([], Failed(m))) == Fallbacks
    ensures Avatar(NameOf(Fallbacks[0])) == "S"
  {
  }
}
