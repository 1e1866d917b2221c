/** The blog editor: the shared editor pattern over `blog_posts`, with the
    tags edited as one comma-separated text and the publication stamp set
    on every save. */
module BlogManager {
  import opened Wrappers
  import opened Text
  import opened Schema
  import opened Store
  import opened Editor

  // ---------------------------------------------------------------------------
  // The tags codec

  /** `parts.map(tag => tag.trim())`. */
  function TrimAll(parts: seq<string>): (r: seq<string>)
    ensures |r| == |parts|
    ensures forall i :: 0 <= i < |parts| ==> r[i] == Trim(parts[i])
  {
    Map(parts, Trim)
  }

  /** The tags as saved: `''` gives no tags; anything else is split at
      every comma and each piece trimmed, empty pieces included. */
  function ParseTags(s: string): (r: seq<string>)
    ensures s == "" ==> r == []
    ensures s != "" ==> |r| == Count(s, ',') + 1
    ensures s != "" ==> forall i :: 0 <= i < |r| ==> r[i] == Trim(Split(s, ',')[i])
    ensures forall i :: 0 <= i < |r| ==> Trimmed(r[i]) && ',' !in r[i]
  {
    if s == "" then []
    else
      var parts := Split(s, ',');
      forall i | 0 <= i < |parts|
        ensures ',' !in Trim(parts[i])
      {
        TrimKeepsFree(parts[i], ',');
      }
      TrimAll(parts)
  }

  /** `tags?.join(', ') || ''`: the text the form shows for a post's tags. */
  function EditText(tags: Option<seq<string>>): (r: string)
    ensures tags.None? ==> r == ""
    ensures tags.Some? ==> r == Join(tags.value, ", ")
  {
    if tags.Some? then Join(tags.value, ", ") else ""
  }

  /** A tag the codec carries unchanged: non-empty, comma-free, trimmed. */
  predicate PlainTag(tag: string) {
    tag != "" && ',' !in tag && Trimmed(tag)
  }

  /** Trimming each piece distributes over a leading piece. */
  lemma TrimAllCons(a: string, rest: seq<string>)
    ensures TrimAll([a] + rest) == [Trim(a)] + TrimAll(rest)
  {
    MapCons(a, rest, Trim);
  }

  /** A space in front of the text only reaches the first piece, and
      trimming removes it again. */
  lemma TrimAllSpaceFront(s: string)
    ensures TrimAll(Split([' '] + s, ',')) == TrimAll(Split(s, ','))
  {
    var rest := Split(s, ',');
    assert ([' '] + s)[1..] == s;
    assert Split([' '] + s, ',') == [[' '] + rest[0]] + rest[1..];
    TrimLeadingSpace(' ', rest[0]);
    TrimAllCons([' '] + rest[0], rest[1..]);
    TrimAllCons(rest[0], rest[1..]);
    HeadTail(rest);
  }

  /** One plain tag in front of `", "` and a text that parses to `tail`
      parses to the tag followed by `tail`. */
  lemma JoinedStep(tag: string, rest: string, tail: seq<string>)
    requires ',' !in tag && Trim(tag) == tag
    requires TrimAll(Split(rest, ',')) == tail
    ensures TrimAll(Split(tag + [','] + ([' '] + rest), ',')) == [tag] + tail
  {
    SplitCons(tag, [' '] + rest, ',');
    TrimAllCons(tag, Split([' '] + rest, ','));
    TrimAllSpaceFront(rest);
  }

  /** Splitting one or more plain tags joined with `", "` at the commas and
      trimming every piece gives the tags back. */
  lemma {:induction false} ParseJoinedTags(tags: seq<string>)
    requires |tags| >= 1
    requires forall i :: 0 <= i < |tags| ==> PlainTag(tags[i])
    ensures TrimAll(Split(Join(tags, ", "), ',')) == tags
    decreases |tags|
  {
    if |tags| == 1 {
      TrimTrimmed(tags[0]);
      SplitFree(tags[0], ',');
    } else {
      var tail := tags[1..];
      var rest := Join(tail, ", ");
      assert TrimAll(Split(rest, ',')) == tail by {
        forall i | 0 <= i < |tail| ensures PlainTag(tail[i]) {
          assert tail[i] == tags[i + 1];
        }
        ParseJoinedTags(tail);
      }
      assert PlainTag(tags[0]);
      TrimTrimmed(tags[0]);
      JoinedStep(tags[0], rest, tail);
      JoinTwoOrMore(tags);
      HeadTail(tags);
    }
  }

  /** A join of two or more tags is the first, a comma, a space and the
      join of the rest. */
  lemma JoinTwoOrMore(tags: seq<string>)
    requires |tags| >= 2
    ensures Join(tags, ", ") == tags[0] + [','] + ([' '] + Join(tags[1..], ", "))
  {
  }

  /** Plain tags survive a trip through the form: the text `handleEdit`
      shows parses back to the same list, and no tags at all edit as `''`
      and parse back to none. */
  lemma TagsRoundTrip(tags: seq<string>)
    requires forall i :: 0 <= i < |tags| ==> PlainTag(tags[i])
    ensures ParseTags(EditText(Some(tags))) == tags
    ensures ParseTags(EditText(None)) == []
  {
    if |tags| > 0 {
      var text := Join(tags, ", ");
      assert text != "" by {
        if |tags| > 1 {
          assert text == tags[0] + ", " + Join(tags[1..], ", ");
        }
      }
      ParseJoinedTags(tags);
    }
  }

  /** White space alone, with no comma, still saves one tag: the empty one. */
  lemma BlankTagsGiveEmptyTag(s: string)
    requires s != "" && forall i :: 0 <= i < |s| ==> IsSpace(s[i])
    ensures ParseTags(s) == [""]
  {
    assert ',' !in s by {
      assert !IsSpace(',');
    }
    SplitFree(s, ',');
  }

  // ---------------------------------------------------------------------------
  // Form, payload and the store row

  datatype BlogForm = BlogForm(title: string, excerpt: string, content: string, tags: string,
                               category: string, published: bool, readTime: string)

  /** The form as mounted and after each successful save: unpublished. */
  const DefaultForm := BlogForm("", "", "", "", "", false, "")

  /** `postData`: the form's fields, the parsed tags, and the stamp. */
  datatype PostData = PostData(title: string, excerpt: string, content: string, tags: seq<string>,
                               category: string, published: bool, publishedAt: Option<string>, readTime: string)

  /** The stamp is the save time when the form says published and null
      otherwise, so every save of a published post re-stamps it and
      unpublishing clears it. */
  function PostDataOf(f: BlogForm, now: string): (d: PostData)
    ensures d.tags == ParseTags(f.tags)
    ensures d.published == f.published
    ensures d.publishedAt.Some? <==> f.published
    ensures d.publishedAt.Some? ==> d.publishedAt.value == now
    ensures d.title == f.title && d.excerpt == f.excerpt && d.content == f.content
    ensures d.category == f.category && d.readTime == f.readTime
  {
    PostData(f.title, f.excerpt, f.content, ParseTags(f.tags), f.category, f.published,
             if f.published then Some(now) else None, f.readTime)
  }

  /** `update(postData)`: every column of the payload is written, empty
      text as empty text; `created_at` stays. */
  function Patch(p: BlogPost, d: PostData): (r: BlogPost)
    ensures r.createdAt == p.createdAt
    ensures r.title == d.title && r.excerpt == Some(d.excerpt) && r.content == d.content
    ensures r.category == Some(d.category) && r.readTime == Some(d.readTime)
    ensures r.tags == Some(d.tags) && r.publishedAt == d.publishedAt && r.published == d.published
  {
    BlogPost(d.title, Some(d.excerpt), d.content, Some(d.tags), Some(d.category), d.published,
             d.publishedAt, Some(d.readTime), p.createdAt)
  }

  /** `insert(postData)`, with `created_at` filled in by the store. */
  function Create(now: string, d: PostData): (r: BlogPost)
    ensures r.createdAt == now
    ensures r == Patch(r, d)
  {
    BlogPost(d.title, Some(d.excerpt), d.content, Some(d.tags), Some(d.category),
             d.published, d.publishedAt, Some(d.readTime), now)
  }

  /** `handleEdit`'s copy of a post into the form. */
  function FormOf(p: BlogPost): (f: BlogForm)
    ensures f.title == p.title && f.content == p.content
    ensures f.tags == EditText(p.tags)
    ensures f.published == p.published
    ensures f.excerpt == OrElse(p.excerpt, "") && f.category == OrElse(p.category, "")
    ensures f.readTime == OrElse(p.readTime, "")
  {
    BlogForm(p.title, OrElse(p.excerpt, ""), p.content, EditText(p.tags), OrElse(p.category, ""),
             p.published, OrElse(p.readTime, ""))
  }

  /** `handleSubmit`: the shared submit with this payload; no dashboard
      callback. */
  function SubmitPost(e: Editor<BlogPost, BlogForm>, t: Table<BlogPost>, newId: Id, fault: Option<string>, now: string)
    : (o: Outcome<BlogPost, BlogForm>)
    ensures SubmitFails(e.editing, t, newId, fault) ==> o == Outcome(e, t, NoEffects)
    ensures !SubmitFails(e.editing, t, newId, fault) ==>
      o.editor == Editor(false, None, DefaultForm, e.rows) && o.effects == Effects(true, false)
    ensures e.editing.Some? && !SubmitFails(e.editing, t, newId, fault) ==>
      var id := e.editing.value.id;
      && o.table.Keys == t.Keys
      && (forall k :: k in t && k != id ==> o.table[k] == t[k])
      && (id in t ==> o.table[id] == Patch(t[id], PostDataOf(e.form, now)))
    ensures e.editing.None? && !SubmitFails(e.editing, t, newId, fault) ==>
      && o.table.Keys == t.Keys + {newId}
      && o.table[newId] == Create(now, PostDataOf(e.form, now))
      && o.table[newId].createdAt == now
      && o.table[newId].tags == Some(ParseTags(e.form.tags))
      && o.table[newId].publishedAt == (if e.form.published then Some(now) else None)
      && (forall k :: k in t ==> o.table[k] == t[k])
  {
    Submit(e, t, PostDataOf(e.form, now), Patch, (d: PostData) => Create(now, d), newId, fault, DefaultForm, false)
  }

  /** `handleEdit`. */
  function EditPost(e: Editor<BlogPost, BlogForm>, row: Row<BlogPost>): (r: Editor<BlogPost, BlogForm>)
    ensures r.dialogOpen && r.editing == Some(row) && r.form == FormOf(row.fields) && r.rows == e.rows
  {
    Edit(e, row, FormOf)
  }

  /** `handleDelete`: behind a confirm; no dashboard callback. */
  function DeletePost(t: Table<BlogPost>, id: Id, confirmed: bool, fault: Option<string>): (r: (Table<BlogPost>, Effects))
    ensures !confirmed || fault.Some? ==> r == (t, NoEffects)
    ensures confirmed && fault.None? ==>
      && r.0.Keys == t.Keys - {id}
      && (forall k :: k in r.0 ==> r.0[k] == t[k])
      && r.1 == Effects(true, false)
  {
    Delete(t, id, confirmed, fault, false)
  }

  /** Opening a post and saving it untouched keeps its plain tags, keeps
      `published`, and moves the stamp to the save time (or clears it for a
      draft). */
  lemma EditAndSaveUnchanged(e: Editor<BlogPost, BlogForm>, t: Table<BlogPost>, row: Row<BlogPost>, newId: Id, now: string)
    requires row.id in t && t[row.id] == row.fields
    requires row.fields.tags.Some? ==> forall i :: 0 <= i < |row.fields.tags.value| ==> PlainTag(row.fields.tags.value[i])
    ensures var after := SubmitPost(EditPost(e, row), t, newId, None, now).table[row.id];
      && after.tags == Some(row.fields.tags.GetOr([]))
      && after.published == row.fields.published
      && after.publishedAt == (if row.fields.published then Some(now) else None)
      && after.createdAt == row.fields.createdAt
  {
    if row.fields.tags.Some? {
      TagsRoundTrip(row.fields.tags.value);
    } else {
      TagsRoundTrip([]);
    }
  }
}
