/** The video-lessons editor: the shared editor pattern over
    `video_lessons`, telling the dashboard of every change. */
module VideosManager {
  import opened Wrappers
  import opened Schema
  import opened Store
  import opened Editor

  /** `formData`: the optional columns as plain text, empty when absent. */
  datatype VideoForm = VideoForm(title: string, youtubeUrl: string, topic: string, unit: string,
                                 description: string, notesUrl: string, duration: string)

  const DefaultForm := VideoForm("", "", "", "", "", "", "")

  /** `update(formData)`: all seven columns written, empty text as `''`. */
  function Patch(v: VideoLesson, f: VideoForm): (r: VideoLesson)
    ensures r.title == f.title && r.topic == f.topic && r.unit == f.unit && r.youtubeUrl == f.youtubeUrl
    ensures r.description == Some(f.description) && r.notesUrl == Some(f.notesUrl) && r.duration == Some(f.duration)
  {
    VideoLesson(f.title, f.youtubeUrl, f.topic, f.unit, Some(f.description), Some(f.notesUrl), Some(f.duration))
  }

  /** `insert(formData)`. */
  function Create(f: VideoForm): (r: VideoLesson)
    ensures r == Patch(r, f)
  {
    VideoLesson(f.title, f.youtubeUrl, f.topic, f.unit, Some(f.description), Some(f.notesUrl), Some(f.duration))
  }

  /** `handleEdit`'s copy: a missing description, notes link or duration
      as `''`. */
  function FormOf(v: VideoLesson): (f: VideoForm)
    ensures f.title == v.title && f.youtubeUrl == v.youtubeUrl && f.topic == v.topic && f.unit == v.unit
    ensures f.description == OrElse(v.description, "") && f.notesUrl == OrElse(v.notesUrl, "")
    ensures f.duration == OrElse(v.duration, "")
  {
    VideoForm(v.title, v.youtubeUrl, v.topic, v.unit, OrElse(v.description, ""), OrElse(v.notesUrl, ""),
              OrElse(v.duration, ""))
  }

  /** `handleSubmit`: the shared submit; both `fetchVideos` and `onUpdate`
      run on success. */
  function SubmitVideo(e: Editor<VideoLesson, VideoForm>, t: Table<VideoLesson>, newId: Id, fault: Option<string>)
    : (o: Outcome<VideoLesson, VideoForm>)
    ensures SubmitFails(e.editing, t, newId, fault) ==> o == Outcome(e, t, NoEffects)
    ensures !SubmitFails(e.editing, t, newId, fault) ==>
      o.editor == Editor(false, None, DefaultForm, e.rows) && o.effects == Effects(true, true)
    ensures e.editing.Some? && !SubmitFails(e.editing, t, newId, fault) ==>
      var id := e.editing.value.id;
      && o.table.Keys == t.Keys
      && (forall k :: k in t && k != id ==> o.table[k] == t[k])
      && (id in t ==> o.table[id] == Patch(t[id], e.form))
    ensures e.editing.None? && !SubmitFails(e.editing, t, newId, fault) ==>
      && o.table.Keys == t.Keys + {newId}
      && o.table[newId] == Create(e.form)
      && (forall k :: k in t ==> o.table[k] == t[k])
  {
    Submit(e, t, e.form, Patch, Create, newId, fault, DefaultForm, true)
  }

  function EditVideo(e: Editor<VideoLesson, VideoForm>, row: Row<VideoLesson>): (r: Editor<VideoLesson, VideoForm>)
    ensures r.dialogOpen && r.editing == Some(row) && r.form == FormOf(row.fields) && r.rows == e.rows
  {
    Edit(e, row, FormOf)
  }

  /** `handleDelete`: behind a confirm; success refetches and calls `onUpdate`. */
  function DeleteVideo(t: Table<VideoLesson>, id: Id, confirmed: bool, fault: Option<string>): (r: (Table<VideoLesson>, Effects))
    ensures !confirmed || fault.Some? ==> r == (t, NoEffects)
    ensures confirmed && fault.None? ==>
      && r.0.Keys == t.Keys - {id}
      && (forall k :: k in r.0 ==> r.0[k] == t[k])
      && r.1 == Effects(true, true)
  {
    Delete(t, id, confirmed, fault, true)
  }

  /** The table's duration column: `duration || 'N/A'`. */
  function DurationText(v: VideoLesson): (r: string)
    ensures r != ""
    ensures Present(v.duration) ==> r == v.duration.value
    ensures !Present(v.duration) ==> r == "N/A"
  {
    OrElse(v.duration, "N/A")
  }

  /** Opening a lesson and saving it untouched keeps its title, link, topic
      and unit (so its group on the public page), and the duration column
      reads the same before and after. */
  lemma SaveUnchangedKeepsLesson(e: Editor<VideoLesson, VideoForm>, t: Table<VideoLesson>, row: Row<VideoLesson>, newId: Id)
    requires row.id in t && t[row.id] == row.fields
    ensures var v := row.fields;
      var after := SubmitVideo(EditVideo(e, row), t, newId, None).table[row.id];
      && after.(description := v.description, notesUrl := v.notesUrl, duration := v.duration) == v
      && DurationText(after) == DurationText(v)
  {
  }
}
