/** The public video-lessons page: the fetched videos grouped by unit, one
    tab per unit, and a thumbnail per video. */
module VideoLessonsPage {
  import opened Schema
  import opened Store
  import opened Seqs
  import opened Wrappers

  /** The group a video lands in: its unit, or `Other` when that is empty. */
  function UnitKey(v: VideoLesson): (k: string)
    ensures k != ""
    ensures v.unit != "" ==> k == v.unit
  {
    if v.unit == "" then "Other" else v.unit
  }

  /** `videosByUnit`: an object from unit to videos, whose keys keep the
      order they were first added in. */
  datatype Grouped = Grouped(units: seq<string>, byUnit: map<string, seq<Row<VideoLesson>>>)

  const NoGroups := Grouped([], map[])

  /** Keys listed once each, and exactly the map's keys. */
  ghost predicate Valid(g: Grouped) {
    && (forall i, j :: 0 <= i < j < |g.units| ==> g.units[i] != g.units[j])
    && (forall u :: u in g.byUnit <==> u in g.units)
  }

  /** Each value once, in order of first occurrence. */
  function Distinct(xs: seq<string>): (r: seq<string>)
    ensures forall x :: x in r <==> x in xs
    ensures forall i, j :: 0 <= i < j < |r| ==> r[i] != r[j]
  {
    if |xs| == 0 then []
    else
      var d := Distinct(xs[..|xs| - 1]);
      assert xs == xs[..|xs| - 1] + [xs[|xs| - 1]];
      if xs[|xs| - 1] in d then d else d + [xs[|xs| - 1]]
  }

  /** Each video's group key, in fetched order. */
  function Keys(videos: seq<Row<VideoLesson>>): (r: seq<string>)
    ensures |r| == |videos|
    ensures forall i :: 0 <= i < |videos| ==> r[i] == UnitKey(videos[i].fields)
  {
    seq(|videos|, i requires 0 <= i < |videos| => UnitKey(videos[i].fields))
  }

  /** One step of the `reduce`: the video is pushed onto its unit's list,
      which is created, as the last key, when the unit is new. */
  function AddVideo(g: Grouped, row: Row<VideoLesson>): (r: Grouped)
    requires Valid(g)
    ensures Valid(r)
    ensures var k := UnitKey(row.fields);
      && r.units == (if k in g.units then g.units else g.units + [k])
      && r.byUnit == g.byUnit[k := (if k in g.byUnit then g.byUnit[k] else []) + [row]]
  {
    var k := UnitKey(row.fields);
    if k in g.byUnit then Grouped(g.units, g.byUnit[k := g.byUnit[k] + [row]])
    else
      var units := g.units + [k];
      assert forall i :: 0 <= i < |g.units| ==> units[i] == g.units[i] != k;
      assert [] + [row] == [row];
      Grouped(units, g.byUnit[k := [row]])
  }

  /** `videos.reduce(..., {})`, a step per fetched video. */
  function GroupVideos(videos: seq<Row<VideoLesson>>): (r: Grouped)
    ensures Valid(r)
    decreases |videos|
  {
    if |videos| == 0 then NoGroups
    else AddVideo(GroupVideos(videos[..|videos| - 1]), videos[|videos| - 1])
  }

  /** The units come in order of first appearance, each once. */
  lemma {:induction false} GroupOrder(videos: seq<Row<VideoLesson>>)
    ensures GroupVideos(videos).units == Distinct(Keys(videos))
    decreases |videos|
  {
    if |videos| > 0 {
      var init := videos[..|videos| - 1];
      GroupOrder(init);
      assert Keys(videos)[..|videos| - 1] == Keys(init);
    }
  }

  /** The test a `filter` would use to pick a unit's videos. */
  function InUnit(u: string): Row<VideoLesson> -> bool {
    (v: Row<VideoLesson>) => UnitKey(v.fields) == u
  }

  /** Each unit's list is exactly the videos of that unit, in fetched
      order, so every video is in one group and only one. */
  lemma {:induction false} GroupContents(videos: seq<Row<VideoLesson>>)
    ensures var g := GroupVideos(videos);
      forall u :: u in g.byUnit ==> g.byUnit[u] == Filter(videos, InUnit(u))
    decreases |videos|
  {
    if |videos| > 0 {
      var init := videos[..|videos| - 1];
      var row := videos[|videos| - 1];
      assert init + [row] == videos;
      GroupContents(init);
      var g0 := GroupVideos(init);
      var g := GroupVideos(videos);
      forall u | u in g.byUnit
        ensures g.byUnit[u] == Filter(videos, InUnit(u))
      {
        FilterSnoc(init, row, InUnit(u));
        if u !in g0.byUnit {
          GroupOrder(init);
          FilterNone(init, u);
        }
      }
    }
  }

  /** A unit no video has picks no video. */
  lemma {:induction false} FilterNone(videos: seq<Row<VideoLesson>>, u: string)
    requires u !in Keys(videos)
    ensures Filter(videos, InUnit(u)) == []
    decreases |videos|
  {
    if |videos| > 0 {
      assert Keys(videos)[0] != u;
      assert Keys(videos[1..]) == Keys(videos)[1..];
      FilterNone(videos[1..], u);
    }
  }

  /** How many videos the listed groups hold together. */
  function Total(units: seq<string>, byUnit: map<string, seq<Row<VideoLesson>>>): nat
  {
    if |units| == 0 then 0
    else (if units[0] in byUnit then |byUnit[units[0]]| else 0) + Total(units[1..], byUnit)
  }

  /** Changing the list of a unit that is not listed changes no total. */
  lemma {:induction false} TotalOther(units: seq<string>, byUnit: map<string, seq<Row<VideoLesson>>>, k: string, vs: seq<Row<VideoLesson>>)
    requires k !in units
    ensures Total(units, byUnit[k := vs]) == Total(units, byUnit)
    decreases |units|
  {
    if |units| > 0 {
      TotalOther(units[1..], byUnit, k, vs);
    }
  }

  /** Lengthening a listed unit's list by one adds one to the total. */
  lemma {:induction false} TotalGrow(units: seq<string>, byUnit: map<string, seq<Row<VideoLesson>>>, k: string, row: Row<VideoLesson>)
    requires k in byUnit
    requires k in units && forall i, j :: 0 <= i < j < |units| ==> units[i] != units[j]
    ensures Total(units, byUnit[k := byUnit[k] + [row]]) == Total(units, byUnit) + 1
    decreases |units|
  {
    if units[0] == k {
      assert k !in units[1..];
      TotalOther(units[1..], byUnit, k, byUnit[k] + [row]);
    } else {
      TotalGrow(units[1..], byUnit, k, row);
    }
  }

  /** Grouping loses no video and duplicates none. */
  lemma {:induction false} GroupTotal(videos: seq<Row<VideoLesson>>)
    ensures var g := GroupVideos(videos); Total(g.units, g.byUnit) == |videos|
    decreases |videos|
  {
    if |videos| > 0 {
      var init := videos[..|videos| - 1];
      var row := videos[|videos| - 1];
      var g := GroupVideos(init);
      var k := UnitKey(row.fields);
      GroupTotal(init);
      if k in g.byUnit {
        TotalGrow(g.units, g.byUnit, k, row);
      } else {
        TotalOther(g.units, g.byUnit, k, [row]);
        TotalAppend(g.units, g.byUnit[k := [row]], k);
      }
    }
  }

  /** A unit listed last adds its list's length. */
  lemma {:induction false} TotalAppend(units: seq<string>, byUnit: map<string, seq<Row<VideoLesson>>>, k: string)
    requires k in byUnit
    ensures Total(units + [k], byUnit) == Total(units, byUnit) + |byUnit[k]|
    decreases |units|
  {
    if |units| > 0 {
      assert (units + [k])[1..] == units[1..] + [k];
      TotalAppend(units[1..], byUnit, k);
    } else {
      assert [k][1..] == [];
    }
  }

  /** The names a plain `{}` already answers through `Object.prototype`
      (section 20.1.3 of ECMAScript 2024 and its Annex B.2.2). All are
      truthy, so `!acc[unit]` is false and `acc[unit].push` is not a
      function. */
  const Inherited: set<string> := {
    "constructor", "hasOwnProperty", "isPrototypeOf", "propertyIsEnumerable",
    "toLocaleString", "toString", "valueOf", "__proto__",
    "__defineGetter__", "__defineSetter__", "__lookupGetter__", "__lookupSetter__"
  }

  /** Some video groups under an inherited name. */
  predicate HasInheritedUnit(videos: seq<Row<VideoLesson>>) {
    exists i :: 0 <= i < |videos| && UnitKey(videos[i].fields) in Inherited
  }

  /** The `reduce` as it runs, one video at a time: a video whose unit is
      an inherited name throws a `TypeError`, and the whole reduction with
      it; otherwise each step is `AddVideo`. */
  function Reduce(videos: seq<Row<VideoLesson>>): (r: Option<Grouped>)
    ensures r.None? <==> HasInheritedUnit(videos)
    ensures r.Some? ==> r.value == GroupVideos(videos)
    decreases |videos|
  {
    if |videos| == 0 then Some(NoGroups)
    else
      var last := videos[|videos| - 1];
      HasInheritedSnoc(videos);
      match Reduce(videos[..|videos| - 1])
      case None => None
      case Some(g) => if UnitKey(last.fields) in Inherited then None else Some(AddVideo(g, last))
  }

  /** Some video has an inherited unit iff one before the last does or
      the last one does. */
  lemma HasInheritedSnoc(videos: seq<Row<VideoLesson>>)
    requires |videos| > 0
    ensures HasInheritedUnit(videos) <==>
      HasInheritedUnit(videos[..|videos| - 1]) || UnitKey(videos[|videos| - 1].fields) in Inherited
  {
    var init := videos[..|videos| - 1];
    assert forall i :: 0 <= i < |init| ==> init[i] == videos[i];
    if HasInheritedUnit(videos) && !HasInheritedUnit(init) {
      var i :| 0 <= i < |videos| && UnitKey(videos[i].fields) in Inherited;
      assert i == |videos| - 1;
    }
  }

  /** `setVideosByUnit` after the select: the old groups on error, the
      regrouped rows otherwise (`{}` for a null `data`). A reduction that
      throws rejects `fetchVideos` before the state is set, so the old
      groups stay. */
  function Fetch(held: Grouped, reply: Fetched<Row<VideoLesson>>): (r: Grouped)
    ensures reply.Failed? ==> r == held
    ensures reply.Data? && HasInheritedUnit(reply.rows.GetOr([])) ==> r == held
    ensures reply.Data? && !HasInheritedUnit(reply.rows.GetOr([])) ==> r == GroupVideos(reply.rows.GetOr([]))
    ensures reply.Data? && reply.rows.None? ==> r == NoGroups
  {
    match reply
    case Failed(_) => held
    case Data(rows) =>
      match Reduce(rows.GetOr([]))
      case None => held
      case Some(g) => g
  }

  /** A video filed under the unit `constructor` makes the page keep what
      it showed before, whatever else the reply holds. */
  lemma ConstructorUnitKeepsHeld(held: Grouped, rows: seq<Row<VideoLesson>>, i: nat)
    requires i < |rows| && rows[i].fields.unit == "constructor"
    ensures Fetch(held, Data(Some(rows))) == held
  {
    assert UnitKey(rows[i].fields) in Inherited;
  }

  /** What the page shows: the empty message, or tabs. */
  datatype Tabs = NoLessons | Tabs(default: string, triggers: seq<string>, panels: seq<string>)

  /** At most four tab triggers but a panel for every unit; the first unit
      is open by default, and it always has a trigger. */
  function TabsOf(g: Grouped): (t: Tabs)
    ensures t.NoLessons? <==> |g.units| == 0
    ensures t.Tabs? ==>
      && |t.triggers| == (if |g.units| < 4 then |g.units| else 4)
      && t.triggers <= g.units
      && t.panels == g.units
      && (forall u :: u in t.triggers ==> u in t.panels)
      && t.default in t.triggers
      && t.default == g.units[0]
  {
    if |g.units| == 0 then NoLessons
    else
      var n := if |g.units| < 4 then |g.units| else 4;
      Tabs(g.units[0], g.units[..n], g.units)
  }

  /** A fifth unit has a panel but no trigger of its own, so its videos
      can never be brought on screen. */
  lemma FifthUnitHasNoTrigger(g: Grouped)
    requires Valid(g) && |g.units| >= 5
    ensures g.units[4] in TabsOf(g).panels
    ensures g.units[4] !in TabsOf(g).triggers
  {
  }
}
