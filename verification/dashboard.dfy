/** The admin dashboard: the gate on the provider's state, the statistics
    it aggregates from six counting selects, the sidebar with its unread
    badge, the page title, and which editors refresh the statistics. */
module Dashboard {
  import opened Wrappers
  import opened Schema
  import opened Store
  import opened Seqs
  import opened Auth
  import opened Editor

  // ---------------------------------------------------------------------------
  // Gate

  /** What the auth effect does: send the visitor to the login page, or
      fetch the statistics. */
  datatype Gate = Gate(redirect: bool, fetch: bool)

  function OnAuth(auth: AuthState): (g: Gate)
    ensures g.redirect <==> !auth.loading && !auth.isAdmin
    ensures g.fetch <==> auth.isAdmin
    ensures !(g.redirect && g.fetch)
  {
    if !auth.loading && !auth.isAdmin then Gate(true, false) else Gate(false, auth.isAdmin)
  }

  /** What the page renders before its content. */
  datatype View = Spinner | Blank | Panel

  function Render(auth: AuthState): (v: View)
    ensures v == Spinner <==> auth.loading
    ensures v == Blank <==> !auth.loading && !auth.isAdmin
    ensures v == Panel <==> !auth.loading && auth.isAdmin
  {
    if auth.loading then Spinner else if !auth.isAdmin then Blank else Panel
  }

  /** From mount, whatever the provider has seen: the page redirects
      exactly when it would render nothing, and it fetches statistics only
      while it shows the panel. */
  lemma GateMatchesView(events: seq<Event>)
    ensures var auth := Run(Auth.Initial, events);
      && (OnAuth(auth).redirect <==> Render(auth) == Blank)
      && (OnAuth(auth).fetch <==> Render(auth) == Panel)
  {
    RunConsistent(Auth.Initial, events);
  }

  // ---------------------------------------------------------------------------
  // Statistics

  /** A message counts as unread unless `is_read` is true: false and null
      both count. */
  predicate IsUnread(row: Row<ContactMessage>) {
    !Truthy(row.fields.isRead)
  }

  /** `data?.filter(msg => !msg.is_read).length || 0`. */
  function UnreadCount(data: Option<seq<Row<ContactMessage>>>): (n: nat)
    ensures data.None? ==> n == 0
    ensures data.Some? ==> n <= |data.value|
  {
    match data
    case None => 0
    case Some(rows) => |Filter(rows, IsUnread)|
  }

  /** The keys of the unread messages in the table. */
  ghost function UnreadIds(t: Table<ContactMessage>): set<Id> {
    set k | k in t && !Truthy(t[k].isRead)
  }

  /** Taking one message out of the table takes it out of the unread
      count iff it was unread. */
  lemma UnreadIdsRemove(t: Table<ContactMessage>, id: Id)
    requires id in t
    ensures |UnreadIds(t)| == |UnreadIds(t - {id})| + (if Truthy(t[id].isRead) then 0 else 1)
  {
    if Truthy(t[id].isRead) {
      assert UnreadIds(t) == UnreadIds(t - {id});
    } else {
      assert UnreadIds(t) == UnreadIds(t - {id}) + {id};
    }
  }

  /** Counted over a complete listing, the unread count is the number of
      unread messages in the table. */
  lemma {:induction false} UnreadCountMatchesTable(rows: seq<Row<ContactMessage>>, t: Table<ContactMessage>)
    requires Lists(rows, t)
    ensures UnreadCount(Some(rows)) == |UnreadIds(t)|
    decreases |rows|
  {
    if |rows| == 0 {
      assert UnreadIds(t) == {} by {
        assert t.Keys == {};
      }
    } else {
      var last := rows[|rows| - 1];
      var init := rows[..|rows| - 1];
      ListsInit(rows, t);
      UnreadCountMatchesTable(init, t - {last.id});
      assert rows == init + [last];
      FilterSnoc(init, last, IsUnread);
      UnreadIdsRemove(t, last.id);
    }
  }

  /** The `count` of the six selects (null when a select failed). */
  datatype Counts = Counts(videos: Option<int>, papers: Option<int>, resources: Option<int>,
                           blogs: Option<int>, testimonials: Option<int>, messages: Option<int>)

  datatype Stats = Stats(totalVideos: int, totalPapers: int, totalResources: int, totalBlogs: int,
                         totalTestimonials: int, totalMessages: int, unreadMessages: nat)

  /** The figures before the first fetch. */
  const NoStats := Stats(0, 0, 0, 0, 0, 0, 0)

  /** `fetchStats`: each total is its count, 0 when missing; the unread
      figure comes from the rows of the messages select. */
  function FetchStats(c: Counts, messages: Option<seq<Row<ContactMessage>>>): (s: Stats)
    ensures c == Counts(None, None, None, None, None, None) && messages.None? ==> s == NoStats
    ensures messages.Some? && c.messages == Some(|messages.value|) ==> s.unreadMessages <= s.totalMessages
  {
    Stats(c.videos.GetOr(0), c.papers.GetOr(0), c.resources.GetOr(0), c.blogs.GetOr(0),
          c.testimonials.GetOr(0), c.messages.GetOr(0), UnreadCount(messages))
  }

  /** When every select answers with its table's exact count and the
      messages select lists its table, the statistics are the tables'
      sizes and the number of unread messages. */
  lemma StatsOfTables(papers: Table<PastPaper>, videos: Table<VideoLesson>, resources: Table<Resource>,
                      blogs: Table<BlogPost>, testimonials: Table<Testimonial>,
                      messages: Table<ContactMessage>, listing: seq<Row<ContactMessage>>)
    requires Lists(listing, messages)
    ensures var s := FetchStats(Counts(Some(|videos|), Some(|papers|), Some(|resources|), Some(|blogs|),
                                       Some(|testimonials|), Some(|messages|)), Some(listing));
      && s == Stats(|videos|, |papers|, |resources|, |blogs|, |testimonials|, |messages|, |UnreadIds(messages)|)
      && s.unreadMessages <= s.totalMessages
  {
    UnreadCountMatchesTable(listing, messages);
    ListsCount(listing, messages);
  }

  // ---------------------------------------------------------------------------
  // Sidebar, title and refresh wiring

  datatype SidebarItem = SidebarItem(id: string, name: string, badge: Option<int>)

  /** The seven sidebar entries; only Messages carries a badge. */
  function SidebarItems(unread: int): (r: seq<SidebarItem>)
    ensures |r| == 7
    ensures forall i :: 0 <= i < 7 ==> (r[i].badge.Some? <==> r[i].id == "messages")
    ensures forall i :: 0 <= i < 7 && r[i].badge.Some? ==> r[i].badge.value == unread
    ensures forall i :: 0 <= i < 7 ==> r[i].name != ""
  {
    [ SidebarItem("dashboard", "Dashboard", None),
      SidebarItem("papers", "Past Papers", None),
      SidebarItem("videos", "Video Lessons", None),
      SidebarItem("resources", "Resources", None),
      SidebarItem("blog", "Blog Posts", None),
      SidebarItem("testimonials", "Testimonials", None),
      SidebarItem("messages", "Messages", Some(unread)) ]
  }

  /** `items.find(item => item.id === tab)?.name || 'Dashboard'`: the name
      of the first entry with that id. */
  function Title(items: seq<SidebarItem>, tab: string): (r: string)
    ensures (forall i :: 0 <= i < |items| ==> items[i].id != tab) ==> r == "Dashboard"
    ensures forall i :: 0 <= i < |items| && items[i].id == tab && items[i].name != "" ==>
      (forall j :: 0 <= j < i ==> items[j].id != tab) ==> r == items[i].name
  {
    if |items| == 0 then "Dashboard"
    else if items[0].id == tab then (if items[0].name != "" then items[0].name else "Dashboard")
    else
      var r := Title(items[1..], tab);
      assert forall i :: 1 <= i < |items| ==> items[1..][i - 1] == items[i];
      r
  }

  /** Every sidebar entry titles the page with its own name; any other tab
      is titled "Dashboard". */
  lemma TitleOfTab(unread: int, tab: string)
    ensures var items := SidebarItems(unread);
      && (forall i :: 0 <= i < 7 && items[i].id == tab ==> Title(items, tab) == items[i].name)
      && ((forall i :: 0 <= i < 7 ==> items[i].id != tab) ==> Title(items, tab) == "Dashboard")
  {
    var items := SidebarItems(unread);
    forall i | 0 <= i < 7 && items[i].id == tab
      ensures Title(items, tab) == items[i].name
    {
      forall j | 0 <= j < i
        ensures items[j].id != tab
      {
        assert items[j].id[0] != items[i].id[0];
      }
    }
  }

  /** The tabs whose editor is handed `onUpdate={fetchStats}`. */
  predicate RefreshesStats(tab: string) {
    tab == "papers" || tab == "videos" || tab == "messages"
  }

  /** A post added from the blog tab grows its table, but the dashboard is
      not told: the blog total stays what it was until the next fetch. */
  lemma BlogTotalGoesStale<F, P>(e: Editor<BlogPost, F>, t: Table<BlogPost>, payload: P,
                                 patch: (BlogPost, P) -> BlogPost, create: P -> BlogPost,
                                 newId: Id, reset: F, s: Stats)
    requires e.editing.None? && newId !in t && s.totalBlogs == |t|
    ensures var o := Submit(e, t, payload, patch, create, newId, None, reset, RefreshesStats("blog"));
      && |o.table| == |t| + 1
      && !o.effects.notify
      && s.totalBlogs != |o.table|
  {
  }

  // ---------------------------------------------------------------------------
  // The unread badge

  /** What a badge slot renders: nothing, the red pill with the count, or
      a bare text node. */
  datatype BadgeView = NoBadge | Pill(count: int) | StrayText(text: string)

  /** `{item.badge && item.badge > 0 && <span>…</span>}` as written: an
      absent badge renders nothing and a negative one `false`, but a badge
      of 0 short-circuits to the number 0, which React renders as text. */
  function BadgeAsWritten(badge: Option<int>): (v: BadgeView)
    ensures badge.None? ==> v == NoBadge
    ensures badge == Some(0) ==> v == StrayText("0")
  {
    match badge
    case None => NoBadge
    case Some(n) => if n == 0 then StrayText("0") else if n > 0 then Pill(n) else NoBadge
  }

  /** With no unread messages the Messages entry shows a stray `0`. */
  lemma NoUnreadShowsZero()
    ensures BadgeAsWritten(SidebarItems(0)[6].badge) == StrayText("0")
  {
  }

  /** The badge as intended: a pill for a positive count, nothing otherwise. */
  function Badge(badge: Option<int>): (v: BadgeView)
    ensures v.Pill? <==> badge.Some? && badge.value > 0
    ensures v.Pill? ==> v.count == badge.value
    ensures !v.StrayText?
  {
    if badge.Some? && badge.value > 0 then Pill(badge.value) else NoBadge
  }

  /** With the intended badge, exactly the Messages entry shows a pill,
      and only while there are unread messages. */
  lemma BadgeOnlyForUnread(unread: nat, i: nat)
    requires i < 7
    ensures var item := SidebarItems(unread)[i];
      && (Badge(item.badge).Pill? <==> item.id == "messages" && unread > 0)
      && (Badge(item.badge).Pill? ==> Badge(item.badge).count == unread)
  {
  }
}
