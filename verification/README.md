# A model of the tutoring site's client logic

The site is a single-page React application backed by a hosted Supabase
database. It has two sides:

- **Public pages:** home, past papers, video lessons, resources, study tips and
  contact. They read six tables and filter, group and label what they fetch.
- **Admin area:** a fixed admin login, a dashboard of statistics, and one
  editor per table (papers, videos, resources, blog posts, testimonials,
  contact messages). Each editor lists, adds, edits and deletes rows.

This project models that client logic in Dafny:

- **Tables.** Each table is a `map` from row key to record (`Store`, `Schema`).
- **Store calls.** Every call is one atomic step. Whether the store refuses it is
  an input (`fault`), because the client never learns why.
- **Components.** Each component becomes a pure function from its state and the
  store's replies to its next state, its follow-up calls and what it shows.
- **Shared editor.** The six admin editors repeat one pattern. It is written once,
  generically, in `Editor`, and instantiated per table.
- **Browser effects.** Effects the code triggers are returned as values: the
  address a button opens, whether a list is refetched, whether the dashboard is
  told (`Effects`).
- **JavaScript semantics.** The `||` fallbacks, `includes`, `toLowerCase`,
  `split`, `trim`, `join`, `[...new Set(xs)].sort()` and `Array.filter` are
  modelled explicitly: in `Wrappers`, `Text`, `TextOrder` and `Seqs`.
- **Mail reply link.** It is read back the way a mail client reads a `mailto:`
  URI under section 2 of RFC 6068 (`Mailto`). A `#` starts the fragment,
  which the reader drops (section 3.5 of RFC 3986). Values are
  percent-decoded as in section 2.1 of RFC 3986.

Two behaviours of the code are worth stating up front:

- **Unpublishing a blog post.** The code writes `published_at: null`, so
  unpublishing clears the publication stamp (`BlogManager.PostDataOf`).
- **The "Reply via Email" link.** The code builds it by plain string
  concatenation, and the reply link is not percent-encoded, so an `&` or a
  `#` in the subject cuts it short. `Mailto.ReplyUri` models the code. The encoded link is modelled beside it, as the corrected
  definition of a finding below.

## Model

| member | source | states |
|---|---|---|
| Wrappers.OrElse | src/pages/StudyTips.tsx:153-157 | `s \|\| d` on an optional string: the value when it is present and non-empty, the fallback for both null and `''` |
| Text.Lower | src/pages/PastPapers.tsx:54-56 | `toLowerCase` keeps the length and maps every ASCII capital to its small letter, character by character |
| Text.Split | src/components/admin/BlogManager.tsx:65 | `split(c)` yields one more piece than there are separators and no piece holds the separator |
| Text.SplitJoinBack | src/components/admin/BlogManager.tsx:65 | joining the pieces of `split(c)` with `c` gives the input back |
| Text.SplitJoin | src/components/admin/BlogManager.tsx:65 | splitting a join of separator-free pieces recovers exactly those pieces |
| Text.SplitCons | src/components/admin/BlogManager.tsx:65 | a separator-free text before the first separator is the first piece, and the rest splits on its own |
| Text.SplitIsSplitOn | src/components/admin/BlogManager.tsx:65 | splitting at a character agrees with splitting at the one-character string |
| Text.SplitOn | src/pages/VideoLessons.tsx:42 | `split('v=')` never yields an empty list, no piece contains `v=`, the first piece is a prefix of the text, and it is non-empty unless the text is empty or starts with `v=` |
| Text.SplitOnJoin | src/pages/VideoLessons.tsx:42 | joining the pieces of `split('v=')` with `v=` restores the input |
| Text.Join | src/components/admin/BlogManager.tsx:114 | `join(sep)` puts `sep` between consecutive pieces; `Text.SplitJoinBack` and `Text.SplitJoin` prove it and `split` undo each other |
| Text.Trim | src/components/admin/BlogManager.tsx:65 | `trim()` returns the slice of the input left after cutting white space from both ends: everything cut off is ECMAScript white space, and the result neither starts nor ends with white space |
| Text.TrimTrimmed | src/components/admin/BlogManager.tsx:65 | trimming text that has no surrounding white space gives it back unchanged |
| Text.TrimLeadingSpace | src/components/admin/BlogManager.tsx:65 | a leading white-space character (the space after a comma) is ignored by `trim` |
| Text.TrimKeepsFree | src/components/admin/BlogManager.tsx:65 | a trimmed piece of a comma-free string is still comma-free |
| Text.Take | src/pages/StudyTips.tsx:166 | `substring(0, n)` is a prefix of the text of length `min(n, length)` |
| Text.NatToString | src/pages/PastPapers.tsx:50 | `toString()` of a natural number gives decimal digits with no leading zero whose decimal value is the number |
| Text.IntToString | src/pages/PastPapers.tsx:50 | `toString()` of an integer starts with a minus sign exactly when it is negative; the rest are decimal digits whose value is its magnitude |
| Text.IntToStringInjective | src/pages/PastPapers.tsx:57 | comparing `year.toString()` with the selected text compares years: distinct integers render differently |
| Text.ContainsAt | src/pages/PastPapers.tsx:54-56 | `includes` holds exactly when the term occurs at some position |
| Text.Contains | src/pages/PastPapers.tsx:54-56 | `includes(t)` decides whether `t` occurs in the text; `Text.ContainsAt` ties it to an occurrence at some position |
| Text.ContainsEmpty | src/pages/StudyTips.tsx:49-53 | the empty search term is included in every string |
| Text.ContainsSelf | src/pages/StudyTips.tsx:236 | every string includes itself, so a clicked tag matches itself |
| Text.LowerIdempotent | src/pages/StudyTips.tsx:50-52 | lowercasing an already lowercased term changes nothing |
| TextOrder.SortedSet | src/pages/PastPapers.tsx:51 | `[...new Set(xs)].sort()` lists each distinct value of `xs` exactly once, in strictly ascending order |
| TextOrder.SortedSetDescending | src/pages/PastPapers.tsx:50 | the set sorted with `b.localeCompare(a)` lists each distinct value exactly once, in strictly descending order |
| TextOrder.Insert | src/pages/PastPapers.tsx:51 | adding a value to a sorted duplicate-free list keeps it sorted and adds exactly that value |
| TextOrder.AscendingDistinct | src/pages/Resources.tsx:78 | a strictly sorted option list repeats no option |
| Seqs.Filter | src/pages/PastPapers.tsx:53-61 | `filter` keeps exactly the elements that pass the test, never more than the input holds |
| Seqs.Mount | src/pages/PastPapers.tsx:34-35 | a public page starts with an empty list, loading |
| Seqs.Fetch | src/pages/PastPapers.tsx:41-46 | after a fetch `loading` is always cleared; an error keeps the old list, success shows `data \|\| []` |
| Seqs.FetchFailureKeeps | src/pages/Resources.tsx:41-45 | a failed refresh after a successful one still shows what the successful one fetched |
| Store.ApplyFetch | src/components/admin/PastPapersManager.tsx:66-71 | a select error leaves the list as it was; success replaces it with `data \|\| []` |
| Store.ApplyFetchIdempotent | src/components/admin/PastPapersManager.tsx:60-72 | applying the same fetch reply twice gives what applying it once gives |
| Store.UpdateRow | src/components/admin/PastPapersManager.tsx:78-81 | `update(...).eq('id', id)` changes the row keyed `id` and no other, keeps the set of keys, and an error changes nothing |
| Store.InsertRow | src/components/admin/PastPapersManager.tsx:90-92 | `insert` adds exactly one new key holding the record and keeps every existing row; an error or a taken key changes nothing |
| Store.DeleteRow | src/components/admin/PastPapersManager.tsx:134-137 | `delete().eq('id', id)` removes that key only and keeps every other row |
| Store.ListsInit | src/components/admin/PastPapersManager.tsx:60-72 | dropping the last row of a complete listing lists the table without that row's key |
| Store.ListsCount | src/pages/AdminDashboard.tsx:59-64 | a complete listing holds one row per key, which is the exact count a select returns |
| Editor.Submit | src/components/admin/PastPapersManager.tsx:74-115 | on a store error the handler returns early and keeps form, dialog and table. On success it updates the edited row and nothing else, or inserts exactly one row, closes the dialog, resets the form and refetches; it calls `onUpdate` only when given one |
| Editor.RetryAfterFailure | src/components/admin/PastPapersManager.tsx:83-86 | a failed save keeps the form, so saving again once the store accepts gives the same result as a first attempt that worked |
| Editor.Edit | src/components/admin/PastPapersManager.tsx:117-129 | `handleEdit` remembers the row, loads its copy into the form and opens the dialog, leaving the list alone |
| Editor.EditThenSubmitUpdatesListedRow | src/components/admin/PastPapersManager.tsx:74-129 | editing a listed row and saving gives a next listing as long as before. The listing has the patched record under the same key and every other row unchanged |
| Editor.Refetch | src/components/admin/PastPapersManager.tsx:60-72 | a refetch error keeps the list; success replaces exactly the list and nothing else in the editor |
| Editor.Delete | src/components/admin/PastPapersManager.tsx:131-147 | nothing happens without confirmation or on a store error; otherwise only the row keyed `id` is removed and the list is refetched |
| Editor.DeleteIdempotent | src/components/admin/PastPapersManager.tsx:131-147 | deleting a row a second time changes nothing further |
| Editor.SetDialogOpen | src/components/admin/BlogManager.tsx:144-150 | the dialog's `onOpenChange` (the Add trigger, the close ×, Escape, a click outside) flips only `isDialogOpen`; the edited row and the form stay |
| Editor.AddAfterDismissedEditUpdates | src/components/admin/BlogManager.tsx:144-150 | as written: dismissing an edit with Escape, a click outside or the close × and pressing "Add" reopens the dialog still editing that row. The next save updates the old row and inserts nothing |
| Editor.Cancel | src/components/admin/BlogManager.tsx:231-240 | the Cancel button closes the dialog and forgets the edited row, but keeps the form |
| Editor.CancelThenAddInserts | src/components/admin/BlogManager.tsx:60-106 | after Cancel, "Add" reopens on the left-over copy of the edited row, and the save inserts a new row, leaving the edited one alone |
| Editor.OpenForAdd | src/components/admin/BlogManager.tsx:145-150 | corrected "Add": the dialog opens with no edited row and the default form |
| Editor.AddAfterDismissedEditInserts | src/components/admin/BlogManager.tsx:60-106 | with the corrected "Add", the save after a dismissed edit inserts exactly one row and leaves every existing row alone |
| PastPapersPage.Visible | src/pages/PastPapers.tsx:53-61 | a paper is listed iff the lowercased term occurs in its lowercased title, subject or type, its year text equals the chosen year (or "all"), and its subject equals the chosen one (or "all") |
| PastPapersPage.VisibleInOrder | src/pages/PastPapers.tsx:53 | the filtered papers keep the fetched order |
| PastPapersPage.MatchesSearch | src/pages/PastPapers.tsx:54-56 | the search test: the lowercased term occurs in the lowercased title, subject or paper type |
| PastPapersPage.Shown | src/pages/PastPapers.tsx:53-61 | the filter test: the search matches, the year's `toString()` equals the chosen year unless that is "all", and the subject equals the chosen one unless that is "all" |
| PastPapersPage.EmptySearchMatches | src/pages/PastPapers.tsx:54-56 | the empty search term matches every paper |
| PastPapersPage.UnfilteredShowsAll | src/pages/PastPapers.tsx:53-61 | with the controls as mounted, every fetched paper is listed, in order |
| PastPapersPage.YearTexts | src/pages/PastPapers.tsx:50 | one year text per paper, each the paper's year as `toString()` renders it |
| PastPapersPage.YearOptions | src/pages/PastPapers.tsx:50 | the year drop-down offers every year of the fetched papers exactly once, in descending text order |
| PastPapersPage.YearOrderIsTextual | src/pages/PastPapers.tsx:50 | the year order is textual, not numeric: `"2000"` sorts below `"999"` |
| PastPapersPage.Subjects | src/pages/PastPapers.tsx:51 | one subject per paper, in fetched order |
| PastPapersPage.SubjectOptions | src/pages/PastPapers.tsx:51 | the subject drop-down offers every fetched subject exactly once, ascending |
| PastPapersPage.YearOptionSelects | src/pages/PastPapers.tsx:50-61 | choosing any offered year lists at least one paper, and only papers of that year |
| PastPapersPage.SubjectOptionSelects | src/pages/PastPapers.tsx:51-61 | choosing any offered subject other than the text "all" lists at least one paper, and only papers of that subject |
| ResourcesPage.Visible | src/pages/Resources.tsx:81-85 | a resource is listed iff both drop-downs accept it; one without a subject shows only under "all subjects" |
| ResourcesPage.VisibleInOrder | src/pages/Resources.tsx:81 | the filtered resources keep the fetched order |
| ResourcesPage.Shown | src/pages/Resources.tsx:81-85 | the filter test: the type equals the chosen type unless that is "all", and the subject equals the chosen subject unless that is "all" |
| ResourcesPage.UnfilteredShowsAll | src/pages/Resources.tsx:81-85 | with both drop-downs at "all", everything fetched is listed |
| ResourcesPage.Types | src/pages/Resources.tsx:78 | one type per resource, in fetched order |
| ResourcesPage.TypeOptions | src/pages/Resources.tsx:78 | the type drop-down offers every fetched type exactly once, ascending |
| ResourcesPage.PresentSubjects | src/pages/Resources.tsx:79 | the truthy subjects: a value is kept iff it is non-empty and some resource has it |
| ResourcesPage.SubjectOptions | src/pages/Resources.tsx:79 | the subject drop-down offers each non-empty subject exactly once, ascending; resources without one add nothing |
| ResourcesPage.Bumped | src/pages/Resources.tsx:100 | the written counter is the copy's count plus one, null read as 0, with every other column unchanged |
| ResourcesPage.HandleDownload | src/pages/Resources.tsx:88-106 | an empty address opens nothing and writes nothing. Otherwise the address, with `https://` added when it has no protocol, opens. The count read from the page's copy plus one is written to that row only, and the list is refetched whether or not the write failed |
| ResourcesPage.LostUpdate | src/pages/Resources.tsx:98-104 | two clicks made from the same stale copy store one more download, not two |
| ResourcesPage.FreshSnapshotCounts | src/pages/Resources.tsx:98-104 | a download made from a fresh copy of the row counts up by exactly one |
| Links.FixUrl | src/pages/PastPapers.tsx:64-69 | an address with `http://` or `https://` opens as is; any other gets `https://` in front; the result always has a protocol |
| Links.FixUrlIdempotent | src/pages/Resources.tsx:92-94 | fixing an address twice is fixing it once |
| Links.FixUrlKeepsAddress | src/pages/Resources.tsx:92-94 | the fix-up only ever adds the prefix `https://`; the original address is the tail of the opened one |
| Links.OpenedUrl | src/pages/PastPapers.tsx:63-73 | a download button opens nothing for an absent or empty address and the fixed-up address otherwise |
| Links.VideoId | src/pages/VideoLessons.tsx:42 | the thumbnail id never holds both a `/` and a `&` |
| Links.ThumbnailUrl | src/pages/VideoLessons.tsx:41-44 | the thumbnail address is the YouTube image host, then the video id, then `/maxresdefault.jpg` |
| Links.VideoIdFromPath | src/pages/VideoLessons.tsx:42 | an address without `v=` yields its last path segment, so a share link yields its id |
| Links.SecondFieldOf | src/pages/VideoLessons.tsx:42 | with no `v=` before the first one, there is a second `v=`-piece, and it is the first `v=`-piece of the text after |
| Links.IdFromField | src/pages/VideoLessons.tsx:42 | a non-empty `&`-cut of the second `v=`-piece is the id |
| Links.IdFromPath | src/pages/VideoLessons.tsx:42 | an empty `&`-cut of the second `v=`-piece falls back to the last path segment |
| Links.EmptyField | src/pages/VideoLessons.tsx:42 | text that is empty or starts with `&` has an empty first field |
| Links.VideoIdFromQuery | src/pages/VideoLessons.tsx:42 | an address whose first `v=` is followed by a non-empty field without `v=` yields that field up to the first `&` or the end |
| Links.QueryField | src/pages/VideoLessons.tsx:42 | cutting the text after `v=` at the next `v=` and then at `&` gives its first `&`-field when that field holds no `v=` |
| Links.VideoIdEmptyField | src/pages/VideoLessons.tsx:42 | an empty `v=` field (`watch?v=` or `watch?v=&...`) is falsy, so the id falls back to the last path segment |
| Links.SecondVField | src/pages/VideoLessons.tsx:42 | with no `v=` before the first one, the piece after the first `v=` is the first piece of the rest |
| Links.FieldBeforeAmp | src/pages/VideoLessons.tsx:42 | `split('&')[0]` of that piece stops at the first `&` |
| StudyTipsPage.Visible | src/pages/StudyTips.tsx:49-53 | a post is listed iff the lowercased term occurs in its title, its excerpt when there is one, or one of its tags when there are tags |
| StudyTipsPage.VisibleInOrder | src/pages/StudyTips.tsx:49 | the filtered posts keep the fetched (newest first) order |
| StudyTipsPage.Matches | src/pages/StudyTips.tsx:49-53 | the search test: the lowercased term occurs in the lowercased title, in the excerpt when there is one, or in some tag when there are tags |
| StudyTipsPage.EmptySearchShowsAll | src/pages/StudyTips.tsx:49-53 | an empty search lists every fetched post |
| StudyTipsPage.TagClickShowsTagged | src/pages/StudyTips.tsx:231-236 | clicking a popular tag lists every post that carries that tag |
| StudyTipsPage.Lookup | src/pages/StudyTips.tsx:81-89 | an object-literal lookup is null iff the key is absent; otherwise it gives the value of the key's last entry, as a repeated key in a JavaScript literal overwrites the earlier one |
| StudyTipsPage.CategoryColor | src/pages/StudyTips.tsx:78-90 | a missing, empty or unknown category is gray |
| StudyTipsPage.KnownCategoryColor | src/pages/StudyTips.tsx:81-88 | each of the six known categories gets its own colour, distinct from gray and from the others |
| StudyTipsPage.ColorOfKnown | src/pages/StudyTips.tsx:81-89 | looking up a known category's name yields the colour listed beside it |
| StudyTipsPage.KnownCategoriesDistinct | src/pages/StudyTips.tsx:81-88 | the six category names of the literal are pairwise different |
| StudyTipsPage.PaletteDistinct | src/pages/StudyTips.tsx:81-88 | the six colours of the literal are pairwise different |
| StudyTipsPage.PaletteNotGray | src/pages/StudyTips.tsx:81-89 | no colour of the literal is the gray fallback |
| StudyTipsPage.Preview | src/pages/StudyTips.tsx:166 | a non-empty excerpt is shown as is; otherwise the first 150 characters of the content (or all of it) followed by `...` |
| StudyTipsPage.CardLabels | src/pages/StudyTips.tsx:153-178 | the category falls back to "General", the read time to "5 min read", and the date to the creation date when there is no stamp |
| StudyTipsPage.UnstampedShowsCreation | src/pages/StudyTips.tsx:178 | a post whose stamp was cleared still shows a date: its creation date |
| VideoLessonsPage.UnitKey | src/pages/VideoLessons.tsx:30 | a video groups under its unit, or under `Other` when that is empty; the key is never empty |
| VideoLessonsPage.Distinct | src/pages/VideoLessons.tsx:50 | every value once, none repeated, nothing added |
| VideoLessonsPage.Keys | src/pages/VideoLessons.tsx:29-30 | one group key per fetched video, in order |
| VideoLessonsPage.AddVideo | src/pages/VideoLessons.tsx:31-35 | one reduce step for a unit that is not an inherited `Object.prototype` name appends the video to its unit's list, creating the unit as the last key when it is new |
| VideoLessonsPage.GroupVideos | src/pages/VideoLessons.tsx:29-36 | the grouping, when no unit is an inherited name, lists each unit once, and the listed units are exactly the map's keys |
| VideoLessonsPage.Reduce | src/pages/VideoLessons.tsx:29-36 | the reduce throws exactly when some video's unit is an inherited `Object.prototype` name (`constructor`, `toString`, `__proto__`, ...), since `acc[unit]` is then truthy and has no `push`; otherwise it yields the grouping |
| VideoLessonsPage.GroupOrder | src/pages/VideoLessons.tsx:29-36 | the units come in order of first appearance among the fetched videos |
| VideoLessonsPage.GroupContents | src/pages/VideoLessons.tsx:29-36 | each unit's list is exactly that unit's videos in fetched order, so every video is in one group |
| VideoLessonsPage.FilterNone | src/pages/VideoLessons.tsx:29-36 | a unit no video has has no videos |
| VideoLessonsPage.GroupTotal | src/pages/VideoLessons.tsx:29-36 | grouping loses no video and duplicates none |
| VideoLessonsPage.TotalOther | src/pages/VideoLessons.tsx:31-35 | changing an unlisted unit's list changes no listed total |
| VideoLessonsPage.TotalGrow | src/pages/VideoLessons.tsx:34 | pushing onto a listed unit's list adds one to the total |
| VideoLessonsPage.TotalAppend | src/pages/VideoLessons.tsx:31-33 | a unit listed last adds its list's length to the total |
| VideoLessonsPage.HasInheritedSnoc | src/pages/VideoLessons.tsx:29-36 | some video has an inherited unit iff one before the last does or the last one does |
| VideoLessonsPage.Fetch | src/pages/VideoLessons.tsx:23-38 | a fetch error keeps the old groups, and so does a reply with an inherited unit name, because the throw comes before `setVideosByUnit`; otherwise success regroups the rows, with no groups for a null `data` |
| VideoLessonsPage.ConstructorUnitKeepsHeld | src/pages/VideoLessons.tsx:31-34 | one video filed under the unit `constructor` makes the page keep its old groups |
| VideoLessonsPage.TabsOf | src/pages/VideoLessons.tsx:68-78 | no units shows the empty message. Otherwise the triggers are the first four units (all of them when fewer), there is a panel for every unit, and the first unit is open by default with a trigger of its own |
| VideoLessonsPage.FifthUnitHasNoTrigger | src/pages/VideoLessons.tsx:71-78 | a fifth unit gets a panel but no trigger, so its videos cannot be brought on screen |
| Navigation.PrefixesComparable | src/components/Navigation.tsx:20-23 | two prefixes of one path are prefixes of each other |
| Navigation.IsActive | src/components/Navigation.tsx:20-23 | `isActive`: the home item only on `/` itself, any other item on its own path and every path that starts with it |
| Navigation.PathsIncomparable | src/components/Navigation.tsx:11-18 | no item's path other than home's starts another's |
| Navigation.AtMostOneActive | src/components/Navigation.tsx:11-23 | whatever the current path, at most one item is highlighted |
| Navigation.BookSessionActivatesNone | src/components/Navigation.tsx:20-23 | the booking page highlights no item |
| Navigation.SubpathActivates | src/components/Navigation.tsx:22 | a page under an item's path highlights that item |
| Navigation.Toggle | src/components/Navigation.tsx:63 | the menu button flips the mobile menu |
| Navigation.ToggleTwice | src/components/Navigation.tsx:63 | two presses of the menu button restore it |
| Navigation.FollowMobileLink | src/components/Navigation.tsx:84-92 | following any mobile menu link closes the menu |
| HomePage.QueryAnswerEmpty | src/pages/Index.tsx:27-32 | the active-only query never returns an inactive testimonial, and returns nothing exactly when none is active |
| HomePage.QueryAnswer | src/pages/Index.tsx:27-32 | what the query may return: active stored testimonials with distinct keys, as many as exist up to three, newest first, none left out that is newer than one returned |
| HomePage.FetchTestimonials | src/pages/Index.tsx:34-38 | an error keeps the list; success stores `data \|\| []` |
| HomePage.Display | src/pages/Index.tsx:60 | the fetched testimonials in order when there are any, otherwise exactly the three built-in ones |
| HomePage.Subtitle | src/pages/Index.tsx:205 | a stored testimonial with a key is subtitled "Student"; a built-in one shows its grade |
| HomePage.Avatar | src/pages/Index.tsx:200 | `charAt(0)`: the first character of the name, or nothing for an empty name |
| HomePage.ShownFromStore | src/pages/Index.tsx:26-60 | with no active testimonial in the table the three built-in cards show with their grades. Otherwise one to three active stored testimonials show, each subtitled "Student" |
| HomePage.FailedFirstFetchShowsFallback | src/pages/Index.tsx:34-60 | when the first fetch fails the built-in cards show, led by Sarah M. |
| ContactPage.BeginSubmit | src/pages/Contact.tsx:26 | sending sets the busy flag and keeps what was typed |
| ContactPage.NewMessage | src/pages/Contact.tsx:28-30 | the inserted message carries the four fields as typed and leaves the read and replied flags to the column |
| ContactPage.FinishSubmit | src/pages/Contact.tsx:28-43 | the busy flag is cleared either way. An error keeps what was typed and the table. Success clears all four fields and adds exactly one message |
| ContactPage.ResendAfterFailure | src/pages/Contact.tsx:24-44 | after a failed send the button is usable, the table is unchanged, and resending inserts the same message a first successful send would |
| Auth.OnAuthEvent | src/hooks/useAuth.tsx:26-41 | the listener takes the session and its user, grants admin iff the user's email is exactly the fixed address, and stops loading |
| Auth.OnInitialSession | src/hooks/useAuth.tsx:45-50 | the bootstrap stops loading only when there is no stored session, and changes nothing else |
| Auth.RunConsistent | src/hooks/useAuth.tsx:17-50 | whatever events arrive, the state stays consistent with its session, admin is granted to the fixed address only, and loading once cleared stays cleared |
| Auth.EventSettles | src/hooks/useAuth.tsx:40 | any listener event ends loading for good |
| Auth.CaseVariantIsNotAdmin | src/hooks/useAuth.tsx:33 | the admin check is case-sensitive: the fixed address with a capital letter, the same mailbox, is not admin |
| Auth.IsAdminUser | src/hooks/useAuth.tsx:33 | the admin test: the user's email equals the fixed address exactly, case included |
| Auth.SignOut | src/hooks/useAuth.tsx:124-126 | once the service reports the session gone, no user, no admin, not loading |
| Auth.SignIn | src/hooks/useAuth.tsx:55-122 | `admin`/`admin` signs in as the fixed account, with a sign-up as second call only after an "Invalid login credentials" error, and then the sign-up's verdict is the result. Any other pair is passed through as one call. A first reply that succeeds gives success; any other error gives failure with the service's message; a thrown call gives the generic message |
| Auth.PassThrough | src/hooks/useAuth.tsx:106-117 | off the fixed pair the typed credentials go through and the service's verdict and message are the result |
| Auth.SentinelFallback | src/hooks/useAuth.tsx:69-96 | on the fixed pair every call uses the fixed address and password, and after a credentials error the result succeeds iff the sign-up does |
| Auth.AdminWithOtherPassword | src/hooks/useAuth.tsx:60 | `admin` with any other password is an ordinary login for the address `admin` |
| AdminLogin.OnAuthChange | src/pages/AdminLogin.tsx:21-27 | the page redirects iff the provider has settled on an admin, and then frees the button |
| AdminLogin.StartSubmit | src/pages/AdminLogin.tsx:31-32 | submitting makes the page busy and clears the previous error |
| AdminLogin.FinishSubmit | src/pages/AdminLogin.tsx:38-45 | success changes nothing on the page. Failure shows the reported error, or the generic one when none is given, and frees the button |
| AdminLogin.FailureIsShown | src/pages/AdminLogin.tsx:29-46 | every failed login ends with a non-empty message on screen and the button usable |
| AdminLogin.SentinelLoginRedirects | src/pages/AdminLogin.tsx:21-46 | an accepted `admin`/`admin` login, followed by the admin's session event, redirects with the button freed |
| AdminLogin.OtherAccountStaysBusy | src/pages/AdminLogin.tsx:21-46 | a successful login of any other account brings no redirect and leaves the button disabled with no message |
| Dashboard.OnAuth | src/pages/AdminDashboard.tsx:46-55 | the dashboard redirects to the login iff the provider has settled on a non-admin, and fetches statistics iff the user is admin; never both |
| Dashboard.Render | src/pages/AdminDashboard.tsx:85-98 | a spinner while loading, nothing for a settled non-admin, the panel for an admin |
| Dashboard.GateMatchesView | src/pages/AdminDashboard.tsx:46-98 | from mount, the page redirects exactly when it renders nothing and fetches exactly when it shows the panel |
| Dashboard.UnreadCount | src/pages/AdminDashboard.tsx:67 | a null reply counts 0 unread; otherwise no more than the rows returned |
| Dashboard.UnreadIdsRemove | src/pages/AdminDashboard.tsx:67 | removing one message lowers the unread count by one iff that message was unread |
| Dashboard.UnreadCountMatchesTable | src/pages/AdminDashboard.tsx:64-67 | counted over a complete listing, the unread figure is the number of messages whose `is_read` is not true |
| Dashboard.FetchStats | src/pages/AdminDashboard.tsx:57-78 | with every count missing the figures are all 0, and with an exact messages count the unread figure never exceeds it |
| Dashboard.StatsOfTables | src/pages/AdminDashboard.tsx:57-78 | when every select answers exactly, the figures are the six table sizes and the number of unread messages |
| Dashboard.SidebarItems | src/pages/AdminDashboard.tsx:100-108 | seven named entries, and only Messages carries a badge, holding the unread count |
| Dashboard.Title | src/pages/AdminDashboard.tsx:327 | the title is the name of the first entry with the tab's id, or "Dashboard" when none has it |
| Dashboard.TitleOfTab | src/pages/AdminDashboard.tsx:100-108 | every sidebar entry titles the page with its own name, and any other tab is titled "Dashboard" |
| Dashboard.BlogTotalGoesStale | src/pages/AdminDashboard.tsx:237-248 | a post added from the blog tab grows the table, but the dashboard is not told, so its blog total is stale |
| Dashboard.BadgeAsWritten | src/pages/AdminDashboard.tsx:294 | as written: no badge renders nothing, but a badge of 0 renders a stray `0` |
| Dashboard.NoUnreadShowsZero | src/pages/AdminDashboard.tsx:294 | with no unread messages the Messages entry shows a stray `0` |
| Dashboard.Badge | src/pages/AdminDashboard.tsx:294-297 | corrected: a pill with the count iff the count is positive, and never stray text |
| Dashboard.BadgeOnlyForUnread | src/pages/AdminDashboard.tsx:100-108 | with the corrected badge, exactly the Messages entry shows a pill, only while there are unread messages, with their number |
| MessagesManager.FetchMessages | src/components/admin/ContactMessagesManager.tsx:36-48 | an error keeps the list; success stores `data \|\| []` and nothing else changes |
| MessagesManager.SetFlag | src/components/admin/ContactMessagesManager.tsx:50-79 | a flag write changes that message only, then refetches and tells the dashboard; an error does neither |
| MessagesManager.MarkAsRead | src/components/admin/ContactMessagesManager.tsx:50-63 | `is_read` becomes true on that message only |
| MessagesManager.MarkAsReplied | src/components/admin/ContactMessagesManager.tsx:65-79 | `replied` becomes true on that message only |
| MessagesManager.MarkAsReadCounts | src/components/admin/ContactMessagesManager.tsx:50-63 | marking an unread message read lowers the unread count by exactly one; marking a read one leaves it alone |
| MessagesManager.MarkAsReadIdempotent | src/components/admin/ContactMessagesManager.tsx:50-63 | marking read twice is marking read once |
| MessagesManager.DeleteMessage | src/components/admin/ContactMessagesManager.tsx:81-97 | nothing without confirmation or on error; otherwise that message only is removed and the dashboard told |
| MessagesManager.ViewMessage | src/components/admin/ContactMessagesManager.tsx:99-106 | viewing opens the dialog on the message and writes `is_read` only when the list's copy says it is unread |
| MessagesManager.ViewThenRefetchWritesOnce | src/components/admin/ContactMessagesManager.tsx:50-106 | opening an unread message marks it read; after the refetch, opening it again writes nothing |
| MessagesManager.Reply | src/components/admin/ContactMessagesManager.tsx:164-167 | the reply opens the unencoded `mailto:` link and marks the message replied, whatever the mail client then does |
| MessagesManager.PlainReplyReadsBack | src/components/admin/ContactMessagesManager.tsx:216-219 | when neither address nor subject holds `?`, `&`, `#` or `%`, the mail opens to the sender with the intended subject and the message is marked replied |
| MessagesManager.TruncatedReplyStillMarked | src/components/admin/ContactMessagesManager.tsx:164-167 | a subject with `&` or `#` arrives cut at the first of them, yet the message is recorded as replied |
| MessagesManager.StatusOf | src/components/admin/ContactMessagesManager.tsx:144-149 | "Read" iff `is_read` is true, "Unread" otherwise, and the Replied badge iff `replied` is true; null counts as false |
| MessagesManager.SubjectText | src/components/admin/ContactMessagesManager.tsx:140 | the subject, or "No subject" when it is empty or missing; never empty |
| MessagesManager.SentMessageArrivesUnread | src/components/admin/ContactMessagesManager.tsx:144-149 | a message sent from the contact form arrives unread and unreplied and raises the unread count by one. An empty subject shows "No subject" |
| Mailto.HexValue | src/components/admin/ContactMessagesManager.tsx:165 | a hexadecimal digit's value is below 16 |
| Mailto.HexDigit | src/components/admin/ContactMessagesManager.tsx:165 | the upper-case digit for a value reads back as that value |
| Mailto.EncodeChar | src/components/admin/ContactMessagesManager.tsx:165 | a character a header value may not carry becomes `%XY` with its code; any other stays; `?`, `&` and `#` are never produced |
| Mailto.Encode | src/components/admin/ContactMessagesManager.tsx:165 | the encoded text holds no `?`, `&` or `#` and is no shorter than the input |
| Mailto.Decode | src/components/admin/ContactMessagesManager.tsx:165 | decoding never lengthens the text |
| Mailto.DecodeEncode | src/components/admin/ContactMessagesManager.tsx:165 | decoding undoes encoding, for every string |
| Mailto.DecodePlain | src/components/admin/ContactMessagesManager.tsx:165 | text without `%` decodes to itself |
| Mailto.CutAt | src/components/admin/ContactMessagesManager.tsx:165 | cutting at the first `c` gives the text before it, which is `c`-free, and the rest, which together rebuild the input |
| Mailto.CutAtFirst | src/components/admin/ContactMessagesManager.tsx:165 | the cut happens at the first occurrence |
| Mailto.SubjectField | src/components/admin/ContactMessagesManager.tsx:165 | a subject is read only from a field that starts with `subject=` |
| Mailto.Read | src/components/admin/ContactMessagesManager.tsx:165 | a mail client reads a URI iff it starts with `mailto:`, and drops everything from the first `#` |
| Mailto.CutAtFree | src/components/admin/ContactMessagesManager.tsx:165 | text without the character is not cut |
| Mailto.FragmentDropped | src/components/admin/ContactMessagesManager.tsx:165 | whatever follows the first `#` has no effect on the mail read |
| Mailto.ReadQuery | src/components/admin/ContactMessagesManager.tsx:165 | with no `#` in the link, a reader takes the recipient from before the first `?` and the subject from the `&`-separated fields after it |
| Mailto.SubjectAlone | src/components/admin/ContactMessagesManager.tsx:165 | a lone `subject=` field yields its decoded value |
| Mailto.SubjectCut | src/components/admin/ContactMessagesManager.tsx:165 | a `subject=` field followed by `&` yields only the text before that `&` |
| Mailto.ReplySubject | src/components/admin/ContactMessagesManager.tsx:165 | `Re: ` and the message's subject, or `Re: Your inquiry` when it is empty or missing |
| Mailto.ReplyUri | src/components/admin/ContactMessagesManager.tsx:165 | the link as written always uses the `mailto:` scheme |
| Mailto.ReplyUriPlain | src/components/admin/ContactMessagesManager.tsx:217 | the unencoded link reads back correctly while neither part holds `?`, `&`, `#` or `%` (the ones the reader treats specially) |
| Mailto.ReplyUriTruncates | src/components/admin/ContactMessagesManager.tsx:165 | as written: a subject with `&` or `#` reads back cut at the first of them, so `Q&A` arrives as `Re: Q` and `C# help` as `Re: C` |
| Mailto.ReplyUriShape | src/components/admin/ContactMessagesManager.tsx:165 | the link as written is `mailto:`, the address, `?subject=` and the reply subject, nothing encoded |
| Mailto.ReadCut | src/components/admin/ContactMessagesManager.tsx:165 | a subject field with an `&` in it reads back as the part before the `&`, whatever follows, fragment included |
| Mailto.ReadCutNoFragment | src/components/admin/ContactMessagesManager.tsx:165 | a subject field cut by `&`, with no `#` after it, reads back as the part before the `&` |
| Mailto.FragmentAfterCut | src/components/admin/ContactMessagesManager.tsx:165 | a fragment after the `&`-cut subject changes nothing read |
| Mailto.ReadFragment | src/components/admin/ContactMessagesManager.tsx:165 | a subject field cut by `#` reads back as the part before the `#` |
| Mailto.SharpSubjectCut | src/components/admin/ContactMessagesManager.tsx:165 | the subject `C# help` arrives as `Re: C` |
| Mailto.ReplyUriEncoded | src/components/admin/ContactMessagesManager.tsx:217 | corrected: the link with both parts percent-encoded uses the `mailto:` scheme |
| Mailto.ReplyUriEncodedReadsBack | src/components/admin/ContactMessagesManager.tsx:217 | with encoding, every recipient and every subject read back exactly |
| BlogManager.TrimAll | src/components/admin/BlogManager.tsx:65 | every piece trimmed, one per piece, in order |
| BlogManager.ParseTags | src/components/admin/BlogManager.tsx:65 | empty text saves no tags; any other text saves, for each of its comma-separated fields in order, that field trimmed: one more tag than it has commas, none holding a comma |
| BlogManager.EditText | src/components/admin/BlogManager.tsx:114 | a post's tags show as their `", "` join, or `''` without tags |
| BlogManager.TrimAllSpaceFront | src/components/admin/BlogManager.tsx:65 | the space of `", "` in front of the text only reaches the first piece, and trimming removes it |
| BlogManager.ParseJoinedTags | src/components/admin/BlogManager.tsx:65-114 | splitting the `", "` join of plain tags at commas and trimming every piece gives the tags back |
| BlogManager.TagsRoundTrip | src/components/admin/BlogManager.tsx:65-114 | non-empty, comma-free, trimmed tags survive the edit form unchanged, and no tags stay no tags |
| BlogManager.BlankTagsGiveEmptyTag | src/components/admin/BlogManager.tsx:65 | white space alone still saves one tag: the empty one |
| BlogManager.PostDataOf | src/components/admin/BlogManager.tsx:63-67 | the payload carries the form's fields and parsed tags, and a publication stamp (the save time) iff the post is marked published |
| BlogManager.Patch | src/components/admin/BlogManager.tsx:70-73 | the update writes every payload column: title, content, excerpt, category, read time, tags, `published` and the publication stamp, and keeps the creation time |
| BlogManager.Create | src/components/admin/BlogManager.tsx:81-84 | the insert writes every payload column as the update would, with the save time as creation time |
| BlogManager.FormOf | src/components/admin/BlogManager.tsx:108-120 | editing copies title, content and `published`, shows the tags as their `", "` join and each missing text field as `''` |
| BlogManager.SubmitPost | src/components/admin/BlogManager.tsx:60-106 | the shared save with this payload: an insert stores the new post with the save time as creation time and the stamp iff published; then the form resets to unpublished and the list is refetched without telling the dashboard |
| BlogManager.EditPost | src/components/admin/BlogManager.tsx:108-120 | `handleEdit` opens the dialog on the post with its form copy and leaves the listed rows alone |
| BlogManager.DeletePost | src/components/admin/BlogManager.tsx:122-137 | nothing without confirmation or on error; otherwise exactly that post goes, every other post is unchanged, and the list is refetched without telling the dashboard |
| BlogManager.EditAndSaveUnchanged | src/components/admin/BlogManager.tsx:60-120 | saving an opened post untouched keeps its plain tags, `published` and creation time, and re-stamps a published post with the save time (a draft's stamp is cleared) |
| PapersManager.DefaultForm | src/components/admin/PastPapersManager.tsx:33-41 | the empty form carries the current year |
| PapersManager.Patch | src/components/admin/PastPapersManager.tsx:78-81 | the update writes all seven form columns: title, subject, type, year, session and both links, empty links as `''` |
| PapersManager.Create | src/components/admin/PastPapersManager.tsx:90-92 | the inserted paper is what the update would write |
| PapersManager.FormOf | src/components/admin/PastPapersManager.tsx:117-129 | editing copies the five required fields and shows a missing link as `''` |
| PapersManager.SubmitPaper | src/components/admin/PastPapersManager.tsx:74-115 | the shared save, resetting to this year's empty form, refetching and telling the dashboard |
| PapersManager.EditPaper | src/components/admin/PastPapersManager.tsx:117-129 | `handleEdit` opens the dialog on the paper with its form copy |
| PapersManager.DeletePaper | src/components/admin/PastPapersManager.tsx:131-147 | nothing without confirmation or on error; otherwise exactly that paper goes, every other paper is unchanged, and the dashboard is told |
| PapersManager.SaveUnchangedKeepsPaper | src/components/admin/PastPapersManager.tsx:74-129 | saving an opened paper untouched keeps every field; a link stays absent (as `''`) or stays the same |
| VideosManager.Patch | src/components/admin/VideoLessonsManager.tsx:73-114 | the update writes all seven form columns: title, topic, unit and address as typed, description, notes link and duration as text, empty as `''` |
| VideosManager.Create | src/components/admin/VideoLessonsManager.tsx:73-114 | the inserted lesson is what the update would write |
| VideosManager.FormOf | src/components/admin/VideoLessonsManager.tsx:116-128 | editing copies the four required fields and shows missing optional text as `''` |
| VideosManager.SubmitVideo | src/components/admin/VideoLessonsManager.tsx:73-114 | the shared save, resetting to the empty form, refetching and telling the dashboard |
| VideosManager.EditVideo | src/components/admin/VideoLessonsManager.tsx:116-128 | `handleEdit` opens the dialog on the lesson with its form copy |
| VideosManager.DeleteVideo | src/components/admin/VideoLessonsManager.tsx:130-146 | nothing without confirmation or on error; otherwise exactly that lesson goes, every other lesson is unchanged, and the dashboard is told |
| VideosManager.DurationText | src/components/admin/VideoLessonsManager.tsx:287 | the duration column shows the duration, or "N/A" when it is empty or missing |
| VideosManager.SaveUnchangedKeepsLesson | src/components/admin/VideoLessonsManager.tsx:73-128 | saving an opened lesson untouched keeps title, link, topic and unit (so its group), and the duration column reads the same |
| ResourcesManager.Patch | src/components/admin/ResourcesManager.tsx:72-76 | the update writes the six form columns: title, description, address, type, subject and file size, and leaves the download counter alone |
| ResourcesManager.Create | src/components/admin/ResourcesManager.tsx:84-87 | a new resource has no download count and otherwise what the update would write |
| ResourcesManager.FormOf | src/components/admin/ResourcesManager.tsx:110-121 | editing shows a missing description, size or subject as `''` |
| ResourcesManager.SubmitResource | src/components/admin/ResourcesManager.tsx:69-108 | the shared save, resetting to the empty form, refetching without telling the dashboard |
| ResourcesManager.EditResource | src/components/admin/ResourcesManager.tsx:110-121 | `handleEdit` opens the dialog on the resource with its form copy |
| ResourcesManager.DeleteResource | src/components/admin/ResourcesManager.tsx:123-138 | nothing without confirmation or on error; otherwise exactly that resource goes, every other resource is unchanged, and the dashboard is not told |
| ResourcesManager.SubmitKeepsDownloads | src/components/admin/ResourcesManager.tsx:30-37 | no save, whatever the form holds, changes any resource's download count |
| ResourcesManager.EditThenDownloadCounts | src/pages/Resources.tsx:88-106 | after an edit, a download from a fresh copy still counts one more than before the edit |
| TestimonialsManager.Patch | src/components/admin/TestimonialsManager.tsx:56-60 | the update writes name, quote, active flag and image and keeps the creation time |
| TestimonialsManager.Create | src/components/admin/TestimonialsManager.tsx:68-71 | the insert writes the form's columns as the update would, with the save time as creation time |
| TestimonialsManager.FormOf | src/components/admin/TestimonialsManager.tsx:92-101 | editing copies name, quote and active flag and shows a missing image as `''` |
| TestimonialsManager.SubmitTestimonial | src/components/admin/TestimonialsManager.tsx:53-90 | the shared save: an update patches that row only, an insert stores the form with the save time as creation time; then the form resets to an active empty one and the list is refetched without telling the dashboard |
| TestimonialsManager.EditTestimonial | src/components/admin/TestimonialsManager.tsx:92-101 | `handleEdit` opens the dialog on the testimonial with its form copy |
| TestimonialsManager.DeleteTestimonial | src/components/admin/TestimonialsManager.tsx:103-118 | nothing without confirmation or on error; otherwise exactly that testimonial goes and every other one is unchanged |
| TestimonialsManager.AddedFromDefaultsIsActive | src/components/admin/TestimonialsManager.tsx:28-33 | a testimonial added from the default form is stored active, so it can reach the home page |
| TestimonialsManager.SaveUnchangedKeepsActive | src/components/admin/TestimonialsManager.tsx:53-101 | saving an opened testimonial untouched keeps it active or inactive, so an edit never hides or reveals it on the home page |

## Left out

- Rendering: JSX layout, styling, icons, toasts and date formatting (`toLocaleDateString`) are left out. The model keeps only the values the markup shows.
- `src/pages/BookSession.tsx` and `src/components/Footer.tsx` are left out: they are static content, links and an external embed.
- The remote procedures typed in `src/integrations/supabase/types.ts` are left out: the pages do not call them.
- Browser effects are left out. `window.open`, `window.location.href`, `navigate`, `confirm` and `console` become values or inputs: the opened address, a redirect flag, a `confirmed` flag.
- The clock (`new Date()`, `getFullYear()`), the store's generated keys and the store's `created_at` are inputs (`now`, `currentYear`, `newId`).
- Concurrency beyond one race is left out. Each store call is one atomic step; the only interleaving modelled is two download clicks before a refetch (`ResourcesPage.LostUpdate`).
- Network failures are left out as such: a store error is an input, and its message is not interpreted.
- Column defaults on insert (for example `is_read` or `downloads`) are not modelled. An insert stores null where the payload gives nothing.
- The form controls' `required` attributes are left out. They stop the browser submitting an empty required field, and the model admits any text.
- JavaScript numbers are integers here. `parseInt` of a non-numeric year (`NaN`) and floating point are left out.
- Unicode beyond ASCII is left out. `toLowerCase` lowers ASCII letters only. `sort` and `localeCompare` use one fixed code-unit order, so locale collation is not modelled. `Mailto.Encode` leaves non-ASCII characters unencoded (their UTF-8 percent-encoding is not modelled).
- JavaScript object key order for integer-like keys is left out. `VideoLessonsPage.GroupVideos` keeps units in insertion order, which is what the page shows for non-numeric unit names.
- StudyTipsPage.CategoryColor: inherited `Object.prototype` keys (a category named `constructor`, say) are not modelled; such a category reads as unknown and gray.
- PastPapersPage.SubjectOptionSelects: requires the chosen subject not to be the text `all`. A subject literally named `all` collides with the "all subjects" option value, and selecting it shows every paper.
- The store's default row limit on a select is left out: listings are complete.
- React lifecycle details are left out: effect scheduling, unsubscribing the auth listener, and the error thrown by the auth hook outside its provider.
- Dashboard.FetchStats: states only the all-missing case and the unread bound. Its partner `Dashboard.StatsOfTables` states the full figures for exact replies.
- Links.VideoId: its own contract states only a shape property of the id. Its behaviour is stated exactly by `Links.VideoIdFromQuery` (a non-empty first `v=` field without another `v=`), `Links.VideoIdEmptyField` (an empty first field) and `Links.VideoIdFromPath` (no `v=` at all). An address whose first `v=` field holds a second `v=` is covered by the shape property only.
- `created_at`, `blog_posts.published` and `testimonials.is_active` are typed nullable (`src/integrations/supabase/types.ts:51`, `:54`, `:202`, `:205`), but the model keeps them as plain values (`Schema.BlogPost`, `Schema.Testimonial`). The store fills them with defaults, and no page writes null to them. A null there, and the code paths that would then read it as falsy, are not modelled.

## Findings

| source | as written | input that shows it | evidently intended | confidence | as-written member | corrected member |
|---|---|---|---|---|---|---|
| src/pages/AdminDashboard.tsx:294 | `{item.badge && item.badge > 0 && <span>…</span>}` short-circuits to the number `0` when the badge is 0, and React renders `0` as text | no unread messages: the Messages entry shows a stray `0` | no badge unless the count is positive | high, not executed | Dashboard.BadgeAsWritten | Dashboard.BadgeOnlyForUnread |
| src/components/admin/BlogManager.tsx:144-150 | dismissing the dialog with Escape, a click outside or the close × keeps the edited row and the form (only the Cancel button clears the edited row), and the "Add" trigger only reopens the dialog; the same pattern is in every manager | edit a post, press Escape, press "Add Blog Post", save: the old post is overwritten and nothing is inserted | "Add" starts a new row from the default form | high, not executed | Editor.AddAfterDismissedEditUpdates | Editor.AddAfterDismissedEditInserts |
| src/components/admin/ContactMessagesManager.tsx:165 | the `mailto:` link is built by concatenation, without percent-encoding the address or subject, so an `&` ends the subject field and a `#` starts the fragment | a message with subject `Q&A`: the mail client's subject is `Re: Q`; with subject `C# help` it is `Re: C` | the reply's subject is `Re: ` and the whole original subject | high, not executed | Mailto.ReplyUriTruncates | Mailto.ReplyUriEncodedReadsBack |
