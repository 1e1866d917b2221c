/** The public study-tips page: a free-text search over published posts,
    the tag buttons that fill it in, and how a post card is labelled. */
module StudyTipsPage {
  import opened Wrappers
  import opened Text
  import opened Schema
  import opened Store
  import opened Seqs

  /** Some tag contains the (already lowercased) term, case-insensitively. */
  predicate SomeTagMatches(tags: seq<string>, term: string) {
    exists i :: 0 <= i < |tags| && Contains(Lower(tags[i]), term)
  }

  /** The term, lowercased, occurs in the lowercased title, in the excerpt
      when there is one, or in some tag when there are tags. */
  predicate Matches(search: string, p: BlogPost) {
    var term := Lower(search);
    || Contains(Lower(p.title), term)
    || (p.excerpt.Some? && Contains(Lower(p.excerpt.value), term))
    || (p.tags.Some? && SomeTagMatches(p.tags.value, term))
  }

  /** `filteredPosts`. */
  function Visible(search: string, posts: seq<Row<BlogPost>>): (r: seq<Row<BlogPost>>)
    ensures forall i :: 0 <= i < |r| ==> r[i] in posts && Matches(search, r[i].fields)
    ensures forall i :: 0 <= i < |posts| && Matches(search, posts[i].fields) ==> posts[i] in r
  {
    Filter(posts, (row: Row<BlogPost>) => Matches(search, row.fields))
  }

  /** The list keeps the fetched (newest first) order. */
  lemma VisibleInOrder(search: string, posts: seq<Row<BlogPost>>)
    ensures IsSubsequence(Visible(search, posts), posts)
  {
    FilterIsSubsequence(posts, (row: Row<BlogPost>) => Matches(search, row.fields));
  }

  /** An empty search lists every fetched post. */
  lemma EmptySearchShowsAll(posts: seq<Row<BlogPost>>)
    ensures Visible("", posts) == posts
  {
    assert Lower("") == "";
    forall i | 0 <= i < |posts|
      ensures Matches("", posts[i].fields)
    {
      ContainsEmpty(Lower(posts[i].fields.title));
    }
    FilterKeepsAll(posts, (row: Row<BlogPost>) => Matches("", row.fields));
  }

  /** The tags under "Popular Tags". */
  const PopularTags: seq<string> :=
    ["A-Level", "IGCSE", "Exam Tips", "Study Tips", "Add Maths", "Calculus", "Problem Solving", "Time Management"]

  /** Clicking a tag sets the search to exactly that tag, so every post
      carrying the tag is listed. */
  lemma TagClickShowsTagged(posts: seq<Row<BlogPost>>, tag: string, i: nat)
    requires i < |posts| && posts[i].fields.tags.Some? && tag in posts[i].fields.tags.value
    ensures posts[i] in Visible(tag, posts)
  {
    var tags := posts[i].fields.tags.value;
    var k :| 0 <= k < |tags| && tags[k] == tag;
    ContainsSelf(Lower(tag));
    assert SomeTagMatches(tags, Lower(tag));
  }

  // ---------------------------------------------------------------------------
  // Card labels

  const Gray := "bg-gray-100 text-gray-800"

  /** The six categories with a colour of their own, and their colours. */
  const KnownCategories: seq<string> :=
    ["Study Methods", "Productivity", "Problem Solving", "Subject Focus", "Exam Preparation", "Learning Theory"]

  const Palette: seq<string> :=
    ["bg-blue-100 text-blue-800", "bg-green-100 text-green-800", "bg-purple-100 text-purple-800",
     "bg-orange-100 text-orange-800", "bg-red-100 text-red-800", "bg-indigo-100 text-indigo-800"]

  /** The value stored under `key` in the object literal `keys`/`values`:
      as in JavaScript, a repeated key keeps its last entry. */
  function Lookup(key: string, keys: seq<string>, values: seq<string>): (r: Option<string>)
    requires |keys| == |values|
    ensures r.None? <==> key !in keys
    ensures forall i :: 0 <= i < |keys| && keys[i] == key && key !in keys[i + 1..] ==> r == Some(values[i])
  {
    if |keys| == 0 then None
    else
      var later := Lookup(key, keys[1..], values[1..]);
      assert forall i :: 1 <= i < |keys| ==> keys[1..][i..] == keys[i + 1..];
      if later.Some? then later
      else if keys[0] == key then Some(values[0])
      else None
  }

  /** `getCategoryColor`: the badge colour of a category, gray for a
      missing, empty or unknown one. */
  function CategoryColor(category: Option<string>): (r: string)
    ensures !Present(category) ==> r == Gray
    ensures Present(category) && category.value !in KnownCategories ==> r == Gray
  {
    if !Present(category) then Gray
    else Lookup(category.value, KnownCategories, Palette).GetOr(Gray)
  }

  /** Each known category has its own colour, different from gray and from
      every other known category's. */
  lemma KnownCategoryColor(i: nat)
    requires i < |KnownCategories|
    ensures CategoryColor(Some(KnownCategories[i])) == Palette[i]
    ensures Palette[i] != Gray
    ensures forall j :: 0 <= j < |Palette| && j != i ==> Palette[j] != Palette[i]
  {
    ColorOfKnown(i);
    forall j | 0 <= j < |Palette| && j != i
      ensures Palette[j] != Palette[i]
    {
      PaletteDistinct(i, j);
    }
    PaletteNotGray(i);
  }

  /** The lookup finds a known category's own colour: its name is not
      repeated further down the literal. */
  lemma ColorOfKnown(i: nat)
    requires i < |KnownCategories|
    ensures CategoryColor(Some(KnownCategories[i])) == Palette[i]
  {
    var key := KnownCategories[i];
    forall j | i < j < |KnownCategories|
      ensures KnownCategories[j] != key
    {
      KnownCategoriesDistinct(i, j);
    }
    assert key !in KnownCategories[i + 1..];
    assert |key| > 0;
  }

  /** No colour of the palette is the fallback gray. */
  lemma PaletteNotGray(i: nat)
    requires i < |Palette|
    ensures Palette[i] != Gray
  {
    assert Palette[i][5] != Gray[5] || Palette[i][3] != Gray[3];
  }

  /** No category name is listed twice. */
  lemma KnownCategoriesDistinct(a: nat, b: nat)
    requires a < b < |KnownCategories|
    ensures KnownCategories[a] != KnownCategories[b]
  {
    if (a == 0 && b == 3) || (a == 2 && b == 5) {
      assert KnownCategories[a][1] != KnownCategories[b][1];
    } else {
      assert |KnownCategories[a]| != |KnownCategories[b]|;
    }
  }

  /** No colour is used for two categories: the colour names differ in
      their first letter. */
  lemma PaletteDistinct(a: nat, b: nat)
    requires a < |Palette| && b < |Palette| && a != b
    ensures Palette[a] != Palette[b]
  {
    assert Palette[a][3] != Palette[b][3];
  }

  /** The card's preview: the excerpt when it is non-empty, otherwise the
      first 150 characters of the content followed by `...`. */
  function Preview(p: BlogPost): (r: string)
    ensures Present(p.excerpt) ==> r == p.excerpt.value
    ensures !Present(p.excerpt) ==>
      && |r| == (if |p.content| < 150 then |p.content| else 150) + 3
      && r[..|r| - 3] <= p.content
      && r[|r| - 3..] == "..."
  {
    if Present(p.excerpt) then p.excerpt.value else Take(p.content, 150) + "..."
  }

  /** The labels a card shows besides title and preview. */
  datatype Labels = Labels(category: string, readTime: string, date: string)

  /** `category || 'General'`, `read_time || '5 min read'` and the date
      source `published_at || created_at`. */
  function CardLabels(p: BlogPost): (l: Labels)
    ensures l.category == (if Present(p.category) then p.category.value else "General")
    ensures l.readTime == (if Present(p.readTime) then p.readTime.value else "5 min read")
    ensures l.date == (if Present(p.publishedAt) then p.publishedAt.value else p.createdAt)
  {
    Labels(OrElse(p.category, "General"), OrElse(p.readTime, "5 min read"), OrElse(p.publishedAt, p.createdAt))
  }

  /** A post whose stamp was cleared still shows a date: its creation date. */
  lemma UnstampedShowsCreation(p: BlogPost)
    requires p.publishedAt.None?
    ensures CardLabels(p).date == p.createdAt
  {
  }
}
