/** The public past-papers page: a text search over three fields, a year
    and a subject drop-down whose options come from the fetched papers. */
module PastPapersPage {
  import opened Wrappers
  import opened Text
  import opened TextOrder
  import opened Schema
  import opened Store
  import opened Seqs

  /** The three filter controls; `'all'` switches a drop-down off. */
  datatype Query = Query(search: string, year: string, subject: string)

  /** The controls as the page mounts. */
  const Unfiltered := Query("", "all", "all")

  /** The lowercased term occurs in the lowercased title, subject or paper
      type. */
  predicate MatchesSearch(search: string, p: PastPaper) {
    var term := Lower(search);
    Contains(Lower(p.title), term) || Contains(Lower(p.subject), term) || Contains(Lower(p.paperType), term)
  }

  /** The year is compared as text, `year.toString()`; the subject exactly. */
  predicate Shown(q: Query, p: PastPaper) {
    && MatchesSearch(q.search, p)
    && (q.year == "all" || IntToString(p.year) == q.year)
    && (q.subject == "all" || p.subject == q.subject)
  }

  /** `filteredPapers`: a paper is listed iff it passes all three controls. */
  function Visible(q: Query, papers: seq<Row<PastPaper>>): (r: seq<Row<PastPaper>>)
    ensures forall i :: 0 <= i < |r| ==> r[i] in papers && Shown(q, r[i].fields)
    ensures forall i :: 0 <= i < |papers| && Shown(q, papers[i].fields) ==> papers[i] in r
  {
    Filter(papers, (row: Row<PastPaper>) => Shown(q, row.fields))
  }

  /** The list keeps the fetched (newest year first) order. */
  lemma VisibleInOrder(q: Query, papers: seq<Row<PastPaper>>)
    ensures IsSubsequence(Visible(q, papers), papers)
  {
    FilterIsSubsequence(papers, (row: Row<PastPaper>) => Shown(q, row.fields));
  }

  /** The empty term occurs in every field once lowercased. */
  lemma EmptySearchMatches(p: PastPaper)
    ensures MatchesSearch("", p)
  {
    assert Lower("") == "";
    ContainsEmpty(Lower(p.title));
  }

  /** With the controls as mounted, every fetched paper is listed, in order. */
  lemma UnfilteredShowsAll(papers: seq<Row<PastPaper>>)
    ensures Visible(Unfiltered, papers) == papers
  {
    forall i | 0 <= i < |papers|
      ensures Shown(Unfiltered, papers[i].fields)
    {
      EmptySearchMatches(papers[i].fields);
    }
    FilterKeepsAll(papers, (row: Row<PastPaper>) => Shown(Unfiltered, row.fields));
  }

  /** `papers.map(paper => paper.year.toString())`. */
  function YearTexts(papers: seq<Row<PastPaper>>): (r: seq<string>)
    ensures |r| == |papers|
    ensures forall i :: 0 <= i < |papers| ==> r[i] == IntToString(papers[i].fields.year)
  {
    seq(|papers|, i requires 0 <= i < |papers| => IntToString(papers[i].fields.year))
  }

  /** The year drop-down: each year once, in descending TEXT order, so
      `"999"` would be listed above `"2000"`. */
  function YearOptions(papers: seq<Row<PastPaper>>): (r: seq<string>)
    ensures Descending(r)
    ensures forall y :: y in r <==> exists i :: 0 <= i < |papers| && IntToString(papers[i].fields.year) == y
  {
    var texts := YearTexts(papers);
    var r := SortedSetDescending(texts);
    assert forall y :: y in texts <==> exists i :: 0 <= i < |papers| && IntToString(papers[i].fields.year) == y by {
      forall y | y in texts
        ensures exists i :: 0 <= i < |papers| && IntToString(papers[i].fields.year) == y
      {
        var i :| 0 <= i < |texts| && texts[i] == y;
        assert IntToString(papers[i].fields.year) == y;
      }
    }
    r
  }

  /** The order is textual, not numeric: 2000 sorts below 999. */
  lemma YearOrderIsTextual()
    ensures 999 < 2000 && Less(IntToString(999), IntToString(2000)) == false
    ensures Less(IntToString(2000), IntToString(999))
  {
    assert NatToString(9) == "9";
    assert NatToString(99) == "99";
    assert IntToString(999) == "999";
    assert NatToString(2) == "2";
    assert NatToString(20) == "20";
    assert NatToString(200) == "200";
    assert IntToString(2000) == "2000";
  }

  /** `papers.map(paper => paper.subject)`. */
  function Subjects(papers: seq<Row<PastPaper>>): (r: seq<string>)
    ensures |r| == |papers|
    ensures forall i :: 0 <= i < |papers| ==> r[i] == papers[i].fields.subject
  {
    seq(|papers|, i requires 0 <= i < |papers| => papers[i].fields.subject)
  }

  /** The subject drop-down: each subject once, ascending. */
  function SubjectOptions(papers: seq<Row<PastPaper>>): (r: seq<string>)
    ensures Ascending(r)
    ensures forall s :: s in r <==> exists i :: 0 <= i < |papers| && papers[i].fields.subject == s
  {
    var subjects := Subjects(papers);
    assert forall s :: s in subjects <==> exists i :: 0 <= i < |papers| && papers[i].fields.subject == s by {
      forall s | s in subjects
        ensures exists i :: 0 <= i < |papers| && papers[i].fields.subject == s
      {
        var i :| 0 <= i < |subjects| && subjects[i] == s;
        assert papers[i].fields.subject == s;
      }
    }
    SortedSet(subjects)
  }

  /** Picking any offered year, with the other controls untouched, lists
      at least one paper, and only papers of that year. */
  lemma YearOptionSelects(papers: seq<Row<PastPaper>>, y: string)
    requires y in YearOptions(papers)
    ensures var r := Visible(Query("", y, "all"), papers);
      |r| > 0 && forall i :: 0 <= i < |r| ==> IntToString(r[i].fields.year) == y
  {
    var i :| 0 <= i < |papers| && IntToString(papers[i].fields.year) == y;
    EmptySearchMatches(papers[i].fields);
    var r := Visible(Query("", y, "all"), papers);
    assert papers[i] in r;
    forall j | 0 <= j < |r|
      ensures IntToString(r[j].fields.year) == y
    {
      assert y != "all" by {
        assert y[0] != 'a' by {
          if papers[i].fields.year >= 0 {
            assert '0' <= y[0] <= '9';
          }
        }
      }
    }
  }

  /** Picking any offered subject lists at least one paper, and only papers
      of that subject. */
  lemma SubjectOptionSelects(papers: seq<Row<PastPaper>>, s: string)
    requires s in SubjectOptions(papers) && s != "all"
    ensures var r := Visible(Query("", "all", s), papers);
      |r| > 0 && forall i :: 0 <= i < |r| ==> r[i].fields.subject == s
  {
    var i :| 0 <= i < |papers| && papers[i].fields.subject == s;
    EmptySearchMatches(papers[i].fields);
    assert papers[i] in Visible(Query("", "all", s), papers);
  }
}
