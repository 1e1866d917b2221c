/** `Array.prototype.filter` and the order-preserving subsequence relation it
    establishes, plus the loading flag every public page wraps its fetch
    in. */
module Seqs {
  import opened Wrappers
  import opened Store

  /** `r` is `xs` with some elements dropped and the rest in their order. */
  predicate IsSubsequence<T(==)>(r: seq<T>, xs: seq<T>)
    decreases |xs|
  {
    if |r| == 0 then true
    else if |xs| == 0 then false
    else (r[0] == xs[0] && IsSubsequence(r[1..], xs[1..])) || IsSubsequence(r, xs[1..])
  }

  /** `xs.filter(keep)`. */
  function Filter<T(==)>(xs: seq<T>, keep: T -> bool): (r: seq<T>)
    ensures |r| <= |xs|
    ensures forall i :: 0 <= i < |r| ==> r[i] in xs && keep(r[i])
    ensures forall i :: 0 <= i < |xs| && keep(xs[i]) ==> xs[i] in r
  {
    if |xs| == 0 then []
    else if keep(xs[0]) then [xs[0]] + Filter(xs[1..], keep)
    else Filter(xs[1..], keep)
  }

  /** The kept elements appear in the order they were fetched in. */
  lemma {:induction false} FilterIsSubsequence<T>(xs: seq<T>, keep: T -> bool)
    ensures IsSubsequence(Filter(xs, keep), xs)
    decreases |xs|
  {
    if |xs| > 0 {
      FilterIsSubsequence(xs[1..], keep);
      var r := Filter(xs, keep);
      if keep(xs[0]) {
        assert r[1..] == Filter(xs[1..], keep);
      }
    }
  }

  /** A filter that keeps everything is the identity. */
  lemma {:induction false} FilterKeepsAll<T>(xs: seq<T>, keep: T -> bool)
    requires forall i :: 0 <= i < |xs| ==> keep(xs[i])
    ensures Filter(xs, keep) == xs
    decreases |xs|
  {
    if |xs| > 0 {
      FilterKeepsAll(xs[1..], keep);
      assert [xs[0]] + xs[1..] == xs;
    }
  }

  /** Filtering a list extended at the end extends the filtered list. */
  lemma {:induction false} FilterSnoc<T>(xs: seq<T>, x: T, keep: T -> bool)
    ensures Filter(xs + [x], keep) == Filter(xs, keep) + (if keep(x) then [x] else [])
    decreases |xs|
  {
    if |xs| > 0 {
      assert (xs + [x])[1..] == xs[1..] + [x];
      FilterSnoc(xs[1..], x, keep);
    } else {
      assert xs + [x] == [x];
    }
  }

  /** A page's fetched list and its `loading` flag. */
  datatype Listing<T> = Listing(items: seq<T>, loading: bool)

  /** The page mounts empty and loading. */
  function Mount<T>(): (l: Listing<T>)
    ensures l.items == [] && l.loading
  {
    Listing([], true)
  }

  /** `fetchX`: `loading` is set before the select and cleared after it,
      whether or not the select failed; a failure keeps the old list. */
  function Fetch<T>(l: Listing<T>, reply: Fetched<T>): (r: Listing<T>)
    ensures !r.loading
    ensures reply.Failed? ==> r.items == l.items
    ensures reply.Data? ==> r.items == reply.rows.GetOr([])
  {
    var started := l.(loading := true);
    Listing(ApplyFetch(started.items, reply), false)
  }

  /** A failed refresh after a successful one shows what the successful one
      fetched. */
  lemma FetchFailureKeeps<T>(l: Listing<T>, rows: seq<T>, m: string)
    ensures Fetch(Fetch(l, Data(Some(rows))), Failed(m)) == Listing(rows, false)
  {
  }
}
