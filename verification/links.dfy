/** The outbound links the pages build: the protocol fix-up applied before a
    download opens, the YouTube thumbnail address, and the `mailto:` reply. */
module Links {
  import opened Wrappers
  import opened Text

  // ---------------------------------------------------------------------------
  // Protocol fix-up

  predicate HasProtocol(url: string) {
    StartsWith(url, "http://") || StartsWith(url, "https://")
  }

  /** Prefix `https://` unless the address already starts with `http://` or
      `https://`, so a bare host is not opened as a relative path. */
  function FixUrl(url: string): (r: string)
    ensures HasProtocol(url) ==> r == url
    ensures !HasProtocol(url) ==> r == "https://" + url
    ensures HasProtocol(r)
  {
    if HasProtocol(url) then url else "https://" + url
  }

  /** Fixing an address twice is fixing it once. */
  lemma FixUrlIdempotent(url: string)
    ensures FixUrl(FixUrl(url)) == FixUrl(url)
  {
  }

  /** The fix-up only ever adds a prefix: the original address is always the
      tail of the opened one. */
  lemma FixUrlKeepsAddress(url: string)
    ensures exists p :: FixUrl(url) == p + url && (p == "" || p == "https://")
  {
    if HasProtocol(url) {
      assert FixUrl(url) == "" + url;
    } else {
      assert FixUrl(url) == "https://" + url;
    }
  }

  /** The address a download button opens: nothing for an absent or empty
      address (which is falsy), the fixed-up address otherwise. */
  function OpenedUrl(url: Option<string>): (r: Option<string>)
    ensures r.None? <==> !Present(url)
    ensures r.Some? ==> r.value == FixUrl(url.value) && HasProtocol(r.value)
  {
    if Present(url) then Some(FixUrl(url.value)) else None
  }

  // ---------------------------------------------------------------------------
  // YouTube thumbnails

  /** `url.split('v=')[1]?.split('&')[0] || url.split('/').pop()`: the text
      after the first `v=` (up to the next `v=` or `&`) when that is
      non-empty, otherwise the last `/`-separated segment. */
  function VideoId(url: string): (id: string)
    ensures '/' !in id || '&' !in id
  {
    var byV := SplitOn(url, "v=");
    var fromQuery := if |byV| > 1 then Split(byV[1], '&')[0] else "";
    if fromQuery != "" then fromQuery else Last(Split(url, '/'))
  }

  /** `getYouTubeThumbnail`. */
  function ThumbnailUrl(url: string): (r: string)
    ensures StartsWith(r, "https://img.youtube.com/vi/")
    ensures r == "https://img.youtube.com/vi/" + VideoId(url) + "/maxresdefault.jpg"
  {
    "https://img.youtube.com/vi/" + VideoId(url) + "/maxresdefault.jpg"
  }

  /** An address with no `v=` yields its last path segment, so a share link
      `https://youtu.be/<id>` yields `<id>`. */
  lemma VideoIdFromPath(prefix: string, id: string)
    requires !Contains(prefix + "/" + id, "v=")
    requires '/' !in id
    ensures VideoId(prefix + "/" + id) == id
  {
    NoSeparatorSplitsToOne(prefix + "/" + id, "v=");
    LastSegment(prefix, id, '/');
  }

  /** Where the first `v=` is followed by a non-empty field, the id is
      that field up to the first `&` or the end: both
      `watch?v=<id>` and `watch?v=<id>&t=42` yield `<id>`. */
  lemma VideoIdFromQuery(prefix: string, tail: string)
    requires !Contains(prefix, "v=")
    requires Split(tail, '&')[0] != "" && !Contains(Split(tail, '&')[0], "v=")
    ensures VideoId(prefix + "v=" + tail) == Split(tail, '&')[0]
  {
    var url := prefix + "v=" + tail;
    var id := Split(tail, '&')[0];
    SecondFieldOf(prefix, tail);
    var second := SplitOn(url, "v=")[1];
    assert second == SplitOn(tail, "v=")[0];
    QueryField(tail);
    assert Split(second, '&')[0] == id;
    IdFromField(url, id);
  }

  /** The second `v=`-field of `prefix + "v=" + tail`, as `VideoId` sees
      the address. */
  lemma SecondFieldOf(prefix: string, tail: string)
    requires !Contains(prefix, "v=")
    ensures |SplitOn(prefix + "v=" + tail, "v=")| > 1
    ensures SplitOn(prefix + "v=" + tail, "v=")[1] == SplitOn(tail, "v=")[0]
  {
    assert prefix + "v=" + tail == prefix + ("v=" + tail);
    SecondVField(prefix, tail);
  }

  /** A non-empty `&`-cut of the second `v=`-field is the id. */
  lemma IdFromField(url: string, id: string)
    requires |SplitOn(url, "v=")| > 1 && Split(SplitOn(url, "v=")[1], '&')[0] == id
    requires id != ""
    ensures VideoId(url) == id
  {
  }

  /** An empty `&`-cut of the second `v=`-field falls back to the last
      path segment. */
  lemma IdFromPath(url: string)
    requires |SplitOn(url, "v=")| > 1 && Split(SplitOn(url, "v=")[1], '&')[0] == ""
    ensures VideoId(url) == Last(Split(url, '/'))
  {
  }

  /** The text after `v=`, cut at the next `v=` and then at the first `&`,
      is its first `&`-field when that field holds no `v=`. */
  lemma QueryField(tail: string)
    requires !Contains(Split(tail, '&')[0], "v=")
    ensures Split(SplitOn(tail, "v=")[0], '&')[0] == Split(tail, '&')[0]
  {
    if '&' in tail {
      var j := FirstIndex(tail, '&');
      var rest := tail[j + 1..];
      assert tail == tail[..j] + "&" + rest;
      SplitFirstField(tail[..j], rest, '&');
      FieldBeforeAmp(tail[..j], rest);
    } else {
      SplitFree(tail, '&');
      NoSeparatorSplitsToOne(tail, "v=");
    }
  }

  /** An empty `v=` field (`watch?v=` or `watch?v=&...`) is falsy, so the id
      falls back to the last path segment. */
  lemma VideoIdEmptyField(prefix: string, tail: string)
    requires !Contains(prefix, "v=")
    requires tail == "" || tail[0] == '&'
    ensures VideoId(prefix + "v=" + tail) == Last(Split(prefix + "v=" + tail, '/'))
  {
    var url := prefix + "v=" + tail;
    SecondFieldOf(prefix, tail);
    EmptyField(tail);
    IdFromPath(url);
  }

  /** Text that is empty or starts with `&` has an empty first field, cut
      at `v=` and then at `&`. */
  lemma EmptyField(tail: string)
    requires tail == "" || tail[0] == '&'
    ensures Split(SplitOn(tail, "v=")[0], '&')[0] == ""
  {
    var field := SplitOn(tail, "v=")[0];
    if tail == "" {
      assert field == "";
    } else {
      assert !("v=" <= tail);
      assert field[0] == '&';
      assert Split(field, '&')[0] == "";
    }
  }

  /** With no `v=` in `prefix`, the second `v=`-field of
      `prefix + "v=" + tail` is the first field of `tail`. */
  lemma {:induction false} SecondVField(prefix: string, tail: string)
    requires !Contains(prefix, "v=")
    ensures |SplitOn(prefix + ("v=" + tail), "v=")| > 1
    ensures SplitOn(prefix + ("v=" + tail), "v=")[1] == SplitOn(tail, "v=")[0]
    decreases |prefix|
  {
    var s := prefix + ("v=" + tail);
    if |prefix| == 0 {
      assert s == "v=" + tail;
      assert s[2..] == tail;
    } else {
      assert s[1..] == prefix[1..] + ("v=" + tail);
      assert !("v=" <= s) by {
        if |prefix| >= 2 {
          assert s[..2] == prefix[..2];
        } else {
          assert s[1] == 'v';
        }
      }
      SecondVField(prefix[1..], tail);
    }
  }

  /** The first `v=`-field of `id + "&" + rest` is cut at the `&` to `id`. */
  lemma {:induction false} FieldBeforeAmp(id: string, rest: string)
    requires !Contains(id, "v=") && '&' !in id
    ensures Split(SplitOn(id + "&" + rest, "v=")[0], '&')[0] == id
    decreases |id|
  {
    var s := id + "&" + rest;
    if |id| == 0 {
      assert s[0] == '&';
      var field := SplitOn(s, "v=")[0];
      assert field == ['&'] + SplitOn(s[1..], "v=")[0];
      assert field[1..] == SplitOn(s[1..], "v=")[0];
    } else {
      assert s[1..] == id[1..] + "&" + rest;
      assert !("v=" <= s) by {
        if |id| >= 2 {
          assert s[..2] == id[..2];
        } else {
          assert s[1] == '&';
        }
      }
      assert '&' !in id[1..] by {
        assert forall k :: 0 <= k < |id[1..]| ==> id[1..][k] == id[k + 1];
      }
      FieldBeforeAmp(id[1..], rest);
      var field := SplitOn(s, "v=")[0];
      assert field == [id[0]] + SplitOn(s[1..], "v=")[0];
      assert field[1..] == SplitOn(s[1..], "v=")[0];
      assert id == [id[0]] + id[1..];
    }
  }

  /** A string in which `sep` never occurs splits into itself. */
  lemma {:induction false} NoSeparatorSplitsToOne(s: string, sep: string)
    requires |sep| > 0 && !Contains(s, sep)
    ensures SplitOn(s, sep) == [s]
    decreases |s|
  {
    if |s| > 0 {
      NoSeparatorSplitsToOne(s[1..], sep);
      assert [s[0]] + s[1..] == s;
    }
  }

  /** The last `c`-separated segment of `prefix + [c] + id` is `id`, and
      there is a segment before it. */
  lemma {:induction false} LastSegment(prefix: string, id: string, c: char)
    requires c !in id
    ensures |Split(prefix + [c] + id, c)| >= 2
    ensures Last(Split(prefix + [c] + id, c)) == id
    decreases |prefix|
  {
    var s := prefix + [c] + id;
    if |prefix| == 0 {
      assert s[0] == c && s[1..] == id;
      SplitFree(id, c);
    } else {
      assert s[1..] == prefix[1..] + [c] + id;
      LastSegment(prefix[1..], id, c);
    }
  }
}
