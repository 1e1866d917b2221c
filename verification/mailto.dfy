/** The "Reply via Email" link of the messages manager: a `mailto:` URI
    built by string concatenation, and how a mail client reads such a URI
    back under section 2 of RFC 6068 (a `#` starts the fragment, which
    section 3.5 of RFC 3986 keeps out of the URI proper; the recipient
    comes before the first `?`, `&`-separated header fields after it, each
    value percent-decoded). */
module Mailto {
  import opened Wrappers
  import opened Text

  // ---------------------------------------------------------------------------
  // Percent-encoding (section 2.1 of RFC 3986, as section 2 of RFC 6068 uses it)

  predicate IsHex(c: char) {
    ('0' <= c <= '9') || ('A' <= c <= 'F') || ('a' <= c <= 'f')
  }

  function HexValue(c: char): (v: nat)
    requires IsHex(c)
    ensures v < 16
  {
    if '0' <= c <= '9' then (c as int - '0' as int)
    else if 'A' <= c <= 'F' then (c as int - 'A' as int) + 10
    else (c as int - 'a' as int) + 10
  }

  /** Upper-case hexadecimal digit, as RFC 3986 recommends for producers. */
  function HexDigit(d: nat): (c: char)
    requires d < 16
    ensures IsHex(c) && HexValue(c) == d
  {
    if d < 10 then ('0' as int + d) as char else ('A' as int + d - 10) as char
  }

  /** `unreserved` of RFC 3986. */
  predicate Unreserved(c: char) {
    ('a' <= c <= 'z') || ('A' <= c <= 'Z') || ('0' <= c <= '9') || c == '-' || c == '.' || c == '_' || c == '~'
  }

  /** `some-delims` of RFC 6068: the delimiters a header value may carry
      unencoded. */
  predicate SomeDelim(c: char) {
    c in "!$'()*+,;:@"
  }

  /** An ASCII character that is not a `qchar` must be written `%XY`. */
  predicate NeedsEscape(c: char) {
    (c as int) < 128 && !Unreserved(c) && !SomeDelim(c)
  }

  function EncodeChar(c: char): (r: string)
    ensures NeedsEscape(c) ==>
      && |r| == 3 && r[0] == '%' && IsHex(r[1]) && IsHex(r[2])
      && HexValue(r[1]) * 16 + HexValue(r[2]) == c as int
    ensures !NeedsEscape(c) ==> r == [c]
    ensures '?' !in r && '&' !in r && '#' !in r
  {
    if NeedsEscape(c) then ['%', HexDigit(c as int / 16), HexDigit(c as int % 16)] else [c]
  }

  /** Percent-encodes every ASCII character outside `qchar`; characters
      beyond ASCII are left as they are. */
  function Encode(s: string): (r: string)
    ensures '?' !in r && '&' !in r && '#' !in r
    ensures |r| >= |s|
  {
    if |s| == 0 then "" else EncodeChar(s[0]) + Encode(s[1..])
  }

  /** Percent-decoding as a reader applies it: `%XY` with two hex digits is
      the character with that code; anything else stands for itself. */
  function Decode(s: string): (r: string)
    ensures |r| <= |s|
  {
    if |s| == 0 then ""
    else if s[0] == '%' && |s| >= 3 && IsHex(s[1]) && IsHex(s[2]) then
      [(HexValue(s[1]) * 16 + HexValue(s[2])) as char] + Decode(s[3..])
    else [s[0]] + Decode(s[1..])
  }

  /** Decoding undoes encoding, for every string. */
  lemma {:induction false} DecodeEncode(s: string)
    ensures Decode(Encode(s)) == s
    decreases |s|
  {
    if |s| > 0 {
      DecodeEncode(s[1..]);
      var e := EncodeChar(s[0]);
      var rest := Encode(s[1..]);
      assert Encode(s) == e + rest;
      if NeedsEscape(s[0]) {
        assert (e + rest)[3..] == rest;
      } else {
        assert s[0] != '%';
        assert (e + rest)[1..] == rest;
      }
      assert s == [s[0]] + s[1..];
    }
  }

  /** Text without `%` decodes to itself. */
  lemma {:induction false} DecodePlain(s: string)
    requires '%' !in s
    ensures Decode(s) == s
    decreases |s|
  {
    if |s| > 0 {
      assert '%' !in s[1..] by {
        assert forall k :: 0 <= k < |s[1..]| ==> s[1..][k] == s[k + 1];
      }
      DecodePlain(s[1..]);
      assert s == [s[0]] + s[1..];
    }
  }

  // ---------------------------------------------------------------------------
  // Reading a mailto URI

  /** `s` cut at the first `c`: the text before it, and the text after it
      when there is one. */
  function CutAt(s: string, c: char): (r: (string, Option<string>))
    ensures c !in r.0
    ensures r.1.None? ==> r.0 == s
    ensures r.1.Some? ==> s == r.0 + [c] + r.1.value
    decreases |s|
  {
    if |s| == 0 then ("", None)
    else if s[0] == c then ("", Some(s[1..]))
    else
      var (before, after) := CutAt(s[1..], c);
      ([s[0]] + before, after)
  }

  /** Without `c` there is nothing to cut. */
  lemma {:induction false} CutAtFree(s: string, c: char)
    requires c !in s
    ensures CutAt(s, c) == (s, None)
    decreases |s|
  {
    if |s| > 0 {
      assert c !in s[1..] by {
        assert forall k :: 0 <= k < |s[1..]| ==> s[1..][k] == s[k + 1];
      }
      CutAtFree(s[1..], c);
      assert [s[0]] + s[1..] == s;
    }
  }

  /** The cut is at the first occurrence: one that has no `c` before it. */
  lemma {:induction false} CutAtFirst(a: string, b: string, c: char)
    requires c !in a
    ensures CutAt(a + [c] + b, c) == (a, Some(b))
    decreases |a|
  {
    if |a| == 0 {
      assert a + [c] + b == [c] + b;
    } else {
      assert (a + [c] + b)[1..] == a[1..] + [c] + b;
      CutAtFirst(a[1..], b, c);
      assert [a[0]] + a[1..] == a;
    }
  }

  /** What a mail client takes from the URI. */
  datatype Mail = Mail(to: string, subject: Option<string>)

  /** The decoded value of the first field `subject=...`. */
  function SubjectField(fields: seq<string>): (r: Option<string>)
    ensures r.Some? ==> exists i :: 0 <= i < |fields| && StartsWith(fields[i], "subject=")
  {
    if |fields| == 0 then None
    else if StartsWith(fields[0], "subject=") then Some(Decode(fields[0][8..]))
    else SubjectField(fields[1..])
  }

  /** A client's reading of a `mailto:` URI; `None` for any other scheme.
      Everything from the first `#` on is the fragment and is dropped. */
  function Read(uri: string): (m: Option<Mail>)
    ensures m.Some? <==> StartsWith(uri, "mailto:")
  {
    if !StartsWith(uri, "mailto:") then None
    else
      var (body, _) := CutAt(uri[7..], '#');
      var (to, query) := CutAt(body, '?');
      Some(Mail(Decode(to), if query.Some? then SubjectField(Split(query.value, '&')) else None))
  }

  /** The fragment is not read: whatever follows the first `#` has no
      effect on the mail. */
  lemma FragmentDropped(body: string, fragment: string)
    requires '#' !in body
    ensures Read("mailto:" + body + "#" + fragment) == Read("mailto:" + body)
  {
    assert ("mailto:" + body + "#" + fragment)[7..] == body + ['#'] + fragment;
    assert ("mailto:" + body)[7..] == body;
    CutAtFirst(body, fragment, '#');
    CutAtFree(body, '#');
  }

  // ---------------------------------------------------------------------------
  // The reply link

  /** The subject the reply is meant to carry: `Re: ` and the message's
      subject, or `Your inquiry` when it has none. */
  function ReplySubject(subject: Option<string>): (r: string)
    ensures StartsWith(r, "Re: ")
    ensures Present(subject) ==> r == "Re: " + subject.value
    ensures !Present(subject) ==> r == "Re: Your inquiry"
  {
    "Re: " + OrElse(subject, "Your inquiry")
  }

  /** The link exactly as the template literal builds it: no encoding. */
  function ReplyUri(email: string, subject: Option<string>): (r: string)
    ensures StartsWith(r, "mailto:")
  {
    "mailto:" + email + "?subject=" + ReplySubject(subject)
  }

  /** A reader takes the recipient from before the first `?` and the
      subject from the `&`-separated fields after it. */
  lemma ReadQuery(to: string, query: string)
    requires '?' !in to && '#' !in to && '#' !in query
    ensures Read("mailto:" + to + "?" + query) == Some(Mail(Decode(to), SubjectField(Split(query, '&'))))
  {
    var uri := "mailto:" + to + "?" + query;
    assert uri[7..] == to + ['?'] + query;
    assert '#' !in to + ['?'] + query;
    CutAtFree(to + ['?'] + query, '#');
    CutAtFirst(to, query, '?');
  }

  /** A lone `subject=` field yields its decoded value. */
  lemma SubjectAlone(v: string)
    requires '&' !in v
    ensures SubjectField(Split("subject=" + v, '&')) == Some(Decode(v))
  {
    assert '&' !in "subject=" + v;
    SplitFree("subject=" + v, '&');
    assert ("subject=" + v)[8..] == v;
  }

  /** A `subject=` field followed by `&` and more yields only its own
      decoded value. */
  lemma SubjectCut(v: string, after: string)
    requires '&' !in v
    ensures SubjectField(Split("subject=" + v + "&" + after, '&')) == Some(Decode(v))
  {
    var field := "subject=" + v;
    assert '&' !in field;
    assert field + "&" + after == field + ['&'] + after;
    SplitFirstField(field, after, '&');
    assert field[8..] == v;
  }

  /** A subject with `&` or `#` in it is cut short: the reader sees only
      the text before the first of them, so `Q&A` arrives as `Re: Q` and
      `C# help` as `Re: C`. */
  lemma ReplyUriTruncates(email: string, before: string, cut: char, after: string)
    requires cut == '&' || cut == '#'
    requires '?' !in email && '%' !in email && '#' !in email
    requires '&' !in before && '#' !in before && '%' !in before
    ensures Read(ReplyUri(email, Some(before + [cut] + after))) == Some(Mail(email, Some("Re: " + before)))
  {
    var v := "Re: " + before;
    var subject := Some(before + [cut] + after);
    assert ReplyUri(email, subject) == "mailto:" + email + "?" + ("subject=" + (v + [cut] + after)) by {
      ReplyUriShape(email, subject);
      assert ReplySubject(subject) == v + [cut] + after;
    }
    assert '&' !in v && '#' !in v && '%' !in v;
    if cut == '&' {
      ReadCut(email, v, after);
    } else {
      ReadFragment(email, v, after);
    }
  }

  /** A subject `C# help` arrives as `Re: C`. */
  lemma SharpSubjectCut(email: string)
    requires '?' !in email && '%' !in email && '#' !in email
    ensures Read(ReplyUri(email, Some("C# help"))) == Some(Mail(email, Some("Re: C")))
  {
    var before, after := "C", " help";
    assert before + ['#'] + after == "C# help";
    assert "Re: " + before == "Re: C";
    assert '&' !in before && '#' !in before && '%' !in before;
    ReplyUriTruncates(email, before, '#', after);
  }

  /** A plain recipient and a plain subject value followed by a fragment
      read back as the recipient and that value. */
  lemma ReadFragment(email: string, v: string, fragment: string)
    requires '?' !in email && '%' !in email && '#' !in email
    requires '&' !in v && '#' !in v && '%' !in v
    ensures Read("mailto:" + email + "?" + ("subject=" + (v + "#" + fragment))) == Some(Mail(email, Some(v)))
  {
    var body := email + "?" + ("subject=" + v);
    assert "mailto:" + email + "?" + ("subject=" + (v + "#" + fragment)) == "mailto:" + body + "#" + fragment;
    assert "mailto:" + body == "mailto:" + email + "?" + ("subject=" + v);
    FragmentDropped(body, fragment);
    ReadQuery(email, "subject=" + v);
    SubjectAlone(v);
    DecodePlain(v);
    DecodePlain(email);
  }

  /** The link as written: the recipient, then `?subject=` and the subject. */
  lemma ReplyUriShape(email: string, subject: Option<string>)
    ensures ReplyUri(email, subject) == "mailto:" + email + "?" + ("subject=" + ReplySubject(subject))
  {
  }

  /** The link with the subject field `v`, an `&`, and `after`. */
  function CutUri(email: string, v: string, after: string): string {
    "mailto:" + email + "?" + ("subject=" + (v + "&" + after))
  }

  /** A plain recipient and a plain subject value followed by `&` read back
      as the recipient and that value alone, whatever follows the `&`. */
  lemma ReadCut(email: string, v: string, after: string)
    requires '?' !in email && '%' !in email && '#' !in email
    requires '&' !in v && '#' !in v && '%' !in v
    ensures Read("mailto:" + email + "?" + ("subject=" + (v + "&" + after))) == Some(Mail(email, Some(v)))
  {
    var (rest, fragment) := CutAt(after, '#');
    ReadCutNoFragment(email, v, rest);
    if fragment.Some? {
      FragmentAfterCut(email, v, rest, fragment.value);
    }
  }

  /** `ReadCut` where no fragment follows. */
  lemma ReadCutNoFragment(email: string, v: string, rest: string)
    requires '?' !in email && '%' !in email && '#' !in email
    requires '&' !in v && '#' !in v && '%' !in v && '#' !in rest
    ensures Read(CutUri(email, v, rest)) == Some(Mail(email, Some(v)))
  {
    assert "subject=" + (v + "&" + rest) == "subject=" + v + "&" + rest;
    assert '#' !in "subject=" + v + "&" + rest;
    ReadQuery(email, "subject=" + v + "&" + rest);
    SubjectCut(v, rest);
    DecodePlain(v);
    DecodePlain(email);
  }

  /** A fragment after the cut link changes nothing. */
  lemma FragmentAfterCut(email: string, v: string, rest: string, fragment: string)
    requires '#' !in email && '#' !in v && '#' !in rest
    ensures Read(CutUri(email, v, rest + ['#'] + fragment)) == Read(CutUri(email, v, rest))
  {
    var body := email + "?" + ("subject=" + (v + "&" + rest));
    assert '#' !in body;
    assert CutUri(email, v, rest + ['#'] + fragment) == "mailto:" + body + "#" + fragment;
    assert CutUri(email, v, rest) == "mailto:" + body;
    FragmentDropped(body, fragment);
  }

  /** The unencoded link reads back correctly only while neither part holds
      a character the reader treats specially. */
  lemma ReplyUriPlain(email: string, subject: Option<string>)
    requires '?' !in email && '%' !in email && '#' !in email
    requires var s := ReplySubject(subject); '&' !in s && '#' !in s && '%' !in s
    ensures Read(ReplyUri(email, subject)) == Some(Mail(email, Some(ReplySubject(subject))))
  {
    var s := ReplySubject(subject);
    assert ReplyUri(email, subject) == "mailto:" + email + "?" + ("subject=" + s);
    assert '#' !in "subject=" + s;
    ReadQuery(email, "subject=" + s);
    SubjectAlone(s);
    DecodePlain(s);
    DecodePlain(email);
  }

  /** The link with both parts percent-encoded as RFC 6068 requires. */
  function ReplyUriEncoded(email: string, subject: Option<string>): (r: string)
    ensures StartsWith(r, "mailto:")
  {
    "mailto:" + Encode(email) + "?subject=" + Encode(ReplySubject(subject))
  }

  /** Every recipient and every subject survive the encoded link. */
  lemma ReplyUriEncodedReadsBack(email: string, subject: Option<string>)
    ensures Read(ReplyUriEncoded(email, subject)) == Some(Mail(email, Some(ReplySubject(subject))))
  {
    var s := Encode(ReplySubject(subject));
    assert ReplyUriEncoded(email, subject) == "mailto:" + Encode(email) + "?" + ("subject=" + s);
    ReadQuery(Encode(email), "subject=" + s);
    SubjectAlone(s);
    DecodeEncode(ReplySubject(subject));
    DecodeEncode(email);
  }
}
