/** The pure parsing helpers of the scraper: the publication-line splitter
    (`parse_pub_info`) and the subject-id extractor (`extract_book_id`). */
module WishParse {
  import opened Records
  import opened Text

  /** Authors, publisher and publication date recovered from a publication line. */
  datatype PubInfo = PubInfo(authors: seq<string>, publisher: Option<string>, publishDate: Option<string>)

  function OptList(o: Option<string>): seq<string>
  {
    if o.Some? then [o.value] else []
  }

  /** The fields of a `PubInfo` laid end to end, in line order. */
  function Fields(p: PubInfo): seq<string>
  {
    p.authors + OptList(p.publisher) + OptList(p.publishDate)
  }

  /** A trimmed, non-empty segment of a publication line. */
  predicate IsPart(x: string)
  {
    x != "" && '/' !in x && !IsSpace(x[0]) && !IsSpace(x[|x| - 1])
  }

  /** `[p.strip() for p in segs if p.strip()]`. */
  function CleanParts(segs: seq<string>): (parts: seq<string>)
    requires forall k :: 0 <= k < |segs| ==> '/' !in segs[k]
    ensures |parts| <= |segs|
    ensures forall k :: 0 <= k < |parts| ==> IsPart(parts[k])
  {
    if segs == [] then []
    else
      var p := Strip(segs[0]);
      StripIsPart(segs[0]);
      var head := if p == "" then [] else [p];
      var rest := segs[1..];
      assert forall k :: 0 <= k < |rest| ==> rest[k] == segs[k + 1];
      head + CleanParts(rest)
  }

  /** A segment without `/` strips to a part unless it is blank. */
  lemma StripIsPart(seg: string)
    requires '/' !in seg
    ensures Strip(seg) != "" ==> IsPart(Strip(seg))
  {
    StripAvoids(seg, '/');
  }

  /** A single segment gives its stripped text, or nothing when it is
      blank. */
  lemma CleanPartsSingle(seg: string)
    requires '/' !in seg
    ensures CleanParts([seg]) == if Strip(seg) == "" then [] else [Strip(seg)]
  {
    assert [seg][1..] == [];
  }

  /** Cleaning works segment by segment and keeps their order: the parts of
      `a + b` are those of `a` followed by those of `b`. */
  lemma {:induction false} CleanPartsAppend(a: seq<string>, b: seq<string>)
    requires forall k :: 0 <= k < |a| ==> '/' !in a[k]
    requires forall k :: 0 <= k < |b| ==> '/' !in b[k]
    ensures CleanParts(a + b) == CleanParts(a) + CleanParts(b)
    decreases |a|
  {
    if a == [] {
      assert a + b == b;
    } else {
      var ab := a + b;
      assert ab[0] == a[0] && ab[1..] == a[1..] + b;
      CleanPartsUnfold(ab);
      CleanPartsUnfold(a);
      CleanPartsAppend(a[1..], b);
      var head := if Strip(a[0]) == "" then [] else [Strip(a[0])];
      AppendAssoc(head, CleanParts(a[1..]), CleanParts(b));
    }
  }

  lemma AppendAssoc<T>(x: seq<T>, y: seq<T>, z: seq<T>)
    ensures x + (y + z) == (x + y) + z
  {
  }

  /** One step of the comprehension: the first segment's part, if any, then
      the parts of the rest. */
  lemma CleanPartsUnfold(segs: seq<string>)
    requires segs != [] && forall k :: 0 <= k < |segs| ==> '/' !in segs[k]
    ensures CleanParts(segs) == (if Strip(segs[0]) == "" then [] else [Strip(segs[0])]) + CleanParts(segs[1..])
  {
  }

  /** The trimmed, non-empty `/`-separated segments of a publication line. */
  function PubParts(text: string): (parts: seq<string>)
  {
    CleanParts(Split(text, '/'))
  }

  /** The assignment of the parts to fields: everything but the last two
      parts are authors, then publisher and date; two parts are an author and
      a publisher; one part is a publisher. */
  function Assign(parts: seq<string>): (r: PubInfo)
    ensures Fields(r) == parts
    ensures r.publisher.Some? <==> |parts| >= 1
    ensures r.publishDate.Some? <==> |parts| >= 3
    ensures |parts| == 2 ==> |r.authors| == 1
  {
    if parts == [] then PubInfo([], None, None)
    else if |parts| >= 3 then
      var n := |parts|;
      assert parts == parts[..n - 2] + [parts[n - 2]] + [parts[n - 1]];
      PubInfo(parts[..n - 2], Some(parts[n - 2]), Some(parts[n - 1]))
    else if |parts| == 2 then PubInfo([parts[0]], Some(parts[1]), None)
    else PubInfo([], Some(parts[0]), None)
  }

  /** `parse_pub_info`: the parts of the line assigned to fields. The fields,
      laid end to end, are exactly the parts. */
  function ParsePubInfo(text: string): (r: PubInfo)
    ensures Fields(r) == PubParts(text)
    ensures r.publisher.Some? <==> |PubParts(text)| >= 1
    ensures r.publishDate.Some? <==> |PubParts(text)| >= 3
    ensures |PubParts(text)| == 2 ==> |r.authors| == 1
  {
    Assign(PubParts(text))
  }

  /** The contract of `ParsePubInfo` is complete: any reading of the parts
      that lays them end to end with the same optional fields present is the
      one `parse_pub_info` returns. */
  lemma {:induction false} ParsePubInfoUnique(text: string, q: PubInfo)
    requires Fields(q) == PubParts(text)
    requires q.publisher.Some? <==> |PubParts(text)| >= 1
    requires q.publishDate.Some? <==> |PubParts(text)| >= 3
    requires |PubParts(text)| == 2 ==> |q.authors| == 1
    ensures q == ParsePubInfo(text)
  {
    var r := ParsePubInfo(text);
    var parts := PubParts(text);
    var n := |parts|;
    assert |Fields(q)| == |q.authors| + |OptList(q.publisher)| + |OptList(q.publishDate)|;
    assert |Fields(r)| == |r.authors| + |OptList(r.publisher)| + |OptList(r.publishDate)|;
    assert |q.authors| == |r.authors|;
    assert q.authors == Fields(q)[..|q.authors|];
    assert r.authors == Fields(r)[..|r.authors|];
    var a := |q.authors|;
    if q.publisher.Some? {
      assert Fields(q)[a] == q.publisher.value;
      assert Fields(r)[a] == r.publisher.value;
    }
    if q.publishDate.Some? {
      assert Fields(q)[a + 1] == q.publishDate.value;
      assert Fields(r)[a + 1] == r.publishDate.value;
    }
  }

  // ---------------------------------------------------------------------
  // extract_book_id: re.search(PATTERN, url) and its first group.

  /** Which token the group of the subject-id pattern accepts: the pattern as
      written (a raw string holding `\\d+`, i.e. a backslash and then one or
      more letters `d`) or the evidently intended run of decimal digits. */
  datatype IdPattern = AsWritten | Digits

  const SUBJECT: string := "/subject/"

  /** An ASCII decimal digit. */
  predicate IsDigit(c: char) { '0' <= c <= '9' }

  predicate IsLetterD(c: char) { c == 'd' }

  /** `w` occurs in `s` at position `i`. */
  predicate OccursAt(s: string, i: int, w: string)
  {
    0 <= i && i + |w| <= |s| && s[i..i + |w|] == w
  }

  /** The end of the maximal run of `cls` characters starting at `j`. */
  function RunEnd(s: string, j: nat, cls: char -> bool): (e: nat)
    requires j <= |s|
    ensures j <= e <= |s|
    ensures forall k :: j <= k < e ==> cls(s[k])
    ensures e == |s| || !cls(s[e])
    decreases |s| - j
  {
    if j < |s| && cls(s[j]) then RunEnd(s, j + 1, cls) else j
  }

  /** The group captured by a match of `/subject/(TOKEN)/` starting at `i`:
      a match is `/subject/`, a token of the pattern, then `/`. The token is
      followed by `/`, which it cannot contain, so the greedy run is the only
      candidate and backtracking finds nothing else. */
  function MatchAt(s: string, i: nat, pat: IdPattern): (r: Option<string>)
    requires i <= |s|
    ensures r.Some? ==> Token(r.value, pat) && OccursAt(s, i, SUBJECT + r.value + "/")
  {
    if !(SUBJECT <= s[i..]) then None
    else
      var j := i + |SUBJECT|;
      if pat == Digits then
        var e := RunEnd(s, j, IsDigit);
        if e > j && e < |s| && s[e] == '/' then
          SubjectAt(s, i, e);
          Some(s[j..e])
        else None
      else if j < |s| && s[j] == '\\' then
        var e := RunEnd(s, j + 1, IsLetterD);
        if e > j + 1 && e < |s| && s[e] == '/' then
          SubjectAt(s, i, e);
          Some(s[j..e])
        else None
      else None
  }

  /** `/subject/` at `i` and `/` at `e` frame the text between them. */
  lemma SubjectAt(s: string, i: nat, e: nat)
    requires i <= |s| && SUBJECT <= s[i..] && i + |SUBJECT| <= e < |s| && s[e] == '/'
    ensures OccursAt(s, i, SUBJECT + s[i + |SUBJECT|..e] + "/")
  {
    var j := i + |SUBJECT|;
    assert s[i..j] == SUBJECT;
    assert s[i..e + 1] == s[i..j] + s[j..e] + [s[e]];
  }

  /** The tokens the two patterns capture: `\d+` read as digits, or as
      written, a backslash followed by letters `d`. */
  predicate Token(t: string, pat: IdPattern)
  {
    if pat == Digits then t != [] && forall k :: 0 <= k < |t| ==> IsDigit(t[k])
    else |t| >= 2 && t[0] == '\\' && forall k :: 1 <= k < |t| ==> t[k] == 'd'
  }

  /** A run of `cls` characters from `j` that stops at a character outside
      the class ends there. */
  lemma {:induction false} RunEndAt(s: string, j: nat, e: nat, cls: char -> bool)
    requires j <= e < |s|
    requires forall k :: j <= k < e ==> cls(s[k])
    requires !cls(s[e])
    ensures RunEnd(s, j, cls) == e
    decreases e - j
  {
    if j < e {
      RunEndAt(s, j + 1, e, cls);
    }
  }

  /** Every `/subject/<token>/` in the text is a match at its position, and
      it captures exactly that token. */
  lemma MatchAtComplete(s: string, i: nat, t: string, pat: IdPattern)
    requires OccursAt(s, i, SUBJECT + t + "/") && Token(t, pat)
    ensures MatchAt(s, i, pat) == Some(t)
  {
    var j := i + |SUBJECT|;
    var e := j + |t|;
    assert SUBJECT + t + "/" == SUBJECT + (t + "/");
    SliceConcat(s, i, SUBJECT, t + "/");
    SliceConcat(s, j, t, "/");
    assert s[i..][..|SUBJECT|] == s[i..j];
    assert s[e] == s[e..e + 1][0];
    if pat == Digits {
      RunEndAt(s, j, e, IsDigit);
    } else {
      assert s[j] == t[0];
      RunEndAt(s, j + 1, e, IsLetterD);
    }
  }

  /** A slice equal to `p + q` is `p` followed by `q`. */
  lemma SliceConcat(x: string, a: nat, p: string, q: string)
    requires a + |p| + |q| <= |x| && x[a..a + |p| + |q|] == p + q
    ensures x[a..a + |p|] == p && x[a + |p|..a + |p| + |q|] == q
  {
    var m := x[a..a + |p| + |q|];
    assert m[..|p|] == p && m[|p|..] == q;
    assert x[a..a + |p|] == m[..|p|];
    assert x[a + |p|..a + |p| + |q|] == m[|p|..];
  }

  /** No match anywhere means no `/subject/<token>/` anywhere. */
  lemma NoOccurrence(s: string, pat: IdPattern)
    requires NoMatchBetween(s, 0, |s| + 1, pat)
    ensures forall i: nat, t :: Token(t, pat) ==> !OccursAt(s, i, SUBJECT + t + "/")
  {
    forall i: nat, t | Token(t, pat) && OccursAt(s, i, SUBJECT + t + "/")
      ensures false
    {
      MatchAtComplete(s, i, t, pat);
    }
  }

  /** No match starts at a position in `[i, j)`. */
  ghost predicate NoMatchBetween(s: string, i: nat, j: nat, pat: IdPattern)
  {
    forall m :: i <= m < j && m <= |s| ==> MatchAt(s, m, pat).None?
  }

  /** `re.search`: the position of the leftmost match at or after `i`. */
  function SearchFrom(s: string, i: nat, pat: IdPattern): (r: Option<nat>)
    requires i <= |s|
    ensures r.Some? ==> i <= r.value <= |s| && MatchAt(s, r.value, pat).Some? && NoMatchBetween(s, i, r.value, pat)
    ensures r.None? ==> NoMatchBetween(s, i, |s| + 1, pat)
    decreases |s| - i
  {
    if MatchAt(s, i, pat).Some? then Some(i)
    else if i == |s| then None
    else SearchFrom(s, i + 1, pat)
  }

  /** `extract_book_id` as written: the group of the leftmost
      `/subject/<token>/` whose token is a backslash followed by letters
      `d`, and nothing when the URL holds no such token. A real numeric
      subject id never satisfies it. */
  function ExtractBookId(url: string): (r: Option<string>)
    ensures r.Some? ==> Token(r.value, AsWritten) && exists i :: OccursAt(url, i, SUBJECT + r.value + "/")
    ensures r.Some? ==> exists i: nat :: i <= |url| && MatchAt(url, i, AsWritten) == r && NoMatchBetween(url, 0, i, AsWritten)
    ensures r.None? <==> forall i: nat, t :: Token(t, AsWritten) ==> !OccursAt(url, i, SUBJECT + t + "/")
  {
    match SearchFrom(url, 0, AsWritten)
    case None =>
      NoOccurrence(url, AsWritten);
      None
    case Some(k) =>
      MatchAt(url, k, AsWritten)
  }

  /** `extract_book_id` with the evidently intended pattern `/subject/(\d+)/`:
      the digits of the leftmost `/subject/<digits>/` in the URL, and nothing
      when the URL holds none. */
  function ExtractBookIdDigits(url: string): (r: Option<string>)
    ensures r.Some? ==> Token(r.value, Digits) && exists i :: OccursAt(url, i, SUBJECT + r.value + "/")
    ensures r.Some? ==> exists i: nat :: i <= |url| && MatchAt(url, i, Digits) == r && NoMatchBetween(url, 0, i, Digits)
    ensures r.None? <==> forall i: nat, t :: Token(t, Digits) ==> !OccursAt(url, i, SUBJECT + t + "/")
  {
    match SearchFrom(url, 0, Digits)
    case None =>
      NoOccurrence(url, Digits);
      None
    case Some(k) =>
      MatchAt(url, k, Digits)
  }
}

module WishParseExamples {
  import opened Records
  import opened WishParse

  /** A publication line made of segments, each with separators around its
      text, yields exactly the texts as its parts. */
  lemma {:induction false} PubPartsOfSegments(segs: seq<string>, texts: seq<string>)
    requires |segs| == |texts| >= 1
    requires forall k :: 0 <= k < |segs| ==> '/' !in segs[k] && Text.Strip(segs[k]) == texts[k] != ""
    ensures PubParts(Text.Join(segs, '/')) == texts
  {
    Text.SplitJoin(segs, '/');
    CleanPartsAll(segs, texts);
  }

  lemma {:induction false} CleanPartsAll(segs: seq<string>, texts: seq<string>)
    requires |segs| == |texts|
    requires forall k :: 0 <= k < |segs| ==> '/' !in segs[k] && Text.Strip(segs[k]) == texts[k] != ""
    ensures CleanParts(segs) == texts
    decreases |segs|
  {
    if segs != [] {
      CleanPartsAll(segs[1..], texts[1..]);
      assert [texts[0]] + texts[1..] == texts;
    }
  }

  function PaddedLine(a: string, b: string, c: string, d: string): string
  {
    Text.Join([a + " ", " " + b + " ", " " + c + " ", " " + d], '/')
  }

  lemma PaddedLineParts(a: string, b: string, c: string, d: string)
    requires IsPart(a) && IsPart(b) && IsPart(c) && IsPart(d)
    ensures PubParts(PaddedLine(a, b, c, d)) == [a, b, c, d]
  {
    var segs := [a + " ", " " + b + " ", " " + c + " ", " " + d];
    var texts := [a, b, c, d];
    forall k | 0 <= k < 4
      ensures '/' !in segs[k] && Text.Strip(segs[k]) == texts[k] != ""
    {
      Text.StripPad(texts[k]);
      if k == 0 {
        assert segs[k] == a + " ";
      } else if k == 3 {
        assert segs[k] == " " + d;
      } else {
        assert segs[k] == " " + texts[k] + " ";
      }
    }
    PubPartsOfSegments(segs, texts);
  }

  /** The documented line `A / B / Pub / 2020`, for any four parts: all but
      the last two are authors, then publisher, then date. */
  lemma PubInfoFourParts(a: string, b: string, c: string, d: string)
    requires IsPart(a) && IsPart(b) && IsPart(c) && IsPart(d)
    ensures ParsePubInfo(PaddedLine(a, b, c, d)) == PubInfo([a, b], Some(c), Some(d))
  {
    PaddedLineParts(a, b, c, d);
    assert [a, b, c, d][..2] == [a, b];
  }

  lemma JoinFour(a: string, b: string, c: string, d: string, sep: char)
    ensures Text.Join([a, b, c, d], sep) == a + [sep] + b + [sep] + c + [sep] + d
  {
    var segs := [a, b, c, d];
    assert segs[1..] == [b, c, d] && [b, c, d][1..] == [c, d] && [c, d][1..] == [d];
    assert Text.Join([c, d], sep) == c + [sep] + d;
    assert Text.Join([b, c, d], sep) == b + [sep] + (c + [sep] + d);
    assert Text.Join(segs, sep) == a + [sep] + (b + [sep] + (c + [sep] + d));
  }

  lemma DocumentedLineJoin()
    ensures PaddedLine("A", "B", "Pub", "2020") == "A / B / Pub / 2020"
  {
    JoinFour("A" + " ", " " + "B" + " ", " " + "Pub" + " ", " " + "2020", '/');
  }

  lemma DocumentedLineParts()
    ensures IsPart("A") && IsPart("B") && IsPart("Pub") && IsPart("2020")
  {
  }

  lemma PubInfoDocumentedLine()
    ensures ParsePubInfo("A / B / Pub / 2020") == PubInfo(["A", "B"], Some("Pub"), Some("2020"))
  {
    DocumentedLineParts();
    DocumentedLineJoin();
    PubInfoFourParts("A", "B", "Pub", "2020");
  }

  lemma OnePartParts()
    ensures PubParts("Pub") == ["Pub"]
  {
    var w := "Pub";
    Text.SplitNoSep(w, '/');
    assert Text.Strip(w) == w by {
      assert w[0] == 'P' && w[|w| - 1] == 'b';
      Text.StripTrimmed(w);
    }
    CleanPartsAll([w], [w]);
  }

  lemma PubInfoOnePart()
    ensures ParsePubInfo("Pub") == PubInfo([], Some("Pub"), None)
  {
    OnePartParts();
  }

  lemma PubInfoEmpty()
    ensures ParsePubInfo("") == PubInfo([], None, None)
  {
    assert Text.Split("", '/') == [""];
    assert PubParts("") == [];
  }

  const Scheme: string := "https:"
  const Host: string := "book.douban.com"
  /** `https://book.douban.com/subject/1/` */
  const SampleUrl: string := Scheme + "//" + Host + SUBJECT + "1/"

  /** On a real subject URL the pattern as written finds nothing (the URL has
      no backslash), while the intended pattern recovers the numeric id. */
  lemma SubjectIdAsWrittenMisses()
    ensures ExtractBookId(SampleUrl) == None
  {
    assert '\\' !in SampleUrl;
  }

  /** A match can only start at a `/` that is followed by `s`. */
  lemma NoMatchWithoutSlash(s: string, i: nat, pat: IdPattern)
    requires i < |s| && s[i] != '/'
    ensures MatchAt(s, i, pat).None?
  {
    assert SUBJECT[0] == '/';
  }

  /** `re.search` skips positions where nothing matches. */
  lemma {:induction false} SearchSkips(s: string, i: nat, j: nat, pat: IdPattern)
    requires i <= j <= |s|
    requires NoMatchBetween(s, i, j, pat)
    ensures SearchFrom(s, i, pat) == SearchFrom(s, j, pat)
    decreases j - i
  {
    if i < j {
      SearchSkips(s, i + 1, j, pat);
    }
  }

  lemma SampleUrlNoEarlyMatch()
    ensures forall k :: 0 <= k < 23 ==> MatchAt(SampleUrl, k, Digits).None?
  {
    var url, scheme, host := SampleUrl, Scheme, Host;
    assert '/' !in scheme && '/' !in host;
    forall k | 0 <= k < 23
      ensures MatchAt(url, k, Digits).None?
    {
      if k < 6 {
        assert url[k] == scheme[k];
        NoMatchWithoutSlash(url, k, Digits);
      } else if k == 6 || k == 7 {
        assert url[k + 1] == '/' || url[k + 1] == 'b';
        assert SUBJECT[1] == 's';
      } else {
        assert url[k] == host[k - 8];
        NoMatchWithoutSlash(url, k, Digits);
      }
    }
  }

  lemma SampleUrlMatch()
    ensures MatchAt(SampleUrl, 23, Digits) == Some("1")
  {
    var url := SampleUrl;
    assert |url| == 34 && url[23..32] == SUBJECT && url[32..33] == "1";
    assert SUBJECT <= url[23..];
    assert RunEnd(url, 33, IsDigit) == 33;
    assert RunEnd(url, 32, IsDigit) == 33;
  }

  lemma SampleUrlFirstMatch()
    ensures SearchFrom(SampleUrl, 0, Digits) == Some(23)
  {
    SampleUrlNoEarlyMatch();
    SearchSkips(SampleUrl, 0, 23, Digits);
    SampleUrlMatch();
  }

  lemma SubjectIdDigitsFinds()
    ensures ExtractBookIdDigits(SampleUrl) == Some("1")
  {
    SampleUrlFirstMatch();
    SampleUrlMatch();
  }
}
