/**
 * The two Baidu strategies of worker.js: `extractImageUrlsFromHTML`, which
 * pairs three independently matched attribute streams by position, and
 * `extractImageUrlsFromJSON`, which parses the object passed to
 * `flip.setData('imgData', ...)`, and `getBaiduImages`, which picks one.
 * `JSON.parse` is the parameter `parse`; `None` is a parse error.
 */
module BaiduImages {
  import opened JsValues
  import opened Records
  import opened Text
  import Params

  // ---------- the three global attribute patterns of the HTML strategy ----------

  /** A pattern `"key":"value"` with a non-empty value free of `"`; a URL field also needs `http://` or `https://` and at least one character after it. */
  datatype Field = Field(key: string, urlOnly: bool)

  const FromPageTitle := Field("fromPageTitle", false)
  const ObjUrl := Field("objURL", true)
  const ThumbUrl := Field("thumbURL", true)

  function FieldHead(key: string): string
  {
    "\"" + key + "\":\""
  }

  predicate HasUrlScheme(v: string)
  {
    (|v| > 7 && v[..7] == "http://") || (|v| > 8 && v[..8] == "https://")
  }

  /** `m` is a match of the pattern of `f` in `s`; group 1 is the value between the quotes. */
  predicate IsFieldMatch(s: string, f: Field, m: RegexMatch)
  {
    && Within(s, m)
    && m.groupStart == m.start + |FieldHead(f.key)|
    && m.end == m.groupEnd + 1
    && m.groupStart < m.groupEnd
    && s[m.start..m.groupStart] == FieldHead(f.key)
    && s[m.groupEnd] == '"'
    && (forall k :: m.groupStart <= k < m.groupEnd ==> s[k] != '"')
    && (f.urlOnly ==> HasUrlScheme(s[m.groupStart..m.groupEnd]))
  }

  /** The pattern of `f` tried at position `p`. The value is the greedy run of non-`"` characters, which must be closed by a `"`. */
  function FieldAt(s: string, p: nat, f: Field): (r: Option<RegexMatch>)
    ensures r.Some? ==> r.value.start == p && IsFieldMatch(s, f, r.value)
    ensures forall m: RegexMatch :: m.start == p && IsFieldMatch(s, f, m) ==> r == Some(m)
  {
    var head := FieldHead(f.key);
    if !StartsWithAt(s, p, head) then None
    else
      var vs := p + |head|;
      var ve := QuoteFreeEnd(s, vs);
      if ve < |s| && vs < ve && (!f.urlOnly || HasUrlScheme(s[vs..ve]))
      then Some(RegexMatch(p, vs, ve, ve + 1))
      else None
  }

  /** The matches of a global search from `from`: each search resumes where the last match ended, so the matches come in document order and do not overlap. */
  function FieldMatches(s: string, f: Field, from: nat): (ms: seq<RegexMatch>)
    ensures forall m :: m in ms ==> from <= m.start && IsFieldMatch(s, f, m)
    ensures forall i, j :: 0 <= i < j < |ms| ==> ms[i].end <= ms[j].start
    decreases |s| - from
  {
    if from >= |s| then []
    else
      match FieldAt(s, from, f)
      case Some(m) => [m] + FieldMatches(s, f, m.end)
      case None => FieldMatches(s, f, from + 1)
  }

  /**
   * No match is skipped at the front: nothing matches between `from` and the
   * first match, or between `from` and the end of the text when there is none.
   */
  lemma {:induction false} FieldMatchesFirst(s: string, f: Field, from: nat)
    ensures var ms := FieldMatches(s, f, from);
      forall p :: from <= p < (if ms == [] then |s| else ms[0].start) ==> FieldAt(s, p, f).None?
    decreases |s| - from
  {
    var ms := FieldMatches(s, f, from);
    var bound := if ms == [] then |s| else ms[0].start;
    if from >= |s| {
      assert ms == [];
    } else if FieldAt(s, from, f).None? {
      var ms1 := FieldMatches(s, f, from + 1);
      assert ms == ms1;
      FieldMatchesFirst(s, f, from + 1);
      forall p | from <= p < bound
        ensures FieldAt(s, p, f).None?
      {
        if p > from {
          assert from + 1 <= p < (if ms1 == [] then |s| else ms1[0].start);
        }
      }
    } else {
      var m := FieldAt(s, from, f).value;
      assert ms == [m] + FieldMatches(s, f, m.end);
      assert bound == from;
    }
  }

  /**
   * No match is skipped between two matches either: the search resumed at the end
   * of each match yields exactly the matches after it, so together with
   * `FieldMatchesFirst` every match is the leftmost one after its predecessor.
   */
  lemma FieldMatchesResume(s: string, f: Field, from: nat)
    ensures var ms := FieldMatches(s, f, from);
      forall i :: 0 <= i < |ms| ==> FieldMatches(s, f, ms[i].end) == ms[i + 1..]
  {
    var ms := FieldMatches(s, f, from);
    forall i | 0 <= i < |ms|
      ensures FieldMatches(s, f, ms[i].end) == ms[i + 1..]
    {
      FieldMatchesResumeAt(s, f, from, i);
    }
  }

  lemma {:induction false} FieldMatchesResumeAt(s: string, f: Field, from: nat, i: nat)
    requires i < |FieldMatches(s, f, from)|
    ensures FieldMatches(s, f, FieldMatches(s, f, from)[i].end) == FieldMatches(s, f, from)[i + 1..]
    decreases |s| - from
  {
    var ms := FieldMatches(s, f, from);
    match FieldAt(s, from, f)
    case Some(m) =>
      var rest := FieldMatches(s, f, m.end);
      assert ms == [m] + rest;
      if i == 0 {
        assert ms[0] == m && ms[1..] == rest;
      } else {
        FieldMatchesResumeAt(s, f, m.end, i - 1);
        assert ms[i] == rest[i - 1] && ms[i + 1..] == rest[i..];
      }
    case None =>
      assert ms == FieldMatches(s, f, from + 1);
      FieldMatchesResumeAt(s, f, from + 1, i);
  }

  /** `s.match(pattern) || []`: the whole text of each match, one per match: the field head, the captured value and the closing quote. */
  function MatchAll(s: string, f: Field): (texts: seq<string>)
    ensures |texts| == |FieldMatches(s, f, 0)|
    ensures forall i :: 0 <= i < |texts| ==>
      texts[i] == FieldHead(f.key) + Group(s, FieldMatches(s, f, 0)[i]) + "\""
  {
    var ms := FieldMatches(s, f, 0);
    MatchTexts(s, f);
    seq(|ms|, i requires 0 <= i < |ms| => Whole(s, ms[i]))
  }

  lemma MatchTexts(s: string, f: Field)
    ensures var ms := FieldMatches(s, f, 0);
      forall i :: 0 <= i < |ms| ==> Whole(s, ms[i]) == FieldHead(f.key) + Group(s, ms[i]) + "\""
  {
    var ms := FieldMatches(s, f, 0);
    forall i | 0 <= i < |ms|
      ensures Whole(s, ms[i]) == FieldHead(f.key) + Group(s, ms[i]) + "\""
    {
      assert ms[i] in ms;
      WholeFieldText(s, f, ms[i]);
    }
  }

  /** The value captured by each match, in document order: the match text without its field head and closing quote. */
  function Captures(s: string, f: Field): (values: seq<string>)
    ensures |values| == |MatchAll(s, f)|
    ensures forall i :: 0 <= i < |values| ==> MatchAll(s, f)[i] == FieldHead(f.key) + values[i] + "\""
  {
    var ms := FieldMatches(s, f, 0);
    seq(|ms|, i requires 0 <= i < |ms| => Group(s, ms[i]))
  }

  /** Each captured value is non-empty and free of `"`; a URL field's value carries its scheme. */
  lemma CaptureAt(s: string, f: Field, i: nat)
    requires i < |Captures(s, f)|
    ensures |Captures(s, f)| == |MatchAll(s, f)|
    ensures Captures(s, f)[i] != "" && '"' !in Captures(s, f)[i]
    ensures f.urlOnly ==> HasUrlScheme(Captures(s, f)[i])
  {
    var ms := FieldMatches(s, f, 0);
    assert ms[i] in ms;
    var v := Group(s, ms[i]);
    assert forall k :: 0 <= k < |v| ==> v[k] == s[ms[i].groupStart + k];
  }

  /** Splitting the text of a field match on `"` gives five pieces, the fourth being the captured value: `split('"')[3]` reads the capture. */
  lemma MatchTextSplit(s: string, f: Field, i: nat)
    requires '"' !in f.key
    requires i < |MatchAll(s, f)|
    ensures |Captures(s, f)| == |MatchAll(s, f)|
    ensures |Split(MatchAll(s, f)[i], '"')| == 5
    ensures Split(MatchAll(s, f)[i], '"')[3] == Captures(s, f)[i]
  {
    CaptureAt(s, f, i);
    var ms := FieldMatches(s, f, 0);
    assert ms[i] in ms;
    WholeFieldText(s, f, ms[i]);
    SplitFieldText(f.key, Captures(s, f)[i]);
  }

  /** The text of a match is the field head, the captured value and the closing quote. */
  lemma WholeFieldText(s: string, f: Field, m: RegexMatch)
    requires IsFieldMatch(s, f, m)
    ensures Whole(s, m) == FieldHead(f.key) + Group(s, m) + "\""
  {
    assert Whole(s, m) == s[m.start..m.groupStart] + s[m.groupStart..m.groupEnd] + [s[m.groupEnd]];
  }

  /** A field text with a quote-free key and value splits on `"` into five parts, the value fourth. */
  lemma SplitFieldText(key: string, v: string)
    requires '"' !in key && '"' !in v
    ensures Split(FieldHead(key) + v + "\"", '"') == ["", key, ":", v, ""]
  {
    var tail3 := v + ['"'] + "";
    var tail2 := ":" + ['"'] + tail3;
    var tail1 := key + ['"'] + tail2;
    assert FieldHead(key) + v + "\"" == "" + ['"'] + tail1;
    SplitWhole("", '"');
    SplitAfterPiece(v, '"', "");
    SplitAfterPiece(":", '"', tail3);
    SplitAfterPiece(key, '"', tail2);
    SplitAfterPiece("", '"', tail1);
  }

  // ---------- the HTML strategy ----------

  function NthOrNull(xs: seq<string>, i: nat): JsValue
  {
    if i < |xs| then JStr(xs[i]) else JNull
  }

  function Rest<T>(xs: seq<T>): seq<T>
  {
    if xs == [] then [] else xs[1..]
  }

  /**
   * Positional pairing, as a zip: the head of the driving `urls` stream is paired
   * with the heads of `titles` and `thumbs` (null where one has run out), for at
   * most `maxImages` records numbered from `next`.
   */
  function PairByPosition(titles: seq<string>, urls: seq<string>, thumbs: seq<string>,
                          maxImages: nat, next: nat): (r: seq<ImageRecord>)
    ensures |r| <= maxImages && |r| <= |urls|
    ensures forall k :: 0 <= k < |r| ==> r[k].index == next + k
    decreases |urls|
  {
    if urls == [] || maxImages == 0 then []
    else
      [ImageRecord(next, NthOrNull(titles, 0), JStr(urls[0]), NthOrNull(thumbs, 0))]
      + PairByPosition(Rest(titles), urls[1..], Rest(thumbs), maxImages - 1, next + 1)
  }

  /** The i-th record of the zip holds the i-th element of each stream. */
  lemma {:induction false} PairByPositionAt(titles: seq<string>, urls: seq<string>, thumbs: seq<string>,
                                            maxImages: nat, next: nat)
    ensures |PairByPosition(titles, urls, thumbs, maxImages, next)| == Min(|urls|, maxImages)
    ensures forall i :: 0 <= i < Min(|urls|, maxImages) ==>
      PairByPosition(titles, urls, thumbs, maxImages, next)[i]
        == ImageRecord(next + i, NthOrNull(titles, i), JStr(urls[i]), NthOrNull(thumbs, i))
    decreases |urls|
  {
    if urls != [] && maxImages != 0 {
      var tail := PairByPosition(Rest(titles), urls[1..], Rest(thumbs), maxImages - 1, next + 1);
      PairByPositionAt(Rest(titles), urls[1..], Rest(thumbs), maxImages - 1, next + 1);
      var r := PairByPosition(titles, urls, thumbs, maxImages, next);
      forall i | 1 <= i < Min(|urls|, maxImages)
        ensures r[i] == ImageRecord(next + i, NthOrNull(titles, i), JStr(urls[i]), NthOrNull(thumbs, i))
      {
        assert r[i] == tail[i - 1];
        assert NthOrNull(Rest(titles), i - 1) == NthOrNull(titles, i);
        assert NthOrNull(Rest(thumbs), i - 1) == NthOrNull(thumbs, i);
      }
    }
  }

  /** `matches[i]?.split('"')[3] || null`: the fourth piece of the i-th match, or null when there is none or it is empty. */
  function QuotedValueOrNull(matches: seq<string>, i: nat): (v: JsValue)
    ensures i >= |matches| ==> v == JNull
    ensures v == JNull || (v.JStr? && v.s != "" && '"' !in v.s)
  {
    if i < |matches| then
      var parts := Split(matches[i], '"');
      SplitJoin(matches[i], '"');
      if |parts| > 3 && parts[3] != "" then JStr(parts[3]) else JNull
    else JNull
  }

  /** Reading a match with `split` gives its capture: null exactly when the stream has no i-th match. */
  lemma QuotedValueIsCapture(s: string, f: Field, i: nat)
    requires '"' !in f.key
    ensures QuotedValueOrNull(MatchAll(s, f), i) == NthOrNull(Captures(s, f), i)
  {
    assert |Captures(s, f)| == |MatchAll(s, f)|;
    if i < |MatchAll(s, f)| {
      MatchTextSplit(s, f, i);
    }
  }

  /** What the HTML strategy returns: the three capture streams paired by position, capped. */
  function BaiduHtmlRecords(htmlContent: string, maxImages: nat): (r: seq<ImageRecord>)
    ensures |r| <= maxImages && |r| <= |Captures(htmlContent, ObjUrl)|
    ensures IndexedFromOne(r)
  {
    PairByPosition(Captures(htmlContent, FromPageTitle), Captures(htmlContent, ObjUrl),
                   Captures(htmlContent, ThumbUrl), maxImages, 1)
  }

  /**
   * One record per `objURL` match up to the cap, numbered from 1; record i has the
   * i-th `objURL` capture as its url, and the i-th title and thumbnail captures, or
   * null when that stream has fewer than i + 1 matches. Every url starts with
   * `http://` or `https://`.
   */
  lemma BaiduHtmlRecordsShape(htmlContent: string, maxImages: nat)
    ensures var r := BaiduHtmlRecords(htmlContent, maxImages);
      && |r| == Min(|Captures(htmlContent, ObjUrl)|, maxImages)
      && IndexedFromOne(r)
      && forall i :: 0 <= i < |r| ==>
           && r[i].url == JStr(Captures(htmlContent, ObjUrl)[i])
           && HasUrlScheme(r[i].url.s)
           && r[i].title == NthOrNull(Captures(htmlContent, FromPageTitle), i)
           && r[i].thumbURL == NthOrNull(Captures(htmlContent, ThumbUrl), i)
  {
    var r := BaiduHtmlRecords(htmlContent, maxImages);
    PairByPositionAt(Captures(htmlContent, FromPageTitle), Captures(htmlContent, ObjUrl),
                     Captures(htmlContent, ThumbUrl), maxImages, 1);
    forall i | 0 <= i < |r|
      ensures HasUrlScheme(r[i].url.s)
    {
      CaptureAt(htmlContent, ObjUrl, i);
    }
  }

  /**
   * `extractImageUrlsFromHTML`: match the three streams, then walk the first
   * `maxImages` `objURL` matches, reading each value with `split('"')[3]` and
   * using null for a missing title or thumbnail.
   */
  method ExtractFromHtml(htmlContent: string, maxImages: nat) returns (imageUrls: seq<ImageRecord>)
    ensures imageUrls == BaiduHtmlRecords(htmlContent, maxImages)
  {
    var fromPageTitleMatches := MatchAll(htmlContent, FromPageTitle);
    var objURLMatches := MatchAll(htmlContent, ObjUrl);
    var thumbURLMatches := MatchAll(htmlContent, ThumbUrl);

    var driving := objURLMatches[..Min(|objURLMatches|, maxImages)];
    HtmlRecordCount(htmlContent, maxImages);
    imageUrls := [];
    var index := 0;
    while index < |driving|
      invariant index <= |driving|
      invariant imageUrls == BaiduHtmlRecords(htmlContent, maxImages)[..index]
    {
      var title := QuotedValueOrNull(fromPageTitleMatches, index);
      HtmlRecordAt(htmlContent, maxImages, index);
      PrefixStep(BaiduHtmlRecords(htmlContent, maxImages), index);
      var imageUrl := Split(driving[index], '"')[3];
      var imageThumbURL := QuotedValueOrNull(thumbURLMatches, index);
      imageUrls := imageUrls + [ImageRecord(index + 1, title, JStr(imageUrl), imageThumbURL)];
      index := index + 1;
    }
  }

  lemma PrefixStep<T>(s: seq<T>, i: nat)
    requires i < |s|
    ensures s[..i + 1] == s[..i] + [s[i]]
  {
  }

  lemma HtmlRecordCount(htmlContent: string, maxImages: nat)
    ensures |BaiduHtmlRecords(htmlContent, maxImages)| == Min(|MatchAll(htmlContent, ObjUrl)|, maxImages)
    ensures BaiduHtmlRecords(htmlContent, maxImages)[..Min(|MatchAll(htmlContent, ObjUrl)|, maxImages)]
      == BaiduHtmlRecords(htmlContent, maxImages)
  {
    assert |Captures(htmlContent, ObjUrl)| == |MatchAll(htmlContent, ObjUrl)|;
    PairByPositionAt(Captures(htmlContent, FromPageTitle), Captures(htmlContent, ObjUrl),
                     Captures(htmlContent, ThumbUrl), maxImages, 1);
  }

  /** The i-th record, in terms of the capture streams. */
  lemma HtmlCaptureRecordAt(htmlContent: string, maxImages: nat, i: nat)
    requires i < Min(|Captures(htmlContent, ObjUrl)|, maxImages)
    ensures |BaiduHtmlRecords(htmlContent, maxImages)| == Min(|Captures(htmlContent, ObjUrl)|, maxImages)
    ensures BaiduHtmlRecords(htmlContent, maxImages)[i]
      == ImageRecord(i + 1, NthOrNull(Captures(htmlContent, FromPageTitle), i),
                     JStr(Captures(htmlContent, ObjUrl)[i]),
                     NthOrNull(Captures(htmlContent, ThumbUrl), i))
  {
    PairByPositionAt(Captures(htmlContent, FromPageTitle), Captures(htmlContent, ObjUrl),
                     Captures(htmlContent, ThumbUrl), maxImages, 1);
  }

  /** The i-th record, in terms of the whole-match texts that the source splits. */
  lemma HtmlRecordAt(htmlContent: string, maxImages: nat, i: nat)
    requires i < Min(|MatchAll(htmlContent, ObjUrl)|, maxImages)
    ensures |BaiduHtmlRecords(htmlContent, maxImages)| == Min(|MatchAll(htmlContent, ObjUrl)|, maxImages)
    ensures |Split(MatchAll(htmlContent, ObjUrl)[i], '"')| > 3
    ensures BaiduHtmlRecords(htmlContent, maxImages)[i]
      == ImageRecord(i + 1, QuotedValueOrNull(MatchAll(htmlContent, FromPageTitle), i),
                     JStr(Split(MatchAll(htmlContent, ObjUrl)[i], '"')[3]),
                     QuotedValueOrNull(MatchAll(htmlContent, ThumbUrl), i))
  {
    var urls := Captures(htmlContent, ObjUrl);
    assert |Split(MatchAll(htmlContent, ObjUrl)[i], '"')| > 3
        && Split(MatchAll(htmlContent, ObjUrl)[i], '"')[3] == urls[i]
        && |urls| == |MatchAll(htmlContent, ObjUrl)| by {
      MatchTextSplit(htmlContent, ObjUrl, i);
    }
    assert QuotedValueOrNull(MatchAll(htmlContent, FromPageTitle), i)
        == NthOrNull(Captures(htmlContent, FromPageTitle), i) by {
      QuotedValueIsCapture(htmlContent, FromPageTitle, i);
    }
    assert QuotedValueOrNull(MatchAll(htmlContent, ThumbUrl), i)
        == NthOrNull(Captures(htmlContent, ThumbUrl), i) by {
      QuotedValueIsCapture(htmlContent, ThumbUrl, i);
    }
    HtmlCaptureRecordAt(htmlContent, maxImages, i);
  }

  // ---------- the JSON strategy ----------

  const SetDataName := "setData('imgData',"

  /** Whether `\s*\);` follows at `k`. */
  predicate ClosesCall(s: string, k: nat)
    requires k <= |s|
  {
    StartsWithAt(s, SkipWhitespace(s, k), ");")
  }

  /** A `}` at `k` that `\s*\);` follows. */
  predicate ClosingBraceAt(s: string, k: nat)
    requires k < |s|
  {
    s[k] == '}' && ClosesCall(s, k + 1)
  }

  /**
   * The lazy `.*?\}` of the pattern, from `j`: the first `}` that is followed by
   * `\s*\);`, provided no line terminator comes before it.
   */
  function LazyClose(s: string, j: nat): (r: Option<nat>)
    requires j <= |s|
    ensures r.Some? ==> j <= r.value < |s| && ClosingBraceAt(s, r.value)
    ensures r.Some? ==> forall k :: j <= k < r.value ==> !IsLineTerminator(s[k])
    ensures r.Some? ==> forall k :: j <= k < r.value ==> !ClosingBraceAt(s, k)
    ensures r.None? ==> forall k :: j <= k < |s| && ClosingBraceAt(s, k) ==>
      exists l :: j <= l < k && IsLineTerminator(s[l])
    decreases |s| - j
  {
    if j == |s| then None
    else if ClosingBraceAt(s, j) then Some(j)
    else if IsLineTerminator(s[j]) then None
    else LazyClose(s, j + 1)
  }

  /**
   * The head of the pattern at `p`, up to the `{` at `open`: `flip`, one character
   * other than a line terminator (the unescaped `.`), `setData('imgData',`, and the
   * greedy `\s*`, which `{` ends.
   */
  predicate SetDataOpens(s: string, p: nat, open: nat)
  {
    var afterName := p + 5 + |SetDataName|;
    && afterName <= |s|
    && s[p..p + 4] == "flip" && !IsLineTerminator(s[p + 4])
    && s[p + 5..afterName] == SetDataName
    && open == SkipWhitespace(s, afterName)
    && open < |s| && s[open] == '{'
  }

  /** `c` is the first `}` from `j` that `\s*\);` follows, with no line terminator on the way. */
  predicate FirstClosingBrace(s: string, j: nat, c: nat)
  {
    && j <= c < |s| && ClosingBraceAt(s, c)
    && (forall k :: j <= k < c ==> !IsLineTerminator(s[k]))
    && (forall k :: j <= k < c ==> !ClosingBraceAt(s, k))
  }

  /**
   * `m` is a match of `flip.setData\('imgData',\s*(\{.*?\})\s*\);` in `s`: the head,
   * then group 1 from the `{` to the first closing brace, and the match ends after
   * the `);` that follows it.
   */
  predicate IsSetDataMatch(s: string, m: RegexMatch)
  {
    && SetDataOpens(s, m.start, m.groupStart)
    && m.groupStart + 2 <= m.groupEnd
    && FirstClosingBrace(s, m.groupStart + 1, m.groupEnd - 1)
    && m.end == SkipWhitespace(s, m.groupEnd) + 2
  }

  /** The head of a match is where the scanner looks for it: the `{` after the greedy `\s*`. */
  lemma SetDataHeadAt(s: string, p: nat, open: nat)
    requires SetDataOpens(s, p, open)
    ensures p + 5 + |SetDataName| <= |s| && open == SkipWhitespace(s, p + 5 + |SetDataName|)
  {
  }

  /** The lazy `.*?\}` from `j` ends at the first closing brace whenever there is one. */
  lemma LazyCloseAt(s: string, j: nat, c: nat)
    requires FirstClosingBrace(s, j, c)
    ensures LazyClose(s, j) == Some(c)
  {
  }

  /** What the scanner builds from a head and the lazy close is a match of the pattern. */
  lemma SetDataBuilt(s: string, p: nat, open: nat, close: nat)
    requires SetDataOpens(s, p, open) && LazyClose(s, open + 1) == Some(close)
    ensures var m := RegexMatch(p, open, close + 1, SkipWhitespace(s, close + 1) + 2);
      Within(s, m) && IsSetDataMatch(s, m)
  {
  }

  /** The pattern tried at `p`: only a match of the pattern at `p`. Group 1 runs from the `{` to the `}`. */
  function SetDataAt(s: string, p: nat): (r: Option<RegexMatch>)
    ensures r.Some? ==> r.value.start == p && Within(s, r.value) && IsSetDataMatch(s, r.value)
    ensures r.Some? ==> (r.value.groupStart + 2 <= r.value.groupEnd
      && s[r.value.groupStart] == '{' && s[r.value.groupEnd - 1] == '}')
  {
    var afterName := p + 5 + |SetDataName|;
    if afterName <= |s| && SetDataOpens(s, p, SkipWhitespace(s, afterName)) then
      var open := SkipWhitespace(s, afterName);
      match LazyClose(s, open + 1)
      case Some(close) =>
        SetDataBuilt(s, p, open, close);
        Some(RegexMatch(p, open, close + 1, SkipWhitespace(s, close + 1) + 2))
      case None => None
    else None
  }

  /** Wherever the pattern matches, the scanner finds exactly that match. */
  lemma SetDataAtComplete(s: string, m: RegexMatch)
    requires IsSetDataMatch(s, m)
    ensures SetDataAt(s, m.start) == Some(m)
  {
    var p, open, close := m.start, m.groupStart, m.groupEnd - 1;
    SetDataHeadAt(s, p, open);
    LazyCloseAt(s, open + 1, close);
    SetDataAtSteps(s, p, open, close);
    assert m == RegexMatch(p, open, close + 1, SkipWhitespace(s, close + 1) + 2);
  }

  /** The scanner's steps: a head ending at `open` and a lazy close at `close` give that match. */
  lemma SetDataAtSteps(s: string, p: nat, open: nat, close: nat)
    requires p + 5 + |SetDataName| <= |s| && open == SkipWhitespace(s, p + 5 + |SetDataName|)
    requires SetDataOpens(s, p, open) && LazyClose(s, open + 1) == Some(close)
    ensures SetDataAt(s, p) == Some(RegexMatch(p, open, close + 1, SkipWhitespace(s, close + 1) + 2))
  {
  }

  /** `s.match(pattern)` for a non-global pattern: the leftmost match at or after `from`. */
  function FindSetData(s: string, from: nat): (r: Option<RegexMatch>)
    ensures r.Some? ==> from <= r.value.start && SetDataAt(s, r.value.start) == r
    ensures forall p :: from <= p < (if r.Some? then r.value.start else |s|) ==> SetDataAt(s, p).None?
    decreases |s| - from
  {
    if from >= |s| then None
    else if SetDataAt(s, from).Some? then SetDataAt(s, from)
    else FindSetData(s, from + 1)
  }

  /** `s.match` fails only where the pattern matches nowhere: a match at or after `from` is found, or an earlier one is. */
  lemma FindSetDataFinds(s: string, from: nat, m: RegexMatch)
    requires IsSetDataMatch(s, m) && from <= m.start
    ensures FindSetData(s, from).Some? && FindSetData(s, from).value.start <= m.start
  {
    SetDataAtComplete(s, m);
  }

  /** A call `flip.setData('imgData',{b});` whose body has no `}` and no line break is found, and group 1 is `{b}`. */
  lemma SetDataFoundAt(b: string)
    requires forall k :: 0 <= k < |b| ==> b[k] != '}' && !IsLineTerminator(b[k])
    ensures var s := "flip.setData('imgData',{" + b + "});";
      && SetDataAt(s, 0) == Some(RegexMatch(0, 23, |b| + 25, |s|))
      && Group(s, SetDataAt(s, 0).value) == "{" + b + "}"
  {
    var s := "flip.setData('imgData',{" + b + "});";
    var c := |b| + 24;
    SetDataCallOpens(s, b);
    SetDataCallCloses(s, b);
    BraceCloses(s, 24, c);
    var m := RegexMatch(0, 23, c + 1, |s|);
    assert IsSetDataMatch(s, m);
    SetDataAtComplete(s, m);
    assert s[23..c + 1] == "{" + b + "}";
  }

  /** The head of that call opens group 1 at index 23. */
  lemma SetDataCallOpens(s: string, b: string)
    requires s == "flip.setData('imgData',{" + b + "});"
    ensures SetDataOpens(s, 0, 23)
  {
    var head := "flip.setData('imgData',";
    assert s == head + ("{" + b + "});") && s[..23] == head;
    assert s[..4] == "flip" && s[5..23] == head[5..] == SetDataName;
    assert s[23] == '{';
  }

  /** The characters of that call from index 24 on: `b`, then `});`. */
  lemma SetDataCallCloses(s: string, b: string)
    requires s == "flip.setData('imgData',{" + b + "});"
    requires forall k :: 0 <= k < |b| ==> b[k] != '}' && !IsLineTerminator(b[k])
    ensures |s| == |b| + 27 && s[|b| + 24] == '}' && s[|b| + 25] == ')' && s[|b| + 26] == ';'
    ensures forall k :: 24 <= k < |b| + 24 ==> s[k] != '}' && !IsLineTerminator(s[k])
  {
    assert forall k :: 24 <= k < |b| + 24 ==> s[k] == b[k - 24];
  }

  /** A `}` followed by `);` at the very end, with no `}` and no line break from `j` to it, is the first closing brace from `j`. */
  lemma BraceCloses(s: string, j: nat, c: nat)
    requires j <= c && c + 3 == |s| && s[c] == '}' && s[c + 1] == ')' && s[c + 2] == ';'
    requires forall k :: j <= k < c ==> s[k] != '}' && !IsLineTerminator(s[k])
    ensures FirstClosingBrace(s, j, c) && SkipWhitespace(s, c + 1) + 2 == |s|
  {
    assert SkipWhitespace(s, c + 1) == c + 1;
    assert ClosingBraceAt(s, c);
  }

  /** A field of an output record is the item's value when that is truthy, and `''` exactly when it is absent or falsy. */
  predicate Defaulted(out: JsValue, read: Option<JsValue>)
  {
    (TruthyRead(read) ==> Some(out) == read) && (out == JStr("") <==> !TruthyRead(read))
  }

  /** The record for one element of `data`: each field is the element's own value when truthy, `''` otherwise. */
  function ItemRecord(item: JsValue, index: nat): (r: ImageRecord)
    ensures r.index == index
    ensures Defaulted(r.title, Prop(item, "fromPageTitle"))
    ensures Defaulted(r.url, Prop(item, "objURL"))
    ensures Defaulted(r.thumbURL, Prop(item, "thumbURL"))
  {
    ImageRecord(index,
                Or(Prop(item, "fromPageTitle"), JStr("")),
                Or(Prop(item, "objURL"), JStr("")),
                Or(Prop(item, "thumbURL"), JStr("")))
  }

  /**
   * `imgData.data.slice(0, maxImages).map(...)` inside the `try`: reading `data`
   * of `null`, a `data` that is not an array (no `slice`, or a string whose slice
   * has no `map`), or a `null` element among those mapped all throw, and the
   * `catch` returns `[]`.
   */
  function RecordsFromImgData(imgData: JsValue, maxImages: nat): (r: seq<ImageRecord>)
    ensures |r| <= maxImages && IndexedFromOne(r)
    ensures (match Prop(imgData, "data") case Some(JArr(_)) => false case _ => true) ==> r == []
    ensures match Prop(imgData, "data")
      case Some(JArr(items)) =>
        && ((forall k :: 0 <= k < Min(|items|, maxImages) ==> !items[k].JNull?) ==> |r| == Min(|items|, maxImages))
        && ((exists k :: 0 <= k < Min(|items|, maxImages) && items[k].JNull?) ==> r == [])
      case _ => true
    ensures r != [] ==> (Prop(imgData, "data").Some? && Prop(imgData, "data").value.JArr?
      && |r| <= |Prop(imgData, "data").value.items|)
    ensures forall k :: 0 <= k < |r| ==> r[k] == ItemRecord(Prop(imgData, "data").value.items[k], k + 1)
  {
    if imgData.JNull? then []
    else
      match Prop(imgData, "data")
      case Some(JArr(items)) =>
        var taken := items[..Min(|items|, maxImages)];
        if exists k :: 0 <= k < |taken| && taken[k].JNull? then []
        else seq(|taken|, i requires 0 <= i < |taken| => ItemRecord(taken[i], i + 1))
      case _ => []
  }

  /** `extractImageUrlsFromJSON`: locate the `flip.setData` call, parse its object, map its `data`. */
  function ExtractFromJson(htmlContent: string, maxImages: nat, parse: string -> Option<JsValue>): (imageUrls: seq<ImageRecord>)
    ensures |imageUrls| <= maxImages
    ensures IndexedFromOne(imageUrls)
  {
    match FindSetData(htmlContent, 0)
    case None => []
    case Some(m) =>
      var payload := Group(htmlContent, m);
      if payload == "" then []
      else
        match parse(payload)
        case None => []
        case Some(imgData) => RecordsFromImgData(imgData, maxImages)
  }

  /**
   * When the call is found, its object parses (whatever other keys it has), its `data` is an array and none of
   * the first `maxImages` elements is `null`, the result has
   * `min(|data|, maxImages)` records, numbered from 1, each field taken from the
   * element at the same position or defaulted to `''`.
   */
  lemma JsonRecordsFromData(htmlContent: string, maxImages: nat, parse: string -> Option<JsValue>, items: seq<JsValue>)
    requires FindSetData(htmlContent, 0).Some?
    requires parse(Group(htmlContent, FindSetData(htmlContent, 0).value)).Some?
    requires Prop(parse(Group(htmlContent, FindSetData(htmlContent, 0).value)).value, "data") == Some(JArr(items))
    requires forall k :: 0 <= k < Min(|items|, maxImages) ==> !items[k].JNull?
    ensures var r := ExtractFromJson(htmlContent, maxImages, parse);
      && |r| == Min(|items|, maxImages)
      && IndexedFromOne(r)
      && forall i :: 0 <= i < |r| ==>
           && Defaulted(r[i].title, Prop(items[i], "fromPageTitle"))
           && Defaulted(r[i].url, Prop(items[i], "objURL"))
           && Defaulted(r[i].thumbURL, Prop(items[i], "thumbURL"))
  {
    var m := FindSetData(htmlContent, 0).value;
    assert Group(htmlContent, m) != "";
    var taken := items[..Min(|items|, maxImages)];
    assert !exists k :: 0 <= k < |taken| && taken[k].JNull?;
  }

  /**
   * A non-empty result means every step succeeded: the call was found, its
   * object parsed, and that object is not `null` and has an array `data` none
   * of whose first `maxImages` elements is `null` (mapping a `null` throws).
   */
  lemma JsonNonEmptyOnlyIfParsed(htmlContent: string, maxImages: nat, parse: string -> Option<JsValue>)
    requires ExtractFromJson(htmlContent, maxImages, parse) != []
    ensures FindSetData(htmlContent, 0).Some?
    ensures var payload := Group(htmlContent, FindSetData(htmlContent, 0).value);
      && parse(payload).Some?
      && !parse(payload).value.JNull?
      && Prop(parse(payload).value, "data").Some?
      && Prop(parse(payload).value, "data").value.JArr?
      && var items := Prop(parse(payload).value, "data").value.items;
         forall k :: 0 <= k < Min(|items|, maxImages) ==> !items[k].JNull?
  {
  }

  /** Three entries and a cap of two give exactly the records of the first two entries. */
  lemma JsonCapsAtTwoOfThree(e0: JsValue, e1: JsValue, e2: JsValue)
    requires !e0.JNull? && !e1.JNull?
    ensures RecordsFromImgData(JObj(map["data" := JArr([e0, e1, e2])]), 2)
      == [ItemRecord(e0, 1), ItemRecord(e1, 2)]
  {
    var taken := [e0, e1, e2][..2];
    assert taken == [e0, e1];
    assert !exists k :: 0 <= k < |taken| && taken[k].JNull?;
  }

  // ---------- strategy selection ----------

  /** `getBaiduImages`: the HTML strategy for `method=html`, the JSON strategy otherwise. */
  function BaiduRecords(htmlContent: string, parseMethod: Params.ParseMethod, maxImages: nat,
                        parse: string -> Option<JsValue>): (r: seq<ImageRecord>)
    ensures parseMethod == Params.Html ==>
      forall i :: 0 <= i < |r| ==> r[i].url.JStr? && HasUrlScheme(r[i].url.s)
    ensures parseMethod == Params.Json && FindSetData(htmlContent, 0).None? ==> r == []
  {
    BaiduHtmlRecordsShape(htmlContent, maxImages);
    if parseMethod == Params.Html then BaiduHtmlRecords(htmlContent, maxImages)
    else ExtractFromJson(htmlContent, maxImages, parse)
  }

  /** Whichever strategy runs, the list is capped and numbered from 1. */
  lemma BaiduRecordsCapped(htmlContent: string, parseMethod: Params.ParseMethod, maxImages: nat,
                           parse: string -> Option<JsValue>)
    ensures |BaiduRecords(htmlContent, parseMethod, maxImages, parse)| <= maxImages
    ensures IndexedFromOne(BaiduRecords(htmlContent, parseMethod, maxImages, parse))
  {
    BaiduHtmlRecordsShape(htmlContent, maxImages);
  }

  method GetBaiduImages(htmlContent: string, parseMethod: Params.ParseMethod, maxImages: nat,
                        parse: string -> Option<JsValue>) returns (imageUrls: seq<ImageRecord>)
    ensures imageUrls == BaiduRecords(htmlContent, parseMethod, maxImages, parse)
  {
    if parseMethod == Params.Html {
      imageUrls := ExtractFromHtml(htmlContent, maxImages);
    } else {
      imageUrls := ExtractFromJson(htmlContent, maxImages, parse);
    }
  }
}
