/**
 * The Bing strategy of worker.js (`extractImageUrlsFromBing`, reached through
 * `getBingImages`): a global search for `m="..."` attributes of `class="iusc"`
 * elements, a three-step unescape of each, `JSON.parse`, and a filter that keeps
 * only payloads carrying both `murl` and `turl`, numbered after filtering and
 * stopped at the cap. `JSON.parse` is the parameter `parse`; `None` is a parse error.
 */
module BingImages {
  import opened JsValues
  import opened Records
  import opened Text

  // ---------- the unescape ----------

  /** `s.replace(re, rep)` for a global pattern that is the literal `pat`: left to right, without overlap, replacements not rescanned. */
  function ReplaceAll(s: string, pat: string, rep: string): (r: string)
    requires pat != []
    ensures |rep| <= |pat| ==> |r| <= |s|
    decreases |s|
  {
    if |s| < |pat| then s
    else if s[..|pat|] == pat then rep + ReplaceAll(s[|pat|..], pat, rep)
    else [s[0]] + ReplaceAll(s[1..], pat, rep)
  }

  /** The three replacements, in the source's order: `&quot;` to `"`, then `\u002f` to `/`, then `\\` to `\`. */
  function DecodeAttribute(m: string): (d: string)
    ensures |d| <= |m|
  {
    var unquoted := ReplaceAll(m, "&quot;", "\"");
    var unslashed := ReplaceAll(unquoted, "\\u002f", "/");
    ReplaceAll(unslashed, "\\\\", "\\")
  }

  /** Text in which the pattern occurs nowhere is left as it is. */
  lemma {:induction false} ReplaceAllAbsent(s: string, pat: string, rep: string)
    requires pat != []
    requires forall i: nat :: !StartsWithAt(s, i, pat)
    ensures ReplaceAll(s, pat, rep) == s
    decreases |s|
  {
    if |s| >= |pat| {
      assert !StartsWithAt(s, 0, pat);
      assert s[0..|pat|] == s[..|pat|];
      forall i: nat
        ensures !StartsWithAt(s[1..], i, pat)
      {
        if i + |pat| <= |s[1..]| {
          assert s[1..][i..i + |pat|] == s[i + 1..i + 1 + |pat|];
          assert !StartsWithAt(s, i + 1, pat);
        }
      }
      ReplaceAllAbsent(s[1..], pat, rep);
      assert [s[0]] + s[1..] == s;
    }
  }

  /** In particular, text without the first character of the pattern is left as it is. */
  lemma ReplaceAllWithoutFirstChar(s: string, pat: string, rep: string)
    requires pat != [] && pat[0] !in s
    ensures ReplaceAll(s, pat, rep) == s
  {
    forall i: nat
      ensures !StartsWithAt(s, i, pat)
    {
      if i + |pat| <= |s| {
        assert s[i..i + |pat|][0] == s[i];
      }
    }
    ReplaceAllAbsent(s, pat, rep);
  }

  /**
   * Unquoting undoes quoting: escaping every `"` as `&quot;` and then applying the
   * first replacement of the decode gives back any text that holds no `&`.
   */
  lemma {:induction false} UnquoteAfterQuote(s: string)
    requires '&' !in s
    ensures ReplaceAll(ReplaceAll(s, "\"", "&quot;"), "&quot;", "\"") == s
    decreases |s|
  {
    if s != [] {
      var t := ReplaceAll(s[1..], "\"", "&quot;");
      UnquoteAfterQuote(s[1..]);
      if s[0] == '"' {
        assert ReplaceAll(s, "\"", "&quot;") == "&quot;" + t;
        assert ("&quot;" + t)[..6] == "&quot;" && ("&quot;" + t)[6..] == t;
      } else {
        assert ReplaceAll(s, "\"", "&quot;") == [s[0]] + t;
        assert ([s[0]] + t)[1..] == t;
        if |[s[0]] + t| >= 6 {
          assert ([s[0]] + t)[..6][0] == s[0];
        }
      }
      assert [s[0]] + s[1..] == s;
    }
  }

  /** An attribute value with neither `&` nor a backslash is passed to `JSON.parse` unchanged; no value grows. */
  lemma DecodeAttributeIdentity(m: string)
    ensures '&' !in m && '\\' !in m ==> DecodeAttribute(m) == m
    ensures |DecodeAttribute(m)| <= |m|
  {
    if '&' !in m && '\\' !in m {
      ReplaceAllWithoutFirstChar(m, "&quot;", "\"");
      ReplaceAllWithoutFirstChar(m, "\\u002f", "/");
      ReplaceAllWithoutFirstChar(m, "\\\\", "\\");
    }
  }

  /**
   * The order matters: on a backslash followed by `/`, the source's order keeps
   * the backslash and yields `\/`, while collapsing backslashes first would consume
   * the escape marker's backslash and yield `/`.
   */
  lemma DecodeOrderMatters()
    ensures DecodeAttribute("\\\\u002f") == "\\/"
    ensures ReplaceAll(ReplaceAll("\\\\u002f", "\\\\", "\\"), "\\u002f", "/") == "/"
  {
    var x := "\\\\u002f";
    ReplaceAllWithoutFirstChar(x, "&quot;", "\"");
    assert x[..6] != "\\u002f";
    assert x[1..][..6] == "\\u002f";
    assert x[1..][6..] == [];
    assert ReplaceAll(x, "\\u002f", "/") == "\\/";
    var y := "\\/";
    assert y[..2] != "\\\\";
    assert ReplaceAll(y, "\\\\", "\\") == "\\/";
    assert x[..2] == "\\\\";
    var z := x[2..];
    assert z == "u002f";
    ReplaceAllWithoutFirstChar(z, "\\\\", "\\");
    assert ReplaceAll(x, "\\\\", "\\") == "\\u002f";
    var w := "\\u002f";
    assert w[..6] == "\\u002f" && w[6..] == [];
  }

  // ---------- the global search for class="iusc" ... m="..." ----------

  const IuscMarker := "class=\"iusc\""

  /** `m="([^"]+)"` matches at `j` and its closing quote is at `e`. */
  predicate IsAttrValue(s: string, j: nat, e: nat)
  {
    && StartsWithAt(s, j, "m=\"")
    && j + 3 < e < |s| && s[e] == '"'
    && forall k :: j + 3 <= k < e ==> s[k] != '"'
  }

  /** `m="` at `j` followed by a non-empty run of non-`"` characters and a closing `"`: the end of that run, exactly when the attribute matches there. */
  function AttrValueEnd(s: string, j: nat): (r: Option<nat>)
    ensures r.Some? ==> j + 3 < r.value < |s| && StartsWithAt(s, j, "m=\"") && s[r.value] == '"'
    ensures r.Some? ==> forall k :: j + 3 <= k < r.value ==> s[k] != '"'
    ensures r.Some? ==> IsAttrValue(s, j, r.value)
    ensures forall e: nat :: IsAttrValue(s, j, e) ==> r == Some(e)
  {
    if StartsWithAt(s, j, "m=\"") && j + 3 < QuoteFreeEnd(s, j + 3) < |s|
    then Some(QuoteFreeEnd(s, j + 3))
    else None
  }

  /**
   * The lazy `[^>]*?m="([^"]+)"` from `j`: the first place where the attribute
   * matches, provided no `>` comes before it.
   */
  function LazyAttr(s: string, j: nat): (r: Option<RegexMatch>)
    requires j <= |s|
    ensures r.Some? ==> (j <= r.value.start && r.value.start + 3 == r.value.groupStart
      && r.value.groupStart < r.value.groupEnd && r.value.end == r.value.groupEnd + 1
      && AttrValueEnd(s, r.value.start) == Some(r.value.groupEnd))
    ensures r.Some? ==> forall k :: j <= k < r.value.start ==> s[k] != '>'
    ensures r.Some? ==> forall k :: j <= k < r.value.start ==> AttrValueEnd(s, k).None?
    ensures r.None? ==> forall k :: j <= k <= |s| && AttrValueEnd(s, k).Some? ==>
      exists l :: j <= l < k && s[l] == '>'
    decreases |s| - j
  {
    if AttrValueEnd(s, j).Some? then
      var e := AttrValueEnd(s, j).value;
      Some(RegexMatch(j, j + 3, e, e + 1))
    else if j == |s| || s[j] == '>' then None
    else LazyAttr(s, j + 1)
  }

  /** The lazy tail from `j` stops at `a` whenever the attribute first matches at `a` and no `>` comes before it. */
  lemma LazyAttrAt(s: string, j: nat, a: nat)
    requires j <= a <= |s| && AttrValueEnd(s, a).Some?
    requires forall k :: j <= k < a ==> s[k] != '>'
    requires forall k :: j <= k < a ==> AttrValueEnd(s, k).None?
    ensures LazyAttr(s, j) == Some(RegexMatch(a, a + 3, AttrValueEnd(s, a).value, AttrValueEnd(s, a).value + 1))
  {
  }

  /**
   * `m` is a match of `class="iusc"[^>]*?m="([^"]+)"`: the marker, then a run free
   * of `>` in which the attribute matches nowhere, then the attribute, whose value
   * is group 1.
   */
  predicate IsIuscMatch(s: string, m: RegexMatch)
  {
    && StartsWithAt(s, m.start, IuscMarker)
    && m.start + |IuscMarker| + 3 <= m.groupStart
    && m.end == m.groupEnd + 1
    && IsAttrValue(s, m.groupStart - 3, m.groupEnd)
    && (forall k :: m.start + |IuscMarker| <= k < m.groupStart - 3 ==> s[k] != '>')
    && (forall k :: m.start + |IuscMarker| <= k < m.groupStart - 3 ==> AttrValueEnd(s, k).None?)
  }

  /** The pattern `class="iusc"[^>]*?m="([^"]+)"` tried at `p`: only a match of the pattern at `p`. */
  function IuscAt(s: string, p: nat): (r: Option<RegexMatch>)
    ensures r.Some? ==> r.value.start == p && Within(s, r.value) && r.value.groupStart < r.value.groupEnd
    ensures r.Some? ==> forall k :: r.value.groupStart <= k < r.value.groupEnd ==> s[k] != '"'
    ensures r.Some? ==> IsIuscMatch(s, r.value)
  {
    if StartsWithAt(s, p, IuscMarker) then
      match LazyAttr(s, p + |IuscMarker|)
      case Some(a) => Some(RegexMatch(p, a.groupStart, a.groupEnd, a.end))
      case None => None
    else None
  }

  /** Wherever the pattern matches, the scanner finds exactly that match. */
  lemma IuscAtComplete(s: string, m: RegexMatch)
    requires IsIuscMatch(s, m)
    ensures IuscAt(s, m.start) == Some(m)
  {
    var a := m.groupStart - 3;
    assert AttrValueEnd(s, a) == Some(m.groupEnd);
    LazyAttrAt(s, m.start + |IuscMarker|, a);
  }

  /** `regex.exec(s)` with `lastIndex == from`: the leftmost match starting at or after `from`. */
  function NextIusc(s: string, from: nat): (r: Option<RegexMatch>)
    ensures r.Some? ==> from <= r.value.start && IuscAt(s, r.value.start) == r && Within(s, r.value)
    ensures forall p :: from <= p < (if r.Some? then r.value.start else |s|) ==> IuscAt(s, p).None?
    decreases |s| - from
  {
    if from >= |s| then None
    else if IuscAt(s, from).Some? then IuscAt(s, from)
    else NextIusc(s, from + 1)
  }

  /** `exec` fails only where the pattern matches nowhere: a match at or after `from` is found, or an earlier one is. */
  lemma NextIuscFinds(s: string, from: nat, m: RegexMatch)
    requires IsIuscMatch(s, m) && from <= m.start
    ensures NextIusc(s, from).Some? && NextIusc(s, from).value.start <= m.start
  {
    IuscAtComplete(s, m);
  }

  /** A tag `class="iusc" m="v"` with a non-empty, quote-free `v` is matched at its start, and group 1 is `v`. */
  lemma IuscFoundAt(v: string)
    requires v != [] && '"' !in v
    ensures var s := "class=\"iusc\" m=\"" + v + "\"";
      && IuscAt(s, 0) == Some(RegexMatch(0, 16, |v| + 16, |s|))
      && Group(s, IuscAt(s, 0).value) == v
  {
    var s := "class=\"iusc\" m=\"" + v + "\"";
    var e := |v| + 16;
    IuscTagChars(s, v);
    assert IsAttrValue(s, 13, e);
    assert AttrValueEnd(s, 12).None? by {
      assert s[12] == ' ';
    }
    var m := RegexMatch(0, 16, e, |s|);
    assert IsIuscMatch(s, m);
    IuscAtComplete(s, m);
    assert s[16..e] == v;
  }

  /** The characters of that tag: the marker, ` m="`, `v`, and the closing quote. */
  lemma IuscTagChars(s: string, v: string)
    requires s == "class=\"iusc\" m=\"" + v + "\""
    requires v != [] && '"' !in v
    ensures |s| == |v| + 17 && StartsWithAt(s, 0, IuscMarker) && s[12] == ' ' && StartsWithAt(s, 13, "m=\"")
    ensures s[|v| + 16] == '"' && forall k :: 16 <= k < |v| + 16 ==> s[k] != '"'
  {
    var head := "class=\"iusc\" m=\"";
    assert s == head + (v + "\"") && s[..16] == head;
    assert s[0..12] == head[..12] == IuscMarker;
    assert s[13..16] == head[13..] == "m=\"";
    assert forall k :: 16 <= k < |v| + 16 ==> s[k] == v[k - 16];
  }

  /** The captured attribute values of successive `exec` calls from `from`, in document order. */
  function IuscCaptures(s: string, from: nat): (caps: seq<string>)
    ensures forall k :: 0 <= k < |caps| ==> caps[k] != [] && '"' !in caps[k]
    ensures NextIusc(s, from).None? <==> caps == []
    decreases |s| - from
  {
    match NextIusc(s, from)
    case None => []
    case Some(m) =>
      GroupQuoteFree(s, m);
      [Group(s, m)] + IuscCaptures(s, m.end)
  }

  lemma GroupQuoteFree(s: string, m: RegexMatch)
    requires IuscAt(s, m.start) == Some(m)
    ensures Group(s, m) != [] && '"' !in Group(s, m)
  {
    var g := Group(s, m);
    assert forall k :: 0 <= k < |g| ==> g[k] == s[m.groupStart + k];
  }

  // ---------- from captured attribute to record ----------

  /** The fields of a record before it is numbered. */
  datatype Entry = Entry(title: JsValue, url: JsValue, thumbURL: JsValue)

  /** The title falls back from `t` to `desc` to the placeholder 'Bing Image', each taken only when truthy. */
  function BingTitle(meta: JsValue): (title: JsValue)
    ensures Truthy(title)
    ensures TruthyRead(Prop(meta, "t")) ==> Some(title) == Prop(meta, "t")
    ensures !TruthyRead(Prop(meta, "t")) && TruthyRead(Prop(meta, "desc")) ==> Some(title) == Prop(meta, "desc")
    ensures !TruthyRead(Prop(meta, "t")) && !TruthyRead(Prop(meta, "desc")) ==> title == JStr("Bing Image")
  {
    Or(Prop(meta, "t"), Or(Prop(meta, "desc"), JStr("Bing Image")))
  }

  /**
   * One parsed payload: reading from `null` throws inside the inner `try` and the
   * match is skipped; otherwise an entry exists exactly when `murl` and `turl`
   * are both truthy.
   */
  function MetaEntry(meta: JsValue): (e: Option<Entry>)
    ensures e.Some? <==> !meta.JNull? && TruthyRead(Prop(meta, "murl")) && TruthyRead(Prop(meta, "turl"))
    ensures e.Some? ==> (Some(e.value.url) == Prop(meta, "murl") && Some(e.value.thumbURL) == Prop(meta, "turl")
      && e.value.title == BingTitle(meta))
  {
    if meta.JNull? then None
    else
      var imageUrl := Or(Prop(meta, "murl"), JNull);
      var imageThumbURL := Or(Prop(meta, "turl"), JNull);
      if Truthy(imageUrl) && Truthy(imageThumbURL) then Some(Entry(BingTitle(meta), imageUrl, imageThumbURL))
      else None
  }

  /** One captured attribute value: unescape, parse (a parse error skips it), then read the payload. */
  function BingEntry(capture: string, parse: string -> Option<JsValue>): (e: Option<Entry>)
    ensures parse(DecodeAttribute(capture)).None? ==> e.None?
    ensures e.Some? ==> Truthy(e.value.url) && Truthy(e.value.thumbURL) && Truthy(e.value.title)
  {
    match parse(DecodeAttribute(capture))
    case None => None
    case Some(meta) => MetaEntry(meta)
  }

  /** The entries of the captures that survive, in document order. */
  function Entries(captures: seq<string>, parse: string -> Option<JsValue>): (es: seq<Entry>)
    ensures |es| <= |captures|
    ensures forall k :: 0 <= k < |es| ==> Truthy(es[k].url) && Truthy(es[k].thumbURL) && Truthy(es[k].title)
    decreases |captures|
  {
    if captures == [] then []
    else
      match BingEntry(captures[0], parse)
      case Some(e) => [e] + Entries(captures[1..], parse)
      case None => Entries(captures[1..], parse)
  }

  /** Filtering distributes over concatenation of the captures. */
  lemma {:induction false} EntriesAppend(a: seq<string>, b: seq<string>, parse: string -> Option<JsValue>)
    ensures Entries(a + b, parse) == Entries(a, parse) + Entries(b, parse)
    decreases |a|
  {
    if a == [] {
      assert a + b == b;
    } else {
      assert (a + b)[0] == a[0] && (a + b)[1..] == a[1..] + b;
      EntriesAppend(a[1..], b, parse);
    }
  }

  /** Numbering after filtering: the k-th surviving entry gets index k + 1. */
  function Numbered(es: seq<Entry>): (r: seq<ImageRecord>)
    ensures |r| == |es| && IndexedFromOne(r)
    ensures forall k :: 0 <= k < |r| ==> Truthy(r[k].url) == Truthy(es[k].url) && Truthy(r[k].thumbURL) == Truthy(es[k].thumbURL)
  {
    seq(|es|, k requires 0 <= k < |es| => ImageRecord(k + 1, es[k].title, es[k].url, es[k].thumbURL))
  }

  /**
   * The records for a sequence of captured values: the first `maxImages`
   * surviving entries, numbered from 1. At most `maxImages` records, no gaps in
   * the numbering, and every url and thumbnail is truthy (a non-empty string when
   * it is a string).
   */
  function BingFromCaptures(captures: seq<string>, maxImages: nat, parse: string -> Option<JsValue>): (r: seq<ImageRecord>)
    ensures |r| == Min(|Entries(captures, parse)|, maxImages)
    ensures IndexedFromOne(r)
    ensures forall k :: 0 <= k < |r| ==> Truthy(r[k].url) && Truthy(r[k].thumbURL) && Truthy(r[k].title)
  {
    var es := Entries(captures, parse);
    Numbered(es[..Min(|es|, maxImages)])
  }

  /** What the Bing strategy returns for a page. */
  function BingRecords(htmlContent: string, maxImages: nat, parse: string -> Option<JsValue>): (r: seq<ImageRecord>)
    ensures |r| <= maxImages && |r| <= |IuscCaptures(htmlContent, 0)|
    ensures IndexedFromOne(r)
    ensures NextIusc(htmlContent, 0).None? ==> r == []
  {
    BingFromCaptures(IuscCaptures(htmlContent, 0), maxImages, parse)
  }

  /**
   * A malformed block between two valid ones is skipped and the numbering closes
   * over it: the valid blocks become records 1 and 2.
   */
  lemma SkipLeavesNoGap(a: string, bad: string, c: string, maxImages: nat, parse: string -> Option<JsValue>)
    requires maxImages >= 2
    requires BingEntry(a, parse).Some? && BingEntry(bad, parse).None? && BingEntry(c, parse).Some?
    ensures var ea, ec := BingEntry(a, parse).value, BingEntry(c, parse).value;
      BingFromCaptures([a, bad, c], maxImages, parse)
        == [ImageRecord(1, ea.title, ea.url, ea.thumbURL), ImageRecord(2, ec.title, ec.url, ec.thumbURL)]
  {
    var ea, ec := BingEntry(a, parse).value, BingEntry(c, parse).value;
    assert [a, bad, c][1..] == [bad, c];
    assert [bad, c][1..] == [c];
    assert [c][1..] == [];
    assert Entries([c], parse) == [ec];
    assert Entries([bad, c], parse) == [ec];
    assert Entries([a, bad, c], parse) == [ea, ec];
  }

  /** A record is emitted for a capture exactly when it parses to a non-null payload whose `murl` and `turl` are truthy. */
  lemma BingEntryIff(capture: string, parse: string -> Option<JsValue>)
    ensures BingEntry(capture, parse).Some? <==>
      (var parsed := parse(DecodeAttribute(capture));
       parsed.Some? && !parsed.value.JNull?
       && TruthyRead(Prop(parsed.value, "murl")) && TruthyRead(Prop(parsed.value, "turl")))
  {
  }

  /** One `exec` step: the match found from `from` contributes its capture and the search resumes at its end. */
  lemma CapturesStep(s: string, from: nat)
    requires NextIusc(s, from).Some?
    ensures from < NextIusc(s, from).value.end <= |s|
    ensures IuscCaptures(s, from) == [Group(s, NextIusc(s, from).value)] + IuscCaptures(s, NextIusc(s, from).value.end)
  {
  }

  /** The loop's bookkeeping: the captures consumed so far grow by the one just found. */
  lemma CapturesAdvance(s: string, seen: seq<string>, from: nat)
    requires NextIusc(s, from).Some?
    requires IuscCaptures(s, 0) == seen + IuscCaptures(s, from)
    ensures var m := NextIusc(s, from).value;
      from < m.end <= |s| && m.groupStart <= m.groupEnd <= |s|
      && IuscCaptures(s, 0) == (seen + [s[m.groupStart..m.groupEnd]]) + IuscCaptures(s, m.end)
  {
    var m := NextIusc(s, from).value;
    CapturesStep(s, from);
    ConcatAssoc(seen, [Group(s, m)], IuscCaptures(s, m.end));
  }

  lemma ConcatAssoc<T>(a: seq<T>, b: seq<T>, c: seq<T>)
    ensures a + (b + c) == (a + b) + c
  {
  }

  /** Extending the seen captures by one pushes a record numbered after the ones before it, or nothing. */
  lemma RecordsStep(seen: seq<string>, captured: string, parse: string -> Option<JsValue>)
    ensures BingEntry(captured, parse).None? ==>
      Numbered(Entries(seen + [captured], parse)) == Numbered(Entries(seen, parse))
    ensures forall e :: BingEntry(captured, parse) == Some(e) ==>
      Numbered(Entries(seen + [captured], parse))
        == Numbered(Entries(seen, parse)) + [ImageRecord(|Entries(seen, parse)| + 1, e.title, e.url, e.thumbURL)]
  {
    var before := Entries(seen, parse);
    EntriesAppend(seen, [captured], parse);
    assert [captured][1..] == [];
    match BingEntry(captured, parse)
    case Some(e) =>
      assert Entries([captured], parse) == [e];
      NumberedSnoc(before, e);
    case None =>
      assert Entries([captured], parse) == [];
      assert before + [] == before;
  }

  lemma NumberedSnoc(es: seq<Entry>, e: Entry)
    ensures Numbered(es + [e]) == Numbered(es) + [ImageRecord(|es| + 1, e.title, e.url, e.thumbURL)]
  {
  }

  /** The loop has consumed `seen`; the rest are the captures from `lastIndex`, and the cap cuts the entries at `seen`. */
  lemma LoopExit(s: string, seen: seq<string>, lastIndex: nat, maxImages: nat, parse: string -> Option<JsValue>)
    requires IuscCaptures(s, 0) == seen + IuscCaptures(s, lastIndex)
    requires |Entries(seen, parse)| <= maxImages
    requires NextIusc(s, lastIndex).None? || |Entries(seen, parse)| == maxImages
    ensures Numbered(Entries(seen, parse)) == BingRecords(s, maxImages, parse)
  {
    var all := Entries(IuscCaptures(s, 0), parse);
    EntriesAppend(seen, IuscCaptures(s, lastIndex), parse);
    assert all[..Min(|all|, maxImages)] == Entries(seen, parse);
  }

  /**
   * `extractImageUrlsFromBing`: `exec` the global pattern from `lastIndex` while
   * it matches and fewer than `maxImages` records were pushed; each surviving
   * payload is pushed with the running `index`, which only advances on a push.
   */
  method ExtractFromBing(htmlContent: string, maxImages: nat, parse: string -> Option<JsValue>)
    returns (imageUrls: seq<ImageRecord>)
    ensures imageUrls == BingRecords(htmlContent, maxImages, parse)
  {
    imageUrls := [];
    var lastIndex := 0;
    var index := 1;
    ghost var seen: seq<string> := [];
    var found := NextIusc(htmlContent, lastIndex);
    while found.Some? && |imageUrls| < maxImages
      invariant found == NextIusc(htmlContent, lastIndex)
      invariant IuscCaptures(htmlContent, 0) == seen + IuscCaptures(htmlContent, lastIndex)
      invariant imageUrls == Numbered(Entries(seen, parse))
      invariant |imageUrls| <= maxImages
      invariant index == |imageUrls| + 1
      decreases |htmlContent| - lastIndex
    {
      var m := found.value;
      CapturesAdvance(htmlContent, seen, lastIndex);
      var captured := htmlContent[m.groupStart..m.groupEnd];
      RecordsStep(seen, captured, parse);
      lastIndex := m.end;
      var jsonStr := DecodeAttribute(captured);
      var parsed := parse(jsonStr);
      if parsed.Some? && !parsed.value.JNull? {
        var meta := parsed.value;
        var imageUrl := Or(Prop(meta, "murl"), JNull);
        var imageThumbURL := Or(Prop(meta, "turl"), JNull);
        var title := Or(Prop(meta, "t"), Or(Prop(meta, "desc"), JStr("Bing Image")));
        if Truthy(imageUrl) && Truthy(imageThumbURL) {
          assert BingEntry(captured, parse) == Some(Entry(title, imageUrl, imageThumbURL));
          imageUrls := imageUrls + [ImageRecord(index, title, imageUrl, imageThumbURL)];
          index := index + 1;
        } else {
          assert BingEntry(captured, parse).None?;
        }
      } else {
        assert BingEntry(captured, parse).None?;
      }
      seen := seen + [captured];
      found := NextIusc(htmlContent, lastIndex);
    }
    LoopExit(htmlContent, seen, lastIndex, maxImages, parse);
  }

  /** `getBingImages`: the Bing page always goes through the one strategy. */
  method GetBingImages(htmlContent: string, maxImages: nat, parse: string -> Option<JsValue>)
    returns (imageUrls: seq<ImageRecord>)
    ensures imageUrls == BingRecords(htmlContent, maxImages, parse)
  {
    imageUrls := ExtractFromBing(htmlContent, maxImages, parse);
  }
}
