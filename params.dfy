/**
 * Query-parameter normalisation of `handleIncomingRequest` (worker.js): the
 * cap `max`, the Baidu strategy `method`, and the guard on the keyword `q`.
 * A parameter is `None` when the query string does not carry it.
 */
module Params {
  import opened JsValues
  import opened Records
  import opened Text

  // ---------- parseInt with no radix ----------

  predicate IsRadixDigit(c: char, radix: nat)
  {
    ('0' <= c <= '9') || (radix == 16 && (('a' <= c <= 'f') || ('A' <= c <= 'F')))
  }

  function DigitValue(c: char): nat
    requires IsRadixDigit(c, 16)
  {
    if '0' <= c <= '9' then c as int - '0' as int
    else if 'a' <= c <= 'f' then c as int - 'a' as int + 10
    else c as int - 'A' as int + 10
  }

  /** The end of the longest run of digits of `radix` from `i`. */
  function DigitRunEnd(s: string, i: nat, radix: nat): (e: nat)
    requires i <= |s|
    ensures i <= e <= |s|
    ensures forall k :: i <= k < e ==> IsRadixDigit(s[k], radix)
    ensures e < |s| ==> !IsRadixDigit(s[e], radix)
    decreases |s| - i
  {
    if i < |s| && IsRadixDigit(s[i], radix) then DigitRunEnd(s, i + 1, radix) else i
  }

  /** The number a run of digits denotes, most significant first. */
  function DigitsValue(ds: string, radix: nat): nat
    requires radix == 10 || radix == 16
    requires forall k :: 0 <= k < |ds| ==> IsRadixDigit(ds[k], radix)
    decreases |ds|
  {
    if ds == [] then 0
    else
      var last := ds[|ds| - 1];
      assert IsRadixDigit(last, radix);
      DigitsValue(ds[..|ds| - 1], radix) * radix + DigitValue(last)
  }

  /**
   * JavaScript `parseInt(s)` with no radix; `None` is NaN. Leading whitespace is
   * skipped, one sign is taken, a `0x`/`0X` prefix switches to base 16, and the
   * longest run of digits that follows is read; no digit at all gives NaN.
   */
  function ParseInt(s: string): (r: Option<int>)
    ensures (forall k :: 0 <= k < |s| ==> !IsRadixDigit(s[k], 10)) ==> r.None?
    ensures r.Some? && r.value < 0 ==> '-' in s
  {
    var i := SkipWhitespace(s, 0);
    var negative := i < |s| && s[i] == '-';
    var j := if i < |s| && (s[i] == '-' || s[i] == '+') then i + 1 else i;
    var sign := if negative then -1 else 1;
    if j + 2 <= |s| && s[j] == '0' && (s[j + 1] == 'x' || s[j + 1] == 'X') then
      var e := DigitRunEnd(s, j + 2, 16);
      if e == j + 2 then None else Some(sign * DigitsValue(s[j + 2..e], 16))
    else
      var e := DigitRunEnd(s, j, 10);
      if e == j then None else Some(sign * DigitsValue(s[j..e], 10))
  }

  // ---------- decimal rendering, the partner of ParseInt ----------

  function DigitChar(d: nat): (c: char)
    requires d < 10
    ensures IsRadixDigit(c, 10) && DigitValue(c) == d
  {
    ('0' as int + d) as char
  }

  /** The decimal numeral of `n`, without leading zeros. */
  function DecimalString(n: nat): (s: string)
    ensures |s| >= 1
    ensures forall k :: 0 <= k < |s| ==> IsRadixDigit(s[k], 10)
    ensures s[0] == '0' ==> n == 0 && |s| == 1
    decreases n
  {
    if n < 10 then [DigitChar(n)] else DecimalString(n / 10) + [DigitChar(n % 10)]
  }

  lemma {:induction false} DecimalStringValue(n: nat)
    ensures DigitsValue(DecimalString(n), 10) == n
    decreases n
  {
    if n >= 10 {
      DecimalStringValue(n / 10);
      var s := DecimalString(n);
      assert s[..|s| - 1] == DecimalString(n / 10);
    }
  }

  /** Reading back a decimal numeral gives the number: `parseInt(String(n)) === n`. */
  lemma ParseIntDecimal(n: nat)
    ensures ParseInt(DecimalString(n)) == Some(n)
  {
    var s := DecimalString(n);
    assert !IsJsWhitespace(s[0]);
    assert SkipWhitespace(s, 0) == 0;
    assert DigitRunEnd(s, 0, 10) == |s|;
    assert s[0..|s|] == s;
    DecimalStringValue(n);
  }

  /** The same for a negative numeral: `parseInt('-' + String(n)) === -n`. */
  lemma ParseIntNegatedDecimal(n: nat)
    ensures ParseInt("-" + DecimalString(n)) == Some(-(n as int))
  {
    var d := DecimalString(n);
    var s := "-" + d;
    assert s[1..] == d;
    assert !IsJsWhitespace(s[0]);
    assert SkipWhitespace(s, 0) == 0;
    assert forall k :: 1 <= k < |s| ==> s[k] == d[k - 1];
    assert DigitRunEnd(s, 1, 10) == |s|;
    assert s[1..|s|] == d;
    DecimalStringValue(n);
  }

  // ---------- the three parameters ----------

  /** What `parseInt` makes of the raw `max`; an absent parameter reaches it as the string "null". */
  function ParsedMax(raw: Option<string>): (n: Option<int>)
    ensures raw.None? ==> n.None?
    ensures raw == Some("") ==> n.None?
  {
    ParseInt(if raw.Some? then raw.value else "null")
  }

  /**
   * The cap: NaN and zero fall back to 60 (the `|| 60`), then the value is
   * clamped into [1, 60].
   */
  function MaxImages(raw: Option<string>): (n: nat)
    ensures 1 <= n <= 60
    ensures ParsedMax(raw).None? || ParsedMax(raw) == Some(0) ==> n == 60
    ensures ParsedMax(raw).Some? && ParsedMax(raw).value < 0 ==> n == 1
    ensures ParsedMax(raw).Some? && 1 <= ParsedMax(raw).value <= 60 ==> n == ParsedMax(raw).value
    ensures ParsedMax(raw).Some? && ParsedMax(raw).value > 60 ==> n == 60
  {
    var parsed := ParsedMax(raw);
    var v := if parsed.None? || parsed.value == 0 then 60 else parsed.value;
    Min(if v < 1 then 1 else v, 60)
  }

  /** A cap written in decimal inside [1, 60] is taken as it is. */
  lemma MaxImagesRoundTrip(n: nat)
    requires 1 <= n <= 60
    ensures MaxImages(Some(DecimalString(n))) == n
  {
    ParseIntDecimal(n);
  }

  /** An absent, empty or non-numeric `max`, and `max=0`, all give 60. */
  lemma MaxImagesDefaults()
    ensures MaxImages(None) == 60
    ensures MaxImages(Some("")) == 60
    ensures MaxImages(Some("abc")) == 60
    ensures MaxImages(Some("0")) == 60
  {
    assert ParseInt("null").None? by {
      var s := "null";
      assert !IsJsWhitespace(s[0]) && !IsRadixDigit(s[0], 10);
      assert SkipWhitespace(s, 0) == 0;
      assert DigitRunEnd(s, 0, 10) == 0;
    }
    assert ParseInt("abc").None? by {
      var t := "abc";
      assert !IsJsWhitespace(t[0]) && !IsRadixDigit(t[0], 10);
      assert SkipWhitespace(t, 0) == 0;
      assert DigitRunEnd(t, 0, 10) == 0;
    }
    assert ParseInt("0") == Some(0) by {
      assert DecimalString(0) == "0";
      ParseIntDecimal(0);
    }
  }

  /** A negative `max` gives 1, and one above 60 gives 60. */
  lemma MaxImagesClamps(n: nat)
    ensures n > 0 ==> MaxImages(Some("-" + DecimalString(n))) == 1
    ensures n > 60 ==> MaxImages(Some(DecimalString(n))) == 60
  {
    ParseIntNegatedDecimal(n);
    ParseIntDecimal(n);
  }

  datatype ParseMethod = Html | Json

  function AsciiLower(c: char): char
  {
    if 'A' <= c <= 'Z' then (c as int + 32) as char else c
  }

  /** `toLowerCase`, on the ASCII letters. */
  function LowerCase(s: string): (r: string)
    ensures |r| == |s|
    ensures forall i :: 0 <= i < |r| ==> !('A' <= r[i] <= 'Z')
    ensures forall i :: 0 <= i < |s| && !('A' <= s[i] <= 'Z') ==> r[i] == s[i]
  {
    seq(|s|, i requires 0 <= i < |s| => AsciiLower(s[i]))
  }

  /** `method` selects the HTML strategy when it lower-cases to "html", and JSON otherwise, absent included. */
  function ParseMethodOf(raw: Option<string>): (m: ParseMethod)
    ensures raw.None? ==> m == Json
    ensures m == Html ==> raw.Some? && |raw.value| == 4
    ensures raw == Some("html") || raw == Some("HTML") || raw == Some("Html") ==> m == Html
  {
    if raw.Some? && LowerCase(raw.value) == "html" then Html else Json
  }

  /** The HTML strategy is chosen exactly for the sixteen spellings of "html" in any mix of cases. */
  lemma ParseMethodHtmlIff(m: string)
    ensures ParseMethodOf(Some(m)) == Html
        <==> |m| == 4 && forall i :: 0 <= i < 4 ==> m[i] == "html"[i] || m[i] == "HTML"[i]
    ensures ParseMethodOf(None) == Json
  {
    if |m| == 4 {
      forall i | 0 <= i < 4
        ensures LowerCase(m)[i] == "html"[i] <==> m[i] == "html"[i] || m[i] == "HTML"[i]
      {
      }
      assert LowerCase(m) == "html" <==> forall i :: 0 <= i < 4 ==> LowerCase(m)[i] == "html"[i];
    }
  }

  /** The keyword guard: an absent or empty `q` is rejected before anything is fetched. */
  predicate MissingKeyword(q: Option<string>)
    ensures !MissingKeyword(q) ==> q.Some? && |q.value| >= 1
    ensures q == Some("") ==> MissingKeyword(q)
  {
    q.None? || q.value == ""
  }
}
