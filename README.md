# Baidu/Bing image search worker — a Dafny model

This project models the request handler `worker.js`. For a search keyword it fetches
Baidu's and Bing's image-search result pages and scrapes each into a list of image
records `{ index, title, url, thumbURL }`. The reply is `{ code, message, time, data }`.

The model covers:

- **Query parameters.** `max` is normalised with `parseInt(...) || 60`, clamped to
  [1, 60]. `method` selects the Baidu strategy, case-insensitively.
- **Keyword guard.** An absent or empty `q` is answered 422 with `data: null`, before
  anything is fetched.
- **Baidu HTML strategy.** Three global regexes pick out `fromPageTitle`, `objURL` and
  `thumbURL` values. They are paired by position, driven by the `objURL` list and cut
  at the cap. Titles and thumbnails fall back to `null`.
- **Baidu JSON strategy.** The lazy `flip.setData('imgData', {...});` match is parsed,
  and the first `maxImages` elements of its `data` array are mapped to records. A
  falsy field becomes `''`. Any failure on the way gives `[]`.
- **Bing strategy.** A global `class="iusc" ... m="..."` search. Each value goes
  through the three replacements in their fixed order, then `JSON.parse`. Only payloads
  with truthy `murl` and `turl` are kept. Numbering happens after this filtering, and
  the search stops at the cap.
- **Assembly.** Each engine's list depends only on that engine's own fetched body. A
  body that is `null` or empty gives `[]`.

Every regex is modelled as its own scanner: leftmost match, with greedy or lazy
repetition as JavaScript does it. A global search resumes at the end of the previous
match. JavaScript values that reach the output are a `JsValue` datatype, together
with JavaScript truthiness, property reads and `||`.

`JSON.parse` is the function parameter `parse` (`None` is a thrown `SyntaxError`). The
network is the function parameter `fetch` (`None` is the `null` that
`fetchHtmlContent` returns on failure). The handler returns the list of engines it
fetched, so that "nothing is fetched" can be stated.

The two loops of the source are `while` loops in methods, each proved equal to a
specification function:

- the `forEach` that pushes Baidu HTML records;
- the Bing `exec` loop with its `lastIndex` and `index`.

The properties are proved as lemmas about those specification functions.

A request with `max=0` gets the default cap, not the smallest one: `parseInt('0') || 60`
turns 0 into 60 before the clamp (`Params.MaxImages`, `Params.MaxImagesDefaults`).

## Model

| member | source | states |
|---|---|---|
| Params.MaxImages | worker.js:18 | The cap lies in [1, 60]. An unparsable, absent or zero `max` gives 60, a negative one gives 1, one in [1, 60] is kept, and a larger one gives 60. |
| Params.MaxImagesRoundTrip | worker.js:18 | A cap written in decimal within [1, 60] is taken as it is. |
| Params.MaxImagesDefaults | worker.js:18 | Absent, `""`, `"abc"` and `"0"` give 60. |
| Params.MaxImagesClamps | worker.js:18 | `"-n"` with n > 0 gives 1, and a decimal n > 60 gives 60. |
| Params.ParseIntDecimal | worker.js:18 | `parseInt` of a decimal numeral gives its value back. |
| Params.ParseIntNegatedDecimal | worker.js:18 | `parseInt` of `-` followed by a decimal numeral gives the negated value. |
| Params.DecimalStringValue | worker.js:18 | The decimal numeral of n consists of digits whose value is n. |
| Params.ParseInt | worker.js:18 | `parseInt` without a radix: a string with no decimal digit at all is NaN, and a negative result needs a `-` in the string. |
| Params.ParsedMax | worker.js:18 | What `parseInt` makes of the raw `max`: an absent parameter (read as the string `"null"`) and an empty one both give NaN. |
| Params.ParseMethodOf | worker.js:19 | An absent `method` selects JSON. HTML is selected only for a four-character value, and for `html`, `HTML` and `Html`. |
| Params.LowerCase | worker.js:19 | `toLowerCase` keeps the length, leaves no upper-case ASCII letter, and keeps every character that is not one. |
| Params.ParseMethodHtmlIff | worker.js:19 | The HTML strategy is chosen exactly when `method` is `html` spelled in any mix of cases. Everything else, including an absent `method`, chooses JSON. |
| Params.MissingKeyword | worker.js:22 | A keyword that passes the guard is present and at least one character long; an empty `q` is rejected. |
| Text.Split | worker.js:143-145 | `split` always yields at least one piece. |
| Text.SplitCount | worker.js:143-145 | `split` yields one piece more than there are separators in the text. |
| Text.SplitJoin | worker.js:143-145 | `split` loses nothing: joining the parts with the separator gives the string back, and no part contains the separator. |
| Text.SplitAfterPiece | worker.js:143-145 | Splitting a separator-free piece followed by the separator yields that piece, then the split of the rest. |
| Text.SplitWhole | worker.js:143-145 | A string without the separator splits into itself alone. |
| BaiduImages.FieldAt | worker.js:138-140 | The attribute pattern tried at one position: it returns a match exactly when the pattern matches there, and then that match. |
| BaiduImages.FieldMatches | worker.js:138-140 | A global match returns only matches of the field pattern, at or after the start, in document order and without overlap. |
| BaiduImages.FieldMatchesFirst | worker.js:138-140 | No match is skipped at the front: nothing matches between the start and the first match, or anywhere when there is no match. |
| BaiduImages.FieldMatchesResume | worker.js:138-140 | Resuming the search at the end of each match yields exactly the matches after it. With `FieldMatchesFirst`, every match is the leftmost one after its predecessor. |
| BaiduImages.MatchAll | worker.js:138-140 | The global `match`, or `[]` when nothing matches, gives one text per match, and each is the field head, the captured value and the closing quote. |
| BaiduImages.Captures | worker.js:138-140 | One captured value per match text: the text without its field head and closing quote. |
| BaiduImages.CaptureAt | worker.js:138-140 | There is one capture per match. Each capture is non-empty and free of `"`. `objURL` and `thumbURL` captures start with `http://` or `https://` followed by at least one character. |
| BaiduImages.MatchTextSplit | worker.js:143-145 | Splitting a matched text on `"` gives five parts, and part 3 is the captured value. |
| BaiduImages.WholeFieldText | worker.js:138-140 | The text of a match is the field head, the captured value and the closing quote. |
| BaiduImages.SplitFieldText | worker.js:143-145 | Such a text, with a quote-free key and value, splits on `"` into `["", key, ":", value, ""]`. |
| BaiduImages.QuotedValueOrNull | worker.js:143-145 | Part 3 of the i-th match split on `"`, falling back to `null`, is `null` past the end of the list, and otherwise `null` or a non-empty string free of `"`. |
| BaiduImages.QuotedValueIsCapture | worker.js:143-145 | Taking part 3 of the i-th match split on `"`, or `null` when there is no i-th match, gives the i-th captured value, or `null` past the end of the list. |
| BaiduImages.PairByPosition | worker.js:142-147 | The zip of the three lists gives at most `maxImages` records and at most one per `objURL` match, numbered consecutively from the start number. |
| BaiduImages.PairByPositionAt | worker.js:142-147 | Pairing gives `min(#objURL, maxImages)` records. Record i takes the i-th value of each of the three lists. |
| BaiduImages.BaiduHtmlRecords | worker.js:135-154 | The HTML result has at most `maxImages` records, at most one per `objURL` match, numbered from 1. |
| BaiduImages.BaiduHtmlRecordsShape | worker.js:135-154 | The HTML result has `min(#objURL, maxImages)` records, numbered 1..n. Each url is the i-th `objURL` value with an http(s) scheme. Title and thumbnail are the i-th values, or `null`. |
| BaiduImages.ExtractFromHtml | worker.js:135-154 | The `forEach`/`push` loop returns exactly the positional pairing of the three global-match lists. |
| BaiduImages.LazyClose | worker.js:164 | The lazy `\{.*?\}\s*\);` stops at the first `}` that closes the call, with no line terminator before it. When it fails, every `}` that would close the call has a line terminator before it. |
| BaiduImages.LazyCloseAt | worker.js:164 | Whenever there is a first `}` that closes the call with no line terminator before it, the lazy `.*?\}` stops exactly there. |
| BaiduImages.SetDataBuilt | worker.js:164 | The match the scanner builds from the head and the lazy close satisfies the pattern `flip.setData\('imgData',\s*(\{.*?\})\s*\);`. |
| BaiduImages.SetDataAt | worker.js:164 | Anything returned at p is a match of the pattern there whose group starts with `{` and ends with `}`. |
| BaiduImages.SetDataAtComplete | worker.js:164 | Wherever the pattern matches, the scanner returns exactly that match, so the two directions together say the scanner is the pattern. |
| BaiduImages.FindSetDataFinds | worker.js:164-165 | `match` fails only when the pattern matches nowhere at or after the start; otherwise it finds a match no later than any given one. |
| BaiduImages.SetDataFoundAt | worker.js:164-165 | For a body with no `}` and no line break, `flip.setData('imgData',{b});` matches at 0 with group `{b}`. |
| BaiduImages.FindSetData | worker.js:164-165 | `match` finds the leftmost occurrence: no earlier position matches. |
| BaiduImages.ExtractFromJson | worker.js:162-179 | The JSON result has at most `maxImages` records, numbered 1..n. |
| BaiduImages.ItemRecord | worker.js:169-174 | A record carries the given index. Each of its fields is the element's value when that is truthy, and `''` exactly when it is absent or falsy. |
| BaiduImages.RecordsFromImgData | worker.js:168-177 | The result has at most `maxImages` records, numbered from 1. When `data` is missing or not an array it is `[]`. When `data` is an array: with no `null` among the first `maxImages` elements there are exactly `min(#data, maxImages)` records; with a `null` among them the mapping throws and the result is `[]`. Record k is the record of element k. |
| BaiduImages.JsonRecordsFromData | worker.js:168-174 | When the object parses (whatever other keys it has) and its `data` array has no `null` in the taken prefix, there are `min(#data, maxImages)` records. Each field is the element's value when that is truthy, and `''` exactly when it is absent or falsy. |
| BaiduImages.JsonNonEmptyOnlyIfParsed | worker.js:164-177 | A non-empty result implies that the call was found, its object parsed, `data` is an array, and none of its first `maxImages` elements is `null`. Every failure, a `null` element included, gives `[]`. |
| BaiduImages.JsonCapsAtTwoOfThree | worker.js:169 | With three entries and a cap of 2, `slice` keeps exactly the first two, numbered 1 and 2. |
| BaiduImages.BaiduRecords | worker.js:123-127 | Under `HTML` every url is a string with an http(s) scheme. Under `JSON`, a page without the `flip.setData` call gives `[]`. |
| BaiduImages.BaiduRecordsCapped | worker.js:123-127 | Whichever strategy is chosen, the Baidu list is capped and numbered from 1. |
| BaiduImages.GetBaiduImages | worker.js:123-127 | Dispatches to the HTML strategy for `HTML` and to the JSON strategy otherwise. |
| BingImages.ReplaceAll | worker.js:205-208 | A global replace of a literal pattern, left to right and without rescanning. A replacement no longer than its pattern never lengthens the text. |
| BingImages.ReplaceAllAbsent | worker.js:205-208 | A global replace leaves unchanged any text in which the pattern starts at no position. |
| BingImages.ReplaceAllWithoutFirstChar | worker.js:205-208 | In particular, text without the pattern's first character is unchanged. |
| BingImages.UnquoteAfterQuote | worker.js:205-206 | The first replacement inverts HTML quoting: writing every `"` as `&quot;` and then replacing `&quot;` by `"` gives back any text without `&`. |
| BingImages.DecodeAttribute | worker.js:205-208 | The three replacements in the source's order. The decoded value is never longer than the attribute value. |
| BingImages.DecodeAttributeIdentity | worker.js:205-208 | A value with neither `&` nor `\` reaches `JSON.parse` unchanged, and decoding never lengthens a value. |
| BingImages.DecodeOrderMatters | worker.js:205-208 | The source's order turns `\\u002f` into `\/`, whereas collapsing backslashes first would give `/`. |
| BingImages.AttrValueEnd | worker.js:200 | Returns the closing quote's position exactly when `m="([^"]+)"` matches at j: `m="`, a non-empty run free of `"`, then `"`. |
| BingImages.LazyAttr | worker.js:200 | The lazy `[^>]*?` takes the first attribute match and crosses no `>` to reach it. When it fails, every later attribute match lies beyond a `>`. |
| BingImages.LazyAttrAt | worker.js:200 | Whenever the attribute first matches at a with no `>` before it, the lazy `[^>]*?` stops exactly there. |
| BingImages.IuscAt | worker.js:200 | Anything returned at p is a match of `class="iusc"[^>]*?m="([^"]+)"` there, within the page, with a non-empty capture free of `"`. |
| BingImages.IuscAtComplete | worker.js:200 | Wherever the pattern matches, the scanner returns exactly that match, so the two directions together say the scanner is the pattern. |
| BingImages.NextIuscFinds | worker.js:200-204 | `exec` fails only when the pattern matches nowhere at or after `lastIndex`; otherwise it finds a match no later than any given one. |
| BingImages.IuscFoundAt | worker.js:200-204 | For a non-empty, quote-free v, `class="iusc" m="v"` matches at 0 with group v. |
| BingImages.NextIusc | worker.js:204 | `exec` from `lastIndex` finds the leftmost match at or after it. |
| BingImages.IuscCaptures | worker.js:204 | The values of successive `exec` calls. Each is non-empty and free of `"`, and the list is empty exactly when the first `exec` finds nothing. |
| BingImages.BingTitle | worker.js:214 | The title is always truthy: `t` if that is truthy, else `desc` if truthy, else `'Bing Image'`. |
| BingImages.MetaEntry | worker.js:210-218 | A parsed payload yields a record exactly when it is not `null` and both `murl` and `turl` are truthy. The record carries those values. |
| BingImages.BingEntry | worker.js:205-220 | A value that does not parse gives no record. A record that is given has a truthy url, thumbnail and title. |
| BingImages.BingEntryIff | worker.js:205-220 | A captured value yields a record exactly when it decodes and parses to such a payload. |
| BingImages.Entries | worker.js:204-222 | Surviving entries are never more than the matches, and each has a truthy url, thumbnail and title. |
| BingImages.EntriesAppend | worker.js:204-222 | Filtering distributes over concatenation of the match list. |
| BingImages.Numbered | worker.js:202-217 | Numbering after filtering: one record per surviving entry, numbered 1..n, carrying the entry's url and thumbnail truthiness. |
| BingImages.BingFromCaptures | worker.js:202-222 | The result has `min(#surviving, maxImages)` records, numbered 1..n without gaps, each with a truthy url, thumbnail and title. |
| BingImages.BingRecords | worker.js:197-229 | The Bing result has at most `maxImages` records and at most one per `iusc` match, numbered from 1, and is `[]` when the page has no match. |
| BingImages.SkipLeavesNoGap | worker.js:202-221 | A malformed block between two valid ones is skipped, and the valid ones become records 1 and 2. |
| BingImages.RecordsStep | worker.js:216-217 | One more match adds nothing, or exactly one record numbered one past those before it. |
| BingImages.CapturesAdvance | worker.js:204 | Each `exec` moves `lastIndex` strictly forward and consumes exactly one captured value. |
| BingImages.LoopExit | worker.js:204 | When the loop stops (no match left or the cap reached), the records pushed are the specification's result. |
| BingImages.ExtractFromBing | worker.js:197-229 | The `exec` loop with `lastIndex` and `index` returns exactly the first `maxImages` surviving records, numbered after filtering. |
| BingImages.GetBingImages | worker.js:187-189 | The Bing page always goes through the one Bing strategy. |
| Worker.HasBody | worker.js:50-51 | A fetched body is used exactly when it is truthy in JavaScript: neither `null` nor `''`. |
| Worker.AssembleResults | worker.js:46-58 | Each list is capped and numbered from 1. An engine whose body is `null` or `''` gets `[]`. |
| Worker.EngineIsolation | worker.js:46-51 | An engine's list does not depend on the other engine's fetch, and equals its own strategy's result. |
| Worker.Respond | worker.js:10-61 | Without a keyword: 422, the keyword-missing message, `data: null`, nothing fetched. Otherwise: Baidu and Bing fetched in that order, 200 `success`, the assembled data, and each list at most 60 long. |
| Worker.HandleIncomingRequest | worker.js:10-61 | The handler normalises the parameters, guards the keyword, fetches and extracts per engine, and returns exactly the reply and fetch trace of `Respond`. |

## Left out

- Network access: `fetchHtmlContent` (worker.js:97-114) with its headers and its `response.ok` check. It is the parameter `fetch`, and `None` stands for its `null` result.
- Concurrency: `Promise.allSettled`. `fetchHtmlContent` never rejects, so both results are always fulfilled, and the two fetches are modelled in sequence.
- `JSON.parse`: it is the parameter `parse`, not a model of the JSON grammar.
- URL building with `encodeURIComponent`: the fetch receives the keyword itself.
- The `OPTIONS` preflight answer (204), the response headers (`getResponseHeaders`) and the `Response` object: the model returns the JSON body as a `Reply` value.
- `time: Date.now()`: a clock reading. `Reply` has no time field.
- `console.error` logging.
- The 500 reply of the outer `catch` (worker.js:63-75). Each strategy catches its own errors and returns `[]`, and the model gives those paths their `[]`. Inside the `try` (worker.js:34-62) the keyword comes from `searchParams`, whose decoding replaces invalid sequences, so `encodeURIComponent` does not throw; `fetchHtmlContent` never rejects; and `JSON.stringify` gets plain JSON data. The 500 path is left to exceptions raised by the runtime itself, such as running out of memory, which the model does not represent.
- Character units: JavaScript strings are UTF-16 code units, while the model's strings are sequences of Unicode characters. Pages containing characters outside the Basic Multilingual Plane are not distinguished.
- Params.ParseMethodOf: `toLowerCase` is modelled on ASCII letters only. No non-ASCII character lower-cases to one of `h`, `t`, `m`, `l`, so the comparison with `html` is unaffected.
- Only the regexes the worker uses are modelled, each as a dedicated scanner; there is no general regular-expression engine.
