/**
 * The request handler of worker.js (`handleIncomingRequest`) for a GET request:
 * normalise the three query parameters, reject a missing keyword with 422 before
 * any fetch, otherwise fetch both engines and assemble one list per engine, each
 * extracted independently of the other.
 *
 * The network is the parameter `fetch`: `fetch(engine, keyword)` is the page body,
 * or `None` where `fetchHtmlContent` resolves to `null` (a network error or a
 * non-2xx status). `parse` stands for `JSON.parse`, as in the extractors.
 */
module Worker {
  import opened JsValues
  import opened Records
  import Params
  import BaiduImages
  import BingImages

  datatype Engine = Baidu | Bing

  /** The query string as the handler reads it: `q`, `max` and `method` (here `mode`), each absent or present. */
  datatype Query = Query(q: Option<string>, max: Option<string>, mode: Option<string>)

  /** The `data` object of a successful reply. */
  datatype SearchData = SearchData(baidu: seq<ImageRecord>, bing: seq<ImageRecord>)

  /** The JSON body of a reply, without its `time` stamp. */
  datatype Reply = Reply(code: int, message: string, data: Option<SearchData>)

  const MissingKeywordReply := Reply(422, "缺少必填参数", None)

  /** A fetched body is used only when it is a non-empty string; `null` and `''` give an empty list. */
  predicate HasBody(html: Option<string>)
    ensures HasBody(html) <==> Truthy(if html.Some? then JStr(html.value) else JNull)
  {
    html.Some? && html.value != ""
  }

  /**
   * The `data` object: each engine's list comes from its own body alone. Each list
   * is capped at `maxImages` and numbered from 1, and an engine without a body
   * contributes the empty list.
   */
  function AssembleResults(baiduHtml: Option<string>, bingHtml: Option<string>, parseMethod: Params.ParseMethod,
                           maxImages: nat, parse: string -> Option<JsValue>): (d: SearchData)
    ensures |d.baidu| <= maxImages && IndexedFromOne(d.baidu)
    ensures |d.bing| <= maxImages && IndexedFromOne(d.bing)
    ensures !HasBody(baiduHtml) ==> d.baidu == []
    ensures !HasBody(bingHtml) ==> d.bing == []
  {
    var baiduImageUrls :=
      if HasBody(baiduHtml) then
        BaiduImages.BaiduRecordsCapped(baiduHtml.value, parseMethod, maxImages, parse);
        BaiduImages.BaiduRecords(baiduHtml.value, parseMethod, maxImages, parse)
      else [];
    var bingImageUrls :=
      if HasBody(bingHtml) then BingImages.BingRecords(bingHtml.value, maxImages, parse) else [];
    SearchData(baiduImageUrls, bingImageUrls)
  }

  /**
   * Per-engine isolation: whatever happens to the other engine's fetch, an
   * engine's list is the one its own body yields.
   */
  lemma EngineIsolation(baiduHtml: Option<string>, bingHtml: Option<string>, otherBaidu: Option<string>,
                        otherBing: Option<string>, parseMethod: Params.ParseMethod, maxImages: nat,
                        parse: string -> Option<JsValue>)
    ensures AssembleResults(baiduHtml, bingHtml, parseMethod, maxImages, parse).baidu
         == AssembleResults(baiduHtml, otherBing, parseMethod, maxImages, parse).baidu
    ensures AssembleResults(baiduHtml, bingHtml, parseMethod, maxImages, parse).bing
         == AssembleResults(otherBaidu, bingHtml, parseMethod, maxImages, parse).bing
    ensures HasBody(baiduHtml) ==>
      AssembleResults(baiduHtml, bingHtml, parseMethod, maxImages, parse).baidu
        == BaiduImages.BaiduRecords(baiduHtml.value, parseMethod, maxImages, parse)
    ensures HasBody(bingHtml) ==>
      AssembleResults(baiduHtml, bingHtml, parseMethod, maxImages, parse).bing
        == BingImages.BingRecords(bingHtml.value, maxImages, parse)
  {
  }

  /**
   * The reply and the engines fetched, in order. A request without a keyword is
   * answered 422 with `data: null` and fetches nothing; any other request fetches
   * Baidu and Bing with the keyword and is answered 200 with both lists, each at
   * most the normalised cap (itself at most 60) and numbered from 1.
   */
  function Respond(query: Query, fetch: (Engine, string) -> Option<string>, parse: string -> Option<JsValue>)
    : (r: (Reply, seq<Engine>))
    ensures Params.MissingKeyword(query.q) ==> r.0 == MissingKeywordReply && r.1 == []
    ensures !Params.MissingKeyword(query.q) ==> r.1 == [Baidu, Bing] && r.0.code == 200 && r.0.message == "success"
    ensures !Params.MissingKeyword(query.q) ==> r.0.data == Some(AssembleResults(
      fetch(Baidu, query.q.value), fetch(Bing, query.q.value),
      Params.ParseMethodOf(query.mode), Params.MaxImages(query.max), parse))
    ensures r.0.data.Some? ==> |r.0.data.value.baidu| <= 60 && |r.0.data.value.bing| <= 60
  {
    var maxImages := Params.MaxImages(query.max);
    var parseMethod := Params.ParseMethodOf(query.mode);
    if Params.MissingKeyword(query.q) then (MissingKeywordReply, [])
    else
      var baiduHtml := fetch(Baidu, query.q.value);
      var bingHtml := fetch(Bing, query.q.value);
      (Reply(200, "success", Some(AssembleResults(baiduHtml, bingHtml, parseMethod, maxImages, parse))), [Baidu, Bing])
  }

  /**
   * `handleIncomingRequest` for a GET: the parameters are normalised first, the
   * keyword guard runs before any fetch, and each engine's body goes through its
   * own extractor.
   */
  method HandleIncomingRequest(query: Query, fetch: (Engine, string) -> Option<string>, parse: string -> Option<JsValue>)
    returns (reply: Reply, fetched: seq<Engine>)
    ensures (reply, fetched) == Respond(query, fetch, parse)
  {
    var maxImages := Params.MaxImages(query.max);
    var parseMethod := Params.ParseMethodOf(query.mode);
    if Params.MissingKeyword(query.q) {
      return MissingKeywordReply, [];
    }
    var searchKeyword := query.q.value;
    fetched := [];
    var baiduHtml := fetch(Baidu, searchKeyword);
    fetched := fetched + [Baidu];
    var bingHtml := fetch(Bing, searchKeyword);
    fetched := fetched + [Bing];
    assert fetched == [Baidu, Bing];
    var baiduImageUrls: seq<ImageRecord> := [];
    if HasBody(baiduHtml) {
      baiduImageUrls := BaiduImages.GetBaiduImages(baiduHtml.value, parseMethod, maxImages, parse);
    }
    var bingImageUrls: seq<ImageRecord> := [];
    if HasBody(bingHtml) {
      bingImageUrls := BingImages.GetBingImages(bingHtml.value, maxImages, parse);
    }
    reply := Reply(200, "success", Some(SearchData(baiduImageUrls, bingImageUrls)));
  }
}
