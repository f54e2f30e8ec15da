/**
 * The data path of `QueryUtils`: the outcome of the HTTP request, and the
 * extraction of `UKNews` records from the JSON text of the Guardian API
 * response `{"response": {"results": [ {...}, ... ]}}`.
 */
module QueryUtils {
  import opened Optional
  import opened Json
  import opened News
  import opened DateFormat
  import opened StreamText

  /**
   * What `new JSONObject(text)` reads from `text`: its document tree, or None
   * where the tokeniser throws a JSONException. The tokeniser is library code.
   */
  type Tokeniser = string -> Option<Json>

  // ---------------------------------------------------------------- extraction

  /** The `results` array inside the `response` object of the document, where both exist. */
  function ResponseResults(document: Option<Json>): (r: Option<seq<Json>>)
    ensures r.Some? <==>
      && document.Some? && document.value.JObject?
      && "response" in document.value.members
      && document.value.members["response"].JObject?
      && "results" in document.value.members["response"].members
      && document.value.members["response"].members["results"].JArray?
    ensures r.Some? ==> r.value == document.value.members["response"].members["results"].elements
  {
    if document.None? || !document.value.JObject? then None
    else
      match GetObject(document.value.members, "response")
      case None => None
      case Some(response) => GetArray(response, "results")
  }

  /** An element that yields a record: an object with string values under the four keys read. */
  predicate WellFormedElement(element: Json)
  {
    && element.JObject?
    && "webTitle" in element.members && element.members["webTitle"].JString?
    && "sectionName" in element.members && element.members["sectionName"].JString?
    && "webPublicationDate" in element.members && element.members["webPublicationDate"].JString?
    && "webUrl" in element.members && element.members["webUrl"].JString?
  }

  /**
   * One element of `results` turned into a record, with its publication date
   * reformatted; None where `getJSONObject(i)` or a `getString` would throw.
   */
  function ToNews(element: Json, months: MonthNames): (r: Option<UKNews>)
    ensures r.Some? <==> WellFormedElement(element)
    ensures r.Some? ==>
      && r.value.title == element.members["webTitle"].text
      && r.value.sectionName == element.members["sectionName"].text
      && r.value.date == FormatDate(element.members["webPublicationDate"].text, months)
      && r.value.url == element.members["webUrl"].text
  {
    if !element.JObject? then None
    else
      var fields := element.members;
      var title := GetString(fields, "webTitle");
      var sectionName := GetString(fields, "sectionName");
      var date := GetString(fields, "webPublicationDate");
      var url := GetString(fields, "webUrl");
      if title.None? || sectionName.None? || date.None? || url.None? then None
      else Some(UKNews(title.value, sectionName.value, FormatDate(date.value, months), url.value))
  }

  /**
   * The records the loop over `results` has collected when it stops: one per
   * element, in order, up to the first element that throws.
   */
  function Harvest(items: seq<Json>, months: MonthNames): (news: seq<UKNews>)
    ensures |news| <= |items|
    ensures forall i :: 0 <= i < |news| ==> ToNews(items[i], months) == Some(news[i])
    ensures |news| < |items| ==> ToNews(items[|news|], months).None?
  {
    if items == [] then []
    else
      match ToNews(items[0], months)
      case None => []
      case Some(n) =>
        var rest := Harvest(items[1..], months);
        HarvestStep(items, n, rest, months);
        [n] + rest
  }

  /** A record for the first element, in front of the records of the others, is a record for every element. */
  lemma HarvestStep(items: seq<Json>, n: UKNews, rest: seq<UKNews>, months: MonthNames)
    requires items != [] && ToNews(items[0], months) == Some(n)
    requires |rest| <= |items[1..]|
    requires forall i :: 0 <= i < |rest| ==> ToNews(items[1..][i], months) == Some(rest[i])
    requires |rest| < |items[1..]| ==> ToNews(items[1..][|rest|], months).None?
    ensures |[n] + rest| <= |items|
    ensures forall i :: 0 <= i < |[n] + rest| ==> ToNews(items[i], months) == Some(([n] + rest)[i])
    ensures |[n] + rest| < |items| ==> ToNews(items[|[n] + rest|], months).None?
  {
    forall i | 0 <= i < |[n] + rest| ensures ToNews(items[i], months) == Some(([n] + rest)[i]) {
      if i > 0 {
        assert items[i] == items[1..][i - 1];
      }
    }
    if |rest| < |items[1..]| {
      assert items[|rest| + 1] == items[1..][|rest|];
    }
  }

  /** The three facts Harvest ensures determine its result. */
  lemma HarvestUnique(items: seq<Json>, news: seq<UKNews>, months: MonthNames)
    requires |news| <= |items|
    requires forall i :: 0 <= i < |news| ==> ToNews(items[i], months) == Some(news[i])
    requires |news| < |items| ==> ToNews(items[|news|], months).None?
    ensures news == Harvest(items, months)
  {
    var h := Harvest(items, months);
    assert |news| == |h|;
    forall i | 0 <= i < |news| ensures news[i] == h[i] {
      assert ToNews(items[i], months) == Some(h[i]);
    }
  }

  /**
   * `extractFeatureFromJson(newsJSON)` as its outcome: None (null) for null or
   * empty text; an empty list when the document is not an object holding a
   * `response` object holding a `results` array; otherwise the records
   * collected before the first element that throws.
   */
  function Extraction(newsJson: Option<string>, tokenise: Tokeniser, months: MonthNames): Option<seq<UKNews>>
  {
    if newsJson.None? || newsJson.value == "" then None
    else
      match ResponseResults(tokenise(newsJson.value))
      case None => Some([])
      case Some(items) => Some(Harvest(items, months))
  }

  /**
   * The body of the loop for one element of `results`: `getJSONObject(i)`,
   * then the four `getString` calls in the order the source makes them; None
   * where one of them throws.
   */
  method ReadRecord(result: Json, months: MonthNames) returns (record: Option<UKNews>)
    ensures record == ToNews(result, months)
  {
    if !result.JObject? { return None; }
    var title := GetString(result.members, "webTitle");
    if title.None? { return None; }
    var sectionName := GetString(result.members, "sectionName");
    if sectionName.None? { return None; }
    var date := GetString(result.members, "webPublicationDate");
    if date.None? { return None; }
    var formatted := FormatDate(date.value, months);
    var url := GetString(result.members, "webUrl");
    if url.None? { return None; }
    return Some(UKNews(title.value, sectionName.value, formatted, url.value));
  }

  /**
   * The `for` loop of `extractFeatureFromJson` over the `results` array: one
   * record appended per element, until an element throws and the `catch`
   * ends the loop with the records appended so far.
   */
  method CollectRecords(items: seq<Json>, months: MonthNames) returns (newsArrayList: seq<UKNews>)
    ensures newsArrayList == Harvest(items, months)
  {
    newsArrayList := [];
    var i := 0;
    while i < |items|
      invariant 0 <= i <= |items|
      invariant |newsArrayList| == i
      invariant forall j :: 0 <= j < i ==> ToNews(items[j], months) == Some(newsArrayList[j])
    {
      var record := ReadRecord(items[i], months);
      if record.None? { break; }
      newsArrayList := newsArrayList + [record.value];
      i := i + 1;
    }
    HarvestUnique(items, newsArrayList, months);
  }

  /** `extractFeatureFromJson(newsJSON)`: null for empty text, else the records of the `results` array, if any. */
  method ExtractFeatureFromJson(newsJson: Option<string>, tokenise: Tokeniser, months: MonthNames)
    returns (news: Option<seq<UKNews>>)
    ensures news == Extraction(newsJson, tokenise, months)
  {
    if newsJson.None? || |newsJson.value| == 0 {
      return None;
    }
    var newsArrayList: seq<UKNews> := [];
    var newsArray := ResponseResults(tokenise(newsJson.value));
    if newsArray.Some? {
      newsArrayList := CollectRecords(newsArray.value, months);
    }
    return Some(newsArrayList);
  }

  // ---------------------------------------------------------------- extraction properties

  /** Null is returned exactly for null or empty text, never for a document that fails to parse. */
  lemma ExtractionNullIffEmptyText(newsJson: Option<string>, tokenise: Tokeniser, months: MonthNames)
    ensures Extraction(newsJson, tokenise, months).None? <==> newsJson.None? || newsJson.value == ""
  {
  }

  /** A document of the wrong shape, or text that does not tokenise, gives a non-null empty list. */
  lemma ExtractionEmptyOnWrongShape(text: string, tokenise: Tokeniser, months: MonthNames)
    requires text != ""
    requires var d := tokenise(text);
      || d.None? || !d.value.JObject?
      || "response" !in d.value.members || !d.value.members["response"].JObject?
      || "results" !in d.value.members["response"].members
      || !d.value.members["response"].members["results"].JArray?
    ensures Extraction(Some(text), tokenise, months) == Some([])
  {
  }

  /** The document carries the array `items` under `response` / `results`. */
  predicate CarriesResults(document: Option<Json>, items: seq<Json>)
  {
    && document.Some? && document.value.JObject?
    && "response" in document.value.members
    && document.value.members["response"].JObject?
    && "results" in document.value.members["response"].members
    && document.value.members["response"].members["results"] == JArray(items)
  }

  /** Only well-formed elements: nothing stops the loop before the end of `items`. */
  lemma HarvestAllWellFormed(items: seq<Json>, months: MonthNames)
    requires forall i :: 0 <= i < |items| ==> WellFormedElement(items[i])
    ensures |Harvest(items, months)| == |items|
  {
  }

  /** The whole element-wise mapping: the record of element i is at position i, for every i. */
  lemma ExtractionAllWellFormed(text: string, tokenise: Tokeniser, months: MonthNames, items: seq<Json>)
    requires text != "" && CarriesResults(tokenise(text), items)
    requires forall i :: 0 <= i < |items| ==> WellFormedElement(items[i])
    ensures Extraction(Some(text), tokenise, months).Some?
    ensures |Extraction(Some(text), tokenise, months).value| == |items|
    ensures forall i :: 0 <= i < |items| ==>
      Extraction(Some(text), tokenise, months).value[i] ==
        UKNews(items[i].members["webTitle"].text,
               items[i].members["sectionName"].text,
               FormatDate(items[i].members["webPublicationDate"].text, months),
               items[i].members["webUrl"].text)
  {
    var news := Harvest(items, months);
    HarvestAllWellFormed(items, months);
    forall i | 0 <= i < |items|
      ensures news[i] == UKNews(items[i].members["webTitle"].text,
                                items[i].members["sectionName"].text,
                                FormatDate(items[i].members["webPublicationDate"].text, months),
                                items[i].members["webUrl"].text)
    {
      assert ToNews(items[i], months) == Some(news[i]);
    }
  }

  /**
   * A malformed element at index k, after k good ones, ends the loop: the
   * result is the list of the first k records, not an error and not empty.
   */
  lemma ExtractionStopsAtMalformed(text: string, tokenise: Tokeniser, months: MonthNames, items: seq<Json>, k: nat)
    requires text != "" && CarriesResults(tokenise(text), items)
    requires k < |items|
    requires forall i :: 0 <= i < k ==> WellFormedElement(items[i])
    requires !WellFormedElement(items[k])
    ensures Extraction(Some(text), tokenise, months) == Some(Harvest(items[..k], months))
    ensures |Harvest(items[..k], months)| == k
  {
    assert ResponseResults(tokenise(text)) == Some(items);
    HarvestStopsAt(items, k, months);
  }

  /** The loop over `items` ends at the first malformed element, k, with the records of the k before it. */
  lemma HarvestStopsAt(items: seq<Json>, k: nat, months: MonthNames)
    requires k < |items|
    requires forall i :: 0 <= i < k ==> WellFormedElement(items[i])
    requires !WellFormedElement(items[k])
    ensures Harvest(items, months) == Harvest(items[..k], months)
    ensures |Harvest(items[..k], months)| == k
  {
    var news := Harvest(items[..k], months);
    HarvestAllWellFormed(items[..k], months);
    forall i | 0 <= i < k ensures ToNews(items[i], months) == Some(news[i]) {
      assert items[i] == items[..k][i];
    }
    assert ToNews(items[k], months).None?;
    HarvestUnique(items, news, months);
  }

  /** Whatever `results` holds, the list is a prefix of the element-wise mapping and no longer than it. */
  lemma ExtractionIsPrefix(text: string, tokenise: Tokeniser, months: MonthNames, items: seq<Json>)
    requires text != "" && CarriesResults(tokenise(text), items)
    ensures Extraction(Some(text), tokenise, months).Some?
    ensures |Extraction(Some(text), tokenise, months).value| <= |items|
    ensures forall i :: 0 <= i < |Extraction(Some(text), tokenise, months).value| ==>
      ToNews(items[i], months) == Some(Extraction(Some(text), tokenise, months).value[i])
  {
  }

  /** Elements after the first malformed one never reach the list. */
  lemma HarvestIgnoresRestAfterFailure(items: seq<Json>, rest: seq<Json>, months: MonthNames)
    requires |Harvest(items, months)| < |items|
    ensures Harvest(items + rest, months) == Harvest(items, months)
  {
    var h := Harvest(items, months);
    var all := items + rest;
    assert forall i :: 0 <= i < |items| ==> all[i] == items[i];
    HarvestUnique(all, h, months);
  }

  /** When every element of `items` is well formed, the elements after them are collected on their own. */
  lemma HarvestAppend(items: seq<Json>, rest: seq<Json>, months: MonthNames)
    requires |Harvest(items, months)| == |items|
    ensures Harvest(items + rest, months) == Harvest(items, months) + Harvest(rest, months)
  {
    var h := Harvest(items, months) + Harvest(rest, months);
    var all := items + rest;
    forall i | 0 <= i < |h| ensures ToNews(all[i], months) == Some(h[i]) {
      if i >= |items| {
        assert all[i] == rest[i - |items|];
      }
    }
    if |h| < |all| {
      assert all[|h|] == rest[|Harvest(rest, months)|];
    }
    HarvestUnique(all, h, months);
  }

  // ---------------------------------------------------------------- the request

  /**
   * What happened on the connection once the URL existed. ConnectFailed: an
   * IOException from opening, connecting or reading the status. Responded:
   * the status code, the response stream (None for a null stream), whether
   * reading it throws, and whether closing it throws.
   */
  datatype Connection =
    | ConnectFailed
    | Responded(code: int, body: Option<seq<char>>, readFails: bool, closeFails: bool)

  /**
   * `makeHttpRequest(url)`: Some(text) for the string it returns, None where
   * an IOException escapes from it (only the `close` in its `finally` can).
   */
  function MakeHttpRequest(url: Option<string>, connection: Connection): (r: Option<string>)
    ensures r.None? <==>
      url.Some? && connection.Responded? && connection.code == 200 &&
      connection.body.Some? && connection.closeFails
    ensures r.Some? && r.value != "" ==>
      && url.Some? && connection.Responded? && connection.code == 200
      && !connection.readFails && !connection.closeFails
      && r.value == StreamContent(connection.body)
  {
    if url.None? then Some("")
    else
      match connection
      case ConnectFailed => Some("")
      case Responded(code, body, readFails, closeFails) =>
        if code != 200 then Some("")
        else if body.Some? && closeFails then None
        else if body.Some? && readFails then Some("")
        else Some(StreamContent(body))
  }

  /** `fetchNewsData(requestUrl)`, with `url` the result of `createUrl(requestUrl)` (None when malformed). */
  function FetchNewsData(url: Option<string>, connection: Connection, tokenise: Tokeniser, months: MonthNames)
    : (r: Option<seq<UKNews>>)
    ensures r.None? <==> MakeHttpRequest(url, connection).None? || MakeHttpRequest(url, connection).value == ""
  {
    Extraction(MakeHttpRequest(url, connection), tokenise, months)
  }

  /** A request without a URL, or answered with any status other than 200, yields "" and so a null list. */
  lemma FetchNullWithoutSuccessStatus(url: Option<string>, connection: Connection, tokenise: Tokeniser, months: MonthNames)
    requires url.None? || connection.ConnectFailed? || (connection.Responded? && connection.code != 200)
    ensures MakeHttpRequest(url, connection) == Some("")
    ensures FetchNewsData(url, connection, tokenise, months).None?
  {
  }

  /**
   * The list is null exactly when the request produced no text: no URL, a
   * failed connection, a status other than 200, a stream that fails, or a
   * body without any character other than line terminators.
   */
  lemma FetchNullIffNoText(url: Option<string>, connection: Connection, tokenise: Tokeniser, months: MonthNames)
    ensures FetchNewsData(url, connection, tokenise, months).None? <==>
      || url.None? || connection.ConnectFailed?
      || connection.code != 200
      || (connection.body.Some? && (connection.closeFails || connection.readFails))
      || StreamContent(connection.body) == ""
  {
  }

  /** A 200 response whose stream is read and closed cleanly is extracted from its text without terminators. */
  lemma FetchExtractsBody(url: string, code: int, body: seq<char>, tokenise: Tokeniser, months: MonthNames)
    requires code == 200
    ensures FetchNewsData(Some(url), Responded(code, Some(body), false, false), tokenise, months) ==
            Extraction(Some(Unterminated(body)), tokenise, months)
  {
  }
}
