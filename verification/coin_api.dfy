/** The pure part of `get_current_prices`: the request parameters, the
    shortcut for an empty watch list, the status check and the construction
    of the per-symbol quote map from the parsed JSON response. The HTTP call
    itself is a parameter: `None` stands for a request that raised. */
module CoinApi {
  import opened Options
  import opened Strings
  import opened Types

  /** A parsed JSON value. JSON integers and fractions are both numbers. */
  datatype Json =
    | JNull
    | JBool(b: bool)
    | JNumber(n: real)
    | JString(s: string)
    | JArray(items: seq<Json>)
    | JObject(fields: map<string, Json>)

  /** The query string of the quotes request. */
  datatype QuoteParams = QuoteParams(symbol: string, convert: string)

  /** The request made for `codes`, or None when the list is empty and no
      request is sent at all. */
  function QuoteRequest(codes: seq<string>): (req: Option<QuoteParams>)
    ensures req.None? <==> |codes| == 0
    ensures req.Some? ==> req.value.convert == "USD"
  {
    if |codes| == 0 then None else Some(QuoteParams(Join(codes, ','), "USD"))
  }

  /** The `symbol` parameter lists the codes in watch-list order: splitting
      it at the commas gives the codes back, as long as no code itself
      contains a comma. */
  lemma QuoteSymbolListsCodes(codes: seq<string>)
    requires |codes| > 0
    requires forall k :: 0 <= k < |codes| ==> ',' !in codes[k]
    ensures QuoteRequest(codes).Some?
    ensures Split(QuoteRequest(codes).value.symbol, ',') == codes
  {
    SplitJoin(codes, ',');
  }

  /** Python's `error_code != 0` is false for the number zero and for `false`. */
  predicate IsZero(j: Json) {
    j == JNumber(0.0) || j == JBool(false)
  }

  predicate HasObject(j: Json, key: string) {
    j.JObject? && key in j.fields && j.fields[key].JObject?
  }

  /** A key that, when present, holds a number. */
  predicate OptionalNumber(o: map<string, Json>, key: string) {
    key in o ==> o[key].JNumber?
  }

  /** The shape the decoder reads from one coin's entry without raising. */
  predicate WellFormedCoin(coin: Json) {
    && HasObject(coin, "quote")
    && HasObject(coin.fields["quote"], "USD")
    && var usd := coin.fields["quote"].fields["USD"].fields;
       && "price" in usd && usd["price"].JNumber?
       && OptionalNumber(usd, "percent_change_24h")
       && OptionalNumber(usd, "percent_change_7d")
  }

  /** The entry carries its slug as a string. */
  predicate HasSlug(coin: Json)
    requires coin.JObject?
  {
    "slug" in coin.fields && coin.fields["slug"].JString?
  }

  /** The shape the decoder reads from a response without raising: a status
      with an error code; on success a data object whose requested entries
      are well formed, on failure an error message to log. */
  predicate WellFormedResponse(codes: seq<string>, j: Json) {
    && HasObject(j, "status")
    && "error_code" in j.fields["status"].fields
    && if IsZero(j.fields["status"].fields["error_code"]) then
         && HasObject(j, "data")
         && forall c :: c in codes && c in j.fields["data"].fields ==> WellFormedCoin(j.fields["data"].fields[c])
       else
         "error_message" in j.fields["status"].fields
  }

  /** A number field with the given default when the key is absent. */
  function NumberOr(o: map<string, Json>, key: string, default: real): (v: real)
    requires OptionalNumber(o, key)
    ensures key in o ==> o[key] == JNumber(v)
    ensures key !in o ==> v == default
  {
    if key in o then o[key].n else default
  }

  /** The record kept for one coin entry. */
  function RecordOf(coin: Json): (rec: PriceRecord)
    requires WellFormedCoin(coin)
    ensures var usd := coin.fields["quote"].fields["USD"].fields;
      && usd["price"] == JNumber(rec.price)
      && ("percent_change_24h" in usd ==> usd["percent_change_24h"] == JNumber(rec.change24h))
      && ("percent_change_24h" !in usd ==> rec.change24h == 0.0)
      && ("percent_change_7d" in usd ==> usd["percent_change_7d"] == JNumber(rec.change7d))
      && ("percent_change_7d" !in usd ==> rec.change7d == 0.0)
      && (HasSlug(coin) ==> coin.fields["slug"] == JString(rec.slug))
      && (!HasSlug(coin) ==> rec.slug == "")
  {
    var usd := coin.fields["quote"].fields["USD"].fields;
    PriceRecord(
      usd["price"].n,
      NumberOr(usd, "percent_change_24h", 0.0),
      NumberOr(usd, "percent_change_7d", 0.0),
      if HasSlug(coin) then coin.fields["slug"].s else "")
  }

  /** The result map: one record per requested code that the response
      carries; requested codes missing from the response are left out. */
  function DecodeQuotes(codes: seq<string>, data: map<string, Json>): (quotes: map<string, PriceRecord>)
    requires forall c :: c in codes && c in data ==> WellFormedCoin(data[c])
    ensures quotes.Keys == set c | c in codes && c in data
    ensures forall c :: c in quotes ==> quotes[c] == RecordOf(data[c])
  {
    if |codes| == 0 then map[]
    else
      var init := codes[..|codes| - 1];
      var c := codes[|codes| - 1];
      assert codes == init + [c];
      var earlier := DecodeQuotes(init, data);
      if c in data then earlier[c := RecordOf(data[c])] else earlier
  }

  /** `get_current_prices`: an empty list yields an empty map without a
      request; a failed request or a non-zero status yields None; otherwise
      the decoded quotes. */
  function GetCurrentPrices(codes: seq<string>, response: Option<Json>): (result: Option<map<string, PriceRecord>>)
    requires |codes| > 0 && response.Some? ==> WellFormedResponse(codes, response.value)
    ensures |codes| == 0 ==> result == Some(map[])
    ensures |codes| > 0 && response.None? ==> result.None?
    ensures |codes| > 0 && response.Some? ==>
      (result.Some? <==> IsZero(response.value.fields["status"].fields["error_code"]))
    ensures result.Some? ==> forall c :: c in result.value ==> c in codes
    ensures |codes| > 0 && result.Some? ==>
      && response.Some?
      && var data := response.value.fields["data"].fields;
         && result.value.Keys == (set c | c in codes && c in data)
         && forall c :: c in result.value ==> c in data && result.value[c] == RecordOf(data[c])
  {
    if |codes| == 0 then Some(map[])
    else
      match response
      case None => None
      case Some(j) =>
        if !IsZero(j.fields["status"].fields["error_code"]) then None
        else Some(DecodeQuotes(codes, j.fields["data"].fields))
  }

  // ---------------------------------------------------------------------------
  // The inverse direction: the response a server sends for known quotes
  // ---------------------------------------------------------------------------

  /** A coin entry carrying every field of `rec`. */
  function CoinJson(rec: PriceRecord): Json {
    JObject(map[
      "slug" := JString(rec.slug),
      "quote" := JObject(map["USD" := JObject(map[
        "price" := JNumber(rec.price),
        "percent_change_24h" := JNumber(rec.change24h),
        "percent_change_7d" := JNumber(rec.change7d)])])])
  }

  /** Decoding a coin entry gives back the record it was built from. */
  lemma RecordOfCoinJson(rec: PriceRecord)
    ensures WellFormedCoin(CoinJson(rec))
    ensures RecordOf(CoinJson(rec)) == rec
  {
  }

  /** A coin entry with only a price decodes with zero changes and an empty slug. */
  lemma RecordOfDefaults(price: real)
    ensures var coin := JObject(map["quote" := JObject(map["USD" := JObject(map["price" := JNumber(price)])])]);
      WellFormedCoin(coin) && RecordOf(coin) == PriceRecord(price, 0.0, 0.0, "")
  {
  }

  /** The data object of a response built from `quotes`. */
  function DataJson(quotes: map<string, PriceRecord>): (data: map<string, Json>)
    ensures data.Keys == quotes.Keys
    ensures forall c :: c in data ==> WellFormedCoin(data[c]) && RecordOf(data[c]) == quotes[c]
  {
    var data := map c | c in quotes :: CoinJson(quotes[c]);
    forall c | c in data
      ensures WellFormedCoin(data[c]) && RecordOf(data[c]) == quotes[c]
    {
      RecordOfCoinJson(quotes[c]);
    }
    data
  }

  /** A successful response carrying `quotes`. */
  function ResponseJson(quotes: map<string, PriceRecord>): Json {
    JObject(map[
      "status" := JObject(map["error_code" := JNumber(0.0), "error_message" := JNull]),
      "data" := JObject(DataJson(quotes))])
  }

  lemma ResponseJsonParts(quotes: map<string, PriceRecord>)
    ensures HasObject(ResponseJson(quotes), "status") && HasObject(ResponseJson(quotes), "data")
    ensures ResponseJson(quotes).fields["status"].fields["error_code"] == JNumber(0.0)
    ensures ResponseJson(quotes).fields["data"].fields == DataJson(quotes)
  {
    var j := ResponseJson(quotes);
    assert "status" in j.fields && "data" in j.fields;
  }

  lemma DecodeKnownQuotes(codes: seq<string>, quotes: map<string, PriceRecord>)
    ensures DecodeQuotes(codes, DataJson(quotes)).Keys == set c | c in codes && c in quotes
    ensures forall c :: c in DecodeQuotes(codes, DataJson(quotes)) ==> DecodeQuotes(codes, DataJson(quotes))[c] == quotes[c]
  {
  }

  /** Round trip: fetching `codes` from a server that knows `quotes` yields
      exactly the known quotes of the requested codes. */
  lemma GetCurrentPricesOfResponse(codes: seq<string>, quotes: map<string, PriceRecord>)
    requires |codes| > 0
    ensures WellFormedResponse(codes, ResponseJson(quotes))
    ensures var result := GetCurrentPrices(codes, Some(ResponseJson(quotes)));
      && result.Some?
      && result.value.Keys == (set c | c in codes && c in quotes)
      && forall c :: c in result.value ==> result.value[c] == quotes[c]
  {
    ResponseJsonParts(quotes);
    DecodeKnownQuotes(codes, quotes);
  }

  /** A response with a non-zero error code yields None whatever else it holds. */
  lemma ErrorStatusFails(codes: seq<string>, code: real, message: string)
    requires |codes| > 0 && code != 0.0
    ensures var j := JObject(map["status" := JObject(map["error_code" := JNumber(code), "error_message" := JString(message)])]);
      WellFormedResponse(codes, j) && GetCurrentPrices(codes, Some(j)) == None
  {
  }
}
