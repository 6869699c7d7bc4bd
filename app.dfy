/** The Flask back end (app.py): `fetch_stock_data` scrapes a Screener.in
    company page into a record of seven strings, and the `/api/screener/<symbol>`
    route maps an error record to HTTP 500.

    The network request and the HTML parser are not modelled: the parsed page is
    an input `Document`, and an exception raised anywhere in the scrape is the
    `Raised` alternative of `Response`. */
module FlaskApp {
  import opened Wrappers
  import opened Text

  /** The placeholder for a value that could not be scraped. */
  const NA := "N/A"

  /** One `li.flex.flex-space-between` element of the page: the text of its
      `span.name` child and of its `span.number` child, `None` when that child
      is missing. */
  datatype Row = Row(nameSpan: Option<string>, numberSpan: Option<string>)

  /** The three metrics the row scan fills, in the order of its if/elif chain. */
  datatype Metric = MarketCap | PeRatio | Roe

  function Keyword(k: Metric): string {
    match k
    case MarketCap => "Market Cap"
    case PeRatio => "Stock P/E"
    case Roe => "ROE"
  }

  /** The local variables `market_cap`, `pe_ratio` and `roe`. */
  datatype Metrics = Metrics(marketCap: string, peRatio: string, roe: string)

  function Get(m: Metrics, k: Metric): string {
    match k
    case MarketCap => m.marketCap
    case PeRatio => m.peRatio
    case Roe => m.roe
  }

  /** `market_cap = pe_ratio = roe = "N/A"`. */
  const Unset := Metrics(NA, NA, NA)

  /** A branch of the chain whose condition holds for the stripped label `text`:
      the label contains the keyword and the field is still "N/A". */
  predicate Claims(m: Metrics, text: string, k: Metric) {
    Contains(text, Keyword(k)) && Get(m, k) == NA
  }

  /** `k` is the first branch of the chain whose condition holds. */
  predicate FirstClaim(m: Metrics, text: string, k: Metric) {
    Claims(m, text, k) &&
    match k
    case MarketCap => true
    case PeRatio => !Claims(m, text, MarketCap)
    case Roe => !Claims(m, text, MarketCap) && !Claims(m, text, PeRatio)
  }

  /** One iteration of the row loop. */
  function Step(m: Metrics, row: Row): (m': Metrics)
    // A row without both spans changes nothing.
    ensures row.nameSpan.None? || row.numberSpan.None? ==> m' == m
    // A row whose stripped number is "N/A" changes nothing.
    ensures row.numberSpan.Some? && Trim(row.numberSpan.value) == NA ==> m' == m
    // A field holding a real value is never overwritten.
    ensures forall k :: Get(m, k) != NA ==> Get(m', k) == Get(m, k)
    // At most one field changes.
    ensures forall k1, k2 :: Get(m', k1) != Get(m, k1) && Get(m', k2) != Get(m, k2) ==> k1 == k2
    // Only the first claiming branch may change its field, and only to the stripped number.
    ensures forall k :: Get(m', k) != Get(m, k) ==>
      row.nameSpan.Some? && row.numberSpan.Some? &&
      FirstClaim(m, Trim(row.nameSpan.value), k) && Get(m', k) == Trim(row.numberSpan.value)
    // The first claiming branch does receive the stripped number.
    ensures forall k :: row.nameSpan.Some? && row.numberSpan.Some? && FirstClaim(m, Trim(row.nameSpan.value), k) ==>
      Get(m', k) == Trim(row.numberSpan.value)
  {
    if row.nameSpan.Some? && row.numberSpan.Some? then
      var text, value := Trim(row.nameSpan.value), Trim(row.numberSpan.value);
      var r := Branch(m, text, value);
      r
    else m
  }

  /** The if/elif chain on the stripped label `text` and stripped number `value`. */
  function Branch(m: Metrics, text: string, value: string): (m': Metrics)
    ensures forall k :: Get(m', k) != Get(m, k) ==> FirstClaim(m, text, k) && Get(m', k) == value
    ensures forall k :: FirstClaim(m, text, k) ==> Get(m', k) == value
    ensures forall k1, k2 :: Get(m', k1) != Get(m, k1) && Get(m', k2) != Get(m, k2) ==> k1 == k2
  {
    if Contains(text, "Market Cap") && m.marketCap == NA then m.(marketCap := value)
    else if Contains(text, "Stock P/E") && m.peRatio == NA then m.(peRatio := value)
    else if Contains(text, "ROE") && m.roe == NA then m.(roe := value)
    else m
  }

  /** The metrics after the loop has visited `rows` in order. */
  function Scan(rows: seq<Row>): Metrics {
    if rows == [] then Unset else Step(Scan(rows[..|rows| - 1]), rows[|rows| - 1])
  }

  /** The row loop of `fetch_stock_data`. */
  method ScanRows(rows: seq<Row>) returns (marketCap: string, peRatio: string, roe: string)
    ensures Metrics(marketCap, peRatio, roe) == Scan(rows)
  {
    marketCap, peRatio, roe := NA, NA, NA;
    for i := 0 to |rows|
      invariant Metrics(marketCap, peRatio, roe) == Scan(rows[..i])
    {
      assert rows[..i + 1][..i] == rows[..i];
      var row := rows[i];
      if row.nameSpan.Some? && row.numberSpan.Some? {
        var text := Trim(row.nameSpan.value);
        if Contains(text, "Market Cap") && marketCap == NA {
          marketCap := Trim(row.numberSpan.value);
        } else if Contains(text, "Stock P/E") && peRatio == NA {
          peRatio := Trim(row.numberSpan.value);
        } else if Contains(text, "ROE") && roe == NA {
          roe := Trim(row.numberSpan.value);
        }
      }
    }
    assert rows[..|rows|] == rows;
  }

  // ---------------------------------------------------------------------------
  // A reference definition: the first row that supplies a value for a keyword.

  /** A row with both spans whose stripped label contains `kw` and whose
      stripped number is a real value. */
  predicate Supplies(row: Row, kw: string) {
    row.nameSpan.Some? && row.numberSpan.Some? &&
    Contains(Trim(row.nameSpan.value), kw) && Trim(row.numberSpan.value) != NA
  }

  /** The stripped number of the first row that supplies `kw`, else "N/A". */
  function FirstValue(rows: seq<Row>, kw: string): string {
    if rows == [] then NA
    else if Supplies(rows[0], kw) then Trim(rows[0].numberSpan.value)
    else FirstValue(rows[1..], kw)
  }

  lemma {:induction false} FirstValueIsNA(rows: seq<Row>, kw: string)
    ensures FirstValue(rows, kw) == NA <==> forall i :: 0 <= i < |rows| ==> !Supplies(rows[i], kw)
  {
    if rows != [] && !Supplies(rows[0], kw) {
      var tail := rows[1..];
      FirstValueIsNA(tail, kw);
      if FirstValue(tail, kw) == NA {
        forall i | 0 <= i < |rows| ensures !Supplies(rows[i], kw) {
          if i > 0 { assert rows[i] == tail[i - 1]; }
        }
      } else {
        var i :| 0 <= i < |tail| && Supplies(tail[i], kw);
        assert rows[i + 1] == tail[i];
      }
    }
  }

  /** Appending a row only matters while no earlier row has supplied `kw`. */
  lemma {:induction false} FirstValueSnoc(rows: seq<Row>, row: Row, kw: string)
    ensures FirstValue(rows + [row], kw) ==
      if FirstValue(rows, kw) != NA then FirstValue(rows, kw)
      else if Supplies(row, kw) then Trim(row.numberSpan.value)
      else NA
  {
    if rows == [] {
      assert [row][1..] == [];
    } else {
      assert (rows + [row])[1..] == rows[1..] + [row];
      FirstValueSnoc(rows[1..], row, kw);
    }
  }

  /** Rows whose labels name at most one of the three keywords. */
  predicate Unambiguous(rows: seq<Row>) {
    forall i, k1, k2 ::
      (0 <= i < |rows| && rows[i].nameSpan.Some? &&
       Contains(Trim(rows[i].nameSpan.value), Keyword(k1)) &&
       Contains(Trim(rows[i].nameSpan.value), Keyword(k2)))
      ==> k1 == k2
  }

  /** Market Cap heads the chain, so it always receives the first real value
      among the rows that mention it; a row whose number is "N/A" leaves it
      open for later rows. */
  lemma {:induction false} MarketCapIsFirstValue(rows: seq<Row>)
    ensures Scan(rows).marketCap == FirstValue(rows, Keyword(MarketCap))
  {
    if rows != [] {
      var init, last := rows[..|rows| - 1], rows[|rows| - 1];
      assert rows == init + [last];
      MarketCapIsFirstValue(init);
      FirstValueSnoc(init, last, Keyword(MarketCap));
    }
  }

  /** When no label names two keywords, every field holds the first real value
      among the rows that mention its keyword, and "N/A" if there is none. */
  lemma {:induction false} ScanIsFirstValue(rows: seq<Row>)
    requires Unambiguous(rows)
    ensures forall k :: Get(Scan(rows), k) == FirstValue(rows, Keyword(k))
  {
    if rows != [] {
      var init, last := rows[..|rows| - 1], rows[|rows| - 1];
      assert rows == init + [last];
      assert forall i :: 0 <= i < |init| ==> init[i] == rows[i];
      ScanIsFirstValue(init);
      forall k ensures Get(Scan(rows), k) == FirstValue(rows, Keyword(k)) {
        FirstValueSnoc(init, last, Keyword(k));
        if last.nameSpan.Some? && last.numberSpan.Some? && Contains(Trim(last.nameSpan.value), Keyword(k)) {
          assert forall j :: Contains(Trim(last.nameSpan.value), Keyword(j)) ==> j == k;
        }
      }
    }
  }

  /** Every field is "N/A" or the stripped number of some row that supplies
      its keyword. */
  lemma {:induction false} ScanProvenance(rows: seq<Row>, k: Metric)
    ensures Get(Scan(rows), k) == NA ||
      exists i :: 0 <= i < |rows| && Supplies(rows[i], Keyword(k)) &&
        Get(Scan(rows), k) == Trim(rows[i].numberSpan.value)
  {
    if rows != [] {
      var init, last := rows[..|rows| - 1], rows[|rows| - 1];
      ScanProvenance(init, k);
      if Get(Scan(rows), k) != NA {
        if Get(Scan(rows), k) == Get(Scan(init), k) {
          var i :| 0 <= i < |init| && Supplies(init[i], Keyword(k)) &&
            Get(Scan(init), k) == Trim(init[i].numberSpan.value);
          assert rows[i] == init[i];
        } else {
          assert Supplies(rows[|rows| - 1], Keyword(k));
        }
      }
    }
  }

  /** A field stays "N/A" when no row with both spans mentions its keyword. */
  lemma StaysUnset(rows: seq<Row>, k: Metric)
    requires forall i :: 0 <= i < |rows| ==>
      rows[i].nameSpan.None? || rows[i].numberSpan.None? || !Contains(Trim(rows[i].nameSpan.value), Keyword(k))
    ensures Get(Scan(rows), k) == NA
  {
    ScanProvenance(rows, k);
  }

  /** Once a field holds a real value, later rows never change it. */
  lemma {:induction false} LockedField(rows: seq<Row>, more: seq<Row>, k: Metric)
    requires Get(Scan(rows), k) != NA
    ensures Get(Scan(rows + more), k) == Get(Scan(rows), k)
  {
    if more == [] {
      assert rows + more == rows;
    } else {
      var init := more[..|more| - 1];
      LockedField(rows, init, k);
      assert (rows + more)[..|rows + more| - 1] == rows + init;
    }
  }

  /** Keywords are matched case-sensitively: a label without upper-case letters,
      such as "market cap" or "roe", fills no field. */
  lemma CaseSensitiveKeyword(m: Metrics, text: string, value: string)
    requires forall i :: 0 <= i < |text| ==> !IsAsciiUpper(text[i])
    ensures Branch(m, text, value) == m
  {
    NoHead(text, "Market Cap");
    NoHead(text, "Stock P/E");
    NoHead(text, "ROE");
  }

  lemma NoHead(s: string, t: string)
    requires t != [] && t[0] !in s
    ensures !Contains(s, t)
  {
    if Contains(s, t) {
      ContainsHead(s, t);
    }
  }

  // ---------------------------------------------------------------------------
  // The record and the route.

  /** The parsed page: the text of the first `h1`, the text of the first
      `li:contains('Current Price') span.number`, and the key/value rows. */
  datatype Document = Document(h1: Option<string>, currentPrice: Option<string>, rows: seq<Row>)

  /** What the request and the parse produce: a page, or an exception whose
      `str(e)` is `message`. */
  datatype Response = Page(doc: Document) | Raised(message: string)

  function CompanyUrl(symbol: string): string {
    "https://www.screener.in/company/" + symbol + "/"
  }

  function ClearbitLogo(symbol: string): string {
    "https://logo.clearbit.com/" + ToLower(symbol) + ".com"
  }

  /** `tag.text.strip() if tag else "N/A"`. */
  function TextOr(tag: Option<string>): string {
    if tag.Some? then Trim(tag.value) else NA
  }

  const RecordKeys: set<string> := {"name", "price", "pe_ratio", "roe", "market_cap", "logo", "link"}

  /** `data` is the success record scraped from `doc` for `symbol`. */
  predicate IsRecord(data: map<string, string>, symbol: string, doc: Document) {
    data.Keys == RecordKeys &&
    data["name"] == TextOr(doc.h1) &&
    data["price"] == TextOr(doc.currentPrice) &&
    Metrics(data["market_cap"], data["pe_ratio"], data["roe"]) == Scan(doc.rows) &&
    data["logo"] == ClearbitLogo(symbol) &&
    data["link"] == CompanyUrl(symbol)
  }

  /** `fetch_stock_data(symbol)`: a success record with exactly the seven keys,
      or, on an exception, a record holding only `error`. */
  method FetchStockData(symbol: string, response: Response) returns (data: map<string, string>)
    ensures response.Raised? ==> data == map["error" := response.message]
    ensures response.Page? ==> IsRecord(data, symbol, response.doc) && "error" !in data
    ensures response.Page? ==> data["market_cap"] == FirstValue(response.doc.rows, Keyword(MarketCap))
  {
    var url := CompanyUrl(symbol);
    match response
    case Raised(message) =>
      data := map["error" := message];
    case Page(doc) =>
      var name := TextOr(doc.h1);
      var price := TextOr(doc.currentPrice);
      var marketCap, peRatio, roe := ScanRows(doc.rows);
      MarketCapIsFirstValue(doc.rows);
      var logoUrl := ClearbitLogo(symbol);
      data := map["name" := name, "price" := price, "pe_ratio" := peRatio, "roe" := roe,
                  "market_cap" := marketCap, "logo" := logoUrl, "link" := url];
  }

  /** An HTTP response: status code and JSON object. */
  datatype HttpResponse = HttpResponse(status: int, body: map<string, string>)

  const FetchFailedMessage := "Failed to fetch stock data"

  /** The `/api/screener/<symbol>` route. */
  method Screener(symbol: string, response: Response) returns (resp: HttpResponse)
    ensures resp.status == 500 <==> response.Raised?
    ensures response.Raised? ==> resp.body == map["error" := FetchFailedMessage]
    ensures response.Page? ==> resp.status == 200 && IsRecord(resp.body, ToUpper(symbol), response.doc)
    // The logo depends on the symbol only up to case.
    ensures response.Page? ==> resp.body["logo"] == ClearbitLogo(symbol)
  {
    var data := FetchStockData(ToUpper(symbol), response);
    if "error" in data {
      resp := HttpResponse(500, map["error" := FetchFailedMessage]);
    } else {
      resp := HttpResponse(200, data);
      ToLowerAfterToUpper(symbol);
    }
  }
}
