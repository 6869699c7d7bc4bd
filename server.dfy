/** The Express back end (server.js): the `/api/screener/:symbol` handler.

    The two HTTP requests and cheerio are not modelled. The company page is the
    texts cheerio yields for its selections (`.text()` of an empty selection is
    the empty string), and the image search is the `src` of its second `img`.
    A failure of either request, or of parsing, is an error alternative. */
module ExpressServer {
  import opened Wrappers
  import opened Text

  /** The texts of `h1` (first), `li:contains('Current Price') span.number`,
      `li:contains('Market Cap') span.number`, `li:contains('Stock P/E') span.number`
      and `li:contains('ROE') span.number`, before trimming. */
  datatype CompanyPage = CompanyPage(h1: string, currentPrice: string, marketCap: string, pe: string, roe: string)

  /** Outcome of fetching and loading the company page. */
  datatype PageFetch = Loaded(page: CompanyPage) | PageFailed(message: string)

  /** Outcome of the image search: the `src` attribute of the second `img`
      (`None` when there is no such image or attribute), or a failure. */
  datatype ImageSearch = Images(secondSrc: Option<string>) | SearchFailed(message: string)

  function ConsolidatedUrl(symbol: string): string {
    "https://www.screener.in/company/" + symbol + "/consolidated/"
  }

  /** The generated avatar keyed by the symbol. */
  function AvatarUrl(symbol: string): string {
    "https://ui-avatars.com/api/?name=" + symbol + "&background=39CC89&color=fff&size=64"
  }

  /** The image search offers a usable logo: a non-empty `src` starting with "http". */
  predicate OffersLogo(search: ImageSearch) {
    search.Images? && search.secondSrc.Some? &&
    search.secondSrc.value != "" && StartsWith(search.secondSrc.value, "http")
  }

  /** The `logo` variable: empty, then the scraped image if acceptable (a
      failed search is caught and leaves it empty), then the avatar if still
      empty. */
  method ResolveLogo(symbol: string, search: ImageSearch) returns (logo: string)
    ensures OffersLogo(search) ==> logo == search.secondSrc.value
    ensures !OffersLogo(search) ==> logo == AvatarUrl(symbol)
    ensures logo != "" && StartsWith(logo, "http")
  {
    logo := "";
    match search {
      case Images(Some(src)) =>
        if src != "" && StartsWith(src, "http") {
          logo := src;
        }
      case Images(None) =>
      case SearchFailed(_) =>
    }
    if logo == "" {
      logo := AvatarUrl(symbol);
    }
  }

  /** An HTTP response: status code and JSON object. */
  datatype ApiResponse = ApiResponse(status: int, body: map<string, string>)

  const FailureMessage := "Stock not found or failed to fetch data."

  const ResponseKeys: set<string> := {"companyName", "currentPrice", "marketCap", "pe", "roe", "logo", "url"}

  /** `GET /api/screener/:symbol`. The image search runs only after the
      company page has loaded. */
  method HandleScreener(param: string, fetch: PageFetch, search: ImageSearch) returns (resp: ApiResponse)
    ensures resp.status == 500 <==> fetch.PageFailed?
    ensures fetch.PageFailed? ==> resp.body == map["error" := FailureMessage]
    ensures fetch.Loaded? ==>
      resp.status == 200 && resp.body.Keys == ResponseKeys &&
      resp.body["url"] == ConsolidatedUrl(ToUpper(param)) &&
      resp.body["companyName"] == Trim(fetch.page.h1) &&
      resp.body["currentPrice"] == Trim(fetch.page.currentPrice) &&
      resp.body["marketCap"] == Trim(fetch.page.marketCap) &&
      resp.body["pe"] == Trim(fetch.page.pe) &&
      resp.body["roe"] == Trim(fetch.page.roe) &&
      resp.body["logo"] == (if OffersLogo(search) then search.secondSrc.value else AvatarUrl(ToUpper(param)))
    ensures fetch.Loaded? ==> resp.body["logo"] != ""
  {
    var symbol := ToUpper(param);
    var url := ConsolidatedUrl(symbol);
    match fetch {
      case PageFailed(_) =>
        resp := ApiResponse(500, map["error" := FailureMessage]);
      case Loaded(page) =>
        var companyName := Trim(page.h1);
        var priceText := Trim(page.currentPrice);
        var marketCap := Trim(page.marketCap);
        var pe := Trim(page.pe);
        var roe := Trim(page.roe);
        var logo := ResolveLogo(symbol, search);
        resp := ApiResponse(200, map["companyName" := companyName, "currentPrice" := priceText,
                                     "marketCap" := marketCap, "pe" := pe, "roe" := roe,
                                     "logo" := logo, "url" := url]);
    }
  }
}
