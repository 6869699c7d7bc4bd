# Swadeshi Stokz: a Dafny model of the scraping back ends and the browser checks

Swadeshi Stokz looks up an Indian stock on Screener.in and shows its price and a
few ratios. It has two interchangeable back ends that scrape the company page,
and one browser script:

- **app.py** (Flask): `fetch_stock_data` reads the company name (first `h1`), the
  current price, and scans the page's key/value rows
  (`li.flex.flex-space-between`) for Market Cap, Stock P/E and ROE. Each field
  starts as `"N/A"`. A row fills the first field of the if/elif chain whose
  keyword its stripped label contains and which is still `"N/A"`. The record
  gets a Screener link and a Clearbit logo URL. Any exception turns the record
  into `{"error": …}`. The route maps that record to HTTP 500 with a fixed
  message.
- **server.js** (Express): the `/api/screener/:symbol` handler upper-cases the
  symbol and builds the `/consolidated/` URL. It trims the scraped texts and
  picks a logo: the second image of an image search if that starts with
  `"http"`, else a generated ui-avatars URL. A failure of the main fetch gives
  HTTP 500.
- **static/script.js**: symbol validation (one to ten ASCII letters), the
  percentage and plain value formatters, the show/hide decision for the
  optional fields and the financial-health section, and the checks
  `searchStock` makes before it calls the API.

Files:

- `wrappers.dfy`: `Option`.
- `text.dfy`: the shared string operations. These are `strip()`/`trim()` with
  one fixed whitespace set (space, tab, LF, CR, VT, FF), the case-sensitive
  substring test, ASCII case mapping and removal of one character.
- `app.dfy`, `server.dfy`, `script.dfy`: one module per source file.

The app.py row scan is an imperative loop (`FlaskApp.ScanRows`). It is proved
equal to a fold of the one-row step `FlaskApp.Step`. The fold is then related to
an independent reference, `FlaskApp.FirstValue`: the stripped number of the first
row that supplies a real value for a keyword.

Plain facts about the code that shape the model:

- `requests.get` does not raise on an HTTP error status, so app.py parses an
  error page like any other page.
- Symbols are checked only in the browser. Both back ends accept any route
  parameter and only upper-case it.
- No back end strips '%'. The browser's percentage formatter adds exactly one.

## Model

| member | source | states |
|---|---|---|
| `FlaskApp.Step` | app.py:36-45 | one row: a row without both spans, or whose stripped number is "N/A", changes nothing. A field holding a real value is never overwritten. At most one field changes, and only the first field of the chain whose keyword the stripped label contains and which is still "N/A". That field does receive the stripped number. |
| `FlaskApp.Branch` | app.py:40-45 | the if/elif chain: it changes only the first claiming field, sets it to the value, and changes at most one field |
| `FlaskApp.ScanRows` | app.py:34-45 | the loop starts all three fields at "N/A" and ends with the fold of `Step` over the rows in page order |
| `FlaskApp.MarketCapIsFirstValue` | app.py:34-41 | `market_cap` is the stripped number of the first row that mentions "Market Cap" and has a real value, else "N/A". An "N/A" number leaves the field open for later rows. |
| `FlaskApp.ScanIsFirstValue` | app.py:34-45 | when no label names two keywords, every field is the first real value among the rows mentioning its keyword, else "N/A" |
| `FlaskApp.ScanProvenance` | app.py:38-45 | every field is "N/A" or the stripped number of some row with both spans whose stripped label contains its keyword |
| `FlaskApp.FirstValueIsNA` | app.py:40-41 | the reference value is "N/A" exactly when no row supplies a real value for the keyword |
| `FlaskApp.StaysUnset` | app.py:34-45 | a field stays "N/A" when no row with both spans mentions its keyword |
| `FlaskApp.LockedField` | app.py:40-44 | once a field holds a value other than "N/A", no later rows change it |
| `FlaskApp.CaseSensitiveKeyword` | app.py:40-44 | keyword matching is case-sensitive: a stripped label without upper-case letters, such as "market cap", fills no field |
| `FlaskApp.FetchStockData` | app.py:13-63 | a parsed page gives a record with exactly the seven keys and no `error` key. `name` and `price` are the stripped texts or "N/A". The three metrics come from the row scan, with `market_cap` the first real value. `link` is the Screener URL and `logo` the Clearbit URL of the lower-cased symbol. An exception gives a record holding only `error`. |
| `FlaskApp.Screener` | app.py:71-76 | status 500 with "Failed to fetch stock data" exactly when the scrape raised. Otherwise status 200 with the record for the upper-cased symbol, whose logo ignores the symbol's case. |
| `Text.TrimShape` | app.py:39 | `strip()` removes only whitespace, all of it at both ends, and leaves a string without outer whitespace |
| `Text.ContainsAt` | app.py:40 | the substring test holds exactly when the keyword occurs at some position of the label |
| `Text.RemoveAll` | static/script.js:15 | `replace(/%/g, '')` leaves no '%' and keeps every other character with its multiplicity; their order is stated by `Text.RemoveAllAppend` |
| `Text.RemoveAllAppend` | static/script.js:15 | removal distributes over concatenation and drops a single character exactly when it is '%', so the kept characters stay in their original order |
| `Text.ToLowerAfterToUpper` | app.py:48 | lower-casing an upper-cased symbol equals lower-casing the symbol |
| `ExpressServer.ResolveLogo` | server.js:37-62 | the scraped image becomes the logo exactly when it is present, non-empty and starts with "http". Otherwise, including when the search fails, the logo is the ui-avatars URL for the symbol. The logo is never empty and always starts with "http". |
| `ExpressServer.HandleScreener` | server.js:11-76 | a failed page fetch gives status 500 with the fixed error message. Success gives status 200 with exactly the seven keys: the trimmed texts, the chosen logo and the `/consolidated/` URL of the upper-cased symbol. |
| `ClientScript.LettersOnly` | static/script.js:8 | `/^[A-Za-z]+$/` accepts exactly the non-empty strings of ASCII letters |
| `ClientScript.IsValidStockSymbol` | static/script.js:2-9 | valid exactly when the length is 1 to 10 and every character is an ASCII letter |
| `ClientScript.ValidityIgnoresCase` | static/script.js:63-83 | upper-casing does not change validity |
| `ClientScript.FormatPercentage` | static/script.js:12-18 | "N/A" exactly for a missing, empty or "N/A" value, or when stripping '%' and trimming gives "N/A". Otherwise the result is that stripped, trimmed text followed by one '%', and it contains exactly one '%'. |
| `ClientScript.FormatPercentageIdempotent` | static/script.js:14-17 | formatting a formatted percentage changes nothing |
| `ClientScript.FormatValue` | static/script.js:21-24 | "N/A" exactly for a missing, empty or "N/A" value, or one that trims to "N/A". Otherwise the result is the trimmed input, with no outer whitespace. |
| `ClientScript.FormatValueNotIdempotent` | static/script.js:21-24 | a whitespace-only value formats to "", which formats to "N/A", so the formatter is not idempotent |
| `ClientScript.Page.UpdateFieldVisibility` | static/script.js:27-60 | the `forEach` loop and the section step leave the display map equal to `Visibility` of the old map |
| `ClientScript.VisibilitySpec` | static/script.js:29-59 | each present conditional field gets "block" exactly when its value is non-empty and not "N/A", else "none". The present section is shown exactly when current ratio or debt to equity is available. Missing elements are skipped, and no other element changes. |
| `ClientScript.ShowFieldsSets` | static/script.js:37-46 | for fields with distinct ids, the loop sets every present field from its own value |
| `ClientScript.ShowFieldsFrame` | static/script.js:37-46 | the loop leaves every element that is not one of the fields unchanged |
| `ClientScript.FlaskRecordHidesOptionalFields` | static/script.js:29-59 | a record from app.py has none of the conditional keys, so all conditional fields and the section are hidden |
| `ClientScript.SearchStock` | static/script.js:62-89 | after trimming and upper-casing, empty input shows "Please enter a stock symbol.", invalid input shows the letters-only message, and neither requests anything. Otherwise the request goes to `/api/screener/` followed by 1 to 10 upper-case letters. |

## Left out

- Network requests (`requests.get`, `axios.get`, the browser `fetch`) are inputs. Their outcome is a parsed page or an error value. The model does not tie the fetched page to the URL that was built.
- BeautifulSoup and cheerio are not modelled. This covers CSS selector semantics (`:contains`, `select_one`), the concatenation of `.text()` across several matches, and `.eq(1)`. The page is given as the texts these selections yield, plus the sequence of key/value rows.
- The text of an exception (`str(e)`) is an input string. app.py treats every exception the same way.
- Flask and Express setup, static file serving, the `/` index route, `PORT`, `app.run`/`listen` and console logging are plumbing.
- public/script.js is not part of this model. It only fills HTML templates, with `|| "N/A"` defaults.
- static/script.js DOM writes are not modelled: text contents, the loader, the result card and the Enter-key listener. What `searchStock` does after the request is not modelled either: showing `data.error`, filling the fields, and the "Something went wrong" catch.
- Case mapping (`upper()`, `lower()`, `toUpperCase()`) covers ASCII letters only. JavaScript `trim` and Python `strip` share one fixed set of six ASCII whitespace characters. Unicode case mapping and whitespace are not modelled.
- JavaScript `value.toString()` on non-string JSON values is not modelled. Every value in the JSON object is a string.
- FlaskApp.ScanIsFirstValue: the "first real value per keyword" characterisation is stated only for rows whose labels name at most one keyword. For other rows the chain's precedence is stated one row at a time by `FlaskApp.Step`.
