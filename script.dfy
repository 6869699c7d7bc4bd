/** The browser script (static/script.js): symbol validation, value formatting,
    the show/hide decisions for optional fields, and the checks `searchStock`
    makes before it requests `/api/screener/<SYMBOL>`.

    The JSON object the page receives is a `map<string, string>`; a key that is
    absent is JavaScript's `undefined`. A single value that may be missing is an
    `Option<string>`, and `None` and the empty string are the falsy values. */
module ClientScript {
  import opened Wrappers
  import opened Text
  import FlaskApp

  const NA := FlaskApp.NA

  /** The regular expression `/^[A-Za-z]+$/`. */
  function LettersOnly(s: string): (m: bool)
    ensures m <==> s != [] && forall i :: 0 <= i < |s| ==> IsAsciiLetter(s[i])
  {
    s != [] && IsAsciiLetter(s[0]) && (|s| == 1 || LettersOnly(s[1..]))
  }

  /** `isValidStockSymbol`: one to ten ASCII letters. */
  function IsValidStockSymbol(symbol: string): (ok: bool)
    ensures ok <==> 1 <= |symbol| <= 10 && forall i :: 0 <= i < |symbol| ==> IsAsciiLetter(symbol[i])
  {
    if symbol == "" || |symbol| < 1 || |symbol| > 10 then false
    else LettersOnly(symbol)
  }

  /** Validity does not depend on letter case. */
  lemma ValidityIgnoresCase(symbol: string)
    ensures IsValidStockSymbol(ToUpper(symbol)) == IsValidStockSymbol(symbol)
  {
    ToUpperShape(symbol);
  }

  /** `!value || value === 'N/A'`. */
  predicate Missing(value: Option<string>) {
    value.None? || value.value == "" || value.value == NA
  }

  /** `formatPercentage`: drop every '%', trim, and put a single '%' back. */
  function FormatPercentage(value: Option<string>): (r: string)
    ensures r == NA <==> Missing(value) || Trim(RemoveAll(value.value, '%')) == NA
    ensures r != NA ==>
      r != [] && r[|r| - 1] == '%' && multiset(r)['%'] == 1 &&
      IsTrimmed(r[..|r| - 1]) && StripsTo(RemoveAll(value.value, '%'), r[..|r| - 1])
  {
    if Missing(value) then NA
    else
      var clean := Trim(RemoveAll(value.value, '%'));
      if clean == NA then NA
      else
        TrimShape(RemoveAll(value.value, '%'));
        TrimAbsent(RemoveAll(value.value, '%'), '%');
        PercentSuffix(clean);
        clean + "%"
  }

  /** Appending '%' to a string without one gives exactly one, at the end. */
  lemma PercentSuffix(clean: string)
    requires '%' !in clean
    ensures (clean + "%")[..|clean|] == clean
    ensures multiset(clean + "%")['%'] == 1
  {
    assert clean + "%" == clean + ['%'];
    assert multiset(clean + "%") == multiset(clean) + multiset{'%'};
  }

  /** Formatting a formatted percentage changes nothing. */
  lemma FormatPercentageIdempotent(value: Option<string>)
    ensures FormatPercentage(Some(FormatPercentage(value))) == FormatPercentage(value)
  {
    var r := FormatPercentage(value);
    if r != NA {
      var clean := r[..|r| - 1];
      assert r == clean + "%";
      assert '%' !in clean by {
        assert multiset(r) == multiset(clean) + multiset{'%'};
      }
      RemoveAllAppend(clean, "%", '%');
      RemoveAllAbsent(clean, '%');
      assert RemoveAll("%", '%') == [];
      assert RemoveAll(r, '%') == clean;
      TrimOfTrimmed(clean);
    }
  }

  /** `formatValue`: trimmed text, or "N/A" for a missing value. */
  function FormatValue(value: Option<string>): (r: string)
    ensures r == NA <==> Missing(value) || Trim(value.value) == NA
    ensures r != NA ==> IsTrimmed(r) && StripsTo(value.value, r)
  {
    if Missing(value) then NA
    else
      TrimShape(value.value);
      Trim(value.value)
  }

  /** A whitespace-only value formats to the empty string, which itself formats
      to "N/A": `formatValue` is not idempotent. */
  lemma FormatValueNotIdempotent(blank: string)
    requires blank != "" && AllSpace(blank)
    ensures FormatValue(Some(blank)) == ""
    ensures FormatValue(Some(FormatValue(Some(blank)))) == NA
  {
    TrimAllSpace(blank);
    assert blank != NA by { assert !IsSpace(NA[0]); }
  }

  // ---------------------------------------------------------------------------
  // Field visibility.

  /** An element id together with the key of the value it displays. */
  datatype Field = Field(id: string, key: string)

  /** The fields hidden when their value is unavailable. */
  const ConditionalFields: seq<Field> := [
    Field("industryPe", "industry_pe"),
    Field("currentRatio", "current_ratio"),
    Field("debtToEquity", "debt_to_equity"),
    Field("promoterChange", "promoter_change")
  ]

  /** The selector of the financial-health section. */
  const HealthSection := ".metrics-section:nth-of-type(3)"

  /** `data[key] && data[key] !== 'N/A'`. */
  predicate Available(data: map<string, string>, key: string) {
    key in data && data[key] != "" && data[key] != NA
  }

  /** The `style.display` value for a shown or hidden element. */
  function DisplayFor(shown: bool): string {
    if shown then "block" else "none"
  }

  /** The financial-health section is shown when either of its metrics is. */
  predicate HealthShown(data: map<string, string>) {
    Available(data, "current_ratio") || Available(data, "debt_to_equity")
  }

  /** No two fields share an element id. */
  predicate DistinctIds(fields: seq<Field>) {
    forall a, b :: 0 <= a < b < |fields| ==> fields[a].id != fields[b].id
  }

  /** No field of `fields` has element id `id`. */
  predicate NotAmong(fields: seq<Field>, id: string) {
    forall j :: 0 <= j < |fields| ==> fields[j].id != id
  }

  lemma ConditionalIdsDistinct()
    ensures DistinctIds(ConditionalFields)
  {
    assert ConditionalFields[0].id[0] == 'i';
    assert ConditionalFields[1].id[0] == 'c';
    assert ConditionalFields[2].id[0] == 'd';
    assert ConditionalFields[3].id[0] == 'p';
  }

  /** The `style.display` map after the `forEach` over `fields`: each field
      whose element is present is set from its value; missing ones are skipped. */
  function ShowFields(display: map<string, string>, data: map<string, string>, fields: seq<Field>): map<string, string> {
    if fields == [] then display
    else
      var f := fields[|fields| - 1];
      var d := ShowFields(display, data, fields[..|fields| - 1]);
      if f.id in d then d[f.id := DisplayFor(Available(data, f.key))] else d
  }

  /** The `forEach` adds and removes no element. */
  lemma {:induction false} ShowFieldsKeys(display: map<string, string>, data: map<string, string>, fields: seq<Field>)
    ensures ShowFields(display, data, fields).Keys == display.Keys
  {
    if fields != [] {
      ShowFieldsKeys(display, data, fields[..|fields| - 1]);
    }
  }

  /** The `forEach` leaves every element that is not one of the fields alone. */
  lemma {:induction false} ShowFieldsFrame(display: map<string, string>, data: map<string, string>, fields: seq<Field>, id: string)
    requires id in display && NotAmong(fields, id)
    ensures id in ShowFields(display, data, fields)
    ensures ShowFields(display, data, fields)[id] == display[id]
  {
    if fields != [] {
      var init := fields[..|fields| - 1];
      assert NotAmong(init, id) by {
        forall j | 0 <= j < |init| ensures init[j].id != id {
          assert init[j] == fields[j];
        }
      }
      ShowFieldsFrame(display, data, init, id);
      assert fields[|fields| - 1].id != id;
    }
  }

  /** With distinct ids, the `forEach` sets every present field from its own
      value. */
  lemma {:induction false} ShowFieldsSets(display: map<string, string>, data: map<string, string>, fields: seq<Field>, j: int)
    requires DistinctIds(fields) && 0 <= j < |fields| && fields[j].id in display
    ensures fields[j].id in ShowFields(display, data, fields)
    ensures ShowFields(display, data, fields)[fields[j].id] == DisplayFor(Available(data, fields[j].key))
  {
    var init := fields[..|fields| - 1];
    var f := fields[|fields| - 1];
    ShowFieldsKeys(display, data, init);
    if j < |fields| - 1 {
      assert init[j] == fields[j];
      assert DistinctIds(init) by {
        forall a, b | 0 <= a < b < |init| ensures init[a].id != init[b].id {
          assert init[a] == fields[a] && init[b] == fields[b];
        }
      }
      ShowFieldsSets(display, data, init, j);
      assert fields[j].id != f.id;
    }
  }

  /** The financial-health step of `updateFieldVisibility`. */
  function ShowSection(display: map<string, string>, data: map<string, string>): map<string, string> {
    if HealthSection in display then display[HealthSection := DisplayFor(HealthShown(data))] else display
  }

  /** The display map `updateFieldVisibility` leaves behind. */
  function Visibility(display: map<string, string>, data: map<string, string>): map<string, string> {
    ShowSection(ShowFields(display, data, ConditionalFields), data)
  }

  /** Each present conditional field is shown exactly when its value is
      available, the present section exactly when either of its metrics is;
      missing elements are skipped and no other element changes. */
  lemma VisibilitySpec(display: map<string, string>, data: map<string, string>)
    ensures Visibility(display, data).Keys == display.Keys
    ensures forall f :: f in ConditionalFields && f.id in display ==>
      Visibility(display, data)[f.id] == DisplayFor(Available(data, f.key))
    ensures HealthSection in display ==> Visibility(display, data)[HealthSection] == DisplayFor(HealthShown(data))
    ensures forall id :: id in display && NotAmong(ConditionalFields, id) && id != HealthSection ==>
      Visibility(display, data)[id] == display[id]
  {
    var fields := ConditionalFields;
    ConditionalIdsDistinct();
    ShowFieldsKeys(display, data, fields);
    forall j | 0 <= j < |fields| && fields[j].id in display
      ensures ShowFields(display, data, fields)[fields[j].id] == DisplayFor(Available(data, fields[j].key))
    {
      ShowFieldsSets(display, data, fields, j);
    }
    forall id | id in display && NotAmong(fields, id)
      ensures ShowFields(display, data, fields)[id] == display[id]
    {
      ShowFieldsFrame(display, data, fields, id);
    }
    assert forall f :: f in fields ==> f.id != HealthSection;
  }

  /** The part of the document the script restyles: every element present,
      keyed by its id (the section by its selector), with its `style.display`. */
  class Page {
    var display: map<string, string>

    constructor (display: map<string, string>)
      ensures this.display == display
    {
      this.display := display;
    }

    /** `updateFieldVisibility`, whose effect `VisibilitySpec` describes. */
    method UpdateFieldVisibility(data: map<string, string>)
      modifies this
      ensures display == Visibility(old(display), data)
    {
      for i := 0 to |ConditionalFields|
        invariant display == ShowFields(old(display), data, ConditionalFields[..i])
      {
        var field := ConditionalFields[i];
        assert ConditionalFields[..i + 1][..i] == ConditionalFields[..i];
        if field.id in display {
          if Available(data, field.key) {
            display := display[field.id := "block"];
          } else {
            display := display[field.id := "none"];
          }
        }
      }
      assert ConditionalFields[..|ConditionalFields|] == ConditionalFields;
      var hasCurrentRatio := Available(data, "current_ratio");
      var hasDebtToEquity := Available(data, "debt_to_equity");
      if HealthSection in display {
        if hasCurrentRatio || hasDebtToEquity {
          display := display[HealthSection := "block"];
        } else {
          display := display[HealthSection := "none"];
        }
      }
    }
  }

  /** The record app.py sends carries none of the conditional keys, so with that
      back end every conditional field and the financial-health section end up
      hidden. */
  lemma FlaskRecordHidesOptionalFields(data: map<string, string>, symbol: string, doc: FlaskApp.Document)
    requires FlaskApp.IsRecord(data, symbol, doc)
    ensures forall f :: f in ConditionalFields ==> !Available(data, f.key)
    ensures !HealthShown(data)
  {
    assert data.Keys == FlaskApp.RecordKeys;
    assert "industry_pe" !in data && "current_ratio" !in data;
    assert "debt_to_equity" !in data && "promoter_change" !in data;
  }

  // ---------------------------------------------------------------------------
  // The checks in `searchStock`.

  const EmptyMessage := "Please enter a stock symbol."
  const InvalidMessage := "Please enter a valid stock symbol (letters only, no numbers or special characters)."

  /** What `searchStock` does with the input: show a message, or request a path. */
  datatype SearchOutcome = ShowMessage(text: string) | Request(path: string)

  /** `searchStock` up to the request: trim and upper-case the input, stop with
      a message when it is empty or not a valid symbol, else request the API. */
  method SearchStock(input: string) returns (outcome: SearchOutcome)
    ensures outcome == ShowMessage(EmptyMessage) <==> Trim(input) == ""
    ensures outcome == ShowMessage(InvalidMessage) <==> Trim(input) != "" && !IsValidStockSymbol(Trim(input))
    ensures outcome.Request? <==> IsValidStockSymbol(Trim(input))
    ensures outcome.Request? ==> outcome.path == "/api/screener/" + ToUpper(Trim(input))
    ensures outcome.Request? ==>
      var symbol := outcome.path[|"/api/screener/"|..];
      1 <= |symbol| <= 10 && forall i :: 0 <= i < |symbol| ==> IsAsciiUpper(symbol[i])
  {
    var symbol := ToUpper(Trim(input));
    ToUpperShape(Trim(input));
    ValidityIgnoresCase(Trim(input));
    if symbol == "" {
      outcome := ShowMessage(EmptyMessage);
      return;
    }
    if !IsValidStockSymbol(symbol) {
      outcome := ShowMessage(InvalidMessage);
      return;
    }
    outcome := Request("/api/screener/" + symbol);
    assert outcome.path[|"/api/screener/"|..] == symbol;
  }
}
