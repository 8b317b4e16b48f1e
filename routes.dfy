/**
 * The two request handlers that feed the query builder: the quick search,
 * where a dropdown may override the parser, and the CSV download, where
 * the advanced-search form fills the fields and a year range becomes one
 * year condition. Rendering, query execution and the CSV response are not
 * part of this model.
 */
module Routes {
  import opened Wrappers
  import opened PyStr
  import opened Fields
  import opened NaturalQuery
  import opened DuckDbQuery

  // ---------------------------------------------------------------------
  // Quick search
  // ---------------------------------------------------------------------

  /** The field a recognised `filter_by` value restricts the search to;
      any other value (the empty one included) leaves the parser's dict. */
  function FilterField(filterBy: string): Option<Field> {
    if filterBy == "title" then Some(Title)
    else if filterBy == "abstract" then Some(Abstract)
    else if filterBy == "keywords" then Some(WosCategories)
    else if filterBy == "authors" then Some(Authors)
    else if filterBy == "affiliations" then Some(Affiliations)
    else if filterBy == "doi" then Some(Doi)
    else None
  }

  /** The dropdown offers six fields under their own dict keys, except
      that the WoS categories are offered as "keywords"; never the year. */
  lemma FilterFieldNames(filterBy: string, f: Field)
    ensures FilterField(filterBy) == Some(f) <==>
            if f == WosCategories then filterBy == "keywords"
            else f != Year && filterBy == Key(f)
  {
  }

  /** The dict the quick search compiles: a single entry holding the whole
      query for a recognised filter, the parser's dict otherwise. */
  function SearchTerms(query: string, filterBy: string, queryType: Option<QueryType>): Params {
    match FilterField(filterBy)
    case Some(f) => map[f := query]
    case None => Parse(query, queryType)
  }

  /** The `if filter_by:` chain that replaces the parsed dict. */
  method ApplyFilterBy(filterBy: string, query: string, parsed: Params) returns (params: Params)
    ensures FilterField(filterBy).Some? ==> params == map[FilterField(filterBy).value := query]
    ensures FilterField(filterBy).None? ==> params == parsed
  {
    params := parsed;
    if filterBy != "" {
      if filterBy == "title" {
        params := map[Title := query];
      } else if filterBy == "abstract" {
        params := map[Abstract := query];
      } else if filterBy == "keywords" {
        params := map[WosCategories := query];
      } else if filterBy == "authors" {
        params := map[Authors := query];
      } else if filterBy == "affiliations" {
        params := map[Affiliations := query];
      } else if filterBy == "doi" {
        params := map[Doi := query];
      }
    }
  }

  /** What the quick search hands to the results page. */
  datatype QuickOutcome =
    | Rejected(error: string)
    | Compiled(query: string, searchTerms: Params, sql: string)

  const EmptyQueryError: string := "Please enter a search query"

  /** `quick_search()` up to the database call: the stripped query is
      refused when empty, otherwise parsed (with the classifier's verdict
      supplied), possibly overridden by the stripped, lowered filter, and
      compiled into the first page of at most twenty rows. */
  method QuickSearch(rawQuery: string, rawFilterBy: string, queryType: Option<QueryType>)
    returns (outcome: QuickOutcome)
    ensures Strip(rawQuery) == "" ==> outcome == Rejected(EmptyQueryError)
    ensures Strip(rawQuery) != "" ==>
              var query := Strip(rawQuery);
              var terms := SearchTerms(query, Lower(Strip(rawFilterBy)), queryType);
              outcome == Compiled(query, terms, Sql(terms, true, 1, DefaultPerPage))
  {
    var query := Strip(rawQuery);
    if query == "" {
      return Rejected(EmptyQueryError);
    }
    var filterBy := Lower(Strip(rawFilterBy));
    var parsed := ParseNaturalQuery(query, queryType);
    var params := ApplyFilterBy(filterBy, query, parsed);
    var sql := BuildDuckDbQuery(params, true, 1, DefaultPerPage);
    outcome := Compiled(query, params, sql);
  }

  /** A filtered quick search tests exactly the chosen field, against the
      whole query. */
  lemma FilteredSearchOneCondition(query: string, filterBy: string, queryType: Option<QueryType>)
    requires query != "" && FilterField(filterBy).Some?
    ensures var f := FilterField(filterBy).value;
            Conditions(SearchTerms(query, filterBy, queryType)) == [Condition(f, query)]
  {
    var f := FilterField(filterBy).value;
    var terms := SearchTerms(query, filterBy, queryType);
    assert terms == map[f := query];
    OnlyFieldIncluded(terms, f);
  }

  /** An unfiltered quick search of a query with visible text compiles to
      exactly one condition: the parser fills one field, and a year it
      fills always carries an operator the builder accepts. */
  lemma UnfilteredSearchOneCondition(query: string, filterBy: string, queryType: Option<QueryType>)
    requires Strip(query) != "" && FilterField(filterBy).None?
    ensures |Conditions(SearchTerms(query, filterBy, queryType))| == 1
  {
    var terms := Parse(query, queryType);
    ParseShape(query, queryType);
    var f :| f in terms;
    assert terms.Keys == {f} by {
      assert |terms.Keys| == 1;
      forall g | g in terms ensures g == f {
        if g != f {
          assert {f, g} <= terms.Keys;
          assert |{f, g}| == 2;
          SubsetSize({f, g}, terms.Keys);
        }
      }
    }
    if f == Year {
      ParsedYearAccepted(query, queryType);
    }
    OnlyFieldIncluded(terms, f);
  }

  /** A year the parser produces starts with `>=`, `<=` or `=`. */
  lemma ParsedYearAccepted(query: string, queryType: Option<QueryType>)
    requires Year in Parse(query, queryType)
    ensures YearAccepted(Parse(query, queryType)[Year])
  {
    var rule := TypedRule(query, queryType);
    assert Year !in Fallback(query);
    assert rule.Some? && rule.value.1 != "" && rule.value.0 == Year;
    assert queryType == Some(YearQuery);
    var y := SearchFourDigits(query).value;
    var op := YearOperator(Lower(query));
    assert rule.value.1 == op + y;
    assert op <= op + y;
  }

  /** A dict with one field, which yields a condition, compiles to that
      field's condition alone. */
  lemma OnlyFieldIncluded(params: Params, f: Field)
    requires params.Keys == {f} && Included(params, f)
    ensures Conditions(params) == [Condition(f, params[f])]
  {
    ConditionsFollowFields(params);
    var fields := IncludedFields(params);
    assert f in fields;
    forall i | 0 <= i < |fields| ensures fields[i] == f {
      assert fields[i] in params;
    }
    InOrderSpread(fields);
    assert Rank(fields[|fields| - 1]) - Rank(fields[0]) == 0;
    assert |fields| == 1;
  }

  /** Ranks strictly increase along an ordered field list, so its first
      and last ranks lie at least its length minus one apart. */
  lemma {:induction false} InOrderSpread(fields: seq<Field>)
    requires InOrder(fields) && |fields| > 0
    ensures Rank(fields[|fields| - 1]) - Rank(fields[0]) >= |fields| - 1
    decreases |fields|
  {
    if |fields| > 1 {
      var init := fields[..|fields| - 1];
      assert InOrder(init);
      InOrderSpread(init);
      assert init[|init| - 1] == fields[|fields| - 2] && init[0] == fields[0];
      assert Rank(fields[|fields| - 2]) < Rank(fields[|fields| - 1]);
    }
  }

  lemma SubsetSize<T>(a: set<T>, b: set<T>)
    requires a <= b
    ensures |a| <= |b|
  {
    var rest := b - a;
    assert b == a + rest;
    assert a !! rest;
  }

  // ---------------------------------------------------------------------
  // Download
  // ---------------------------------------------------------------------

  /** The advanced-search form, one raw value per input (missing inputs
      are empty). */
  datatype DownloadForm = DownloadForm(
    title: string, authors: string, abstractText: string, affiliations: string,
    doi: string, wosCategories: string, yearFrom: string, yearTo: string)

  /** The year condition text for two stripped bounds: a range when both
      are given, one bound when only one is, nothing otherwise. */
  function YearRange(yearFrom: string, yearTo: string): string {
    if yearFrom != "" && yearTo != "" then "BETWEEN " + yearFrom + " AND " + yearTo
    else if yearFrom != "" then ">= " + yearFrom
    else if yearTo != "" then "<= " + yearTo
    else ""
  }

  /** The dict a download starts from: every text input stripped, no year. */
  function FormFields(form: DownloadForm): Params {
    map[Title := Strip(form.title), Authors := Strip(form.authors), Abstract := Strip(form.abstractText),
        Affiliations := Strip(form.affiliations), Doi := Strip(form.doi),
        WosCategories := Strip(form.wosCategories), Year := ""]
  }

  /** The params dict of a download: the form's fields with the year from
      the stripped bounds. */
  function DownloadParams(form: DownloadForm): Params {
    FormFields(form)[Year := YearRange(Strip(form.yearFrom), Strip(form.yearTo))]
  }

  /** A year range is empty exactly when both bounds are, and otherwise
      the builder accepts it: either it mentions BETWEEN or it starts with
      `>=` or `<=`. */
  lemma YearRangeAccepted(yearFrom: string, yearTo: string)
    ensures YearRange(yearFrom, yearTo) == "" <==> yearFrom == "" && yearTo == ""
    ensures YearRange(yearFrom, yearTo) != "" ==> YearAccepted(YearRange(yearFrom, yearTo))
  {
    var r := YearRange(yearFrom, yearTo);
    if yearFrom != "" && yearTo != "" {
      assert "BETWEEN" <= r;
    } else if yearFrom != "" {
      assert ">=" <= r;
    } else if yearTo != "" {
      assert "<=" <= r;
    }
  }

  /** `download()` up to the database call: the params dict and the SQL
      text of the whole, unpaginated result. */
  method Download(form: DownloadForm) returns (params: Params, sql: string)
    ensures params == DownloadParams(form)
    ensures sql == Sql(params, false, 1, DefaultPerPage)
  {
    params := map[Title := Strip(form.title), Authors := Strip(form.authors),
                  Abstract := Strip(form.abstractText), Affiliations := Strip(form.affiliations),
                  Doi := Strip(form.doi), WosCategories := Strip(form.wosCategories), Year := ""];
    ghost var fields := params;
    var yearFrom := Strip(form.yearFrom);
    var yearTo := Strip(form.yearTo);
    if yearFrom != "" && yearTo != "" {
      params := params[Year := "BETWEEN " + yearFrom + " AND " + yearTo];
    } else if yearFrom != "" {
      params := params[Year := ">= " + yearFrom];
    } else if yearTo != "" {
      params := params[Year := "<= " + yearTo];
    }
    assert params == fields[Year := YearRange(yearFrom, yearTo)];
    sql := BuildDuckDbQuery(params, false, 1, DefaultPerPage);
  }

  /** The raw form input behind a text field. */
  function FormInput(form: DownloadForm, f: Field): string
    requires f != Year
  {
    match f
    case Title => form.title
    case Authors => form.authors
    case Abstract => form.abstractText
    case Affiliations => form.affiliations
    case Doi => form.doi
    case WosCategories => form.wosCategories
  }

  /** Each text field of a download holds its input, stripped. */
  lemma DownloadTextFields(form: DownloadForm, f: Field)
    requires f != Year
    ensures f in DownloadParams(form) && DownloadParams(form)[f] == Strip(FormInput(form, f))
  {
    var fields := FormFields(form);
    assert DownloadParams(form)[f] == fields[f];
    match f
    case Title => assert fields[Title] == Strip(form.title);
    case Authors => assert fields[Authors] == Strip(form.authors);
    case Abstract => assert fields[Abstract] == Strip(form.abstractText);
    case Affiliations => assert fields[Affiliations] == Strip(form.affiliations);
    case Doi => assert fields[Doi] == Strip(form.doi);
    case WosCategories => assert fields[WosCategories] == Strip(form.wosCategories);
  }

  /** A download tests exactly the inputs that hold visible text, the year
      when either bound does. */
  lemma DownloadFilters(form: DownloadForm)
    ensures var fields := IncludedFields(DownloadParams(form));
            && (Year in fields <==> Strip(form.yearFrom) != "" || Strip(form.yearTo) != "")
            && (forall f :: f != Year ==> (f in fields <==> !AllSpace(FormInput(form, f))))
  {
    var params := DownloadParams(form);
    ConditionsFollowFields(params);
    YearRangeAccepted(Strip(form.yearFrom), Strip(form.yearTo));
    forall f | f != Year ensures Included(params, f) <==> !AllSpace(FormInput(form, f)) {
      DownloadTextFields(form, f);
    }
  }
}
