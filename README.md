# Publication search: query parsing and SQL compilation

This Dafny project models the query pipeline of a small publication-search
web application (`search-application/app.py`). A quick search takes a
free-text query. `parse_natural_query` turns it into a sparse dict of
search fields (title, authors, abstract, affiliations, DOI, WoS categories,
year). A "filter by" dropdown may replace that dict with a single field.
`build_duckdb_query` then compiles the dict into a DuckDB SQL text over the
publications parquet file. The CSV download does the same with an
advanced-search form, whose year-from and year-to inputs become one year
condition.

The model has six modules:

- `Wrappers` (`wrappers.dfy`) holds the `Option` type.
- `PyStr` (`pystr.dfy`) holds the Python string operations the code uses,
  each with lemmas about what it computes:
  - `sub in s`: it holds exactly when `sub` occurs at some index;
  - `lower()`: it keeps the length and every character but an upper-case
    ASCII letter, lowers each such letter, and is idempotent;
  - `strip()`: it keeps the slice between leading and trailing whitespace,
    and is idempotent;
  - `split(sep)[-1]`: it is the suffix that follows the last occurrence of
    a separator that cannot overlap itself;
  - `len(split())`: the count is zero exactly for blank text, one for a
    single word, and adds up across a run of whitespace;
  - `sep.join`: it holds every item, and one more item appends the
    separator and that item;
  - `str(int)`: it is an integer literal that reads back as the number;
  - `re.search(r'(\d{4})')`: it finds the leftmost run of four digits.
- `Fields` (`fields.dfy`) is the closed set of dict keys. A params dict is
  a `map<Field, string>`.
- `NaturalQuery` (`natural_query.dfy`) models `parse_natural_query`.
  - The methods follow the source's `if/elif` chain, its indicator loop
    with `break`, the fallback and the final dict comprehension.
  - They are proved equal to the rule-based function `Parse`.
  - The parser's promises are lemmas about `Parse`.
- `DuckDbQuery` (`duckdb_query.dfy`) models `build_duckdb_query`.
  - The method appends conditions field by field, like the source.
  - It is proved equal to `Sql`.
  - Lemmas state which conditions appear, in what order and in what form,
    and what pagination adds.
- `Routes` (`routes.dfy`) models the part of `quick_search` and `download`
  that runs before the database call:
  - the `filter_by` override;
  - the empty-query error;
  - the download params and their year string.

The query type that `get_query_type` derives from sentence embeddings is an
input, `Option<QueryType>`. `None` means that no archetype scored above 0.5.

## Model

| member | source | states |
|---|---|---|
| NaturalQuery.ParseNaturalQuery | search-application/app.py:55-99 | the parser, run step by step as the source does, returns exactly the dict the rule-based definition `Parse` describes |
| NaturalQuery.ApplyTypedRule | search-application/app.py:56-92 | the `if/elif` over the query type leaves the blank six-key dict with at most the typed rule's field set to the rule's value |
| NaturalQuery.AssignFromIndicators | search-application/app.py:76-92 | the indicator loop sets the field to the stripped last piece after the first listed indicator that occurs, and leaves the dict unchanged when none occurs |
| NaturalQuery.FirstIndicator | search-application/app.py:76-77 | the chosen position holds an indicator that occurs, and no earlier indicator occurs; None means that no indicator occurs |
| NaturalQuery.FirstIndicatorAt | search-application/app.py:76-80 | the first occurring indicator, scanning in list order, is the one `FirstIndicator` names |
| NaturalQuery.ParseShape | search-application/app.py:56-99 | the result uses only year, abstract, authors and affiliations keys, and every value is non-empty and stripped; a blank query gives `{}`, any other query exactly one key |
| NaturalQuery.YearRule | search-application/app.py:65-74 | a year query gets the leftmost four digits prefixed by `>=` (after/since), else `<=` (before/until), else `=`; without four digits the fallback decides |
| NaturalQuery.IndicatorRule | search-application/app.py:75-92 | the first listed indicator that occurs wins; its value is the suffix of the lowered query after the indicator's last occurrence (it follows an occurrence, holds none, and starts after every occurrence); that value, stripped, fills the type's field, and an empty value or no indicator leaves it to the fallback |
| NaturalQuery.IndicatorsDoNotOverlap | search-application/app.py:76-90 | none of the seven indicators can overlap itself, so Python's left-to-right split ends its last piece's separator at the indicator's last occurrence |
| NaturalQuery.IndicatorFound | search-application/app.py:76-93 | when indicator k is the first found, the dict is the one-key dict of its stripped piece, or the fallback when that piece is empty |
| NaturalQuery.IndicatorAbsent | search-application/app.py:76-93 | when no indicator occurs, the dict is the fallback's |
| NaturalQuery.FallbackRule | search-application/app.py:93-98 | when the typed rule produced no text, the stripped query in its original case goes to abstract when it has more than two words, to authors otherwise, and nowhere when it is blank |
| NaturalQuery.ConcerningNeverChosen | search-application/app.py:76-77 | "concerning" contains "on", which comes earlier in the list, so the last topic indicator is never the one chosen |
| NaturalQuery.TypedValueStripped | search-application/app.py:66-78 | every value a typed rule assigns is already free of surrounding whitespace |
| NaturalQuery.BlankQueryAssignsNothing | search-application/app.py:65-92 | a query made only of whitespace makes every typed rule set nothing or an empty value |
| NaturalQuery.BlankPieceIsEmpty | search-application/app.py:78 | any piece split from whitespace-only text strips to the empty string |
| NaturalQuery.ParseAgrees | search-application/app.py:93-99 | blank dict, typed rule, fallback and final comprehension, composed, equal `Parse` |
| NaturalQuery.CleanedSingle | search-application/app.py:99 | the comprehension keeps exactly the one field holding stripped text, or nothing when that text is empty |
| PyStr.Strip | search-application/app.py:94 | `strip()` leaves no whitespace at either end and is empty exactly when the input is all whitespace |
| PyStr.StripSlice | search-application/app.py:94 | what `strip()` keeps is a slice of the input with only whitespace before and after it |
| PyStr.StripIdempotent | search-application/app.py:99 | stripping twice is stripping once |
| PyStr.TrimStartSpec | search-application/app.py:94 | `lstrip()` drops a whitespace prefix and leaves a suffix that does not start with whitespace |
| PyStr.TrimEndSpec | search-application/app.py:94 | `rstrip()` drops a whitespace suffix and leaves a prefix that does not end with whitespace |
| PyStr.LowerKeepsSpaces | search-application/app.py:69 | lowering keeps the length and keeps whitespace as whitespace |
| PyStr.LowerSpec | search-application/app.py:69 | lowering keeps the length and every character that is not an upper-case ASCII letter, moves each such letter 32 code points up to its lower-case partner, and leaves no upper-case ASCII letter |
| PyStr.LowerIdempotent | search-application/app.py:69 | lowering twice is lowering once |
| PyStr.ContainsIff | search-application/app.py:77 | Python's `sub in s` holds exactly when `sub` occurs at some index of `s` |
| PyStr.ContainsMiddle | search-application/app.py:76-77 | a string holding `a + b + c` holds `b` |
| PyStr.SplitLast | search-application/app.py:78 | `split(sep)[-1]` is a suffix of the input |
| PyStr.SplitLastSpec | search-application/app.py:78 | when the separator occurs, the last piece is a suffix right after an occurrence and holds no occurrence itself |
| PyStr.SplitLastHasNoSep | search-application/app.py:78 | the last piece never holds the separator |
| PyStr.SplitLastAfterSep | search-application/app.py:78 | when the separator occurs, one occurrence ends where the last piece begins |
| PyStr.SplitLastAfterLast | search-application/app.py:78 | for a separator that cannot overlap itself, every occurrence ends before the last piece begins: the piece follows the last occurrence |
| PyStr.NoSelfOverlapByShift | search-application/app.py:76-90 | a separator whose every shifted copy disagrees with it in its first two characters cannot overlap itself |
| PyStr.WordCountZero | search-application/app.py:95 | `len(s.split())` is zero exactly when `s` is all whitespace |
| PyStr.WordCountWord | search-application/app.py:95 | a non-empty run without whitespace counts as one word |
| PyStr.WordCountSpaces | search-application/app.py:95 | leading whitespace adds no word |
| PyStr.WordCountJoin | search-application/app.py:95 | text cut by a run of whitespace has the words of both sides, added up |
| PyStr.FirstFourDigitsFrom | search-application/app.py:66 | the leftmost start of four digits at or after a position, or None when there is none |
| PyStr.SearchFourDigits | search-application/app.py:66-68 | the matched group is four digits of the query with no earlier four-digit run; None exactly when the query holds no four digits in a row |
| PyStr.BlankHasNoYear | search-application/app.py:66-67 | whitespace holds no year |
| PyStr.NatToString | search-application/app.py:149 | `str(n)` is a non-empty digit string without a leading zero |
| PyStr.NatToStringRoundTrip | search-application/app.py:149 | the digits `str(n)` writes read back as `n` |
| PyStr.IntToStringRoundTrip | search-application/app.py:149 | `str(n)` for any integer, negative ones included, is an integer literal that reads back as `n` |
| PyStr.JoinContains | search-application/app.py:128 | `" AND ".join(xs)` holds every item of `xs` |
| PyStr.JoinAppend | search-application/app.py:128 | joining one more item appends the separator and that item |
| DuckDbQuery.BuildDuckDbQuery | search-application/app.py:105-150 | the builder's text is `Sql`: the fixed SELECT, the WHERE clause of the conditions, and `LIMIT per_page OFFSET offset` exactly when `limit` is set |
| DuckDbQuery.CollectConditions | search-application/app.py:107-127 | the seven `if`s append exactly `Conditions(params)`, field by field |
| DuckDbQuery.Rank | search-application/app.py:108-127 | every field has one position in the order the builder tests fields |
| DuckDbQuery.IncludedUpTo | search-application/app.py:108-127 | the fields among the first k that yield a condition, in testing order |
| DuckDbQuery.ConditionsMatchUpTo | search-application/app.py:108-127 | after the first k fields are tested, the conditions pair one to one with the included fields |
| DuckDbQuery.ConditionsFollowFields | search-application/app.py:107-128 | a field yields a condition exactly when it is truthy and, for the year, accepted; conditions come in the order year, title, authors, abstract, affiliations, doi, wos_categories, one per such field, each that field's own condition |
| DuckDbQuery.UnacceptedYearDropped | search-application/app.py:108-112 | a year value that neither holds BETWEEN nor starts with `>=`, `<=` or `=` is silently dropped: the conditions are those of the dict without a year |
| DuckDbQuery.TextConditionsUseLike | search-application/app.py:113-127 | every text condition tests the lowered column against the lowered value in `%` wildcards; the abstract one tests both `abstract.s` and `abstract.w` |
| DuckDbQuery.LikeTestParts | search-application/app.py:114 | a LIKE test holds the lowered column and the wildcard pattern |
| DuckDbQuery.AbstractTestsBoth | search-application/app.py:117-121 | the abstract condition holds the LIKE tests of both abstract columns |
| DuckDbQuery.WhereClauseIffIncluded | search-application/app.py:128 | there is no WHERE clause exactly when no field yields a condition; otherwise the clause opens with `WHERE ` |
| DuckDbQuery.WhereClauseHolds | search-application/app.py:128 | the WHERE clause holds every condition |
| DuckDbQuery.SqlHoldsWhere | search-application/app.py:130-149 | the SQL text holds its WHERE clause |
| DuckDbQuery.SqlHoldsConditions | search-application/app.py:107-149 | the SQL text holds the condition of every field that yields one |
| DuckDbQuery.Offset | search-application/app.py:129 | the offset is `(page-1)*per_page` from page 1 on, 0 below it, and never negative for a non-negative page size |
| DuckDbQuery.NextPageOffset | search-application/app.py:129 | consecutive pages start `per_page` rows apart |
| DuckDbQuery.PaginationSuffix | search-application/app.py:148-149 | without pagination the text depends on neither the page nor the page size; the paginated text is that text plus the LIMIT/OFFSET suffix |
| Routes.FilterFieldNames | search-application/app.py:174-186 | a filter value selects a field exactly when it is that field's dict key, except that "keywords" selects the WoS categories; the year is never selectable |
| Routes.ApplyFilterBy | search-application/app.py:174-186 | a recognised filter replaces the parsed dict with a one-key dict holding the whole query; any other value, the empty one included, keeps the parsed dict |
| Routes.QuickSearch | search-application/app.py:162-187 | a blank query is refused with "Please enter a search query"; otherwise the stripped query is parsed, possibly overridden by the stripped, lowered filter, and compiled into the first page of twenty rows |
| Routes.FilteredSearchOneCondition | search-application/app.py:174-187 | a filtered quick search tests only the chosen field, against the whole query |
| Routes.UnfilteredSearchOneCondition | search-application/app.py:172-187 | an unfiltered quick search of a non-blank query compiles to exactly one condition |
| Routes.ParsedYearAccepted | search-application/app.py:108-112 | every year the parser produces passes the builder's year check |
| Routes.OnlyFieldIncluded | search-application/app.py:107-127 | a one-key dict whose field yields a condition compiles to that condition alone |
| Routes.InOrderSpread | search-application/app.py:108-127 | along the builder's field order, first and last ranks are at least the length minus one apart |
| Routes.YearRangeAccepted | search-application/app.py:227-234 | the download's year string is empty exactly when both bounds are, and otherwise passes the builder's year check |
| Routes.Download | search-application/app.py:217-236 | the download's dict holds every stripped text input and the year string of the stripped bounds (`BETWEEN a AND b`, `>= a`, `<= b` or empty); its SQL is the unpaginated text |
| Routes.DownloadTextFields | search-application/app.py:217-223 | each text field of the download dict holds its input, stripped |
| Routes.DownloadFilters | search-application/app.py:217-236 | a download tests the year exactly when either bound holds text, and each text field exactly when its input holds a non-whitespace character |

## Left out

- `get_query_type` (app.py:42-53): sentence-transformer embeddings and a cosine-similarity threshold. This is floating point and a learned model, so the query type is an input.
- Flask plumbing: request parsing into strings, template rendering, the `index` route and the CSV `Response`. The handlers take plain strings and return the dict and SQL text they hand on.
- Running the SQL with DuckDB, the "No results found" branch and converting rows to records. These are database I/O.
- The "Error building query" branch and the `except` paths of `build_duckdb_query` and `quick_search`. Over well-typed string inputs the builder raises nothing, so it always returns text.
- The download timestamp and CSV encoding: a clock and pandas.
- `torch.set_num_threads` and `torch.set_grad_enabled`: runtime settings with no effect on the logic.
- `script.js`, `swiss_standardizer.py` and `converter.py`: front-end code and data preparation outside the query path.
- Non-ASCII case mapping: `lower()` (PyStr.Lower) lowers ASCII letters only, while Python's `str.lower()` also maps other letters.
- Non-ASCII digits: `\d` (PyStr.IsDigit) is taken as the ASCII digits, while Python's `re` also matches other Unicode decimal digits.
- Windows paths: `os.path.join` (DuckDbQuery.DataPath) is taken with the POSIX separator.
- `build_duckdb_query` is modelled for `str` values only; the source's `str(params['year'])` on a non-string year is not.
