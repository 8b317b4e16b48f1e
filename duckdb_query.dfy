/**
 * `build_duckdb_query`: one SQL condition per truthy field, in a fixed
 * order, joined with AND into the WHERE clause of a fixed SELECT over the
 * parquet file, with LIMIT/OFFSET appended when the search is paginated.
 * Values are spliced into the text as they are.
 */
module DuckDbQuery {
  import opened PyStr
  import opened Fields

  /** `os.path.join("data", "publication_details.parquet")` on a POSIX host. */
  const DataPath: string := "data/publication_details.parquet"

  /** The builder's default page size. */
  const DefaultPerPage: int := 20

  /** The order in which the builder tests the fields. */
  const FieldOrder: seq<Field> := [Year, Title, Authors, Abstract, Affiliations, Doi, WosCategories]

  /** A field's position in `FieldOrder`. */
  function Rank(f: Field): (r: nat)
    ensures r < |FieldOrder| && FieldOrder[r] == f
  {
    match f
    case Year => 0
    case Title => 1
    case Authors => 2
    case Abstract => 3
    case Affiliations => 4
    case Doi => 5
    case WosCategories => 6
  }

  /** Fields listed in strictly increasing `FieldOrder` position. */
  predicate InOrder(fields: seq<Field>) {
    forall i, j :: 0 <= i < j < |fields| ==> Rank(fields[i]) < Rank(fields[j])
  }

  /** The year check: the value mentions BETWEEN or starts with `>=`, `<=` or `=`. */
  predicate YearAccepted(year: string) {
    Contains(year, "BETWEEN") || ">=" <= year || "<=" <= year || "=" <= year
  }

  /** `params` makes the builder emit a condition for `f`. */
  predicate Included(params: Params, f: Field) {
    Truthy(params, f) && (f == Year ==> YearAccepted(params[f]))
  }

  /** The column a one-column text field is tested against. */
  function Column(f: Field): string
    requires f != Year && f != Abstract
  {
    match f
    case Title => "article title"
    case Authors => "author full names"
    case Affiliations => "affiliations"
    case Doi => "doi"
    case WosCategories => "wos categories"
  }

  /** A column's text, lowered by SQL. */
  function LoweredColumn(column: string): string {
    "lower(\"" + column + "\")"
  }

  /** The LIKE pattern matching any text that holds the lowered value. */
  function Wildcard(value: string): string {
    "'%" + Lower(value) + "%'"
  }

  /** A case-insensitive substring test of one column. */
  function LikeTest(column: string, value: string): string {
    LoweredColumn(column) + " LIKE " + Wildcard(value)
  }

  /** The condition a field contributes: the year value after the column
      name, a LIKE test of the lowered value otherwise, over both abstract
      columns for the abstract. */
  function Condition(f: Field, value: string): string {
    match f
    case Year => "\"year\" " + value
    case Abstract =>
      "(" + LikeTest("abstract.s", value) + " OR \n                    " + LikeTest("abstract.w", value) + ")"
    case _ => LikeTest(Column(f), value)
  }

  /** What testing field `f` appends to the condition list. */
  function Emitted(params: Params, f: Field): seq<string> {
    if Included(params, f) then [Condition(f, params[f])] else []
  }

  /** The conditions after the first `k` fields of `FieldOrder` are tested. */
  function ConditionsUpTo(params: Params, k: nat): seq<string>
    requires k <= |FieldOrder|
  {
    if k == 0 then [] else ConditionsUpTo(params, k - 1) + Emitted(params, FieldOrder[k - 1])
  }

  /** The fields that yield a condition among the first `k` of `FieldOrder`. */
  function IncludedUpTo(params: Params, k: nat): (r: seq<Field>)
    requires k <= |FieldOrder|
    ensures forall f :: f in r <==> Rank(f) < k && Included(params, f)
    ensures InOrder(r)
    ensures forall f :: f in r ==> Rank(f) < k
  {
    if k == 0 then []
    else
      var rest := IncludedUpTo(params, k - 1);
      var f := FieldOrder[k - 1];
      assert Rank(f) == k - 1;
      if Included(params, f) then rest + [f] else rest
  }

  /** Every condition, in order. */
  function Conditions(params: Params): seq<string> {
    ConditionsUpTo(params, |FieldOrder|)
  }

  /** Every field that yields a condition, in order. */
  function IncludedFields(params: Params): seq<Field> {
    IncludedUpTo(params, |FieldOrder|)
  }

  /** The condition list pairs up with the included fields. */
  lemma {:induction false} ConditionsMatchUpTo(params: Params, k: nat)
    requires k <= |FieldOrder|
    ensures |ConditionsUpTo(params, k)| == |IncludedUpTo(params, k)|
    ensures forall i :: 0 <= i < |IncludedUpTo(params, k)| ==>
              IncludedUpTo(params, k)[i] in params &&
              ConditionsUpTo(params, k)[i] == Condition(IncludedUpTo(params, k)[i], params[IncludedUpTo(params, k)[i]])
  {
    if k > 0 {
      ConditionsMatchUpTo(params, k - 1);
      var fields, conds := IncludedUpTo(params, k - 1), ConditionsUpTo(params, k - 1);
      var f := FieldOrder[k - 1];
      if Included(params, f) {
        assert IncludedUpTo(params, k) == fields + [f];
        assert ConditionsUpTo(params, k) == conds + [Condition(f, params[f])];
      } else {
        assert IncludedUpTo(params, k) == fields;
        assert ConditionsUpTo(params, k) == conds;
      }
    }
  }

  /** A field yields a condition exactly when it is truthy and, for the
      year, accepted; the conditions come in `FieldOrder` order, one per
      such field, each the field's own condition. */
  lemma ConditionsFollowFields(params: Params)
    ensures forall f :: f in IncludedFields(params) <==> Included(params, f)
    ensures forall f :: f != Year ==> (f in IncludedFields(params) <==> Truthy(params, f))
    ensures InOrder(IncludedFields(params))
    ensures |Conditions(params)| == |IncludedFields(params)|
    ensures forall i :: 0 <= i < |IncludedFields(params)| ==>
              var f := IncludedFields(params)[i];
              f in params && Conditions(params)[i] == Condition(f, params[f])
  {
    ConditionsMatchUpTo(params, |FieldOrder|);
  }

  /** A year value that neither mentions BETWEEN nor starts with a
      comparison is dropped without an error. */
  lemma UnacceptedYearDropped(params: Params)
    requires Year in params && !YearAccepted(params[Year])
    ensures Conditions(params) == Conditions(params - {Year})
  {
    var other := params - {Year};
    forall k: nat | k <= |FieldOrder| ensures ConditionsUpTo(params, k) == ConditionsUpTo(other, k) {
      ConditionsUpToAgree(params, other, k);
    }
  }

  lemma {:induction false} ConditionsUpToAgree(params: Params, other: Params, k: nat)
    requires k <= |FieldOrder|
    requires Year in params && !YearAccepted(params[Year]) && other == params - {Year}
    ensures ConditionsUpTo(params, k) == ConditionsUpTo(other, k)
  {
    if k > 0 {
      ConditionsUpToAgree(params, other, k - 1);
      var f := FieldOrder[k - 1];
      assert Emitted(params, f) == Emitted(other, f);
    }
  }

  /** A LIKE test names its lowered column and holds the lowered value
      between `%` wildcards. */
  lemma LikeTestParts(column: string, value: string)
    ensures Contains(LikeTest(column, value), Wildcard(value))
    ensures Contains(LikeTest(column, value), LoweredColumn(column))
  {
    var head := LoweredColumn(column) + " LIKE ";
    ContainsRight(head, Wildcard(value));
    ContainsLeft(LoweredColumn(column), " LIKE ");
    ContainsLeft(head, Wildcard(value));
    ContainsTrans(LikeTest(column, value), head, LoweredColumn(column));
  }

  /** Every text condition tests its column's lowered text against the
      lowered value wrapped in `%` wildcards; the abstract one tests both
      abstract columns. */
  lemma TextConditionsUseLike(f: Field, value: string)
    requires f != Year
    ensures Contains(Condition(f, value), Wildcard(value))
    ensures f == Abstract ==>
              Contains(Condition(f, value), LikeTest("abstract.s", value)) &&
              Contains(Condition(f, value), LikeTest("abstract.w", value))
    ensures f != Abstract ==> Contains(Condition(f, value), LoweredColumn(Column(f)))
  {
    if f == Abstract {
      AbstractTestsBoth(value);
      LikeTestParts("abstract.s", value);
      ContainsTrans(Condition(f, value), LikeTest("abstract.s", value), Wildcard(value));
    } else {
      LikeTestParts(Column(f), value);
    }
  }

  /** The abstract condition holds the LIKE tests of both abstract columns. */
  lemma AbstractTestsBoth(value: string)
    ensures Contains(Condition(Abstract, value), LikeTest("abstract.s", value))
    ensures Contains(Condition(Abstract, value), LikeTest("abstract.w", value))
  {
    var s := LikeTest("abstract.s", value);
    var w := LikeTest("abstract.w", value);
    var mid := " OR \n                    ";
    var c := Condition(Abstract, value);
    var open := "(" + s + mid + w;
    ContainsLeft(open, ")");
    ContainsRight("(" + s + mid, w);
    ContainsTrans(c, open, w);
    ContainsRight("(", s);
    ContainsLeft("(" + s, mid);
    ContainsTrans("(" + s + mid, "(" + s, s);
    ContainsLeft("(" + s + mid, w);
    ContainsTrans(open, "(" + s + mid, s);
    ContainsTrans(c, open, s);
  }

  /** `"WHERE " + " AND ".join(conditions) if conditions else ""`. */
  function WhereClause(conditions: seq<string>): string {
    if |conditions| > 0 then "WHERE " + Join(" AND ", conditions) else ""
  }

  /** The number of rows on the pages before `page`; 0 for the first page
      and for a page number below one. */
  function Offset(page: int, perPage: int): (offset: int)
    ensures perPage >= 0 ==> offset >= 0
    ensures page >= 1 ==> offset == (page - 1) * perPage
    ensures page < 1 ==> offset == 0
  {
    if page > 1 then (page - 1) * perPage else 0
  }

  /** Consecutive pages start `perPage` rows apart. */
  lemma NextPageOffset(page: int, perPage: int)
    requires page >= 1
    ensures Offset(page + 1, perPage) == Offset(page, perPage) + perPage
  {
    assert page * perPage == (page - 1) * perPage + perPage;
  }

  /** The columns the query selects, in order. */
  const SelectedColumns: seq<string> := [
    "article title", "abstract.s", "abstract.w", "affiliations", "author full names",
    "authors", "doi", "wos categories", "year"]

  /** One line of the select list per column, each quoted and followed by a comma. */
  function ColumnLines(columns: seq<string>): string {
    if columns == [] then "" else "                \"" + columns[0] + "\",\n" + ColumnLines(columns[1..])
  }

  /** The text before the WHERE clause, reading the parquet file at `path`. */
  function SelectHead(path: string): string {
    "\n        WITH filtered_results AS (\n            SELECT \n"
    + ColumnLines(SelectedColumns)
    + "                COUNT(*) OVER() as total_count\n"
    + "            FROM read_parquet('" + path + "')\n            "
  }

  /** The text after the WHERE clause. */
  const SelectTail: string := "\n        )\n        SELECT * FROM filtered_results\n        "

  /** The pagination suffix. */
  function LimitClause(perPage: int, offset: int): string {
    " LIMIT " + IntToString(perPage) + " OFFSET " + IntToString(offset)
  }

  /** The SQL text for a params dict and a page request. */
  function Sql(params: Params, limit: bool, page: int, perPage: int): string {
    var text := SelectHead(DataPath) + WhereClause(Conditions(params)) + SelectTail;
    if limit then text + LimitClause(perPage, Offset(page, perPage)) else text
  }

  /** The query has no WHERE clause exactly when no field yields a
      condition; otherwise the clause opens with `WHERE `. */
  lemma WhereClauseIffIncluded(params: Params)
    ensures WhereClause(Conditions(params)) == "" <==> forall f :: !Included(params, f)
    ensures WhereClause(Conditions(params)) != "" ==> "WHERE " <= WhereClause(Conditions(params))
  {
    ConditionsFollowFields(params);
    if |Conditions(params)| > 0 {
      var f := IncludedFields(params)[0];
      assert Included(params, f);
    } else {
      forall f ensures !Included(params, f) {
        assert f !in IncludedFields(params);
      }
    }
  }

  /** The WHERE clause holds every condition in the list. */
  lemma WhereClauseHolds(conds: seq<string>, i: nat)
    requires i < |conds|
    ensures Contains(WhereClause(conds), conds[i])
  {
    JoinContains(" AND ", conds, i);
    ContainsRight("WHERE ", Join(" AND ", conds));
    ContainsTrans(WhereClause(conds), Join(" AND ", conds), conds[i]);
  }

  /** The SQL text holds its WHERE clause. */
  lemma SqlHoldsWhere(params: Params, limit: bool, page: int, perPage: int)
    ensures Contains(Sql(params, limit, page, perPage), WhereClause(Conditions(params)))
  {
    var where := WhereClause(Conditions(params));
    var head := SelectHead(DataPath);
    ContainsRight(head, where);
    ContainsLeft(head + where, SelectTail);
    ContainsTrans(head + where + SelectTail, head + where, where);
    if limit {
      var text := head + where + SelectTail;
      ContainsLeft(text, LimitClause(perPage, Offset(page, perPage)));
      ContainsTrans(Sql(params, limit, page, perPage), text, where);
    }
  }

  /** The SQL text holds the condition of every field that yields one. */
  lemma SqlHoldsConditions(params: Params, limit: bool, page: int, perPage: int, f: Field)
    requires Included(params, f)
    ensures Contains(Sql(params, limit, page, perPage), Condition(f, params[f]))
  {
    ConditionsFollowFields(params);
    var fields := IncludedFields(params);
    var conds := Conditions(params);
    var i :| 0 <= i < |fields| && fields[i] == f;
    WhereClauseHolds(conds, i);
    SqlHoldsWhere(params, limit, page, perPage);
    ContainsTrans(Sql(params, limit, page, perPage), WhereClause(conds), conds[i]);
  }

  /** Pagination only appends a suffix: without it the text depends on
      neither the page nor the page size. */
  lemma PaginationSuffix(params: Params, page: int, perPage: int)
    ensures Sql(params, false, page, perPage) == Sql(params, false, 1, DefaultPerPage)
    ensures Sql(params, true, page, perPage)
            == Sql(params, false, 1, DefaultPerPage) + LimitClause(perPage, Offset(page, perPage))
  {
  }

  /** `build_duckdb_query(params, limit, page, per_page)`, which appends the
      conditions one field at a time and then assembles the text. */
  method BuildDuckDbQuery(params: Params, limit: bool, page: int, perPage: int) returns (query: string)
    ensures query == Sql(params, limit, page, perPage)
  {
    var conditions := CollectConditions(params);
    var whereClause := if |conditions| > 0 then "WHERE " + Join(" AND ", conditions) else "";
    var offset := if page > 1 then (page - 1) * perPage else 0;
    query := SelectHead(DataPath) + whereClause + SelectTail;
    if limit {
      query := query + LimitClause(perPage, offset);
    }
  }

  /** The first half of `build_duckdb_query`: one `if` per field, appending
      that field's condition. */
  method CollectConditions(params: Params) returns (conditions: seq<string>)
    ensures conditions == Conditions(params)
  {
    conditions := [];
    if Truthy(params, Year) {
      if Contains(params[Year], "BETWEEN") {
        conditions := conditions + ["\"year\" " + params[Year]];
      } else if ">=" <= params[Year] || "<=" <= params[Year] || "=" <= params[Year] {
        conditions := conditions + ["\"year\" " + params[Year]];
      }
    }
    assert conditions == ConditionsUpTo(params, 1);
    if Truthy(params, Title) {
      conditions := conditions + [LikeTest("article title", params[Title])];
    }
    assert conditions == ConditionsUpTo(params, 2);
    if Truthy(params, Authors) {
      conditions := conditions + [LikeTest("author full names", params[Authors])];
    }
    assert conditions == ConditionsUpTo(params, 3);
    if Truthy(params, Abstract) {
      conditions := conditions + [
        "(" + LikeTest("abstract.s", params[Abstract]) + " OR \n                    "
        + LikeTest("abstract.w", params[Abstract]) + ")"];
    }
    assert conditions == ConditionsUpTo(params, 4);
    if Truthy(params, Affiliations) {
      conditions := conditions + [LikeTest("affiliations", params[Affiliations])];
    }
    assert conditions == ConditionsUpTo(params, 5);
    if Truthy(params, Doi) {
      conditions := conditions + [LikeTest("doi", params[Doi])];
    }
    assert conditions == ConditionsUpTo(params, 6);
    if Truthy(params, WosCategories) {
      conditions := conditions + [LikeTest("wos categories", params[WosCategories])];
    }
    assert conditions == Conditions(params);
  }
}
