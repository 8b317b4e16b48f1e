/**
 * The quick-search parser `parse_natural_query`: the query type chosen by
 * the classifier selects one extraction rule; when that rule yields nothing
 * the whole query falls back to the abstract or the authors field; empty
 * values are dropped at the end.
 */
module NaturalQuery {
  import opened Wrappers
  import opened PyStr
  import opened Fields

  /** The archetype the similarity classifier picks. The classifier itself
      is an input: `None` stands for "no archetype scored above 0.5". */
  datatype QueryType = YearQuery | TopicQuery | AuthorQuery | AffiliationQuery

  const TopicIndicators: seq<string> := ["about", "on", "regarding", "concerning"]
  const AuthorIndicators: seq<string> := ["by", "from"]
  const AffiliationIndicators: seq<string> := ["from", "at"]

  /** The indicator list a non-year query type scans. */
  function Indicators(t: QueryType): seq<string>
    requires t != YearQuery
  {
    match t
    case TopicQuery => TopicIndicators
    case AuthorQuery => AuthorIndicators
    case AffiliationQuery => AffiliationIndicators
  }

  /** The field a non-year query type fills. */
  function Target(t: QueryType): Field
    requires t != YearQuery
  {
    match t
    case TopicQuery => Abstract
    case AuthorQuery => Authors
    case AffiliationQuery => Affiliations
  }

  predicate NonEmptyIndicators(indicators: seq<string>) {
    forall k :: 0 <= k < |indicators| ==> indicators[k] != []
  }

  /** The position of the first indicator, in list order, that occurs in
      `text` as a plain substring. */
  function FirstIndicator(text: string, indicators: seq<string>): (r: Option<nat>)
    ensures r.Some? ==> r.value < |indicators| && Contains(text, indicators[r.value])
    ensures r.Some? ==> forall j :: 0 <= j < r.value ==> !Contains(text, indicators[j])
    ensures r.None? ==> forall j :: 0 <= j < |indicators| ==> !Contains(text, indicators[j])
  {
    if indicators == [] then None
    else if Contains(text, indicators[0]) then Some(0)
    else
      match FirstIndicator(text, indicators[1..])
      case Some(k) => assert indicators[1..][k] == indicators[k + 1]; Some(k + 1)
      case None => None
  }

  /** The first indicator found scanning the list in order is the one
      `FirstIndicator` names. */
  lemma FirstIndicatorAt(text: string, indicators: seq<string>, i: nat)
    requires i < |indicators| && Contains(text, indicators[i])
    requires forall j :: 0 <= j < i ==> !Contains(text, indicators[j])
    ensures FirstIndicator(text, indicators) == Some(i)
  {
  }

  /** The year operator chosen by keyword in the lowered query. */
  function YearOperator(lowered: string): string {
    if Contains(lowered, "after") || Contains(lowered, "since") then ">="
    else if Contains(lowered, "before") || Contains(lowered, "until") then "<="
    else "="
  }

  /** The field and value the query type's own rule assigns, when the rule
      fires (the value of an indicator rule may still be empty). */
  function TypedRule(query: string, queryType: Option<QueryType>): Option<(Field, string)> {
    var lowered := Lower(query);
    match queryType
    case None => None
    case Some(YearQuery) =>
      (match SearchFourDigits(query)
       case Some(y) => Some((Year, YearOperator(lowered) + y))
       case None => None)
    case Some(t) =>
      (match FirstIndicator(lowered, Indicators(t))
       case Some(k) => Some((Target(t), Strip(SplitLast(lowered, Indicators(t)[k]))))
       case None => None)
  }

  /** What the words-count fallback makes of a query. */
  function Fallback(query: string): Params {
    var remaining := Strip(query);
    if remaining == "" then map[]
    else if WordCount(remaining) > 2 then map[Abstract := remaining]
    else map[Authors := remaining]
  }

  /** The dict `parse_natural_query` returns, stated by its rules. */
  function Parse(query: string, queryType: Option<QueryType>): Params {
    match TypedRule(query, queryType)
    case Some((f, v)) => if v != "" then map[f := v] else Fallback(query)
    case None => Fallback(query)
  }

  // ---------------------------------------------------------------------
  // The parser as the source runs it
  // ---------------------------------------------------------------------

  /** The dict the parser starts from: every parser field, empty. */
  const Blank: Params :=
    map[Title := "", Authors := "", Abstract := "", Affiliations := "", WosCategories := "", Year := ""]

  /** `any(params.values())`. */
  predicate AnyValue(params: Params) {
    exists f | f in params :: params[f] != ""
  }

  /** `{k: v.strip() for k, v in params.items() if v.strip()}`. */
  function Cleaned(params: Params): Params {
    map k | k in params && Strip(params[k]) != "" :: Strip(params[k])
  }

  /** The indicator loop: the first indicator found assigns the text after
      its last occurrence, stripped, and ends the loop. */
  method AssignFromIndicators(params: Params, lowered: string, indicators: seq<string>, field: Field)
    returns (updated: Params)
    requires NonEmptyIndicators(indicators)
    ensures match FirstIndicator(lowered, indicators)
            case Some(k) => updated == params[field := Strip(SplitLast(lowered, indicators[k]))]
            case None => updated == params
  {
    updated := params;
    var i := 0;
    while i < |indicators|
      invariant 0 <= i <= |indicators|
      invariant updated == params
      invariant forall j :: 0 <= j < i ==> !Contains(lowered, indicators[j])
    {
      var indicator := indicators[i];
      if Contains(lowered, indicator) {
        var topic := Strip(SplitLast(lowered, indicator));
        updated := params[field := topic];
        FirstIndicatorAt(lowered, indicators, i);
        return;
      }
      i := i + 1;
    }
  }

  /** The dict after the typed rule has run (before the fallback). */
  function Assigned(rule: Option<(Field, string)>): Params {
    match rule
    case None => Blank
    case Some((f, v)) => Blank[f := v]
  }

  /** The `if/elif` over the query type, assigning into the blank dict. */
  method ApplyTypedRule(query: string, queryType: Option<QueryType>) returns (params: Params)
    ensures params == Assigned(TypedRule(query, queryType))
  {
    params := Blank;
    var lowered := Lower(query);
    match queryType {
      case None =>
      case Some(YearQuery) =>
        var yearMatch := SearchFourDigits(query);
        if yearMatch.Some? {
          var year := yearMatch.value;
          if Contains(lowered, "after") || Contains(lowered, "since") {
            params := params[Year := ">=" + year];
          } else if Contains(lowered, "before") || Contains(lowered, "until") {
            params := params[Year := "<=" + year];
          } else {
            params := params[Year := "=" + year];
          }
        }
      case Some(TopicQuery) =>
        params := AssignFromIndicators(params, lowered, TopicIndicators, Abstract);
      case Some(AuthorQuery) =>
        params := AssignFromIndicators(params, lowered, AuthorIndicators, Authors);
      case Some(AffiliationQuery) =>
        params := AssignFromIndicators(params, lowered, AffiliationIndicators, Affiliations);
    }
  }

  /** The dict after the fallback: untouched when some field has text,
      otherwise the stripped query goes to the abstract (more than two
      words) or to the authors. */
  function WithFallback(params: Params, query: string): Params {
    if AnyValue(params) then params
    else if WordCount(Strip(query)) > 2 then params[Abstract := Strip(query)]
    else params[Authors := Strip(query)]
  }

  /** `parse_natural_query(query)` with the classifier's verdict supplied. */
  method ParseNaturalQuery(query: string, queryType: Option<QueryType>) returns (result: Params)
    ensures result == Parse(query, queryType)
  {
    var params := ApplyTypedRule(query, queryType);
    ghost var typed := params;
    if !AnyValue(params) {
      var remaining := Strip(query);
      if WordCount(remaining) > 2 {
        params := params[Abstract := remaining];
      } else {
        params := params[Authors := remaining];
      }
    }
    assert params == WithFallback(typed, query);
    result := map k | k in params && Strip(params[k]) != "" :: Strip(params[k]);
    assert result == Cleaned(params);
    ParseAgrees(query, queryType);
  }

  // ---------------------------------------------------------------------
  // What the parser promises
  // ---------------------------------------------------------------------

  /** Output shape: only parser fields, every value non-empty and stripped;
      a blank query gives the empty dict and any other query exactly one key. */
  lemma ParseShape(query: string, queryType: Option<QueryType>)
    ensures var r := Parse(query, queryType);
            && r.Keys <= {Year, Abstract, Authors, Affiliations}
            && (forall f :: f in r ==> r[f] != "" && IsStripped(r[f]))
            && (Strip(query) == "" <==> r == map[])
            && (Strip(query) != "" ==> |r| == 1)
  {
    TypedValueStripped(query, queryType);
    if AllSpace(query) {
      BlankQueryAssignsNothing(query, queryType);
    }
    var r := Parse(query, queryType);
    var rule := TypedRule(query, queryType);
    if rule.Some? && rule.value.1 != "" {
      assert r == map[rule.value.0 := rule.value.1];
    } else {
      assert r == Fallback(query);
      assert Strip(query) != "" ==> |r| == 1;
    }
  }

  /** Year rule: the leftmost run of four digits, prefixed by `>=` when the
      lowered query says "after" or "since", else by `<=` when it says
      "before" or "until", else by `=`. Without four digits the rule sets
      nothing and the fallback decides. */
  lemma YearRule(query: string)
    ensures var r := Parse(query, Some(YearQuery));
            var l := Lower(query);
            match SearchFourDigits(query)
            case Some(y) =>
              r == map[Year := (if Contains(l, "after") || Contains(l, "since") then ">="
                                else if Contains(l, "before") || Contains(l, "until") then "<="
                                else "=") + y]
            case None => r == Fallback(query)
  {
  }

  /** Indicator rules: the first listed indicator that occurs in the lowered
      query wins; the value is the stripped text after its last occurrence
      (it follows an occurrence, holds none, and starts after every one).
      An empty value, or no indicator at all, leaves the decision to the
      fallback. */
  lemma IndicatorRule(query: string, t: QueryType)
    requires t != YearQuery
    ensures var l := Lower(query);
            var indicators := Indicators(t);
            var r := Parse(query, Some(t));
            match FirstIndicator(l, indicators)
            case Some(k) =>
              var after := SplitLast(l, indicators[k]);
              && after == l[|l| - |after|..]
              && SepBeforeLast(l, indicators[k], |after|)
              && !Contains(after, indicators[k])
              && (forall p :: OccursAt(l, indicators[k], p) ==> p + |indicators[k]| <= |l| - |after|)
              && (Strip(after) != "" ==> r == map[Target(t) := Strip(after)])
              && (Strip(after) == "" ==> r == Fallback(query))
            case None => r == Fallback(query)
  {
    var l := Lower(query);
    var indicators := Indicators(t);
    var first := FirstIndicator(l, indicators);
    if first.Some? {
      SplitLastSpec(l, indicators[first.value]);
      IndicatorsDoNotOverlap(t);
      SplitLastAfterLast(l, indicators[first.value]);
      IndicatorFound(query, t, first.value);
    } else {
      IndicatorAbsent(query, t);
    }
  }

  /** No indicator of any list can overlap itself, so the piece after an
      occurrence that holds no further occurrence is the piece after the
      last one. */
  lemma IndicatorsDoNotOverlap(t: QueryType)
    requires t != YearQuery
    ensures forall k :: 0 <= k < |Indicators(t)| ==> NoSelfOverlap(Indicators(t)[k])
  {
    NoSelfOverlapByShift("about");
    NoSelfOverlapByShift("on");
    NoSelfOverlapByShift("regarding");
    NoSelfOverlapByShift("concerning");
    NoSelfOverlapByShift("by");
    NoSelfOverlapByShift("from");
    NoSelfOverlapByShift("at");
  }

  /** The indicator found decides the dict: its stripped last piece, unless empty. */
  lemma IndicatorFound(query: string, t: QueryType, k: nat)
    requires t != YearQuery && FirstIndicator(Lower(query), Indicators(t)) == Some(k)
    ensures var v := Strip(SplitLast(Lower(query), Indicators(t)[k]));
            Parse(query, Some(t)) == if v != "" then map[Target(t) := v] else Fallback(query)
  {
    assert TypedRule(query, Some(t)) == Some((Target(t), Strip(SplitLast(Lower(query), Indicators(t)[k]))));
  }

  /** No indicator found: the fallback decides the dict. */
  lemma IndicatorAbsent(query: string, t: QueryType)
    requires t != YearQuery && FirstIndicator(Lower(query), Indicators(t)) == None
    ensures Parse(query, Some(t)) == Fallback(query)
  {
    assert TypedRule(query, Some(t)) == None;
  }

  /** Fallback: when the typed rule produced no text, the whole stripped
      query, in its original case, goes to the abstract if it has more than
      two words and to the authors otherwise (and nowhere if it is blank). */
  lemma FallbackRule(query: string, queryType: Option<QueryType>)
    requires TypedRule(query, queryType).None? || TypedRule(query, queryType).value.1 == ""
    ensures var r := Parse(query, queryType);
            var remaining := Strip(query);
            && (remaining == "" ==> r == map[])
            && (remaining != "" && WordCount(remaining) > 2 ==> r == map[Abstract := remaining])
            && (remaining != "" && WordCount(remaining) <= 2 ==> r == map[Authors := remaining])
  {
  }

  /** "concerning" contains "on", which is listed earlier: the last topic
      indicator can never be the one chosen. */
  lemma ConcerningNeverChosen(text: string)
    ensures FirstIndicator(text, TopicIndicators) != Some(3)
  {
    if Contains(text, "concerning") {
      assert "concerning" == "c" + "on" + "cerning";
      ContainsMiddle(text, "c", "on", "cerning");
    }
  }

  // ---------------------------------------------------------------------
  // Proof helpers for the parser
  // ---------------------------------------------------------------------

  /** A digit is not whitespace. */
  lemma DigitNotSpace(c: char)
    requires IsDigit(c)
    ensures !IsSpace(c)
  {
  }

  /** Every value a typed rule assigns is already stripped. */
  lemma TypedValueStripped(query: string, queryType: Option<QueryType>)
    ensures TypedRule(query, queryType).Some? ==> IsStripped(TypedRule(query, queryType).value.1)
  {
    if queryType == Some(YearQuery) && SearchFourDigits(query).Some? {
      var y := SearchFourDigits(query).value;
      var v := YearOperator(Lower(query)) + y;
      assert v[|v| - 1] == y[3];
      var i :| FourDigitsAt(query, i) && y == query[i..i + 4];
      assert IsDigit(y[3]) by { assert y[3] == query[i + 3]; }
      DigitNotSpace(y[3]);
      assert v[0] == '>' || v[0] == '<' || v[0] == '=';
    }
  }

  /** Running the three steps of the source gives the dict the rules describe. */
  lemma ParseAgrees(query: string, queryType: Option<QueryType>)
    ensures Cleaned(WithFallback(Assigned(TypedRule(query, queryType)), query)) == Parse(query, queryType)
  {
    var rule := TypedRule(query, queryType);
    var params := Assigned(rule);
    TypedValueStripped(query, queryType);
    assert rule.Some? ==> rule.value.0 in params && params[rule.value.0] == rule.value.1;
    if !AnyValue(params) {
      var remaining := Strip(query);
      StripIdempotent(query);
      var target := if WordCount(remaining) > 2 then Abstract else Authors;
      assert rule.Some? ==> rule.value.1 == "";
      CleanedSingle(WithFallback(params, query), target, remaining);
    } else {
      assert rule.Some? && rule.value.1 != "";
      CleanedSingle(params, rule.value.0, rule.value.1);
    }
  }

  /** A query with no visible character makes every typed rule come up empty. */
  lemma BlankQueryAssignsNothing(query: string, queryType: Option<QueryType>)
    requires AllSpace(query)
    ensures TypedRule(query, queryType).None? || TypedRule(query, queryType).value.1 == ""
  {
    var l := Lower(query);
    LowerKeepsSpaces(query);
    match queryType
    case None =>
    case Some(YearQuery) => BlankHasNoYear(query);
    case Some(t) =>
      match FirstIndicator(l, Indicators(t))
      case Some(k) => BlankPieceIsEmpty(l, Indicators(t)[k]);
      case None =>
  }

  /** Whatever piece a separator cuts from blank text strips to nothing. */
  lemma BlankPieceIsEmpty(s: string, sep: string)
    requires sep != [] && AllSpace(s)
    ensures Strip(SplitLast(s, sep)) == ""
  {
    var after := SplitLast(s, sep);
    assert forall j :: 0 <= j < |after| ==> after[j] == s[|s| - |after| + j];
  }

  /** Cleaning a dict in which only `f` may hold text, and that text is
      stripped, leaves at most the one entry for `f`. */
  lemma CleanedSingle(params: Params, f: Field, v: string)
    requires f in params && params[f] == v && IsStripped(v)
    requires forall k :: k in params && k != f ==> params[k] == ""
    ensures Cleaned(params) == if v == "" then map[] else map[f := v]
  {
    StripStripped(v);
    assert Strip("") == "";
    var c := Cleaned(params);
    var e: Params := if v == "" then map[] else map[f := v];
    assert c.Keys == e.Keys;
    forall k | k in c ensures c[k] == e[k] { }
  }
}
