/** The searchable fields and the dict of field values that flows from the
    forms and the parser into the query builder. */
module Fields {

  /** One searchable field; the source names each by a dict key (`Key`). */
  datatype Field = Title | Authors | Abstract | Affiliations | Doi | WosCategories | Year

  /** The dict key the source uses for a field. */
  function Key(f: Field): string {
    match f
    case Title => "title"
    case Authors => "authors"
    case Abstract => "abstract"
    case Affiliations => "affiliations"
    case Doi => "doi"
    case WosCategories => "wos_categories"
    case Year => "year"
  }

  /** A params dict: field to raw value. */
  type Params = map<Field, string>

  /** `params.get(key)` is truthy: the key is present with a non-empty value. */
  predicate Truthy(params: Params, f: Field) {
    f in params && params[f] != ""
  }
}
