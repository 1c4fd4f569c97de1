/** The validated query of the user listing: its bounds and its defaults. */
module QueryUserDto {
  import opened Common

  const DEFAULT_PAGE: int := 1
  const DEFAULT_LIMIT: int := 10
  const MAX_LIMIT: int := 100
  const DEFAULT_SORT: string := "createdAt_desc"
  const SORT_OPTIONS: seq<string> := ["createdAt_asc", "createdAt_desc", "username_asc", "username_desc"]

  /** The strings a boolean-string validator accepts. */
  const BOOLEAN_STRINGS: seq<string> := ["true", "false", "1", "0"]

  /** The query parameters after number conversion; absent ones are `None`. */
  datatype QueryUserDto = QueryUserDto(
    page: Option<int>,
    limit: Option<int>,
    search: Option<string>,
    isActive: Option<string>,
    sortBy: Option<string>)

  /** The field constraints a query must meet to reach the service. */
  predicate Valid(q: QueryUserDto) {
    (q.page.Some? ==> q.page.value >= 1) &&
    (q.limit.Some? ==> 1 <= q.limit.value <= MAX_LIMIT) &&
    (q.search.Some? ==> q.search.value != "") &&
    (q.isActive.Some? ==> q.isActive.value in BOOLEAN_STRINGS) &&
    (q.sortBy.Some? ==> q.sortBy.value in SORT_OPTIONS)
  }

  /** The property initialisers: a missing page, limit or sortBy takes its default. */
  function WithDefaults(q: QueryUserDto): (r: QueryUserDto)
    ensures r.page == Some(q.page.GetOr(DEFAULT_PAGE))
    ensures r.limit == Some(q.limit.GetOr(DEFAULT_LIMIT))
    ensures r.sortBy == Some(q.sortBy.GetOr(DEFAULT_SORT))
    ensures r.search == q.search && r.isActive == q.isActive
    ensures Valid(q) ==> Valid(r)
  {
    QueryUserDto(Some(q.page.GetOr(DEFAULT_PAGE)), Some(q.limit.GetOr(DEFAULT_LIMIT)),
                 q.search, q.isActive, Some(q.sortBy.GetOr(DEFAULT_SORT)))
  }

  /**
   * Under a valid query the page is at least 1 and the limit lies in
   * [1, MAX_LIMIT], defaults included: the offset is never negative and the
   * page count never divides by zero.
   */
  lemma ValidBounds(q: QueryUserDto)
    requires Valid(q)
    ensures q.page.GetOr(DEFAULT_PAGE) >= 1
    ensures 1 <= q.limit.GetOr(DEFAULT_LIMIT) <= MAX_LIMIT
    ensures (q.page.GetOr(DEFAULT_PAGE) - 1) * q.limit.GetOr(DEFAULT_LIMIT) >= 0
  {
  }
}
