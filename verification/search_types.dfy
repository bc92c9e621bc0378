/**
 * The request and response descriptors shared by every searchable
 * repository: the search parameters (after their normalisation) and the
 * page of results with its pagination metadata.
 */
module SearchTypes {
  import opened Wrappers

  /** The `SortDirection` union `"asc" | "desc"`. */
  datatype SortDirection = Asc | Desc

  /** A search request: page number, page size, sort field, sort direction, filter. */
  datatype SearchParams<Filter> = SearchParams(
    page: nat,
    per_page: nat,
    sort: Option<string>,
    sort_dir: Option<SortDirection>,
    filter: Option<Filter>)

  /** One page of results and the count of all matches before pagination. */
  datatype SearchResult<E> = SearchResult(
    items: seq<E>,
    total: nat,
    current_page: nat,
    per_page: nat)

  /** What the normalised search parameters always satisfy. */
  predicate ValidPaging<Filter>(params: SearchParams<Filter>) {
    params.page >= 1 && params.per_page >= 1
  }

  /** Number of the last page holding results: ceil(total / per_page). */
  function LastPage(total: nat, per_page: nat): (n: nat)
    requires per_page >= 1
    ensures n * per_page >= total
    ensures n == 0 || (n - 1) * per_page < total
  {
    var q := (total + per_page - 1) / per_page;
    assert q * per_page + (total + per_page - 1) % per_page == total + per_page - 1;
    q
  }
}
