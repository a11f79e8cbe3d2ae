/** The restaurant list page: its component state (the shown documents, the
    current page, the page count, the search box, the loading and searching
    flags), changed by its handlers. A request the page sends is returned to
    the caller, and its answer comes back through `Receive` or `Fail`. */
module RestaurantListPage {
  import opened Wrappers
  import opened JsText
  import opened RestaurantModel
  import opened RestaurantRoutes

  /** A request the page sends: the list page `?page=p`, or a search. */
  datatype Request = ListRequest(pageParam: string) | SearchRequest(query: string)

  /** The fields of a response the page reads; a search response carries no
      `totalPages`. */
  datatype Response = Response(restaurants: seq<Restaurant>, totalPages: Option<nat>)

  /** `Math.max(p - 1, 1)`. */
  function PreviousPage(p: int): (q: int)
    ensures q >= 1
    ensures p > 1 ==> q == p - 1
    ensures p <= 1 ==> q == 1
  {
    if p - 1 > 1 then p - 1 else 1
  }

  /** `Math.min(p + 1, totalPages)`. */
  function NextPage(p: int, totalPages: int): (q: int)
    ensures q <= totalPages
    ensures p < totalPages ==> q == p + 1
    ensures p >= totalPages ==> q == totalPages
  {
    if p + 1 < totalPages then p + 1 else totalPages
  }

  /** Previous undoes Next, away from the last page. */
  lemma NextThenPrevious(p: int, totalPages: int)
    requires 1 <= p < totalPages
    ensures PreviousPage(NextPage(p, totalPages)) == p
  {
  }

  /** `res.data.totalPages || 1`. */
  function PageCount(n: Option<nat>): (c: nat)
    ensures c >= 1
    ensures n.Some? && n.value != 0 ==> c == n.value
    ensures n.None? || n.value == 0 ==> c == 1
  {
    if n.Some? && n.value != 0 then n.value else 1
  }

  class RestaurantList {
    var restaurants: seq<Restaurant>
    var page: int
    var totalPages: int
    var searchQuery: string
    var loading: bool
    var isSearching: bool

    /** The page is a valid page number, there is at least one page, and a
        search always shows page 1. */
    predicate Valid()
      reads this
      ensures Valid() ==> 1 <= PreviousPage(page) <= page && 1 <= NextPage(page, totalPages) <= totalPages
    {
      page >= 1 && totalPages >= 1 && (isSearching ==> page == 1)
    }

    /** The Previous/Next controls are rendered. */
    predicate PaginationShown()
      reads this
      ensures isSearching ==> !PaginationShown()
      ensures PaginationShown() && Valid() ==> PreviousPage(page) != page || NextPage(page, totalPages) != page
    {
      !isSearching && totalPages > 1
    }

    /** The initial state: no documents, page 1 of 1, an empty search box,
        loading. */
    constructor ()
      ensures Valid()
      ensures restaurants == [] && page == 1 && totalPages == 1
      ensures searchQuery == "" && loading && !isSearching
    {
      restaurants := [];
      page := 1;
      totalPages := 1;
      searchQuery := "";
      loading := true;
      isSearching := false;
    }

    /** `fetchRestaurants(currentPage, query)`: loading starts; a non-empty
        query is a search, an empty one asks for the list page. */
    method Fetch(currentPage: int, query: string) returns (req: Request)
      modifies this
      ensures loading
      ensures isSearching <==> query != ""
      ensures query != "" ==> req == SearchRequest(query)
      ensures query == "" ==> req == ListRequest(Decimal(currentPage))
      ensures restaurants == old(restaurants) && page == old(page)
      ensures totalPages == old(totalPages) && searchQuery == old(searchQuery)
    {
      loading := true;
      if query != "" {
        isSearching := true;
        req := SearchRequest(query);
      } else {
        isSearching := false;
        req := ListRequest(Decimal(currentPage));
      }
    }

    /** The effect on mount: the first list page is requested. */
    method Mount() returns (requests: seq<Request>)
      requires Valid() && !isSearching
      modifies this
      ensures Valid()
      ensures requests == [ListRequest(Decimal(old(page)))]
      ensures loading && !isSearching && page == old(page)
      ensures restaurants == old(restaurants) && totalPages == old(totalPages)
      ensures searchQuery == old(searchQuery)
    {
      var req := Fetch(page, "");
      requests := [req];
    }

    /** The answer arrived: its documents are shown, its page count (or 1
        when it has none) is kept, loading ends. */
    method Receive(resp: Response)
      requires Valid()
      modifies this
      ensures Valid()
      ensures restaurants == resp.restaurants
      ensures totalPages == PageCount(resp.totalPages)
      ensures !loading
      ensures page == old(page) && searchQuery == old(searchQuery)
      ensures isSearching == old(isSearching)
    {
      restaurants := resp.restaurants;
      totalPages := PageCount(resp.totalPages);
      loading := false;
    }

    /** The request failed: loading ends, nothing else changes. */
    method Fail()
      requires Valid()
      modifies this
      ensures Valid()
      ensures !loading
      ensures restaurants == old(restaurants) && page == old(page)
      ensures totalPages == old(totalPages) && searchQuery == old(searchQuery)
      ensures isSearching == old(isSearching)
    {
      loading := false;
    }

    /** Typing in the search box. */
    method EditQuery(text: string)
      requires Valid()
      modifies this
      ensures Valid()
      ensures searchQuery == text
      ensures restaurants == old(restaurants) && page == old(page)
      ensures totalPages == old(totalPages) && loading == old(loading)
      ensures isSearching == old(isSearching)
    {
      searchQuery := text;
    }

    /** `setPage(newPage)` and the effect on `[page]`: a changed page is
        fetched as a list page unless a search is shown. */
    method SetPage(newPage: int) returns (requests: seq<Request>)
      modifies this
      ensures page == newPage
      ensures newPage != old(page) && !old(isSearching) ==>
                requests == [ListRequest(Decimal(newPage))] && loading
      ensures newPage == old(page) || old(isSearching) ==>
                requests == [] && loading == old(loading)
      ensures isSearching == old(isSearching)
      ensures restaurants == old(restaurants) && totalPages == old(totalPages)
      ensures searchQuery == old(searchQuery)
    {
      var changed := newPage != page;
      page := newPage;
      requests := [];
      if changed && !isSearching {
        var req := Fetch(page, "");
        requests := [req];
      }
    }

    /** The Previous button (enabled when not on page 1): one page back,
        never below 1. */
    method Previous() returns (requests: seq<Request>)
      requires Valid() && PaginationShown() && page != 1
      modifies this
      ensures Valid() && PaginationShown()
      ensures page == old(page) - 1 && page >= 1
      ensures requests == [ListRequest(Decimal(page))] && loading
      ensures restaurants == old(restaurants) && totalPages == old(totalPages)
      ensures searchQuery == old(searchQuery)
    {
      requests := SetPage(PreviousPage(page));
    }

    /** The Next button (enabled when not on the last page): one page on,
        never past `totalPages`. */
    method Next() returns (requests: seq<Request>)
      requires Valid() && PaginationShown() && page != totalPages
      modifies this
      ensures Valid() && PaginationShown()
      ensures page == NextPage(old(page), totalPages) && page <= totalPages
      ensures old(page) < totalPages ==> page == old(page) + 1
      ensures page != old(page) ==> requests == [ListRequest(Decimal(page))] && loading
      ensures restaurants == old(restaurants) && totalPages == old(totalPages)
      ensures searchQuery == old(searchQuery)
    {
      requests := SetPage(NextPage(page, totalPages));
    }

    /** `handleSearch`: back to page 1 and a fetch with the current query; with
        an empty query from another page, the page change fetches page 1 a
        second time. */
    method HandleSearch() returns (requests: seq<Request>)
      requires Valid()
      modifies this
      ensures Valid()
      ensures page == 1 && loading
      ensures isSearching <==> searchQuery != ""
      ensures searchQuery != "" ==> requests == [SearchRequest(searchQuery)]
      ensures searchQuery == "" && old(page) == 1 ==> requests == [ListRequest("1")]
      ensures searchQuery == "" && old(page) != 1 ==>
                requests == [ListRequest("1"), ListRequest("1")]
      ensures searchQuery == old(searchQuery)
      ensures restaurants == old(restaurants) && totalPages == old(totalPages)
      ensures isSearching ==> !PaginationShown()
    {
      var previous := page;
      page := 1;
      var req := Fetch(1, searchQuery);
      requests := [req];
      if previous != 1 && !isSearching {
        var again := Fetch(1, "");
        requests := requests + [again];
      }
    }

    /** `clearSearch` (the Clear button, shown while searching): the search
        box is emptied and list page 1 is requested; the page is not touched. */
    method ClearSearch() returns (requests: seq<Request>)
      requires Valid() && isSearching
      modifies this
      ensures Valid()
      ensures searchQuery == "" && !isSearching && loading
      ensures requests == [ListRequest("1")]
      ensures page == old(page)
      ensures restaurants == old(restaurants) && totalPages == old(totalPages)
    {
      searchQuery := "";
      isSearching := false;
      var req := Fetch(1, "");
      requests := [req];
    }
  }

  // ---------------------------------------------------------------- the page and the API together

  /** A list request the page sends for page `p` (at least 1) is answered
      with the documents of page `p` of 12, and the page count is never
      negative, so the page reads it unchanged when it is not 0. */
  lemma ListRequestServed(store: seq<Restaurant>, p: int)
    requires p >= 1
    ensures var r := ListRestaurants(store, Some(Decimal(p)), None);
            && r.Success?
            && r.value.page == p
            && r.value.totalPages == TotalPages(|store|, 12) >= 0
            && r.value.restaurants == ListPage(store, p, 12).value.restaurants
  {
    PageParamDecimal(p, 1);
  }

  /** Following Next from any page before the last lands on a page the route
      fills with at least one document. */
  lemma NextPageNonEmpty(store: seq<Restaurant>, p: int)
    requires 1 <= p < TotalPages(|store|, 12)
    ensures var q := NextPage(p, TotalPages(|store|, 12));
            |ListRestaurants(store, Some(Decimal(q)), None).value.restaurants| >= 1
  {
    var tp := TotalPages(|store|, 12);
    var q := p + 1;
    ListRequestServed(store, q);
    PageContents(store, q, 12);
    TotalPagesIsCeiling(|store|, 12);
    assert (q - 1) * 12 < |store| by {
      MultiplyMonotonic(tp - 1, q - 1, 12);
    }
  }
}
