/** The restaurant query routes: text search, the geospatial "nearby" query,
    the paginated list and the lookup by id. The store is the collection in
    its natural (insertion) order. */
module RestaurantRoutes {
  import opened Wrappers
  import opened JsText
  import opened Http
  import opened RestaurantModel

  /** The first `n` elements of `rs`, or all of them when there are fewer:
      what a cursor's `limit(n)` lets through. */
  function Take(rs: seq<Restaurant>, n: nat): (out: seq<Restaurant>)
    ensures |out| == (if |rs| <= n then |rs| else n)
    ensures out == rs[..|out|]
  {
    if |rs| <= n then rs else rs[..n]
  }

  // ---------------------------------------------------------------- GET /search

  /** `find(...).limit(50)`. */
  const SearchLimit: nat := 50

  /** The `$or` of three case-insensitive matches: name, cuisines or city. */
  predicate Matches(r: Restaurant, q: string)
    ensures q == "" ==> Matches(r, q)
  {
    || ContainsIgnoreCase(r.name, q)
    || ContainsIgnoreCase(r.cuisines, q)
    || ContainsIgnoreCase(r.location.city, q)
  }

  /** The documents of `rs` matching `q`, in store order. */
  function Filter(rs: seq<Restaurant>, q: string): (out: seq<Restaurant>)
    ensures |out| <= |rs|
    ensures forall r :: r in out ==> r in rs && Matches(r, q)
  {
    if |rs| == 0 then []
    else
      var init := Filter(rs[..|rs| - 1], q);
      var last := rs[|rs| - 1];
      assert forall r :: r in rs[..|rs| - 1] ==> r in rs;
      if Matches(last, q) then init + [last] else init
  }

  lemma {:induction false} FilterComplete(rs: seq<Restaurant>, q: string, r: Restaurant)
    requires r in rs && Matches(r, q)
    ensures r in Filter(rs, q)
  {
    var n := |rs| - 1;
    if rs[n] != r {
      assert r in rs[..n] by {
        var k :| 0 <= k < |rs| && rs[k] == r;
        assert rs[..n][k] == r;
      }
      FilterComplete(rs[..n], q, r);
    }
  }

  /** A document is found exactly when it is stored and matches. */
  lemma FilterMembership(rs: seq<Restaurant>, q: string, r: Restaurant)
    ensures r in Filter(rs, q) <==> r in rs && Matches(r, q)
  {
    if r in rs && Matches(r, q) {
      FilterComplete(rs, q, r);
    }
  }

  /** The filter keeps store order: the matches of a concatenation are the
      matches of the first part followed by those of the second. */
  lemma {:induction false} FilterAppend(a: seq<Restaurant>, b: seq<Restaurant>, q: string)
    ensures Filter(a + b, q) == Filter(a, q) + Filter(b, q)
  {
    if |b| == 0 {
      assert a + b == a;
    } else {
      var b' := b[..|b| - 1];
      assert (a + b)[..|a + b| - 1] == a + b';
      FilterAppend(a, b', q);
    }
  }

  /** The empty pattern matches every document, so the `if (query)` guard
      changes nothing for an empty query. */
  lemma {:induction false} FilterEmptyPattern(rs: seq<Restaurant>)
    ensures Filter(rs, "") == rs
  {
    if |rs| > 0 {
      FilterEmptyPattern(rs[..|rs| - 1]);
      assert StartsWith(Lowered(rs[|rs| - 1].name), Lowered(""));
      assert rs[..|rs| - 1] + [rs[|rs| - 1]] == rs;
    }
  }

  datatype SearchResponse = SearchResponse(total: nat, restaurants: seq<Restaurant>)

  /** `GET /search?query=q`: at most 50 documents, every one stored and, when
      a query is given, matching it; `total` is the number returned. */
  function Search(store: seq<Restaurant>, query: Option<string>): (resp: SearchResponse)
    ensures resp.total == |resp.restaurants| <= SearchLimit
    ensures forall r :: r in resp.restaurants ==>
              r in store && (Truthy(query) ==> Matches(r, query.value))
  {
    var hits := if Truthy(query) then Filter(store, query.value) else store;
    var found := Take(hits, SearchLimit);
    assert forall r :: r in found ==> r in hits;
    SearchResponse(|found|, found)
  }

  /** The matches the search returns from: all documents without a query. */
  function Hits(store: seq<Restaurant>, query: Option<string>): seq<Restaurant> {
    if Truthy(query) then Filter(store, query.value) else store
  }

  /** When fewer than 51 documents match, every matching document is returned. */
  lemma SearchComplete(store: seq<Restaurant>, query: Option<string>, r: Restaurant)
    requires r in store && (Truthy(query) ==> Matches(r, query.value))
    requires |Hits(store, query)| <= SearchLimit
    ensures r in Search(store, query).restaurants
  {
    if Truthy(query) {
      FilterComplete(store, query.value, r);
    }
  }

  /** The answer is the first matches in store order: as many as there are,
      but no more than 50. */
  lemma SearchCapped(store: seq<Restaurant>, query: Option<string>)
    ensures Search(store, query).total ==
            if |Hits(store, query)| < SearchLimit then |Hits(store, query)| else SearchLimit
    ensures Search(store, query).restaurants == Hits(store, query)[..Search(store, query).total]
  {
  }

  /** The search returns the first matches in store order: documents stored
      after the first 50 matches never change the answer. */
  lemma SearchFirstMatches(a: seq<Restaurant>, b: seq<Restaurant>, query: Option<string>)
    requires |Hits(a, query)| >= SearchLimit
    ensures Search(a + b, query) == Search(a, query)
  {
    if Truthy(query) {
      FilterAppend(a, b, query.value);
      var fa := Filter(a, query.value);
      assert (fa + Filter(b, query.value))[..SearchLimit] == fa[..SearchLimit];
    } else {
      assert (a + b)[..SearchLimit] == a[..SearchLimit];
    }
  }

  /** Searching for a stored document's exact name finds it, unless more
      than 50 documents match that name. */
  lemma SearchByName(store: seq<Restaurant>, r: Restaurant)
    requires r in store
    requires |Hits(store, Some(r.name))| <= SearchLimit
    ensures r in Search(store, Some(r.name)).restaurants
  {
    assert StartsWith(r.name, r.name);
    ExactOccurrenceMatches(r.name, r.name);
    SearchComplete(store, Some(r.name), r);
  }

  // ---------------------------------------------------------------- GET /nearby

  /** The `$nearSphere` query the handler builds: the point is given as
      [longitude, latitude] and the radius in metres. */
  datatype GeoQuery = GeoQuery(longitude: Num, latitude: Num, maxDistance: Num)

  /** `parseFloat(range) * 1000`. */
  function Kilometres(n: Num): (m: Num)
    ensures m.NaN? <==> n.NaN?
    ensures n.Finite? ==> m.value == n.value * 1000.0
  {
    match n
    case NaN => NaN
    case Finite(v) => Finite(v * 1000.0)
  }

  /** The handler's validation and query construction: 400 when any of
      `lat`, `lng`, `range` is missing or empty; otherwise the query point is
      [parsed lng, parsed lat] and the radius is the parsed range in metres. */
  function NearbyQuery(lat: Option<string>, lng: Option<string>, range: Option<string>,
                       parseFloat: string -> Num): (r: Result<GeoQuery, HttpError>)
    ensures r.Failure? <==> !(Truthy(lat) && Truthy(lng) && Truthy(range))
    ensures r.Failure? ==> r.error.Status() == 400
    ensures r.Success? ==>
              && r.value.longitude == parseFloat(lng.value)
              && r.value.latitude == parseFloat(lat.value)
              && r.value.maxDistance == Kilometres(parseFloat(range.value))
  {
    if !Truthy(lat) || !Truthy(lng) || !Truthy(range) then
      Failure(BadRequest("Latitude, longitude, and range are required."))
    else
      Success(GeoQuery(parseFloat(lng.value), parseFloat(lat.value),
                       Kilometres(parseFloat(range.value))))
  }

  /** A query the store runs: the centre and the radius in metres. */
  datatype NearSphere = NearSphere(center: Coordinates, maxDistance: real)

  /** The store's validation of the query: finite numbers, a point within the
      longitude and latitude bounds, and a non-negative radius; `None` when
      it refuses the query. */
  function Validate(q: GeoQuery): (s: Option<NearSphere>)
    ensures s.Some? <==>
              && q.longitude.Finite? && q.latitude.Finite? && q.maxDistance.Finite?
              && -180.0 <= q.longitude.value <= 180.0
              && -90.0 <= q.latitude.value <= 90.0
              && q.maxDistance.value >= 0.0
    ensures s.Some? ==>
              s.value == NearSphere(Coordinates(q.longitude.value, q.latitude.value),
                                    q.maxDistance.value)
  {
    match (q.longitude, q.latitude, q.maxDistance)
    case (Finite(lng), Finite(lat), Finite(d)) =>
      if -180.0 <= lng <= 180.0 && -90.0 <= lat <= 90.0 && d >= 0.0
      then Some(NearSphere(Coordinates(lng, lat), d))
      else None
    case _ => None
  }

  /** A document within the radius; the boundary is included. */
  predicate Within(s: NearSphere, distance: (Coordinates, Coordinates) -> real, r: Restaurant) {
    distance(s.center, r.location.coordinates) <= s.maxDistance
  }

  function WithinRadius(rs: seq<Restaurant>, s: NearSphere,
                        distance: (Coordinates, Coordinates) -> real): (out: seq<Restaurant>)
    ensures |out| <= |rs|
    ensures forall r :: r in out ==> r in rs && Within(s, distance, r)
    ensures forall r :: r in rs && Within(s, distance, r) ==> r in out
    ensures forall r :: multiset(out)[r] == if Within(s, distance, r) then multiset(rs)[r] else 0
  {
    if |rs| == 0 then []
    else
      var init := rs[..|rs| - 1];
      var last := rs[|rs| - 1];
      assert rs == init + [last];
      var out := WithinRadius(init, s, distance);
      if Within(s, distance, last) then out + [last] else out
  }

  predicate SortedBy(rs: seq<Restaurant>, key: Restaurant -> real) {
    forall i, j :: 0 <= i < j < |rs| ==> key(rs[i]) <= key(rs[j])
  }

  predicate AtMost(rs: seq<Restaurant>, bound: real, key: Restaurant -> real) {
    forall i :: 0 <= i < |rs| ==> key(rs[i]) <= bound
  }

  /** A bound on every element carries over to a sequence holding the same
      elements plus one more within the bound. */
  lemma AtMostWithOneMore(a: seq<Restaurant>, b: seq<Restaurant>, x: Restaurant,
                          bound: real, key: Restaurant -> real)
    requires multiset(a) == multiset(b) + multiset{x}
    requires AtMost(b, bound, key) && key(x) <= bound
    ensures AtMost(a, bound, key)
  {
    forall i | 0 <= i < |a|
      ensures key(a[i]) <= bound
    {
      assert a[i] in multiset(a);
      if a[i] != x {
        assert a[i] in multiset(b);
        var k :| 0 <= k < |b| && b[k] == a[i];
      }
    }
  }

  /** Inserts `x` after every document whose key is not greater. */
  function InsertBy(rs: seq<Restaurant>, x: Restaurant, key: Restaurant -> real): (out: seq<Restaurant>)
    requires SortedBy(rs, key)
    ensures multiset(out) == multiset(rs) + multiset{x}
    ensures SortedBy(out, key)
  {
    if |rs| == 0 then [x]
    else
      var n := |rs| - 1;
      if key(rs[n]) <= key(x) then rs + [x]
      else
        var init := rs[..n];
        assert rs == init + [rs[n]];
        var mid := InsertBy(init, x, key);
        assert AtMost(init, key(rs[n]), key);
        AtMostWithOneMore(mid, init, x, key(rs[n]), key);
        mid + [rs[n]]
  }

  /** Sorted by key; documents with equal keys keep their order. */
  function SortBy(rs: seq<Restaurant>, key: Restaurant -> real): (out: seq<Restaurant>)
    ensures multiset(out) == multiset(rs)
    ensures SortedBy(out, key)
  {
    if |rs| == 0 then []
    else
      var init := rs[..|rs| - 1];
      assert rs == init + [rs[|rs| - 1]];
      InsertBy(SortBy(init, key), rs[|rs| - 1], key)
  }

  /** The distance in metres from the query centre to a document's location. */
  function DistanceFrom(s: NearSphere, distance: (Coordinates, Coordinates) -> real): Restaurant -> real {
    (r: Restaurant) => distance(s.center, r.location.coordinates)
  }

  /** `GET /nearby?lat&lng&range`: 400 for a missing parameter, 500 when the
      store refuses the query, otherwise exactly the stored documents within
      the radius of [lng, lat], nearest first. */
  function Nearby(store: seq<Restaurant>, lat: Option<string>, lng: Option<string>,
                  range: Option<string>, parseFloat: string -> Num,
                  distance: (Coordinates, Coordinates) -> real): (r: Result<seq<Restaurant>, HttpError>)
    ensures r.Failure? && r.error.Status() == 400 <==> !(Truthy(lat) && Truthy(lng) && Truthy(range))
    ensures r.Failure? ==> r.error.Status() == 400 || r.error.Status() == 500
    ensures r.Success? <==>
              && NearbyQuery(lat, lng, range, parseFloat).Success?
              && Validate(NearbyQuery(lat, lng, range, parseFloat).value).Some?
    ensures r.Success? ==>
              var s := Validate(NearbyQuery(lat, lng, range, parseFloat).value).value;
              && SortedBy(r.value, DistanceFrom(s, distance))
              && (forall x :: x in r.value ==> x in store && Within(s, distance, x))
              && (forall x :: x in store && Within(s, distance, x) ==> x in r.value)
              && (forall x :: multiset(r.value)[x] == if Within(s, distance, x) then multiset(store)[x] else 0)
  {
    match NearbyQuery(lat, lng, range, parseFloat)
    case Failure(e) => Failure(e)
    case Success(q) =>
      match Validate(q)
      case None => Failure(ServerError("Server error while finding nearby restaurants."))
      case Some(s) =>
        var hits := WithinRadius(store, s, distance);
        var out := SortBy(hits, DistanceFrom(s, distance));
        assert forall x :: x in out <==> x in hits by {
          assert forall x :: x in out <==> x in multiset(out);
          assert forall x :: x in hits <==> x in multiset(hits);
        }
        Success(out)
  }

  /** A query the store refuses gives 500. */
  lemma NearbyRefused(store: seq<Restaurant>, lat: Option<string>, lng: Option<string>,
                      range: Option<string>, parseFloat: string -> Num,
                      distance: (Coordinates, Coordinates) -> real)
    requires NearbyQuery(lat, lng, range, parseFloat).Success?
    requires Validate(NearbyQuery(lat, lng, range, parseFloat).value).None?
    ensures Nearby(store, lat, lng, range, parseFloat, distance).Failure?
    ensures Nearby(store, lat, lng, range, parseFloat, distance).error.Status() == 500
  {
  }

  /** Each stored document appears in the answer as often as it is stored
      within the radius: the answer is a reordering of those documents. */
  lemma NearbyIsPermutation(store: seq<Restaurant>, lat: Option<string>, lng: Option<string>,
                            range: Option<string>, parseFloat: string -> Num,
                            distance: (Coordinates, Coordinates) -> real)
    requires Nearby(store, lat, lng, range, parseFloat, distance).Success?
    ensures var s := Validate(NearbyQuery(lat, lng, range, parseFloat).value).value;
            multiset(Nearby(store, lat, lng, range, parseFloat, distance).value) ==
            multiset(WithinRadius(store, s, distance))
  {
  }

  // ---------------------------------------------------------------- GET /

  /** `parseInt(p) || fallback` on a query parameter: a missing parameter,
      one that does not start with a number, and 0 all give `fallback`. */
  function PageParam(p: Option<string>, fallback: int): (n: int)
    ensures fallback != 0 ==> n != 0
    ensures p.None? ==> n == fallback
    ensures p.Some? && (ParseInt(p.value, true).None? || ParseInt(p.value, true) == Some(0)) ==>
              n == fallback
    ensures p.Some? && ParseInt(p.value, true).Some? && ParseInt(p.value, true).value != 0 ==>
              n == ParseInt(p.value, true).value
  {
    match p
    case None => fallback
    case Some(s) => OrInt(ParseInt(s, true), fallback)
  }

  /** A number written in decimal is read back as itself, unless it is 0. */
  lemma PageParamDecimal(n: int, fallback: int)
    ensures PageParam(Some(Decimal(n)), fallback) == if n == 0 then fallback else n
  {
    ParseIntDecimal(n, true);
  }

  /** `Math.ceil(total / limit)`. */
  function TotalPages(total: nat, limit: int): (c: int)
    requires limit != 0
    ensures total == 0 ==> c == 0
    ensures limit > 0 && total > 0 ==> c >= 1
  {
    if limit > 0 then (total + limit - 1) / limit else -(total / -limit)
  }

  /** The page count is the least integer `c` with `c >= total / limit`:
      for a positive limit `c * limit` reaches the total and `(c - 1) * limit`
      falls short; for a negative limit the inequalities turn round. */
  lemma TotalPagesIsCeiling(total: nat, limit: int)
    requires limit != 0
    ensures var c := TotalPages(total, limit);
            && (limit > 0 ==> c * limit >= total && (c - 1) * limit < total)
            && (limit < 0 ==> c * limit <= total && (c - 1) * limit > total)
  {
    if limit > 0 {
      CeilingBounds(total, limit);
    } else {
      var m := -limit;
      var p := total / m;
      FloorBounds(total, m);
      NegatedProducts(p, m);
    }
  }

  /** Rounding `n / d` up overshoots `n` by less than one `d`. */
  lemma CeilingBounds(n: nat, d: int)
    requires d > 0
    ensures var p := (n + d - 1) / d; p * d >= n && (p - 1) * d < n
  {
    var k := n + d - 1;
    var p := k / d;
    assert k == p * d + k % d;
    assert (p - 1) * d == p * d - d;
  }

  /** Rounding `n / m` down falls short of `n` by less than one `m`. */
  lemma FloorBounds(n: nat, m: int)
    requires m > 0
    ensures var p := n / m; p * m <= n && (p + 1) * m > n
  {
    var p := n / m;
    assert n == p * m + n % m;
    assert (p + 1) * m == p * m + m;
  }

  lemma NegatedProducts(p: int, m: int)
    ensures -p * -m == p * m && (-p - 1) * -m == (p + 1) * m
  {
  }

  datatype ListResponse = ListResponse(
    totalRestaurants: nat,
    page: int,
    totalPages: int,
    restaurants: seq<Restaurant>)

  /** `find().skip(skip).limit(limit)`: the documents from `skip` on, at most
      `|limit|` of them (a negative limit returns that many in one batch). */
  function Window(store: seq<Restaurant>, skip: nat, limit: int): (out: seq<Restaurant>)
    ensures forall i :: 0 <= i < |out| ==> skip + i < |store| && out[i] == store[skip + i]
    ensures |out| == if skip >= |store| then 0
                     else if |store| - skip < Abs(limit) then |store| - skip else Abs(limit)
  {
    var rest := if skip <= |store| then store[skip..] else [];
    Take(rest, Abs(limit))
  }

  function Abs(n: int): nat {
    if n < 0 then -n else n
  }

  /** The list query once its parameters are parsed: the window after
      `(page - 1) * limit` documents, the count of all documents and the
      number of pages; a negative skip is refused by the store (500). */
  function ListPage(store: seq<Restaurant>, page: int, limit: int): (r: Result<ListResponse, HttpError>)
    requires limit != 0
    ensures r.Failure? <==> (page < 1 && limit > 0) || (page > 1 && limit < 0)
    ensures r.Failure? ==> r.error.Status() == 500
    ensures r.Success? ==>
              && r.value.totalRestaurants == |store|
              && r.value.page == page
              && r.value.totalPages == TotalPages(|store|, limit)
              && |r.value.restaurants| <= Abs(limit)
    ensures r.Success? ==>
              && (page - 1) * limit >= 0
              && r.value.restaurants == Window(store, (page - 1) * limit, limit)
  {
    var skip := (page - 1) * limit;
    SkipSign(page, limit);
    if skip < 0 then Failure(ServerError("Server error fetching restaurants"))
    else Success(ListResponse(|store|, page, TotalPages(|store|, limit), Window(store, skip, limit)))
  }

  /** `GET /?page&limit`: page and limit parsed with `parseInt(x) || d`, with
      defaults 1 and 12. */
  function ListRestaurants(store: seq<Restaurant>, pageParam: Option<string>,
                           limitParam: Option<string>): (r: Result<ListResponse, HttpError>)
    ensures pageParam.None? && limitParam.None? ==> r == ListPage(store, 1, 12)
    ensures r == ListPage(store, PageParam(pageParam, 1), PageParam(limitParam, 12))
  {
    ListPage(store, PageParam(pageParam, 1), PageParam(limitParam, 12))
  }

  lemma SkipSign(page: int, limit: int)
    requires limit != 0
    ensures (page - 1) * limit < 0 <==> (page < 1 && limit > 0) || (page > 1 && limit < 0)
  {
    if page < 1 && limit > 0 {
      assert (1 - page) * limit > 0;
    } else if page > 1 && limit < 0 {
      assert (page - 1) * (-limit) > 0;
    } else if page >= 1 && limit > 0 {
      assert (page - 1) * limit >= 0;
    } else if page <= 1 && limit < 0 {
      assert (1 - page) * (-limit) >= 0;
    }
  }

  /** Parameters written as a link writes them are read back as themselves. */
  lemma ListDecimal(store: seq<Restaurant>, page: int, limit: int)
    requires page != 0 && limit != 0
    ensures ListRestaurants(store, Some(Decimal(page)), Some(Decimal(limit))) == ListPage(store, page, limit)
  {
    PageParamDecimal(page, 1);
    PageParamDecimal(limit, 12);
  }

  /** For a positive page and limit, or a page up to 1 with a negative limit,
      the page holds the documents from position `(page - 1) * limit` on:
      `|limit|` of them, or as many as remain. */
  lemma PageContents(store: seq<Restaurant>, page: int, limit: int)
    requires (page >= 1 && limit >= 1) || (page <= 1 && limit <= -1)
    ensures var r := ListPage(store, page, limit);
            var skip := (page - 1) * limit;
            && r.Success?
            && (forall i :: 0 <= i < |r.value.restaurants| ==>
                  skip + i < |store| && r.value.restaurants[i] == store[skip + i])
            && |r.value.restaurants| ==
                 if skip >= |store| then 0 else if |store| - skip < Abs(limit) then |store| - skip else Abs(limit)
  {
    var skip := (page - 1) * limit;
    SkipSign(page, limit);
    assert skip >= 0;
    assert ListPage(store, page, limit).value.restaurants == Window(store, skip, limit);
  }

  /** Every stored document is on exactly one page within `totalPages`: the
      document at position `i` is entry `i % limit` of page `i / limit + 1`. */
  lemma EveryDocumentOnOnePage(store: seq<Restaurant>, limit: int, i: int)
    requires limit >= 1 && 0 <= i < |store|
    ensures var page := i / limit + 1;
            var r := ListPage(store, page, limit);
            && 1 <= page <= TotalPages(|store|, limit)
            && r.Success?
            && i % limit < |r.value.restaurants|
            && r.value.restaurants[i % limit] == store[i]
  {
    var page := i / limit + 1;
    var skip := (page - 1) * limit;
    assert skip + i % limit == i;
    PageContents(store, page, limit);
    var tp := TotalPages(|store|, limit);
    TotalPagesIsCeiling(|store|, limit);
    assert page - 1 < tp by {
      if page - 1 >= tp {
        MultiplyMonotonic(page - 1, tp, limit);
        assert false;
      }
    }
  }

  /** Pages past the last one are empty. */
  lemma PagesPastTheEndEmpty(store: seq<Restaurant>, page: int, limit: int)
    requires limit >= 1 && page > TotalPages(|store|, limit) && page >= 1
    ensures ListPage(store, page, limit).Success?
    ensures ListPage(store, page, limit).value.restaurants == []
  {
    PageContents(store, page, limit);
    var tp := TotalPages(|store|, limit);
    TotalPagesIsCeiling(|store|, limit);
    MultiplyMonotonic(page - 1, tp, limit);
  }

  lemma MultiplyMonotonic(a: int, b: int, c: int)
    requires a >= b && c >= 0
    ensures a * c >= b * c
  {
    assert (a - b) * c >= 0;
  }

  /** Without parameters: page 1 of 12 documents. */
  lemma ListDefaults(store: seq<Restaurant>)
    ensures var r := ListRestaurants(store, None, None);
            && r.Success?
            && r.value.page == 1
            && r.value.totalPages == TotalPages(|store|, 12)
            && r.value.restaurants == store[..if |store| < 12 then |store| else 12]
  {
    PageContents(store, 1, 12);
  }

  /** `?limit=-5`: the store answers a negative limit with that many
      documents, so page 1 holds the first five. */
  lemma NegativeLimitFirstPage(store: seq<Restaurant>)
    ensures var r := ListRestaurants(store, None, Some("-5"));
            && r.Success?
            && r.value.page == 1
            && r.value.totalPages == TotalPages(|store|, -5)
            && r.value.restaurants == store[..if |store| < 5 then |store| else 5]
  {
    assert Decimal(-5) == "-5";
    PageParamDecimal(-5, 12);
    PageContents(store, 1, -5);
  }

  /** 25 documents, `page=2&limit=12`: three pages, and page 2 holds the
      documents numbered 13 to 24. */
  lemma SecondPageOfTwentyFive(store: seq<Restaurant>)
    requires |store| == 25
    ensures var r := ListRestaurants(store, Some("2"), Some("12"));
            && r.Success?
            && r.value.totalPages == 3
            && r.value.restaurants == store[12..24]
  {
    assert Decimal(2) == "2";
    assert Decimal(12) == "12";
    ListDecimal(store, 2, 12);
    SecondPageWindow(store);
  }

  lemma SecondPageWindow(store: seq<Restaurant>)
    requires |store| == 25
    ensures var r := ListPage(store, 2, 12);
            && r.Success?
            && r.value.totalPages == 3
            && r.value.restaurants == store[12..24]
  {
    PageContents(store, 2, 12);
    var w := ListPage(store, 2, 12).value.restaurants;
    assert |w| == 12;
    forall i | 0 <= i < 12
      ensures w[i] == store[12..24][i]
    {
      assert w[i] == store[12 + i];
    }
  }

  // ---------------------------------------------------------------- GET /:id

  /** `GET /:id`: 400 when `isNaN(id)`, otherwise the document whose
      `RestaurantId` equals the number `id` denotes, or 404. */
  function ById(store: seq<Restaurant>, id: string): (r: Result<Restaurant, HttpError>)
    ensures r.Failure? ==> r.error.Status() == 400 || r.error.Status() == 404
    ensures r.Failure? && r.error.Status() == 400 <==> IsNaN(id)
    ensures r.Success? <==>
              && ToNumber(id).Value?
              && ToNumber(id).value.Floor as real == ToNumber(id).value
              && HasId(store, ToNumber(id).value.Floor)
    ensures r.Success? ==>
              r.value in store && ToNumber(id) == Value(r.value.restaurantId as real)
  {
    match ToNumber(id)
    case NotANumber => Failure(BadRequest("Invalid Restaurant ID format."))
    case Infinity(_) => Failure(NotFound("Restaurant not found."))
    case Value(x) =>
      if x.Floor as real != x then Failure(NotFound("Restaurant not found."))
      else
        match FindById(store, x.Floor)
        case None => Failure(NotFound("Restaurant not found."))
        case Some(found) => Success(found)
  }

  /** Under the unique index, a stored document is found by its id as a
      link to it writes it. */
  lemma ByIdFindsStored(store: seq<Restaurant>, r: Restaurant)
    requires UniqueIds(store) && r in store
    ensures ById(store, Decimal(r.restaurantId)) == Success(r)
  {
    ToNumberDecimal(r.restaurantId);
    FindStored(store, r);
  }

  /** A well-formed id that no document carries gives 404. */
  lemma ByIdMissing(store: seq<Restaurant>, id: int)
    requires !HasId(store, id)
    ensures ById(store, Decimal(id)) == Failure(NotFound("Restaurant not found."))
  {
    ToNumberDecimal(id);
  }

  /** Text that is not a number: `?page=abc` falls back to the default page,
      and `/abc` is refused with 400. `12abc` is read by `parseInt` as 12 but
      is `NaN` for `Number()`, so `?page=12abc` is page 12 while `/12abc` is
      refused. */
  lemma NonNumericInputs(store: seq<Restaurant>)
    ensures PageParam(Some("abc"), 1) == 1
    ensures ById(store, "abc").Failure? && ById(store, "abc").error.Status() == 400
    ensures PageParam(Some("12abc"), 1) == 12
    ensures ById(store, "12abc").Failure? && ById(store, "12abc").error.Status() == 400
  {
    NotANumberText();
    NumberThenLetters();
  }
}
