/** The bulk loader's transformation: vendor JSON records are flattened into
    restaurant documents with fixed defaults, gathered file by file and entry
    by entry, and deduplicated by `RestaurantId` through a JavaScript `Map`. */
module LoadData {
  import opened Wrappers
  import opened JsText
  import opened RestaurantModel

  // ---------------------------------------------------------------- vendor export

  /** `restaurant.location`; the two coordinates are given as `parseFloat` reads them. */
  datatype VendorLocation = VendorLocation(
    longitude: Num,
    latitude: Num,
    address: Option<string>,
    city: Option<string>)

  /** `restaurant.user_rating`; the aggregate rating is given as `parseFloat` reads it. */
  datatype VendorRating = VendorRating(aggregateRating: Num, votes: Option<string>)

  /** `event.photos[k].photo`. */
  datatype VendorPhoto = VendorPhoto(url: string)

  /** `zomato_events[k].event`. */
  datatype VendorEvent = VendorEvent(
    eventId: Option<int>,
    title: Option<string>,
    description: Option<string>,
    startDate: Option<string>,
    endDate: Option<string>,
    photos: Option<seq<VendorPhoto>>)

  /** `restaurants[k].restaurant`, with `R.res_id` as `resId`. */
  datatype VendorRestaurant = VendorRestaurant(
    resId: int,
    name: Option<string>,
    cuisines: Option<string>,
    averageCostForTwo: Option<int>,
    currency: Option<string>,
    userRating: Option<VendorRating>,
    location: Option<VendorLocation>,
    hasOnlineDelivery: Option<int>,
    hasTableBooking: Option<int>,
    priceRange: Option<int>,
    featuredImage: Option<string>,
    menuUrl: Option<string>,
    photosUrl: Option<string>,
    zomatoEvents: Option<seq<VendorEvent>>)

  /** One element of a file's top-level array; `restaurants` may be absent. */
  datatype VendorEntry = VendorEntry(restaurants: Option<seq<VendorRestaurant>>)

  /** A parsed data file: only a top-level array contributes records. */
  datatype VendorFile = ArrayFile(entries: seq<VendorEntry>) | OtherFile

  // ---------------------------------------------------------------- per-record mapping

  /** `photos.map(p => p.photo.url)`. */
  function PhotoUrls(ps: seq<VendorPhoto>): (urls: seq<string>)
    ensures |urls| == |ps| && forall k :: 0 <= k < |ps| ==> urls[k] == ps[k].url
  {
    if |ps| == 0 then [] else PhotoUrls(ps[..|ps| - 1]) + [ps[|ps| - 1].url]
  }

  /** The object built for each vendor event: the scalar fields copied,
      `Photos` empty when the event has no photos. */
  function ToEvent(e: VendorEvent): (ev: Event)
    ensures ev.eventId == e.eventId && ev.title == e.title && ev.description == e.description
    ensures ev.startDate == e.startDate && ev.endDate == e.endDate
    ensures e.photos.None? ==> ev.photos == []
  {
    var photos := match e.photos
      case Some(ps) => PhotoUrls(ps)
      case None => [];
    Event(e.eventId, e.title, e.description, e.startDate, e.endDate, photos)
  }

  /** `zomato_events.map(...)`. */
  function ToEvents(es: seq<VendorEvent>): (evs: seq<Event>)
    ensures |evs| == |es| && forall k :: 0 <= k < |es| ==> evs[k] == ToEvent(es[k])
  {
    if |es| == 0 then [] else ToEvents(es[..|es| - 1]) + [ToEvent(es[|es| - 1])]
  }

  /** The documents the loader can produce: every string field that has a
      non-empty default is non-empty. */
  predicate IsLoaded(r: Restaurant) {
    && r.name != "" && r.cuisines != "" && r.currency != ""
    && r.location.address != "" && r.location.city != ""
    && r.menuUrl != "" && r.photosUrl != ""
  }

  /** `location: { type: "Point", coordinates: [lng || 0, lat || 0], ... }`. */
  function ToLocation(l: Option<VendorLocation>): (loc: Location)
    ensures loc.geoType == Point
    ensures loc.address != "" && loc.city != ""
    ensures l.None? ==> loc == Location(Point, Coordinates(0.0, 0.0), "No Address", "Unknown City")
    ensures l.Some? ==>
              && loc.coordinates == Coordinates(OrNum(l.value.longitude, 0.0), OrNum(l.value.latitude, 0.0))
              && loc.address == (if Truthy(l.value.address) then l.value.address.value else "No Address")
              && loc.city == (if Truthy(l.value.city) then l.value.city.value else "Unknown City")
  {
    match l
    case Some(l) =>
      Location(Point, Coordinates(OrNum(l.longitude, 0.0), OrNum(l.latitude, 0.0)),
               OrString(l.address, "No Address"), OrString(l.city, "Unknown City"))
    case None =>
      Location(Point, Coordinates(0.0, 0.0), "No Address", "Unknown City")
  }

  /** `parseFloat(user_rating?.aggregate_rating) || 0`. */
  function ToRating(u: Option<VendorRating>): (x: real)
    ensures u.None? ==> x == 0.0
    ensures x != 0.0 ==> u.Some? && u.value.aggregateRating == Finite(x)
  {
    match u
    case Some(u) => OrNum(u.aggregateRating, 0.0)
    case None => 0.0
  }

  /** `parseInt(user_rating?.votes) || 0`. */
  function ToVotes(u: Option<VendorRating>): (n: int)
    ensures u.None? || u.value.votes.None? ==> n == 0
    ensures n != 0 ==> u.Some? && u.value.votes.Some? && ParseInt(u.value.votes.value, false) == Some(n)
  {
    match u
    case Some(VendorRating(_, Some(text))) => OrInt(ParseInt(text, false), 0)
    case _ => 0
  }

  /** `zomato_events?.map(...) || []`. */
  function ToEventList(es: Option<seq<VendorEvent>>): (evs: seq<Event>)
    ensures es.None? ==> evs == []
    ensures es.Some? ==> |evs| == |es.value| && forall k :: 0 <= k < |evs| ==> evs[k] == ToEvent(es.value[k])
  {
    match es
    case Some(es) => ToEvents(es)
    case None => []
  }

  /** The object literal built for each vendor record: it keeps the vendor
      id, and has every defaulted string non-empty. */
  function ToRestaurant(v: VendorRestaurant): (r: Restaurant)
    ensures r.restaurantId == v.resId
    ensures IsLoaded(r)
  {
    Restaurant(
      v.resId,
      OrString(v.name, "Unknown"),
      OrString(v.cuisines, "Not Specified"),
      OrInt(v.averageCostForTwo, 0),
      OrString(v.currency, "Unknown"),
      ToRating(v.userRating),
      ToVotes(v.userRating),
      ToLocation(v.location),
      v.hasOnlineDelivery == Some(1),
      v.hasTableBooking == Some(1),
      OrInt(v.priceRange, 0),
      OrString(v.featuredImage, ""),
      OrString(v.menuUrl, "#"),
      OrString(v.photosUrl, "#"),
      ToEventList(v.zomatoEvents))
  }

  /** Field by field: a missing or empty string gets its fixed default, a
      missing or zero number 0; the coordinates are [longitude, latitude],
      each 0 when missing or unparseable; the flags hold exactly when the
      vendor field is 1; missing events give an empty list. */
  lemma ToRestaurantDefaults(v: VendorRestaurant)
    ensures var r := ToRestaurant(v);
      && r.name == (if Truthy(v.name) then v.name.value else "Unknown")
      && r.cuisines == (if Truthy(v.cuisines) then v.cuisines.value else "Not Specified")
      && r.currency == (if Truthy(v.currency) then v.currency.value else "Unknown")
      && r.featuredImage == v.featuredImage.GetOr("")
      && r.menuUrl == (if Truthy(v.menuUrl) then v.menuUrl.value else "#")
      && r.photosUrl == (if Truthy(v.photosUrl) then v.photosUrl.value else "#")
      && r.averageCost == v.averageCostForTwo.GetOr(0)
      && r.priceRange == v.priceRange.GetOr(0)
      && (r.hasOnlineDelivery <==> v.hasOnlineDelivery == Some(1))
      && (r.hasTableBooking <==> v.hasTableBooking == Some(1))
      && r.location.geoType == Point
      && (v.location.None? ==>
            r.location == Location(Point, Coordinates(0.0, 0.0), "No Address", "Unknown City"))
      && (v.location.Some? ==>
            && r.location.coordinates.longitude == OrNum(v.location.value.longitude, 0.0)
            && r.location.coordinates.latitude == OrNum(v.location.value.latitude, 0.0))
      && (v.location.Some? ==>
            && r.location.address ==
                 (if Truthy(v.location.value.address) then v.location.value.address.value else "No Address")
            && r.location.city ==
                 (if Truthy(v.location.value.city) then v.location.value.city.value else "Unknown City"))
      && (v.userRating.None? ==> r.rating == 0.0 && r.votes == 0)
      && (v.userRating.Some? ==> r.rating == OrNum(v.userRating.value.aggregateRating, 0.0))
      && (v.userRating.Some? && v.userRating.value.votes.None? ==> r.votes == 0)
      && (v.userRating.Some? && v.userRating.value.votes.Some? ==>
            r.votes == OrInt(ParseInt(v.userRating.value.votes.value, false), 0))
      && (v.zomatoEvents.None? ==> r.zomatoEvents == [])
      && (v.zomatoEvents.Some? ==> r.zomatoEvents == ToEvents(v.zomatoEvents.value))
  {
  }

  /** A vote count written as a decimal integer is stored as that integer
      (0 included, which `|| 0` maps to itself). */
  lemma VotesReadBack(v: VendorRestaurant, n: int)
    requires v.userRating.Some? && v.userRating.value.votes == Some(Decimal(n))
    ensures ToRestaurant(v).votes == n
  {
    ParseIntDecimal(n, false);
  }

  // ---------------------------------------------------------------- inverse of the mapping

  function FromEvent(ev: Event): VendorEvent {
    var ps := ev.photos;
    VendorEvent(ev.eventId, ev.title, ev.description, ev.startDate, ev.endDate,
                Some(seq(|ps|, k requires 0 <= k < |ps| => VendorPhoto(ps[k]))))
  }

  /** A vendor record that carries every field of `r` explicitly. */
  function FromRestaurant(r: Restaurant): VendorRestaurant {
    var es := r.zomatoEvents;
    VendorRestaurant(
      r.restaurantId,
      Some(r.name),
      Some(r.cuisines),
      Some(r.averageCost),
      Some(r.currency),
      Some(VendorRating(Finite(r.rating), Some(Decimal(r.votes)))),
      Some(VendorLocation(Finite(r.location.coordinates.longitude),
                          Finite(r.location.coordinates.latitude),
                          Some(r.location.address), Some(r.location.city))),
      Some(if r.hasOnlineDelivery then 1 else 0),
      Some(if r.hasTableBooking then 1 else 0),
      Some(r.priceRange),
      Some(r.featuredImage),
      Some(r.menuUrl),
      Some(r.photosUrl),
      Some(seq(|es|, k requires 0 <= k < |es| => FromEvent(es[k]))))
  }

  lemma EventRoundTrip(ev: Event)
    ensures ToEvent(FromEvent(ev)) == ev
  {
    var back := ToEvent(FromEvent(ev));
    assert back.photos == ev.photos;
  }

  /** The documents the loader produces are exactly the loaded-form ones: each
      one is rebuilt unchanged from a vendor record that spells it out. */
  lemma {:induction false} LoadRoundTrip(r: Restaurant)
    requires IsLoaded(r)
    ensures ToRestaurant(FromRestaurant(r)) == r
  {
    var v := FromRestaurant(r);
    var back := ToRestaurant(v);
    ParseIntDecimal(r.votes, false);
    assert back.votes == r.votes;
    assert back.location == r.location;
    var es := r.zomatoEvents;
    forall k | 0 <= k < |es|
      ensures back.zomatoEvents[k] == es[k]
    {
      EventRoundTrip(es[k]);
    }
    assert back.zomatoEvents == es;
  }

  // ---------------------------------------------------------------- gathering the files

  /** `entry.restaurants.map(...)` with the object literal above. */
  function Mapped(vs: seq<VendorRestaurant>): (rs: seq<Restaurant>)
    ensures |rs| == |vs|
  {
    if |vs| == 0 then [] else Mapped(vs[..|vs| - 1]) + [ToRestaurant(vs[|vs| - 1])]
  }

  lemma {:induction false} MappedIndex(vs: seq<VendorRestaurant>, k: int)
    requires 0 <= k < |vs|
    ensures Mapped(vs)[k] == ToRestaurant(vs[k])
  {
    if k < |vs| - 1 {
      MappedIndex(vs[..|vs| - 1], k);
    }
  }

  lemma MappedMembership(vs: seq<VendorRestaurant>, r: Restaurant)
    ensures r in Mapped(vs) <==> exists k :: 0 <= k < |vs| && r == ToRestaurant(vs[k])
  {
    if r in Mapped(vs) {
      var k :| 0 <= k < |vs| && Mapped(vs)[k] == r;
      MappedIndex(vs, k);
    }
    if exists k :: 0 <= k < |vs| && r == ToRestaurant(vs[k]) {
      var k :| 0 <= k < |vs| && r == ToRestaurant(vs[k]);
      MappedIndex(vs, k);
    }
  }

  /** The records one entry adds: its mapped `restaurants`, or none. */
  function EntryRecords(e: VendorEntry): (rs: seq<Restaurant>)
  {
    match e.restaurants
    case Some(vs) => Mapped(vs)
    case None => []
  }

  /** The records of a file's entries, in entry order. */
  function EntriesRecords(es: seq<VendorEntry>): seq<Restaurant> {
    if |es| == 0 then [] else EntriesRecords(es[..|es| - 1]) + EntryRecords(es[|es| - 1])
  }

  function FileRecords(f: VendorFile): (rs: seq<Restaurant>)
  {
    match f
    case ArrayFile(es) => EntriesRecords(es)
    case OtherFile => []
  }

  /** `allData` after the loop: every file's records, in file order. */
  function AllRecords(files: seq<VendorFile>): (rs: seq<Restaurant>)
  {
    if |files| == 0 then [] else AllRecords(files[..|files| - 1]) + FileRecords(files[|files| - 1])
  }

  /** The vendor record at file `f`, entry `e`, position `k` exists. */
  predicate VendorRecordAt(files: seq<VendorFile>, f: int, e: int, k: int) {
    && 0 <= f < |files| && files[f].ArrayFile?
    && 0 <= e < |files[f].entries| && files[f].entries[e].restaurants.Some?
    && 0 <= k < |files[f].entries[e].restaurants.value|
  }

  function VendorRecord(files: seq<VendorFile>, f: int, e: int, k: int): VendorRestaurant
    requires VendorRecordAt(files, f, e, k)
  {
    files[f].entries[e].restaurants.value[k]
  }

  /** `r` is the mapping of record `k` of entry `e`. */
  predicate MappedAt(es: seq<VendorEntry>, r: Restaurant, e: int, k: int) {
    && 0 <= e < |es| && es[e].restaurants.Some?
    && 0 <= k < |es[e].restaurants.value|
    && r == ToRestaurant(es[e].restaurants.value[k])
  }

  /** Every record of an entry's `restaurants` is gathered. */
  lemma {:induction false} EntriesRecordsComplete(es: seq<VendorEntry>, r: Restaurant, e: int, k: int)
    requires MappedAt(es, r, e, k)
    ensures r in EntriesRecords(es)
  {
    var n := |es| - 1;
    EntriesRecordsSnoc(es, n);
    if e < n {
      assert MappedAt(es[..n], r, e, k);
      EntriesRecordsComplete(es[..n], r, e, k);
    } else {
      MappedIndex(es[n].restaurants.value, k);
      assert r == EntryRecords(es[n])[k];
    }
  }

  /** Every gathered record comes from a record of some entry. */
  lemma {:induction false} EntriesRecordsSound(es: seq<VendorEntry>, r: Restaurant)
    requires r in EntriesRecords(es)
    ensures exists e, k :: MappedAt(es, r, e, k)
  {
    var n := |es| - 1;
    EntriesRecordsSnoc(es, n);
    if r in EntriesRecords(es[..n]) {
      EntriesRecordsSound(es[..n], r);
      var e, k :| MappedAt(es[..n], r, e, k);
      assert MappedAt(es, r, e, k);
    } else {
      var vs := es[n].restaurants.value;
      var k :| 0 <= k < |vs| && Mapped(vs)[k] == r;
      MappedIndex(vs, k);
      assert MappedAt(es, r, n, k);
    }
  }

  lemma EntriesRecordsMembership(es: seq<VendorEntry>, r: Restaurant)
    ensures r in EntriesRecords(es) <==> exists e, k :: MappedAt(es, r, e, k)
  {
    if r in EntriesRecords(es) {
      EntriesRecordsSound(es, r);
    }
    if exists e, k :: MappedAt(es, r, e, k) {
      var e, k :| MappedAt(es, r, e, k);
      EntriesRecordsComplete(es, r, e, k);
    }
  }

  /** `r` is the mapping of the vendor record at file `f`, entry `e`, position `k`. */
  predicate GatheredAt(files: seq<VendorFile>, r: Restaurant, f: int, e: int, k: int) {
    VendorRecordAt(files, f, e, k) && r == ToRestaurant(VendorRecord(files, f, e, k))
  }

  lemma {:induction false} AllRecordsComplete(files: seq<VendorFile>, r: Restaurant, f: int, e: int, k: int)
    requires GatheredAt(files, r, f, e, k)
    ensures r in AllRecords(files)
  {
    var n := |files| - 1;
    AllRecordsSnoc(files, n);
    if f < n {
      assert GatheredAt(files[..n], r, f, e, k);
      AllRecordsComplete(files[..n], r, f, e, k);
    } else {
      assert MappedAt(files[n].entries, r, e, k);
      EntriesRecordsComplete(files[n].entries, r, e, k);
    }
  }

  lemma {:induction false} AllRecordsSound(files: seq<VendorFile>, r: Restaurant)
    requires r in AllRecords(files)
    ensures exists f, e, k :: GatheredAt(files, r, f, e, k)
  {
    var n := |files| - 1;
    assert AllRecords(files) == AllRecords(files[..n]) + FileRecords(files[n]);
    if r in AllRecords(files[..n]) {
      AllRecordsSound(files[..n], r);
      var f, e, k :| GatheredAt(files[..n], r, f, e, k);
      assert GatheredAt(files, r, f, e, k);
    } else {
      assert r in FileRecords(files[n]) && files[n].ArrayFile?;
      EntriesRecordsSound(files[n].entries, r);
      var e, k :| MappedAt(files[n].entries, r, e, k);
      assert GatheredAt(files, r, n, e, k);
    }
  }

  /** A record is gathered exactly when it is the mapping of a vendor record
      of some array file's entry that has `restaurants`. */
  lemma AllRecordsMembership(files: seq<VendorFile>, r: Restaurant)
    ensures r in AllRecords(files) <==> exists f, e, k :: GatheredAt(files, r, f, e, k)
  {
    if r in AllRecords(files) {
      AllRecordsSound(files, r);
    }
    if exists f, e, k :: GatheredAt(files, r, f, e, k) {
      var f, e, k :| GatheredAt(files, r, f, e, k);
      AllRecordsComplete(files, r, f, e, k);
    }
  }

  /** Every gathered record is one the per-record mapping can produce. */
  lemma AllRecordsLoaded(files: seq<VendorFile>)
    ensures forall r :: r in AllRecords(files) ==> IsLoaded(r)
  {
    forall r | r in AllRecords(files)
      ensures IsLoaded(r)
    {
      AllRecordsSound(files, r);
    }
  }

  /** Gathering two runs of files gives the first run's records, then the second's. */
  lemma {:induction false} AllRecordsAppend(a: seq<VendorFile>, b: seq<VendorFile>)
    ensures AllRecords(a + b) == AllRecords(a) + AllRecords(b)
  {
    if |b| == 0 {
      assert a + b == a;
    } else {
      var b' := b[..|b| - 1];
      assert (a + b)[..|a + b| - 1] == a + b';
      assert (a + b)[|a + b| - 1] == b[|b| - 1];
      AllRecordsAppend(a, b');
      assert AllRecords(a) + AllRecords(b') + FileRecords(b[|b| - 1])
          == AllRecords(a) + (AllRecords(b') + FileRecords(b[|b| - 1]));
    }
  }

  lemma EntriesRecordsSnoc(es: seq<VendorEntry>, j: int)
    requires 0 <= j < |es|
    ensures EntriesRecords(es[..j + 1]) == EntriesRecords(es[..j]) + EntryRecords(es[j])
  {
    assert es[..j + 1][..j] == es[..j];
  }

  lemma AllRecordsSnoc(files: seq<VendorFile>, i: int)
    requires 0 <= i < |files|
    ensures AllRecords(files[..i + 1]) == AllRecords(files[..i]) + FileRecords(files[i])
  {
    assert files[..i + 1][..i] == files[..i];
  }

  lemma ConcatAssoc(a: seq<Restaurant>, b: seq<Restaurant>, c: seq<Restaurant>)
    ensures a + b + c == a + (b + c)
  {
  }

  /** `rawData.forEach(...)`: each entry that has `restaurants` concatenates
      its mapped records onto `allData`. */
  method AppendEntries(allData: seq<Restaurant>, entries: seq<VendorEntry>)
    returns (result: seq<Restaurant>)
    ensures result == allData + EntriesRecords(entries)
  {
    result := allData;
    for j := 0 to |entries|
      invariant result == allData + EntriesRecords(entries[..j])
    {
      EntriesRecordsSnoc(entries, j);
      ConcatAssoc(allData, EntriesRecords(entries[..j]), EntryRecords(entries[j]));
      if entries[j].restaurants.Some? {
        result := result + Mapped(entries[j].restaurants.value);
      }
    }
    assert entries[..|entries|] == entries;
  }

  /** The loop over the data files: only a file whose content is an array
      contributes, through its entries. */
  method CollectRecords(files: seq<VendorFile>) returns (allData: seq<Restaurant>)
    ensures allData == AllRecords(files)
  {
    allData := [];
    for i := 0 to |files|
      invariant allData == AllRecords(files[..i])
    {
      AllRecordsSnoc(files, i);
      if files[i].ArrayFile? {
        allData := AppendEntries(allData, files[i].entries);
      }
    }
    assert files[..|files|] == files;
  }

  // ---------------------------------------------------------------- dedup through a Map

  function Ids(rs: seq<Restaurant>): (ids: seq<int>)
    ensures |ids| == |rs| && forall k :: 0 <= k < |rs| ==> ids[k] == rs[k].restaurantId
  {
    seq(|rs|, k requires 0 <= k < |rs| => rs[k].restaurantId)
  }

  /** The ids of a sequence with one more record end with that record's id. */
  lemma IdsSnoc(rs: seq<Restaurant>)
    requires |rs| > 0
    ensures Ids(rs) == Ids(rs[..|rs| - 1]) + [rs[|rs| - 1].restaurantId]
  {
    var n := |rs| - 1;
    var b := Ids(rs[..n]) + [rs[n].restaurantId];
    forall k | 0 <= k < |rs|
      ensures Ids(rs)[k] == b[k]
    {
      if k < n {
        assert rs[..n][k] == rs[k];
      }
    }
  }

  /** The position of the entry with key `id`, if there is one. */
  function IndexOfId(entries: seq<Restaurant>, id: int): (k: Option<nat>)
    ensures k.Some? ==> k.value < |entries| && entries[k.value].restaurantId == id
    ensures k.None? ==> id !in Ids(entries)
  {
    if |entries| == 0 then None
    else if entries[|entries| - 1].restaurantId == id then Some(|entries| - 1)
    else IndexOfId(entries[..|entries| - 1], id)
  }

  /** `map.set(r.RestaurantId, r)`, the map's values kept in insertion order:
      an existing key keeps its place and takes the new value; a new key goes last. */
  function MapSet(entries: seq<Restaurant>, r: Restaurant): (out: seq<Restaurant>)
    ensures r.restaurantId in Ids(entries) ==> Ids(out) == Ids(entries)
    ensures r.restaurantId !in Ids(entries) ==> Ids(out) == Ids(entries) + [r.restaurantId]
    ensures UniqueIds(entries) ==> UniqueIds(out)
  {
    match IndexOfId(entries, r.restaurantId)
    case Some(k) =>
      var out := entries[k := r];
      assert Ids(out) == Ids(entries);
      out
    case None => entries + [r]
  }

  /** `Array.from(new Map(allData.map(item => [item.RestaurantId, item])).values())`. */
  function Dedup(rs: seq<Restaurant>): (out: seq<Restaurant>)
    ensures UniqueIds(out)
    ensures |out| <= |rs|
    ensures forall id :: id in Ids(out) <==> id in Ids(rs)
  {
    if |rs| == 0 then []
    else
      var init := rs[..|rs| - 1];
      var out := MapSet(Dedup(init), rs[|rs| - 1]);
      IdsSnoc(rs);
      out
  }

  // ---------------------------------------------------------------- reference definition of the dedup

  /** The ids at their first occurrence, in the order of those occurrences. */
  function FirstOccurrences(ids: seq<int>): seq<int> {
    if |ids| == 0 then []
    else if ids[|ids| - 1] in ids[..|ids| - 1] then FirstOccurrences(ids[..|ids| - 1])
    else FirstOccurrences(ids[..|ids| - 1]) + [ids[|ids| - 1]]
  }

  predicate Distinct(ids: seq<int>) {
    forall i, j :: 0 <= i < j < |ids| ==> ids[i] != ids[j]
  }

  /** The last record of `rs` carrying `id`. */
  function LastWithId(rs: seq<Restaurant>, id: int): (r: Restaurant)
    requires id in Ids(rs)
    ensures r in rs && r.restaurantId == id
  {
    var n := |rs| - 1;
    if rs[n].restaurantId == id then rs[n]
    else
      IdsSnoc(rs);
      LastWithId(rs[..n], id)
  }

  /** The first occurrences keep every id once, and only the ids given. */
  lemma {:induction false} FirstOccurrencesSpec(ids: seq<int>)
    ensures Distinct(FirstOccurrences(ids))
    ensures forall id :: id in FirstOccurrences(ids) <==> id in ids
    ensures |FirstOccurrences(ids)| <= |ids|
    ensures |FirstOccurrences(ids)| == |ids| <==> Distinct(ids)
  {
    if |ids| > 0 {
      var n := |ids| - 1;
      var init := ids[..n];
      FirstOccurrencesSpec(init);
      assert ids == init + [ids[n]];
      if ids[n] in init {
        var i :| 0 <= i < n && init[i] == ids[n];
        assert !Distinct(ids) by { assert ids[i] == ids[n]; }
      } else {
        assert Distinct(ids) <==> Distinct(init);
      }
    }
  }

  /** After `map.set`, the entry for the set key is the new record and every
      other entry is where it was. */
  lemma MapSetAt(entries: seq<Restaurant>, r: Restaurant, k: nat)
    requires UniqueIds(entries)
    requires k < |MapSet(entries, r)|
    ensures MapSet(entries, r)[k].restaurantId == r.restaurantId ==> MapSet(entries, r)[k] == r
    ensures MapSet(entries, r)[k].restaurantId != r.restaurantId ==>
              k < |entries| && MapSet(entries, r)[k] == entries[k]
  {
    match IndexOfId(entries, r.restaurantId)
    case Some(i) =>
      if k != i && k < |entries| {
        if k < i {
          assert entries[k].restaurantId != entries[i].restaurantId;
        } else {
          assert entries[i].restaurantId != entries[k].restaurantId;
        }
      }
    case None =>
      if k < |entries| {
        assert Ids(entries)[k] == entries[k].restaurantId;
      }
  }

  /** The dedup lists the ids in the order of their first occurrence. */
  lemma {:induction false} DedupOrder(rs: seq<Restaurant>)
    ensures Ids(Dedup(rs)) == FirstOccurrences(Ids(rs))
  {
    if |rs| > 0 {
      var n := |rs| - 1;
      var init := rs[..n];
      var id := rs[n].restaurantId;
      DedupOrder(init);
      IdsSnoc(rs);
      assert Ids(rs)[..n] == Ids(init);
      assert Dedup(rs) == MapSet(Dedup(init), rs[n]);
      assert id in Ids(Dedup(init)) <==> id in Ids(init);
    }
  }

  /** Each record the dedup keeps is the last one in the input with its id. */
  lemma {:induction false} DedupKeepsLast(rs: seq<Restaurant>)
    ensures forall k :: 0 <= k < |Dedup(rs)| ==>
              Dedup(rs)[k] == LastWithId(rs, Dedup(rs)[k].restaurantId)
  {
    if |rs| > 0 {
      var n := |rs| - 1;
      var init := rs[..n];
      var x := rs[n];
      var d := Dedup(init);
      DedupKeepsLast(init);
      var out := Dedup(rs);
      assert out == MapSet(d, x);
      forall k | 0 <= k < |out|
        ensures out[k] == LastWithId(rs, out[k].restaurantId)
      {
        MapSetAt(d, x, k);
        if out[k].restaurantId != x.restaurantId {
          assert d[k].restaurantId == Ids(d)[k];
          assert LastWithId(rs, out[k].restaurantId) == LastWithId(init, out[k].restaurantId);
        }
      }
    }
  }

  /** The dedup agrees with the reference definition: the ids come out in the
      order of their first occurrence, and each id carries its last record. */
  lemma DedupKeepsLastAtFirstPosition(rs: seq<Restaurant>)
    ensures Ids(Dedup(rs)) == FirstOccurrences(Ids(rs))
    ensures forall k :: 0 <= k < |Dedup(rs)| ==>
              Dedup(rs)[k] == LastWithId(rs, Dedup(rs)[k].restaurantId)
  {
    DedupOrder(rs);
    DedupKeepsLast(rs);
  }

  /** The dedup shrinks the input exactly when some id repeats. */
  lemma DedupLength(rs: seq<Restaurant>)
    ensures |Dedup(rs)| == |rs| <==> UniqueIds(rs)
  {
    DedupKeepsLastAtFirstPosition(rs);
    FirstOccurrencesSpec(Ids(rs));
    UniqueIdsAreDistinct(rs);
  }

  /** The unique index, said of the records or of their id column. */
  lemma UniqueIdsAreDistinct(rs: seq<Restaurant>)
    ensures UniqueIds(rs) <==> Distinct(Ids(rs))
  {
  }

  /** The whole transformation: gather, then dedup. The result satisfies the
      unique index, so `insertMany` cannot hit a duplicate key. */
  method Load(files: seq<VendorFile>) returns (uniqueData: seq<Restaurant>)
    ensures uniqueData == Dedup(AllRecords(files))
    ensures UniqueIds(uniqueData)
    ensures forall r :: r in uniqueData ==> IsLoaded(r)
  {
    var allData := CollectRecords(files);
    uniqueData := Dedup(allData);
    forall r | r in uniqueData
      ensures IsLoaded(r)
    {
      DedupKeepsLastAtFirstPosition(allData);
      var k :| 0 <= k < |uniqueData| && uniqueData[k] == r;
      AllRecordsMembership(files, LastWithId(allData, r.restaurantId));
    }
  }
}
