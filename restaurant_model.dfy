/** The restaurant document of the store, as `RestaurantSchema` declares it,
    and the uniqueness of `RestaurantId` its unique index enforces. */
module RestaurantModel {
  import opened Wrappers

  /** The only GeoJSON geometry a `Location` may have; it is also the default. */
  datatype GeoType = Point

  /** The required coordinate pair, stored in the order [longitude, latitude]. */
  datatype Coordinates = Coordinates(longitude: real, latitude: real)

  datatype Location = Location(
    geoType: GeoType,
    coordinates: Coordinates,
    address: string,
    city: string)

  /** An embedded Zomato event; the scalar fields are optional in the schema. */
  datatype Event = Event(
    eventId: Option<int>,
    title: Option<string>,
    description: Option<string>,
    startDate: Option<string>,
    endDate: Option<string>,
    photos: seq<string>)

  datatype Restaurant = Restaurant(
    restaurantId: int,
    name: string,
    cuisines: string,
    averageCost: int,
    currency: string,
    rating: real,
    votes: int,
    location: Location,
    hasOnlineDelivery: bool,
    hasTableBooking: bool,
    priceRange: int,
    featuredImage: string,
    menuUrl: string,
    photosUrl: string,
    zomatoEvents: seq<Event>)

  /** The collection-wide invariant of the unique index on `RestaurantId`. */
  predicate UniqueIds(rs: seq<Restaurant>)
    ensures UniqueIds(rs) <==>
              forall i, j :: 0 <= i < |rs| && 0 <= j < |rs| && rs[i].restaurantId == rs[j].restaurantId ==> i == j
  {
    forall i, j :: 0 <= i < j < |rs| ==> rs[i].restaurantId != rs[j].restaurantId
  }

  predicate HasId(rs: seq<Restaurant>, id: int) {
    exists i :: 0 <= i < |rs| && rs[i].restaurantId == id
  }

  /** `findOne({ RestaurantId: id })`: the first document in natural order
      carrying `id`, if any. */
  function FindById(rs: seq<Restaurant>, id: int): (found: Option<Restaurant>)
    ensures found.Some? <==> HasId(rs, id)
    ensures found.Some? ==> found.value in rs && found.value.restaurantId == id
  {
    if |rs| == 0 then None
    else if rs[0].restaurantId == id then Some(rs[0])
    else
      var found := FindById(rs[1..], id);
      assert forall i :: 0 < i < |rs| ==> rs[i] == rs[1..][i - 1];
      found
  }

  /** Under the unique index, looking up a stored document's id finds that document. */
  lemma {:induction false} FindStored(rs: seq<Restaurant>, r: Restaurant)
    requires UniqueIds(rs) && r in rs
    ensures FindById(rs, r.restaurantId) == Some(r)
  {
    if rs[0] != r {
      assert rs[0].restaurantId != r.restaurantId by {
        var k :| 0 <= k < |rs| && rs[k] == r;
        assert k > 0;
      }
      assert UniqueIds(rs[1..]);
      assert r in rs[1..] by {
        var k :| 0 <= k < |rs| && rs[k] == r;
        assert rs[1..][k - 1] == r;
      }
      FindStored(rs[1..], r);
    }
  }
}
