# Zomato clone: restaurant data, query and list-page logic in Dafny

The application is an Express + MongoDB back end with a React front end. It serves restaurant records loaded from Zomato vendor dumps. This project models its deterministic core:

- **Bulk loader** (`LoadData`, load_data.dfy):
  - maps each vendor record to the stored restaurant record, replacing a missing or falsy field with its fixed default (`||`);
  - gathers the records of every array-valued file and every entry with a `restaurants` field, in file, entry and record order (the loop is a method);
  - deduplicates them by `RestaurantId` with JavaScript `Map` semantics: each id keeps its last record, placed where the id first occurred.
- **Restaurant routes** (`RestaurantRoutes`, restaurant_routes.dfy), with the collection as a sequence in natural order:
  - `/search`: a three-field, case-insensitive match, capped at 50 results;
  - `/nearby`: parameter validation, the `[lng, lat]` point, the km-to-m radius, and the store's acceptance of the query;
  - `/`: `parseInt(x) || d` parsing, the skip/limit window, and `Math.ceil` for `totalPages`;
  - `/:id`: the `isNaN` check and the lookup by id.
- **Image search** (`ImageSearchRoutes`, image_search_routes.dfy):
  - the upload check;
  - the `split(",")`, `trim`, `filter(Boolean)` parse of the AI reply;
  - the 404 when no food is found;
  - the cuisine any-match;
  - the 500 when the AI call fails.
- **Record schema** (`RestaurantModel`, restaurant_model.dfy): the record datatypes and the unique-id invariant.
- **Restaurant list page** (`RestaurantListPage`, restaurant_list.dfy): a class holding the component's state. Its methods are the fetch, the page-change effect, search, clear, and the Previous/Next buttons. A request the page sends is a value that the methods return, and the response is given back through `Receive` or `Fail`.
- **JavaScript built-ins** the code relies on (`JsText`, js_text.dfy):
  - `trim`, and `split` on one character;
  - `parseInt`, and `Number()`/`isNaN` on a string, with exact real values;
  - the case-insensitive literal substring test;
  - the decimal rendering of a page number in a URL.

The loader's file contents, `parseFloat` in `/nearby`, the geodesic distance and the AI model are parameters of the functions that use them. The loader's vendor records carry the coordinates and the aggregate rating already as `parseFloat` reads them, so the loader itself applies only `|| 0` to them.

## Model

| member | source | states |
|---|---|---|
| `LoadData.ToEvent` | backend/scripts/loadData.js:52-59 | an event keeps its id, title, description and dates; absent photos give an empty list |
| `LoadData.PhotoUrls` | backend/scripts/loadData.js:58 | the photo list is the URLs of the vendor photos, in order |
| `LoadData.ToEvents` | backend/scripts/loadData.js:52-59 | the event list maps every vendor event, in order |
| `LoadData.ToLocation` | backend/scripts/loadData.js:37-45 | the type is 'Point'; a missing location gives [0, 0], "No Address", "Unknown City"; a present one gives [longitude \|\| 0, latitude \|\| 0] and keeps a non-empty address and city, replacing a missing or empty one by its default |
| `LoadData.ToRestaurant` | backend/scripts/loadData.js:29-60 | the record keeps the vendor `res_id`, and every string field with a non-empty default is non-empty |
| `LoadData.ToRestaurantDefaults` | backend/scripts/loadData.js:31-59 | each field is the vendor value, or its fixed default when missing or falsy; coordinates are [longitude, latitude], each 0 when unparseable; address and city default to "No Address" and "Unknown City"; the rating is `parseFloat(aggregate_rating) \|\| 0` and the votes `parseInt(votes, 10) \|\| 0`, both 0 without a user rating; the flags hold exactly when the vendor field is 1; missing events give [], present ones are mapped one by one in order |
| `LoadData.ToRating` | backend/scripts/loadData.js:35 | `parseFloat(aggregate_rating) \|\| 0`: 0 without a user rating, and a non-zero rating is the parsed vendor value |
| `LoadData.ToVotes` | backend/scripts/loadData.js:36 | `parseInt(votes, 10) \|\| 0`: 0 without a user rating or votes, and a non-zero count is the parsed vendor text |
| `LoadData.ToEventList` | backend/scripts/loadData.js:52-59 | `zomato_events ? zomato_events.map(...) : []`: no events give [], present ones are mapped one by one in order |
| `LoadData.VotesReadBack` | backend/scripts/loadData.js:36 | a vote count written as a decimal integer is stored as that integer |
| `LoadData.EventRoundTrip` | backend/scripts/loadData.js:52-59 | the event mapping loses nothing: mapping an event's vendor form gives the event back |
| `LoadData.LoadRoundTrip` | backend/scripts/loadData.js:29-60 | every loaded record is the mapping of its own vendor form, so the mapping loses no field |
| `LoadData.Mapped` | backend/scripts/loadData.js:29 | `map` keeps the number of records |
| `LoadData.MappedIndex` | backend/scripts/loadData.js:29 | the k-th mapped record is the mapping of the k-th vendor record |
| `LoadData.MappedMembership` | backend/scripts/loadData.js:29-60 | a record is mapped exactly when it is the mapping of some vendor record |
| `LoadData.EntriesRecordsMembership` | backend/scripts/loadData.js:27-63 | a record is gathered from the entries exactly when some entry with `restaurants` maps to it |
| `LoadData.AllRecordsMembership` | backend/scripts/loadData.js:21-65 | a record is gathered exactly when some entry of some array-valued file maps to it; other files contribute nothing |
| `LoadData.AllRecordsAppend` | backend/scripts/loadData.js:21-65 | gathering is file by file: the records of `a + b` are those of `a` then those of `b` |
| `LoadData.AllRecordsLoaded` | backend/scripts/loadData.js:21-65 | every record `allData` gathers (`AllRecords`) is one the per-record mapping produces, with every defaulted string non-empty |
| `LoadData.AppendEntries` | backend/scripts/loadData.js:27-63 | the `forEach` with `concat` appends the entries' records, in entry order, to what was gathered |
| `LoadData.CollectRecords` | backend/scripts/loadData.js:18-65 | the file loop yields exactly the specification `AllRecords` of the files |
| `LoadData.Ids` | backend/scripts/loadData.js:68 | the key sequence `allData.map(item => item.RestaurantId)` |
| `LoadData.IndexOfId` | backend/scripts/loadData.js:68 | the `Map` lookup: a found position holds that id; no position means the id is absent |
| `LoadData.MapSet` | backend/scripts/loadData.js:68 | `Map.set`: a present key keeps its place, a new key goes last, and distinct keys stay distinct |
| `LoadData.Dedup` | backend/scripts/loadData.js:68 | the result has distinct ids, is no longer than its input, and has exactly the input's ids |
| `LoadData.FirstOccurrencesSpec` | backend/scripts/loadData.js:68 | the reference order of ids: distinct, the same ids, and shorter exactly when an id repeats |
| `LoadData.DedupKeepsLastAtFirstPosition` | backend/scripts/loadData.js:68 | the dedup equals the reference: ids in first-occurrence order, each with the last record carrying that id |
| `LoadData.DedupLength` | backend/scripts/loadData.js:68 | the output is as long as the input exactly when no id repeats |
| `LoadData.UniqueIdsAreDistinct` | backend/models/Restaurant.js:4 | the unique index said of the records is the same as distinctness of their id column |
| `RestaurantModel.UniqueIds` | backend/models/Restaurant.js:4 | the unique index: two positions holding the same `RestaurantId` are the same position |
| `LoadData.Load` | backend/scripts/loadData.js:18-70 | the data handed to `insertMany` is the dedup of the gathered records; it satisfies the unique index and holds only mapped records |
| `RestaurantModel.FindById` | backend/models/Restaurant.js:4 | a lookup by `RestaurantId` finds a stored record with that id exactly when one exists |
| `RestaurantModel.FindStored` | backend/models/Restaurant.js:4 | under the unique index, a stored record is what its id finds |
| `RestaurantRoutes.Take` | backend/routes/restaurantRoutes.js:21 | `limit(n)` returns the first `min(n, length)` documents |
| `RestaurantRoutes.Matches` | backend/routes/restaurantRoutes.js:11-19 | the `$or` of three case-insensitive `$regex` tests on Name, Cuisines and City; the empty query matches every document |
| `RestaurantRoutes.Filter` | backend/routes/restaurantRoutes.js:11-19 | every document the filter returns is stored and matches Name, Cuisines or City |
| `RestaurantRoutes.FilterMembership` | backend/routes/restaurantRoutes.js:11-19 | a document passes the filter exactly when it is stored and one of the three fields contains the query, ignoring case |
| `RestaurantRoutes.FilterAppend` | backend/routes/restaurantRoutes.js:21 | the filter keeps store order |
| `RestaurantRoutes.FilterEmptyPattern` | backend/routes/restaurantRoutes.js:11-19 | the empty pattern matches every document |
| `RestaurantRoutes.Search` | backend/routes/restaurantRoutes.js:6-26 | at most 50 documents; `total` is the number returned; each is stored and matches a non-empty query |
| `RestaurantRoutes.SearchComplete` | backend/routes/restaurantRoutes.js:11-22 | with 50 or fewer matches, every matching document is returned |
| `RestaurantRoutes.SearchCapped` | backend/routes/restaurantRoutes.js:21-22 | the answer is the first `min(matches, 50)` matching documents, in store order, and `total` is that number |
| `RestaurantRoutes.SearchFirstMatches` | backend/routes/restaurantRoutes.js:21 | once 50 documents match, documents stored after them never change the answer |
| `RestaurantRoutes.SearchByName` | backend/routes/restaurantRoutes.js:14 | searching for a restaurant's own name returns it when the matches fit the cap |
| `RestaurantRoutes.Kilometres` | backend/routes/restaurantRoutes.js:39 | the radius is the parsed range times 1000, and `NaN` stays `NaN` |
| `RestaurantRoutes.NearbyQuery` | backend/routes/restaurantRoutes.js:31-51 | 400 exactly when lat, lng or range is missing or empty; otherwise the point is [parsed lng, parsed lat] and the radius is in metres |
| `RestaurantRoutes.Validate` | backend/routes/restaurantRoutes.js:41-51 | the store accepts exactly finite coordinates within the longitude and latitude bounds and a non-negative finite radius |
| `RestaurantRoutes.WithinRadius` | backend/routes/restaurantRoutes.js:41-51 | the documents returned are exactly the stored ones within the radius, each as many times as it is stored, and never more documents than stored |
| `RestaurantRoutes.InsertBy` | backend/routes/restaurantRoutes.js:43 | inserting into a list sorted by distance keeps it sorted and adds exactly one element |
| `RestaurantRoutes.SortBy` | backend/routes/restaurantRoutes.js:43 | `$nearSphere` order: a permutation sorted nearest first |
| `RestaurantRoutes.Nearby` | backend/routes/restaurantRoutes.js:29-60 | 400 exactly when a parameter is missing; success exactly when the parameters are present and the store accepts the query, any other failure being 500; on success, exactly the stored documents within the radius, each as many times as it is stored, nearest first |
| `RestaurantRoutes.NearbyRefused` | backend/routes/restaurantRoutes.js:55-58 | a query the store refuses ends in 500 |
| `RestaurantRoutes.NearbyIsPermutation` | backend/routes/restaurantRoutes.js:41-54 | the answer is a reordering of the in-radius filter of the store |
| `RestaurantRoutes.PageParam` | backend/routes/restaurantRoutes.js:66-67 | `parseInt(p) \|\| d`: the default when missing, unparseable (`NaN`) or 0, otherwise the parsed integer, negative ones included |
| `RestaurantRoutes.PageParamDecimal` | backend/routes/restaurantRoutes.js:66-67 | a number written out is read back, including a negative one; 0 gives the default |
| `RestaurantRoutes.TotalPages` | backend/routes/restaurantRoutes.js:76 | `Math.ceil(total / limit)`: no documents give 0 pages, and some documents with a positive limit give at least one |
| `RestaurantRoutes.TotalPagesIsCeiling` | backend/routes/restaurantRoutes.js:76 | `totalPages` is the ceiling of total/limit: `(c-1)*limit < total <= c*limit` for a positive limit, reversed for a negative one |
| `RestaurantRoutes.Window` | backend/routes/restaurantRoutes.js:70 | `skip(s).limit(l)` is the documents from position s on, at most abs(l) of them |
| `RestaurantRoutes.ListPage` | backend/routes/restaurantRoutes.js:68-81 | a negative skip is refused (500); otherwise the page, the count, `totalPages`, and the documents of `skip((page-1)*limit).limit(limit)`, a negative limit included, so at most abs(limit) of them |
| `RestaurantRoutes.ListRestaurants` | backend/routes/restaurantRoutes.js:63-82 | for every pair of parameters, the list query on `parseInt(page) \|\| 1` and `parseInt(limit) \|\| 12`; without parameters it is page 1 of 12 |
| `RestaurantRoutes.SkipSign` | backend/routes/restaurantRoutes.js:68 | the skip is negative exactly for page < 1 with limit > 0, or page > 1 with limit < 0 |
| `RestaurantRoutes.ListDecimal` | backend/routes/restaurantRoutes.js:65-67 | non-zero page and limit written in decimal are passed through unchanged |
| `RestaurantRoutes.PageContents` | backend/routes/restaurantRoutes.js:68-70 | for a positive page and limit, or a page up to 1 with a negative limit, page p of l holds the documents from position (p-1)*l on: abs(l) of them, or as many as remain |
| `RestaurantRoutes.EveryDocumentOnOnePage` | backend/routes/restaurantRoutes.js:68-76 | document i is entry i mod l of page i/l + 1, and that page is within `totalPages` |
| `RestaurantRoutes.PagesPastTheEndEmpty` | backend/routes/restaurantRoutes.js:68-76 | a page beyond `totalPages` is empty |
| `RestaurantRoutes.ListDefaults` | backend/routes/restaurantRoutes.js:66-76 | without parameters: page 1, the first 12 documents, `ceil(total/12)` pages |
| `RestaurantRoutes.SecondPageOfTwentyFive` | backend/routes/restaurantRoutes.js:66-76 | 25 documents with `page=2&limit=12`: 3 pages, and page 2 holds documents 13 to 24 |
| `RestaurantRoutes.NegativeLimitFirstPage` | backend/routes/restaurantRoutes.js:67-70 | `?limit=-5` is parsed as -5 and page 1 then holds the first five documents |
| `RestaurantRoutes.ById` | backend/routes/restaurantRoutes.js:85-100 | 400 exactly when `isNaN(id)`; success exactly when `Number(id)` is an integer some stored document carries, and then that document; otherwise 404 |
| `RestaurantRoutes.ByIdFindsStored` | backend/routes/restaurantRoutes.js:87-96 | under the unique index, the decimal id of a stored document finds that document |
| `RestaurantRoutes.ByIdMissing` | backend/routes/restaurantRoutes.js:91-95 | a well-formed id that no document carries gives 404 |
| `RestaurantRoutes.NonNumericInputs` | backend/routes/restaurantRoutes.js:66-91 | `?page=abc` is page 1 and `/abc` is a 400; `?page=12abc` is page 12 while `/12abc` is a 400 |
| `ImageSearchRoutes.TrimAll` | backend/routes/imageSearchRoutes.js:44 | `map(food => food.trim())` trims every piece, in order |
| `ImageSearchRoutes.Compact` | backend/routes/imageSearchRoutes.js:45 | `filter(Boolean)`: a string survives exactly when it is one of the pieces and not empty |
| `ImageSearchRoutes.CompactAppend` | backend/routes/imageSearchRoutes.js:45 | `filter` keeps order: compacting a concatenation compacts each half |
| `ImageSearchRoutes.TrimAllAppend` | backend/routes/imageSearchRoutes.js:44 | `map(trim)` keeps order: trimming a concatenation trims each half |
| `ImageSearchRoutes.TrimAllMembership` | backend/routes/imageSearchRoutes.js:44 | a string is a trimmed piece exactly when it is the trim of some piece |
| `ImageSearchRoutes.ParseFoods` | backend/routes/imageSearchRoutes.js:42-45 | every detected food is non-empty, comma-free and trimmed; there are at most (number of commas + 1) of them |
| `ImageSearchRoutes.ParseFoodsMembership` | backend/routes/imageSearchRoutes.js:42-45 | for any reply, a string is a detected food exactly when it is non-empty and the trim of some comma piece |
| `ImageSearchRoutes.ParseFoodsOnePiece` | backend/routes/imageSearchRoutes.js:42-45 | a reply without a comma gives its trimmed text as the only food, or none when that is empty |
| `ImageSearchRoutes.ParseFoodsFirstPiece` | backend/routes/imageSearchRoutes.js:42-45 | the foods keep reply order: the foods of `a,b` (with `a` comma-free) are those of `a` followed by those of `b` |
| `ImageSearchRoutes.TrimEmpty` | backend/routes/imageSearchRoutes.js:44-45 | a piece trims to empty exactly when it is all whitespace |
| `ImageSearchRoutes.CompactEmpty` | backend/routes/imageSearchRoutes.js:45 | nothing survives exactly when every piece is empty |
| `ImageSearchRoutes.SplitAllBlank` | backend/routes/imageSearchRoutes.js:42-43 | every piece is whitespace exactly when the text is only whitespace and commas |
| `ImageSearchRoutes.NoFoodsExactlyWhenBlank` | backend/routes/imageSearchRoutes.js:42-51 | no food is detected exactly when the reply is empty, whitespace or commas |
| `ImageSearchRoutes.JoinSpaced` | backend/routes/imageSearchRoutes.js:24 | a list written with ", " is the same text as its items with a leading space joined by "," |
| `ImageSearchRoutes.TrimSpaced` | backend/routes/imageSearchRoutes.js:44 | trimming a food after its separator space gives the food back |
| `ImageSearchRoutes.CompactOfFoods` | backend/routes/imageSearchRoutes.js:45 | `filter(Boolean)` keeps a list of non-empty items unchanged |
| `ImageSearchRoutes.TrimAllSpaced` | backend/routes/imageSearchRoutes.js:44 | trimming each spaced item restores the items |
| `ImageSearchRoutes.ParseFoodsReadsList` | backend/routes/imageSearchRoutes.js:23-45 | a reply in the prompt's format, "A, B, C", parses to exactly its items in order |
| `ImageSearchRoutes.ParsePizzaBurger` | backend/routes/imageSearchRoutes.js:42-45 | "Pizza, Burger" parses to ["Pizza", "Burger"] |
| `ImageSearchRoutes.ServesAny` | backend/routes/imageSearchRoutes.js:55-57 | the `$in` of case-insensitive patterns: no food matches nothing, and an empty food matches every document |
| `ImageSearchRoutes.Serving` | backend/routes/imageSearchRoutes.js:55-58 | every document returned is stored and its cuisines contain a detected food, ignoring case |
| `ImageSearchRoutes.ServingComplete` | backend/routes/imageSearchRoutes.js:55-58 | every stored document whose cuisines contain a detected food is returned; there is no cap |
| `ImageSearchRoutes.ServingAppend` | backend/routes/imageSearchRoutes.js:56-58 | the `$in` match keeps store order |
| `ImageSearchRoutes.ImageSearch` | backend/routes/imageSearchRoutes.js:14-70 | 400 exactly without a file; 500 exactly when the AI call fails (a store failure is not modelled); 404 exactly when no food is parsed; otherwise the parsed foods and exactly the stored documents serving one of them |
| `ImageSearchRoutes.ImageSearchAnswers` | backend/routes/imageSearchRoutes.js:42-60 | with a reply naming at least one food, the answer is those foods and the documents serving one of them |
| `ImageSearchRoutes.ImageSearchFindsCuisine` | backend/routes/imageSearchRoutes.js:42-60 | a stored document whose cuisines name a detected dish verbatim is in the answer |
| `RestaurantListPage.PreviousPage` | frontend/src/pages/RestaurantList.js:111 | `Math.max(p - 1, 1)`: never below 1, one back from any page above 1, and 1 from page 1 |
| `RestaurantListPage.NextPage` | frontend/src/pages/RestaurantList.js:113 | `Math.min(p + 1, totalPages)`: never above `totalPages`, one on from any earlier page, and `totalPages` from the last page |
| `RestaurantListPage.NextThenPrevious` | frontend/src/pages/RestaurantList.js:111-113 | Previous undoes Next on any page before the last |
| `RestaurantListPage.PageCount` | frontend/src/pages/RestaurantList.js:33 | `totalPages \|\| 1`: the response's count when it is present and not 0, otherwise 1 |
| `RestaurantListPage.RestaurantList.Valid` | frontend/src/pages/RestaurantList.js:7-12 | the state invariant: page and page count at least 1, page 1 while searching; in such a state Previous and Next lead to pages between 1 and `totalPages` |
| `RestaurantListPage.RestaurantList.PaginationShown` | frontend/src/pages/RestaurantList.js:109 | `!isSearching && totalPages > 1`: never shown for search results, and when shown in a valid state at least one button changes the page |
| `RestaurantListPage.RestaurantList.constructor` | frontend/src/pages/RestaurantList.js:7-12 | the initial state: no restaurants, page 1 of 1, empty query, loading, not searching |
| `RestaurantListPage.RestaurantList.Fetch` | frontend/src/pages/RestaurantList.js:15-29 | sets loading; a non-empty query sets searching and requests the search, an empty one clears it and requests the list page |
| `RestaurantListPage.RestaurantList.Mount` | frontend/src/pages/RestaurantList.js:43-48 | the first effect run requests the current list page |
| `RestaurantListPage.RestaurantList.Receive` | frontend/src/pages/RestaurantList.js:30-35 | the response's restaurants are shown, `totalPages` is its count or 1, and loading ends |
| `RestaurantListPage.RestaurantList.Fail` | frontend/src/pages/RestaurantList.js:36-39 | a failed request only ends loading |
| `RestaurantListPage.RestaurantList.EditQuery` | frontend/src/pages/RestaurantList.js:74 | typing only changes the query |
| `RestaurantListPage.RestaurantList.SetPage` | frontend/src/pages/RestaurantList.js:43-48 | a changed page is fetched as a list page exactly when not searching |
| `RestaurantListPage.RestaurantList.Previous` | frontend/src/pages/RestaurantList.js:109-111 | one page back, never below 1, and that page is requested |
| `RestaurantListPage.RestaurantList.Next` | frontend/src/pages/RestaurantList.js:109-113 | one page on, never above `totalPages`, and that page is requested |
| `RestaurantListPage.RestaurantList.HandleSearch` | frontend/src/pages/RestaurantList.js:50-54 | page 1 and a fetch with the current query; searching exactly when the query is non-empty, which hides the pagination |
| `RestaurantListPage.RestaurantList.ClearSearch` | frontend/src/pages/RestaurantList.js:57-62 | empties the query, stops searching and requests list page 1 without touching `page` |
| `RestaurantListPage.ListRequestServed` | frontend/src/pages/RestaurantList.js:26 | the list request for page p is answered with page p of 12 and a non-negative page count |
| `RestaurantListPage.NextPageNonEmpty` | frontend/src/pages/RestaurantList.js:113 | Next from any page before the last reaches a page holding at least one document |
| `JsText.Trim` | backend/routes/imageSearchRoutes.js:44 | the result starts and ends with a non-whitespace character, or is empty |
| `JsText.TrimIsMiddle` | backend/routes/imageSearchRoutes.js:44 | `trim` returns the middle of its input, right after the leading whitespace |
| `JsText.TrimCutsWhitespace` | backend/routes/imageSearchRoutes.js:44 | everything `trim` removes is whitespace |
| `JsText.Split` | backend/routes/imageSearchRoutes.js:43 | `split(",")` gives (commas + 1) pieces, none containing a comma |
| `JsText.JoinSplit` | backend/routes/imageSearchRoutes.js:43 | joining the pieces with the separator gives the text back |
| `JsText.SplitJoin` | backend/routes/imageSearchRoutes.js:43 | splitting separator-free pieces joined with the separator gives the pieces back |
| `JsText.ContainsIffOccurs` | backend/routes/restaurantRoutes.js:14-16 | the substring test holds exactly when the needle occurs at some position |
| `JsText.ExactOccurrenceMatches` | backend/routes/imageSearchRoutes.js:55 | a verbatim occurrence also matches ignoring case |
| `JsText.ParseInt` | backend/routes/restaurantRoutes.js:66-67 | `parseInt`: `NaN` exactly when no digit of the radix follows the leading whitespace, one optional sign and, with radix detection, a `0x` prefix; blank text is `NaN`, and a negative result needs a leading minus sign |
| `JsText.ToNumber` | backend/routes/restaurantRoutes.js:87 | `Number()` on a string: blank text is 0, and text whose first non-space character is not a digit, a sign, a point or the `I` of `Infinity` is `NaN` |
| `JsText.IsNaN` | backend/routes/restaurantRoutes.js:87 | `isNaN(id)`: blank text is not `NaN`, so it passes the check; text that cannot begin a number is `NaN` |
| `JsText.ToNumberAlphabet` | backend/routes/restaurantRoutes.js:87 | a finite `Number()` value of unprefixed text comes from digits, signs, a point and exponent marks only: text holding any other character has no such value |
| `JsText.NotANumberText` | backend/routes/restaurantRoutes.js:66-67 | `abc` is `NaN` for both `parseInt` and `Number()` |
| `JsText.NumberThenLetters` | backend/routes/restaurantRoutes.js:66-67 | `parseInt("12abc")` is 12, while `Number("12abc")` is `NaN` |
| `JsText.ParseIntDecimal` | backend/routes/restaurantRoutes.js:66-67 | `parseInt` reads back any integer written in decimal, with or without radix detection |
| `JsText.ToNumberDecimal` | backend/routes/restaurantRoutes.js:87-91 | `Number()` reads back any integer written in decimal |

## Left out

- Regular expressions: `$regex` and `new RegExp` are modelled as a literal substring test that ignores case. Metacharacters in the query or in a detected food are not modelled, and neither is the 500 an invalid pattern causes.
- Case folding covers ASCII letters only.
- Floating point: in `/nearby`, `parseFloat` is a parameter returning an exact real or `NaN`; the loader's vendor records hold those values already parsed. `Number()` values are exact reals. Neither rounding nor integers beyond 2^53 are modelled.
- `parseFloat` results that are infinite (the text "Infinity") are not modelled: the `Num` type holds `NaN` or a finite value, since a stored coordinate or rating is a finite number.
- `$nearSphere` geometry: the geodesic distance is a parameter. The store's validation rules assumed in `RestaurantRoutes.Validate` (finite point within bounds, non-negative radius) are not taken from this repository.
- `RestaurantRoutes.ById`: a whitespace-only id has `Number()` value 0 and is looked up as id 0; the driver's own casting of such a string is not modelled.
- `RestaurantRoutes.ById`: the 500 path (lines 97-98) needs a database failure, which the model of the collection as a sequence cannot produce.
- `RestaurantRoutes.Search`: the 500 path (lines 23-24) needs a database failure, which the model cannot produce.
- `ImageSearchRoutes.ImageSearch`: a failing `Restaurant.find` (lines 56-58) also reaches the 500 of lines 61-68; the model of the collection as a sequence cannot fail, so its 500 is stated only for a failing AI call.
- `RestaurantRoutes.ListPage`: the only store failure modelled is the refused negative skip; other database errors are not modelled.
- Database I/O in the loader is left out: connection, `deleteMany`, `insertMany`, closing, `.env` loading. The model returns the sequence handed to `insertMany`.
- File reading is left out: `readFileSync` and `JSON.parse` become the parsed contents given as `VendorFile` values.
- A vendor record without a `restaurant` or `R` object, or an event without `event`, throws in the loader. This is not modelled: the vendor datatypes always carry these objects.
- The loader assumes numeric vendor fields (`average_cost_for_two`, `price_range`) are numbers; strings there are not modelled.
- Multer, the base64 encoding and the Gemini client are left out. The AI call is a parameter from model name, prompt and upload to a reply or a failure.
- Logging (`console.log`, `console.error`) is left out.
- React asynchrony is left out. Requests are returned as values and responses applied through `Receive`/`Fail`, so out-of-order responses and batched state updates are not modelled. `encodeURIComponent` is not modelled.
- The rendering in `RestaurantList.js` is left out, apart from the condition for showing pagination (`PaginationShown`).
- The other pages, the server wiring, the country routes and their model are not part of this model.
