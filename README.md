# NatureApp front end, modelled in Dafny

NatureApp is an Angular single-page application for nature tourism in
Mexico. It lists places, shows one place's detail, lists every trail, draws
places on a Mapbox map and reads its configuration at start-up. This project
models the logic of that front end and proves what it promises. HTTP
responses, Mapbox events and the fetched configuration file are plain
inputs to the model.

The modules follow the program's files:

- `Models` (`models.dfy`): the records of `place.model.ts`.
- `NatureApi` (`nature_api.dfy`): the API client `NatureApiService`. It
  covers
  - the URLs of `GET /places` (built with a `URLSearchParams` object),
    `GET /places/{id}` and `GET /places/{id}/summary`;
  - the flattening of every place's trails, each tagged with its place's
    name;
  - the distinct-and-sorted category and difficulty lists;
  - the case-insensitive search.
- `FormEncoding` (`form_encoding.dfy`): `URLSearchParams.toString`. This
  is the application/x-www-form-urlencoded serializer of section 5.2 of
  the WHATWG URL Standard: UTF-8 bytes, `+` for a space, `%XX` for the
  other reserved bytes. Its partner is the parser of section 5.1, and the
  module proves that parsing gives back every name and value in order.
- `StringOrder` (`string_order.dfy`): the default order of
  `Array.prototype.sort` on strings, which compares UTF-16 code units, and
  the reduction `[...new Set(xs)].sort()`.
- `Text` (`text.dfy`): `toLowerCase`, the `\s` class, `includes`, `${n}`
  for an integer, and the unary `+` on a route parameter.
- `DisplayKeys` (`display_keys.dfy`): `getCategoryClass`, which the
  detail, places and home views each contain, and `getDifficultyClass`.
- `PlaceDetailView`, `TrailsView`, `HomeView`, `PlacesView`
  (`place_detail.dfy`, `trails_view.dfy`, `home_view.dfy`,
  `places_view.dfy`): one class per view component. Its fields are the
  component's fields. Its methods are the load methods and their success
  and error callbacks, with the response as a parameter. Each class also
  records the requests it issued.
- `MapWidget` (`map_widget.dfy`): `MapComponent` as a class holding the
  markers on the map and the `fitBounds`/`flyTo` calls. It covers the icon
  table, marker eligibility, the fitted bounds and `updatePlaces`.
- `Config` (`config.dfy`): `ConfigService`. It covers the environment
  lookup with fallback, the initial configuration and the production
  flag, and the right-biased merge of `loadConfig`.

The code and the specification disagree in four places:

- **Icons for unknown categories.** The specification says unknown
  categories always fall back to a default icon. The code does not do
  this for the names of inherited `Object.prototype` members. The model
  states the code as written in `MapWidget.MarkerIconAsWritten` and logs
  the discrepancy under "Findings". The markers on the map are then built
  with the corrected lookup `MapWidget.MarkerIcon`, so for those twelve
  names the marker model differs from the code (see "Left out").
- **Sort order.** The model follows the code here. The specification calls the category order
  "lexicographic". The code uses JavaScript's default sort, which compares
  UTF-16 code units. `StringOrder` models that order exactly, so a
  character above U+FFFF sorts below U+E000–U+FFFF.
- **Failed loads.** The specification says a failed load shows an error
  message and clears the data. Only the place detail view clears its data
  (`place = null`, place-detail.component.ts:199-203). The places, trails
  and home views only log the error, clear `loading` and keep the data
  they had (places.component.ts:166-169 and 180-183,
  trails.component.ts:121-124, home.component.ts:111-114). None of the
  four shows a separate error message: the detail view shows its "not
  found" panel, and the others show whatever their kept data gives. The
  model follows the code (`PlacesView.PlacesComponent.OnPlacesError`,
  `TrailsView.TrailsComponent.OnTrailsError`,
  `HomeView.HomeComponent.OnPlacesError`,
  `PlaceDetailView.PlaceDetailComponent.OnDetailError`).
- **When the map is fitted.** The specification fits the viewport to the
  markers when any markers are present. The code fits whenever the list of
  places is non-empty, even when no place has coordinates and so no marker
  exists (map.component.ts:95-97). The model follows the code
  (`MapWidget.MapComponent.AddPlaceMarkers` records a fit exactly when
  `places` is non-empty, and `MapWidget.BoxOfSpec` shows the bounds are
  then `None` when there is no marker).

## Model

| member | source | states |
|---|---|---|
| NatureApi.SearchParams.Append | src/app/core/services/nature-api.service.ts:22-23 | `params.append` adds the pair at the end and keeps the earlier pairs |
| NatureApi.FilterParams | src/app/core/services/nature-api.service.ts:20-23 | the params object holds the category pair, then the difficulty pair; each is there only when its value is a non-empty string |
| NatureApi.GetPlaces | src/app/core/services/nature-api.service.ts:18-30 | the URL built step by step (`let url`, append, `if (params.toString())`) is `PlacesUrl(baseUrl, category, difficulty)` |
| NatureApi.FilterPairsSpec | src/app/core/services/nature-api.service.ts:22-23 | one pair per truthy filter; the category comes first and the difficulty last |
| NatureApi.PlacesQueryEmpty | src/app/core/services/nature-api.service.ts:25 | the query text is empty exactly when neither filter is a non-empty string |
| NatureApi.WithQueryShape | src/app/core/services/nature-api.service.ts:25-27 | the URL is unchanged exactly when the query is empty; otherwise it is the URL, then `?`, then the query |
| NatureApi.PlacesUrlShape | src/app/core/services/nature-api.service.ts:19-27 | with no filter, or only empty ones, the URL is exactly `baseUrl/places` with no `?`; otherwise it is `baseUrl/places?` plus the query |
| NatureApi.PlacesQueryParses | src/app/core/services/nature-api.service.ts:20-26 | parsing the query gives one pair per appended filter, in order, and each decodes to that filter's name and value |
| NatureApi.DetailUrlId | src/app/core/services/nature-api.service.ts:36-38 | the detail URL starts with `baseUrl/places/` and the rest parses back to the id |
| NatureApi.SummaryUrlId | src/app/core/services/nature-api.service.ts:111-113 | the summary URL is `baseUrl/places/`, then the id's decimal text (which parses back to the id), then `/summary` |
| NatureApi.DetailUrlInjective | src/app/core/services/nature-api.service.ts:36-38 | different ids give different detail URLs |
| NatureApi.TagTrails | src/app/core/services/nature-api.service.ts:52-55 | one tagged trail per trail of the detail |
| NatureApi.AllTrailsLength | src/app/core/services/nature-api.service.ts:62-65 | the flattened list holds as many trails as all the places together |
| NatureApi.AllTrailsAppend | src/app/core/services/nature-api.service.ts:64 | flattening distributes over concatenation of place lists, and so do the counts |
| NatureApi.AllTrailsAt | src/app/core/services/nature-api.service.ts:48-64 | trail `j` of place `i` is at position `TrailCount(details[..i]) + j`, unchanged, with `placeName` equal to the name of place `i` |
| NatureApi.AllTrailsFrom | src/app/core/services/nature-api.service.ts:48-64 | every entry of the flattened list is a trail of some place, tagged with that place's name |
| NatureApi.CategoriesSpec | src/app/core/services/nature-api.service.ts:72-79 | the categories are strictly sorted, so there are no duplicates; they are exactly the categories of the places; the result is empty iff there are no places; there are never more categories than places |
| NatureApi.DifficultyFound | src/app/core/services/nature-api.service.ts:84-91 | every listed difficulty belongs to some trail of some place |
| NatureApi.DifficultyListed | src/app/core/services/nature-api.service.ts:84-91 | every difficulty of any trail of any place is listed |
| NatureApi.DifficultiesSpec | src/app/core/services/nature-api.service.ts:84-91 | the difficulties are strictly sorted, and a value is listed iff some trail has it |
| NatureApi.SearchCount | src/app/core/services/nature-api.service.ts:98-103 | each matching place keeps its multiplicity in the result and a non-matching place has none |
| NatureApi.SearchMembers | src/app/core/services/nature-api.service.ts:98-103 | a place is in the result iff it is in the input and its lowered name or category contains the lowered term |
| NatureApi.SearchSubsequence | src/app/core/services/nature-api.service.ts:98-103 | the result is a subsequence of the input, in the input's order |
| NatureApi.SearchEmptyTerm | src/app/core/services/nature-api.service.ts:100-101 | an empty term keeps every place |
| NatureApi.SearchLoweredTerm | src/app/core/services/nature-api.service.ts:100-101 | lowering the term first changes nothing, so the search ignores case in the term |
| StringOrder.LessIrreflexive | src/app/core/services/nature-api.service.ts:76 | no string sorts before itself |
| StringOrder.LessTransitive | src/app/core/services/nature-api.service.ts:76 | the code-unit order is transitive |
| StringOrder.LessTotal | src/app/core/services/nature-api.service.ts:76 | any two different strings are ordered one way or the other |
| StringOrder.LessAsymmetric | src/app/core/services/nature-api.service.ts:76 | the order is asymmetric |
| StringOrder.StrictlySortedDistinct | src/app/core/services/nature-api.service.ts:76 | a strictly sorted list has no duplicates |
| StringOrder.InsertElements | src/app/core/services/nature-api.service.ts:76 | insertion adds exactly the inserted value to the elements |
| StringOrder.InsertSorted | src/app/core/services/nature-api.service.ts:76 | insertion into a strictly sorted list keeps it strictly sorted |
| StringOrder.DistinctSorted | src/app/core/services/nature-api.service.ts:76 | `[...new Set(xs)].sort()` is strictly sorted and has exactly the elements of `xs` |
| StringOrder.SortedUnique | src/app/core/services/nature-api.service.ts:76 | there is only one strictly sorted list of a given set, so any correct sort of the distinct values gives `DistinctSorted` |
| StringOrder.DistinctSortedIdempotent | src/app/core/services/nature-api.service.ts:76 | applying the reduction to its own result changes nothing |
| StringOrder.DistinctSortedSize | src/app/core/services/nature-api.service.ts:76 | the length of the result is the number of distinct values |
| StringOrder.ElementsBound | src/app/core/services/nature-api.service.ts:76 | a list has no more distinct values than entries |
| FormEncoding.DecodeUtf8String | src/app/core/services/nature-api.service.ts:22-23 | UTF-8 is lossless: decoding the encoding of a string gives the string |
| FormEncoding.PercentDecodeSerialize | src/app/core/services/nature-api.service.ts:22-23 | percent-decoding undoes the byte serializer, byte for byte |
| FormEncoding.SerializeChars | src/app/core/services/nature-api.service.ts:22-23 | a serialized name or value contains none of `&`, `=`, `#` or a space |
| FormEncoding.SerializeAscii | src/app/core/services/nature-api.service.ts:22-23 | a value made only of unreserved ASCII characters is serialized as itself |
| FormEncoding.SplitJoin | src/app/core/services/nature-api.service.ts:25-26 | splitting on `&` the join of parts that do not contain `&` gives those parts back |
| FormEncoding.ParsePairPart | src/app/core/services/nature-api.service.ts:22-23 | one serialized `name=value` parses back to the UTF-8 bytes of its name and value |
| FormEncoding.ParseSerialize | src/app/core/services/nature-api.service.ts:20-26 | parsing the serialization of a non-empty list of pairs gives the UTF-8 bytes of every pair, in order |
| FormEncoding.ParseSerializeDecodes | src/app/core/services/nature-api.service.ts:20-26 | parsing then decoding the serialization gives back every name and value, in order |
| FormEncoding.SerializePairsEmpty | src/app/core/services/nature-api.service.ts:25 | the serialization is empty iff there are no pairs |
| FormEncoding.SerializeTwoPairs | src/app/core/services/nature-api.service.ts:22-26 | two pairs are written as the first, then `&`, then the second |
| Text.LowerCharIdempotent | src/app/core/services/nature-api.service.ts:100 | a lowered character is not upper case, and lowering it again changes nothing |
| Text.LowerIdempotent | src/app/core/services/nature-api.service.ts:100 | `toLowerCase` is idempotent |
| Text.LowerAppend | src/app/core/services/nature-api.service.ts:100 | lowering distributes over concatenation |
| Text.ContainsAt | src/app/core/services/nature-api.service.ts:100-101 | `hay.includes(needle)` holds iff `needle` is the slice of `hay` at some offset |
| Text.ContainsEmpty | src/app/core/services/nature-api.service.ts:100-101 | every string includes the empty string |
| Text.NatToStringValue | src/app/core/services/nature-api.service.ts:37 | the decimal digits of `n` have the value `n` |
| Text.IntToStringRoundTrip | src/app/core/services/nature-api.service.ts:37 | the unary `+` applied to `${n}` gives `n` back |
| DisplayKeys.StripAccent | src/app/features/places/place-detail/place-detail.component.ts:212-215 | a replaced character is never one of á, é, í, ó, ú; every other character stays as it is; white space and upper case are preserved |
| DisplayKeys.StripAccentTable | src/app/features/places/place-detail/place-detail.component.ts:213-215 | á, é, í, ó and ú become a, e, i, o and u |
| DisplayKeys.CollapseFromLength | src/app/features/places/place-detail/place-detail.component.ts:212 | the `\s+` replacement never lengthens the text |
| DisplayKeys.CollapseFromAppend | src/app/features/places/place-detail/place-detail.component.ts:212 | the `\s+` replacement on `a + b` is its result on `a`, followed by its result on `b`, continuing any run of white space that `a` leaves open |
| DisplayKeys.CollapseFromRun | src/app/features/places/place-detail/place-detail.component.ts:212 | a run of white space becomes one `-` |
| DisplayKeys.CollapseNoSpace | src/app/features/places/place-detail/place-detail.component.ts:212 | the replacement leaves no white space |
| DisplayKeys.CollapseChars | src/app/features/places/place-detail/place-detail.component.ts:212 | every character of the result is `-` or a character of the input |
| DisplayKeys.CollapseIdentity | src/app/features/places/place-detail/place-detail.component.ts:212 | text without white space is left as it is |
| DisplayKeys.CollapseRunLaw | src/app/features/places/place-detail/place-detail.component.ts:212 | each maximal white-space run becomes exactly one `-`, and the text on either side is replaced independently |
| DisplayKeys.CategoryClassSpec | src/app/features/places/place-detail/place-detail.component.ts:211-216 | the class has no white space, none of á/é/í/ó/ú and no upper-case letter, and it is never longer than the category (the same helper is at places.component.ts:196-201 and home.component.ts:130-135) |
| DisplayKeys.CategoryClassIdempotent | src/app/features/places/place-detail/place-detail.component.ts:211-216 | applying `getCategoryClass` to its own output changes nothing |
| DisplayKeys.CategoryClassRun | src/app/features/places/place-detail/place-detail.component.ts:211-216 | a maximal white-space run in a category is one `-` in its class, whose two sides are the classes of the two sides |
| DisplayKeys.DifficultyClassSpec | src/app/features/places/place-detail/place-detail.component.ts:218-220 | the class is `difficulty-` followed by the lowered difficulty, so two difficulties share a class iff they are equal once lowered (the same helper is at trails.component.ts:136-138) |
| DisplayKeys.DifficultyClassLowered | src/app/features/places/place-detail/place-detail.component.ts:218-220 | a difficulty and its lowered form get the same class |
| PlaceDetailView.GetStars | src/app/features/places/place-detail/place-detail.component.ts:231-237 | the loop over `i = 1..5` yields `StarsOf(rating)`: position `k` is the filled star iff `k + 1 <= rating` |
| PlaceDetailView.StarsSpec | src/app/features/places/place-detail/place-detail.component.ts:233-236 | always five stars; the filled stars form a prefix whose length is the whole part of the rating, clamped to 0..5; the rest are empty stars |
| PlaceDetailView.StarsByCount | src/app/features/places/place-detail/place-detail.component.ts:234 | ratings with the same clamped whole part show the same stars |
| PlaceDetailView.RouteId | src/app/features/places/place-detail/place-detail.component.ts:185-186 | a missing parameter loads nothing, and an id that is loaded is never 0 |
| PlaceDetailView.RouteIdRoundTrip | src/app/features/places/place-detail/place-detail.component.ts:185-187 | the decimal text of any non-zero id loads that id |
| PlaceDetailView.RouteIdRejects | src/app/features/places/place-detail/place-detail.component.ts:185-188 | a missing, empty or `"0"` parameter loads nothing |
| PlaceDetailView.PlaceDetailComponent.constructor | src/app/features/places/place-detail/place-detail.component.ts:180-181 | no place, not loading, no request |
| PlaceDetailView.PlaceDetailComponent.View | src/app/features/places/place-detail/place-detail.component.ts:162-164 | exactly one panel: the spinner while loading, the detail (line 13) when a place is held, otherwise "not found" |
| PlaceDetailView.PlaceDetailComponent.OnRouteParams | src/app/features/places/place-detail/place-detail.component.ts:183-190 | a usable id starts a load of that id; anything else changes nothing |
| PlaceDetailView.PlaceDetailComponent.LoadPlaceDetail | src/app/features/places/place-detail/place-detail.component.ts:192-194 | sets `loading` and requests the id, keeping `place` |
| PlaceDetailView.PlaceDetailComponent.OnDetailLoaded | src/app/features/places/place-detail/place-detail.component.ts:195-198 | `place` becomes the response, `loading` false, and the detail panel shows it |
| PlaceDetailView.PlaceDetailComponent.OnDetailError | src/app/features/places/place-detail/place-detail.component.ts:199-203 | `place` becomes null, `loading` false, and "not found" shows |
| TrailsView.DifficultyCountMultiset | src/app/features/trails/trails.component.ts:144-146 | the count is the multiplicity of the exact (case-sensitive) difficulty among the trails' difficulties |
| TrailsView.DifficultyCountZero | src/app/features/trails/trails.component.ts:145 | the count is 0 iff no trail has exactly that difficulty |
| TrailsView.DifficultyCountBound | src/app/features/trails/trails.component.ts:145 | the count is at most the number of trails, and 0 when there are none |
| TrailsView.DifficultyCountDisjoint | src/app/features/trails/trails.component.ts:145 | the counts of two different difficulties add up to at most the number of trails |
| TrailsView.EasyAndModerateBound | src/app/features/trails/trails.component.ts:22-34 | the "Fáciles" plus "Moderados" figures never exceed the total trail count |
| TrailsView.TrailsComponent.GetDifficultyCount | src/app/features/trails/trails.component.ts:144-146 | the component's count over `allTrails` is bounded by its length and equals the multiset count |
| TrailsView.TrailsComponent.constructor | src/app/features/trails/trails.component.ts:107-108 | no trails, not loading |
| TrailsView.TrailsComponent.View | src/app/features/trails/trails.component.ts:19-98 | the spinner while loading; once loaded, the trails if there are any, otherwise the empty state |
| TrailsView.TrailsComponent.LoadAllTrails | src/app/features/trails/trails.component.ts:114-116 | `loading` is set before any response and one request is issued; the trails are kept |
| TrailsView.TrailsComponent.OnTrailsLoaded | src/app/features/trails/trails.component.ts:117-120 | the response replaces `allTrails`; `loading` becomes false |
| TrailsView.TrailsComponent.OnTrailsError | src/app/features/trails/trails.component.ts:121-124 | `allTrails` is unchanged; `loading` becomes false |
| HomeView.Featured | src/app/features/home/home.component.ts:100 | `slice(0, 3)` is a prefix of the places of length min(3, n) |
| HomeView.DistinctCategoryCountSpec | src/app/features/home/home.component.ts:103-104 | the size of the category set is the length of the category list, at most the number of places, and 0 iff there are no places |
| HomeView.DistinctCategoryCountOne | src/app/features/home/home.component.ts:103-104 | places that all share one category count as one |
| HomeView.HomeComponent.constructor | src/app/features/home/home.component.ts:83-87 | the initial zero statistics are those of an empty list; not loading |
| HomeView.HomeComponent.LoadHomeData | src/app/features/home/home.component.ts:93-97 | sets `loading` and requests the places, keeping the statistics |
| HomeView.HomeComponent.OnPlacesLoaded | src/app/features/home/home.component.ts:98-110 | the statistics become those of the response: count, first three, distinct categories, 2 × count; `loading` false |
| HomeView.HomeComponent.OnPlacesError | src/app/features/home/home.component.ts:111-114 | every statistic and the featured places are unchanged; `loading` false |
| HomeView.HomeComponent.DescribedStats | src/app/features/home/home.component.ts:99-107 | statistics of one list agree: categories ≤ places (0 iff no places), trails = 2 × places, and the featured places are the first ≤ 3 places |
| PlacesView.CategoryArgument | src/app/features/places/places.component.ts:175 | `selectedCategory \|\| undefined` is no filter exactly for the empty selection, and otherwise the selection |
| PlacesView.CategoryArgumentUrl | src/app/features/places/places.component.ts:175 | the request URL is the same with or without the `\|\| undefined`; the empty selection requests `baseUrl/places` |
| PlacesView.NounSpec | src/app/features/places/places.component.ts:51 | the noun is "lugares" iff the count is not 1, and "lugar" iff it is 1 |
| PlacesView.ResultLabelSpec | src/app/features/places/places.component.ts:51 | the label is "Mostrando ", then the count's decimal text, and it ends in "lugares" iff the count is not 1 |
| PlacesView.TruncateSpec | src/app/features/places/places.component.ts:69 | a description of at most 120 characters is shown whole; a longer one as its first 120 characters followed by "..." |
| PlacesView.DescriptionPreview | src/app/features/places/places.component.ts:68-69 | a preview is shown iff the description is present and non-empty, and it is the truncated description |
| PlacesView.PlacesComponent.constructor | src/app/features/places/places.component.ts:150-153 | no places, empty selection, not loading, list view |
| PlacesView.PlacesComponent.View | src/app/features/places/places.component.ts:56-141 | the spinner while loading; once loaded, the empty state for no places, otherwise the list or the map by view mode |
| PlacesView.PlacesComponent.LoadPlaces | src/app/features/places/places.component.ts:159-161 | sets `loading` and requests every place; the list is kept |
| PlacesView.PlacesComponent.ApplyFilters | src/app/features/places/places.component.ts:173-175 | sets `loading` and requests the selected category, or every place for the empty selection |
| PlacesView.PlacesComponent.SelectCategory | src/app/features/places/places.component.ts:36 | the drop-down stores the choice and applies it |
| PlacesView.PlacesComponent.ClearFilters | src/app/features/places/places.component.ts:187-190 | the selection becomes `''` and every place is requested |
| PlacesView.PlacesComponent.OnPlacesLoaded | src/app/features/places/places.component.ts:162-165 | the response replaces `places` (for both load paths, also 176-179); `loading` false |
| PlacesView.PlacesComponent.OnPlacesError | src/app/features/places/places.component.ts:166-169 | `places` is unchanged (for both load paths, also 180-183); `loading` false |
| PlacesView.PlacesComponent.SetViewMode | src/app/features/places/places.component.ts:21-32 | the toggles change only the view mode |
| MapWidget.MarkerIconAsWritten | src/app/shared/components/map/map.component.ts:114 | the object-literal lookup finds an inherited member exactly for an `Object.prototype` name that is not in the table |
| MapWidget.MarkerIconToString | src/app/shared/components/map/map.component.ts:114 | for the category "toString" the lookup yields the inherited function, not the pin |
| MapWidget.MarkerIcon | src/app/shared/components/map/map.component.ts:100-115 | the table's own entry for a known category, the pin U+1F4CD for any other string |
| MapWidget.MarkerIconSpec | src/app/shared/components/map/map.component.ts:100-115 | the icon is non-empty and is a listed icon or the pin; the as-written lookup agrees on every name that is not inherited |
| MapWidget.MarkerIconTable | src/app/shared/components/map/map.component.ts:101-112 | each of the ten categories gets its listed icon |
| MapWidget.MarkersForSnoc | src/app/shared/components/map/map.component.ts:64-65 | scanning one more place adds its marker, if it is eligible, at the end |
| MapWidget.MarkersForBound | src/app/shared/components/map/map.component.ts:64-65 | at most one marker per place |
| MapWidget.MarkersForMembers | src/app/shared/components/map/map.component.ts:64-90 | a marker is exactly the marker of an eligible place (both coordinates non-zero), at `[lng, lat]` with the corrected icon `MarkerIcon` of its category |
| MapWidget.MarkersForNone | src/app/shared/components/map/map.component.ts:64-65 | no eligible place, no marker |
| MapWidget.BoxOfSnoc | src/app/shared/components/map/map.component.ts:122 | extending by one more marker is `bounds.extend` of its position |
| MapWidget.BoxOfSpec | src/app/shared/components/map/map.component.ts:117-124 | the bounds exist iff some marker exists, hold every marker, and each edge passes through a marker |
| MapWidget.MapComponent.constructor | src/app/shared/components/map/map.component.ts:23 | no places, no map, no markers |
| MapWidget.MapComponent.InitializeMap | src/app/shared/components/map/map.component.ts:46-52 | the map exists but has not loaded |
| MapWidget.MapComponent.OnMapLoad | src/app/shared/components/map/map.component.ts:54-56 | on load the markers of the current places are added |
| MapWidget.MapComponent.AddPlaceMarkers | src/app/shared/components/map/map.component.ts:63-98 | the loop adds exactly `MarkersFor(places)`, in order; the map is fitted iff `places` is non-empty, even when no place is eligible |
| MapWidget.MapComponent.FitMapToMarkers | src/app/shared/components/map/map.component.ts:117-130 | the loop extends the bounds with exactly the places that got markers, and the map is fitted to that box |
| MapWidget.MapComponent.ClearMarkers | src/app/shared/components/map/map.component.ts:154-158 | the loop removes every marker and nothing else changes |
| MapWidget.MapComponent.UpdatePlaces | src/app/shared/components/map/map.component.ts:144-152 | the new list is always stored; on a loaded map the markers become exactly those of the new list, with none left from before; otherwise the markers are untouched |
| MapWidget.MapComponent.CenterOnPlace | src/app/shared/components/map/map.component.ts:133-141 | flies to `[lng, lat]` iff both coordinates are non-zero and the map exists; otherwise nothing happens |
| MapWidget.UpdatedMarkers | src/app/shared/components/map/map.component.ts:144-151 | after an update there are at most as many markers as places, every eligible place has its marker, and the fitted box holds them all |
| Config.Property | src/app/core/services/config.service.ts:16 | `env[key]` is found exactly when `env` is an object with `key` as an own property, and it is that property's value |
| Config.GetEnvVariableSpec | src/app/core/services/config.service.ts:13-21 | with no usable `window.env`, the default; when `env` has a truthy own property `key`, that value; in every other case (missing, or falsy such as `""`), the default |
| Config.InitialConfigDefaults | src/app/core/services/config.service.ts:7-11 | the three keys are present; with no env, `apiUrl` is `http://localhost:5000/api`, `mapboxToken` is empty and `production` is false |
| Config.ProductionFlag | src/app/core/services/config.service.ts:10 | `production` is a boolean that is true iff the resolved `NODE_ENV` is strictly the string `production` |
| Config.IndexedAt | src/app/core/services/config.service.ts:41 | spreading an array copies element `i` under the decimal text of `i` |
| Config.IndexedOnly | src/app/core/services/config.service.ts:41 | spreading an array copies nothing but index properties |
| Config.OwnPropertiesSpec | src/app/core/services/config.service.ts:41 | spreading an object copies its fields; null, booleans and numbers copy nothing; arrays and strings copy their indices |
| Config.IndexedLacksKey | src/app/core/services/config.service.ts:41 | spreading an array or string never creates a key that starts with a letter, such as `apiUrl` |
| Config.LoadedEntry | src/app/core/services/config.service.ts:41 | after the merge, a configuration key holds the body's own field of that name when the body is an object that has one, and its old value for any other body |
| Config.Merge | src/app/core/services/config.service.ts:41 | `{...base, ...loaded}` has the keys of both; a loaded key overrides; every other key is kept |
| Config.MergeKeepsKeys | src/app/core/services/config.service.ts:41 | merging keeps the three configuration keys, and merging in nothing changes nothing |
| Config.ConfigService.constructor | src/app/core/services/config.service.ts:7-11 | the configuration starts as the env-resolved defaults, so `getApiUrl()` and `getMapboxToken()` are the `window.env` values with their fallbacks and `isProduction()` is `NODE_ENV === 'production'` |
| Config.ConfigService.ApiUrl | src/app/core/services/config.service.ts:23-25 | on a valid configuration the getter returns the stored `apiUrl` entry; the constructor and `LoadConfig` rows say what that entry is |
| Config.ConfigService.MapboxToken | src/app/core/services/config.service.ts:27-29 | on a valid configuration the getter returns the stored `mapboxToken` entry; the constructor and `LoadConfig` rows say what that entry is |
| Config.ConfigService.IsProduction | src/app/core/services/config.service.ts:31-33 | on a valid configuration the getter returns the stored `production` entry; the constructor and `LoadConfig` rows say what that entry is |
| Config.ConfigService.LoadConfig | src/app/core/services/config.service.ts:36-46 | an ok response whose body parses is merged in, right-biased; a failed fetch, a non-ok status or an unparsable body leaves the configuration unchanged; after an object body is merged, each getter returns the body's field of that name if it has one and the old value otherwise |

## Left out

- HTTP and asynchrony. Requests are recorded in a `requests` field, and responses are parameters of the success and error methods. The model leaves out Observable timing, overlapping requests (a late response can overwrite a newer one), unsubscription, `switchMap` and `forkJoin`.
- `forkJoin([])` completes without emitting. With no places, `getAllTrails` emits nothing and the trails view keeps loading. The model states only the flattening function, which gives `[]` for no places.
- Mapbox and the DOM: map construction, controls, popups and their HTML, marker element styling, `fitBounds` padding and `maxZoom`, and the `flyTo` animation. The map is its created and loaded flags plus the lists of `fitBounds` and `flyTo` calls.
- The behaviour of Mapbox when `fitBounds` gets bounds that were never extended. That happens with a non-empty list in which no place is eligible, and the model records it as `None`.
- `map.loaded()` is modelled as a flag that becomes true on the `load` event and stays true. Mapbox can report false again while tiles load.
- `clearMarkers` removes every `.custom-marker` element in the whole document, including the markers of any other map widget on the page. The model removes the markers of this widget only.
- Floating point. Coordinates, ratings and distances are `real`, with no NaN and no rounding. `getTotalDistance`, `formatDistance`, `formatCoordinates` and `toFixed` are not modelled.
- `formatDate` and `toLocaleDateString('es-MX')`, because they depend on a locale.
- Full-Unicode string functions. `Text.LowerChar` lowers only A–Z and the Latin-1 capitals U+00C0–U+00DE (except U+00D7), and leaves every other character as it is.
- `Text.ToNumber` accepts only an optional sign and decimal digits, with `\s` trimmed at both ends. Other numeric syntaxes (`1.5`, `1e3`, `0x10`, `Infinity`) become NaN (`None`) in the model. JavaScript would convert them to numbers.
- `PlacesView.Truncate` counts characters (Unicode scalar values). `slice:0:120` and `length` count UTF-16 code units, so the two differ for characters above U+FFFF.
- Template markup beyond which panel is shown: section visibility, icons, labels, `*ngFor` rendering, the navbar and the loading component.
- Routing and browser calls: `router.navigate`, `goBack`, `viewPlace`, `goToPlaces`, `goToTrails`, `goToPlaceDetail`, `viewDetail` and `window.open`.
- The `fetch('/assets/config.json')` call itself. Its outcome is a parameter of `LoadConfig`. `environment.ts` and `proxy.conf.js` are static constants.
- `Config.Property` looks up only an object's own properties. This matters only for the three fixed keys the service uses (`API_URL`, `MAPBOX_TOKEN`, `NODE_ENV`), none of which is inherited or an array index.
- MapWidget.MarkerFor: a marker's icon is the corrected `MapWidget.MarkerIcon` from "Findings". For a category that names one of the twelve inherited `Object.prototype` members (for example `"toString"`), the code as written at map.component.ts:85 and :114 puts the inherited member's text into the marker, and the model puts the pin U+1F4CD. For every other category the two agree, as `MapWidget.MarkerIconSpec` proves.
- MapWidget.MarkersForMembers: the marker it promises for a place with an inherited-name category carries the corrected pin icon, not the as-written value (see `MapWidget.MarkerFor`).
- MapWidget.MapComponent.AddPlaceMarkers: the markers it adds use the corrected icon lookup, so the same twelve category names differ from the code as written (see `MapWidget.MarkerFor`).
- MapWidget.MapComponent.UpdatePlaces: the markers it redraws use the corrected icon lookup (see `MapWidget.MarkerFor`).
- MapWidget.UpdatedMarkers: the markers it speaks of carry the corrected icon (see `MapWidget.MarkerFor`).
- Text.IntToString: integers are unbounded. A JavaScript `number` is a double, so `${n}` writes exponent form (`1e+21`) from 10^21 up, and integers above 2^53 in magnitude are not all representable.
- Text.IntToStringRoundTrip: holds for every integer in the model. In JavaScript it holds only for ids below 2^53 in magnitude; `+"9007199254740993"` gives 9007199254740992.
- PlaceDetailView.RouteIdRoundTrip: ids are assumed below 2^53 in magnitude, for the same reason.
- PlaceDetailView.RouteId: the unary `+` works on unbounded integers; a long digit string that JavaScript rounds to a neighbouring double gives a different id in the code.
- NatureApi.DetailUrlInjective: ids are assumed below 2^53 in magnitude. With larger values two different numerals can denote the same double, and so the same URL.
- NatureApi.DetailUrlId: the id is written in decimal digits. JavaScript uses exponent form from 10^21 up.
- NatureApi.SummaryUrlId: the same assumption as `NatureApi.DetailUrlId`.
- Config.OwnPropertiesSpec: a spread string gets one property per character (Unicode scalar value). JavaScript gives one per UTF-16 code unit, so a character above U+FFFF becomes two properties, each holding half a surrogate pair.
- Config.ConfigService.IsProduction: the contract does not say the value is a boolean, because after `loadConfig` the entry is whatever `config.json` holds (`apiUrl` and `mapboxToken` likewise need not be strings).
- The model assumes `Object.prototype` is unmodified. Code that adds properties to it would change both the icon lookup and `Config.Property`.

## Findings

| source | as written | input that shows it | evidently intended | confidence | as-written member | corrected member |
|---|---|---|---|---|---|---|
| src/app/shared/components/map/map.component.ts:114 | `icons[category] \|\| icons['default']` looks `category` up in an object literal, which also finds the 12 properties inherited from `Object.prototype`. Each is a truthy function or object, so the default is skipped. | a place with category `"toString"`: the marker's `innerHTML` becomes the text of the function `Object.prototype.toString` instead of U+1F4CD | every category outside the ten listed gets the pin U+1F4CD | medium, not executed | MapWidget.MarkerIconToString | MapWidget.MarkerIcon |
