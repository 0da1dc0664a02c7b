/**
 * The data shaping of the API client (`NatureApiService`): the URLs of the
 * three endpoints, the flattening of every place's trails into one list,
 * the distinct-and-sorted category and difficulty lists, and the
 * client-side name search. HTTP results are plain inputs here: a list of
 * places or of place details that a request would have returned.
 */
module NatureApi {
  import opened Wrappers
  import opened Models
  import Text
  import StringOrder
  import FormEncoding

  // ---------------------------------------------------------------------
  // GET /places[?category=..&difficulty=..]

  /** `if (x)` on an optional string parameter: given and not empty. */
  predicate Truthy(s: Option<string>) {
    s.Some? && s.value != ""
  }

  /** The `URLSearchParams` object that `getPlaces` fills. */
  class SearchParams {
    var pairs: seq<(string, string)>

    constructor ()
      ensures pairs == []
    {
      pairs := [];
    }

    method Append(name: string, value: string)
      modifies this
      ensures pairs == old(pairs) + [(name, value)]
    {
      pairs := pairs + [(name, value)];
    }

    /** `params.toString()`. */
    function ToString(): string
      reads this
    {
      FormEncoding.SerializePairs(pairs)
    }
  }

  /** The name/value pairs `getPlaces` appends, category first. */
  function FilterPairs(category: Option<string>, difficulty: Option<string>): seq<(string, string)>
  {
    (if Truthy(category) then [("category", category.value)] else [])
    + (if Truthy(difficulty) then [("difficulty", difficulty.value)] else [])
  }

  /** The query text of a `getPlaces` request. */
  function PlacesQuery(category: Option<string>, difficulty: Option<string>): string
  {
    FormEncoding.SerializePairs(FilterPairs(category, difficulty))
  }

  /** The URL `getPlaces(category, difficulty)` requests. */
  function PlacesUrl(baseUrl: string, category: Option<string>, difficulty: Option<string>): string
  {
    WithQuery(baseUrl + "/places", PlacesQuery(category, difficulty))
  }

  /** `url` followed by `?` and the query, when there is a query. */
  function WithQuery(url: string, query: string): string
  {
    if query != "" then url + "?" + query else url
  }

  /** The `URLSearchParams` object `getPlaces` fills: a filter only when it is a non-empty string. */
  method FilterParams(category: Option<string>, difficulty: Option<string>)
    returns (params: SearchParams)
    ensures fresh(params)
    ensures params.pairs == FilterPairs(category, difficulty)
  {
    params := new SearchParams();
    if Truthy(category) {
      params.Append("category", category.value);
    }
    if Truthy(difficulty) {
      params.Append("difficulty", difficulty.value);
    }
    assert params.pairs == FilterPairs(category, difficulty);
  }

  /** `getPlaces`: the URL it requests, built as the service builds it. */
  method GetPlaces(baseUrl: string, category: Option<string>, difficulty: Option<string>)
    returns (url: string)
    ensures url == PlacesUrl(baseUrl, category, difficulty)
  {
    url := baseUrl + "/places";
    var params := FilterParams(category, difficulty);
    var query := params.ToString();
    assert query == PlacesQuery(category, difficulty);
    if query != "" {
      url := url + "?" + query;
    }
  }

  lemma PlacesQueryEmpty(category: Option<string>, difficulty: Option<string>)
    ensures PlacesQuery(category, difficulty) == "" <==> !Truthy(category) && !Truthy(difficulty)
  {
    FormEncoding.SerializePairsEmpty(FilterPairs(category, difficulty));
  }

  lemma WithQueryShape(url: string, query: string)
    ensures WithQuery(url, query) == url <==> query == ""
    ensures query != "" ==> WithQuery(url, query)[..|url| + 1] == url + "?"
    ensures query != "" ==> WithQuery(url, query)[|url| + 1..] == query
  {
    if query != "" {
      assert |WithQuery(url, query)| > |url|;
    }
  }

  /**
   * Without a (non-empty) filter the URL is exactly `baseUrl/places`; with
   * one it is `baseUrl/places?` followed by the query.
   */
  lemma PlacesUrlShape(baseUrl: string, category: Option<string>, difficulty: Option<string>)
    ensures PlacesUrl(baseUrl, category, difficulty) == baseUrl + "/places"
        <==> !Truthy(category) && !Truthy(difficulty)
    ensures Truthy(category) || Truthy(difficulty) ==>
      PlacesUrl(baseUrl, category, difficulty) == baseUrl + "/places" + "?" + PlacesQuery(category, difficulty)
  {
    PlacesQueryEmpty(category, difficulty);
    WithQueryShape(baseUrl + "/places", PlacesQuery(category, difficulty));
  }

  /** Category first, each filter present exactly when it is a non-empty string. */
  lemma FilterPairsSpec(category: Option<string>, difficulty: Option<string>)
    ensures |FilterPairs(category, difficulty)| == (if Truthy(category) then 1 else 0) + (if Truthy(difficulty) then 1 else 0)
    ensures Truthy(category) ==> FilterPairs(category, difficulty)[0] == ("category", category.value)
    ensures Truthy(difficulty) ==>
      FilterPairs(category, difficulty)[|FilterPairs(category, difficulty)| - 1] == ("difficulty", difficulty.value)
  {
  }

  /**
   * The server reads the filters back exactly: parsing the query gives one
   * pair per filter the service appended, in order, whose UTF-8 bytes
   * decode to that filter's name and value.
   */
  lemma PlacesQueryParses(category: Option<string>, difficulty: Option<string>)
    ensures |FormEncoding.ParsePairs(PlacesQuery(category, difficulty))| == |FilterPairs(category, difficulty)|
    ensures forall k :: 0 <= k < |FilterPairs(category, difficulty)| ==>
      (FormEncoding.DecodeUtf8(FormEncoding.ParsePairs(PlacesQuery(category, difficulty))[k].0)
         == Some(FilterPairs(category, difficulty)[k].0)
       && FormEncoding.DecodeUtf8(FormEncoding.ParsePairs(PlacesQuery(category, difficulty))[k].1)
         == Some(FilterPairs(category, difficulty)[k].1))
  {
    FormEncoding.ParseSerializeDecodes(FilterPairs(category, difficulty));
  }

  // ---------------------------------------------------------------------
  // GET /places/{id} and GET /places/{id}/summary

  /** The URL `getPlaceDetail(id)` requests. */
  function DetailUrl(baseUrl: string, id: int): string
  {
    baseUrl + "/places/" + Text.IntToString(id)
  }

  /** The URL `getPlaceSummary(id)` requests. */
  function SummaryUrl(baseUrl: string, id: int): string
  {
    DetailUrl(baseUrl, id) + "/summary"
  }

  /**
   * The detail URL is `baseUrl/places/` followed by the decimal text of the
   * id, so the id can be read back from it.
   */
  lemma DetailUrlId(baseUrl: string, id: int)
    ensures DetailUrl(baseUrl, id)[..|baseUrl| + 8] == baseUrl + "/places/"
    ensures Text.ParseInteger(DetailUrl(baseUrl, id)[|baseUrl| + 8..]) == Some(id)
  {
    var u := DetailUrl(baseUrl, id);
    assert u[|baseUrl| + 8..] == Text.IntToString(id);
    Text.IntToStringRoundTrip(id);
  }

  /**
   * The summary URL is `baseUrl/places/`, the decimal text of the id, and
   * `/summary`.
   */
  lemma SummaryUrlId(baseUrl: string, id: int)
    ensures |SummaryUrl(baseUrl, id)| >= |baseUrl| + 16
    ensures SummaryUrl(baseUrl, id)[..|baseUrl| + 8] == baseUrl + "/places/"
    ensures Text.ParseInteger(SummaryUrl(baseUrl, id)[|baseUrl| + 8..|SummaryUrl(baseUrl, id)| - 8]) == Some(id)
    ensures SummaryUrl(baseUrl, id)[|SummaryUrl(baseUrl, id)| - 8..] == "/summary"
  {
    var u := SummaryUrl(baseUrl, id);
    assert u[|baseUrl| + 8..|u| - 8] == Text.IntToString(id);
    Text.IntToStringRoundTrip(id);
  }

  lemma DetailUrlInjective(baseUrl: string, i: int, j: int)
    requires DetailUrl(baseUrl, i) == DetailUrl(baseUrl, j)
    ensures i == j
  {
    DetailUrlId(baseUrl, i);
    DetailUrlId(baseUrl, j);
  }

  // ---------------------------------------------------------------------
  // getAllTrails: tag and flatten

  /** `detail.trails.map(trail => ({...trail, placeName: detail.name}))`. */
  function TagTrails(d: PlaceDetail): (r: seq<TaggedTrail>)
    ensures |r| == |d.trails|
  {
    seq(|d.trails|, k requires 0 <= k < |d.trails| => TaggedTrail(d.trails[k], d.place.name))
  }

  /** `placesWithTrails.flatMap(item => item.trails)`, in place-list order. */
  function AllTrails(details: seq<PlaceDetail>): seq<TaggedTrail>
  {
    if details == [] then [] else TagTrails(details[0]) + AllTrails(details[1..])
  }

  /** The number of trails of all the given places together. */
  function TrailCount(details: seq<PlaceDetail>): nat
  {
    if details == [] then 0 else |details[0].trails| + TrailCount(details[1..])
  }

  lemma {:induction false} AllTrailsLength(details: seq<PlaceDetail>)
    ensures |AllTrails(details)| == TrailCount(details)
  {
    if details != [] {
      AllTrailsLength(details[1..]);
    }
  }

  /** Flattening distributes over concatenation of place lists. */
  lemma {:induction false} AllTrailsAppend(a: seq<PlaceDetail>, b: seq<PlaceDetail>)
    ensures AllTrails(a + b) == AllTrails(a) + AllTrails(b)
    ensures TrailCount(a + b) == TrailCount(a) + TrailCount(b)
  {
    if a == [] {
      assert a + b == b;
    } else {
      assert (a + b)[0] == a[0] && (a + b)[1..] == a[1..] + b;
      AllTrailsAppend(a[1..], b);
    }
  }

  /**
   * Trail `j` of place `i` sits at position `TrailCount(details[..i]) + j`
   * of the flattened list, unchanged and tagged with the name of place `i`.
   */
  lemma AllTrailsAt(details: seq<PlaceDetail>, i: nat, j: nat)
    requires i < |details| && j < |details[i].trails|
    ensures TrailCount(details[..i]) + j < |AllTrails(details)|
    ensures AllTrails(details)[TrailCount(details[..i]) + j]
      == TaggedTrail(details[i].trails[j], details[i].place.name)
  {
    assert details == details[..i] + details[i..];
    AllTrailsAppend(details[..i], details[i..]);
    AllTrailsLength(details[..i]);
    AllTrailsLength(details);
    assert AllTrails(details[i..]) == TagTrails(details[i]) + AllTrails(details[i + 1..]);
  }

  /** Every trail of the flattened list is a trail of some place, tagged with its name. */
  lemma {:induction false} AllTrailsFrom(details: seq<PlaceDetail>, k: nat)
    requires k < |AllTrails(details)|
    ensures exists i :: (0 <= i < |details|
                         && AllTrails(details)[k].trail in details[i].trails
                         && AllTrails(details)[k].placeName == details[i].place.name)
  {
    var head := TagTrails(details[0]);
    if k < |head| {
      assert AllTrails(details)[k] == head[k];
      assert details[0].trails[k] in details[0].trails;
    } else {
      AllTrailsFrom(details[1..], k - |head|);
      var i :| 0 <= i < |details[1..]|
        && AllTrails(details[1..])[k - |head|].trail in details[1..][i].trails
        && AllTrails(details[1..])[k - |head|].placeName == details[1..][i].place.name;
      assert details[1..][i] == details[i + 1];
    }
  }

  // ---------------------------------------------------------------------
  // getCategories and getDifficulties

  function CategoriesOf(places: seq<Place>): seq<string>
  {
    seq(|places|, k requires 0 <= k < |places| => places[k].category)
  }

  /** `[...new Set(places.map(p => p.category))].sort()`. */
  function Categories(places: seq<Place>): seq<string>
  {
    StringOrder.DistinctSorted(CategoriesOf(places))
  }

  /**
   * The categories come out sorted and without duplicates; they are exactly
   * the categories of the given places; no places give no categories.
   */
  lemma CategoriesSpec(places: seq<Place>)
    ensures StringOrder.StrictlySorted(Categories(places))
    ensures forall k :: 0 <= k < |places| ==> places[k].category in Categories(places)
    ensures forall c :: c in Categories(places) ==> exists k :: 0 <= k < |places| && places[k].category == c
    ensures Categories(places) == [] <==> places == []
    ensures |Categories(places)| <= |places|
  {
    var xs := CategoriesOf(places);
    assert StringOrder.Elements(Categories(places)) == StringOrder.Elements(xs);
    forall k | 0 <= k < |places| ensures places[k].category in Categories(places) {
      assert xs[k] in StringOrder.Elements(xs);
    }
    forall c | c in Categories(places) ensures exists k :: 0 <= k < |places| && places[k].category == c {
      assert c in StringOrder.Elements(xs);
      var k :| 0 <= k < |xs| && xs[k] == c;
      assert places[k].category == c;
    }
    if places != [] {
      assert places[0].category in Categories(places);
    }
    StringOrder.DistinctSortedSize(xs);
    StringOrder.ElementsBound(xs);
  }

  function DifficultiesOf(trails: seq<TaggedTrail>): seq<string>
  {
    seq(|trails|, k requires 0 <= k < |trails| => trails[k].trail.difficulty)
  }

  /** `[...new Set(trails.map(t => t.difficulty))].sort()` over the aggregated trails. */
  function Difficulties(details: seq<PlaceDetail>): seq<string>
  {
    StringOrder.DistinctSorted(DifficultiesOf(AllTrails(details)))
  }

  /** Some trail of some place has difficulty `d`. */
  predicate HasDifficulty(details: seq<PlaceDetail>, d: string) {
    exists i, j :: 0 <= i < |details| && 0 <= j < |details[i].trails| && details[i].trails[j].difficulty == d
  }

  lemma DifficultyFound(details: seq<PlaceDetail>, d: string)
    requires d in Difficulties(details)
    ensures HasDifficulty(details, d)
  {
    var all := AllTrails(details);
    var xs := DifficultiesOf(all);
    assert d in StringOrder.Elements(xs);
    var k :| 0 <= k < |xs| && xs[k] == d;
    AllTrailsFrom(details, k);
    var i :| 0 <= i < |details| && all[k].trail in details[i].trails;
    var j :| 0 <= j < |details[i].trails| && details[i].trails[j] == all[k].trail;
    assert details[i].trails[j].difficulty == d;
  }

  lemma DifficultyListed(details: seq<PlaceDetail>, d: string)
    requires HasDifficulty(details, d)
    ensures d in Difficulties(details)
  {
    var i, j :| 0 <= i < |details| && 0 <= j < |details[i].trails| && details[i].trails[j].difficulty == d;
    AllTrailsAt(details, i, j);
    var xs := DifficultiesOf(AllTrails(details));
    var k := TrailCount(details[..i]) + j;
    assert xs[k] == d;
    assert d in StringOrder.Elements(xs);
  }

  /**
   * The difficulties come out sorted and without duplicates, and a value is
   * among them exactly when some trail of some place has it.
   */
  lemma DifficultiesSpec(details: seq<PlaceDetail>, d: string)
    ensures StringOrder.StrictlySorted(Difficulties(details))
    ensures d in Difficulties(details) <==> HasDifficulty(details, d)
  {
    if d in Difficulties(details) {
      DifficultyFound(details, d);
    }
    if HasDifficulty(details, d) {
      DifficultyListed(details, d);
    }
  }

  // ---------------------------------------------------------------------
  // searchPlacesByName

  /** The place's lowercased name or category contains the lowercased term. */
  predicate Matches(p: Place, term: string) {
    Text.Contains(Text.Lower(p.name), Text.Lower(term))
    || Text.Contains(Text.Lower(p.category), Text.Lower(term))
  }

  /** `places.filter(place => Matches(place, term))`. */
  function SearchPlacesByName(places: seq<Place>, term: string): seq<Place>
  {
    if places == [] then []
    else (if Matches(places[0], term) then [places[0]] else []) + SearchPlacesByName(places[1..], term)
  }

  /** `a` is `b` with some elements left out, the rest in their order. */
  predicate IsSubsequence<T(==)>(a: seq<T>, b: seq<T>)
    decreases |b|
  {
    if a == [] then true
    else if b == [] then false
    else if a[0] == b[0] then IsSubsequence(a[1..], b[1..])
    else IsSubsequence(a, b[1..])
  }

  /**
   * The search keeps exactly as many copies of each matching place as the
   * input has, and none of a place that does not match.
   */
  lemma {:induction false} SearchCount(places: seq<Place>, term: string)
    ensures forall p :: multiset(SearchPlacesByName(places, term))[p] ==
                       (if Matches(p, term) then multiset(places)[p] else 0)
  {
    if places != [] {
      SearchCount(places[1..], term);
      assert places == [places[0]] + places[1..];
      assert multiset(places) == multiset{places[0]} + multiset(places[1..]);
    }
  }

  /** A place is in the result exactly when it is in the input and matches. */
  lemma SearchMembers(places: seq<Place>, term: string)
    ensures forall p :: p in SearchPlacesByName(places, term) <==> p in places && Matches(p, term)
  {
    SearchCount(places, term);
    forall p ensures p in SearchPlacesByName(places, term) <==> p in places && Matches(p, term) {
      assert p in SearchPlacesByName(places, term) <==> multiset(SearchPlacesByName(places, term))[p] > 0;
      assert p in places <==> multiset(places)[p] > 0;
    }
  }

  /** The search keeps the places it keeps in their original order. */
  lemma {:induction false} SearchSubsequence(places: seq<Place>, term: string)
    ensures IsSubsequence(SearchPlacesByName(places, term), places)
  {
    if places != [] {
      var r := SearchPlacesByName(places, term);
      var rest := SearchPlacesByName(places[1..], term);
      SearchSubsequence(places[1..], term);
      if Matches(places[0], term) {
        assert r == [places[0]] + rest;
        assert r[1..] == rest;
      } else {
        SearchMembers(places[1..], term);
        assert r == rest;
        assert r != [] ==> r[0] in rest && r[0] != places[0];
      }
    }
  }

  /** An empty search term keeps every place. */
  lemma {:induction false} SearchEmptyTerm(places: seq<Place>)
    ensures SearchPlacesByName(places, "") == places
  {
    if places != [] {
      Text.ContainsEmpty(Text.Lower(places[0].name));
      SearchEmptyTerm(places[1..]);
      assert places == [places[0]] + places[1..];
    }
  }

  /** The search ignores case in the term, as far as lowering goes. */
  lemma SearchLoweredTerm(places: seq<Place>, term: string)
    ensures SearchPlacesByName(places, Text.Lower(term)) == SearchPlacesByName(places, term)
  {
    Text.LowerIdempotent(term);
    if places != [] {
      SearchLoweredTerm(places[1..], term);
    }
  }
}
