/**
 * The places page (`PlacesComponent`): the list of places, optionally
 * filtered by one category chosen in a drop-down, shown as cards or on a
 * map, with a result count and each description cut to 120 characters.
 */
module PlacesView {
  import opened Wrappers
  import opened Models
  import Text
  import NatureApi

  // ---------------------------------------------------------------------
  // The category filter

  /** `this.selectedCategory || undefined`: the empty selection means no filter. */
  function CategoryArgument(selected: string): (r: Option<string>)
    ensures r.None? <==> selected == ""
    ensures r.Some? ==> r.value == selected
  {
    if selected != "" then Some(selected) else None
  }

  /**
   * Turning the empty selection into `undefined` makes no difference to
   * the request: `getPlaces` leaves an empty category out of the query
   * anyway, so the URL is that of the selection itself, and the empty
   * selection asks for every place.
   */
  lemma CategoryArgumentUrl(baseUrl: string, selected: string)
    ensures NatureApi.PlacesUrl(baseUrl, CategoryArgument(selected), None)
         == NatureApi.PlacesUrl(baseUrl, Some(selected), None)
    ensures selected == "" ==> NatureApi.PlacesUrl(baseUrl, CategoryArgument(selected), None) == baseUrl + "/places"
  {
    NatureApi.PlacesUrlShape(baseUrl, None, None);
  }

  // ---------------------------------------------------------------------
  // "Mostrando n lugar(es)"

  /** `lugar{{ n !== 1 ? 'es' : '' }}`. */
  function Noun(n: nat): string
  {
    "lugar" + (if n != 1 then "es" else "")
  }

  /** The result line: `Mostrando {{ n }} lugar{{ n !== 1 ? 'es' : '' }}`. */
  function ResultLabel(n: nat): string
  {
    "Mostrando " + Text.IntToString(n) + " " + Noun(n)
  }

  /** The noun is the plural "lugares" exactly when the count is not one. */
  lemma NounSpec(n: nat)
    ensures Noun(n) == "lugares" <==> n != 1
    ensures Noun(n) == "lugar" <==> n == 1
  {
    if n == 1 {
      assert Noun(n) != "lugares" by { assert |Noun(n)| == 5; }
    } else {
      assert Noun(n) != "lugar" by { assert |Noun(n)| == 7; }
    }
  }

  /**
   * The label ends in "lugares" exactly when the count is not one, and
   * it carries the count's decimal text after "Mostrando ".
   */
  lemma ResultLabelSpec(n: nat)
    ensures |ResultLabel(n)| >= 7
    ensures ResultLabel(n)[|ResultLabel(n)| - 7..] == "lugares" <==> n != 1
    ensures ResultLabel(n)[..10] == "Mostrando "
    ensures ResultLabel(n)[10..10 + |Text.IntToString(n)|] == Text.IntToString(n)
  {
    var line := ResultLabel(n);
    var head := "Mostrando " + Text.IntToString(n) + " ";
    assert line == head + Noun(n);
    if n != 1 {
      assert line[|line| - 7..] == Noun(n);
    } else {
      assert line[|line| - 1] == 'r';
      assert "lugares"[6] == 's';
    }
  }

  // ---------------------------------------------------------------------
  // The description preview

  /** `{{ d | slice:0:120 }}{{ d.length > 120 ? '...' : '' }}`. */
  function Truncate(d: string): string
  {
    if |d| > 120 then d[..120] + "..." else d
  }

  /**
   * A description of at most 120 characters is shown whole; a longer one
   * as its first 120 characters followed by "...".
   */
  lemma TruncateSpec(d: string)
    ensures |d| <= 120 ==> Truncate(d) == d
    ensures |d| > 120 ==> |Truncate(d)| == 123
    ensures |d| > 120 ==> Truncate(d)[..120] == d[..120] && Truncate(d)[120..] == "..."
    ensures |Truncate(d)| <= 123
  {
  }

  /** `*ngIf="place.description"`: the preview, or nothing for a missing or empty description. */
  function DescriptionPreview(description: Option<string>): (r: Option<string>)
    ensures r.Some? <==> NatureApi.Truthy(description)
    ensures r.Some? ==> r.value == Truncate(description.value)
  {
    if NatureApi.Truthy(description) then Some(Truncate(description.value)) else None
  }

  // ---------------------------------------------------------------------
  // The component

  datatype ViewMode = ListMode | MapMode

  /** What the content area shows once loading is over (or the spinner while it lasts). */
  datatype Panel = LoadingPanel | ListPanel | MapPanel | EmptyPanel

  class PlacesComponent {
    var places: seq<Place>
    var selectedCategory: string
    var loading: bool
    var viewMode: ViewMode
    /** The category argument of every `getPlaces` request issued, oldest first. */
    var requests: seq<Option<string>>

    constructor ()
      ensures places == [] && selectedCategory == "" && !loading && viewMode == ListMode && requests == []
    {
      places := [];
      selectedCategory := "";
      loading := false;
      viewMode := ListMode;
      requests := [];
    }

    function View(): (p: Panel)
      reads this
      ensures p.LoadingPanel? <==> loading
      ensures p.EmptyPanel? <==> (!loading && places == [])
      ensures p.ListPanel? <==> (!loading && places != [] && viewMode.ListMode?)
      ensures p.MapPanel? <==> (!loading && places != [] && viewMode.MapMode?)
    {
      if loading then LoadingPanel
      else if places == [] then EmptyPanel
      else if viewMode.ListMode? then ListPanel
      else MapPanel
    }

    /** `loadPlaces`: request every place. */
    method LoadPlaces()
      modifies this
      ensures loading && requests == old(requests) + [None]
      ensures places == old(places) && selectedCategory == old(selectedCategory) && viewMode == old(viewMode)
    {
      loading := true;
      requests := requests + [None];
    }

    /** `applyFilters`: request the places of the selected category, or all of them when none is selected. */
    method ApplyFilters()
      modifies this
      ensures loading && requests == old(requests) + [CategoryArgument(selectedCategory)]
      ensures places == old(places) && selectedCategory == old(selectedCategory) && viewMode == old(viewMode)
    {
      loading := true;
      requests := requests + [CategoryArgument(selectedCategory)];
    }

    /** The drop-down's `[(ngModel)]` binding followed by its `(change)` handler. */
    method SelectCategory(category: string)
      modifies this
      ensures selectedCategory == category
      ensures loading && requests == old(requests) + [CategoryArgument(category)]
      ensures places == old(places) && viewMode == old(viewMode)
    {
      selectedCategory := category;
      ApplyFilters();
    }

    /** `clearFilters`: forget the selection and reload every place. */
    method ClearFilters()
      modifies this
      ensures selectedCategory == ""
      ensures loading && requests == old(requests) + [None]
      ensures places == old(places) && viewMode == old(viewMode)
    {
      selectedCategory := "";
      LoadPlaces();
    }

    /** The `next` callback of either request: the response replaces the list. */
    method OnPlacesLoaded(response: seq<Place>)
      modifies this
      ensures places == response && !loading
      ensures selectedCategory == old(selectedCategory) && viewMode == old(viewMode) && requests == old(requests)
    {
      places := response;
      loading := false;
    }

    /** The `error` callback of either request: the list stays as it was. */
    method OnPlacesError()
      modifies this
      ensures places == old(places) && !loading
      ensures selectedCategory == old(selectedCategory) && viewMode == old(viewMode) && requests == old(requests)
    {
      loading := false;
    }

    /** The two view toggles. */
    method SetViewMode(mode: ViewMode)
      modifies this
      ensures viewMode == mode
      ensures places == old(places) && selectedCategory == old(selectedCategory)
      ensures loading == old(loading) && requests == old(requests)
    {
      viewMode := mode;
    }
  }
}
