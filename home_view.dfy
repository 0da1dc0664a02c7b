/**
 * The home page (`HomeComponent`): from the full list of places it keeps
 * the number of places, the first three as featured places, the number of
 * distinct categories and an estimate of the number of trails (two per
 * place).
 */
module HomeView {
  import opened Models
  import StringOrder
  import NatureApi

  /** `places.slice(0, 3)`. */
  function Featured(places: seq<Place>): (r: seq<Place>)
    ensures |r| == if |places| < 3 then |places| else 3
    ensures r <= places
  {
    if |places| < 3 then places else places[..3]
  }

  /** `new Set(places.map(p => p.category)).size`. */
  function DistinctCategoryCount(places: seq<Place>): nat
  {
    |StringOrder.Elements(NatureApi.CategoriesOf(places))|
  }

  /**
   * The distinct-category count is the length of the list `getCategories`
   * would return for the same places; it never exceeds the number of
   * places, and it is zero exactly when there are no places.
   */
  lemma DistinctCategoryCountSpec(places: seq<Place>)
    ensures DistinctCategoryCount(places) == |NatureApi.Categories(places)|
    ensures DistinctCategoryCount(places) <= |places|
    ensures DistinctCategoryCount(places) == 0 <==> places == []
  {
    StringOrder.DistinctSortedSize(NatureApi.CategoriesOf(places));
    NatureApi.CategoriesSpec(places);
  }

  /** Places that all share one category count as one category. */
  lemma DistinctCategoryCountOne(places: seq<Place>, category: string)
    requires places != []
    requires forall k :: 0 <= k < |places| ==> places[k].category == category
    ensures DistinctCategoryCount(places) == 1
  {
    var xs := NatureApi.CategoriesOf(places);
    assert StringOrder.Elements(xs) == {category} by {
      assert xs[0] == category;
    }
  }

  class HomeComponent {
    var totalPlaces: int
    var totalTrails: int
    var totalCategories: int
    var featuredPlaces: seq<Place>
    var loading: bool
    /** The number of `getPlaces()` requests issued. */
    var requests: nat

    /** The statistics are those of the list `places`. */
    predicate Describes(places: seq<Place>)
      reads this
    {
      && totalPlaces == |places|
      && featuredPlaces == Featured(places)
      && totalCategories == DistinctCategoryCount(places)
      && totalTrails == 2 * |places|
    }

    /** The initial statistics, all zero, are those of an empty list. */
    constructor ()
      ensures Describes([]) && !loading && requests == 0
    {
      totalPlaces := 0;
      totalTrails := 0;
      totalCategories := 0;
      featuredPlaces := [];
      loading := false;
      requests := 0;
    }

    /** `loadHomeData`: raise the loading flag and request every place. */
    method LoadHomeData()
      modifies this
      ensures loading && requests == old(requests) + 1
      ensures totalPlaces == old(totalPlaces) && totalTrails == old(totalTrails)
      ensures totalCategories == old(totalCategories) && featuredPlaces == old(featuredPlaces)
    {
      loading := true;
      requests := requests + 1;
    }

    /** The `next` callback: every statistic is recomputed from the response. */
    method OnPlacesLoaded(places: seq<Place>)
      modifies this
      ensures Describes(places) && !loading && requests == old(requests)
    {
      totalPlaces := |places|;
      featuredPlaces := Featured(places);
      totalCategories := |StringOrder.Elements(NatureApi.CategoriesOf(places))|;
      totalTrails := |places| * 2;
      loading := false;
    }

    /** The `error` callback: the statistics stay as they were; only the loading flag drops. */
    method OnPlacesError()
      modifies this
      ensures !loading && requests == old(requests)
      ensures totalPlaces == old(totalPlaces) && totalTrails == old(totalTrails)
      ensures totalCategories == old(totalCategories) && featuredPlaces == old(featuredPlaces)
    {
      loading := false;
    }

    /**
     * Statistics computed from one list agree with each other: at most
     * as many categories as places, trails twice the places, and the
     * featured places are the first (at most three) of them.
     */
    lemma DescribedStats(places: seq<Place>)
      requires Describes(places)
      ensures 0 <= totalCategories <= totalPlaces
      ensures totalCategories == 0 <==> totalPlaces == 0
      ensures totalTrails == 2 * totalPlaces
      ensures |featuredPlaces| <= 3 && |featuredPlaces| <= totalPlaces
      ensures forall i :: 0 <= i < |featuredPlaces| ==> featuredPlaces[i] == places[i]
    {
      DistinctCategoryCountSpec(places);
    }
  }
}
