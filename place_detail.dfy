/**
 * The place-detail page (`PlaceDetailComponent`): it reads the `id` route
 * parameter, asks the API for that place's detail, keeps the answer (or
 * nothing, after an error) and shows exactly one of three panels. Each
 * review shows five stars, filled up to the review's rating.
 */
module PlaceDetailView {
  import opened Wrappers
  import opened Models
  import Text

  // ---------------------------------------------------------------------
  // getStars

  /** The filled star U+2B50 and the empty star U+2606. */
  function FilledStar(): string { "\U{2B50}" }
  function EmptyStar(): string { "\U{2606}" }

  /** Position `k` (0-based) of the list `getStars(rating)` returns. */
  function StarAt(rating: real, k: nat): string
  {
    if (k + 1) as real <= rating then FilledStar() else EmptyStar()
  }

  /** The five stars of a rating, one per position. */
  function StarsOf(rating: real): seq<string>
  {
    seq(5, k requires 0 <= k < 5 => StarAt(rating, k))
  }

  /** `getStars(rating)`: the loop over `i = 1..5`, pushing one star each time. */
  method GetStars(rating: real) returns (stars: seq<string>)
    ensures stars == StarsOf(rating)
  {
    stars := [];
    for i := 1 to 6
      invariant |stars| == i - 1
      invariant forall k :: 0 <= k < i - 1 ==> stars[k] == StarAt(rating, k)
    {
      stars := stars + [if i as real <= rating then FilledStar() else EmptyStar()];
    }
  }

  /** How many stars are filled: the whole part of the rating, kept between 0 and 5. */
  function FilledCount(rating: real): (n: nat)
    ensures n <= 5
  {
    if rating < 0.0 then 0 else if rating >= 5.0 then 5 else rating.Floor
  }

  /**
   * There are always five stars; the filled ones come first and there
   * are `FilledCount(rating)` of them, so a rating of 3.7 shows three
   * filled stars and two empty ones.
   */
  lemma StarsSpec(rating: real)
    ensures |StarsOf(rating)| == 5
    ensures forall k :: 0 <= k < 5 ==>
      (StarsOf(rating)[k] == FilledStar() <==> k < FilledCount(rating))
    ensures forall k :: 0 <= k < 5 ==>
      (StarsOf(rating)[k] == EmptyStar() <==> k >= FilledCount(rating))
  {
    forall k | 0 <= k < 5
      ensures (StarAt(rating, k) == FilledStar() <==> k < FilledCount(rating))
    {
      assert FilledStar()[0] != EmptyStar()[0];
    }
  }

  /** Ratings with the same filled count show the same stars. */
  lemma StarsByCount(r1: real, r2: real)
    requires FilledCount(r1) == FilledCount(r2)
    ensures StarsOf(r1) == StarsOf(r2)
  {
    StarsSpec(r1);
    StarsSpec(r2);
    assert FilledStar() != EmptyStar() by {
      assert FilledStar()[0] != EmptyStar()[0];
    }
    forall k | 0 <= k < 5 ensures StarsOf(r1)[k] == StarsOf(r2)[k] {
      assert StarsOf(r1)[k] == FilledStar() || StarsOf(r1)[k] == EmptyStar();
    }
  }

  // ---------------------------------------------------------------------
  // The route parameter

  /**
   * `const id = +params['id']; if (id) ...`: the id to load, or `None`
   * when the parameter is missing, not a number, or zero.
   */
  function RouteId(param: Option<string>): (r: Option<int>)
    ensures r.Some? ==> r.value != 0
    ensures param.None? ==> r.None?
  {
    match Text.ToNumber(param)
    case Some(n) => if n != 0 then Some(n) else None
    case None => None
  }

  /** Decimal text has no white space at either end. */
  lemma IntToStringTrimmed(n: int)
    ensures Text.Trim(Text.IntToString(n)) == Text.IntToString(n)
  {
    var s := Text.IntToString(n);
    var d := Text.NatToString(if n < 0 then -n else n);
    assert '0' <= d[|d| - 1] <= '9';
    assert s[|s| - 1] == d[|d| - 1];
    assert s[0] == '-' || '0' <= s[0] <= '9';
  }

  /** The decimal text of any non-zero id, as the app writes it into links, routes back to that id. */
  lemma RouteIdRoundTrip(n: int)
    requires n != 0
    ensures RouteId(Some(Text.IntToString(n))) == Some(n)
  {
    IntToStringTrimmed(n);
    Text.IntToStringRoundTrip(n);
  }

  /** A missing, empty or zero parameter loads nothing. */
  lemma RouteIdRejects()
    ensures RouteId(None) == None
    ensures RouteId(Some("")) == None
    ensures RouteId(Some("0")) == None
  {
    assert Text.Trim("0") == "0";
    assert Text.DigitsValue("0") == 0 by {
      assert "0"[..0] == "";
    }
  }

  // ---------------------------------------------------------------------
  // The component

  /** The three mutually exclusive panels of the template. */
  datatype Panel = LoadingPanel | DetailPanel(detail: PlaceDetail) | NotFoundPanel

  class PlaceDetailComponent {
    /** `place`: the loaded detail, `null` before a load and after a failed one. */
    var place: Option<PlaceDetail>
    var loading: bool
    /** The ids `getPlaceDetail` has been called with, oldest first. */
    var requests: seq<int>

    constructor ()
      ensures place == None && !loading && requests == []
    {
      place := None;
      loading := false;
      requests := [];
    }

    /**
     * The panel shown: the detail when there is a place and no load is
     * running, the spinner while loading, the "not found" panel otherwise.
     */
    function View(): (p: Panel)
      reads this
      ensures p.LoadingPanel? <==> loading
      ensures p.DetailPanel? <==> (!loading && place.Some?)
      ensures p.NotFoundPanel? <==> (!loading && place.None?)
      ensures p.DetailPanel? ==> place == Some(p.detail)
    {
      if loading then LoadingPanel
      else if place.Some? then DetailPanel(place.value)
      else NotFoundPanel
    }

    /** The route-parameter subscription of `ngOnInit`. */
    method OnRouteParams(idParam: Option<string>)
      modifies this
      ensures RouteId(idParam).Some? ==>
        loading && requests == old(requests) + [RouteId(idParam).value] && place == old(place)
      ensures RouteId(idParam).None? ==>
        loading == old(loading) && requests == old(requests) && place == old(place)
    {
      var id := RouteId(idParam);
      if id.Some? {
        LoadPlaceDetail(id.value);
      }
    }

    /** `loadPlaceDetail(id)`: raise the loading flag and issue the request. */
    method LoadPlaceDetail(id: int)
      modifies this
      ensures loading && requests == old(requests) + [id] && place == old(place)
      ensures View() == LoadingPanel
    {
      loading := true;
      requests := requests + [id];
    }

    /** The `next` callback: keep the detail and show it. */
    method OnDetailLoaded(detail: PlaceDetail)
      modifies this
      ensures place == Some(detail) && !loading && requests == old(requests)
      ensures View() == DetailPanel(detail)
    {
      place := Some(detail);
      loading := false;
    }

    /** The `error` callback: forget any detail and show "not found". */
    method OnDetailError()
      modifies this
      ensures place == None && !loading && requests == old(requests)
      ensures View() == NotFoundPanel
    {
      place := None;
      loading := false;
    }
  }
}
