/**
 * The map widget (`MapComponent`), reduced to its bookkeeping: which places
 * get a marker, which icon a marker shows, the bounds the map is fitted to,
 * and how the set of markers changes when the list of places is replaced.
 * The Mapbox map itself is two flags (created, finished loading) and the
 * lists of `fitBounds` and `flyTo` calls it received.
 */
module MapWidget {
  import opened Wrappers
  import opened Models

  // ---------------------------------------------------------------------
  // getMarkerIcon

  /** The fallback icon, U+1F4CD. */
  function DefaultIcon(): string { "\U{1F4CD}" }

  /** The icon table of `getMarkerIcon`, without its `default` entry. */
  function Icons(): map<string, string>
  {
    map[
      "Parque Nacional" := "\U{1F3DE}\U{FE0F}",
      "Reserva Natural" := "\U{1F332}",
      "Playa" := "\U{1F3D6}\U{FE0F}",
      "Monta\U{F1}a" := "\U{26F0}\U{FE0F}",
      "Sendero" := "\U{1F97E}",
      "Cascada" := "\U{1F4A7}",
      "Cenote" := "\U{1F573}\U{FE0F}",
      "Mirador" := "\U{1F52D}",
      "Volc\U{E1}n" := "\U{1F30B}",
      "Lago" := "\U{1F3DE}\U{FE0F}"
    ]
  }

  /** The ten categories that have an icon of their own. */
  predicate Known(category: string) {
    category in Icons()
  }

  /**
   * The properties every object literal inherits from `Object.prototype`;
   * `icons[category]` finds these as well as the table's own entries.
   */
  predicate InheritedName(name: string) {
    name in {
      "constructor", "__defineGetter__", "__defineSetter__", "hasOwnProperty",
      "__lookupGetter__", "__lookupSetter__", "isPrototypeOf", "propertyIsEnumerable",
      "toString", "valueOf", "__proto__", "toLocaleString"
    }
  }

  /** What `icons[category] || icons['default']` evaluates to. */
  datatype IconValue = IconText(text: string) | InheritedMember(name: string)

  /**
   * `getMarkerIcon` as written: a lookup in an object literal, which also
   * finds the inherited `Object.prototype` members; each of those is a
   * truthy function or object, so the default is not used for them.
   */
  function MarkerIconAsWritten(category: string): (r: IconValue)
    ensures r.InheritedMember? <==> !Known(category) && InheritedName(category)
  {
    if Known(category) then IconText(Icons()[category])
    else if InheritedName(category) then InheritedMember(category)
    else IconText(DefaultIcon())
  }

  /** A place whose category is "toString" gets a function, not the pin, as its marker content. */
  lemma MarkerIconToString()
    ensures MarkerIconAsWritten("toString") == InheritedMember("toString")
  {
    assert !Known("toString") by {
      assert "toString"[0] == 't';
    }
    assert InheritedName("toString");
  }

  /** `getMarkerIcon` as intended: the table's own entry, otherwise the pin. */
  function MarkerIcon(category: string): (r: string)
    ensures Known(category) ==> r == Icons()[category]
    ensures !Known(category) ==> r == DefaultIcon()
  {
    if category in Icons() then Icons()[category] else DefaultIcon()
  }

  /**
   * Every icon is non-empty and is either one listed in the table or the
   * pin; the two readings agree on every category that is not the name
   * of an inherited property.
   */
  lemma MarkerIconSpec(category: string)
    ensures MarkerIcon(category) != ""
    ensures MarkerIcon(category) in Icons().Values || MarkerIcon(category) == DefaultIcon()
    ensures !InheritedName(category) ==> MarkerIconAsWritten(category) == IconText(MarkerIcon(category))
  {
    if Known(category) {
      assert Icons()[category] in Icons().Values;
    }
  }

  /** The table, entry by entry. */
  lemma MarkerIconTable()
    ensures MarkerIcon("Parque Nacional") == "\U{1F3DE}\U{FE0F}"
    ensures MarkerIcon("Reserva Natural") == "\U{1F332}"
    ensures MarkerIcon("Playa") == "\U{1F3D6}\U{FE0F}"
    ensures MarkerIcon("Monta\U{F1}a") == "\U{26F0}\U{FE0F}"
    ensures MarkerIcon("Sendero") == "\U{1F97E}"
    ensures MarkerIcon("Cascada") == "\U{1F4A7}"
    ensures MarkerIcon("Cenote") == "\U{1F573}\U{FE0F}"
    ensures MarkerIcon("Mirador") == "\U{1F52D}"
    ensures MarkerIcon("Volc\U{E1}n") == "\U{1F30B}"
    ensures MarkerIcon("Lago") == "\U{1F3DE}\U{FE0F}"
  {
  }

  // ---------------------------------------------------------------------
  // Markers and bounds

  /** A marker at `[lng, lat]` showing `icon`. */
  datatype Marker = Marker(lng: real, lat: real, icon: string)

  /** `place.latitude && place.longitude`: both coordinates non-zero. */
  predicate Eligible(p: Place) {
    p.latitude != 0.0 && p.longitude != 0.0
  }

  /**
   * The marker of a place. It shows the corrected icon `MarkerIcon`; the
   * lookup as written differs only for the inherited names (`MarkerIconSpec`).
   */
  function MarkerFor(p: Place): Marker {
    Marker(p.longitude, p.latitude, MarkerIcon(p.category))
  }

  /** The markers `addPlaceMarkers` creates for `places`, in list order. */
  function MarkersFor(places: seq<Place>): seq<Marker>
  {
    if places == [] then []
    else
      var last := places[|places| - 1];
      MarkersFor(places[..|places| - 1]) + (if Eligible(last) then [MarkerFor(last)] else [])
  }

  /** Scanning one more place adds its marker, if it gets one, at the end. */
  lemma MarkersForSnoc(places: seq<Place>, i: nat)
    requires i < |places|
    ensures MarkersFor(places[..i + 1]) ==
      MarkersFor(places[..i]) + (if Eligible(places[i]) then [MarkerFor(places[i])] else [])
  {
    assert places[..i + 1][..i] == places[..i];
  }

  /** At most one marker per place. */
  lemma {:induction false} MarkersForBound(places: seq<Place>)
    ensures |MarkersFor(places)| <= |places|
  {
    if places != [] {
      MarkersForBound(places[..|places| - 1]);
    }
  }

  /** A marker stands exactly for an eligible place of the list. */
  lemma {:induction false} MarkersForMembers(places: seq<Place>)
    ensures forall m :: m in MarkersFor(places) <==>
      exists k :: 0 <= k < |places| && Eligible(places[k]) && m == MarkerFor(places[k])
  {
    if places != [] {
      var init := places[..|places| - 1];
      MarkersForMembers(init);
      forall m ensures m in MarkersFor(places) <==>
        exists k :: 0 <= k < |places| && Eligible(places[k]) && m == MarkerFor(places[k])
      {
        if exists k :: 0 <= k < |places| && Eligible(places[k]) && m == MarkerFor(places[k]) {
          var k :| 0 <= k < |places| && Eligible(places[k]) && m == MarkerFor(places[k]);
          if k < |init| {
            assert init[k] == places[k];
          }
        }
        if m in MarkersFor(init) {
          var k :| 0 <= k < |init| && Eligible(init[k]) && m == MarkerFor(init[k]);
          assert places[k] == init[k];
        }
      }
    }
  }

  /** A list of places none of which is eligible gets no marker at all. */
  lemma {:induction false} MarkersForNone(places: seq<Place>)
    requires forall k :: 0 <= k < |places| ==> !Eligible(places[k])
    ensures MarkersFor(places) == []
  {
    if places != [] {
      MarkersForNone(places[..|places| - 1]);
    }
  }

  /** A rectangle `[west, south]`-`[east, north]`, as `LngLatBounds` keeps it. */
  datatype Box = Box(west: real, south: real, east: real, north: real)

  /** `bounds.extend([lng, lat])`: the smallest box holding the old one and the point. */
  function Extend(b: Option<Box>, lng: real, lat: real): (r: Option<Box>)
    ensures r.Some?
  {
    match b
    case None => Some(Box(lng, lat, lng, lat))
    case Some(x) => Some(Box(
      if lng < x.west then lng else x.west,
      if lat < x.south then lat else x.south,
      if lng > x.east then lng else x.east,
      if lat > x.north then lat else x.north))
  }

  /** A bounds object extended with each marker's position in turn. */
  function BoxOf(markers: seq<Marker>): Option<Box>
  {
    if markers == [] then None
    else
      var m := markers[|markers| - 1];
      Extend(BoxOf(markers[..|markers| - 1]), m.lng, m.lat)
  }

  lemma BoxOfSnoc(markers: seq<Marker>, m: Marker)
    ensures BoxOf(markers + [m]) == Extend(BoxOf(markers), m.lng, m.lat)
  {
    assert (markers + [m])[..|markers|] == markers;
  }

  predicate Inside(b: Box, m: Marker) {
    b.west <= m.lng <= b.east && b.south <= m.lat <= b.north
  }

  /**
   * The box of a list of markers exists exactly when there is a marker,
   * holds every marker, and each of its four edges passes through one.
   */
  lemma {:induction false} BoxOfSpec(markers: seq<Marker>)
    ensures BoxOf(markers).None? <==> markers == []
    ensures BoxOf(markers).Some? ==> forall k :: 0 <= k < |markers| ==> Inside(BoxOf(markers).value, markers[k])
    ensures BoxOf(markers).Some? ==>
      && (exists k :: 0 <= k < |markers| && markers[k].lng == BoxOf(markers).value.west)
      && (exists k :: 0 <= k < |markers| && markers[k].lng == BoxOf(markers).value.east)
      && (exists k :: 0 <= k < |markers| && markers[k].lat == BoxOf(markers).value.south)
      && (exists k :: 0 <= k < |markers| && markers[k].lat == BoxOf(markers).value.north)
  {
    if markers != [] {
      var n := |markers| - 1;
      var init := markers[..n];
      BoxOfSpec(init);
      var b := BoxOf(markers).value;
      forall k | 0 <= k < |markers| ensures Inside(b, markers[k]) {
        if k < n {
          assert init[k] == markers[k];
        }
      }
      if init != [] {
        var c := BoxOf(init).value;
        var kw :| 0 <= kw < |init| && init[kw].lng == c.west;
        var ke :| 0 <= ke < |init| && init[ke].lng == c.east;
        var ks :| 0 <= ks < |init| && init[ks].lat == c.south;
        var kn :| 0 <= kn < |init| && init[kn].lat == c.north;
        assert markers[kw] == init[kw] && markers[ke] == init[ke];
        assert markers[ks] == init[ks] && markers[kn] == init[kn];
        assert markers[kw].lng == b.west || markers[n].lng == b.west;
        assert markers[ke].lng == b.east || markers[n].lng == b.east;
        assert markers[ks].lat == b.south || markers[n].lat == b.south;
        assert markers[kn].lat == b.north || markers[n].lat == b.north;
      } else {
        assert markers[n].lng == b.west && markers[n].lat == b.south;
      }
    }
  }

  // ---------------------------------------------------------------------
  // The component

  class MapComponent {
    /** The `places` input. */
    var places: seq<Place>
    /** `this.map` has been constructed. */
    var mapCreated: bool
    /** `this.map.loaded()`. */
    var mapLoaded: bool
    /** The custom markers currently on the map, in the order they were added. */
    var markers: seq<Marker>
    /** The bounds of every `fitBounds` call so far (`None`: bounds never extended). */
    var fits: seq<Option<Box>>
    /** The `[lng, lat]` centre of every `flyTo` call so far. */
    var flights: seq<(real, real)>

    /** The map can only have loaded once it exists. */
    predicate Valid()
      reads this
    {
      mapLoaded ==> mapCreated
    }

    constructor ()
      ensures Valid()
      ensures places == [] && !mapCreated && !mapLoaded && markers == [] && fits == [] && flights == []
    {
      places := [];
      mapCreated := false;
      mapLoaded := false;
      markers := [];
      fits := [];
      flights := [];
    }

    /** `initializeMap`: the map exists but has not loaded yet. */
    method InitializeMap()
      modifies this
      ensures Valid()
      ensures mapCreated && !mapLoaded
      ensures places == old(places) && markers == old(markers) && fits == old(fits) && flights == old(flights)
    {
      mapCreated := true;
      mapLoaded := false;
    }

    /** The map's `load` handler: it adds the markers of the current places. */
    method OnMapLoad()
      requires mapCreated
      modifies this
      ensures Valid() && mapCreated && mapLoaded
      ensures markers == old(markers) + MarkersFor(places)
      ensures fits == old(fits) + (if |places| > 0 then [BoxOf(MarkersFor(places))] else [])
      ensures places == old(places) && flights == old(flights)
    {
      mapLoaded := true;
      AddPlaceMarkers();
    }

    /**
     * `addPlaceMarkers`: a marker for each eligible place, then a fit to
     * the bounds whenever the list is non-empty, even if no place was
     * eligible.
     */
    method AddPlaceMarkers()
      modifies this
      ensures markers == old(markers) + MarkersFor(places)
      ensures fits == old(fits) + (if |places| > 0 then [BoxOf(MarkersFor(places))] else [])
      ensures places == old(places) && mapCreated == old(mapCreated) && mapLoaded == old(mapLoaded)
      ensures flights == old(flights)
    {
      var all := places;
      for i := 0 to |all|
        invariant places == all && fits == old(fits) && flights == old(flights)
        invariant mapCreated == old(mapCreated) && mapLoaded == old(mapLoaded)
        invariant markers == old(markers) + MarkersFor(all[..i])
      {
        var place := all[i];
        MarkersForSnoc(all, i);
        if Eligible(place) {
          markers := markers + [MarkerFor(place)];
        }
      }
      assert all[..|all|] == all;
      if |all| > 0 {
        FitMapToMarkers();
      }
    }

    /** `fitMapToMarkers`: extend the bounds with every eligible place and fit the map to them. */
    method FitMapToMarkers()
      modifies this
      ensures fits == old(fits) + [BoxOf(MarkersFor(places))]
      ensures places == old(places) && markers == old(markers) && flights == old(flights)
      ensures mapCreated == old(mapCreated) && mapLoaded == old(mapLoaded)
    {
      var all := places;
      var bounds: Option<Box> := None;
      for i := 0 to |all|
        invariant places == all && markers == old(markers) && fits == old(fits) && flights == old(flights)
        invariant mapCreated == old(mapCreated) && mapLoaded == old(mapLoaded)
        invariant bounds == BoxOf(MarkersFor(all[..i]))
      {
        var place := all[i];
        MarkersForSnoc(all, i);
        if Eligible(place) {
          BoxOfSnoc(MarkersFor(all[..i]), MarkerFor(place));
          bounds := Extend(bounds, place.longitude, place.latitude);
        } else {
          assert MarkersFor(all[..i]) + [] == MarkersFor(all[..i]);
        }
      }
      assert all[..|all|] == all;
      fits := fits + [bounds];
    }

    /** `clearMarkers`: remove the markers one by one. */
    method ClearMarkers()
      modifies this
      ensures markers == []
      ensures places == old(places) && fits == old(fits) && flights == old(flights)
      ensures mapCreated == old(mapCreated) && mapLoaded == old(mapLoaded)
    {
      while markers != []
        invariant places == old(places) && fits == old(fits) && flights == old(flights)
        invariant mapCreated == old(mapCreated) && mapLoaded == old(mapLoaded)
        decreases |markers|
      {
        markers := markers[1..];
      }
    }

    /**
     * `updatePlaces`: the new list is always kept; once the map has
     * loaded, the markers are exactly those of the new list, none left
     * from before. Before that, the markers are untouched (the `load`
     * handler will draw the new list).
     */
    method UpdatePlaces(newPlaces: seq<Place>)
      requires Valid()
      modifies this
      ensures Valid()
      ensures places == newPlaces
      ensures mapLoaded ==> markers == MarkersFor(newPlaces)
      ensures !mapLoaded ==> markers == old(markers) && fits == old(fits)
      ensures mapLoaded ==> fits == old(fits) + (if |newPlaces| > 0 then [BoxOf(MarkersFor(newPlaces))] else [])
      ensures mapCreated == old(mapCreated) && mapLoaded == old(mapLoaded) && flights == old(flights)
    {
      places := newPlaces;
      if mapCreated && mapLoaded {
        ClearMarkers();
        AddPlaceMarkers();
      }
    }

    /** `centerOnPlace`: fly to an eligible place, provided the map exists. */
    method CenterOnPlace(place: Place)
      modifies this
      ensures Eligible(place) && mapCreated ==> flights == old(flights) + [(place.longitude, place.latitude)]
      ensures !(Eligible(place) && mapCreated) ==> flights == old(flights)
      ensures places == old(places) && markers == old(markers) && fits == old(fits)
      ensures mapCreated == old(mapCreated) && mapLoaded == old(mapLoaded)
    {
      if place.latitude != 0.0 && place.longitude != 0.0 && mapCreated {
        flights := flights + [(place.longitude, place.latitude)];
      }
    }
  }

  /**
   * After an update on a loaded map there is one marker per eligible new
   * place and no more markers than places; the fitted box holds them all.
   */
  lemma UpdatedMarkers(newPlaces: seq<Place>, markers: seq<Marker>)
    requires markers == MarkersFor(newPlaces)
    ensures |markers| <= |newPlaces|
    ensures forall k :: 0 <= k < |newPlaces| && Eligible(newPlaces[k]) ==> MarkerFor(newPlaces[k]) in markers
    ensures markers != [] ==> forall j :: 0 <= j < |markers| ==> Inside(BoxOf(markers).value, markers[j])
  {
    MarkersForBound(newPlaces);
    MarkersForMembers(newPlaces);
    BoxOfSpec(markers);
  }
}
