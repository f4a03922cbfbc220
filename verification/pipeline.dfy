/** The ranking part of `main`: geocode, build one record per cafe, keep
    the five nearest, then centre the map on the origin. Reading the data
    file, rendering and serving the map are not modelled; a run either
    reaches the map with the selected cafes or stops with the error it
    raised first. */
module Pipeline {
  import opened Results
  import opened Geocoder
  import opened Ranking
  import opened Records

  /** The cafes `main` puts on the map, or the error that ends the run. */
  function NearestCafes(places: seq<Place>, cafes: seq<Cafe>,
                        toFloat: ParseFloat, geodesic: Geodesic): (r: Result<seq<Ranked>, Error>)
    ensures |places| == 0 ==> r.Err?
    ensures r.Ok? ==> |r.value| == Min(Limit, |cafes|) && Sorted(r.value)
    ensures r.Ok? ==> forall x :: x in r.value ==>
              exists j :: 0 <= j < |cafes| && FromCafe(x, cafes[j])
  {
    var coords :- FetchCoordinates(places);
    var results :- BuildRecords(coords, cafes, toFloat, geodesic);
    var closest := GetCoffeeDistance(results);
    var centre :- OriginPoint(coords, toFloat);
    KeptRecordsFromCafes(results, cafes, closest);
    Ok(closest)
  }

  /** Records kept from one record per cafe each carry some cafe's data. */
  lemma KeptRecordsFromCafes(rs: seq<Ranked>, cafes: seq<Cafe>, kept: seq<Ranked>)
    requires |rs| == |cafes| && forall k :: 0 <= k < |cafes| ==> FromCafe(rs[k], cafes[k])
    requires multiset(kept) <= multiset(rs)
    ensures forall x :: x in kept ==> exists j :: 0 <= j < |cafes| && FromCafe(x, cafes[j])
  {
    forall x | x in kept
      ensures exists j :: 0 <= j < |cafes| && FromCafe(x, cafes[j])
    {
      assert x in multiset(kept);
      assert x in multiset(rs);
      var j :| 0 <= j < |rs| && rs[j] == x;
    }
  }

  /** A run reaches the map exactly when the geocoder found something, its
      first hit's position is two fields that `float` accepts, and every
      cafe has both coordinates. The geodesic is a total parameter here,
      so a point it would reject is not among the ways to fail. */
  lemma NearestCafesSucceeds(places: seq<Place>, cafes: seq<Cafe>,
                             toFloat: ParseFloat, geodesic: Geodesic)
    ensures NearestCafes(places, cafes, toFloat, geodesic).Ok? <==>
              && |places| > 0
              && Spaces(places[0].pos) == 1
              && toFloat(Split(places[0].pos)[0]).Some?
              && toFloat(Split(places[0].pos)[1]).Some?
              && AllLocated(cafes)
  {
  }

  /** The cafes a run selects are the nearest ones: they are taken from the
      records of the data file (each at most as often as it occurs there,
      each at its geodesic distance from the origin), and no record left
      out is nearer than a selected one. */
  lemma NearestCafesAreNearest(places: seq<Place>, cafes: seq<Cafe>,
                               toFloat: ParseFloat, geodesic: Geodesic)
    ensures var r := NearestCafes(places, cafes, toFloat, geodesic);
            r.Ok? ==>
              && FetchCoordinates(places).Ok?
              && var rs := BuildRecords(FetchCoordinates(places).value, cafes, toFloat, geodesic);
              && rs.Ok?
              && r.value == GetCoffeeDistance(rs.value)
              && multiset(r.value) <= multiset(rs.value)
              && forall x, y :: x in multiset(rs.value) - multiset(r.value) && y in r.value
                   ==> y.distance <= x.distance
  {
  }
}
