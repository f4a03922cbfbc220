/** Turning the cafes of the data file into ranked records (the loop in
    `main`) and the distance call it makes (`calculate_distance`). The
    geodesic itself and Python's `float` are parameters. */
module Records {
  import opened Results
  import opened Geocoder
  import opened Ranking

  /** A cafe of the data file: its `Name` and its `geoData.coordinates`
      list, longitude first. The list is not checked when it is read. */
  datatype Cafe = Cafe(name: string, coordinates: seq<real>)

  /** A point in the order the geodesic takes it: latitude first. */
  datatype LatLon = LatLon(lat: real, lon: real)

  /** Python's `float` on a string: `None` when it raises. */
  type ParseFloat = string -> Option<real>

  /** The geodesic distance in kilometres. */
  type Geodesic = (LatLon, LatLon) -> real

  /** The origin converted the way `calculate_distance` and the map centre
      convert it: subscripting fails on `None`, then the latitude (index 1)
      is converted before the longitude (index 0). */
  function OriginPoint(origin: Option<Pos>, toFloat: ParseFloat): (r: Result<LatLon, Error>)
    ensures r.Ok? <==> origin.Some? && toFloat(origin.value.lat).Some?
                                    && toFloat(origin.value.lon).Some?
    ensures r.Ok? ==> r.value == LatLon(toFloat(origin.value.lat).value,
                                        toFloat(origin.value.lon).value)
    ensures origin.None? ==> r == Err(NoOrigin)
    ensures origin.Some? && toFloat(origin.value.lat).None?
            ==> r == Err(NotANumber(origin.value.lat))
    ensures origin.Some? && toFloat(origin.value.lat).Some? && toFloat(origin.value.lon).None?
            ==> r == Err(NotANumber(origin.value.lon))
  {
    match origin
    case None => Err(NoOrigin)
    case Some(p) =>
      match toFloat(p.lat)
      case None => Err(NotANumber(p.lat))
      case Some(lat) =>
        match toFloat(p.lon)
        case None => Err(NotANumber(p.lon))
        case Some(lon) => Ok(LatLon(lat, lon))
  }

  /** Whether every cafe carries at least a longitude and a latitude. */
  predicate AllLocated(cafes: seq<Cafe>)
  {
    forall i :: 0 <= i < |cafes| ==> |cafes[i].coordinates| >= 2
  }

  /** `x` carries the name and the coordinates of cafe `c`, unchanged. */
  predicate FromCafe(x: Ranked, c: Cafe)
  {
    && |c.coordinates| >= 2
    && x.title == c.name
    && x.longitude == c.coordinates[0]
    && x.latitude == c.coordinates[1]
  }

  /** The record of one cafe at distance `distance` from the origin. */
  function RecordOf(c: Cafe, distance: real): Ranked
    requires |c.coordinates| >= 2
  {
    Ranked(c.name, distance, c.coordinates[1], c.coordinates[0])
  }

  /** The record loop from cafe `i` on. For each cafe the coordinates are
      read first (an IndexError when fewer than two), then the distance is
      computed from the origin (whose conversion may fail). */
  function BuildFrom(origin: Option<Pos>, cafes: seq<Cafe>, i: nat,
                     toFloat: ParseFloat, geodesic: Geodesic): (r: Result<seq<Ranked>, Error>)
    requires i <= |cafes|
    ensures r.Ok? ==> |r.value| == |cafes| - i
    ensures r.Ok? ==> forall k :: i <= k < |cafes| ==> |cafes[k].coordinates| >= 2
    ensures r.Ok? && i < |cafes| ==> OriginPoint(origin, toFloat).Ok?
    ensures r.Ok? ==> forall k :: 0 <= k < |r.value| ==>
              r.value[k] == RecordOf(cafes[i + k], geodesic(OriginPoint(origin, toFloat).value,
                                                            LatLon(cafes[i + k].coordinates[1],
                                                                   cafes[i + k].coordinates[0])))
    ensures r.Err? && r.error.MissingCoordinate? ==>
              i <= r.error.index < |cafes| && |cafes[r.error.index].coordinates| < 2
              && forall k :: i <= k < r.error.index ==> |cafes[k].coordinates| >= 2
    ensures r.Err? && r.error.MissingCoordinate? && r.error.index > i
            ==> OriginPoint(origin, toFloat).Ok?
    ensures r.Err? && !r.error.MissingCoordinate? ==>
              i < |cafes| && |cafes[i].coordinates| >= 2
              && OriginPoint(origin, toFloat) == Err(r.error)
    ensures r.Err? ==> !AllLocated(cafes[i..]) || (i < |cafes| && OriginPoint(origin, toFloat).Err?)
    decreases |cafes| - i
  {
    if i == |cafes| then Ok([])
    else
      var c := cafes[i];
      if |c.coordinates| < 2 then Err(MissingCoordinate(i))
      else
        var o :- OriginPoint(origin, toFloat);
        var rest :- BuildFrom(origin, cafes, i + 1, toFloat, geodesic);
        Ok([RecordOf(c, geodesic(o, LatLon(c.coordinates[1], c.coordinates[0])))] + rest)
  }

  /** The whole record loop: one record per cafe, in input order, with the
      cafe's name as title, `coordinates[1]` as latitude, `coordinates[0]`
      as longitude, and its geodesic distance from the origin. The loop
      fails at the first cafe without two coordinates, or at the first
      cafe when the origin cannot be converted; a later cafe's missing
      coordinate is reached only when the origin converts. */
  function BuildRecords(origin: Option<Pos>, cafes: seq<Cafe>,
                        toFloat: ParseFloat, geodesic: Geodesic): (r: Result<seq<Ranked>, Error>)
    ensures r.Ok? <==> AllLocated(cafes) && (|cafes| == 0 || OriginPoint(origin, toFloat).Ok?)
    ensures r.Ok? ==> |r.value| == |cafes|
    ensures r.Ok? ==> forall k :: 0 <= k < |cafes| ==>
              && FromCafe(r.value[k], cafes[k])
              && r.value[k].distance == geodesic(OriginPoint(origin, toFloat).value,
                                                 LatLon(cafes[k].coordinates[1], cafes[k].coordinates[0]))
    ensures r.Err? && r.error.MissingCoordinate? ==>
              r.error.index < |cafes| && |cafes[r.error.index].coordinates| < 2
              && forall k :: 0 <= k < r.error.index ==> |cafes[k].coordinates| >= 2
    ensures r.Err? && r.error.MissingCoordinate? && r.error.index > 0
            ==> OriginPoint(origin, toFloat).Ok?
    ensures r.Err? && !r.error.MissingCoordinate? ==>
              |cafes| > 0 && |cafes[0].coordinates| >= 2 && OriginPoint(origin, toFloat) == Err(r.error)
  {
    assert cafes[0..] == cafes;
    BuildFrom(origin, cafes, 0, toFloat, geodesic)
  }
}
