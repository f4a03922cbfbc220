# Nearest cafes: a Dafny model of the ranking pipeline

The program asks for an address and geocodes it with the Yandex geocoder.
It reads a list of cafes from a JSON file, computes the geodesic distance
from the user to each cafe and keeps the five nearest. It then draws them
on a folium map and serves that map with Flask. This project models the
logic between the I/O steps:

- `Geocoder` covers `fetch_coordinates` once the response is decoded. It
  selects the first hit, splits its `pos` string the way Python's
  `str.split(" ")` does, and unpacks exactly two fields as longitude and
  latitude.
- `Records` covers the record loop of `main` and `calculate_distance`'s
  handling of its arguments. Each cafe becomes a `Ranked` record with title,
  distance, latitude and longitude. The geodesic receives (latitude,
  longitude) pairs, origin first.
- `Ranking` covers `get_coffee_distance`: Python's stable `sorted` by
  distance, then the slice `[:5]`. The sort is modelled as a functional
  stable insertion sort. Stability is stated as "every run of equal
  distances keeps its order" (`SameRuns`). `StableSortUnique` shows that
  sortedness plus stability pin the result down completely, so the model
  agrees with any stable sort, including Python's.
- `Pipeline` chains these steps the way `main` does, up to the point where
  the map is centred on the origin. Its result is either the selected
  cafes or the first exception the run raises (`Results.Error`).
- `Scenarios` holds concrete examples.

Modelling decisions:

- Distances and cafe coordinates are `real`. Python floats are treated as
  exact reals without NaN, so the distance order is total.
- The cafe loop converts coordinates to text with `str` and back with
  `float`. That round trip is exact for Python floats, so the model uses the
  numbers directly.
- The origin stays a pair of strings, as `fetch_coordinates` returns it.
  Python's `float` on those strings is the parameter `toFloat`.
- The geodesic (geopy) is the parameter `geodesic`.
- An empty geocoder answer does not let the run go on with a null
  coordinate. If there are no cafes, the map centre subscripts `None`
  (main.py:73) and the run stops with a TypeError, which the model calls
  `NoOrigin`. If the first cafe lacks two coordinates, reading them
  (main.py:61-62) raises an IndexError first, which the model calls
  `MissingCoordinate(0)`. Otherwise `calculate_distance` subscripts `None`
  on the first cafe (main.py:63), again a TypeError (`NoOrigin`). In every
  case `NearestCafes` fails when there are no hits.

## Model

| member | source | states |
|---|---|---|
| Geocoder.Split | main.py:26 | `str.split(" ")` yields exactly one field more than the string has spaces |
| Geocoder.SplitShape | main.py:26 | no field produced by the split contains a space |
| Geocoder.JoinSplit | main.py:26 | joining the fields with single spaces gives back the original `pos` string: the split loses nothing |
| Geocoder.SplitJoin | main.py:26 | splitting space-free fields joined by single spaces gives back exactly those fields |
| Geocoder.FetchCoordinates | main.py:19-27 | an empty `featureMember` list, and only that, gives `None`; the two-name unpack fails exactly when the first hit's `pos` does not contain exactly one space, and the error reports its field count |
| Geocoder.FetchCoordinatesFound | main.py:22-27 | the result is `(lon, lat)` exactly when the first hit's `pos` is `lon`, one space, `lat`, both space-free; later hits are ignored |
| Records.OriginPoint | main.py:30-34 | converting the origin fails with TypeError on `None`; otherwise the latitude is converted first and a ValueError names it, then the longitude, and a ValueError names that; on success the result is (latitude, longitude) |
| Records.BuildFrom | main.py:59-69 | the loop from cafe `i` on yields one record per remaining cafe with that cafe's fields, or fails at the first cafe lacking two coordinates, or at its first cafe when the origin cannot be converted; an IndexError from a later cafe is reached only when the origin converts |
| Records.BuildRecords | main.py:59-69 | one record per cafe in input order: title = `Name`, longitude = `coordinates[0]`, latitude = `coordinates[1]`, distance = geodesic from the origin's (lat, lon) to the cafe's (lat, lon); it succeeds exactly when every cafe has two coordinates and, if there is a cafe, the origin converts; on failure the error is the one the loop raises first |
| Ranking.GetCoffeeDistance | main.py:37-38 | returns `min(5, n)` records, sorted by distance, a sub-multiset of the input; no left-out record is nearer than a returned one; each run of equal distance is a prefix of that run in the input |
| Ranking.Insert | main.py:38 | inserting adds exactly one element; `InsertSpec` states where it goes and that the runs of equal distance keep their order |
| Ranking.SortByDistance | main.py:38 | Python's `sorted` with key `distance` keeps the number of records; `SortByDistanceSpec` and `StableSortUnique` state that it is the stable sort |
| Ranking.InsertSpec | main.py:38 | inserting keeps the length and the elements and preserves sortedness; the inserted element comes first in its run of equal distance |
| Ranking.SortByDistanceSpec | main.py:38 | the stable sort is a sorted permutation of its input that keeps every run of equal distances in input order |
| Ranking.SortedRunsDetermine | main.py:38 | two sorted sequences with the same runs of equal distance are equal |
| Ranking.StableSortUnique | main.py:38 | a sequence is the stable sort of the input if and only if it is sorted and has the input's runs of equal distance |
| Ranking.PrefixOfSorted | main.py:38 | a prefix of a sorted sequence is sorted, is contained in it, and is never farther than anything left out |
| Ranking.WithDistancePrefix | main.py:38 | the runs of a prefix are prefixes of the runs of the whole |
| Pipeline.NearestCafes | main.py:52-73 | with no geocoder hit the run fails; on success it yields `min(5, n)` records sorted by distance, each carrying the name and coordinates of some cafe of the file unchanged |
| Pipeline.KeptRecordsFromCafes | main.py:59-71 | any records kept from the loop's one-record-per-cafe output each carry the name and coordinates of some cafe |
| Pipeline.NearestCafesAreNearest | main.py:59-71 | on success the selection is `get_coffee_distance` applied to the records built from the cafes, so each record is at its geodesic distance; it takes no record more often than it occurs, and no record left out is nearer than a selected one |
| Pipeline.NearestCafesSucceeds | main.py:52-73 | with the geodesic taken as a total function, a run reaches the map exactly when there is a hit and the first hit's `pos` has one space, both fields pass `float`, and every cafe has two coordinates |
| Scenarios.ThreeCafes | main.py:37-38 | cafes at 1.2, 5.0 and 0.3 km all come back, ordered 0.3, 1.2, 5.0 |
| Scenarios.OneHit | main.py:22-27 | with two hits, the first one's `pos` "37.6 55.7" gives longitude "37.6" and latitude "55.7" |
| Scenarios.DoubleSpace | main.py:26 | a `pos` with two spaces between the numbers splits into three fields and the unpack fails |

## Left out

- The HTTP request to the geocoder, `raise_for_status` and the JSON decoding of the response (main.py:13-20) are network I/O. A failed request is not an `Error` of the model.
- Missing keys in the decoded JSON (`response`, `GeoObject`, `Point`, `pos`, `Name`, `geoData`) are not modelled. The decoded data are typed records, so a KeyError cannot arise in the model. The cafe coordinates are typed as numbers, so the loop's `float(str(...))` on them (main.py:61-63, 33) cannot fail in the model. A non-numeric JSON value such as `null` would make it raise a ValueError in the source.
- The geodesic computation in geopy (main.py:31-34) is a foreign library with float numerics. It is the total parameter `geodesic`, so its symmetry and its zero distance from a point to itself are not stated.
- NearestCafesSucceeds: geopy raises a ValueError when it builds a point with a latitude outside [-90, 90] or a coordinate that is not finite. The total `geodesic` parameter cannot fail, so this error path is not modelled and the "exactly when" holds only for points geopy accepts.
- Python's `float` on the geocoder's strings is the parameter `toFloat`. Which strings it accepts is not modelled.
- Reading the data file with cp1251 decoding, `json.loads`, `load_dotenv`, `os.getenv` and `input` (main.py:47-57) are environment and file I/O.
- Folium rendering, the popup text with `:.2f`, and `m.save` (main.py:73-89) are a rendering library, float formatting and a file write. Only the origin conversion for the map centre is kept, because it can fail.
- The Flask app and `hello_world` (main.py:41-43, 91-93) are server plumbing.
- The input list is not modified by `get_coffee_distance`. In the model this holds by construction, because sequences are values, so no member states it.
- Floating point: distances are exact reals, and NaN, whose comparisons would break the total order, is not modelled.
