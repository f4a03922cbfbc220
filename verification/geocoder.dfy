/** Selection of the most relevant geocoder hit and the parsing of its
    "lon lat" position string (`fetch_coordinates` in main.py, without the
    HTTP request and the JSON decoding). */
module Geocoder {
  import opened Results

  const Space: char := ' '

  /** One element of `featureMember`; only `GeoObject.Point.pos` is read. */
  datatype Place = Place(pos: string)

  /** The origin as the geocoder reports it: two strings, longitude first. */
  datatype Pos = Pos(lon: string, lat: string)

  /** Number of space characters in `s`. */
  function Spaces(s: string): nat
  {
    if |s| == 0 then 0
    else (if s[0] == Space then 1 else 0) + Spaces(s[1..])
  }

  /** Python's `s.split(" ")`: cut at every single space, keeping empty
      fields, so the result is never empty. */
  function Split(s: string): (parts: seq<string>)
    ensures |parts| == Spaces(s) + 1
  {
    if |s| == 0 then [""]
    else
      var rest := Split(s[1..]);
      if s[0] == Space then [""] + rest
      else [[s[0]] + rest[0]] + rest[1..]
  }

  /** Python's `" ".join(parts)`, the inverse of `Split`. */
  function Join(parts: seq<string>): string
    requires |parts| >= 1
  {
    if |parts| == 1 then parts[0]
    else parts[0] + [Space] + Join(parts[1..])
  }

  predicate NoSpace(s: string)
  {
    forall i :: 0 <= i < |s| ==> s[i] != Space
  }

  /** No field of a split holds a space. */
  lemma {:induction false} SplitShape(s: string)
    ensures forall k :: 0 <= k < |Split(s)| ==> NoSpace(Split(s)[k])
  {
    if |s| > 0 {
      SplitShape(s[1..]);
      var rest := Split(s[1..]);
      if s[0] != Space {
        forall k | 0 <= k < |Split(s)|
          ensures NoSpace(Split(s)[k])
        {
          if k == 0 {
            assert NoSpace(rest[0]);
          } else {
            assert Split(s)[k] == rest[k];
          }
        }
      }
    }
  }

  /** Joining the fields of a split gives back the original string. */
  lemma {:induction false} JoinSplit(s: string)
    ensures Join(Split(s)) == s
  {
    if |s| > 0 {
      JoinSplit(s[1..]);
      var rest := Split(s[1..]);
      if s[0] == Space {
        assert Split(s)[1..] == rest;
      } else {
        if |rest| == 1 {
          assert Split(s) == [[s[0]] + rest[0]];
        } else {
          assert Split(s)[1..] == rest[1..];
          assert Join(rest) == rest[0] + [Space] + Join(rest[1..]);
        }
      }
      assert s == [s[0]] + s[1..];
    }
  }

  /** Splitting a join of space-free fields gives back the fields. */
  lemma {:induction false} SplitJoin(parts: seq<string>)
    requires |parts| >= 1
    requires forall k :: 0 <= k < |parts| ==> NoSpace(parts[k])
    ensures Split(Join(parts)) == parts
  {
    if |parts| == 1 {
      SplitNoSpace(parts[0]);
    } else {
      SplitJoin(parts[1..]);
      SplitPrefix(parts[0], Join(parts[1..]));
      assert [""] + parts[1..] == [""] + Split(Join(parts[1..]));
    }
  }

  /** A space-free string splits into itself. */
  lemma {:induction false} SplitNoSpace(s: string)
    requires NoSpace(s)
    ensures Split(s) == [s]
  {
    if |s| > 0 {
      SplitNoSpace(s[1..]);
      assert [s[0]] + s[1..] == s;
    }
  }

  /** A space-free field followed by a space becomes the first part. */
  lemma {:induction false} SplitPrefix(a: string, b: string)
    requires NoSpace(a)
    ensures Split(a + [Space] + b) == [a] + Split(b)
  {
    if |a| == 0 {
      assert a + [Space] + b == [Space] + b;
      assert ([Space] + b)[1..] == b;
    } else {
      SplitPrefix(a[1..], b);
      assert (a + [Space] + b)[1..] == a[1..] + [Space] + b;
      assert [a[0]] + a[1..] == a;
    }
  }

  /** `fetch_coordinates` after the response is decoded: no hit gives
      `None`; otherwise the first hit's "pos" must split into exactly two
      fields, returned as longitude then latitude. */
  function FetchCoordinates(places: seq<Place>): (r: Result<Option<Pos>, Error>)
    ensures |places| == 0 <==> r == Ok(None)
    ensures r.Err? <==> |places| > 0 && Spaces(places[0].pos) != 1
    ensures r.Err? ==> r.error == PosNotTwoParts(Spaces(places[0].pos) + 1)
  {
    if |places| == 0 then Ok(None)
    else
      var parts := Split(places[0].pos);
      if |parts| != 2 then Err(PosNotTwoParts(|parts|))
      else Ok(Some(Pos(parts[0], parts[1])))
  }

  /** The geocoder yields a position exactly when there is a hit whose
      "pos" is two space-free fields joined by one space; those fields are
      then the longitude and the latitude, in that order. */
  lemma FetchCoordinatesFound(places: seq<Place>, lon: string, lat: string)
    ensures FetchCoordinates(places) == Ok(Some(Pos(lon, lat)))
        <==> |places| > 0 && places[0].pos == lon + [Space] + lat
             && NoSpace(lon) && NoSpace(lat)
  {
    if |places| > 0 {
      var s := places[0].pos;
      SplitShape(s);
      JoinSplit(s);
      if s == lon + [Space] + lat && NoSpace(lon) && NoSpace(lat) {
        SplitJoin([lon, lat]);
        assert Join([lon, lat]) == s;
      }
    }
  }
}
