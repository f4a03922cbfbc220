/** Worked examples of the ranking and of the geocoder parsing. */
module Scenarios {
  import opened Results
  import opened Geocoder
  import opened Ranking

  function RankedAt(title: string, distance: real): Ranked
  {
    Ranked(title, distance, 55.75, 37.61)
  }

  /** Three cafes at 1.2, 5.0 and 0.3 km all come back, nearest first. */
  lemma ThreeCafes()
    ensures var a, b, c := RankedAt("A", 1.2), RankedAt("B", 5.0), RankedAt("C", 0.3);
            GetCoffeeDistance([a, b, c]) == [c, a, b]
  {
    var a, b, c := RankedAt("A", 1.2), RankedAt("B", 5.0), RankedAt("C", 0.3);
    assert SortByDistance([c]) == [c];
    assert [b, c][1..] == [c];
    assert SortByDistance([b, c]) == Insert(b, [c]) == [c, b];
    assert [a, b, c][1..] == [b, c];
    assert Insert(a, [c, b]) == [c] + Insert(a, [b]) == [c, a, b];
  }

  /** A first hit at "37.6 55.7" gives the longitude then the latitude. */
  lemma OneHit()
    ensures FetchCoordinates([Place("37.6 55.7"), Place("30.3 59.9")])
              == Ok(Some(Pos("37.6", "55.7")))
  {
    FetchCoordinatesFound([Place("37.6 55.7"), Place("30.3 59.9")], "37.6", "55.7");
    assert "37.6 55.7" == "37.6" + [Space] + "55.7";
  }

  /** Two spaces between the numbers make three fields, and the unpack
      into two names fails. */
  lemma DoubleSpace()
    ensures FetchCoordinates([Place("37.6  55.7")]) == Err(PosNotTwoParts(3))
  {
  }
}
