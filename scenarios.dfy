/** Small worked tables showing the load, the option lists and the callback on concrete values. */
module Scenarios {
  import opened Wrappers
  import opened Ordering
  import opened Selection
  import opened Sightings
  import opened Options
  import opened Filter

  /** A located sighting with the given country, shape, year and duration. */
  function Sighting(country: string, shape: string, year: Option<int>, duration: Option<real>): Row {
    Row(None, year, Some(0.0), Some(0.0), duration, Some(country), Some(shape), None)
  }

  /**
   * Each column of a record is coerced from its own cell, and the year comes
   * from the timestamp; a datetime that does not parse leaves both missing.
   */
  lemma CoerceScenario()
    ensures var parseTimestamp := (s: string) => if s == "7/4/1997 21:30" then Some(Timestamp(1997, 7, 4, 21, 30, 0)) else None;
            var parseNumber := (s: string) => if s == "1.5" then Some(1.5) else if s == "2.5" then Some(2.5)
                                              else if s == "300" then Some(300.0) else None;
            var raw := RawRecord("7/4/1997 21:30", "1.5", "2.5", "300", Some("us"), Some("disk"), Some("austin"));
            Coerce(raw, parseTimestamp, parseNumber)
            == Row(Some(Timestamp(1997, 7, 4, 21, 30, 0)), Some(1997), Some(1.5), Some(2.5), Some(300.0),
                   Some("us"), Some("disk"), Some("austin"))
    ensures var parseTimestamp := (s: string) => if s == "7/4/1997 21:30" then Some(Timestamp(1997, 7, 4, 21, 30, 0)) else None;
            var parseNumber := (s: string) => if s == "1.5" then Some(1.5) else if s == "2.5" then Some(2.5)
                                              else if s == "300" then Some(300.0) else None;
            var raw := RawRecord("sometime in 1997", "1.5", "2.5", "300", Some("us"), Some("disk"), Some("austin"));
            Coerce(raw, parseTimestamp, parseNumber)
            == Row(None, None, Some(1.5), Some(2.5), Some(300.0), Some("us"), Some("disk"), Some("austin"))
  {
  }

  lemma YearOptionMembership(t: seq<Row>, y: int)
    requires |t| == 3 && t[0].year == Some(2005) && t[1].year == Some(1990) && t[2].year == Some(1997)
    ensures y in YearOptions(t) <==> y in [1990, 1997, 2005]
  {
    if y in YearOptions(t) {
      var i :| 0 <= i < |t| && t[i].year == Some(y);
      assert i == 0 || i == 1 || i == 2;
    }
    if y == 1990 || y == 1997 || y == 2005 {
      var i := if y == 2005 then 0 else if y == 1990 then 1 else 2;
      assert t[i].year == Some(y);
    }
  }

  /** Years 2005, 1990, 1997 give the year options 1990, 1997, 2005: ascending, without repeats. */
  lemma YearOptionScenario(t: seq<Row>)
    requires |t| == 3 && t[0].year == Some(2005) && t[1].year == Some(1990) && t[2].year == Some(1997)
    ensures YearOptions(t) == [1990, 1997, 2005]
  {
    forall y
      ensures y in YearOptions(t) <==> y in [1990, 1997, 2005]
    {
      YearOptionMembership(t, y);
    }
    IntLessIsStrictTotalOrder();
    StrictlySortedDetermined(YearOptions(t), [1990, 1997, 2005], IntLess);
  }

  lemma CountryOptionMembership(t: seq<Row>, c: string)
    requires |t| == 3 && t[0].country == Some("us") && t[1].country == Some("gb") && t[2].country == Some("us")
    ensures c in CountryOptions(t) <==> c in ["gb", "us"]
  {
    if c in CountryOptions(t) {
      var i :| 0 <= i < |t| && t[i].country == Some(c);
      assert i == 0 || i == 1 || i == 2;
    }
    if c == "gb" || c == "us" {
      var i := if c == "us" then 0 else 1;
      assert t[i].country == Some(c);
    }
  }

  /** Countries us, gb, us give the country options gb, us: Python's string order, without repeats. */
  lemma CountryOptionScenario(t: seq<Row>)
    requires |t| == 3 && t[0].country == Some("us") && t[1].country == Some("gb") && t[2].country == Some("us")
    ensures CountryOptions(t) == ["gb", "us"]
  {
    forall c
      ensures c in CountryOptions(t) <==> c in ["gb", "us"]
    {
      CountryOptionMembership(t, c);
    }
    StrLessIsStrictTotalOrder();
    assert StrLess("gb", "us") by { assert "gb"[0] < "us"[0]; }
    StrictlySortedDetermined(CountryOptions(t), ["gb", "us"], StrLess);
  }

  /** Only the listed country's rows are plotted, and the counter shows how many. */
  lemma CountryScenario()
    ensures var t := [Sighting("us", "disk", Some(1997), Some(60.0)),
                      Sighting("gb", "disk", Some(1997), Some(60.0)),
                      Sighting("us", "light", Some(2001), Some(120.0))];
            var c := Criteria(Some(["us"]), None, None, None, 0.0, 600.0);
            UpdateMapRows(t, c) == [t[0], t[2]] && UpdateMapCount(t, c) == 2
  {
  }

  /** Years 1995 to 2000 keep 1995, 1997 and 2000: both ends are included. */
  lemma YearRangeScenario()
    ensures var t := [Sighting("us", "disk", Some(1990), Some(60.0)),
                      Sighting("us", "disk", Some(1995), Some(60.0)),
                      Sighting("us", "disk", Some(1997), Some(60.0)),
                      Sighting("us", "disk", Some(2000), Some(60.0)),
                      Sighting("us", "disk", Some(2005), Some(60.0))];
            UpdateMapRows(t, Criteria(None, None, Some(1995), Some(2000), 0.0, 600.0)) == [t[1], t[2], t[3]]
  {
    var t := [Sighting("us", "disk", Some(1990), Some(60.0)),
              Sighting("us", "disk", Some(1995), Some(60.0)),
              Sighting("us", "disk", Some(1997), Some(60.0)),
              Sighting("us", "disk", Some(2000), Some(60.0)),
              Sighting("us", "disk", Some(2005), Some(60.0))];
    var p := (r: Row) => Matches(Criteria(None, None, Some(1995), Some(2000), 0.0, 600.0), r);
    assert !p(t[0]) && p(t[1]) && p(t[2]) && p(t[3]) && !p(t[4]);
    assert Select(t[4..], p) == [];
    assert Select(t[3..], p) == [t[3]];
    assert Select(t[2..], p) == [t[2], t[3]];
    assert Select(t[1..], p) == [t[1], t[2], t[3]];
  }

  /** A start year without an end year keeps every row. */
  lemma OneSidedYearScenario()
    ensures var t := [Sighting("us", "disk", Some(1990), Some(60.0)),
                      Sighting("us", "disk", Some(1997), Some(60.0)),
                      Sighting("us", "disk", Some(2005), Some(60.0))];
            UpdateMapRows(t, Criteria(None, None, Some(1995), None, 0.0, 600.0)) == t
  {
  }

  /**
   * A duration range of 0 to 600 seconds keeps 0, 300 and 600 seconds (both
   * ends included) and drops a missing, a negative and a too long duration.
   */
  lemma DurationScenario()
    ensures var t := [Sighting("us", "disk", Some(1997), None),
                      Sighting("us", "disk", Some(1997), Some(-5.0)),
                      Sighting("us", "disk", Some(1997), Some(0.0)),
                      Sighting("us", "disk", Some(1997), Some(300.0)),
                      Sighting("us", "disk", Some(1997), Some(600.0)),
                      Sighting("us", "disk", Some(1997), Some(900.0))];
            UpdateMapRows(t, Criteria(None, None, None, None, 0.0, 600.0)) == [t[2], t[3], t[4]]
  {
    var t := [Sighting("us", "disk", Some(1997), None),
              Sighting("us", "disk", Some(1997), Some(-5.0)),
              Sighting("us", "disk", Some(1997), Some(0.0)),
              Sighting("us", "disk", Some(1997), Some(300.0)),
              Sighting("us", "disk", Some(1997), Some(600.0)),
              Sighting("us", "disk", Some(1997), Some(900.0))];
    var p := (r: Row) => Matches(Criteria(None, None, None, None, 0.0, 600.0), r);
    assert !p(t[0]) && !p(t[1]) && p(t[2]) && p(t[3]) && p(t[4]) && !p(t[5]);
    assert Select(t[4..], p) == [t[4]];
    assert Select(t[3..], p) == [t[3], t[4]];
    assert Select(t[2..], p) == [t[2], t[3], t[4]];
  }
}
