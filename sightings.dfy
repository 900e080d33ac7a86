/**
 * The sightings table and its one-time load: every field of a raw record is
 * coerced to a nullable value, the year is derived from the timestamp, and
 * the rows whose latitude or longitude is missing are dropped for good.
 */
module Sightings {
  import opened Wrappers
  import opened Selection

  /** A parsed `datetime` value; only its year is read by the dashboard. */
  datatype Timestamp = Timestamp(year: int, month: int, day: int, hour: int, minute: int, second: int)

  /** One line of the CSV source, already split into its named columns. */
  datatype RawRecord = RawRecord(
    datetime: string,
    latitude: string,
    longitude: string,
    duration: string,
    country: Option<string>,
    shape: Option<string>,
    city: Option<string>)

  /** One row of the table after coercion; a failed parse is a missing value. */
  datatype Row = Row(
    datetime: Option<Timestamp>,
    year: Option<int>,
    latitude: Option<real>,
    longitude: Option<real>,
    duration: Option<real>,
    country: Option<string>,
    shape: Option<string>,
    city: Option<string>)

  /** `pd.to_datetime(..., errors='coerce')`: text to a timestamp, or missing. */
  type TimestampParser = string -> Option<Timestamp>

  /** `pd.to_numeric(..., errors='coerce')`: text to a number, or missing. */
  type NumberParser = string -> Option<real>

  /** The nullable-integer year of a nullable timestamp (`.dt.year` cast to `Int64`). */
  function YearOf(datetime: Option<Timestamp>): Option<int> {
    match datetime
    case None => None
    case Some(t) => Some(t.year)
  }

  /** The year column agrees with the datetime column. */
  predicate YearDerived(r: Row) {
    r.year == YearOf(r.datetime)
  }

  /** The row has both coordinates; `dropna(subset=['latitude', 'longitude'])` keeps exactly these. */
  predicate HasCoordinates(r: Row) {
    r.latitude.Some? && r.longitude.Some?
  }

  /**
   * The column assignments of the load, applied to one record. A datetime
   * that does not parse leaves the year missing (`NaT` gives `<NA>`).
   */
  function Coerce(raw: RawRecord, parseTimestamp: TimestampParser, parseNumber: NumberParser): (r: Row)
    ensures YearDerived(r)
    ensures r.year.None? <==> parseTimestamp(raw.datetime).None?
    ensures parseTimestamp(raw.datetime).Some? ==> r.year == Some(parseTimestamp(raw.datetime).value.year)
  {
    var datetime := parseTimestamp(raw.datetime);
    Row(datetime, YearOf(datetime),
        parseNumber(raw.latitude), parseNumber(raw.longitude), parseNumber(raw.duration),
        raw.country, raw.shape, raw.city)
  }

  /** Every record coerced, before any row is dropped. */
  function CoerceAll(raw: seq<RawRecord>, parseTimestamp: TimestampParser, parseNumber: NumberParser): seq<Row> {
    seq(|raw|, i requires 0 <= i < |raw| => Coerce(raw[i], parseTimestamp, parseNumber))
  }

  /** The base table the load produces. */
  function Cleaned(raw: seq<RawRecord>, parseTimestamp: TimestampParser, parseNumber: NumberParser): (table: seq<Row>)
    ensures |table| <= |raw|
    ensures SubsequenceOf(table, CoerceAll(raw, parseTimestamp, parseNumber))
    ensures forall i :: 0 <= i < |table| ==> HasCoordinates(table[i])
  {
    Select(CoerceAll(raw, parseTimestamp, parseNumber), HasCoordinates)
  }

  /** Every row of the base table has both coordinates and a consistent year. */
  lemma CleanedRowsAreLocated(raw: seq<RawRecord>, parseTimestamp: TimestampParser, parseNumber: NumberParser)
    ensures forall r :: r in Cleaned(raw, parseTimestamp, parseNumber) ==> HasCoordinates(r) && YearDerived(r)
  {
    var all := CoerceAll(raw, parseTimestamp, parseNumber);
    forall r | r in Cleaned(raw, parseTimestamp, parseNumber)
      ensures HasCoordinates(r) && YearDerived(r)
    {
      SelectMembership(all, HasCoordinates, r);
    }
  }

  /**
   * Cleaning removes exactly the rows missing a coordinate: every other row
   * survives as often as it occurs, whatever its duration or year, and the
   * survivors keep their order.
   */
  lemma CleanedKeepsExactlyTheLocatedRows(raw: seq<RawRecord>, parseTimestamp: TimestampParser, parseNumber: NumberParser, r: Row)
    ensures SubsequenceOf(Cleaned(raw, parseTimestamp, parseNumber), CoerceAll(raw, parseTimestamp, parseNumber))
    ensures r in Cleaned(raw, parseTimestamp, parseNumber) <==> r in CoerceAll(raw, parseTimestamp, parseNumber) && HasCoordinates(r)
    ensures multiset(Cleaned(raw, parseTimestamp, parseNumber))[r]
         == if HasCoordinates(r) then multiset(CoerceAll(raw, parseTimestamp, parseNumber))[r] else 0
  {
    SelectMembership(CoerceAll(raw, parseTimestamp, parseNumber), HasCoordinates, r);
    SelectMultiplicity(CoerceAll(raw, parseTimestamp, parseNumber), HasCoordinates, r);
  }

  /** A record whose coordinates parse is kept even when its datetime or duration does not. */
  lemma IncompleteRecordSurvives(raw: seq<RawRecord>, parseTimestamp: TimestampParser, parseNumber: NumberParser, i: nat)
    requires i < |raw|
    requires parseNumber(raw[i].latitude).Some? && parseNumber(raw[i].longitude).Some?
    ensures Coerce(raw[i], parseTimestamp, parseNumber) in Cleaned(raw, parseTimestamp, parseNumber)
  {
    var all := CoerceAll(raw, parseTimestamp, parseNumber);
    assert all[i] == Coerce(raw[i], parseTimestamp, parseNumber);
    SelectMembership(all, HasCoordinates, all[i]);
  }

  /** A record is in the base table exactly when both of its coordinates parse. */
  lemma RecordKeptIffCoordinatesParse(raw: seq<RawRecord>, parseTimestamp: TimestampParser, parseNumber: NumberParser, i: nat)
    requires i < |raw|
    ensures Coerce(raw[i], parseTimestamp, parseNumber) in Cleaned(raw, parseTimestamp, parseNumber)
        <==> parseNumber(raw[i].latitude).Some? && parseNumber(raw[i].longitude).Some?
  {
    var r := Coerce(raw[i], parseTimestamp, parseNumber);
    CleanedKeepsExactlyTheLocatedRows(raw, parseTimestamp, parseNumber, r);
    assert CoerceAll(raw, parseTimestamp, parseNumber)[i] == r;
  }

  /**
   * `df.dropna(subset=['latitude', 'longitude'], inplace=True)`: compacts the
   * located rows to the front of the frame; the first `n` slots are the result.
   */
  method DropMissingCoordinates(frame: array<Row>) returns (n: nat)
    modifies frame
    ensures n <= frame.Length
    ensures frame[..n] == Select(old(frame[..]), HasCoordinates)
  {
    ghost var original := frame[..];
    n := 0;
    var next := 0;
    while next < frame.Length
      invariant 0 <= n <= next <= frame.Length
      invariant frame[..n] == Select(original[..next], HasCoordinates)
      invariant frame[next..] == original[next..]
    {
      SelectPrefixStep(original, next, HasCoordinates);
      assert frame[next] == original[next];
      if HasCoordinates(frame[next]) {
        frame[n] := frame[next];
        n := n + 1;
      }
      next := next + 1;
    }
    assert original[..frame.Length] == original;
  }

  /**
   * The load: coerce every record into a fresh frame, drop the rows without
   * coordinates in place, and keep the rest as the base table.
   */
  method Load(raw: seq<RawRecord>, parseTimestamp: TimestampParser, parseNumber: NumberParser) returns (table: seq<Row>)
    ensures table == Cleaned(raw, parseTimestamp, parseNumber)
    ensures forall i :: 0 <= i < |table| ==> HasCoordinates(table[i])
  {
    var frame := new Row[|raw|];
    var i := 0;
    while i < |raw|
      invariant 0 <= i <= |raw|
      invariant forall k :: 0 <= k < i ==> frame[k] == Coerce(raw[k], parseTimestamp, parseNumber)
    {
      frame[i] := Coerce(raw[i], parseTimestamp, parseNumber);
      i := i + 1;
    }
    assert frame[..] == CoerceAll(raw, parseTimestamp, parseNumber);
    var n := DropMissingCoordinates(frame);
    table := frame[..n];
  }
}
