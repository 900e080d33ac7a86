/**
 * The filter of the `update_map` callback: a pure function of the base table
 * and the widget values, built from four boolean-mask selections applied to
 * a copy of the table, and the count of the rows that survive.
 */
module Filter {
  import opened Wrappers
  import opened Selection
  import opened Sightings

  /**
   * The widget values one callback receives. A multi-select dropdown gives
   * `None` (never touched) or a list; a year dropdown `None` or a year; the
   * duration slider always gives a pair of bounds.
   */
  datatype Criteria = Criteria(
    countries: Option<seq<string>>,
    shapes: Option<seq<string>>,
    startYear: Option<int>,
    endYear: Option<int>,
    durationMin: real,
    durationMax: real)

  /** Python truthiness of an optional list: `None` and `[]` are false. */
  predicate ListGiven(l: Option<seq<string>>) {
    l.Some? && |l.value| > 0
  }

  /** Python truthiness of an optional year: `None` and `0` are false. */
  predicate YearGiven(y: Option<int>) {
    y.Some? && y.value != 0
  }

  /** `column.isin(values)`: a missing cell is never a member. */
  predicate IsIn(cell: Option<string>, values: seq<string>) {
    cell.Some? && cell.value in values
  }

  /** `(column >= lo) & (column <= hi)` on a nullable integer: a missing cell fails. */
  predicate YearWithin(cell: Option<int>, lo: int, hi: int) {
    cell.Some? && lo <= cell.value <= hi
  }

  /** `(column >= lo) & (column <= hi)` on a float column: a missing cell fails. */
  predicate DurationWithin(cell: Option<real>, lo: real, hi: real) {
    cell.Some? && lo <= cell.value <= hi
  }

  /** The four selections of `update_map`, in the order the source applies them. */
  datatype Stage = CountryStage | ShapeStage | YearStage | DurationStage

  const SOURCE_ORDER: seq<Stage> := [CountryStage, ShapeStage, YearStage, DurationStage]

  /** Whether the stage is switched on for these criteria (the duration stage always is). */
  predicate Active(stage: Stage, c: Criteria) {
    match stage
    case CountryStage => ListGiven(c.countries)
    case ShapeStage => ListGiven(c.shapes)
    case YearStage => YearGiven(c.startYear) && YearGiven(c.endYear)
    case DurationStage => true
  }

  /** The row predicate a stage tests when it is active. */
  predicate Test(stage: Stage, c: Criteria, r: Row) {
    match stage
    case CountryStage => c.countries.Some? && IsIn(r.country, c.countries.value)
    case ShapeStage => c.shapes.Some? && IsIn(r.shape, c.shapes.value)
    case YearStage => c.startYear.Some? && c.endYear.Some? && YearWithin(r.year, c.startYear.value, c.endYear.value)
    case DurationStage => DurationWithin(r.duration, c.durationMin, c.durationMax)
  }

  /** A row gets past a stage: the stage is off, or the row passes its test. */
  predicate Passes(stage: Stage, c: Criteria, r: Row) {
    Active(stage, c) ==> Test(stage, c, r)
  }

  /** One `if ...: dff = dff[mask]` step of the callback; an inactive stage leaves the table alone. */
  function ApplyStage(stage: Stage, c: Criteria, table: seq<Row>): (r: seq<Row>)
    ensures SubsequenceOf(r, table)
    ensures forall i :: 0 <= i < |r| ==> Passes(stage, c, r[i])
    ensures !Active(stage, c) ==> r == table
  {
    if Active(stage, c) then Select(table, (r: Row) => Test(stage, c, r))
    else SubsequenceReflexive(table); table
  }

  /** The stages applied one after the other, first to last. */
  function ApplyStages(stages: seq<Stage>, c: Criteria, table: seq<Row>): seq<Row>
    decreases |stages|
  {
    if stages == [] then table
    else ApplyStages(stages[1..], c, ApplyStage(stages[0], c, table))
  }

  /** The conjunction of every active predicate of the criteria. */
  predicate Matches(c: Criteria, r: Row)
    ensures Matches(c, r) ==> DurationWithin(r.duration, c.durationMin, c.durationMax)
    ensures Matches(c, r) && ListGiven(c.countries) ==> IsIn(r.country, c.countries.value)
    ensures Matches(c, r) && ListGiven(c.shapes) ==> IsIn(r.shape, c.shapes.value)
    ensures Matches(c, r) && YearGiven(c.startYear) && YearGiven(c.endYear) ==>
              YearWithin(r.year, c.startYear.value, c.endYear.value)
  {
    && Passes(CountryStage, c, r)
    && Passes(ShapeStage, c, r)
    && Passes(YearStage, c, r)
    && Passes(DurationStage, c, r)
  }

  /** The rows `dff` that `update_map` plots. */
  function UpdateMapRows(table: seq<Row>, c: Criteria): (r: seq<Row>)
    ensures r == Select(table, (x: Row) => Matches(c, x))
    ensures SubsequenceOf(r, table)
    ensures forall i :: 0 <= i < |r| ==> Matches(c, r[i])
  {
    SourceOrderIsOneSelection(table, c);
    ApplyStage(DurationStage, c,
      ApplyStage(YearStage, c,
        ApplyStage(ShapeStage, c,
          ApplyStage(CountryStage, c, table))))
  }

  /** The count `len(dff)` shown in the counter. */
  function UpdateMapCount(table: seq<Row>, c: Criteria): (n: nat)
    ensures n <= |table|
    ensures n == |table| <==> forall i :: 0 <= i < |table| ==> Matches(c, table[i])
    ensures n == 0 <==> forall i :: 0 <= i < |table| ==> !Matches(c, table[i])
  {
    SelectKeepsAll(table, (r: Row) => Matches(c, r));
    SelectKeepsNone(table, (r: Row) => Matches(c, r));
    |UpdateMapRows(table, c)|
  }

  // ---- Order-independent characterisation --------------------------------

  /** Whatever its activity, a stage is one selection with its `Passes` predicate. */
  lemma StageIsSelection(stage: Stage, c: Criteria, table: seq<Row>)
    ensures ApplyStage(stage, c, table) == Select(table, (r: Row) => Passes(stage, c, r))
  {
    if Active(stage, c) {
      SelectExtensional(table, (r: Row) => Test(stage, c, r), (r: Row) => Passes(stage, c, r));
    } else {
      SelectKeepsAll(table, (r: Row) => Passes(stage, c, r));
    }
  }

  lemma StageIsSelectionWith(stage: Stage, c: Criteria, table: seq<Row>, p: Row -> bool)
    requires forall r :: p(r) == Passes(stage, c, r)
    ensures ApplyStage(stage, c, table) == Select(table, p)
  {
  }

  /** A row survives one stage exactly when it was there and gets past the stage. */
  lemma StageMembership(stage: Stage, c: Criteria, table: seq<Row>, x: Row)
    ensures x in ApplyStage(stage, c, table) <==> x in table && Passes(stage, c, x)
  {
    StageIsSelection(stage, c, table);
    SelectMembership(table, (r: Row) => Passes(stage, c, r), x);
  }

  /** A row gets past every stage of the list. */
  predicate PassesAll(stages: seq<Stage>, c: Criteria, r: Row) {
    forall k :: 0 <= k < |stages| ==> Passes(stages[k], c, r)
  }

  /** Any list of stages is one selection with the conjunction of their predicates. */
  lemma {:induction false} StagesAreOneSelection(stages: seq<Stage>, c: Criteria, table: seq<Row>)
    ensures ApplyStages(stages, c, table) == Select(table, (r: Row) => PassesAll(stages, c, r))
    decreases |stages|
  {
    if stages == [] {
      SelectKeepsAll(table, (r: Row) => PassesAll(stages, c, r));
    } else {
      var first := (r: Row) => Passes(stages[0], c, r);
      var rest := (r: Row) => PassesAll(stages[1..], c, r);
      var afterFirst := ApplyStage(stages[0], c, table);
      StageIsSelectionWith(stages[0], c, table, first);
      StagesAreOneSelection(stages[1..], c, afterFirst);
      forall i | 0 <= i < |table|
        ensures (first(table[i]) && rest(table[i])) == PassesAll(stages, c, table[i])
      {
        PassesAllSplit(stages, c, table[i]);
      }
      SelectSelect(table, first, rest, (r: Row) => PassesAll(stages, c, r));
    }
  }

  lemma PassesAllSplit(stages: seq<Stage>, c: Criteria, r: Row)
    requires stages != []
    ensures PassesAll(stages, c, r) == (Passes(stages[0], c, r) && PassesAll(stages[1..], c, r))
  {
  }

  /** The four stages in the source's order make one selection with `Matches`. */
  lemma SourceOrderIsOneSelection(table: seq<Row>, c: Criteria)
    ensures ApplyStage(DurationStage, c, ApplyStage(YearStage, c, ApplyStage(ShapeStage, c, ApplyStage(CountryStage, c, table))))
         == Select(table, (x: Row) => Matches(c, x))
  {
    var s := SOURCE_ORDER;
    assert s[1..][1..][1..][1..] == [];
    StagesAreOneSelection(s, c, table);
    forall i | 0 <= i < |table|
      ensures PassesAll(s, c, table[i]) == Matches(c, table[i])
    {
      PassesAllSplit(s, c, table[i]);
      PassesAllSplit(s[1..], c, table[i]);
      PassesAllSplit(s[1..][1..], c, table[i]);
      PassesAllSplit(s[1..][1..][1..], c, table[i]);
    }
    SelectExtensional(table, (r: Row) => PassesAll(s, c, r), (r: Row) => Matches(c, r));
  }

  // ---- Properties of update_map ------------------------------------------

  /** A row is plotted exactly when it is in the table and meets every active predicate. */
  lemma UpdateMapMembership(table: seq<Row>, c: Criteria, x: Row)
    ensures x in UpdateMapRows(table, c) <==> x in table && Matches(c, x)
    ensures multiset(UpdateMapRows(table, c))[x] == if Matches(c, x) then multiset(table)[x] else 0
  {
    SelectMembership(table, (r: Row) => Matches(c, r), x);
    SelectMultiplicity(table, (r: Row) => Matches(c, r), x);
  }

  /** Any list naming each of the four stages (in any order, repeats allowed) gives the same rows. */
  lemma StageOrderIrrelevant(stages: seq<Stage>, c: Criteria, table: seq<Row>)
    requires CountryStage in stages && ShapeStage in stages && YearStage in stages && DurationStage in stages
    ensures ApplyStages(stages, c, table) == UpdateMapRows(table, c)
  {
    StagesAreOneSelection(stages, c, table);
    forall i | 0 <= i < |table|
      ensures PassesAll(stages, c, table[i]) == Matches(c, table[i])
    {
      if PassesAll(stages, c, table[i]) {
        var kc :| 0 <= kc < |stages| && stages[kc] == CountryStage;
        var ks :| 0 <= ks < |stages| && stages[ks] == ShapeStage;
        var ky :| 0 <= ky < |stages| && stages[ky] == YearStage;
        var kd :| 0 <= kd < |stages| && stages[kd] == DurationStage;
        assert Passes(stages[kc], c, table[i]) && Passes(stages[ks], c, table[i]);
        assert Passes(stages[ky], c, table[i]) && Passes(stages[kd], c, table[i]);
      }
    }
    SelectExtensional(table, (r: Row) => PassesAll(stages, c, r), (r: Row) => Matches(c, r));
  }

  /** Filtering the filtered rows again with the same criteria changes nothing. */
  lemma UpdateMapIdempotent(table: seq<Row>, c: Criteria)
    ensures UpdateMapRows(UpdateMapRows(table, c), c) == UpdateMapRows(table, c)
  {
    SelectIdempotent(table, (r: Row) => Matches(c, r));
  }

  /** Criteria that accept the same rows give the same result. */
  lemma SameMatchesSameRows(table: seq<Row>, c: Criteria, d: Criteria)
    requires forall r :: Matches(c, r) == Matches(d, r)
    ensures UpdateMapRows(table, c) == UpdateMapRows(table, d)
  {
    SelectExtensional(table, (r: Row) => Matches(c, r), (r: Row) => Matches(d, r));
  }

  /** Criteria that add one test to others select, from the others' result, the rows passing that test. */
  lemma ExtraTestIsExtraSelection(table: seq<Row>, c: Criteria, d: Criteria, test: Row -> bool)
    requires forall r :: Matches(c, r) == (Matches(d, r) && test(r))
    ensures UpdateMapRows(table, c) == Select(UpdateMapRows(table, d), test)
  {
    SelectSelect(table, (r: Row) => Matches(d, r), test, (r: Row) => Matches(c, r));
  }

  /**
   * An empty or absent country list imposes nothing; a non-empty one further
   * keeps exactly the rows whose country is present and listed.
   */
  lemma CountryRestriction(table: seq<Row>, c: Criteria)
    ensures !ListGiven(c.countries) ==> UpdateMapRows(table, c) == UpdateMapRows(table, c.(countries := None))
    ensures ListGiven(c.countries) ==>
      UpdateMapRows(table, c) == Select(UpdateMapRows(table, c.(countries := None)), (r: Row) => IsIn(r.country, c.countries.value))
  {
    if ListGiven(c.countries) {
      ExtraTestIsExtraSelection(table, c, c.(countries := None), (r: Row) => IsIn(r.country, c.countries.value));
    } else {
      SameMatchesSameRows(table, c, c.(countries := None));
    }
  }

  /** The same for the shape list. */
  lemma ShapeRestriction(table: seq<Row>, c: Criteria)
    ensures !ListGiven(c.shapes) ==> UpdateMapRows(table, c) == UpdateMapRows(table, c.(shapes := None))
    ensures ListGiven(c.shapes) ==>
      UpdateMapRows(table, c) == Select(UpdateMapRows(table, c.(shapes := None)), (r: Row) => IsIn(r.shape, c.shapes.value))
  {
    if ListGiven(c.shapes) {
      ExtraTestIsExtraSelection(table, c, c.(shapes := None), (r: Row) => IsIn(r.shape, c.shapes.value));
    } else {
      SameMatchesSameRows(table, c, c.(shapes := None));
    }
  }

  /**
   * Both-or-neither: unless both year bounds are given and non-zero the result
   * is that of no year bounds at all; when both are, it further keeps exactly
   * the rows whose year is present and within the inclusive range.
   */
  lemma YearRestriction(table: seq<Row>, c: Criteria)
    ensures !(YearGiven(c.startYear) && YearGiven(c.endYear)) ==>
      UpdateMapRows(table, c) == UpdateMapRows(table, c.(startYear := None, endYear := None))
    ensures YearGiven(c.startYear) && YearGiven(c.endYear) ==>
      UpdateMapRows(table, c)
      == Select(UpdateMapRows(table, c.(startYear := None, endYear := None)),
                (r: Row) => YearWithin(r.year, c.startYear.value, c.endYear.value))
  {
    var noYears := c.(startYear := None, endYear := None);
    if YearGiven(c.startYear) && YearGiven(c.endYear) {
      ExtraTestIsExtraSelection(table, c, noYears, (r: Row) => YearWithin(r.year, c.startYear.value, c.endYear.value));
    } else {
      SameMatchesSameRows(table, c, noYears);
    }
  }

  /** Python truthiness: an empty country or shape list behaves as no list at all. */
  lemma EmptyListIsNoList(table: seq<Row>, c: Criteria)
    ensures UpdateMapRows(table, c.(countries := Some([]))) == UpdateMapRows(table, c.(countries := None))
    ensures UpdateMapRows(table, c.(shapes := Some([]))) == UpdateMapRows(table, c.(shapes := None))
  {
    SameMatchesSameRows(table, c.(countries := Some([])), c.(countries := None));
    SameMatchesSameRows(table, c.(shapes := Some([])), c.(shapes := None));
  }

  /** Python truthiness: a year bound of 0 behaves as no bound at all. */
  lemma ZeroYearIsNoYear(table: seq<Row>, c: Criteria)
    ensures UpdateMapRows(table, c.(startYear := Some(0))) == UpdateMapRows(table, c.(startYear := None))
    ensures UpdateMapRows(table, c.(endYear := Some(0))) == UpdateMapRows(table, c.(endYear := None))
  {
    SameMatchesSameRows(table, c.(startYear := Some(0)), c.(startYear := None));
    SameMatchesSameRows(table, c.(endYear := Some(0)), c.(endYear := None));
  }

  /** A row whose restriction field is missing is never plotted while that restriction is active. */
  lemma MissingValuesExcluded(table: seq<Row>, c: Criteria, x: Row)
    requires || x.duration.None?
             || (ListGiven(c.countries) && x.country.None?)
             || (ListGiven(c.shapes) && x.shape.None?)
             || (YearGiven(c.startYear) && YearGiven(c.endYear) && x.year.None?)
    ensures x !in UpdateMapRows(table, c)
  {
  }

  /** A record whose datetime does not parse has no year, so an active year range never plots it. */
  lemma UnparsedDatetimeFailsYearRange(raw: RawRecord, parseTimestamp: TimestampParser, parseNumber: NumberParser,
                                       table: seq<Row>, c: Criteria)
    requires parseTimestamp(raw.datetime).None?
    requires YearGiven(c.startYear) && YearGiven(c.endYear)
    ensures Coerce(raw, parseTimestamp, parseNumber).year.None?
    ensures Coerce(raw, parseTimestamp, parseNumber) !in UpdateMapRows(table, c)
  {
    MissingValuesExcluded(table, c, Coerce(raw, parseTimestamp, parseNumber));
  }

  /** With no list or year restriction and a duration range every row meets, the whole table is plotted. */
  lemma DefaultCriteriaKeepEverything(table: seq<Row>, lo: real, hi: real)
    requires forall i :: 0 <= i < |table| ==> DurationWithin(table[i].duration, lo, hi)
    ensures UpdateMapRows(table, Criteria(None, None, None, None, lo, hi)) == table
    ensures UpdateMapCount(table, Criteria(None, None, None, None, lo, hi)) == |table|
  {
    SelectKeepsAll(table, (r: Row) => Matches(Criteria(None, None, None, None, lo, hi), r));
  }
}
