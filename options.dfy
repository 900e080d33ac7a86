/**
 * The option lists of the selection widgets, derived once from the base
 * table: sorted distinct present countries, shapes and years.
 */
module Options {
  import opened Wrappers
  import opened Ordering
  import opened Sightings

  /** `table[column].dropna()`: the present values of one column, in row order. */
  function PresentValues<T(!new)>(table: seq<Row>, column: Row -> Option<T>): (r: seq<T>)
    ensures forall x :: x in r <==> exists i :: 0 <= i < |table| && column(table[i]) == Some(x)
  {
    var cells := seq(|table|, i requires 0 <= i < |table| => column(table[i]));
    assert forall i :: 0 <= i < |table| ==> cells[i] == column(table[i]);
    DropMissing(cells)
  }

  /** `sorted(df['country'].dropna().unique())`. */
  function CountryOptions(table: seq<Row>): (r: seq<string>)
    ensures StrictlySorted(r, StrLess) && NoDuplicates(r)
    ensures forall c :: c in r <==> exists i :: 0 <= i < |table| && table[i].country == Some(c)
  {
    StrLessIsStrictTotalOrder();
    var r := SortedUnique(PresentValues(table, (row: Row) => row.country), StrLess);
    StrictlySortedHasNoDuplicates(r, StrLess);
    r
  }

  /** `sorted(df['shape'].dropna().unique())`. */
  function ShapeOptions(table: seq<Row>): (r: seq<string>)
    ensures StrictlySorted(r, StrLess) && NoDuplicates(r)
    ensures forall s :: s in r <==> exists i :: 0 <= i < |table| && table[i].shape == Some(s)
  {
    StrLessIsStrictTotalOrder();
    var r := SortedUnique(PresentValues(table, (row: Row) => row.shape), StrLess);
    StrictlySortedHasNoDuplicates(r, StrLess);
    r
  }

  /** `sorted(df['year'].dropna().unique())`, offered by both year dropdowns. */
  function YearOptions(table: seq<Row>): (r: seq<int>)
    ensures StrictlySorted(r, IntLess) && NoDuplicates(r)
    ensures forall y :: y in r <==> exists i :: 0 <= i < |table| && table[i].year == Some(y)
  {
    IntLessIsStrictTotalOrder();
    var r := SortedUnique(PresentValues(table, (row: Row) => row.year), IntLess);
    StrictlySortedHasNoDuplicates(r, IntLess);
    r
  }
}
