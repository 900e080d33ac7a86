# UFO Sightings Explorer — verified model of the data pipeline

The dashboard in `app.py` loads a CSV of reported UFO sightings once. It coerces
each column to nullable values and drops, for good, every row without a
latitude or a longitude. From the cleaned table it derives the option lists of
its country, shape and year dropdowns. On every widget change its `update_map`
callback filters a copy of the table by country list, shape list, year range
and duration range, and reports how many rows survive.

This project models that pipeline in Dafny and proves what it promises.

- `wrappers.dfy` — `Option`, the missing value (NaN, NaT, pandas NA).
- `selection.dfy` — `Select`, the boolean-mask selection `frame[mask]` that
  both `dropna` and every filter step perform, with its laws: subsequence,
  membership, multiplicity, concatenation, composition, idempotence.
- `sightings.dfy` — the raw record, the coerced `Row`, the per-row coercion,
  and the load. The load is imperative: a loop coerces every record into a
  fresh array, and `DropMissingCoordinates` compacts that array in place.
  Both are proved against the specification function `Cleaned`.
- `ordering.dfy` — strictly sorted distinct lists built by insertion, Python's
  `str` order, and `dropna()` on a column.
- `options.dfy` — the three option lists.
- `filter.dfy` — the `update_map` filter as four stages over a sequence of
  rows, the conjunction `Matches` of the active predicates, and the count.
- `scenarios.dfy` — concrete cases: the coercion of two records, the year
  and country option lists of small tables, and four small tables worked
  through the filter.

Python truthiness is modelled exactly. A country or shape list that is `None`
or `[]` imposes nothing. A year bound that is `None` or `0` counts as absent.
The year range is applied only when both bounds are present and non-zero. A
missing cell fails every comparison and every `isin`.

Parsing is left to the caller. `pd.to_datetime(..., errors='coerce')` and
`pd.to_numeric(..., errors='coerce')` are function-typed parameters
(`TimestampParser`, `NumberParser`) that return `Option` values.

The selected countries and shapes arrive as lists, and only
membership in them matters. The option lists are computed from the cleaned
table while the layout is built.

## Model

| member | source | states |
|---|---|---|
| `Selection.Select` | app.py:114-120 | the selected rows are a subsequence of the input (order kept), no longer than it, and each satisfies the mask |
| `Selection.SelectMembership` | app.py:114-120 | a row is selected iff it is in the input and satisfies the mask |
| `Selection.SelectMultiplicity` | app.py:20 | a row satisfying the mask survives as many times as it occurs; any other row occurs zero times |
| `Selection.SelectSelect` | app.py:114-120 | two successive mask selections equal one selection by the conjunction of the masks |
| `Selection.SelectIdempotent` | app.py:114-120 | selecting again with the same mask changes nothing |
| `Selection.SelectKeepsAll` | app.py:120 | nothing is removed (equivalently, the length is unchanged) iff every row satisfies the mask |
| `Selection.SelectKeepsNone` | app.py:133 | the selection is empty iff no row satisfies the mask |
| `Sightings.Coerce` | app.py:13-22 | the year is missing iff the datetime does not parse, and is otherwise the parsed timestamp's year; the year column agrees with the datetime column |
| `Sightings.Cleaned` | app.py:13-20 | the base table is no longer than the input, a subsequence of the coerced records, and every row has both coordinates |
| `Sightings.CleanedRowsAreLocated` | app.py:18-20 | every row of the base table has both coordinates and a consistent year |
| `Sightings.CleanedKeepsExactlyTheLocatedRows` | app.py:20-22 | cleaning keeps, in order, exactly the coerced rows that have both coordinates, each as often as it occurred |
| `Sightings.IncompleteRecordSurvives` | app.py:20-22 | a record whose coordinates parse is kept even if its datetime or duration does not parse |
| `Sightings.RecordKeptIffCoordinatesParse` | app.py:18-20 | the coerced form of a record is in the base table iff its latitude and its longitude both parse as numbers |
| `Sightings.DropMissingCoordinates` | app.py:20 | in-place `dropna`: the first `n` slots of the array are, afterwards, the located rows of its old contents in order |
| `Sightings.Load` | app.py:11-22 | the loaded table equals the coerced records with the unlocated ones removed, and every row of it has both coordinates |
| `Ordering.DropMissing` | app.py:44 | no longer than the column; each value occurs as often as it is present in the column, so it is in the result iff it is present somewhere |
| `Ordering.Insert` | app.py:44 | inserting into a strictly sorted list gives a strictly sorted list holding exactly the old elements and the new one |
| `Ordering.SortedUnique` | app.py:44 | the result is strictly sorted and holds exactly the values of the input |
| `Ordering.StrictlySortedDetermined` | app.py:44 | two strictly sorted lists with the same elements are equal, so `sorted(unique)` is determined by the set of values it lists |
| `Ordering.StrLess` | app.py:44-50 | Python's `<` on `str`: no string is below itself, and a proper prefix is below the longer string |
| `Ordering.StrLessIsStrictTotalOrder` | app.py:44 | Python's code-point order on strings is irreflexive, transitive and total |
| `Options.PresentValues` | app.py:44 | a value is listed iff some row has it present in the column |
| `Options.CountryOptions` | app.py:44 | the country options are strictly sorted, have no duplicates, and are exactly the countries present in the table |
| `Options.ShapeOptions` | app.py:50 | the shape options are strictly sorted, have no duplicates, and are exactly the shapes present in the table |
| `Options.YearOptions` | app.py:58-64 | the year options are strictly sorted, have no duplicates, and are exactly the years present in the table |
| `Filter.ApplyStage` | app.py:114-120 | one `if …: dff = dff[mask]` step: a subsequence of its input whose rows all get past the stage, and the input itself when the stage is inactive |
| `Filter.Matches` | app.py:114-120 | a matching row has its duration within range, and its country, shape and year passing each active restriction |
| `Filter.StageIsSelection` | app.py:114-120 | each `if`-guarded step is one selection by "stage inactive or row passes its test" |
| `Filter.StageMembership` | app.py:114-120 | a row survives one guarded step iff it was in its input and gets past that step |
| `Filter.StagesAreOneSelection` | app.py:114-120 | applying any list of stages in sequence is one selection by the conjunction of their predicates |
| `Filter.SourceOrderIsOneSelection` | app.py:113-120 | the four steps in the source's order select exactly the rows that meet `Matches` |
| `Filter.UpdateMapRows` | app.py:112-120 | the plotted rows are the single selection of the rows meeting every active predicate; they are a subsequence of the table and each meets `Matches` |
| `Filter.UpdateMapCount` | app.py:133 | the count is at most the table size; it equals the size iff every row matches, and is zero iff no row matches |
| `Filter.UpdateMapMembership` | app.py:113-120 | a row is plotted iff it is in the table and meets every active predicate, and then as often as it occurs there |
| `Filter.StageOrderIrrelevant` | app.py:114-120 | any stage list naming all four stages, in any order and with repeats, gives the same rows as the source |
| `Filter.UpdateMapIdempotent` | app.py:113-120 | filtering the filtered rows again with the same criteria changes nothing |
| `Filter.SameMatchesSameRows` | app.py:114-120 | criteria accepting the same rows give the same result |
| `Filter.ExtraTestIsExtraSelection` | app.py:114-120 | criteria adding one test select, from the result without it, the rows passing that test |
| `Filter.CountryRestriction` | app.py:114-115 | an absent or empty country list imposes nothing; a non-empty one further keeps exactly the rows whose country is present and listed |
| `Filter.ShapeRestriction` | app.py:116-117 | an absent or empty shape list imposes nothing; a non-empty one further keeps exactly the rows whose shape is present and listed |
| `Filter.EmptyListIsNoList` | app.py:114-117 | an empty country or shape list gives the same rows as no list at all |
| `Filter.YearRestriction` | app.py:118-119 | unless both year bounds are present and non-zero the result equals that with no year bounds; otherwise it further keeps exactly the rows with a present year in the inclusive range |
| `Filter.ZeroYearIsNoYear` | app.py:118 | a start or end year of `0` gives the same rows as a missing one |
| `Filter.MissingValuesExcluded` | app.py:114-120 | a row with a missing duration, or a missing country, shape or year while that restriction is active, is never plotted |
| `Filter.UnparsedDatetimeFailsYearRange` | app.py:118-119 | a record whose datetime does not parse coerces to a row with no year, which an active year range never plots |
| `Filter.DefaultCriteriaKeepEverything` | app.py:120 | with no list or year restriction and a duration range every row meets, the whole table is plotted and counted |
| `Scenarios.CountryScenario` | app.py:114-115 | on a table of `us`, `gb`, `us` rows, the list `["us"]` keeps the two `us` rows and counts 2 |
| `Scenarios.CoerceScenario` | app.py:13-22 | the record `7/4/1997 21:30`, latitude `1.5`, longitude `2.5`, duration `300` coerces to a row with year 1997 and those numbers; the same record with an unparseable datetime gets no datetime and no year |
| `Scenarios.YearOptionScenario` | app.py:58-64 | years 2005, 1990, 1997 give the year options 1990, 1997, 2005 |
| `Scenarios.CountryOptionScenario` | app.py:44 | countries `us`, `gb`, `us` give the country options `gb`, `us` |
| `Scenarios.YearRangeScenario` | app.py:118-119 | years 1995–2000 keep 1995, 1997 and 2000 of 1990/1995/1997/2000/2005: both ends are included |
| `Scenarios.OneSidedYearScenario` | app.py:118 | a start year without an end year keeps every row |
| `Scenarios.DurationScenario` | app.py:120 | the range 0–600 seconds keeps 0, 300 and 600 seconds and drops a missing, a −5-second and a 900-second duration |

## Left out

- Reading the CSV file (app.py:11): the input is an already-read sequence of `RawRecord`s; a file that cannot be read is not modelled.
- The parsing inside `pd.to_datetime` and `pd.to_numeric` (app.py:13, 18-19, 22): the parsers are function-typed parameters returning `Option`.
- Stripping whitespace from column names (app.py:16): rows are records with named fields, so there are no column names to strip.
- Column-at-a-time coercion: the model coerces each record in one step. `pd.to_numeric` works element by element, so coercing coordinates and durations per record, and coercing the duration after the drop (app.py:22), give the same rows. `pd.to_datetime` (app.py:13) parses the whole column before the drop and may infer one format from it; the `TimestampParser` parameter, chosen once per load, stands for that whole-column parse.
- The row index that pandas keeps after `dropna` and after each selection: the model keeps row order but not index labels.
- The Dash layout, widgets, styling and callback wiring (app.py:24-111), and the upper-case and title-case option labels (app.py:44, 50).
- The Plotly map figure (app.py:122-131): a library call with no domain logic.
- The thousands separators in the counter text (app.py:133): only the count is modelled.
- Port and environment handling and server start (app.py:136-139): process plumbing.
- Floating-point details (NaN versus NA, rounding): coordinates and durations are `real`, and a missing value is `None`, which fails every comparison.
- The copy `df.copy()` (app.py:113): Dafny sequences are values, so the filter can never change the base table.
