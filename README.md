# Cleaning stage of the COVID dashboard task

The scheduled task `covid_data_dag` downloads the Our World in Data COVID
table, cleans it and uploads the result to a spreadsheet. This project models
the cleaning stage (`covid_data.py`, lines 31-80) in Dafny and proves what it
does to the table:

- **Row filter.** It keeps the rows whose `continent` cell is present. This
  drops the aggregate rows such as "World" or "Europe".
- **Column exclusion.** It drops every column whose name matches the
  exclusion pattern. It then puts `total_boosters` back as the last column,
  because that name contains "total".
- **Per-location pass.** For each distinct `location`, in order of first
  appearance, it:
  - takes that location's rows;
  - sorts them by date;
  - linearly interpolates `people_fully_vaccinated`, `people_vaccinated` and
    `total_boosters` by row position;
  - sets every cell still missing from the third column on to 0.
- **Concatenation.** It appends the location blocks one after the other.

A table is a list of column labels over rectangular rows of cells. A cell is
`Missing` (NaN or NaT), `Num` (an exact real), `Day` (a parsed date, as a day
number) or `Text`. Label lookups on an absent column, which the data-frame
library reports as a KeyError, become `Failure(MissingColumn(label))`. They are
checked in the order the code makes them:

1. `continent`
2. `total_boosters`
3. `location`
4. then, only once the loop body runs: `date`, then the interpolated columns

Files:

- `frame.dfy`: the table, cells, masked row selection (`.loc`), label lookup.
- `selection.dfy`: the continent filter, the exclusion pattern, the column
  drop, and the restored `total_boosters`.
- `interpolation.dfy`: linear interpolation of one column, with its
  properties.
- `dateorder.dfy`: the stable sort by date.
- `cleaning.dfy`:
  - the per-location pass and the whole stage, as specification functions;
  - the loop, as a method proved equal to them.
- `groupprops.dfy`: what sorting, interpolation and the zero-fill do to one
  location's rows.
- `stage.dfy`: the outcome of the stage, its columns, and the booster values.
- `accounting.dfy`: where the output rows come from, and how many there are.
- `blockorder.dfy`: the order of the output, and that no cell is left
  missing.

Where a property depends on `location` and `date` being the first two
surviving columns, that is a precondition. Line 74 (`iloc[:, 2:]`) silently
assumes the same. `Selection.SelectedLeading` ties the precondition to the
input header: it holds whenever `location` and `date` are the first two input
labels the pattern does not exclude. In the published header, `iso_code` and
`continent` come before them and are both excluded. That the pattern keeps
`location` and `date` themselves is not proved.

Where this model and a plain reading of the stage differ, the model follows
the code:

- **Missing location.** `df["location"] == location` is never true for a
  missing location. A row with a continent but no location therefore falls in
  no group and is dropped. The row count equals the count of continent rows
  only when every such row has a location (`RowAccounting.CleanedRows`).
- **Empty result.** The accumulator starts as an empty frame. If the
  continent filter keeps no row, the loop never runs, and the result has no
  columns at all (`StageProperties.CleanedColumns`).
- **Blank alternatives.** The backslash line continuations inside the
  pattern's string literal leave the next line's indentation between two bars.
  The pattern therefore has 26 alternatives: the 23 keywords and three runs of
  16, 20 and 24 spaces. `Selection.Excluded` models all 26.
  `Selection.ExcludedByKeywords` shows that the three blank runs change
  nothing for a name without a run of 16 spaces.

## Model

| member | source | states |
|---|---|---|
| Frame.Loc | covid_data.py:37-39 | `df.loc[mask, :]`: each row the mask selects keeps its multiplicity; no other row appears; a missing cell equals nothing |
| Frame.LocInOrder | covid_data.py:37-39 | the kept rows are exactly the rows at the positions the mask selects, in ascending input order |
| Frame.IndexOf | covid_data.py:38 | label lookup: `None` exactly when the label is absent; otherwise the position of its first occurrence |
| Selection.Excluded | covid_data.py:41-46 | `filter(regex=...)`: a name is excluded exactly when one of the 26 alternatives starts at some position in it |
| Selection.ExcludedByKeywords | covid_data.py:41-44 | for a name without a run of 16 spaces, the pattern matches exactly when the name contains one of the 23 keywords |
| Selection.BoosterExcluded | covid_data.py:41-48 | the pattern always matches `total_boosters` (it contains "total"), which is why line 54 re-adds it |
| Selection.KeptIndices | covid_data.py:46-52 | the positions of exactly the non-excluded columns, ascending |
| Selection.DropExcluded | covid_data.py:46-52 | the result's columns are the input columns at the kept positions, in input order, each with its label and, row for row, its cells; so every surviving name is one the pattern does not exclude; the row count is kept |
| Selection.DroppedColumns | covid_data.py:46-52 | a column survives the drop exactly when its name is not excluded |
| Selection.AssignColumn | covid_data.py:54 | assigning a column keeps the table rectangular and its row count |
| Selection.AppendedColumn | covid_data.py:54 | assigning an absent column appends it last and leaves every old cell in place |
| Selection.SelectedHeader | covid_data.py:46-54 | the selected header is the input labels the pattern keeps, in input order, then `total_boosters` |
| Selection.LeadingKept | covid_data.py:46-52 | the first two kept positions are the first two positions whose labels the pattern does not exclude |
| Selection.SelectedLeading | covid_data.py:46-54 | when the first two input labels the pattern keeps are at positions `i < j`, the selected table opens with those two labels, in that order |
| Selection.SelectData | covid_data.py:37-54 | succeeds exactly when `continent` and `total_boosters` are columns; a failure names the missing one; the result has one row per continent row |
| Selection.SelectedColumns | covid_data.py:41-54 | `total_boosters` is the last column and only there; any other column survives exactly when it is an input column whose name is not excluded |
| Selection.SelectedCells | covid_data.py:37-54 | the rows are the continent rows in order; each cell equals that row's input cell under the same label |
| Interpolation.PrevKnown | covid_data.py:71-73 | the nearest earlier number, with nothing but non-numbers in between; or none |
| Interpolation.NextKnown | covid_data.py:71-73 | the nearest later number, with nothing but non-numbers in between; or none |
| Interpolation.Interpolate | covid_data.py:71-73 | keeps the column length and leaves every present cell unchanged |
| Interpolation.InteriorGap | covid_data.py:71-73 | a missing cell between two numbers, with only missing cells between them, gets the straight-line value by position |
| Interpolation.TrailingGap | covid_data.py:71-73 | a missing cell after the last number takes that number (forward-only interpolation) |
| Interpolation.StillMissing | covid_data.py:71-73 | a cell stays missing exactly when it was missing and no number precedes it |
| Interpolation.InterpolateIdempotent | covid_data.py:71-73 | interpolating twice changes nothing more |
| Interpolation.LerpBetween | covid_data.py:71-73 | an interpolated value lies between its two end values |
| Interpolation.LerpMonotone | covid_data.py:71-73 | along a rising line, a later position never gets a smaller value |
| Interpolation.InterpolateMonotone | covid_data.py:71-73 | a non-decreasing (cumulative) column stays non-decreasing |
| Interpolation.MiddleOfThree | covid_data.py:71-73 | 100, missing, 300 becomes 100, 200, 300 |
| DateOrder.Insert | covid_data.py:70 | insertion adds exactly the one row, and keeps the rows rectangular |
| DateOrder.InsertSorted | covid_data.py:70 | inserting into a date-sorted run keeps it sorted |
| DateOrder.SortByDate | covid_data.py:70 | a permutation of the rows, in ascending date order with missing dates last, still rectangular |
| DateOrder.InsertStable | covid_data.py:70 | insertion puts the row in front of every row with its date and keeps the order of the others |
| DateOrder.SortStable | covid_data.py:70 | the sort is stable: for every date key, the rows with that key come out in their input order |
| Cleaning.Unique | covid_data.py:64 | `unique()`: contains exactly the values of the column, each once |
| Cleaning.ColumnPositions | covid_data.py:71 | succeeds exactly when every wanted label is a column, with each label's position; a failure names a wanted label that is absent |
| Cleaning.InterpolateColumns | covid_data.py:71-73 | only the target columns change, and there only missing cells; the rows stay rectangular and as many |
| Cleaning.FillMissing | covid_data.py:74 | from the given column on nothing is missing, every missing cell there becomes exactly 0, and every other cell is unchanged |
| Cleaning.ProcessGroup | covid_data.py:70-74 | the sorted, interpolated, zero-filled block has as many rows as the location, all of the table's width |
| Cleaning.Blocks | covid_data.py:66-75 | the concatenated blocks stay rectangular |
| Cleaning.PerLocation | covid_data.py:56-75 | a failure names `location`, `date` or an interpolated label that the table lacks; a success is the column-less empty frame or keeps the input's columns |
| Cleaning.Cleaned | covid_data.py:31-80 | a failure names a label the stage looks up that the input lacks or the pattern removed; a success carries only input labels |
| Cleaning.InterpolateByLocation | covid_data.py:62-75 | the loop that grows the accumulator block by block returns exactly `PerLocation` of its input |
| Cleaning.Clean | covid_data.py:31-80 | the stage as a method returns exactly `Cleaned` of its input |
| GroupProperties.PresentCellsKept | covid_data.py:71-74 | a cell present after the sort is never changed by interpolation or zero-fill |
| GroupProperties.OtherColumnsOnlyFilled | covid_data.py:56-74 | outside the three named columns, a cell changes only from missing to 0, and only from the third column on |
| GroupProperties.NothingMissingPastTwo | covid_data.py:74 | within a block, no cell from the third column on is missing |
| GroupProperties.GroupInteriorGap | covid_data.py:56-73 | in a named column of the date-sorted block, an interior gap gets the linear interpolation by row position |
| GroupProperties.GroupLeadingGap | covid_data.py:71-74 | a gap before any number, which interpolation leaves missing, ends up exactly 0 |
| StageProperties.PerLocationOutcome | covid_data.py:62-75 | the pass fails exactly when `location` is absent, or there is a row and `date` or a named column is absent; a failure names an absent label; with no row the result is the empty frame; otherwise it keeps the input's columns |
| StageProperties.CleanedColumns | covid_data.py:37-75 | output columns: none when no row has a continent; otherwise the non-excluded input columns, then `total_boosters` once, last |
| StageProperties.BoosterValues | covid_data.py:48-54 | before interpolation, `total_boosters` is, row for row, the continent-filtered input's column |
| RowAccounting.GroupsCount | covid_data.py:64-69 | taking the rows of distinct locations in turn yields each row with one of those locations, as often as it occurs, and no other row |
| RowAccounting.GroupsArePresent | covid_data.py:64-69 | over all `unique()` locations, the groups hold exactly the rows that have a location |
| RowAccounting.GroupKeys | covid_data.py:70-74 | processing a block keeps each row's location and date, up to the sort |
| RowAccounting.BlocksKeys | covid_data.py:66-75 | the concatenated blocks carry the locations and dates of the unprocessed groups |
| RowAccounting.TargetsPastKeys | covid_data.py:56-60 | the three named columns are not the location or date column |
| RowAccounting.PerLocationRows | covid_data.py:62-75 | the output holds exactly the (location, date) pairs of the input rows with a location, with multiplicity; the row counts match |
| RowAccounting.SelectedFromInput | covid_data.py:41-54 | every column the selection leaves was an input column |
| RowAccounting.SelectedKeys | covid_data.py:37-54 | after selection, the rows with a location carry, in order, the locations and dates of the continent rows with a location |
| RowAccounting.CleanedRows | covid_data.py:31-80 | the output carries exactly the (location, date) pairs of the input rows with a continent and a location, with multiplicity; when every continent row has a location, no row is lost |
| RowAccounting.KeysFromPresent | covid_data.py:37-39 | every key comes from a row with both cells present |
| RowAccounting.PresentKeysShown | covid_data.py:37-39 | every row with both cells present shows its key |
| RowAccounting.CleanedRowOrigins | covid_data.py:37-39 | every output row has the location and date of an input row that has a continent, so a row without a continent never reaches the output |
| RowAccounting.ContinentRowsKept | covid_data.py:37-39 | every input row with a continent and a location reaches the output |
| BlockOrder.Position | covid_data.py:64 | the first occurrence of a value, or the length when it is absent |
| BlockOrder.UniqueOrder | covid_data.py:64 | `unique()` orders values by their first appearance |
| BlockOrder.ProcessedBlock | covid_data.py:67-74 | a processed block keeps its location in every row, in ascending date order |
| BlockOrder.AppendGroup | covid_data.py:75 | appending a new location's date-sorted rows keeps the result grouped in order |
| BlockOrder.BlocksOrdered | covid_data.py:66-75 | the blocks are grouped by location, in the order of the locations, each in ascending date order |
| BlockOrder.FirstAppearanceOrder | covid_data.py:64-75 | rows grouped in `unique()` order follow the locations' first appearances in the input |
| BlockOrder.PerLocationOrdered | covid_data.py:62-75 | going down the output, each location's first appearance never moves back, so blocks are contiguous and in first-appearance order; dates ascend within a location |
| BlockOrder.AppendFilled | covid_data.py:75 | concatenation keeps "nothing missing from the third column on" |
| BlockOrder.BlocksFilled | covid_data.py:66-75 | every concatenated block has nothing missing from the third column on |
| BlockOrder.PerLocationFilled | covid_data.py:74-75 | in the output, no cell from the third column on is missing |

## Left out

- Scheduler registration (`covid_data.py` lines 9-17 and 101): configuration with no behaviour of its own.
- The CSV download (lines 19-23) and the spreadsheet upload (lines 82-94): I/O through libraries that are not modelled. The downloaded table is the stage's parameter, and the cleaned table is its result.
- The `print` calls and the exception wrapping (lines 24-29, 77-80, 96-99). They only log or re-raise with a message. A failure is modelled as `Failure(MissingColumn(label))`, not as the wrapped exception text.
- Cleaning.ColumnPositions: names the first absent interpolated column; the data-frame library's KeyError lists every absent one.
- Floating point. Values are exact reals, so rounding in the interpolation is not modelled.
- Interpolation.Interpolate: pandas behaviour the source does not show. It assumes the library's defaults:
  - cells before the first number stay missing;
  - cells after the last number take that number;
  - present cells are never changed, and only numbers count as known values.
- Cleaning.InterpolateColumns: interpolates the numbers of a target column even when that column also holds text. When the data-frame library reads the CSV file, it gives each column one type. A column with any non-numeric cell gets the generic object type, and `interpolate()` leaves such a column unchanged. When all three target columns have that type, it raises a TypeError. The model keeps no column types. It agrees with the library only when every present cell of the three target columns is a number.
- DateOrder.SortByDate: takes the library's sort on two keys to be stable with missing dates last; the model's sort has both properties (`SortStable`), but the library's algorithm is not modelled. The `location` key is constant within a group, so sorting by date alone gives the same order.
- Regular-expression engine: the pattern is only literal alternatives, so it is modelled as a substring search; general regular expressions are not.
- Duplicate column labels. The properties that trace cells back to the input (`SelectedCells`, `BoosterValues`, `CleanedRows` and the lemmas built on them) require distinct labels, which the CSV reader guarantees.
- In-place updates and `copy()`. The per-location loop is modelled as a method over immutable values: the accumulator is a variable that is reassigned, not a data frame that is mutated.
