# Customer retention analysis: a verified model of the analysis step

The application loads a spreadsheet of sales/visit transactions and lets an
analyst narrow it with four multiselects: advisor type, department (CDS),
product family and area. Each multiselect offers the sentinel "Todos" ("all").
When the analyst presses "ANALIZAR DATOS", the application does the following:

1. It applies the filter chain. Each multiselect that does not hold "Todos"
   keeps only the rows whose value in that column is one of the selected
   values.
2. If no row is left, it reports that nothing matches.
3. Otherwise it builds the customer-by-year matrix:
   - it parses the date column and takes its year (an unparseable date
     becomes a missing year);
   - it drops rows without a customer id or name;
   - it counts rows per (id, name, year);
   - it pivots the counts into one row per customer and one column per
     year, with missing cells set to 0;
   - it adds a `Total_Visitas` column and sorts the rows by it, largest
     first.
4. It computes the retention metrics for 2022, 2023 and 2024:
   - clients per year;
   - the customers present in 2022 and 2023, in 2023 and 2024, in 2022 and
     2024, and in all three years;
   - each of those four counts as a percentage of the 2024 clients.

The model is split into these modules:

- `Records`: the row, with the seven columns the step reads, and the
  customer and visit keys.
- `Filters`: the filter chain. `ApplyFilters` is an imperative method of four
  conditional `isin` steps. It is proved equal to the declarative selection
  `Selected`.
- `Cohorts`: the cleaning, grouping, pivot, total and sort steps, as pure
  functions. Lemmas tie every cell, every total, the index and the columns
  back to counts over the raw filtered rows.
- `Retention`: the metrics. `RetentionMetrics` is the imperative sequence of
  guarded assignments of the source. It is proved equal to `MetricsOf`.
  Lemmas bound the results and prove that every metric is the size of a cohort
  intersection. A cohort is the set of customers that bought in a given year.
- `Analysis`: the whole step, with its two outcomes, and a worked example with
  three customers.

## Model

| member | source | states |
|---|---|---|
| Records.Attribute | app.py:78-81 | the value of a row in the filtered column: advisor type (column 11), department (13), product family (18) or area (22), or `None` for an empty cell |
| Filters.Constraints | app.py:133-143 | the four multiselects as constraints, in the order the chain applies them: advisor type, department, family, area; `ApplyFilters` is proved against it |
| Filters.Admits | app.py:133-143 | what one multiselect lets through: every row when it holds "Todos", otherwise the rows whose value in its column is present and selected; specified by `SentinelImposesNothing`, `IsinAddsConstraint` and `UnmatchedSelectionSelectsNothing` |
| Filters.AdmittedByAll | app.py:133-143 | a row passes every multiselect; `AdmittedByAllSnoc` splits off the last one |
| Filters.AdmittedByAllSnoc | app.py:133-143 | a row passes the multiselects applied so far and one more exactly when it passes the first ones and that one |
| Filters.Selected | app.py:131-143 | the rows every multiselect admits, kept in their original order: a subsequence of the input that contains a row exactly when the row is in the input and is admitted by every constraint; `SelectedCounts` gives the number of copies |
| Filters.SelectedCounts | app.py:131-143 | the selection keeps every copy of an admitted row, as a boolean mask does, and no copy of any other row |
| Filters.Isin | app.py:134 | one `isin` step: a subsequence of its input that contains a row exactly when the row's value in that column is present and is one of the selected values; a missing value never matches; `IsinCounts` gives the number of copies |
| Filters.IsinCounts | app.py:134 | an `isin` mask keeps every copy of a matching row and no copy of any other row |
| Filters.NoConstraintKeepsAll | app.py:131 | the copy made before filtering: with no constraint applied, every row is kept |
| Filters.SentinelImposesNothing | app.py:133-143 | a multiselect that holds "Todos" leaves the selection unchanged |
| Filters.IsinAddsConstraint | app.py:133-143 | without "Todos", the `isin` step applied to the rows selected so far yields the selection under one more constraint |
| Filters.Narrow | app.py:133-143 | one guarded step of the chain takes the selection under the constraints applied so far to the selection that also includes this multiselect |
| Filters.ApplyFilters | app.py:131-143 | the four guarded steps in sequence yield exactly `Selected(rows, Constraints(s))` |
| Filters.UnmatchedSelectionSelectsNothing | app.py:131-143 | a multiselect without "Todos" whose values no row carries (or that is empty) leaves no row |
| Analysis.Analyze | app.py:131-222 | the result is "no matching data" exactly when the filtered selection is empty; otherwise it holds the aggregate of the filtered rows and that table's metrics for 2022, 2023 and 2024 |
| Analysis.UnmatchedSelectionMeansNoData | app.py:145-147 | selecting only values absent from a column leads to the no-data outcome |
| Cohorts.CountRowsZero | app.py:161 | the reference row count of a (customer, year) key is 0 exactly when no row has that id, name and year |
| Cohorts.Cleaned | app.py:159 | `dropna` on id and name keeps only rows that have both |
| Cohorts.CleanedMembers | app.py:159 | a row survives `dropna` exactly when it is an input row with both an id and a name |
| Cohorts.Dated | app.py:156-161 | the (customer, year) key of each cleaned row whose date parsed, in row order; specified with `Cleaned` by `KeysAgree`, `KeysMember` and `IncompleteRowHasNoKey` |
| Cohorts.Keys | app.py:156-161 | the groupby keys of the filtered rows (`Dated` after `Cleaned`); specified by `KeysAgree`, `KeysMember` and `KeysConcat` |
| Cohorts.KeysAgree | app.py:156-161 | each groupby key occurs as many times as there are raw rows with that id, name and year; each customer has as many keys as raw dated rows; there are as many keys as complete rows |
| Cohorts.GroupSizes | app.py:161 | `groupby(...).size()`: a key is present exactly when it occurs, and its size is its multiplicity |
| Cohorts.CustomersOf | app.py:163-164 | the pivot index has no duplicates and holds exactly the customers that occur in a key |
| Cohorts.InsertYear | app.py:165 | inserting a year into ascending columns keeps them strictly ascending and adds exactly that year |
| Cohorts.YearsOf | app.py:165 | the pivot columns are strictly ascending and hold exactly the years that occur in a key |
| Cohorts.SumCells | app.py:176 | `.sum(axis=1)` over the year columns; `CellsSumVisits` and `PivotRowTotal` say what it adds up to |
| Cohorts.PivotRow | app.py:163-176 | one pivot row with `fill_value=0` and its total; specified by `PivotRowShape`, `PivotCell` and `PivotRowTotal` |
| Cohorts.PivotRowShape | app.py:163-176 | a pivot row carries exactly the year columns, and its total is the sum of its cells |
| Cohorts.Pivot | app.py:163-176 | `pivot_table` plus `Total_Visitas`, before sorting; specified by `PivotUnique`, `PivotShapes`, `PivotRowsTotal` and, through `Aggregate`, by `CellCountsRows` |
| Cohorts.PivotRows | app.py:163-168 | one matrix row per index entry, in index order |
| Cohorts.PivotCell | app.py:163-167 | each cell of a pivot row is the multiplicity of its (customer, year) key, 0 when the key is absent |
| Cohorts.PivotRowTotal | app.py:175-176 | a pivot row's total is the number of keys of its customer |
| Cohorts.InsertByTotal | app.py:177 | inserting a row into the sorted rows adds exactly that row to the multiset of rows |
| Cohorts.InsertKeepsOrder | app.py:177 | inserting into non-increasing rows keeps them non-increasing |
| Cohorts.SortByTotal | app.py:177 | the sort is a permutation of its input |
| Cohorts.SortByTotalSorts | app.py:177 | the sorted rows are non-increasing by total; the sort keeps the sum of totals and one row per customer |
| Cohorts.Aggregate | app.py:156-177 | the final table is well formed: strictly ascending columns equal to the years that occur, one row per customer, every row carrying exactly the year columns and a total equal to their sum, rows sorted by total with largest first; its rows are a permutation of the pivot |
| Cohorts.AggregateShape | app.py:163-177 | the pivot followed by the sort yields a well-formed table |
| Cohorts.AggregateRow | app.py:163-177 | every table row is the pivot row of a customer of the index |
| Cohorts.CellCountsRows | app.py:156-168 | every cell counts the filtered rows with that id, that name and a date in that year |
| Cohorts.CellZeroIffNoRow | app.py:167 | a cell is 0 (`fill_value=0`) exactly when no filtered row has that id, name and year |
| Cohorts.KeysMember | app.py:159-161 | a (customer, year) key exists exactly when some filtered row has that id, name and a date in that year |
| Cohorts.IndexIsDatedCustomers | app.py:163-164 | a customer has a table row exactly when some filtered row of theirs has a parseable date |
| Cohorts.ColumnsAreDatedYears | app.py:165 | a year has a column exactly when some filtered row has a date in it |
| Cohorts.TotalCountsCustomerRows | app.py:175-176 | `Total_Visitas` of a row is the number of filtered rows of that customer with a parseable date |
| Cohorts.TotalsAddUpToCompleteRows | app.py:156-176 | the totals add up to the number of filtered rows with an id, a name and a parseable date |
| Cohorts.KeysConcat | app.py:159-161 | with each row's year fixed on its own (see "## Left out"), cleaning and keying work row by row: the keys of two blocks of rows are the keys of each block, concatenated |
| Cohorts.IncompleteRowHasNoKey | app.py:156-161 | a row without an id, a name or a parseable date yields no key |
| Cohorts.IncompleteRowIgnored | app.py:156-177 | with each row's year fixed on its own (see "## Left out"), such a row, wherever it stands, leaves the final table unchanged |
| Retention.PositiveIn | app.py:184-212 | a row's `> 0` masks joined by `&`: the row has a positive cell in every year of the set, and a missing column counts as no visit |
| Retention.ColumnSet | app.py:183-209 | the set of year columns the `in tabla_final.columns` tests look at; `OverlapGuard` ties it to those tests |
| Retention.ClientsIn | app.py:214 | `clientes_por_año.get(y, 0)`: the recorded count of a year, or 0 when the year has no entry; `OverlapBounds` and `PercentageBounds` state their bounds through it |
| Retention.CountPositive | app.py:184-212 | `len(tabla_final[... > 0])` over one or more years; specified by `CountPositiveAntitone`, `CountIsCustomerSetSize` and `CountPositiveIsCohortSize` |
| Retention.Overlap | app.py:195-212 | a counter that starts at 0 and is set only when all its columns exist; specified by `OverlapGuard`, `OverlapBounds`, `OmissionIsExact` and `OverlapIsIntersection` |
| Retention.Present | app.py:181-193 | the `años_numeros` list; specified by `PresentMembers` and `PresentOfThree` |
| Retention.ClientsMap | app.py:180-193 | the `clientes_por_año` dictionary; specified by `ClientsMapStep` and `ClientsPerYearDefined` |
| Retention.MetricsOf | app.py:180-222 | all metrics of a table; `RetentionMetrics` computes it, and `OverlapBounds`, `PercentageBounds` and `MetricsAreCohortSizes` state its properties |
| Retention.Percentages | app.py:219-222 | one percentage per overlap; all 0 when the 2024 count is 0; otherwise each percentage is its overlap's `Percent` of the base; an overlap no larger than the base gives a percentage between 0 and 100 |
| Retention.Percent | app.py:220 | `v / base * 100`: times the base it gives 100 times `v`, and it lies in [0, 100] when `v` is at most the base |
| Retention.RetentionMetrics | app.py:180-222 | the guarded assignments compute exactly `MetricsOf`: clients and years only for analysed years that have a column, each overlap only when all of its columns exist, then the percentages of the last year's count |
| Retention.ClientsMapStep | app.py:183-193 | recording a year's count in the clients dictionary extends it by that year |
| Retention.OverlapGuard | app.py:200-209 | the "column exists" guard of an overlap holds exactly when all of its years are columns |
| Retention.PresentOfThree | app.py:181-193 | the years list has each analysed year that has a column, in window order |
| Retention.PresentMembers | app.py:181-193 | a year is in the years list exactly when it is analysed and has a column |
| Retention.ClientsPerYearDefined | app.py:183-193 | a year is a key of the clients dictionary exactly when it is analysed and has a column, and then its value counts the rows with a positive cell in that year |
| Retention.CountPositiveAntitone | app.py:200-212 | requiring more years never counts more rows, and never more than the table has |
| Retention.OverlapBounds | app.py:195-212 | each pairwise overlap is at most the clients of each of its years; the three-year overlap is at most each pairwise one; an overlap involving a year without a column is 0 |
| Retention.PercentageBounds | app.py:214-222 | four percentages; all 0 when there are no 2024 clients, otherwise each is its overlap's percentage of them; the three that involve 2024 lie between 0 and 100 |
| Retention.NoneWithoutColumn | app.py:200-212 | on a well-shaped table no row is positive in a year that has no column |
| Retention.OmissionIsExact | app.py:200-212 | on the aggregated table the column guard changes nothing: each overlap equals the plain count of rows positive in all its years |
| Retention.CohortMember | app.py:184 | a customer is in the cohort of a year exactly when some filtered row of theirs is dated that year |
| Retention.CustomerMember | app.py:163-164 | a customer is among the customers of the filtered rows exactly when some filtered row of theirs is dated |
| Retention.CountIsCustomerSetSize | app.py:184 | with one row per customer, counting positive rows counts distinct customers |
| Retention.PositiveRowInCohorts | app.py:200-212 | the customer of a row positive in every year of a set is in each of those years' cohorts |
| Retention.CohortsHavePositiveRow | app.py:200-212 | a customer in every cohort of a set of years has a row positive in all of them |
| Retention.CountPositiveIsCohortSize | app.py:184-212 | counting rows positive in a set of years gives the number of customers in every cohort of those years |
| Retention.CohortsAreCustomers | app.py:184 | every cohort is a set of counted customers |
| Retention.ColumnIffCohort | app.py:183-193 | a year has a column exactly when its cohort is not empty |
| Retention.OverlapIsIntersection | app.py:200-207 | a pairwise overlap is the size of the intersection of the two cohorts |
| Retention.TripleOverlapIsIntersection | app.py:209-212 | the three-year overlap is the size of the intersection of the three cohorts |
| Retention.ClientsAreCohortSizes | app.py:183-193 | a year has a clients entry exactly when it is analysed and its cohort is non-empty, and the entry is the cohort's size |
| Retention.MetricsAreCohortSizes | app.py:180-212 | every metric of the filtered rows is a cohort size or a cohort-intersection size, whether or not the columns exist |
| Analysis.ExampleCohorts | app.py:156-168 | in the worked example the 2022, 2023 and 2024 cohorts are {B, C}, {A, C} and {A, C} |
| Analysis.MetricsOfExampleCohorts | app.py:180-222 | any rows with those cohorts have 2 clients a year, overlaps 1, 2, 1, 1, and percentages 50, 100, 50, 50 |
| Analysis.ExampleMetrics | app.py:131-222 | the worked example's metrics, the row without an id ignored |

## Left out

- Loading the spreadsheet, its cache, the page layout, the charts, the tables shown and the Excel export are I/O and presentation. They are not modelled.
- Date parsing (`pd.to_datetime(..., errors='coerce')` and `.dt.year`) is an external library call. A row carries its year already extracted, or `None` when the date is missing or does not parse. The model fixes each row's year independently of the other rows. Called without a `format`, the library may instead infer one date format for the whole filtered column from its first non-empty date, so whether a row's date parses can depend on which other rows survived the filters, including rows without an id or a name. `Cohorts.KeysConcat` and `Cohorts.IncompleteRowIgnored` hold under the per-row abstraction only.
- The renaming of year columns to `Visitas_<year>` (lines 170–173) is not modelled. Columns are identified by the year itself, and the `Visitas_<year>` lookups of the metrics become lookups of that year. The clients dictionary is keyed by the integer year instead of the string `'2022'`.
- Cell values are modelled as strings and compared for equality. pandas dtype coercion (a numeric id read as a float, say) is not modelled.
- Cohorts.SortByTotal: the order among rows with equal totals is left open; the model promises only non-increasing totals and a permutation. pandas' default sort does not guarantee a stable order of ties either.
- Retention.Percentages: percentages are exact rationals. Floating-point rounding of `(v / total) * 100` and the display formatting are not modelled.
- When no filtered row has an id, a name and a parseable date, there are no groupby keys, and the model's table is empty with no columns. The behaviour of `pivot_table` on an empty frame is a library detail and is not modelled.
- The analysed window 2022/2023/2024 is fixed in the source (`Analysed`). `Window` is a parameter of the model only so that the lemmas are stated for any three years.

## Notes on the code

- Customers are keyed by the (id, name) pair, so two rows with the same id and different names are two customers. The model follows the code.
- `Total_Visitas` counts only rows with a parseable date, because undated rows have no groupby key (`Cohorts.TotalCountsCustomerRows`, `Cohorts.IncompleteRowIgnored`).
- The 2022→2023 percentage is taken over the 2024 clients, like the other three. It is therefore not bounded by 100 (`Retention.PercentageBounds` bounds only the three overlaps that involve 2024).
