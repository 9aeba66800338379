# Smart manufacturing dashboard — table logic

This project models in Dafny the data handling behind the Streamlit dashboard
for the smart manufacturing readings (`Dashboard.py`). Each reading gives a
machine, a date, a machine status, a failure type and a maintenance flag.
The model covers the following steps:

- **Sidebar filters.** The date range, the machine selection and the
  failure-type selection are applied one after another. The "Todas" and
  "Todos" sentinels, or an empty selection, switch a selection filter off.
  A start date after the end date makes the sidebar report an error, and the
  date filter is then skipped, so every date is kept.
- **Overview tables.** These are built from the filtered rows:
  - the maintenance count per machine;
  - the Running / Failure / Idle shares, with slices of 0.001 % or less hidden;
  - the machines with the most and the fewest stops;
  - the stop/failure cause breakdown, where "No Failure" is relabelled per status;
  - the real-failure counts per machine and failure type;
  - empty tables when no row is left.
- **Mean-table reshaping.** The four per-machine mean tables are joined on
  the machine, incomplete rows are dropped, and the result is melted into the
  long format the line chart reads.

Modules:

- `Tabular`: boolean-mask selection (`Where`) and column mapping (`Project`).
- `Readings`: the row type and the status / failure-type / maintenance constants.
- `Filtering`: the sidebar filters.
- `Ordering`: Python's string order and tuple order.
- `GroupBy`: `groupby(...).size()` and `sort_values(ascending=False)`.
- `Aggregates`: the maintenance, status and real-failure tables.
- `StopRanking`: the stop metrics.
- `CauseBreakdown`: the cause chart.
- `Reshape`: merge/dropna and melt.
- `Dashboard`: one refresh, end to end.

## Model

| member | source | states |
|---|---|---|
| Filtering.ApplyFilters | Dashboard.py:57-73 | Applying the date, machine and failure-type filters in turn flags an error exactly when start > end, and leaves exactly the rows every active filter admits, in their original order |
| Filtering.ApplyStep | Dashboard.py:62-73 | One filter step keeps exactly the rows it admits; a switched-off step keeps every row |
| Filtering.StepsAreConjunctive | Dashboard.py:62-73 | Running any sequence of filter steps is one selection by the conjunction of their masks |
| Filtering.StepsInAnyOrder | Dashboard.py:62-73 | Any order or repetition of the three filters gives the same rows as the source's order |
| Filtering.DateStepExact | Dashboard.py:62-67 | A reversed range keeps every row; otherwise a row survives, with its multiplicity, iff start <= date <= end |
| Filtering.MachineStepExact | Dashboard.py:69-70 | With "Todas" selected or nothing selected, every row is kept; otherwise a row survives iff its machine is selected |
| Filtering.FailureTypeStepExact | Dashboard.py:72-73 | With "Todos" selected or nothing selected, every row is kept; otherwise a row survives iff its failure type is selected |
| Filtering.Filtered | Dashboard.py:57-73 | The rows the dashboard works on: every row every active filter admits, with all its copies, and no other row, in the loaded order |
| Filtering.FilteredIsSubsequence | Dashboard.py:57-73 | The filtered rows are a subsequence of the input and never longer |
| Filtering.FilteredIdempotent | Dashboard.py:57-73 | Filtering the filtered rows again changes nothing |
| Filtering.ReversedRangeIgnoresDates | Dashboard.py:62-67 | With start > end, only the machine and failure-type filters act |
| Tabular.WhereWhere | Dashboard.py:67-73 | Two successive mask selections equal one selection by both masks |
| Tabular.WhereCommutes | Dashboard.py:67-73 | Successive mask selections commute |
| Tabular.WhereMultiset | Dashboard.py:67 | A mask selection keeps each admitted row with its full multiplicity and drops every other row |
| Tabular.ProjectCount | Dashboard.py:101 | The number of occurrences of a value in a column equals the number of rows that map to it |
| Tabular.DisjointCounts | Dashboard.py:131 | Selecting by either of two disjoint masks counts the rows of both |
| Ordering.StrLessTotal | Dashboard.py:118 | Group keys (strings) are totally ordered |
| Ordering.KeyLessTransitive | Dashboard.py:133 | The order on multi-column group keys is transitive |
| GroupBy.GroupCount | Dashboard.py:101 | A group-by count lists each distinct key once, in ascending order, with its number of occurrences; every count is positive and the counts add up to the number of rows |
| GroupBy.CountOfAt | Dashboard.py:133 | In a group-by table, looking up a listed key returns that row's count |
| GroupBy.RankByCount | Dashboard.py:118 | Sorting counts in descending order yields a non-increasing permutation of the count table |
| GroupBy.RankByCountTies | Dashboard.py:118 | Ranking an ascending group-by count table keeps rows with equal counts in ascending key order |
| GroupBy.RankEndsAreExtremes | Dashboard.py:120-123 | The first entry of a descending ranking holds the largest count and the last entry the smallest |
| GroupBy.RankEndsTieIndependent | Dashboard.py:118-123 | Any two descending orders of the same counts agree on the first and last counts |
| Aggregates.CountsWhereShape | Dashboard.py:99-103 | A guarded count table has ascending keys and positive counts, and its counts total the selected rows |
| Aggregates.MaintenanceCounts | Dashboard.py:99-103 | The maintenance table lists machines in ascending order with positive counts that total the rows flagged "Yes" |
| Aggregates.MaintenanceCountsExact | Dashboard.py:99-103 | The maintenance count of a machine is the number of its rows flagged "Yes" |
| Aggregates.MaintenanceCountsShape | Dashboard.py:99-103 | The maintenance table is empty iff no row is flagged "Yes"; otherwise it lists machines with a count of at least 1, totalling the flagged rows |
| Aggregates.StatusCountsWithinTotal | Dashboard.py:105-113 | The Running, Failure and Idle counts together never exceed the number of filtered rows |
| Aggregates.Percent | Dashboard.py:107 | A share is 0 for an empty table and lies in [0, 100] otherwise; it exceeds 0.001 iff count * 100000 > total |
| Aggregates.AllShares | Dashboard.py:105-128 | The Running, Failure and Idle slices each lie in [0, 100] and together make up at most 100 |
| Aggregates.StatusShares | Dashboard.py:125-129 | The status chart keeps only slices above 0.001, at most three, in chart order |
| Aggregates.StatusSharesBounded | Dashboard.py:125-129 | Every shown status slice lies in (0.001, 100] and the shown slices add up to at most 100 |
| Aggregates.StatusShownExactly | Dashboard.py:125-129 | A status slice is shown iff its count * 100000 exceeds the row count, and then it carries that status's percentage |
| Aggregates.RealFailureCounts | Dashboard.py:145-150 | The real-failure table lists (machine, failure type) pairs in ascending order with positive counts that total the Failure rows of a real failure type |
| Aggregates.RealFailureCountsExact | Dashboard.py:145-150 | The count for (machine, failure type) is its number of Failure rows of that type; it is 0 for "No Failure" |
| Aggregates.RealFailureCountsShape | Dashboard.py:145-150 | The real-failure table is empty iff no Failure row has a real failure type; otherwise its counts are positive and total those rows |
| StopRanking.StopCounts | Dashboard.py:116-118 | The stop table lists machines in ascending order with positive counts that total the Idle rows |
| StopRanking.Summarize | Dashboard.py:116-123 | The stop metrics either keep "N/A" and 0, or report a fewest count of at least 1 that does not exceed the most count |
| StopRanking.StopCountsExact | Dashboard.py:116-118 | The stop count listed for a machine is its number of Idle rows |
| StopRanking.NoStopsExactly | Dashboard.py:87-90 | The stop metrics keep "N/A" and 0 exactly when no filtered row is Idle |
| StopRanking.SummaryIsExtremes | Dashboard.py:116-123 | With a stop, the reported machines' counts are their Idle counts, both at least 1, and every machine's Idle count lies between them |
| StopRanking.SummaryNamesOnTies | Dashboard.py:118-123 | On a tie, the most-stops machine is the first by name among those with the largest count, and the fewest-stops machine is the last among those with the smallest |
| StopRanking.SummaryTieIndependent | Dashboard.py:118-123 | The reported counts are the same for any descending order of the stop table |
| CauseBreakdown.CauseCounts | Dashboard.py:131-133 | The cause table lists (failure type, status) pairs in ascending order with positive counts that total the Idle and Failure rows |
| CauseBreakdown.Relabel | Dashboard.py:134-141 | An Idle or Failure entry filed under "No Failure" moves to its status's label; every other entry is unchanged; no count changes |
| CauseBreakdown.Breakdown | Dashboard.py:131-143 | The chart has one entry per counted pair, and its counts total the Idle and Failure rows |
| CauseBreakdown.RelabelShows | Dashboard.py:134-141 | The two relabellings replace "No Failure" by the label of the entry's status and change nothing else |
| CauseBreakdown.CauseCountsExact | Dashboard.py:131-133 | The count for (failure type, status) is the number of Idle/Failure rows with that pair |
| CauseBreakdown.BreakdownEntriesAreCauses | Dashboard.py:131-143 | Every chart entry is an Idle or Failure pair that occurs, shown under its relabelled failure type with its row count |
| CauseBreakdown.BreakdownCoversCauses | Dashboard.py:131-143 | Every occurring Idle or Failure pair has its chart entry with its row count |
| CauseBreakdown.BreakdownShape | Dashboard.py:131-143 | No chart entry is filed under "No Failure"; each is Idle or Failure with a count of at least 1; the counts total the Idle and Failure rows |
| CauseBreakdown.RelabelKeepsTotal | Dashboard.py:134-141 | Relabelling leaves the total count unchanged |
| CauseBreakdown.RelabelInPlace | Dashboard.py:134-141 | The two in-place passes (Idle entries, then Failure entries) turn the table into its entry-by-entry relabelling |
| Reshape.Lookup | Dashboard.py:159 | The join finds no value for a machine exactly when the joined table lacks it |
| Reshape.CombineMeans | Dashboard.py:159-162 | The left joins followed by dropna never add a row to the temperature table |
| Reshape.CombineRowsJoined | Dashboard.py:159-162 | Each joined row is for a machine of the temperature table and carries the pressure, vibration and energy means those tables list for it |
| Reshape.CombineKeepsCompleteMachines | Dashboard.py:159-162 | After the left joins and dropna, the machines are those of the temperature table, in order, that every other table lists |
| Reshape.CombineSameMachines | Dashboard.py:159-162 | When the four mean tables list the same distinct machines, nothing is dropped and row i gathers the i-th mean of each table |
| Reshape.Melt | Dashboard.py:164-168 | The long table has four rows per machine, each under one of the four metric labels |
| Reshape.MeltAt | Dashboard.py:164-168 | The melted table has 4n rows; row k*n+i is metric k of machine i, under that metric's label |
| Reshape.MeltRoundTrip | Dashboard.py:164-170 | Pivoting the melted table back gives the wide mean table (melting loses nothing) |
| Dashboard.Compute | Dashboard.py:184-191 | The empty tables shown for an empty selection are exactly what the table computations give for no rows, so the guard is only a shortcut |
| Dashboard.Refresh | Dashboard.py:57-191 | One refresh flags a reversed date range, filters the rows, and builds every overview table from the filtered rows, relabelling the cause table in place |
| Dashboard.RelabelledCauses | Dashboard.py:131-141 | Copying the cause counts into an array and relabelling it in place yields the cause chart |
| Dashboard.TablesIgnoreFilterOrder | Dashboard.py:62-73 | The overview tables depend only on the rows the criteria select, not on the order the filters run in |

## Left out

- Data loading is not modelled: the CSV read, the dropping of incomplete rows and the timestamp split. A date is an integer day number that is compared as the source compares dates.
- The Streamlit widgets, the layout, the Plotly charts, the data-table tab and the caching are left out. They only display the tables modelled here.
- Per-machine means of temperature, pressure, vibration and energy are left out, because they are floating-point averages. `Reshape` is generic over the mean value type. The long table is therefore not part of `Dashboard.Tables`.
- Pearson and Spearman correlations are left out. They are floating-point numerics with no table logic.
- Aggregates.Percent: the percentages are exact rationals, not IEEE doubles. The 0.001 cut-off is decided exactly (count * 100000 > total). A double could round a share that lies extremely close to the cut-off differently.
- GroupBy.RankByCount: pandas' descending sort gives no order to machines with equal stop counts. The model keeps them in ascending machine order, so the reported names are the ones GroupBy.RankByCountTies and StopRanking.SummaryNamesOnTies state. pandas could name a different machine among equals. GroupBy.RankEndsTieIndependent and StopRanking.SummaryTieIndependent show that the reported counts do not depend on this choice.
- Ordering.StrLess: group keys are ordered by code point, as Python compares `str`. Locale collation is not modelled.
- Reshape.Lookup: the left join takes the first matching row. The tables come from group-bys, so their keys are unique, and pandas would yield one row per match.
- CauseBreakdown.Breakdown: if the data already holds a failure type spelled like one of the two replacement labels, relabelling can produce two entries with the same key, as in the source. They are not merged.
- Column names and the column schemas of the empty frames are not modelled. An empty table is an empty sequence.
