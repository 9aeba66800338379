/** One refresh of the dashboard: filter the readings, then build every count
    table the charts and metrics show from the filtered rows, with empty tables
    when the filters leave no row. */
module Dashboard {
  import opened Tabular
  import opened Readings
  import opened GroupBy
  import opened Filtering
  import opened Aggregates
  import opened StopRanking
  import opened CauseBreakdown

  /** The tables behind the overview tab. */
  datatype Tables = Tables(
    maintenance: seq<Group>,
    statusShares: seq<StatusShare>,
    stops: StopSummary,
    causes: seq<Group>,
    realFailures: seq<Group>)

  /** What the overview shows when the filters leave no row. */
  const EMPTY_TABLES := Tables([], [], NO_STOPS, [], [])

  /** Every table computed from the rows, without looking at whether any is left. */
  function Unguarded(df: seq<Reading>): Tables {
    Tables(MaintenanceCounts(df), StatusShares(df), Summarize(df), Breakdown(df), RealFailureCounts(df))
  }

  /** The overview tables of the filtered rows. The empty-table branch is only
      a shortcut: every table of an empty row set is already empty, and the stop
      metrics keep their initial values. */
  function Compute(df: seq<Reading>): (t: Tables)
    ensures t == Unguarded(df)
  {
    if df == [] then
      assert Where(df, IsIdle) == [];
      assert StatusShares(df) == [] by {
        assert Percent(StatusCount(df, RUNNING), 0) == 0.0;
        assert Percent(StatusCount(df, FAILURE), 0) == 0.0;
        assert Percent(StatusCount(df, IDLE), 0) == 0.0;
      }
      EMPTY_TABLES
    else Unguarded(df)
  }

  /** A refresh: the filters of the sidebar, then the tables. The cause table is
      copied into an array and relabelled in place, as the two `.loc`
      assignments do. */
  method Refresh(rows: seq<Reading>, c: Criteria) returns (dateError: bool, df: seq<Reading>, tables: Tables)
    ensures dateError <==> c.start > c.end
    ensures df == Filtered(rows, c)
    ensures tables == Compute(df)
  {
    df, dateError := ApplyFilters(rows, c);
    if df == [] {
      tables := EMPTY_TABLES;
      return;
    }
    var causes := RelabelledCauses(df);
    tables := Tables(MaintenanceCounts(df), StatusShares(df), Summarize(df), causes, RealFailureCounts(df));
  }

  /** The cause table as the dashboard builds it: the counts are copied into a
      fresh array and relabelled there in place. */
  method RelabelledCauses(df: seq<Reading>) returns (causes: seq<Group>)
    ensures causes == Breakdown(df)
  {
    var counts := CauseCounts(df);
    var table := new Group[|counts|](i requires 0 <= i < |counts| => counts[i]);
    RelabelInPlace(table);
    causes := table[..];
  }

  /** The tables depend only on which rows the criteria select, not on the
      order in which the filters run. */
  lemma TablesIgnoreFilterOrder(rows: seq<Reading>, c: Criteria, steps: seq<Step>)
    requires DateStep in steps && MachineStep in steps && FailureTypeStep in steps
    ensures Compute(ApplySteps(rows, c, steps)) == Compute(Filtered(rows, c))
  {
    StepsInAnyOrder(rows, c, steps);
  }
}
