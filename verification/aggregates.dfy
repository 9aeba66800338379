/** The count tables behind the overview charts: maintenance requests per
    machine, the share of each machine status, and real failures per machine
    and failure type. Each is a function of the filtered rows only. */
module Aggregates {
  import opened Tabular
  import opened Readings
  import opened GroupBy

  /** Grouping keys of the count tables. */
  function MachineKey(r: Reading): Key { [r.machine] }

  function FailureKey(r: Reading): Key { [r.machine, r.failureType] }

  /** `groupby(key).size()` over the rows `p` admits, or the empty table when
      no row is admitted. */
  function CountsWhere(rows: seq<Reading>, p: Reading -> bool, key: Reading -> Key): seq<Group> {
    var selected := Where(rows, p);
    if selected == [] then [] else GroupCount(Project(selected, key))
  }

  /** A guarded count table has ascending keys, no empty group, and counts
      adding up to the number of admitted rows. */
  lemma CountsWhereShape(rows: seq<Reading>, p: Reading -> bool, key: Reading -> Key)
    ensures Ascending(CountsWhere(rows, p, key)) && Positive(CountsWhere(rows, p, key))
    ensures Total(CountsWhere(rows, p, key)) == |Where(rows, p)|
  {
  }

  /** The count a guarded table lists for `k` is the number of admitted rows
      whose key is `k`. */
  lemma CountsWhereCount(rows: seq<Reading>, p: Reading -> bool, key: Reading -> Key, k: Key)
    ensures CountOf(CountsWhere(rows, p, key), k) == |Where(rows, And(p, MapsTo(key, k)))|
  {
    ProjectCount(Where(rows, p), key, k);
    WhereWhere(rows, p, MapsTo(key, k));
  }

  /** Every key a guarded table lists is the key of an admitted row. */
  lemma CountsWhereKey(rows: seq<Reading>, p: Reading -> bool, key: Reading -> Key, i: nat)
    requires i < |CountsWhere(rows, p, key)|
    ensures exists r :: r in rows && p(r) && key(r) == CountsWhere(rows, p, key)[i].key
  {
    var selected := Where(rows, p);
    var t := CountsWhere(rows, p, key);
    assert t[i] in t;
    assert t[i].key in KeySet(t);
    var j :| 0 <= j < |Project(selected, key)| && Project(selected, key)[j] == t[i].key;
    assert selected[j] in selected;
  }

  /** A selection is empty exactly when no row is admitted. */
  lemma NothingSelected(rows: seq<Reading>, p: Reading -> bool)
    ensures Where(rows, p) == [] <==> forall r :: r in rows ==> !p(r)
  {
    if exists r :: r in rows && p(r) {
      var r :| r in rows && p(r);
      WhereMultiset(rows, p, r);
    } else if Where(rows, p) != [] {
      assert Where(rows, p)[0] in Where(rows, p);
    }
  }

  // ---------------------------------------------------------------------
  // Maintenance requests per machine

  /** Rows asking for maintenance, counted per machine. */
  function MaintenanceCounts(df: seq<Reading>): (r: seq<Group>)
    ensures Ascending(r) && Positive(r)
    ensures Total(r) == |Where(df, NeedsMaintenance)|
  {
    CountsWhere(df, NeedsMaintenance, MachineKey)
  }

  /** Each machine's count is exactly its number of maintenance requests
      (0 for a machine that is not listed). */
  lemma MaintenanceCountsExact(df: seq<Reading>, m: string)
    ensures CountOf(MaintenanceCounts(df), [m]) ==
      |Where(df, (r: Reading) => NeedsMaintenance(r) && r.machine == m)|
  {
    CountsWhereCount(df, NeedsMaintenance, MachineKey, [m]);
    forall r | r in df
      ensures And(NeedsMaintenance, MapsTo(MachineKey, [m]))(r) == (NeedsMaintenance(r) && r.machine == m)
    {
      assert MachineKey(r) == [m] <==> r.machine == m;
    }
    WhereExt(df, And(NeedsMaintenance, MapsTo(MachineKey, [m])),
      (r: Reading) => NeedsMaintenance(r) && r.machine == m);
  }

  /** One group per machine that asked for maintenance, machines ascending,
      counts adding up to all requests; empty when there is no request. */
  lemma MaintenanceCountsShape(df: seq<Reading>)
    ensures Ascending(MaintenanceCounts(df)) && Positive(MaintenanceCounts(df))
    ensures forall i :: 0 <= i < |MaintenanceCounts(df)| ==>
      exists r :: r in df && NeedsMaintenance(r) && MaintenanceCounts(df)[i].key == [r.machine]
    ensures Total(MaintenanceCounts(df)) == |Where(df, NeedsMaintenance)|
    ensures MaintenanceCounts(df) == [] <==> forall r :: r in df ==> !NeedsMaintenance(r)
  {
    CountsWhereShape(df, NeedsMaintenance, MachineKey);
    forall i | 0 <= i < |MaintenanceCounts(df)|
      ensures exists r :: r in df && NeedsMaintenance(r) && MaintenanceCounts(df)[i].key == [r.machine]
    {
      CountsWhereKey(df, NeedsMaintenance, MachineKey, i);
    }
    NothingSelected(df, NeedsMaintenance);
  }

  // ---------------------------------------------------------------------
  // Real failures per machine and failure type

  /** Failures of a known type, counted per (machine, failure type). */
  function RealFailureCounts(df: seq<Reading>): (r: seq<Group>)
    ensures Ascending(r) && Positive(r)
    ensures Total(r) == |Where(df, IsRealFailure)|
  {
    CountsWhere(df, IsRealFailure, FailureKey)
  }

  /** Only failures of a known type are counted: a pair with "No Failure"
      has count 0, any other pair counts its failure rows. */
  lemma RealFailureCountsExact(df: seq<Reading>, m: string, ft: string)
    ensures CountOf(RealFailureCounts(df), [m, ft]) ==
      if ft == NO_FAILURE then 0
      else |Where(df, (r: Reading) => r.status == FAILURE && r.machine == m && r.failureType == ft)|
  {
    CountsWhereCount(df, IsRealFailure, FailureKey, [m, ft]);
    if ft == NO_FAILURE {
      NothingSelected(df, And(IsRealFailure, MapsTo(FailureKey, [m, ft])));
    } else {
      WhereExt(df, And(IsRealFailure, MapsTo(FailureKey, [m, ft])),
        (r: Reading) => r.status == FAILURE && r.machine == m && r.failureType == ft);
    }
  }

  /** One group per (machine, failure type) pair that failed, pairs ascending,
      none with "No Failure", counts adding up to the real failures; empty when
      there is none. */
  lemma RealFailureCountsShape(df: seq<Reading>)
    ensures Ascending(RealFailureCounts(df)) && Positive(RealFailureCounts(df))
    ensures forall i :: 0 <= i < |RealFailureCounts(df)| ==>
      |RealFailureCounts(df)[i].key| == 2 && RealFailureCounts(df)[i].key[1] != NO_FAILURE
    ensures Total(RealFailureCounts(df)) == |Where(df, IsRealFailure)|
    ensures RealFailureCounts(df) == [] <==> forall r :: r in df ==> !IsRealFailure(r)
  {
    var t := RealFailureCounts(df);
    CountsWhereShape(df, IsRealFailure, FailureKey);
    forall i | 0 <= i < |t| ensures |t[i].key| == 2 && t[i].key[1] != NO_FAILURE {
      CountsWhereKey(df, IsRealFailure, FailureKey, i);
      var r :| r in df && IsRealFailure(r) && FailureKey(r) == t[i].key;
    }
    NothingSelected(df, IsRealFailure);
  }

  // ---------------------------------------------------------------------
  // Share of each machine status

  /** The mask of rows in status `s`. */
  function HasStatus(s: string): Reading -> bool {
    (r: Reading) => r.status == s
  }

  /** Number of rows in status `s`. */
  function StatusCount(df: seq<Reading>, s: string): nat {
    |Where(df, HasStatus(s))|
  }

  /** A row has one status, so the three counted statuses never add up to more
      rows than there are. */
  lemma StatusCountsWithinTotal(df: seq<Reading>)
    ensures StatusCount(df, RUNNING) + StatusCount(df, FAILURE) + StatusCount(df, IDLE) <= |df|
  {
    DisjointCounts(df, HasStatus(RUNNING), HasStatus(FAILURE));
    DisjointCounts(df, Or(HasStatus(RUNNING), HasStatus(FAILURE)), HasStatus(IDLE));
  }

  /** Shares at or below this percentage are not shown. */
  const THRESHOLD: real := 0.001

  /** `count / total * 100`, or 0 when there are no rows. */
  function Percent(count: nat, total: nat): (p: real)
    ensures total == 0 ==> p == 0.0
    ensures count <= total ==> 0.0 <= p <= 100.0
    ensures total > 0 ==> (p > THRESHOLD <==> count * 100000 > total)
  {
    if total > 0 then
      var p := (count as real * 100.0) / total as real;
      PercentAboveThreshold(p, count, total);
      PercentBounded(p, count, total);
      p
    else 0.0
  }

  lemma PercentAboveThreshold(p: real, count: nat, total: nat)
    requires total > 0 && p == (count as real * 100.0) / total as real
    ensures p > THRESHOLD <==> count * 100000 > total
  {
    var n := total as real;
    assert p * n == count as real * 100.0;
    if p > THRESHOLD {
      assert p * n > THRESHOLD * n;
    } else {
      assert p * n <= THRESHOLD * n;
    }
  }

  lemma PercentBounded(p: real, count: nat, total: nat)
    requires total > 0 && p == (count as real * 100.0) / total as real
    ensures 0.0 <= p
    ensures count <= total ==> p <= 100.0
  {
    var n := total as real;
    assert p * n == count as real * 100.0;
    if count <= total {
      assert count as real * 100.0 <= n * 100.0;
      assert p * n <= 100.0 * n;
    }
  }

  /** One slice of the status chart: its label and its percentage. */
  datatype StatusShare = StatusShare(name: string, percent: real)

  /** The chart labels of the three statuses, in chart order. */
  const RUNNING_LABEL := "Rodando"
  const FAILURE_LABEL := "Em Falha"
  const IDLE_LABEL := "Paradas"

  /** The three slices before small ones are dropped: each is a percentage of
      the rows, and together they make up at most the whole table. */
  function AllShares(df: seq<Reading>): (r: seq<StatusShare>)
    ensures |r| == 3
    ensures forall i :: 0 <= i < 3 ==> 0.0 <= r[i].percent <= 100.0
    ensures r[0].percent + r[1].percent + r[2].percent <= 100.0
  {
    var n := |df|;
    var running, failure, idle := StatusCount(df, RUNNING), StatusCount(df, FAILURE), StatusCount(df, IDLE);
    StatusCountsWithinTotal(df);
    PercentAdds(running, failure, n);
    PercentAdds(running + failure, idle, n);
    assert Percent(running + failure + idle, n) <= 100.0;
    [StatusShare(RUNNING_LABEL, Percent(StatusCount(df, RUNNING), |df|)),
     StatusShare(FAILURE_LABEL, Percent(StatusCount(df, FAILURE), |df|)),
     StatusShare(IDLE_LABEL, Percent(StatusCount(df, IDLE), |df|))]
  }

  predicate Visible(e: StatusShare) { e.percent > THRESHOLD }

  /** The status chart: slices above the threshold, in chart order. */
  function StatusShares(df: seq<Reading>): (r: seq<StatusShare>)
    ensures IsSubsequence(r, AllShares(df)) && |r| <= 3
    ensures forall e :: e in r ==> Visible(e)
  {
    WhereIsSubsequence(AllShares(df), Visible);
    Where(AllShares(df), Visible)
  }

  function SumPercent(t: seq<StatusShare>): real {
    if t == [] then 0.0 else t[0].percent + SumPercent(t[1..])
  }

  lemma {:induction false} SumPercentOfVisible(t: seq<StatusShare>)
    requires forall i :: 0 <= i < |t| ==> t[i].percent >= 0.0
    ensures SumPercent(Where(t, Visible)) <= SumPercent(t)
  {
    if t != [] {
      SumPercentOfVisible(t[1..]);
      if Visible(t[0]) {
        assert ([t[0]] + Where(t[1..], Visible))[1..] == Where(t[1..], Visible);
      }
    }
  }

  lemma PercentAdds(a: nat, b: nat, n: nat)
    ensures Percent(a, n) + Percent(b, n) == Percent(a + b, n)
  {
    if n > 0 {
      assert (a as real * 100.0) / n as real + (b as real * 100.0) / n as real
        == ((a as real * 100.0) + (b as real * 100.0)) / n as real;
    }
  }

  lemma SumOfThree(a: StatusShare, b: StatusShare, c: StatusShare)
    ensures SumPercent([a, b, c]) == a.percent + b.percent + c.percent
  {
    assert [c][1..] == [];
    assert SumPercent([c]) == c.percent;
    assert [b, c][1..] == [c];
    assert SumPercent([b, c]) == b.percent + c.percent;
    assert [a, b, c][1..] == [b, c];
  }

  /** The three percentages add up to at most 100. */
  lemma AllSharesSum(df: seq<Reading>)
    ensures SumPercent(AllShares(df)) <= 100.0
  {
    var all := AllShares(df);
    assert all == [all[0], all[1], all[2]];
    SumOfThree(all[0], all[1], all[2]);
  }

  /** Every slice shown lies above the threshold and at most 100, and the
      shown slices add up to at most 100. */
  lemma StatusSharesBounded(df: seq<Reading>)
    ensures forall e :: e in StatusShares(df) ==> THRESHOLD < e.percent <= 100.0
    ensures SumPercent(StatusShares(df)) <= 100.0
  {
    AllSharesSum(df);
    SumPercentOfVisible(AllShares(df));
  }

  /** The status counted by each slice of `AllShares`. */
  const STATUSES := [RUNNING, FAILURE, IDLE]

  /** Slice `k` is shown exactly when status `k` makes up more than one in
      100000 of the rows, and then carries that status's percentage; so a
      status with no rows, or an empty table, never gets a slice. */
  lemma StatusShownExactly(df: seq<Reading>, k: nat)
    requires k < 3
    ensures (exists e :: e in StatusShares(df) && e.name == AllShares(df)[k].name) <==>
      StatusCount(df, STATUSES[k]) * 100000 > |df|
    ensures forall e :: e in StatusShares(df) && e.name == AllShares(df)[k].name ==>
      e.percent == Percent(StatusCount(df, STATUSES[k]), |df|)
  {
    var all := AllShares(df);
    assert all[k].percent == Percent(StatusCount(df, STATUSES[k]), |df|);
    WhereMultiset(all, Visible, all[k]);
    if StatusCount(df, STATUSES[k]) * 100000 > |df| {
      assert all[k] in multiset(StatusShares(df));
    }
    forall e | e in StatusShares(df) && e.name == all[k].name
      ensures e == all[k]
    {
      assert e in all;
    }
  }
}
