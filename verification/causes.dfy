/** The cause breakdown of stops and failures: Idle and Failure rows are
    counted per (failure type, status), and then "No Failure" is replaced by a
    label that says what such a row means for its status. */
module CauseBreakdown {
  import opened Tabular
  import opened Readings
  import opened GroupBy
  import opened Aggregates

  /** The labels that replace "No Failure" on Idle and on Failure rows. */
  const SCHEDULED_STOP := "Parada Programada/Outra"
  const UNSPECIFIED_FAILURE := "Falha (Tipo Não Especificado)"

  function CauseKey(r: Reading): Key { [r.failureType, r.status] }

  /** Idle and Failure rows counted per (failure type, status), before relabelling. */
  function CauseCounts(df: seq<Reading>): (r: seq<Group>)
    ensures Ascending(r) && Positive(r)
    ensures Total(r) == |Where(df, IsStopOrFailure)|
  {
    CountsWhere(df, IsStopOrFailure, CauseKey)
  }

  /** One relabelling rule: an entry with status `status` and failure type
      "No Failure" gets failure type `shown`. */
  function RelabelWhere(g: Group, status: string, shown: string): Group {
    if |g.key| == 2 && g.key[1] == status && g.key[0] == NO_FAILURE
    then Group([shown, g.key[1]], g.count)
    else g
  }

  /** Both rules, in the order the dashboard applies them: an Idle or Failure
      entry filed under "No Failure" moves to the label of its status, every
      other entry is left alone, and no count changes. */
  function Relabel(g: Group): (r: Group)
    ensures r.count == g.count
    ensures |g.key| == 2 && g.key[0] == NO_FAILURE && (g.key[1] == IDLE || g.key[1] == FAILURE) ==>
      r.key == [ShownCause(g.key[0], g.key[1]), g.key[1]]
    ensures !(|g.key| == 2 && g.key[0] == NO_FAILURE && (g.key[1] == IDLE || g.key[1] == FAILURE)) ==>
      r == g
  {
    RelabelWhere(RelabelWhere(g, IDLE, SCHEDULED_STOP), FAILURE, UNSPECIFIED_FAILURE)
  }

  /** The table behind the cause chart. */
  function Breakdown(df: seq<Reading>): (r: seq<Group>)
    ensures |r| == |CauseCounts(df)|
    ensures Total(r) == |Where(df, IsStopOrFailure)|
  {
    RelabelKeepsTotal(CauseCounts(df));
    Project(CauseCounts(df), Relabel)
  }

  /** The failure type an Idle or Failure row is shown under. */
  function ShownCause(failureType: string, status: string): string {
    if failureType != NO_FAILURE then failureType
    else if status == IDLE then SCHEDULED_STOP
    else UNSPECIFIED_FAILURE
  }

  /** Number of Idle or Failure rows with the given failure type and status. */
  function CauseRowCount(df: seq<Reading>, failureType: string, status: string): nat {
    |Where(df, (r: Reading) => IsStopOrFailure(r) && r.failureType == failureType && r.status == status)|
  }

  /** The two rules together replace "No Failure" by the label of the entry's status. */
  lemma RelabelShows(ft: string, st: string, n: nat)
    requires st == IDLE || st == FAILURE
    ensures Relabel(Group([ft, st], n)) == Group([ShownCause(ft, st), st], n)
  {
  }

  lemma CauseCountsExact(df: seq<Reading>, ft: string, st: string)
    ensures CountOf(CauseCounts(df), [ft, st]) == CauseRowCount(df, ft, st)
  {
    var target := (r: Reading) => IsStopOrFailure(r) && r.failureType == ft && r.status == st;
    CountsWhereCount(df, IsStopOrFailure, CauseKey, [ft, st]);
    forall r | r in df ensures And(IsStopOrFailure, MapsTo(CauseKey, [ft, st]))(r) == target(r) {
      assert CauseKey(r) == [ft, st] <==> r.failureType == ft && r.status == st;
    }
    WhereExt(df, And(IsStopOrFailure, MapsTo(CauseKey, [ft, st])), target);
  }

  /** Every entry of the chart stands for one (failure type, status) pair of
      Idle or Failure rows: it carries the pair's status, the pair's failure
      type as relabelled, and the number of rows with that pair. */
  lemma BreakdownEntriesAreCauses(df: seq<Reading>, i: nat)
    requires i < |Breakdown(df)|
    ensures exists ft, st :: ((st == IDLE || st == FAILURE) && CauseRowCount(df, ft, st) >= 1 &&
      Breakdown(df)[i] == Group([ShownCause(ft, st), st], CauseRowCount(df, ft, st)))
  {
    var t := CauseCounts(df);
    CountsWhereShape(df, IsStopOrFailure, CauseKey);
    CountsWhereKey(df, IsStopOrFailure, CauseKey, i);
    var r :| r in df && IsStopOrFailure(r) && CauseKey(r) == t[i].key;
    CountOfAt(t, i);
    CauseCountsExact(df, r.failureType, r.status);
    RelabelShows(r.failureType, r.status, t[i].count);
  }

  /** Every (failure type, status) pair of Idle or Failure rows has its entry. */
  lemma BreakdownCoversCauses(df: seq<Reading>, ft: string, st: string)
    requires (st == IDLE || st == FAILURE) && CauseRowCount(df, ft, st) >= 1
    ensures exists i :: (0 <= i < |Breakdown(df)| &&
      Breakdown(df)[i] == Group([ShownCause(ft, st), st], CauseRowCount(df, ft, st)))
  {
    var t := CauseCounts(df);
    CauseCountsExact(df, ft, st);
    CountOfListed(t, [ft, st]);
    var i :| 0 <= i < |t| && t[i].key == [ft, st] && t[i].count == CountOf(t, [ft, st]);
    assert t[i] == Group([ft, st], CauseRowCount(df, ft, st));
    RelabelShows(ft, st, t[i].count);
    assert Breakdown(df)[i] == Relabel(t[i]);
  }

  /** After relabelling no entry is filed under "No Failure"; each is an Idle or
      a Failure entry; and the counts add up to the Idle and Failure rows. */
  lemma BreakdownShape(df: seq<Reading>)
    ensures forall i :: 0 <= i < |Breakdown(df)| ==>
      |Breakdown(df)[i].key| == 2 && Breakdown(df)[i].key[0] != NO_FAILURE &&
      (Breakdown(df)[i].key[1] == IDLE || Breakdown(df)[i].key[1] == FAILURE) &&
      Breakdown(df)[i].count >= 1
    ensures Total(Breakdown(df)) == |Where(df, IsStopOrFailure)|
  {
    var t := CauseCounts(df);
    CountsWhereShape(df, IsStopOrFailure, CauseKey);
    forall i | 0 <= i < |t|
      ensures |Breakdown(df)[i].key| == 2 && Breakdown(df)[i].key[0] != NO_FAILURE &&
        (Breakdown(df)[i].key[1] == IDLE || Breakdown(df)[i].key[1] == FAILURE) &&
        Breakdown(df)[i].count >= 1
    {
      CountsWhereKey(df, IsStopOrFailure, CauseKey, i);
      var r :| r in df && IsStopOrFailure(r) && CauseKey(r) == t[i].key;
      RelabelShows(r.failureType, r.status, t[i].count);
    }
    RelabelKeepsTotal(t);
  }

  lemma {:induction false} RelabelKeepsTotal(t: seq<Group>)
    ensures Total(Project(t, Relabel)) == Total(t)
  {
    if t != [] {
      RelabelKeepsTotal(t[1..]);
      assert Project(t, Relabel)[1..] == Project(t[1..], Relabel);
    }
  }

  /** The two `.loc` assignments, done in place on the count table: the first
      pass relabels the Idle entries, the second the Failure entries. */
  method RelabelInPlace(t: array<Group>)
    modifies t
    ensures t[..] == Project(old(t[..]), Relabel)
  {
    var i := 0;
    while i < t.Length
      invariant 0 <= i <= t.Length
      invariant forall j :: 0 <= j < i ==> t[j] == RelabelWhere(old(t[j]), IDLE, SCHEDULED_STOP)
      invariant forall j :: i <= j < t.Length ==> t[j] == old(t[j])
    {
      t[i] := RelabelWhere(t[i], IDLE, SCHEDULED_STOP);
      i := i + 1;
    }
    i := 0;
    while i < t.Length
      invariant 0 <= i <= t.Length
      invariant forall j :: 0 <= j < i ==> t[j] == Relabel(old(t[j]))
      invariant forall j :: i <= j < t.Length ==> t[j] == RelabelWhere(old(t[j]), IDLE, SCHEDULED_STOP)
    {
      t[i] := RelabelWhere(t[i], FAILURE, UNSPECIFIED_FAILURE);
      i := i + 1;
    }
  }
}
