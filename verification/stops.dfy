/** The stop metrics: Idle rows are counted per machine, the counts are sorted
    largest first, and the first and last machines of that ranking are reported
    as the machines with the most and the fewest stops. */
module StopRanking {
  import opened Tabular
  import opened Readings
  import opened GroupBy
  import opened Aggregates
  import opened Ordering

  /** The placeholder shown when there is no stop to rank. */
  const NO_MACHINE := "N/A"

  /** The two reported machines with their stop counts. */
  datatype StopSummary = StopSummary(most: string, mostCount: nat, fewest: string, fewestCount: nat)

  /** The values the metrics start with, kept when there is no stop. */
  const NO_STOPS := StopSummary(NO_MACHINE, 0, NO_MACHINE, 0)

  /** Number of stops of machine `m`. */
  function IdleCount(df: seq<Reading>, m: string): nat {
    |Where(df, (r: Reading) => IsIdle(r) && r.machine == m)|
  }

  /** Idle rows counted per machine, machines ascending. */
  function StopCounts(df: seq<Reading>): (r: seq<Group>)
    ensures Ascending(r) && Positive(r)
    ensures Total(r) == |Where(df, IsIdle)|
  {
    CountsWhere(df, IsIdle, MachineKey)
  }

  /** The count listed for a machine is its number of stops. */
  lemma StopCountsExact(df: seq<Reading>, m: string)
    ensures CountOf(StopCounts(df), [m]) == IdleCount(df, m)
  {
    var ofM := (r: Reading) => IsIdle(r) && r.machine == m;
    CountsWhereCount(df, IsIdle, MachineKey, [m]);
    forall r | r in df ensures And(IsIdle, MapsTo(MachineKey, [m]))(r) == ofM(r) {
      assert MachineKey(r) == [m] <==> r.machine == m;
    }
    WhereExt(df, And(IsIdle, MapsTo(MachineKey, [m])), ofM);
  }

  /** Every group of the stop table is keyed by one machine. */
  lemma StopKeysAreMachines(df: seq<Reading>)
    ensures forall g :: g in StopCounts(df) ==> |g.key| == 1
  {
    forall g | g in StopCounts(df) ensures |g.key| == 1 {
      var i :| 0 <= i < |StopCounts(df)| && StopCounts(df)[i] == g;
      CountsWhereKey(df, IsIdle, MachineKey, i);
    }
  }

  /** The metrics: with no stop they keep their initial values; otherwise the
      ends of the ranking. Rows with equal counts keep the ascending machine
      order of the count table. */
  function Summarize(df: seq<Reading>): (s: StopSummary)
    ensures s == NO_STOPS || 1 <= s.fewestCount <= s.mostCount
  {
    var idle := Where(df, IsIdle);
    if idle == [] then NO_STOPS
    else
      var ranked := RankByCount(StopCounts(df));
      if ranked == [] then NO_STOPS
      else
        var first, last := ranked[0], ranked[|ranked| - 1];
        StopKeysAreMachines(df);
        assert first in multiset(StopCounts(df)) && last in multiset(StopCounts(df));
        assert first.count >= 1 by {
          var i :| 0 <= i < |StopCounts(df)| && StopCounts(df)[i] == first;
        }
        assert first.count >= last.count by {
          if |ranked| > 1 { assert ranked[0].count >= ranked[|ranked| - 1].count; }
        }
        assert last.count >= 1 by {
          var i :| 0 <= i < |StopCounts(df)| && StopCounts(df)[i] == last;
        }
        StopSummary(first.key[0], first.count, last.key[0], last.count)
  }

  /** The metrics keep their initial values exactly when no row is Idle. */
  lemma NoStopsExactly(df: seq<Reading>)
    ensures Summarize(df) == NO_STOPS <==> forall r :: r in df ==> !IsIdle(r)
  {
    NothingSelected(df, IsIdle);
    if Where(df, IsIdle) != [] {
      var t := StopCounts(df);
      CountsWhereShape(df, IsIdle, MachineKey);
      assert Total(t) > 0;
      var ranked := RankByCount(t);
      assert |ranked| == |multiset(ranked)| == |multiset(t)| == |t|;
      assert ranked[0] in multiset(t);
      var i :| 0 <= i < |t| && t[i] == ranked[0];
      assert Summarize(df).mostCount == ranked[0].count >= 1;
    }
  }

  /** With at least one stop, each reported count is that machine's number of
      stops, both are at least 1, and every machine's number of stops lies
      between them; a machine with stops never has fewer than the "fewest". */
  lemma SummaryIsExtremes(df: seq<Reading>)
    requires exists r :: r in df && IsIdle(r)
    ensures Summarize(df).mostCount == IdleCount(df, Summarize(df).most) >= 1
    ensures Summarize(df).fewestCount == IdleCount(df, Summarize(df).fewest) >= 1
    ensures forall m :: IdleCount(df, m) <= Summarize(df).mostCount
    ensures forall m :: IdleCount(df, m) > 0 ==> Summarize(df).fewestCount <= IdleCount(df, m)
  {
    NoStopsExactly(df);
    NothingSelected(df, IsIdle);
    var t := StopCounts(df);
    var ranked := RankByCount(t);
    var s := Summarize(df);
    CountsWhereShape(df, IsIdle, MachineKey);
    StopKeysAreMachines(df);
    assert ranked != [];
    RankEndsAreExtremes(t, ranked);
    var first, last := ranked[0], ranked[|ranked| - 1];
    assert s == StopSummary(first.key[0], first.count, last.key[0], last.count);
    var i :| 0 <= i < |t| && t[i] == first;
    var j :| 0 <= j < |t| && t[j] == last;
    CountOfAt(t, i);
    CountOfAt(t, j);
    assert first.key == [s.most] && last.key == [s.fewest];
    StopCountsExact(df, s.most);
    StopCountsExact(df, s.fewest);
    forall m ensures IdleCount(df, m) <= s.mostCount
      && (IdleCount(df, m) > 0 ==> s.fewestCount <= IdleCount(df, m))
    {
      StopCountsExact(df, m);
      if IdleCount(df, m) > 0 {
        CountOfListed(t, [m]);
        var k :| 0 <= k < |t| && t[k].key == [m] && t[k].count == CountOf(t, [m]);
        assert t[k] in t;
      }
    }
  }

  /** With a stop, the metrics are read off the two ends of the ranking. */
  lemma SummaryIsRankEnds(df: seq<Reading>)
    requires exists r :: r in df && IsIdle(r)
    ensures RankByCount(StopCounts(df)) != []
    ensures RankByCount(StopCounts(df))[0] == Group([Summarize(df).most], Summarize(df).mostCount)
    ensures RankByCount(StopCounts(df))[|RankByCount(StopCounts(df))| - 1] ==
      Group([Summarize(df).fewest], Summarize(df).fewestCount)
  {
    NothingSelected(df, IsIdle);
    var t := StopCounts(df);
    var ranked := RankByCount(t);
    assert Where(df, IsIdle) != [];
    assert t != [] by { assert Total(t) > 0; }
    assert |ranked| == |t| by { assert |multiset(ranked)| == |multiset(t)|; }
    var first, last := ranked[0], ranked[|ranked| - 1];
    assert first in t && last in t by {
      assert first in multiset(t);
      assert last in multiset(t);
    }
    StopKeysAreMachines(df);
    assert first.key == [first.key[0]] && last.key == [last.key[0]];
    assert Summarize(df) == StopSummary(first.key[0], first.count, last.key[0], last.count);
  }

  /** A machine with stops is listed in the ranking with its number of stops. */
  lemma RankedStop(df: seq<Reading>, m: string)
    requires IdleCount(df, m) >= 1
    ensures Group([m], IdleCount(df, m)) in RankByCount(StopCounts(df))
  {
    var t := StopCounts(df);
    StopCountsExact(df, m);
    CountOfListed(t, [m]);
    var k :| 0 <= k < |t| && t[k].key == [m] && t[k].count == CountOf(t, [m]);
    assert t[k] in multiset(RankByCount(t));
  }

  /** Which machine is named when several tie: the most-stops machine is the
      first in code-point order among those with the largest count, and the
      fewest-stops machine the last among those with the smallest. */
  lemma SummaryNamesOnTies(df: seq<Reading>)
    requires exists r :: r in df && IsIdle(r)
    ensures forall m :: m != Summarize(df).most && IdleCount(df, m) == Summarize(df).mostCount ==>
      StrLess(Summarize(df).most, m)
    ensures forall m :: m != Summarize(df).fewest && IdleCount(df, m) == Summarize(df).fewestCount ==>
      StrLess(m, Summarize(df).fewest)
  {
    SummaryIsExtremes(df);
    SummaryIsRankEnds(df);
    var s := Summarize(df);
    var ranked := RankByCount(StopCounts(df));
    CountsWhereShape(df, IsIdle, MachineKey);
    RankByCountTies(StopCounts(df));
    forall m | m != s.most && IdleCount(df, m) == s.mostCount ensures StrLess(s.most, m) {
      RankedStop(df, m);
      TiedWithEnds(ranked, Group([m], IdleCount(df, m)));
      assert KeyLess([s.most], [m]);
    }
    forall m | m != s.fewest && IdleCount(df, m) == s.fewestCount ensures StrLess(m, s.fewest) {
      RankedStop(df, m);
      TiedWithEnds(ranked, Group([m], IdleCount(df, m)));
      assert KeyLess([m], [s.fewest]);
    }
  }

  /** The reported counts do not depend on how the sort orders machines with
      equal counts: any largest-first order of the stop table has the same
      counts at its two ends. */
  lemma SummaryTieIndependent(df: seq<Reading>, other: seq<Group>)
    requires exists r :: r in df && IsIdle(r)
    requires NonIncreasing(other) && multiset(other) == multiset(StopCounts(df))
    ensures other != []
    ensures other[0].count == Summarize(df).mostCount
    ensures other[|other| - 1].count == Summarize(df).fewestCount
  {
    NoStopsExactly(df);
    NothingSelected(df, IsIdle);
    var ranked := RankByCount(StopCounts(df));
    assert ranked != [];
    assert |other| == |multiset(other)| == |multiset(ranked)| == |ranked|;
    RankEndsTieIndependent(ranked, other);
  }
}
