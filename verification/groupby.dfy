/** `groupby(columns).size()` / `.count()`: one row per distinct key, the keys
    in ascending order, each with the number of input rows carrying it; and
    `sort_values(ascending=False)` on such a count table. */
module GroupBy {
  import opened Ordering

  /** The values of the grouping columns of one row, in column order. */
  type Key = seq<string>

  /** One row of a count table. */
  datatype Group = Group(key: Key, count: nat)

  /** Keys strictly ascending (so also pairwise distinct). */
  predicate Ascending(t: seq<Group>) {
    forall i, j :: 0 <= i < j < |t| ==> KeyLess(t[i].key, t[j].key)
  }

  /** Every listed group holds at least one row. */
  predicate Positive(t: seq<Group>) {
    forall i :: 0 <= i < |t| ==> t[i].count >= 1
  }

  function KeySet(t: seq<Group>): set<Key> {
    set g | g in t :: g.key
  }

  /** The count listed for `k`, 0 when `k` has no row. */
  function CountOf(t: seq<Group>, k: Key): nat {
    if t == [] then 0 else if t[0].key == k then t[0].count else CountOf(t[1..], k)
  }

  /** The sum of the counts. */
  function Total(t: seq<Group>): nat {
    if t == [] then 0 else t[0].count + Total(t[1..])
  }

  lemma {:induction false} CountOfAbsent(t: seq<Group>, k: Key)
    requires k !in KeySet(t)
    ensures CountOf(t, k) == 0
  {
    if t != [] {
      assert t[0] in t;
      assert KeySet(t[1..]) <= KeySet(t) by {
        forall g | g in t[1..] ensures g in t { }
      }
      CountOfAbsent(t[1..], k);
    }
  }

  /** In an ascending table the count listed for a row's key is that row's count. */
  lemma {:induction false} CountOfAt(t: seq<Group>, i: nat)
    requires Ascending(t) && i < |t|
    ensures CountOf(t, t[i].key) == t[i].count
  {
    if i > 0 {
      assert KeyLess(t[0].key, t[i].key);
      KeyLessIrreflexive(t[i].key);
      CountOfAt(t[1..], i - 1);
    }
  }

  /** A key with a non-zero count is listed, on a row holding that count. */
  lemma {:induction false} CountOfListed(t: seq<Group>, k: Key)
    requires CountOf(t, k) > 0
    ensures exists i :: 0 <= i < |t| && t[i].key == k && t[i].count == CountOf(t, k)
  {
    if t[0].key != k {
      CountOfListed(t[1..], k);
      var i :| 0 <= i < |t[1..]| && t[1..][i].key == k && t[1..][i].count == CountOf(t, k);
      assert t[i + 1] == t[1..][i];
    }
  }

  /** Adds one row with key `k` to an ascending count table: the count of an
      existing group grows by one, a new key gets a group of its own in order. */
  function Insert(t: seq<Group>, k: Key): seq<Group> {
    if t == [] then [Group(k, 1)]
    else if t[0].key == k then [Group(k, t[0].count + 1)] + t[1..]
    else if KeyLess(k, t[0].key) then [Group(k, 1)] + t
    else [t[0]] + Insert(t[1..], k)
  }

  lemma KeySetCons(g: Group, t: seq<Group>)
    ensures KeySet([g] + t) == {g.key} + KeySet(t)
  {
    assert forall x :: x in [g] + t <==> x == g || x in t;
  }

  lemma {:induction false} InsertKeys(t: seq<Group>, k: Key)
    ensures KeySet(Insert(t, k)) == KeySet(t) + {k}
  {
    if t != [] {
      KeySetCons(t[0], t[1..]);
      assert t == [t[0]] + t[1..];
      if t[0].key == k {
        KeySetCons(Group(k, t[0].count + 1), t[1..]);
      } else if KeyLess(k, t[0].key) {
        KeySetCons(Group(k, 1), t);
      } else {
        InsertKeys(t[1..], k);
        KeySetCons(t[0], Insert(t[1..], k));
      }
    }
  }

  lemma {:induction false} InsertTotalAndPositive(t: seq<Group>, k: Key)
    requires Positive(t)
    ensures Positive(Insert(t, k))
    ensures Total(Insert(t, k)) == Total(t) + 1
  {
    if t != [] && t[0].key != k && !KeyLess(k, t[0].key) {
      InsertTotalAndPositive(t[1..], k);
      assert ([t[0]] + Insert(t[1..], k))[1..] == Insert(t[1..], k);
    } else if t != [] {
      assert Insert(t, k)[1..] == (if t[0].key == k then t[1..] else t);
    }
  }

  /** A key below the first key of an ascending table is below all of them. */
  lemma BelowAll(t: seq<Group>, k: Key)
    requires Ascending(t) && t != [] && KeyLess(k, t[0].key)
    ensures forall j :: 0 <= j < |t| ==> KeyLess(k, t[j].key)
    ensures k !in KeySet(t)
  {
    forall j | 0 <= j < |t| ensures KeyLess(k, t[j].key) {
      if j > 0 { KeyLessTransitive(k, t[0].key, t[j].key); }
    }
    if k in KeySet(t) {
      var g :| g in t && g.key == k;
      var j :| 0 <= j < |t| && t[j] == g;
      KeyLessIrreflexive(k);
    }
  }

  lemma {:induction false} InsertAscending(t: seq<Group>, k: Key)
    requires Ascending(t)
    ensures Ascending(Insert(t, k))
  {
    if t == [] {
    } else if t[0].key == k {
      var r := Insert(t, k);
      assert forall i :: 0 <= i < |t| ==> r[i].key == t[i].key;
    } else if KeyLess(k, t[0].key) {
      BelowAll(t, k);
    } else {
      KeyLessTotal(k, t[0].key);
      var rest := Insert(t[1..], k);
      InsertAscending(t[1..], k);
      InsertKeys(t[1..], k);
      forall j | 0 <= j < |rest| ensures KeyLess(t[0].key, rest[j].key) {
        assert rest[j] in rest;
        assert rest[j].key in KeySet(rest);
        if rest[j].key != k {
          var g :| g in t[1..] && g.key == rest[j].key;
          var m :| 0 <= m < |t[1..]| && t[1..][m] == g;
          assert t[m + 1] == g;
        }
      }
    }
  }

  lemma {:induction false} InsertCounts(t: seq<Group>, k: Key, j: Key)
    requires Ascending(t)
    ensures CountOf(Insert(t, k), j) == CountOf(t, j) + (if j == k then 1 else 0)
  {
    if t == [] {
    } else if t[0].key == k {
      if j == k {
        assert k !in KeySet(t[1..]) by {
          if k in KeySet(t[1..]) {
            var g :| g in t[1..] && g.key == k;
            var m :| 0 <= m < |t[1..]| && t[1..][m] == g;
            assert KeyLess(t[0].key, t[m + 1].key);
            KeyLessIrreflexive(k);
          }
        }
        CountOfAbsent(t[1..], k);
      }
      assert Insert(t, k)[1..] == t[1..];
    } else if KeyLess(k, t[0].key) {
      BelowAll(t, k);
      if j == k { CountOfAbsent(t, k); }
      assert Insert(t, k)[1..] == t;
    } else {
      InsertCounts(t[1..], k, j);
      assert Insert(t, k)[1..] == Insert(t[1..], k);
    }
  }

  /** The count table of a column of keys: `groupby(...).size()`. */
  function GroupCount(ks: seq<Key>): (r: seq<Group>)
    ensures Ascending(r) && Positive(r)
    ensures KeySet(r) == set k | k in ks
    ensures forall k :: CountOf(r, k) == multiset(ks)[k]
    ensures Total(r) == |ks|
  {
    if ks == [] then []
    else
      var init := ks[..|ks| - 1];
      var last := ks[|ks| - 1];
      assert ks == init + [last];
      assert (set k | k in ks) == (set k | k in init) + {last};
      var prior := GroupCount(init);
      InsertKeys(prior, last);
      InsertTotalAndPositive(prior, last);
      InsertAscending(prior, last);
      assert forall k :: CountOf(Insert(prior, last), k) == multiset(ks)[k] by {
        forall k ensures CountOf(Insert(prior, last), k) == multiset(ks)[k] {
          InsertCounts(prior, last, k);
        }
      }
      Insert(prior, last)
  }

  /** Count tables ordered by count, largest first. */
  predicate NonIncreasing(t: seq<Group>) {
    forall i, j :: 0 <= i < j < |t| ==> t[i].count >= t[j].count
  }

  /** The first row of a largest-first table bounds any rearrangement of the
      other rows together with a row no larger than it. */
  lemma HeadBoundsRest(t: seq<Group>, g: Group, rest: seq<Group>)
    requires NonIncreasing(t) && t != [] && g.count <= t[0].count
    requires multiset(rest) == multiset(t[1..]) + multiset{g}
    ensures forall j :: 0 <= j < |rest| ==> t[0].count >= rest[j].count
  {
    forall j | 0 <= j < |rest| ensures t[0].count >= rest[j].count {
      assert rest[j] in multiset(rest);
      if rest[j] != g {
        assert rest[j] in multiset(t[1..]);
        var m :| 0 <= m < |t[1..]| && t[1..][m] == rest[j];
        assert t[m + 1] == rest[j];
      }
    }
  }

  /** Places `g` after every row whose count is at least its own. */
  function InsertByCount(t: seq<Group>, g: Group): (r: seq<Group>)
    requires NonIncreasing(t)
    ensures NonIncreasing(r)
    ensures multiset(r) == multiset(t) + multiset{g}
  {
    if t == [] then [g]
    else if g.count > t[0].count then [g] + t
    else
      var rest := InsertByCount(t[1..], g);
      assert t == [t[0]] + t[1..];
      HeadBoundsRest(t, g, rest);
      [t[0]] + rest
  }

  /** `sort_values(ascending=False)` on the counts; rows with equal counts keep
      their relative order. */
  function RankByCount(t: seq<Group>): (r: seq<Group>)
    ensures NonIncreasing(r)
    ensures multiset(r) == multiset(t)
  {
    if t == [] then []
    else
      assert t == t[..|t| - 1] + [t[|t| - 1]];
      InsertByCount(RankByCount(t[..|t| - 1]), t[|t| - 1])
  }

  /** Rows with equal counts appear in ascending key order. */
  predicate TiesAscending(t: seq<Group>) {
    forall i, j :: 0 <= i < j < |t| && t[i].count == t[j].count ==> KeyLess(t[i].key, t[j].key)
  }

  /** A row with a larger count than every other row ties with none of them. */
  lemma TiesAscendingFront(t: seq<Group>, g: Group)
    requires NonIncreasing(t) && TiesAscending(t) && t != [] && g.count > t[0].count
    ensures TiesAscending([g] + t)
  {
    var r := [g] + t;
    assert forall j :: 0 < j < |r| ==> r[j] == t[j - 1] && r[j].count < g.count;
    forall i, j | 0 <= i < j < |r| && r[i].count == r[j].count ensures KeyLess(r[i].key, r[j].key) {
      assert i > 0;
      assert r[i] == t[i - 1] && r[j] == t[j - 1];
    }
  }

  /** Putting `h` in front of rows that are all below it in count, or tied with
      it and above it in key, keeps ties in key order. */
  lemma TiesAscendingCons(h: Group, rest: seq<Group>)
    requires TiesAscending(rest)
    requires forall x :: x in rest && x.count == h.count ==> KeyLess(h.key, x.key)
    ensures TiesAscending([h] + rest)
  {
    var r := [h] + rest;
    forall i, j | 0 <= i < j < |r| && r[i].count == r[j].count ensures KeyLess(r[i].key, r[j].key) {
      assert r[j] == rest[j - 1];
      if i > 0 {
        assert r[i] == rest[i - 1];
      } else {
        assert rest[j - 1] in rest;
      }
    }
  }

  /** Inserting a row whose key is above every key keeps ties in key order:
      the new row goes after all rows with a count at least its own. */
  lemma {:induction false} InsertByCountTies(t: seq<Group>, g: Group)
    requires NonIncreasing(t) && TiesAscending(t)
    requires forall x :: x in t ==> KeyLess(x.key, g.key)
    ensures TiesAscending(InsertByCount(t, g))
  {
    if t == [] {
    } else if g.count > t[0].count {
      TiesAscendingFront(t, g);
    } else {
      assert forall x :: x in t[1..] ==> x in t;
      assert TiesAscending(t[1..]) by {
        forall i, j | 0 <= i < j < |t| - 1 && t[1..][i].count == t[1..][j].count
          ensures KeyLess(t[1..][i].key, t[1..][j].key)
        {
          assert t[1..][i] == t[i + 1] && t[1..][j] == t[j + 1];
        }
      }
      var rest := InsertByCount(t[1..], g);
      InsertByCountTies(t[1..], g);
      forall x | x in rest && x.count == t[0].count ensures KeyLess(t[0].key, x.key) {
        assert x in multiset(rest);
        if x == g {
          assert t[0] in t;
        } else {
          assert x in multiset(t[1..]);
          var m :| 0 <= m < |t[1..]| && t[1..][m] == x;
          assert t[m + 1] == x;
        }
      }
      TiesAscendingCons(t[0], rest);
      assert InsertByCount(t, g) == [t[0]] + rest;
    }
  }

  /** Ranking an ascending count table is stable: machines with equal counts
      stay in ascending key order. */
  lemma {:induction false} RankByCountTies(t: seq<Group>)
    requires Ascending(t)
    ensures TiesAscending(RankByCount(t))
  {
    if t != [] {
      var init, last := t[..|t| - 1], t[|t| - 1];
      assert Ascending(init);
      RankByCountTies(init);
      var r := RankByCount(init);
      forall x | x in r ensures KeyLess(x.key, last.key) {
        assert x in multiset(init);
        var m :| 0 <= m < |init| && init[m] == x;
        assert t[m] == x;
      }
      InsertByCountTies(r, last);
    }
  }

  /** In a ranking with ties in key order, a row tied with the first row comes
      after it in key order, and a row tied with the last row before it. */
  lemma TiedWithEnds(r: seq<Group>, x: Group)
    requires TiesAscending(r) && x in r
    ensures x.count == r[0].count && x.key != r[0].key ==> KeyLess(r[0].key, x.key)
    ensures x.count == r[|r| - 1].count && x.key != r[|r| - 1].key ==> KeyLess(x.key, r[|r| - 1].key)
  {
    var j :| 0 <= j < |r| && r[j] == x;
  }

  /** Whatever order a sort gives rows with equal counts, the first row holds
      the largest count and the last row the smallest. */
  lemma RankEndsAreExtremes(t: seq<Group>, r: seq<Group>)
    requires NonIncreasing(r) && multiset(r) == multiset(t) && r != []
    ensures forall g :: g in t ==> r[|r| - 1].count <= g.count <= r[0].count
    ensures r[0] in t && r[|r| - 1] in t
  {
    forall g | g in t ensures r[|r| - 1].count <= g.count <= r[0].count {
      assert g in multiset(r);
      var m :| 0 <= m < |r| && r[m] == g;
    }
    assert r[0] in multiset(t) && r[|r| - 1] in multiset(t);
  }

  /** The counts a ranking reports at its two ends do not depend on how ties are
      broken: any two non-increasing orders of the same rows agree there. */
  lemma RankEndsTieIndependent(r1: seq<Group>, r2: seq<Group>)
    requires NonIncreasing(r1) && NonIncreasing(r2) && multiset(r1) == multiset(r2) && r1 != []
    ensures |r1| == |r2|
    ensures r1[0].count == r2[0].count
    ensures r1[|r1| - 1].count == r2[|r2| - 1].count
  {
    assert |r1| == |multiset(r1)| == |multiset(r2)| == |r2|;
    RankEndsAreExtremes(r1, r2);
    RankEndsAreExtremes(r2, r1);
  }
}
