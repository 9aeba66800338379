/** The per-machine mean table and its long form for the line chart. The four
    single-metric tables (machine, mean) are joined on the machine, keeping the
    machines of the temperature table and dropping a machine some other table
    lacks; the wide table is then melted to one row per (machine, metric). The
    means are kept abstract: `V` is whatever value the mean tables hold. */
module Reshape {
  import opened Tabular

  datatype Option<T> = None | Some(value: T)

  /** One machine's four means, in the column order of the wide table. */
  datatype MeanRow<V> = MeanRow(machine: string, temperature: V, pressure: V, vibration: V, energy: V)

  /** One row of the long table: a machine, a metric label and its mean. */
  datatype LongRow<V> = LongRow(machine: string, metric: string, value: V)

  /** The metric labels, in the order the melt lists them. */
  const METRIC_LABELS := ["Temperatura", "Pressão", "Vibração", "Consumo de Energia"]

  /** The `k`-th metric column of a wide row. */
  function Metric<V>(r: MeanRow<V>, k: nat): V
    requires k < 4
  {
    if k == 0 then r.temperature
    else if k == 1 then r.pressure
    else if k == 2 then r.vibration
    else r.energy
  }

  // ---------------------------------------------------------------------
  // Joining the four mean tables

  /** The machine column of a (machine, mean) table. */
  function Machines<V>(t: seq<(string, V)>): seq<string> {
    seq(|t|, i requires 0 <= i < |t| => t[i].0)
  }

  predicate Distinct(s: seq<string>) {
    forall i, j :: 0 <= i < j < |s| ==> s[i] != s[j]
  }

  /** The value a (machine, mean) table holds for machine `m`, if any. */
  function Lookup<V>(t: seq<(string, V)>, m: string): (r: Option<V>)
    ensures r.None? <==> m !in Machines(t)
  {
    if t == [] then None
    else if t[0].0 == m then
      assert Machines(t)[0] == m;
      Some(t[0].1)
    else
      assert Machines(t) == [t[0].0] + Machines(t[1..]);
      Lookup(t[1..], m)
  }

  /** Every row's means are the ones the tables list for its machine. */
  ghost predicate Joined<V>(r: MeanRow<V>, press: seq<(string, V)>, vib: seq<(string, V)>, energy: seq<(string, V)>) {
    Lookup(press, r.machine) == Some(r.pressure) &&
    Lookup(vib, r.machine) == Some(r.vibration) &&
    Lookup(energy, r.machine) == Some(r.energy)
  }

  /** Three left joins on the machine followed by dropping incomplete rows: the
      join never adds a row to the temperature table. */
  function CombineMeans<V>(temp: seq<(string, V)>, press: seq<(string, V)>,
                           vib: seq<(string, V)>, energy: seq<(string, V)>): (r: seq<MeanRow<V>>)
    ensures |r| <= |temp|
  {
    if temp == [] then []
    else
      var m := temp[0].0;
      var rest := CombineMeans(temp[1..], press, vib, energy);
      var p, v, e := Lookup(press, m), Lookup(vib, m), Lookup(energy, m);
      if p.Some? && v.Some? && e.Some? then [MeanRow(m, temp[0].1, p.value, v.value, e.value)] + rest
      else rest
  }

  /** Each joined row is for a machine of the temperature table and carries the
      pressure, vibration and energy means the other tables list for it. */
  lemma {:induction false} CombineRowsJoined<V>(temp: seq<(string, V)>, press: seq<(string, V)>,
                                                vib: seq<(string, V)>, energy: seq<(string, V)>)
    ensures forall i :: 0 <= i < |CombineMeans(temp, press, vib, energy)| ==>
      (CombineMeans(temp, press, vib, energy)[i].machine in Machines(temp) &&
       Joined(CombineMeans(temp, press, vib, energy)[i], press, vib, energy))
  {
    if temp != [] {
      CombineRowsJoined(temp[1..], press, vib, energy);
      var m := temp[0].0;
      assert Machines(temp) == [m] + Machines(temp[1..]);
      var rest := CombineMeans(temp[1..], press, vib, energy);
      var p, v, e := Lookup(press, m), Lookup(vib, m), Lookup(energy, m);
      if p.Some? && v.Some? && e.Some? {
        var r := [MeanRow(m, temp[0].1, p.value, v.value, e.value)] + rest;
        assert CombineMeans(temp, press, vib, energy) == r;
        assert forall i :: 1 <= i < |r| ==> r[i] == rest[i - 1];
      }
    }
  }

  /** The joined table keeps the temperature table's machines in order, and
      exactly those that every other table also lists. */
  lemma {:induction false} CombineKeepsCompleteMachines<V>(temp: seq<(string, V)>, press: seq<(string, V)>,
                                      vib: seq<(string, V)>, energy: seq<(string, V)>)
    ensures Project(CombineMeans(temp, press, vib, energy), (r: MeanRow<V>) => r.machine) ==
      Where(Machines(temp), m => m in Machines(press) && m in Machines(vib) && m in Machines(energy))
  {
    if temp != [] {
      CombineKeepsCompleteMachines(temp[1..], press, vib, energy);
      assert Machines(temp) == [temp[0].0] + Machines(temp[1..]);
      var rest := CombineMeans(temp[1..], press, vib, energy);
      var m := temp[0].0;
      if Lookup(press, m).Some? && Lookup(vib, m).Some? && Lookup(energy, m).Some? {
        assert CombineMeans(temp, press, vib, energy) ==
          [MeanRow(m, temp[0].1, Lookup(press, m).value, Lookup(vib, m).value, Lookup(energy, m).value)] + rest;
      }
    }
  }

  lemma {:induction false} LookupAt<V>(t: seq<(string, V)>, i: nat)
    requires Distinct(Machines(t)) && i < |t|
    ensures Lookup(t, t[i].0) == Some(t[i].1)
  {
    if i > 0 {
      assert Machines(t)[0] != Machines(t)[i];
      assert Distinct(Machines(t[1..])) by {
        forall a, b | 0 <= a < b < |t| - 1 ensures Machines(t[1..])[a] != Machines(t[1..])[b] {
          assert Machines(t)[a + 1] != Machines(t)[b + 1];
        }
      }
      LookupAt(t[1..], i - 1);
    }
  }

  /** Table `t` lists, row by row, the machines of `temp`. */
  predicate SameMachines<V>(temp: seq<(string, V)>, t: seq<(string, V)>) {
    |t| == |temp| && forall i :: 0 <= i < |temp| ==> t[i].0 == temp[i].0
  }

  lemma SameMachinesOf<V>(temp: seq<(string, V)>, t: seq<(string, V)>)
    requires |t| == |temp| && Machines(t) == Machines(temp)
    ensures SameMachines(temp, t)
  {
    forall i | 0 <= i < |temp| ensures t[i].0 == temp[i].0 {
      assert Machines(t)[i] == Machines(temp)[i];
    }
  }

  /** One step of the join: a machine every table lists heads the result. */
  lemma CombineHead<V>(temp: seq<(string, V)>, press: seq<(string, V)>,
                       vib: seq<(string, V)>, energy: seq<(string, V)>, p: V, v: V, e: V)
    requires temp != []
    requires Lookup(press, temp[0].0) == Some(p)
    requires Lookup(vib, temp[0].0) == Some(v)
    requires Lookup(energy, temp[0].0) == Some(e)
    ensures CombineMeans(temp, press, vib, energy) ==
      [MeanRow(temp[0].0, temp[0].1, p, v, e)] + CombineMeans(temp[1..], press, vib, energy)
  {
  }

  /** The join of a suffix of aligned tables, row by row. */
  lemma {:induction false} CombineAligned<V>(temp: seq<(string, V)>, press: seq<(string, V)>,
                              vib: seq<(string, V)>, energy: seq<(string, V)>, from: nat)
    requires from <= |temp|
    requires SameMachines(temp, press) && SameMachines(temp, vib) && SameMachines(temp, energy)
    requires Distinct(Machines(press)) && Distinct(Machines(vib)) && Distinct(Machines(energy))
    ensures |CombineMeans(temp[from..], press, vib, energy)| == |temp| - from
    ensures forall j :: 0 <= j < |temp| - from ==>
      (CombineMeans(temp[from..], press, vib, energy)[j] ==
       MeanRow(temp[from + j].0, temp[from + j].1, press[from + j].1, vib[from + j].1, energy[from + j].1))
    decreases |temp| - from
  {
    if from < |temp| {
      CombineAligned(temp, press, vib, energy, from + 1);
      var suffix := temp[from..];
      assert suffix[0] == temp[from] && suffix[1..] == temp[from + 1..];
      LookupAt(press, from);
      LookupAt(vib, from);
      LookupAt(energy, from);
      CombineHead(suffix, press, vib, energy, press[from].1, vib[from].1, energy[from].1);
      var head := MeanRow(temp[from].0, temp[from].1, press[from].1, vib[from].1, energy[from].1);
      var rest := CombineMeans(temp[from + 1..], press, vib, energy);
      var all := CombineMeans(suffix, press, vib, energy);
      assert all == [head] + rest;
      forall j | 0 <= j < |temp| - from
        ensures all[j] == MeanRow(temp[from + j].0, temp[from + j].1, press[from + j].1, vib[from + j].1, energy[from + j].1)
      {
        if j > 0 {
          assert all[j] == rest[j - 1];
          assert from + 1 + (j - 1) == from + j;
        }
      }
    }
  }

  /** When the four tables list the same machines in the same order, as four
      group-bys of one table do, the join drops nothing and row `i` gathers the
      `i`-th mean of each table. */
  lemma CombineSameMachines<V>(temp: seq<(string, V)>, press: seq<(string, V)>,
                               vib: seq<(string, V)>, energy: seq<(string, V)>)
    requires |temp| == |press| == |vib| == |energy|
    requires Machines(temp) == Machines(press) == Machines(vib) == Machines(energy)
    requires Distinct(Machines(temp))
    ensures |CombineMeans(temp, press, vib, energy)| == |temp|
    ensures forall i :: 0 <= i < |temp| ==>
      (CombineMeans(temp, press, vib, energy)[i] == MeanRow(temp[i].0, temp[i].1, press[i].1, vib[i].1, energy[i].1))
  {
    SameMachinesOf(temp, press);
    SameMachinesOf(temp, vib);
    SameMachinesOf(temp, energy);
    assert Distinct(Machines(press)) && Distinct(Machines(vib)) && Distinct(Machines(energy));
    assert temp[0..] == temp;
    CombineAligned(temp, press, vib, energy, 0);
    var all := CombineMeans(temp, press, vib, energy);
    forall i | 0 <= i < |temp|
      ensures all[i] == MeanRow(temp[i].0, temp[i].1, press[i].1, vib[i].1, energy[i].1)
    {
      assert 0 + i == i;
    }
  }

  // ---------------------------------------------------------------------
  // Wide to long

  /** The long rows of metric `k`, one per machine in table order. */
  function MeltColumn<V>(wide: seq<MeanRow<V>>, k: nat): seq<LongRow<V>>
    requires k < 4
  {
    seq(|wide|, i requires 0 <= i < |wide| => LongRow(wide[i].machine, METRIC_LABELS[k], Metric(wide[i], k)))
  }

  /** `melt(id_vars=['machine'], value_vars=[the four metrics])`: all machines
      for the first metric, then all machines for the second, and so on. */
  function Melt<V>(wide: seq<MeanRow<V>>): (r: seq<LongRow<V>>)
    ensures |r| == 4 * |wide|
    ensures forall x :: x in r ==> x.metric in METRIC_LABELS
  {
    MeltColumn(wide, 0) + MeltColumn(wide, 1) + MeltColumn(wide, 2) + MeltColumn(wide, 3)
  }

  /** Row `k * n + i` of the long table is metric `k` of machine `i`. */
  lemma MeltAt<V>(wide: seq<MeanRow<V>>, k: nat, i: nat)
    requires k < 4 && i < |wide|
    ensures |Melt(wide)| == 4 * |wide|
    ensures Melt(wide)[k * |wide| + i] == LongRow(wide[i].machine, METRIC_LABELS[k], Metric(wide[i], k))
  {
    var n := |wide|;
    var a, b, c, d := MeltColumn(wide, 0), MeltColumn(wide, 1), MeltColumn(wide, 2), MeltColumn(wide, 3);
    var long := a + b + c + d;
    assert Melt(wide) == long;
    if k == 0 {
      assert k * n + i == i;
      assert long[i] == a[i];
    } else if k == 1 {
      assert k * n + i == n + i;
      assert long[n + i] == b[i];
    } else if k == 2 {
      assert k * n + i == 2 * n + i;
      assert long[2 * n + i] == c[i];
    } else {
      assert k * n + i == 3 * n + i;
      assert long[3 * n + i] == d[i];
    }
  }

  /** The pivot that undoes the melt: machine `i` takes its four means from
      rows `i`, `n + i`, `2n + i` and `3n + i`. */
  function Unmelt<V>(long: seq<LongRow<V>>): seq<MeanRow<V>>
    requires |long| % 4 == 0
  {
    var n := |long| / 4;
    seq(n, i requires 0 <= i < n =>
      MeanRow(long[i].machine, long[i].value, long[n + i].value, long[2 * n + i].value, long[3 * n + i].value))
  }

  /** Melting loses nothing: pivoting the long table back gives the wide table. */
  lemma MeltRoundTrip<V>(wide: seq<MeanRow<V>>)
    ensures |Melt(wide)| == 4 * |wide|
    ensures Unmelt(Melt(wide)) == wide
  {
    var n := |wide|;
    var long := Melt(wide);
    assert |long| == 4 * n;
    assert |long| / 4 == n;
    forall i | 0 <= i < n ensures Unmelt(long)[i] == wide[i] {
      MeltAt(wide, 0, i);
      MeltAt(wide, 1, i);
      MeltAt(wide, 2, i);
      MeltAt(wide, 3, i);
    }
  }
}
