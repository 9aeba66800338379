/** The filter engine: the loaded rows are narrowed by an inclusive date range,
    a machine selection and a failure-type selection. Each step can be switched
    off: the date step when the range is reversed, a selection step when the
    selection is empty or holds its "select all" entry. */
module Filtering {
  import opened Tabular
  import opened Readings

  /** The "select all" entries of the two multi-selects. */
  const ALL_MACHINES := "Todas"
  const ALL_FAILURE_TYPES := "Todos"

  /** What the sidebar hands to the filter stage. */
  datatype Criteria = Criteria(
    start: int,
    end: int,
    machines: seq<string>,
    failureTypes: seq<string>)

  /** A reversed range is reported as an error and the date step is skipped. */
  predicate DateStepActive(c: Criteria) { !(c.start > c.end) }

  predicate MachineStepActive(c: Criteria) {
    !(ALL_MACHINES in c.machines || |c.machines| == 0)
  }

  predicate FailureTypeStepActive(c: Criteria) {
    !(ALL_FAILURE_TYPES in c.failureTypes || |c.failureTypes| == 0)
  }

  /** Rows dated within [start, end], both ends included. */
  function ByDate(rows: seq<Reading>, start: int, end: int): seq<Reading> {
    Where(rows, (r: Reading) => start <= r.date <= end)
  }

  /** Rows whose machine is one of `selection` (`isin`). */
  function ByMachine(rows: seq<Reading>, selection: seq<string>): seq<Reading> {
    Where(rows, (r: Reading) => r.machine in selection)
  }

  /** Rows whose failure type is one of `selection` (`isin`). */
  function ByFailureType(rows: seq<Reading>, selection: seq<string>): seq<Reading> {
    Where(rows, (r: Reading) => r.failureType in selection)
  }

  /** The three steps of the filter stage. */
  datatype Step = DateStep | MachineStep | FailureTypeStep

  /** The order in which the dashboard applies the steps. */
  const SOURCE_ORDER: seq<Step> := [DateStep, MachineStep, FailureTypeStep]

  /** Whether step `st` lets row `r` through; a skipped step lets every row through. */
  predicate Admits(c: Criteria, st: Step, r: Reading) {
    match st
    case DateStep => !DateStepActive(c) || c.start <= r.date <= c.end
    case MachineStep => !MachineStepActive(c) || r.machine in c.machines
    case FailureTypeStep => !FailureTypeStepActive(c) || r.failureType in c.failureTypes
  }

  /** What the whole filter stage means: a row survives when every step admits it. */
  predicate Selected(c: Criteria, r: Reading) {
    Admits(c, DateStep, r) && Admits(c, MachineStep, r) && Admits(c, FailureTypeStep, r)
  }

  /** The rows the dashboard works on, as one conjunctive selection: each
      selected row with all its copies, no other row, in the loaded order. */
  function Filtered(rows: seq<Reading>, c: Criteria): (r: seq<Reading>)
    ensures forall x :: multiset(r)[x] == if Selected(c, x) then multiset(rows)[x] else 0
    ensures IsSubsequence(r, rows)
  {
    var p := (x: Reading) => Selected(c, x);
    WhereIsSubsequence(rows, p);
    assert forall x :: multiset(Where(rows, p))[x] == if Selected(c, x) then multiset(rows)[x] else 0 by {
      forall x ensures multiset(Where(rows, p))[x] == if Selected(c, x) then multiset(rows)[x] else 0 {
        WhereMultiset(rows, p, x);
      }
    }
    Where(rows, p)
  }

  /** One step as the dashboard runs it: skipped, or a selection. It selects
      exactly the rows the step admits. */
  function ApplyStep(rows: seq<Reading>, c: Criteria, st: Step): (r: seq<Reading>)
    ensures r == Where(rows, x => Admits(c, st, x))
  {
    match st
    case DateStep =>
      if DateStepActive(c) then
        WhereExt(rows, (x: Reading) => c.start <= x.date <= c.end, x => Admits(c, st, x));
        ByDate(rows, c.start, c.end)
      else
        WhereAll(rows, x => Admits(c, st, x));
        rows
    case MachineStep =>
      if MachineStepActive(c) then
        WhereExt(rows, (x: Reading) => x.machine in c.machines, x => Admits(c, st, x));
        ByMachine(rows, c.machines)
      else
        WhereAll(rows, x => Admits(c, st, x));
        rows
    case FailureTypeStep =>
      if FailureTypeStepActive(c) then
        WhereExt(rows, (x: Reading) => x.failureType in c.failureTypes, x => Admits(c, st, x));
        ByFailureType(rows, c.failureTypes)
      else
        WhereAll(rows, x => Admits(c, st, x));
        rows
  }

  /** The steps of `steps`, applied one after another. */
  function ApplySteps(rows: seq<Reading>, c: Criteria, steps: seq<Step>): seq<Reading>
    decreases |steps|
  {
    if steps == [] then rows else ApplySteps(ApplyStep(rows, c, steps[0]), c, steps[1..])
  }

  /** The filter stage as the dashboard writes it: copy the table, then reassign
      it once per active step. A reversed date range is reported and skipped. */
  method ApplyFilters(rows: seq<Reading>, c: Criteria) returns (df: seq<Reading>, dateError: bool)
    ensures dateError <==> c.start > c.end
    ensures df == Filtered(rows, c)
  {
    df := rows;
    if c.start > c.end {
      dateError := true;
    } else {
      dateError := false;
      df := ByDate(df, c.start, c.end);
    }
    assert df == ApplyStep(rows, c, DateStep);
    var afterDate := df;
    if !(ALL_MACHINES in c.machines || |c.machines| == 0) {
      df := ByMachine(df, c.machines);
    }
    assert df == ApplyStep(afterDate, c, MachineStep);
    var afterMachine := df;
    if !(ALL_FAILURE_TYPES in c.failureTypes || |c.failureTypes| == 0) {
      df := ByFailureType(df, c.failureTypes);
    }
    assert df == ApplyStep(afterMachine, c, FailureTypeStep);
    assert df == ApplySteps(rows, c, SOURCE_ORDER) by {
      assert SOURCE_ORDER[1..] == [MachineStep, FailureTypeStep];
      assert SOURCE_ORDER[1..][1..] == [FailureTypeStep];
      assert SOURCE_ORDER[1..][1..][1..] == [];
    }
    StepsInAnyOrder(rows, c, SOURCE_ORDER);
  }

  /** The mask of one step. */
  function StepMask(c: Criteria, st: Step): Reading -> bool {
    r => Admits(c, st, r)
  }

  /** The mask admitting the rows that every step of `steps` admits. */
  function AllMask(c: Criteria, steps: seq<Step>): Reading -> bool {
    r => forall st :: st in steps ==> Admits(c, st, r)
  }

  /** Running a sequence of steps selects the rows that every listed step admits. */
  lemma {:induction false} StepsAreConjunctive(rows: seq<Reading>, c: Criteria, steps: seq<Step>)
    ensures ApplySteps(rows, c, steps) == Where(rows, AllMask(c, steps))
    decreases |steps|
  {
    if steps == [] {
      WhereAll(rows, AllMask(c, steps));
    } else {
      var first := steps[0];
      var once := ApplyStep(rows, c, first);
      WhereExt(rows, x => Admits(c, first, x), StepMask(c, first));
      StepsAreConjunctive(once, c, steps[1..]);
      WhereWhere(rows, StepMask(c, first), AllMask(c, steps[1..]));
      assert forall st :: st in steps <==> st == first || st in steps[1..] by {
        assert steps == [first] + steps[1..];
      }
      WhereExt(rows, And(StepMask(c, first), AllMask(c, steps[1..])), AllMask(c, steps));
    }
  }

  /** The steps may run in any order, and any of them may run more than once:
      as long as each of the three runs at least once, the result is the
      conjunctive selection. */
  lemma StepsInAnyOrder(rows: seq<Reading>, c: Criteria, steps: seq<Step>)
    requires DateStep in steps && MachineStep in steps && FailureTypeStep in steps
    ensures ApplySteps(rows, c, steps) == Filtered(rows, c)
  {
    StepsAreConjunctive(rows, c, steps);
    forall r: Reading
      ensures (forall st :: st in steps ==> Admits(c, st, r)) == Selected(c, r)
    {
      if Selected(c, r) {
        forall st | st in steps ensures Admits(c, st, r) {
          match st
          case DateStep =>
          case MachineStep =>
          case FailureTypeStep =>
        }
      }
    }
    WhereExt(rows, AllMask(c, steps), r => Selected(c, r));
  }

  /** The filtered table keeps original rows in their original order, so it is
      never longer than the loaded table. */
  lemma FilteredIsSubsequence(rows: seq<Reading>, c: Criteria)
    ensures IsSubsequence(Filtered(rows, c), rows)
    ensures |Filtered(rows, c)| <= |rows|
  {
    WhereIsSubsequence(rows, r => Selected(c, r));
    SubsequenceIsShorter(Filtered(rows, c), rows);
  }

  /** Filtering the filtered table again with the same criteria changes nothing. */
  lemma FilteredIdempotent(rows: seq<Reading>, c: Criteria)
    ensures Filtered(Filtered(rows, c), c) == Filtered(rows, c)
  {
    WhereIdempotent(rows, r => Selected(c, r));
  }

  /** With a reversed range the dates play no part: the result is what the two
      selection steps alone give. */
  lemma ReversedRangeIgnoresDates(rows: seq<Reading>, c: Criteria)
    requires c.start > c.end
    ensures Filtered(rows, c) == ApplySteps(rows, c, [MachineStep, FailureTypeStep])
  {
    StepsAreConjunctive(rows, c, [MachineStep, FailureTypeStep]);
    WhereExt(rows, r => Selected(c, r), AllMask(c, [MachineStep, FailureTypeStep]));
  }

  /** The date step: skipped, it returns the table unchanged; applied, it keeps
      every copy of each row dated within [start, end] and nothing else. */
  lemma DateStepExact(rows: seq<Reading>, c: Criteria)
    ensures c.start > c.end ==> ApplyStep(rows, c, DateStep) == rows
    ensures c.start <= c.end ==> forall r ::
      multiset(ApplyStep(rows, c, DateStep))[r] ==
        if c.start <= r.date <= c.end then multiset(rows)[r] else 0
  {
    if c.start > c.end {
      WhereAll(rows, x => Admits(c, DateStep, x));
    } else {
      forall r ensures multiset(ApplyStep(rows, c, DateStep))[r] ==
        if c.start <= r.date <= c.end then multiset(rows)[r] else 0
      {
        WhereMultiset(rows, x => Admits(c, DateStep, x), r);
      }
    }
  }

  /** The machine step: with an empty selection or one holding "Todas" it
      returns the table unchanged; otherwise it keeps every copy of each row
      whose machine is selected and nothing else. */
  lemma MachineStepExact(rows: seq<Reading>, c: Criteria)
    ensures !MachineStepActive(c) ==> ApplyStep(rows, c, MachineStep) == rows
    ensures MachineStepActive(c) ==> forall r ::
      multiset(ApplyStep(rows, c, MachineStep))[r] ==
        if r.machine in c.machines then multiset(rows)[r] else 0
  {
    if !MachineStepActive(c) {
      WhereAll(rows, x => Admits(c, MachineStep, x));
    } else {
      forall r ensures multiset(ApplyStep(rows, c, MachineStep))[r] ==
        if r.machine in c.machines then multiset(rows)[r] else 0
      {
        WhereMultiset(rows, x => Admits(c, MachineStep, x), r);
      }
    }
  }

  /** The failure-type step, which behaves like the machine step with "Todos". */
  lemma FailureTypeStepExact(rows: seq<Reading>, c: Criteria)
    ensures !FailureTypeStepActive(c) ==> ApplyStep(rows, c, FailureTypeStep) == rows
    ensures FailureTypeStepActive(c) ==> forall r ::
      multiset(ApplyStep(rows, c, FailureTypeStep))[r] ==
        if r.failureType in c.failureTypes then multiset(rows)[r] else 0
  {
    if !FailureTypeStepActive(c) {
      WhereAll(rows, x => Admits(c, FailureTypeStep, x));
    } else {
      forall r ensures multiset(ApplyStep(rows, c, FailureTypeStep))[r] ==
        if r.failureType in c.failureTypes then multiset(rows)[r] else 0
      {
        WhereMultiset(rows, x => Admits(c, FailureTypeStep, x), r);
      }
    }
  }
}
