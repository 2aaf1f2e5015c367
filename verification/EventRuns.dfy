/** Whole runs of the event table, as sequences of steps on its indexes. */
module EventRuns {
  import opened EventIndex
  import opened EventInsert
  import opened EventErase
  import opened EventModify

  datatype Step =
    | Insert(k: RowKey)
    | InsertAll(batch: seq<RowKey>)
    | Erase(removed: seq<bool>)
    | Modify(position: nat, changed: RowKey)
    | Clear

  predicate Enabled(t: Index, step: Step) {
    match step
    case Erase(removed) => |removed| == |t.ks|
    case Modify(p, k) => p < |t.ks| && SameIdentity(t.ks[p], k)
    case _ => true
  }

  function Next(t: Index, step: Step): Index
    requires Enabled(t, step)
  {
    match step
    case Insert(k) => InsertRow(t, k)
    case InsertAll(batch) => InsertRows(t, batch)
    case Erase(removed) => EraseRows(t, removed)
    case Modify(p, k) => ModifyRow(t, p, k)
    case Clear => EMPTY
  }

  /** The states of a run, one more than its steps; it starts empty. */
  ghost predicate IsRun(steps: seq<Step>, states: seq<Index>) {
    && |states| == |steps| + 1
    && states[0] == EMPTY
    && forall i :: 0 <= i < |steps| ==> Enabled(states[i], steps[i]) && states[i + 1] == Next(states[i], steps[i])
  }

  predicate OrderSafe(t: Index, step: Step)
    requires Enabled(t, step)
  {
    match step
    case Modify(p, k) => RoomOrderSafe(t.ks, p, k) && ChildOrderSafe(t.ks, p, k)
    case _ => true
  }

  lemma StepKeeps(t: Index, step: Step)
    requires Enabled(t, step) && Consistent(t)
    ensures Consistent(Next(t, step))
    ensures AsAdded(t) && OrderSafe(t, step) ==> AsAdded(Next(t, step))
  {
    match step {
      case Insert(k) => if k.id !in t.byId { AddRowKeeps(t, k); }
      case InsertAll(batch) => InsertRowsKeeps(t, batch);
      case Erase(removed) => EraseRowsKeeps(t, removed);
      case Modify(p, k) =>
        ModifyRowKeeps(t, p, k);
        if AsAdded(t) { ModifyRowOrder(t, p, k); }
      case Clear => EmptyKeeps();
    }
  }

  /** In every run, after every step, every index lists exactly the rows it must. */
  lemma {:induction false} RunsStayConsistent(steps: seq<Step>, states: seq<Index>, n: nat)
    requires IsRun(steps, states) && n <= |steps|
    ensures Consistent(states[n])
  {
    if n == 0 {
      EmptyKeeps();
    } else {
      RunsStayConsistent(steps, states, n - 1);
      StepKeeps(states[n - 1], steps[n - 1]);
    }
  }

  lemma {:induction false} SafeRunsStayAsAdded(steps: seq<Step>, states: seq<Index>, n: nat)
    requires IsRun(steps, states) && n <= |steps|
    requires forall i :: 0 <= i < n ==> OrderSafe(states[i], steps[i])
    ensures AsAdded(states[n])
  {
    if n == 0 {
      EmptyKeeps();
    } else {
      SafeRunsStayAsAdded(steps, states, n - 1);
      RunsStayConsistent(steps, states, n - 1);
      StepKeeps(states[n - 1], steps[n - 1]);
    }
  }

  /**
   At the end of every run the table is the one that inserting its rows into an empty one builds exactly
   when its rooms and relations are in the order added, whatever the changes on the way did.
   */
  lemma RunIsRebuildIffAsAdded(steps: seq<Step>, states: seq<Index>)
    requires IsRun(steps, states)
    ensures states[|steps|] == InsertRows(EMPTY, states[|steps|].ks) <==> AsAdded(states[|steps|])
  {
    RunsStayConsistent(steps, states, |steps|);
    RebuiltIffAsAdded(states[|steps|]);
  }

  /** In particular a run whose in-place changes are all order-safe, or that has none, ends in the rebuilt table. */
  lemma SafeRunIsRebuild(steps: seq<Step>, states: seq<Index>)
    requires IsRun(steps, states)
    requires forall i :: 0 <= i < |steps| ==> OrderSafe(states[i], steps[i])
    ensures states[|steps|] == InsertRows(EMPTY, states[|steps|].ks)
  {
    RunIsRebuildIffAsAdded(steps, states);
    SafeRunsStayAsAdded(steps, states, |steps|);
  }

  /** A run that ends with a removal ends in the rebuilt table exactly when what it kept was in the order added. */
  lemma RemovalRestoresOrder(steps: seq<Step>, states: seq<Index>)
    requires IsRun(steps, states) && steps != [] && steps[|steps| - 1].Erase?
    ensures var n := |steps| - 1;
            states[n + 1] == InsertRows(EMPTY, states[n + 1].ks) <==> SurvivorsAsAdded(states[n], steps[n].removed)
  {
    var n := |steps| - 1;
    RunsStayConsistent(steps, states, n);
    assert Enabled(states[n], steps[n]) && states[n + 1] == Next(states[n], steps[n]);
    EraseIsRebuild(states[n], steps[n].removed);
  }
}
