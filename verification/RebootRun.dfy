/** A whole `verify` run: the reserved outputs of one machine, the receipts and the validator of the
    other (scripts/core_reboot_persistence_d1l.py). */
module RebootRun {
  import opened RetainedState
  import opened RebootMatrix
  import opened RebootProducer
  import R = Reservation

  /** The cycles that close when they are run. */
  function Closing(plan: Plan, software: nat, cold: nat): set<Key> {
    set key | key in R.Keys(software, cold) && plan.run(key.kind, key.ordinal).ok
  }

  lemma ClosingIff(plan: Plan, software: nat, cold: nat, world: R.World)
    requires world.closes == Closing(plan, software, cold)
    ensures R.AllClose(world, R.Keys(software, cold)) <==> forall i | 0 <= i < software + cold :: Ran(plan, software, i)
  {
    var keys := R.Keys(software, cold);
    forall i | 0 <= i < software + cold ensures keys[i] in world.closes <==> Ran(plan, software, i) {
      assert keys[i] == KeyAt(i, software) && keys[i] in keys;
    }
  }

  /** The run whose cycles are those of the plan and whose validator is `ValidateMatrix` over the files
      they leave. Whatever raises, a final report that says ok is over an accepted matrix; when
      nothing raises, the report says ok exactly when every cycle closed and the matrix is accepted. */
  method VerifyPlan(
    plan: Plan, before: Files, headExact: bool, seedRow: FileRow, flashRow: FileRow, live: Capture, reader: StateReader,
    faults: set<R.Step>, software: nat := SOFTWARE_CYCLE_COUNT, cold: nat := COLD_CYCLE_COUNT)
    returns (run: R.MatrixRun, raised: bool, files: Files, matrix: Matrix, complete: bool)
    requires plan.seed == seedRow.sha256 && plan.flash == flashRow.sha256
    requires seedRow.path in before && NoCyclePath(plan, seedRow.path, software, cold)
    requires flashRow.path in before && NoCyclePath(plan, flashRow.path, software, cold)
    ensures fresh(run) && run.world.faults == faults
    ensures R.Safe(run.log, run.AllKeys(), software) && run.CycleOutputsClosed() && R.AtMostOne(run.finalSlot)
    ensures complete <==> forall i | 0 <= i < software + cold :: Ran(plan, software, i)
    ensures R.MatrixReport(true) in run.finalSlot.documents ==>
              complete && MatrixAccepted(plan.hash, files, matrix, reader, software, cold)
    ensures faults == {} ==>
              (R.MatrixReport(true) in run.finalSlot.documents <==>
                 complete && MatrixAccepted(plan.hash, files, matrix, reader, software, cold))
  {
    var errors;
    files, matrix, complete, errors :=
      ProduceAndValidate(plan, before, headExact, seedRow, flashRow, live, reader, software, cold);
    var world := R.World(faults, Closing(plan, software, cold), complete && errors == []);
    run := new R.MatrixRun(world, software, cold);
    ClosingIff(plan, software, cold, world);
    raised := run.Verify();
  }
}
