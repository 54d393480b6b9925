/** Reservation of the nine evidence files, and a run that may be interrupted at any call into the
    environment (scripts/core_reboot_persistence_d1l.py). */
module Reservation {
  import opened Common
  import opened RebootMatrix

  /** The calls into the environment, in the order a run reaches them: each may raise. Checks that
      raise when they fail are part of the call whose answer they check. */
  datatype Step =
    | OpenFinal | CheckFinal | MakeDirectory | OpenCycle(key: Key) | CheckCycle(key: Key)
    | ResolveTarget | LoadSeed | LoadFlash | ReadRows | ResolveLive | OpenLive | CaptureLive
    | StampCycle(key: Key) | ResolveBefore(key: Key) | OpenPort(key: Key) | CapturePre(key: Key)
    | Act(key: Key) | CapturePost(key: Key) | WriteCycle(key: Key) | SyncCycle(key: Key) | ReadRow(key: Key)
    | StampMatrix | Validate | WriteFinal | SyncFinal | StampFailedCycle | StampFailure

  /** The environment of one run: which calls raise, which cycles close, and what the validator
      says of the finished matrix. */
  datatype World = World(faults: set<Step>, closes: set<Key>, validatorAccepts: bool)

  datatype Document =
    | CycleClosed(key: Key, ok: bool)
    | CycleFailed(key: Key, outcomeUncertain: bool)
    | NotExecuted(key: Key)
    | MatrixReport(ok: bool)
    | FailureReport(outcomeUncertain: bool)

  /** A reserved output: its handle and what was written through it. */
  datatype Slot = Slot(closed: bool, documents: seq<Document>)

  datatype Event =
    | ReservedFinal | ReservedCycle(key: Key)
    | SerialOpened | CycleStarted(key: Key) | ActionTaken(key: Key) | CycleEnded(key: Key, ok: bool)
    | MatrixValidated

  predicate TouchesHardware(e: Event) {
    e.SerialOpened? || e.CycleStarted? || e.ActionTaken?
  }

  // ----- the order of cycles

  function Keys(software: nat, cold: nat): seq<Key> {
    seq(software + cold, (i: nat) => KeyAt(i, software))
  }

  lemma KeysDistinct(software: nat, cold: nat)
    ensures Distinct(Keys(software, cold))
  {
  }

  // ----- what a log may look like

  predicate AllReserved(log: seq<Event>, keys: seq<Key>) {
    && ReservedFinal in log
    && forall i | 0 <= i < |keys| :: ReservedCycle(keys[i]) in log
  }

  predicate SoftwareEnded(log: seq<Event>, software: nat) {
    forall n | 1 <= n <= software :: CycleEnded(Key(Software, n), true) in log
  }

  /** What must already have happened when an event is logged. */
  predicate Allowed(e: Event, log: seq<Event>, keys: seq<Key>, software: nat) {
    && (TouchesHardware(e) ==> AllReserved(log, keys))
    && (e.CycleStarted? && e.key.kind.Cold? ==> SoftwareEnded(log, software))
  }

  /** No serial open, cycle or power action before all outputs are reserved; no cold cycle before
      every software cycle has ended well. */
  predicate Safe(log: seq<Event>, keys: seq<Key>, software: nat) {
    forall i | 0 <= i < |log| :: Allowed(log[i], log[..i], keys, software)
  }

  lemma SafeExtends(log: seq<Event>, e: Event, keys: seq<Key>, software: nat)
    requires Safe(log, keys, software) && Allowed(e, log, keys, software)
    ensures Safe(log + [e], keys, software)
  {
    forall i | 0 <= i < |log + [e]| ensures Allowed((log + [e])[i], (log + [e])[..i], keys, software) {
      assert (log + [e])[..i] == log[..i];
    }
  }

  // ----- the calls a run makes before it first writes the final report

  const SETUP: set<Step> := {ResolveTarget, LoadSeed, LoadFlash, ReadRows, ResolveLive, OpenLive, CaptureLive}

  function CycleSteps(key: Key): set<Step> {
    {StampCycle(key), ResolveBefore(key), OpenPort(key), CapturePre(key), Act(key), CapturePost(key),
     WriteCycle(key), SyncCycle(key), ReadRow(key)}
  }

  function UnusedSteps(key: Key): set<Step> {
    {WriteCycle(key), SyncCycle(key)}
  }

  /** How many cycles run when nothing raises: up to the first that does not close. */
  function Executed(world: World, keys: seq<Key>, from: nat): (n: nat)
    requires from <= |keys|
    ensures from <= n <= |keys|
    decreases |keys| - from
  {
    if from == |keys| then from
    else if keys[from] !in world.closes then from + 1
    else Executed(world, keys, from + 1)
  }

  /** No call of the first `n` cycles raises. */
  predicate CyclesQuiet(world: World, keys: seq<Key>, n: nat)
    requires n <= |keys|
  {
    forall i | 0 <= i < n :: CycleSteps(keys[i]) !! world.faults
  }

  predicate UnusedQuiet(world: World, keys: seq<Key>, n: nat)
    requires n <= |keys|
  {
    forall i | n <= i < |keys| :: UnusedSteps(keys[i]) !! world.faults
  }

  predicate AllClose(world: World, keys: seq<Key>) {
    forall i | 0 <= i < |keys| :: keys[i] in world.closes
  }

  /** Every call made while reserving returns. */
  predicate ReservationQuiet(world: World, keys: seq<Key>) {
    && OpenFinal !in world.faults && CheckFinal !in world.faults && MakeDirectory !in world.faults
    && forall i | 0 <= i < |keys| :: OpenCycle(keys[i]) !in world.faults && CheckCycle(keys[i]) !in world.faults
  }

  /** The run reaches cycle `i`, takes its action and is interrupted before the cycle's receipt is
      written, while that output can still be written to. */
  predicate InterruptedAfterAction(world: World, keys: seq<Key>, i: nat)
    requires i < |keys|
  {
    && SETUP !! world.faults
    && i < Executed(world, keys, 0)
    && CyclesQuiet(world, keys, i)
    && BeforeAction(keys[i]) !! world.faults
    && !(DuringAction(keys[i]) !! world.faults)
    && WriteCycle(keys[i]) !in world.faults
  }

  /** Every call between reservation and the first write to the final report returns. */
  predicate QuietToFinal(world: World, keys: seq<Key>) {
    var n := Executed(world, keys, 0);
    && SETUP !! world.faults
    && CyclesQuiet(world, keys, n)
    && UnusedQuiet(world, keys, n)
    && StampMatrix !in world.faults
    && (AllClose(world, keys) ==> Validate !in world.faults)
  }

  /** The calls of a cycle before its action, and the calls of the action itself. */
  function BeforeAction(key: Key): set<Step> {
    {StampCycle(key), ResolveBefore(key), OpenPort(key), CapturePre(key)}
  }

  function DuringAction(key: Key): set<Step> {
    {Act(key), CapturePost(key)}
  }

  // ----- one output

  /** `finalize_json_output`: the handle ends closed whatever happens; a failing write leaves
      nothing, a failing flush leaves the document. */
  function Finalized(slot: Slot, document: Document, writeFails: bool): Slot {
    Slot(true, if writeFails then slot.documents else slot.documents + [document])
  }

  /** An open output receives its "not executed" receipt; a closed one is left alone. */
  function Closing(world: World, key: Key, slot: Slot): Slot {
    if slot.closed then slot else Finalized(slot, NotExecuted(key), WriteCycle(key) in world.faults)
  }

  /** The interrupted cycle's own output gets its failure receipt, if it is open and the receipt can be
      stamped. */
  function AfterInterruption(world: World, key: Key, slot: Slot, inProgress: bool, acted: bool): Slot {
    if !inProgress || slot.closed || StampFailedCycle in world.faults then slot
    else Finalized(slot, CycleFailed(key, acted), WriteCycle(key) in world.faults)
  }

  /** What the exception handler does with one cycle output. */
  function Handled(world: World, key: Key, slot: Slot, inProgress: bool, acted: bool): Slot {
    Closing(world, key, AfterInterruption(world, key, slot, inProgress, acted))
  }

  lemma HandledCloses(world: World, key: Key, slot: Slot, inProgress: bool, acted: bool)
    requires AtMostOne(slot)
    ensures Handled(world, key, slot, inProgress, acted).closed
    ensures AtMostOne(Handled(world, key, slot, inProgress, acted))
    ensures slot.closed ==> Handled(world, key, slot, inProgress, acted) == slot
    ensures Untouched(slot) && inProgress ==>
              (Handled(world, key, slot, inProgress, acted).documents == [NotExecuted(key)] <==>
               StampFailedCycle in world.faults && WriteCycle(key) !in world.faults)
  {
    assert CycleFailed(key, acted) != NotExecuted(key);
    assert [CycleFailed(key, acted)][0] != [NotExecuted(key)][0];
  }

  predicate Untouched(slot: Slot) {
    slot == Slot(false, [])
  }

  /** The output holds the completed receipt of its cycle. */
  predicate HasReceipt(key: Key, slot: Slot) {
    slot.documents == [CycleClosed(key, true)] || slot.documents == [CycleClosed(key, false)]
  }

  /** As the output of a cycle that did not run: open, or closed with at most a "not executed" receipt. */
  predicate Spared(key: Key, slot: Slot) {
    Untouched(slot) || slot == Slot(true, []) || slot == Slot(true, [NotExecuted(key)])
  }

  predicate AtMostOne(slot: Slot) {
    |slot.documents| <= 1 && (!slot.closed ==> slot.documents == [])
  }

  // ----- two environments in which the exceptions above happen

  /** The target cannot be resolved, and the failure report cannot be stamped: the final output
      stays open (see `Verify`). */
  lemma FinalOutputLeftOpen(keys: seq<Key>)
    ensures var world := World({ResolveTarget, StampFailure}, {}, true);
            ReservationQuiet(world, keys) && !QuietToFinal(world, keys) && StampFailure in world.faults
  {
    var world := World({ResolveTarget, StampFailure}, {}, true);
    assert ResolveTarget in SETUP * world.faults;
  }

  /** The first cycle is interrupted after its reboot, and its failure receipt cannot be stamped:
      the cycle's receipt says it was not executed (see `FalseReceiptsExplained`). */
  lemma RebootReportedNotExecuted(keys: seq<Key>)
    requires keys != []
    ensures var world := World({CapturePost(keys[0]), StampFailedCycle}, {}, true);
            ReservationQuiet(world, keys) && StampFailedCycle in world.faults && InterruptedAfterAction(world, keys, 0)
  {
    var world := World({CapturePost(keys[0]), StampFailedCycle}, {}, true);
    assert CapturePost(keys[0]) in DuringAction(keys[0]) * world.faults;
  }

  // ----- the run

  class MatrixRun {
    const world: World
    const software: nat
    const cold: nat
    var finalSlot: Slot
    var finalReserved: bool
    /** The cycle outputs reserved so far; output `i` belongs to cycle `i` in running order. */
    var slots: seq<Slot>
    var log: seq<Event>
    /** The cycle in progress, and whether its report says an action may have executed. */
    var current: Option<nat>
    var currentActed: bool

    constructor (w: World, softwareCount: nat, coldCount: nat)
      ensures world == w && software == softwareCount && cold == coldCount
      ensures !finalReserved && finalSlot == Slot(true, []) && slots == [] && log == []
      ensures current == None && !currentActed
    {
      world, software, cold := w, softwareCount, coldCount;
      finalReserved, slots, log, current, currentActed := false, [], [], None, false;
      finalSlot := Slot(true, []);
    }

    function AllKeys(): seq<Key> {
      Keys(software, cold)
    }

    method Log(e: Event)
      requires Safe(log, AllKeys(), software) && Allowed(e, log, AllKeys(), software)
      modifies `log
      ensures log == old(log) + [e] && Safe(log, AllKeys(), software)
    {
      SafeExtends(log, e, AllKeys(), software);
      log := log + [e];
    }

    method CloseAll()
      modifies `finalSlot, `slots
      ensures finalSlot == Slot(true, old(finalSlot).documents)
      ensures |slots| == |old(slots)|
      ensures forall i | 0 <= i < |slots| :: slots[i] == Slot(true, old(slots)[i].documents)
    {
      finalSlot := Slot(true, finalSlot.documents);
      var i := 0;
      while i < |slots|
        invariant 0 <= i <= |slots| == |old(slots)|
        invariant finalSlot == Slot(true, old(finalSlot).documents)
        invariant forall k | 0 <= k < i :: slots[k] == Slot(true, old(slots)[k].documents)
        invariant forall k | i <= k < |slots| :: slots[k] == old(slots)[k]
      {
        slots := slots[i := Slot(true, slots[i].documents)];
        i := i + 1;
      }
    }

    /** One output per cycle, in order; stops at the first that cannot be opened and checked. */
    method ReserveCycles() returns (failed: bool)
      requires finalReserved && Untouched(finalSlot) && slots == [] && log == [ReservedFinal]
      modifies `slots, `log
      ensures failed <==> !CyclesReservable()
      ensures Safe(log, AllKeys(), software)
      ensures forall e | e in log :: !TouchesHardware(e) && e != MatrixValidated
      ensures !failed ==> |slots| == |AllKeys()| && AllReserved(log, AllKeys())
      ensures forall i | 0 <= i < |slots| :: Untouched(slots[i])
    {
      var keys := AllKeys();
      for i := 0 to |keys|
        invariant |slots| == i && forall k | 0 <= k < i :: Untouched(slots[k])
        invariant Safe(log, AllKeys(), software)
        invariant forall e | e in log :: !TouchesHardware(e) && e != MatrixValidated
        invariant AllReserved(log, keys[..i])
        invariant forall k | 0 <= k < i :: OpenCycle(keys[k]) !in world.faults && CheckCycle(keys[k]) !in world.faults
      {
        if OpenCycle(keys[i]) in world.faults || CheckCycle(keys[i]) in world.faults {
          return true;
        }
        slots := slots + [Slot(false, [])];
        assert keys[..i + 1] == keys[..i] + [keys[i]];
        Log(ReservedCycle(keys[i]));
      }
      assert keys[..|keys|] == keys;
      failed := false;
    }

    predicate CyclesReservable()
      reads this
    {
      forall k | 0 <= k < |AllKeys()| ::
        OpenCycle(AllKeys()[k]) !in world.faults && CheckCycle(AllKeys()[k]) !in world.faults
    }

    /** `reserve_reboot_outputs`: the final report first, then one output per cycle; on any
        failure every handle opened so far is closed again, with nothing written. */
    method ReserveOutputs() returns (raised: bool)
      requires !finalReserved && finalSlot == Slot(true, []) && slots == [] && log == []
      modifies `finalSlot, `finalReserved, `slots, `log
      ensures raised <==> !ReservationQuiet(world, AllKeys())
      ensures Safe(log, AllKeys(), software)
      ensures forall e | e in log :: !TouchesHardware(e) && e != MatrixValidated
      ensures !raised ==> finalReserved && Untouched(finalSlot) && |slots| == |AllKeys()| && AllReserved(log, AllKeys())
      ensures !raised ==> forall i | 0 <= i < |slots| :: Untouched(slots[i])
      ensures raised ==> finalSlot == Slot(true, [])
      ensures raised ==> forall i | 0 <= i < |slots| :: slots[i] == Slot(true, [])
    {
      if OpenFinal in world.faults {
        return true;
      }
      finalReserved, finalSlot := true, Slot(false, []);
      if CheckFinal in world.faults {
        finalSlot := Slot(true, []);
        return true;
      }
      Log(ReservedFinal);
      if MakeDirectory in world.faults {
        CloseAll();
        return true;
      }
      raised := ReserveCycles();
      if raised {
        CloseAll();
      }
    }

    // ----- one cycle

    predicate Acted(i: nat)
      reads this
      requires i < |AllKeys()|
    {
      ActionTaken(AllKeys()[i]) in log
    }

    /** Cycles from `m` on have not begun: their outputs are as reserved and took no action. */
    predicate Pristine(m: nat)
      reads this
    {
      forall i | m <= i < |AllKeys()| && i < |slots| :: Untouched(slots[i]) && !Acted(i)
    }

    /** The first `n` cycles have ended well, each with its own receipt. */
    predicate EndedWell(n: nat)
      reads this
    {
      forall i | 0 <= i < n && i < |AllKeys()| && i < |slots| ::
        && slots[i] == Slot(true, [CycleClosed(AllKeys()[i], true)])
        && CycleEnded(AllKeys()[i], true) in log
        && AllKeys()[i] in world.closes
    }

    /** All outputs are reserved and the log so far is safe. */
    predicate Reserved()
      reads this
    {
      && finalReserved && |slots| == |AllKeys()|
      && AllReserved(log, AllKeys()) && Safe(log, AllKeys(), software)
    }

    method LogAll(e: Event)
      requires Reserved() && Allowed(e, log, AllKeys(), software)
      modifies `log
      ensures log == old(log) + [e] && Reserved()
    {
      Log(e);
      assert AllReserved(log, AllKeys());
    }

    method FinalizeCycle(i: nat, document: Document) returns (raised: bool)
      requires i < |slots| && i < |AllKeys()|
      modifies `slots
      ensures slots == old(slots)[i := Finalized(old(slots)[i], document, WriteCycle(AllKeys()[i]) in world.faults)]
      ensures raised <==> WriteCycle(AllKeys()[i]) in world.faults || SyncCycle(AllKeys()[i]) in world.faults
    {
      var key := AllKeys()[i];
      slots := slots[i := Finalized(slots[i], document, WriteCycle(key) in world.faults)];
      raised := WriteCycle(key) in world.faults || SyncCycle(key) in world.faults;
    }

    /** Up to the action: the cycle is started, the port opened, the state captured. */
    method RunUpToAction(i: nat) returns (raised: bool)
      requires Reserved() && i < |AllKeys()| && EndedWell(i) && Pristine(i) && current == None
      requires AllKeys()[i].kind.Cold? ==> SoftwareEnded(log, software)
      modifies `log, `current
      ensures Reserved() && EndedWell(i) && Pristine(i)
      ensures raised <==> !(BeforeAction(AllKeys()[i]) !! world.faults)
      ensures current == None || current == Some(i)
      ensures !raised ==> current == Some(i)
      ensures MatrixValidated in log ==> MatrixValidated in old(log)
    {
      var key := AllKeys()[i];
      if StampCycle(key) in world.faults {
        return true;
      }
      current := Some(i);
      LogAll(CycleStarted(key));
      if ResolveBefore(key) in world.faults {
        return true;
      }
      LogAll(SerialOpened);
      raised := OpenPort(key) in world.faults || CapturePre(key) in world.faults;
    }

    /** The runner up to the finished report: nothing is written yet. */
    method RunBody(i: nat) returns (raised: bool)
      requires Reserved() && i < |AllKeys()|
      requires EndedWell(i) && Pristine(i) && current == None && !currentActed
      requires AllKeys()[i].kind.Cold? ==> SoftwareEnded(log, software)
      modifies `log, `current, `currentActed
      ensures Reserved() && EndedWell(i) && Pristine(i + 1)
      ensures raised <==> !(BeforeAction(AllKeys()[i]) !! world.faults) || !(DuringAction(AllKeys()[i]) !! world.faults)
      ensures current == None || current == Some(i)
      ensures Acted(i) <==> currentActed
      ensures currentActed <==> BeforeAction(AllKeys()[i]) !! world.faults
      ensures currentActed ==> current == Some(i)
      ensures MatrixValidated in log ==> MatrixValidated in old(log)
    {
      var key := AllKeys()[i];
      KeysDistinct(software, cold);
      assert Untouched(slots[i]) && !Acted(i);
      raised := RunUpToAction(i);
      assert !Acted(i);
      if raised {
        return;
      }
      currentActed := true;
      LogAll(ActionTaken(key));
      raised := Act(key) in world.faults || CapturePost(key) in world.faults;
    }

    /** One reserved cycle: its body, its receipt and the receipt's file row. */
    method RunCycle(i: nat) returns (raised: bool, ok: bool)
      requires Reserved() && i < |AllKeys()|
      requires EndedWell(i) && Pristine(i) && current == None && !currentActed
      requires AllKeys()[i].kind.Cold? ==> SoftwareEnded(log, software)
      modifies `slots, `log, `current, `currentActed
      ensures Reserved() && EndedWell(i) && Pristine(i + 1)
      ensures raised <==> !(CycleSteps(AllKeys()[i]) !! world.faults)
      ensures !raised ==> current == None && !currentActed && (ok <==> AllKeys()[i] in world.closes)
      ensures !raised ==> slots[i] == Slot(true, [CycleClosed(AllKeys()[i], ok)]) && CycleEnded(AllKeys()[i], ok) in log
      ensures raised ==> Interrupted(i)
      ensures MatrixValidated in log ==> MatrixValidated in old(log)
    {
      var key := AllKeys()[i];
      raised := RunBody(i);
      if raised {
        return true, false;
      }
      ok := key in world.closes;
      raised := FinalizeCycle(i, CycleClosed(key, ok));
      assert EndedWell(i) && Pristine(i + 1);
      if raised || ReadRow(key) in world.faults {
        return true, false;
      }
      current, currentActed := None, false;
      LogAll(CycleEnded(key, ok));
    }

    /** What an exception inside cycle `i` leaves behind. */
    predicate Interrupted(i: nat)
      reads this
    {
      && i < |AllKeys()| && i < |slots|
      && (current == None || current == Some(i))
      && (Acted(i) <==> currentActed) && (currentActed ==> current == Some(i))
      && (Untouched(slots[i]) || (slots[i].closed &&
            (slots[i].documents == [] || HasReceipt(AllKeys()[i], slots[i]))))
      && (Untouched(slots[i]) && currentActed <==>
            BeforeAction(AllKeys()[i]) !! world.faults && !(DuringAction(AllKeys()[i]) !! world.faults))
    }

    /** An exception inside cycle `n`, after `n` cycles that ended well. */
    predicate RaisedAt(n: nat)
      reads this
    {
      && Reserved() && n < Executed(world, AllKeys(), 0)
      && CyclesQuiet(world, AllKeys(), n) && !(CycleSteps(AllKeys()[n]) !! world.faults)
      && EndedWell(n) && Pristine(n + 1) && Interrupted(n)
    }

    method TakeTurn(n: nat) returns (raised: bool, ok: bool)
      requires Turn(n, true) && n < |AllKeys()|
      requires AllKeys()[n].kind.Cold? ==> SoftwareEnded(log, software)
      modifies `slots, `log, `current, `currentActed
      ensures raised ==> RaisedAt(n)
      ensures !raised ==> Turn(n + 1, ok)
      ensures MatrixValidated in log ==> MatrixValidated in old(log)
    {
      raised, ok := RunCycle(n);
      if !raised && ok {
        assert EndedWell(n + 1);
      }
    }

    lemma SoftwareHasEnded()
      requires EndedWell(software) && |slots| == |AllKeys()|
      ensures SoftwareEnded(log, software)
    {
      forall n | 1 <= n <= software ensures CycleEnded(Key(Software, n), true) in log {
        assert AllKeys()[n - 1] == Key(Software, n);
        assert slots[n - 1] == Slot(true, [CycleClosed(AllKeys()[n - 1], true)]);
      }
    }

    method RunSoftware() returns (raised: bool, done: nat, allOk: bool)
      requires Turn(0, true)
      modifies `slots, `log, `current, `currentActed
      ensures raised ==> RaisedAt(done)
      ensures !raised ==> Turn(done, allOk) && (allOk ==> done == software)
      ensures MatrixValidated in log ==> MatrixValidated in old(log)
    {
      raised, done, allOk := false, 0, true;
      while done < software && allOk
        invariant done <= software && Turn(done, allOk)
        invariant MatrixValidated in log ==> MatrixValidated in old(log)
        decreases software - done
      {
        raised, allOk := TakeTurn(done);
        if raised {
          return true, done, false;
        }
        done := done + 1;
      }
    }

    method RunCold() returns (raised: bool, done: nat, allOk: bool)
      requires Turn(software, true)
      modifies `slots, `log, `current, `currentActed
      ensures raised ==> RaisedAt(done)
      ensures !raised ==> Turn(done, allOk) && (allOk ==> done == |AllKeys()|)
      ensures MatrixValidated in log ==> MatrixValidated in old(log)
    {
      raised, done, allOk := false, software, true;
      while done < software + cold && allOk
        invariant software <= done <= software + cold && Turn(done, allOk)
        invariant MatrixValidated in log ==> MatrixValidated in old(log)
        decreases software + cold - done
      {
        SoftwareHasEnded();
        raised, allOk := TakeTurn(done);
        if raised {
          return true, done, false;
        }
        done := done + 1;
      }
    }

    /** The software loop, then the cold loop if every software cycle closed; each stops at the
        first cycle that does not close. */
    method RunCycles() returns (raised: bool, done: nat, allOk: bool)
      requires Turn(0, true)
      modifies `slots, `log, `current, `currentActed
      ensures raised ==> RaisedAt(done)
      ensures !raised ==> Turn(done, allOk) && (allOk ==> done == |AllKeys()|)
      ensures MatrixValidated in log ==> MatrixValidated in old(log)
    {
      raised, done, allOk := RunSoftware();
      if !raised && allOk {
        raised, done, allOk := RunCold();
      }
    }

    /** The last of the first `n` cycles got a receipt that says it did not close. */
    predicate EndedBadly(n: nat)
      reads this
    {
      && 0 < n <= |AllKeys()| && n <= |slots|
      && EndedWell(n - 1)
      && slots[n - 1] == Slot(true, [CycleClosed(AllKeys()[n - 1], false)])
      && CycleEnded(AllKeys()[n - 1], false) in log
      && AllKeys()[n - 1] !in world.closes
    }

    /** Between two cycles. */
    predicate Turn(n: nat, allOk: bool)
      reads this
    {
      && Reserved() && n <= |AllKeys()| && Pristine(n) && current == None && !currentActed
      && CyclesQuiet(world, AllKeys(), n)
      && (if allOk then EndedWell(n) && Executed(world, AllKeys(), 0) == Executed(world, AllKeys(), n)
          else EndedBadly(n) && Executed(world, AllKeys(), 0) == n)
    }

    // ----- the outputs no cycle used

    /** `finalize_unused_cycle_reservations`: every output still open gets its "not executed"
        receipt, whichever of them fail; the first failure is raised afterwards. */
    method FinalizeUnused() returns (raised: bool)
      requires |slots| == |AllKeys()|
      modifies `slots
      ensures |slots| == |AllKeys()|
      ensures forall i | 0 <= i < |slots| :: slots[i] == Closing(world, AllKeys()[i], old(slots)[i])
      ensures raised <==> !(forall i | 0 <= i < |slots| ::
          old(slots)[i].closed || UnusedSteps(AllKeys()[i]) !! world.faults)
    {
      var keys := AllKeys();
      raised := false;
      for i := 0 to |slots|
        invariant |slots| == |keys|
        invariant forall k | 0 <= k < i :: slots[k] == Closing(world, keys[k], old(slots)[k])
        invariant forall k | i <= k < |slots| :: slots[k] == old(slots)[k]
        invariant raised <==> !(forall k | 0 <= k < i :: old(slots)[k].closed || UnusedSteps(keys[k]) !! world.faults)
      {
        if !slots[i].closed {
          var failed := FinalizeCycle(i, NotExecuted(keys[i]));
          raised := raised || failed;
        }
      }
    }

    // ----- `_verify_reboot_matrix_after_reservation`

    /** No cycle is in progress: the first `n` have ended with their receipts, the others took no
        action and hold at most a "not executed" receipt. */
    predicate Settled(n: nat)
      reads this
    {
      && |slots| == |AllKeys()| && n <= |slots| && current == None && !currentActed
      && (forall i | 0 <= i < n ::
            && slots[i].closed
            && HasReceipt(AllKeys()[i], slots[i]))
      && (forall i | n <= i < |slots| ::
            && !Acted(i)
            && Spared(AllKeys()[i], slots[i]))
    }

    /** A report that says ok has passed the validator, over eight receipts that say ok. */
    predicate Certified()
      reads this
    {
      && world.validatorAccepts && MatrixValidated in log
      && |slots| == |AllKeys()| && AllClose(world, AllKeys())
      && forall i | 0 <= i < |slots| :: slots[i] == Slot(true, [CycleClosed(AllKeys()[i], true)])
    }

    method WriteReport(document: Document) returns (raised: bool)
      modifies `finalSlot
      ensures finalSlot == Finalized(old(finalSlot), document, WriteFinal in world.faults)
      ensures raised <==> WriteFinal in world.faults || SyncFinal in world.faults
    {
      finalSlot := Finalized(finalSlot, document, WriteFinal in world.faults);
      raised := WriteFinal in world.faults || SyncFinal in world.faults;
    }

    /** Receipts and the live state, checked before any cycle. */
    method SetUp() returns (raised: bool)
      requires Reserved()
      modifies `log
      ensures Reserved() && (raised <==> !(SETUP !! world.faults))
      ensures forall e | e in log && e !in old(log) :: e == SerialOpened
    {
      if ResolveTarget in world.faults || LoadSeed in world.faults || LoadFlash in world.faults
         || ReadRows in world.faults || ResolveLive in world.faults {
        return true;
      }
      LogAll(SerialOpened);
      raised := OpenLive in world.faults || CaptureLive in world.faults;
    }

    lemma TurnSettles(n: nat, allOk: bool)
      requires Turn(n, allOk)
      ensures Settled(n)
    {
      forall i | 0 <= i < n
        ensures slots[i].closed
        ensures HasReceipt(AllKeys()[i], slots[i])
      {
        if allOk || i < n - 1 {
          assert slots[i] == Slot(true, [CycleClosed(AllKeys()[i], true)]);
        }
      }
      forall i | n <= i < |slots| ensures Untouched(slots[i]) && !Acted(i) {
        assert Untouched(slots[i]);
      }
    }

    /** The final report: assembled, validated when it claims success, written once. */
    method Assemble(complete: bool) returns (raised: bool)
      requires Reserved() && Untouched(finalSlot) && MatrixValidated !in log
      requires complete <==> AllClose(world, AllKeys())
      requires complete ==> forall i | 0 <= i < |slots| :: slots[i] == Slot(true, [CycleClosed(AllKeys()[i], true)])
      modifies `finalSlot, `log
      ensures Reserved() && (log == old(log) || log == old(log) + [MatrixValidated])
      ensures finalSlot.closed
          <==> StampMatrix !in world.faults && (AllClose(world, AllKeys()) ==> Validate !in world.faults)
      ensures !finalSlot.closed ==> raised && Untouched(finalSlot)
      ensures AtMostOne(finalSlot) && forall d | d in finalSlot.documents :: d.MatrixReport?
      ensures MatrixReport(true) in finalSlot.documents ==> Certified()
      ensures !raised ==> finalSlot.documents == [MatrixReport(complete)] && (complete ==> world.validatorAccepts)
      ensures world.faults == {} ==> finalSlot.documents == [MatrixReport(complete && world.validatorAccepts)]
    {
      if StampMatrix in world.faults {
        return true;
      }
      if !complete {
        raised := WriteReport(MatrixReport(false));
        return;
      }
      if Validate in world.faults {
        return true;
      }
      LogAll(MatrixValidated);
      if !world.validatorAccepts {
        raised := WriteReport(MatrixReport(false));
        return true;
      }
      raised := WriteReport(MatrixReport(true));
    }

    lemma SettledAfterUnused(n: nat, before: seq<Slot>)
      requires |slots| == |before| == |AllKeys()| && n <= |slots| && current == None && !currentActed
      requires forall i | 0 <= i < |slots| :: slots[i] == Closing(world, AllKeys()[i], before[i])
      requires forall i | 0 <= i < n ::
                 && before[i].closed
                 && HasReceipt(AllKeys()[i], before[i])
      requires forall i | n <= i < |slots| :: !Acted(i) && Untouched(before[i])
      ensures Settled(n) && forall i | 0 <= i < |slots| :: slots[i].closed
    {
      forall i | n <= i < |slots|
        ensures slots[i] == Slot(true, []) || slots[i] == Slot(true, [NotExecuted(AllKeys()[i])])
      {
        assert Untouched(before[i]);
      }
    }

    /** The cycles, and then the receipts of the cycles that did not run. */
    method CyclesAndUnused() returns (raised: bool, done: nat, ghost interrupted: bool, complete: bool)
      requires Turn(0, true)
      modifies `slots, `log, `current, `currentActed
      ensures Reserved()
      ensures interrupted ==> raised && RaisedAt(done)
      ensures !interrupted ==>
          Settled(done) && done == Executed(world, AllKeys(), 0) && CyclesQuiet(world, AllKeys(), done)
      ensures !interrupted ==> (raised <==> !UnusedQuiet(world, AllKeys(), done))
      ensures !interrupted ==> forall i | 0 <= i < |slots| :: slots[i].closed
      ensures !interrupted ==> (complete <==> AllClose(world, AllKeys()))
      ensures !interrupted && complete ==>
          forall i | 0 <= i < |slots| :: slots[i] == Slot(true, [CycleClosed(AllKeys()[i], true)])
      ensures MatrixValidated in log ==> MatrixValidated in old(log)
    {
      var allOk;
      raised, done, allOk := RunCycles();
      complete := allOk && done == |AllKeys()|;
      if raised {
        return true, done, true, false;
      }
      interrupted := false;
      TurnSettles(done, allOk);
      assert complete <==> AllClose(world, AllKeys()) by {
        if allOk { assert forall i | 0 <= i < |slots| :: slots[i] == Slot(true, [CycleClosed(AllKeys()[i], true)]); }
      }
      assert complete ==> forall i | 0 <= i < |slots| :: slots[i] == Slot(true, [CycleClosed(AllKeys()[i], true)]);
      assert forall i | done <= i < |slots| :: Untouched(slots[i]) && !Acted(i);
      ghost var before := slots;
      raised := FinalizeUnused();
      SettledAfterUnused(done, before);
    }

    /** The report of a run that returns: it says ok exactly when every cycle closed, and then the
        validator has accepted. */
    predicate ReportsOutcome()
      reads this
    {
      && finalSlot.documents == [MatrixReport(AllClose(world, AllKeys()))]
      && (AllClose(world, AllKeys()) ==> world.validatorAccepts)
    }

    /** The report of an undisturbed run: it says ok exactly when every cycle closed and the validator
        accepts. */
    predicate ReportsVerdict()
      reads this
    {
      finalSlot.documents == [MatrixReport(AllClose(world, AllKeys()) && world.validatorAccepts)]
    }

    /** Setup, the cycles, the unused outputs, and the final report. */
    method RunAfterReservation() returns (raised: bool, ghost done: nat, ghost interrupted: bool)
      requires Reserved() && Untouched(finalSlot) && Pristine(0) && current == None && !currentActed
      requires MatrixValidated !in log && forall e | e in log :: !TouchesHardware(e)
      modifies this
      ensures Reserved()
      ensures finalSlot.closed <==> QuietToFinal(world, AllKeys())
      ensures !finalSlot.closed ==> raised && Untouched(finalSlot)
      ensures AtMostOne(finalSlot) && forall d | d in finalSlot.documents :: d.MatrixReport?
      ensures MatrixReport(true) in finalSlot.documents ==> Certified()
      ensures !raised ==> ReportsOutcome() && (forall i | 0 <= i < |slots| :: slots[i].closed)
      ensures world.faults == {} ==> ReportsVerdict()
      ensures interrupted ==> raised && SETUP !! world.faults && RaisedAt(done) && !finalSlot.closed
      ensures !interrupted ==> Settled(done)
      ensures !interrupted && SETUP !! world.faults ==>
          done == Executed(world, AllKeys(), 0) && CyclesQuiet(world, AllKeys(), done)
    {
      raised := SetUp();
      if raised {
        return true, 0, false;
      }
      var complete, count;
      raised, count, interrupted, complete := CyclesAndUnused();
      done := count;
      if raised {
        return;
      }
      ghost var before := log;
      raised := Assemble(complete);
      assert forall i | 0 <= i < |slots| :: Acted(i) <==> ActionTaken(AllKeys()[i]) in before;
    }

    // ----- the failure path

    /** The interrupted cycle's own failure receipt, if its output is still open. Stamping the
        receipt may itself raise, and then nothing is written here. */
    method FinalizeInterrupted()
      requires |slots| == |AllKeys()| && (current.Some? ==> current.value < |slots|)
      modifies `slots
      ensures |slots| == |old(slots)|
      ensures forall i | 0 <= i < |slots| ::
                slots[i] == AfterInterruption(world, AllKeys()[i], old(slots)[i], current == Some(i), currentActed)
    {
      if current.Some? && !slots[current.value].closed && StampFailedCycle !in world.faults {
        var _ := FinalizeCycle(current.value, CycleFailed(AllKeys()[current.value], currentActed));
      }
    }

    /** The exception handler: the interrupted cycle, every unused output, then the final failure
        report. Only the stamp of that last report is outside any protection. */
    method HandleFailure()
      requires |slots| == |AllKeys()| && (current.Some? ==> current.value < |slots|)
      modifies `slots, `finalSlot
      ensures |slots| == |old(slots)|
      ensures forall i | 0 <= i < |slots| ::
                slots[i] == Handled(world, AllKeys()[i], old(slots)[i], current == Some(i), currentActed)
      ensures finalSlot == if StampFailure in world.faults || old(finalSlot).closed then old(finalSlot)
                           else Finalized(old(finalSlot), FailureReport(current.Some? && currentActed),
                             WriteFinal in world.faults)
    {
      FinalizeInterrupted();
      var _ := FinalizeUnused();
      if StampFailure in world.faults {
        return;
      }
      if !finalSlot.closed {
        var _ := WriteReport(FailureReport(current.Some? && currentActed));
      }
    }

    // ----- `verify_reboot_matrix`

    /** Every cycle output is closed and holds at most one document. */
    predicate CycleOutputsClosed()
      reads this
    {
      forall i | 0 <= i < |slots| :: slots[i].closed && AtMostOne(slots[i])
    }

    /** Every action taken shows in a completed receipt of its cycle. */
    predicate ActionsAccountedFor()
      reads this
    {
      forall i | 0 <= i < |slots| && i < |AllKeys()| && Acted(i) ::
        HasReceipt(AllKeys()[i], slots[i])
    }

    /** A cycle that took its action is reported "not executed" exactly when it was interrupted
        before its receipt was written and the stamp of its failure receipt raised as well. */
    predicate FalseReceiptsExplained()
      reads this
    {
      forall i | 0 <= i < |slots| && i < |AllKeys()| ::
        Acted(i) && slots[i].documents == [NotExecuted(AllKeys()[i])] <==>
        StampFailedCycle in world.faults && InterruptedAfterAction(world, AllKeys(), i)
    }

    lemma QuietCyclesNotInterrupted(i: nat, n: nat)
      requires i < n <= |AllKeys()| && CyclesQuiet(world, AllKeys(), n)
      ensures !InterruptedAfterAction(world, AllKeys(), i)
    {
      var key := AllKeys()[i];
      assert CycleSteps(key) !! world.faults;
      assert Act(key) in CycleSteps(key) && CapturePost(key) in CycleSteps(key);
    }

    lemma NothingFalseWhenSettled(n: nat)
      requires Settled(n)
      requires SETUP !! world.faults ==> n == Executed(world, AllKeys(), 0) && CyclesQuiet(world, AllKeys(), n)
      ensures FalseReceiptsExplained() && ActionsAccountedFor()
      ensures forall i | 0 <= i < |slots| :: AtMostOne(slots[i])
    {
      forall i | 0 <= i < |slots|
        ensures AtMostOne(slots[i])
        ensures Acted(i) ==> HasReceipt(AllKeys()[i], slots[i])
        ensures !(Acted(i) && slots[i].documents == [NotExecuted(AllKeys()[i])])
        ensures !InterruptedAfterAction(world, AllKeys(), i)
      {
        if i < n {
          assert slots[i].closed && slots[i].documents[0] != NotExecuted(AllKeys()[i]);
          if SETUP !! world.faults { QuietCyclesNotInterrupted(i, n); }
        } else {
          assert !Acted(i);
        }
      }
    }

    /** The handler after a run that was not interrupted inside a cycle. */
    lemma HandledWhenSettled(n: nat, before: seq<Slot>)
      requires |before| == |slots| == |AllKeys()| && n <= |slots| && current == None && !currentActed
      requires SETUP !! world.faults ==> n == Executed(world, AllKeys(), 0) && CyclesQuiet(world, AllKeys(), n)
      requires forall i | 0 <= i < |slots| :: slots[i] == Handled(world, AllKeys()[i], before[i], false, false)
      requires forall i | 0 <= i < n ::
                 && before[i].closed
                 && HasReceipt(AllKeys()[i], before[i])
      requires forall i | n <= i < |slots| ::
                 && !Acted(i)
                 && Spared(AllKeys()[i], before[i])
      ensures Settled(n) && CycleOutputsClosed()
    {
      forall i | 0 <= i < |slots| ensures slots[i].closed && AtMostOne(slots[i]) {
        HandledCloses(world, AllKeys()[i], before[i], false, false);
      }
      forall i | n <= i < |slots|
        ensures Spared(AllKeys()[i], slots[i])
      {
        assert Untouched(before[i]) || before[i].closed;
      }
    }

    /** One output after an interruption inside cycle `n`. */
    lemma HandledWhenInterrupted(n: nat, before: seq<Slot>, i: nat)
      requires |before| == |slots| == |AllKeys()| && i < |slots| && n < |slots|
      requires SETUP !! world.faults && n < Executed(world, AllKeys(), 0)
      requires CyclesQuiet(world, AllKeys(), n) && !(CycleSteps(AllKeys()[n]) !! world.faults)
      requires slots[i] == Handled(world, AllKeys()[i], before[i], current == Some(i), currentActed)
      requires i < n ==> before[i] == Slot(true, [CycleClosed(AllKeys()[i], true)])
      requires i > n ==> Untouched(before[i]) && !Acted(i)
      requires i == n ==>
                 && (current == None || current == Some(n))
                 && (Acted(i) <==> currentActed) && (currentActed ==> current == Some(n))
                 && (Untouched(before[i]) || (before[i].closed &&
                       (before[i].documents == [] || HasReceipt(AllKeys()[i], before[i]))))
                 && (Untouched(before[i]) && currentActed <==>
                       BeforeAction(AllKeys()[i]) !! world.faults && !(DuringAction(AllKeys()[i]) !! world.faults))
      ensures slots[i].closed && AtMostOne(slots[i])
      ensures Acted(i) && slots[i].documents == [NotExecuted(AllKeys()[i])] <==>
              StampFailedCycle in world.faults && InterruptedAfterAction(world, AllKeys(), i)
      ensures i != n && Acted(i) ==> slots[i].documents == [CycleClosed(AllKeys()[i], true)]
    {
      HandledCloses(world, AllKeys()[i], before[i], current == Some(i), currentActed);
      if i < n {
        QuietCyclesNotInterrupted(i, n);
        assert slots[i].documents[0] != NotExecuted(AllKeys()[i]);
      } else if i > n {
        assert !CyclesQuiet(world, AllKeys(), i);
      } else if before[i].closed {
        assert slots[i].documents == [] || slots[i].documents[0] != NotExecuted(AllKeys()[i]);
      }
    }

    lemma HandledRun(n: nat, before: seq<Slot>)
      requires |before| == |slots| == |AllKeys()| && n < |slots|
      requires forall i | 0 <= i < |slots| ::
          slots[i] == Handled(world, AllKeys()[i], before[i], current == Some(i), currentActed)
      requires SETUP !! world.faults && n < Executed(world, AllKeys(), 0)
      requires CyclesQuiet(world, AllKeys(), n) && !(CycleSteps(AllKeys()[n]) !! world.faults)
      requires forall i | 0 <= i < n :: before[i] == Slot(true, [CycleClosed(AllKeys()[i], true)])
      requires forall i | n < i < |slots| :: Untouched(before[i]) && !Acted(i)
      requires current == None || current == Some(n)
      requires (Acted(n) <==> currentActed) && (currentActed ==> current == Some(n))
      requires Untouched(before[n]) || (before[n].closed &&
                 (before[n].documents == [] || HasReceipt(AllKeys()[n], before[n])))
      requires Untouched(before[n]) && currentActed <==>
                 BeforeAction(AllKeys()[n]) !! world.faults && !(DuringAction(AllKeys()[n]) !! world.faults)
      ensures CycleOutputsClosed() && FalseReceiptsExplained()
      ensures !currentActed ==> ActionsAccountedFor()
    {
      forall i | 0 <= i < |slots|
        ensures slots[i].closed && AtMostOne(slots[i])
        ensures Acted(i) && slots[i].documents == [NotExecuted(AllKeys()[i])] <==>
                StampFailedCycle in world.faults && InterruptedAfterAction(world, AllKeys(), i)
        ensures i != n && Acted(i) ==> slots[i].documents == [CycleClosed(AllKeys()[i], true)]
      {
        HandledWhenInterrupted(n, before, i);
      }
    }

    /** The body of the `try`, and its handler. */
    method GuardedRun() returns (raised: bool)
      requires Reserved() && Untouched(finalSlot) && Pristine(0) && current == None && !currentActed
      requires MatrixValidated !in log && forall e | e in log :: !TouchesHardware(e)
      modifies this
      ensures Safe(log, AllKeys(), software) && finalReserved && |slots| == |AllKeys()|
      ensures CycleOutputsClosed() && FalseReceiptsExplained()
      ensures AtMostOne(finalSlot)
      ensures !finalSlot.closed <==> !QuietToFinal(world, AllKeys()) && StampFailure in world.faults
      ensures MatrixReport(true) in finalSlot.documents ==> Certified()
      ensures FailureReport(false) in finalSlot.documents ==> ActionsAccountedFor()
      ensures !raised ==> ReportsOutcome()
      ensures world.faults == {} ==> ReportsVerdict()
    {
      ghost var done, interrupted;
      raised, done, interrupted := RunAfterReservation();
      if !raised {
        NothingFalseWhenSettled(done);
        return;
      }
      ghost var before := slots;
      HandleFailure();
      if interrupted {
        HandledRun(done, before);
      } else {
        HandledWhenSettled(done, before);
        NothingFalseWhenSettled(done);
      }
    }

    // ----- `verify_reboot_matrix`

    /** Every run, with an exception allowed at any call:
        - nothing touches the hardware before all outputs are reserved, and no cold cycle starts
          before every software cycle has ended well;
        - every cycle output ends closed with at most one document, and so does the final one,
          except that it stays open exactly when the run fails before the final report is written
          and the stamp of the failure report raises too;
        - a final report that says ok has passed the validator, over receipts that all say ok; when
          nothing raises, it says ok exactly when all cycles closed and the validator accepts;
        - a failure report that denies an uncertain outcome leaves no action without its receipt;
        - a cycle that took its action is called "not executed" in one situation only. */
    method Verify() returns (raised: bool)
      requires !finalReserved && finalSlot == Slot(true, []) && slots == [] && log == []
      requires current == None && !currentActed
      modifies this
      ensures Safe(log, AllKeys(), software)
      ensures CycleOutputsClosed() && AtMostOne(finalSlot)
      ensures finalReserved && !finalSlot.closed <==>
              ReservationQuiet(world, AllKeys()) && !QuietToFinal(world, AllKeys()) && StampFailure in world.faults
      ensures MatrixReport(true) in finalSlot.documents ==> Certified()
      ensures FailureReport(false) in finalSlot.documents ==> ActionsAccountedFor()
      ensures ReservationQuiet(world, AllKeys()) ==> |slots| == |AllKeys()| && FalseReceiptsExplained()
      ensures !ReservationQuiet(world, AllKeys()) ==> raised && forall e | e in log :: !TouchesHardware(e)
      ensures !raised ==> ReportsOutcome()
      ensures world.faults == {} ==> ReportsVerdict()
    {
      raised := ReserveOutputs();
      if !raised {
        raised := GuardedRun();
      }
    }
  }

  // ----- those two runs

  /** A run that leaves its reserved final output open. */
  method RunLeavingFinalOpen(software: nat, cold: nat) returns (run: MatrixRun, raised: bool)
    ensures fresh(run) && run.finalReserved && !run.finalSlot.closed
  {
    run := new MatrixRun(World({ResolveTarget, StampFailure}, {}, true), software, cold);
    FinalOutputLeftOpen(run.AllKeys());
    raised := run.Verify();
  }

  /** A run that reboots the device in its first cycle and leaves a receipt that denies it. */
  method RunDenyingReboot(software: nat, cold: nat) returns (run: MatrixRun, raised: bool)
    requires software + cold > 0
    ensures fresh(run) && |run.slots| == |run.AllKeys()| == software + cold
    ensures run.Acted(0) && run.slots[0].documents == [NotExecuted(run.AllKeys()[0])]
  {
    var keys := Keys(software, cold);
    run := new MatrixRun(World({CapturePost(keys[0]), StampFailedCycle}, {}, true), software, cold);
    RebootReportedNotExecuted(keys);
    raised := run.Verify();
  }
}
