/** The reduction of a validation log in which bridge restores may be retried once
    (scripts/autonomous_hardware_validate_d1l.py). */
module RetryReducer {
  import opened Common

  /** `retry` is present when the step carries the key "attempt"; a phase or an attempt of another
      type is None. */
  datatype Kind = ReleaseGate | BridgeRestore | OtherKind

  datatype Retry = Retry(phase: Option<string>, attempt: Option<int>)

  datatype Step = Step(kind: Kind, retry: Option<Retry>, ok: bool)

  predicate FirstAttempt(s: Step, seen: set<string>) {
    && s.retry.Some? && s.retry.value.phase.Some? && s.retry.value.phase.value != ""
    && s.retry.value.phase.value !in seen
    && s.retry.value.attempt == Some(1)
  }

  predicate SecondAttemptOk(s: Step, phase: string) {
    s.kind.BridgeRestore? && s.retry == Some(Retry(Some(phase), Some(2))) && s.ok
  }

  /** The verdict on the steps from `index` on, with the phases seen so far. */
  predicate ReducesFrom(runs: seq<Step>, index: nat, seen: set<string>)
    requires index <= |runs|
    decreases |runs| - index
  {
    if index == |runs| then true
    else
      var step := runs[index];
      if step.kind.ReleaseGate? then ReducesFrom(runs, index + 1, seen)
      else if step.kind.BridgeRestore? && step.retry.Some? then
        && FirstAttempt(step, seen)
        && var phase := step.retry.value.phase.value;
           if step.ok then ReducesFrom(runs, index + 1, seen + {phase})
           else
             && index + 1 < |runs| && SecondAttemptOk(runs[index + 1], phase)
             && ReducesFrom(runs, index + 2, seen + {phase})
      else step.ok && ReducesFrom(runs, index + 1, seen)
  }

  method ValidationRunsOk(runs: seq<Step>) returns (ok: bool)
    ensures ok == ReducesFrom(runs, 0, {})
  {
    var seen: set<string> := {};
    var index := 0;
    while index < |runs|
      invariant 0 <= index <= |runs|
      invariant ReducesFrom(runs, 0, {}) == ReducesFrom(runs, index, seen)
    {
      var step := runs[index];
      if step.kind.ReleaseGate? {
        index := index + 1;
        continue;
      }
      if step.kind.BridgeRestore? && step.retry.Some? {
        if !FirstAttempt(step, seen) {
          return false;
        }
        var phase := step.retry.value.phase.value;
        seen := seen + {phase};
        if step.ok {
          index := index + 1;
          continue;
        }
        if index + 1 >= |runs| {
          return false;
        }
        if !SecondAttemptOk(runs[index + 1], phase) {
          return false;
        }
        index := index + 2;
        continue;
      }
      if !step.ok {
        return false;
      }
      index := index + 1;
    }
    ok := true;
  }

  // ----- logs the runner writes

  /** One logical step: a release gate, a bridge restore with the outcome of its attempts, or
      another step. */
  datatype Event = Gate(ok: bool) | Restore(phase: string, first: bool, second: bool) | Plain(step: Step)

  /** The retry loop: a second attempt follows a failed first one. */
  method RunBridgeRestore(runs: seq<Step>, phase: string, outcomes: (bool, bool)) returns (log: seq<Step>, ok: bool)
    ensures log == runs + Steps(Restore(phase, outcomes.0, outcomes.1))
    ensures ok <==> outcomes.0 || outcomes.1
  {
    log, ok := runs, false;
    var attempt := 0;
    while attempt < 2 && !ok
      invariant 0 <= attempt <= 2
      invariant attempt == 0 ==> log == runs && !ok
      invariant attempt == 1 ==> log == runs + [AttemptStep(phase, 1, outcomes.0)] && ok == outcomes.0
      invariant attempt == 2 ==>
          log == runs + Steps(Restore(phase, outcomes.0, outcomes.1)) && !outcomes.0 && ok == outcomes.1
    {
      ok := if attempt == 0 then outcomes.0 else outcomes.1;
      log := log + [AttemptStep(phase, attempt + 1, ok)];
      attempt := attempt + 1;
    }
  }

  function AttemptStep(phase: string, attempt: int, ok: bool): Step {
    Step(BridgeRestore, Some(Retry(Some(phase), Some(attempt))), ok)
  }

  function Steps(e: Event): seq<Step> {
    match e
    case Gate(ok) => [Step(ReleaseGate, None, ok)]
    case Restore(phase, first, second) =>
      if first then [AttemptStep(phase, 1, true)] else [AttemptStep(phase, 1, false), AttemptStep(phase, 2, second)]
    case Plain(step) => [step]
  }

  function Log(events: seq<Event>): seq<Step> {
    if events == [] then [] else Steps(events[0]) + Log(events[1..])
  }

  /** The outcome that counts: gates are ignored, a restore counts by its last attempt. */
  predicate Succeeds(e: Event) {
    match e
    case Gate(_) => true
    case Restore(_, first, second) => first || second
    case Plain(step) => step.ok
  }

  /** What the runner appends otherwise: steps that are neither gates nor attempted restores. */
  predicate WellFormed(e: Event) {
    match e
    case Restore(phase, _, _) => phase != ""
    case Plain(step) => !step.kind.ReleaseGate? && !(step.kind.BridgeRestore? && step.retry.Some?)
    case Gate(_) => true
  }

  /** The phases of the restores are new and pairwise distinct. */
  predicate PhasesFresh(events: seq<Event>, seen: set<string>) {
    events == [] ||
    if events[0].Restore? then events[0].phase !in seen && PhasesFresh(events[1..], seen + {events[0].phase})
    else PhasesFresh(events[1..], seen)
  }

  /** Restores whose phases are not in `seen` and pairwise distinct. */
  ghost predicate PhasesDistinct(events: seq<Event>, seen: set<string>) {
    && (forall i | 0 <= i < |events| && events[i].Restore? :: events[i].phase !in seen)
    && (forall i, j | 0 <= i < j < |events| && events[i].Restore? && events[j].Restore? ::
      events[i].phase != events[j].phase)
  }

  lemma {:induction false} FreshIff(events: seq<Event>, seen: set<string>)
    ensures PhasesFresh(events, seen) <==> PhasesDistinct(events, seen)
    decreases |events|
  {
    if events != [] {
      var e, rest := events[0], events[1..];
      var more := if e.Restore? then seen + {e.phase} else seen;
      FreshIff(rest, more);
      assert forall i | 0 <= i < |rest| :: rest[i] == events[i + 1];
      if PhasesDistinct(rest, more) && (e.Restore? ==> e.phase !in seen) {
        forall i | 0 <= i < |events| && events[i].Restore? ensures events[i].phase !in seen {
          if i > 0 { assert rest[i - 1].phase !in more; }
        }
        forall i, j | 0 <= i < j < |events| && events[i].Restore? && events[j].Restore?
          ensures events[i].phase != events[j].phase
        {
          assert rest[j - 1].phase !in more;
          if i > 0 { assert rest[i - 1].phase != rest[j - 1].phase; }
        }
      }
    }
  }

  lemma {:induction false} LogReduces(before: seq<Step>, events: seq<Event>, seen: set<string>)
    requires forall e | e in events :: WellFormed(e)
    ensures ReducesFrom(before + Log(events), |before|, seen)
            <==> PhasesFresh(events, seen) && forall e | e in events :: Succeeds(e)
    decreases |events|
  {
    if events != [] {
      var e, rest := events[0], events[1..];
      var steps, all := Steps(e), before + Log(events);
      assert all == (before + steps) + Log(rest);
      assert forall i | 0 <= i < |steps| :: all[|before| + i] == steps[i];
      assert e in events && forall x :: x in events <==> x == e || x in rest;
      LogReduces(before + steps, rest, if e.Restore? then seen + {e.phase} else seen);
    } else {
      assert before + Log(events) == before;
    }
  }

  /** On any log the runner writes, the reducer's verdict is that no phase was used twice and every
      logical step succeeded at last. */
  lemma LogVerdict(events: seq<Event>)
    requires forall e | e in events :: WellFormed(e)
    ensures ReducesFrom(Log(events), 0, {})
            <==> PhasesDistinct(events, {}) && forall e | e in events :: Succeeds(e)
  {
    LogReduces([], events, {});
    FreshIff(events, {});
    assert [] + Log(events) == Log(events);
  }

  /** So a phase used twice makes the verdict negative, whatever the outcomes and the other steps. */
  lemma RepeatedPhaseRefused(events: seq<Event>, i: nat, j: nat)
    requires forall e | e in events :: WellFormed(e)
    requires i < j < |events| && events[i].Restore? && events[j].Restore? && events[i].phase == events[j].phase
    ensures !ReducesFrom(Log(events), 0, {})
  {
    LogVerdict(events);
  }
}
