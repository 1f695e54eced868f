/** From every state an unattended run can reach, the dispatcher alone can bring
    the outbox to rest. */
module DispatchProgress {
  import opened Base
  import opened Polling
  import opened Dispatch
  import opened DispatchControl
  import opened DispatchBudget
  import opened DispatchDraining
  import Outbox

  /** A legal unattended run of a valid configuration. */
  ghost predicate Run(c: Config, steps: seq<Step>) {
    ValidConfig(c) && c.policy.maxAttempts >= 1 && Legal(c, steps) && UnattendedRun(c, steps)
  }

  ghost function End(c: Config, steps: seq<Step>): Sys
    requires Run(c, steps)
  {
    Reached(c, steps)
  }

  /** What the dispatcher does by itself: no producer, no operator, no crash. */
  predicate OwnStep(step: Step) {
    step.Tick? || Forward(step) || step.Drained? || step.Restart?
  }

  ghost predicate Continues(steps: seq<Step>, longer: seq<Step>) {
    |steps| <= |longer| && longer[..|steps|] == steps && forall i | |steps| <= i < |longer| :: OwnStep(longer[i])
  }

  lemma ContinuesTransitive(a: seq<Step>, b: seq<Step>, d: seq<Step>)
    requires Continues(a, b) && Continues(b, d)
    ensures Continues(a, d)
  {
    assert d[..|a|] == b[..|a|];
    assert forall i | |a| <= i < |b| :: d[i] == b[i];
  }

  lemma OwnIsUnattended(c: Config, s: Sys, step: Step)
    requires OwnStep(step)
    ensures Unattended(c, s, step)
  {}

  lemma Snoc(c: Config, steps: seq<Step>, longer: seq<Step>)
    requires Run(c, steps) && longer != [] && longer[..|longer| - 1] == steps
    requires Enabled(c, End(c, steps), longer[|longer| - 1]) && Unattended(c, End(c, steps), longer[|longer| - 1])
    ensures Run(c, longer) && End(c, longer) == Do(c, End(c, steps), longer[|longer| - 1])
  {
    hide Do, Enabled, Unattended, ValidConfig;
    assert Legal(c, longer);
    assert UnattendedRun(c, longer);
  }

  lemma Extend(c: Config, steps: seq<Step>, step: Step) returns (longer: seq<Step>)
    requires Run(c, steps) && Enabled(c, End(c, steps), step) && OwnStep(step)
    ensures longer == steps + [step] && Continues(steps, longer)
    ensures Run(c, longer) && End(c, longer) == Do(c, End(c, steps), step)
  {
    hide Do, Enabled, Unattended, Run, End, OwnStep;
    longer := steps + [step];
    assert longer[..|longer| - 1] == steps && longer[|longer| - 1] == step;
    OwnIsUnattended(c, End(c, steps), step);
    Snoc(c, steps, longer);
  }

  // --- one batch ------------------------------------------------------------------------------

  predicate OpenAt(s: Sys, i: nat) {
    i < |s.tasks| && !s.tasks[i].phase.Finished? && s.tasks[i].event.id in s.store
  }

  /** Some task has still to record an outcome for an event of the store. */
  ghost predicate Working(s: Sys) {
    exists i :: OpenAt(s, i)
  }

  ghost function Remaining(c: Config, s: Sys): nat {
    Potential(s.store, c.policy.maxAttempts)
  }

  lemma QuietForward(c: Config, s: Sys, step: Step)
    requires Enabled(c, s, step) && Forward(step) && !step.Mark?
    ensures Do(c, s, step).store == s.store && Do(c, s, step).mode == s.mode
    ensures Working(s) ==> Working(Do(c, s, step))
  {
    hide Awaiting, Outbox.Append;
    var s' := Do(c, s, step);
    if i: nat :| OpenAt(s, i) {
      if step.Join? {
        assert OpenAt(s', if i < step.i then i else i - 1);
      } else {
        assert OpenAt(s', i);
      }
    }
  }

  lemma MarkForward(c: Config, s: Sys, i: nat, diagnostic: Bytes)
    requires Budget(c, s) && Enabled(c, s, Mark(i, true, diagnostic))
    ensures var s' := Do(c, s, Mark(i, true, diagnostic));
      && s'.mode == s.mode && Remaining(c, s') <= Remaining(c, s)
      && (Working(s) ==> Working(s') || Remaining(c, s') < Remaining(c, s))
  {
    hide Budget, Potential;
    var s' := Do(c, s, Mark(i, true, diagnostic));
    MarkKeeps(c, s, i, diagnostic);
    if s.tasks[i].event.id in s.store {
      OutcomeSpends(c, s, i, diagnostic);
    } else if j: nat :| OpenAt(s, j) {
      assert OpenAt(s', j);
    }
  }

  lemma MarkKeeps(c: Config, s: Sys, i: nat, diagnostic: Bytes)
    requires Enabled(c, s, Mark(i, true, diagnostic))
    ensures var s' := Do(c, s, Mark(i, true, diagnostic));
      && s'.mode == s.mode && s'.store.Keys == s.store.Keys
      && |s'.tasks| == |s.tasks| && (forall j | 0 <= j < |s.tasks| && j != i :: s'.tasks[j] == s.tasks[j])
      && (s.tasks[i].event.id !in s.store ==> s'.store == s.store)
  {
    hide Waited;
  }

  lemma ForwardStep(c: Config, steps: seq<Step>) returns (longer: seq<Step>)
    requires Run(c, steps) && End(c, steps).tasks != []
    ensures Run(c, longer) && Continues(steps, longer)
    ensures var s, s' := End(c, steps), End(c, longer);
      && s'.mode == s.mode && Work(s'.tasks) < Work(s.tasks) && Remaining(c, s') <= Remaining(c, s)
      && (Working(s) ==> Working(s') || Remaining(c, s') < Remaining(c, s))
  {
    hide Do, Enabled, Budget, Control, Working, Potential, Work;
    EveryRun(c, steps);
    BudgetRun(c, steps);
    var s := End(c, steps);
    var step := DrainingNeverSticks(c, s);
    longer := Extend(c, steps, step);
    TaskStepsLowerWork(c, s, step);
    if step.Mark? {
      MarkForward(c, s, step.i, step.diagnostic);
    } else {
      QuietForward(c, s, step);
    }
  }

  /** Every batch can be brought to its end, and if it holds an event of the store
      that still awaits its outcome, less remains to be spent. */
  lemma DrainBatch(c: Config, steps: seq<Step>) returns (longer: seq<Step>)
    requires Run(c, steps)
    ensures Run(c, longer) && Continues(steps, longer)
    ensures var s, s' := End(c, steps), End(c, longer);
      && s'.mode == s.mode && s'.tasks == [] && Remaining(c, s') <= Remaining(c, s)
      && (Working(s) ==> Remaining(c, s') < Remaining(c, s))
    decreases Work(End(c, steps).tasks)
  {
    hide Run, Remaining, Work;
    if End(c, steps).tasks == [] {
      longer := steps;
    } else {
      var next := ForwardStep(c, steps);
      longer := DrainBatch(c, next);
      ContinuesTransitive(steps, next, longer);
    }
  }

  // --- polling until a batch comes --------------------------------------------------------------

  /** The last instant before the stamp that parks. */
  const LATEST: U64 := NEVER - 1

  lemma SkippedTick(c: Config, s: Sys)
    requires s.mode == Idle && !Fetches(c.batch, s.poller) && s.poller.idleTick < IDLE_POLL_DIVISOR
    ensures var s' := Do(c, s, Tick(LATEST, false));
      s' == s.(poller := s.poller.(idleTick := s.poller.idleTick + 1)) && s'.poller.idleTick < IDLE_POLL_DIVISOR
  {
    hide Outbox.FetchDue;
  }

  /** At most nine ticks are skipped before one fetches. */
  lemma ReachFetch(c: Config, steps: seq<Step>) returns (longer: seq<Step>)
    requires Run(c, steps) && End(c, steps).mode == Idle
    ensures Run(c, longer) && Continues(steps, longer)
    ensures var s, s' := End(c, steps), End(c, longer);
      s'.mode == Idle && s'.store == s.store && Fetches(c.batch, s'.poller)
    decreases IDLE_POLL_DIVISOR - End(c, steps).poller.idleTick
  {
    hide Do, Control, Fetches, Conserved;
    EveryRun(c, steps);
    if Fetches(c.batch, End(c, steps).poller) {
      longer := steps;
    } else {
      var next := Extend(c, steps, Tick(LATEST, false));
      SkippedTick(c, End(c, steps));
      longer := ReachFetch(c, next);
      ContinuesTransitive(steps, next, longer);
    }
  }

  lemma FetchedWork(c: Config, s: Sys)
    requires ValidConfig(c) && Control(c, s) && CadenceHolds(c, s)
    requires s.mode == Idle && Fetches(c.batch, s.poller) && PendingIds(s.store) != {}
    ensures var s' := Do(c, s, Tick(LATEST, false));
      s'.mode == Draining && s'.store == s.store && Working(s')
  {
    hide Outbox.FetchDue, Polling.Tick;
    FetchFindsWork(c, s, LATEST);
    Outbox.FetchReturnsDueInOrder(s.store, s.poller.size, LATEST);
    var s' := Do(c, s, Tick(LATEST, false));
    var due := Outbox.FetchDue(s.store, s.poller.size, LATEST);
    assert due[0] in due && s'.tasks[0] == Task(due[0], Waiting);
    assert OpenAt(s', 0);
  }

  lemma BackToIdle(c: Config, steps: seq<Step>) returns (longer: seq<Step>)
    requires Run(c, steps)
    ensures Run(c, longer) && Continues(steps, longer)
    ensures var s, s' := End(c, steps), End(c, longer);
      && s'.mode == Idle && Remaining(c, s') <= Remaining(c, s)
      && (Working(s) ==> Remaining(c, s') < Remaining(c, s))
  {
    hide Remaining, Working, Reached, Legal, UnattendedRun;
    longer := DrainBatch(c, steps);
    var s := End(c, longer);
    var last := longer;
    if s.mode == Draining {
      longer := Extend(c, last, Drained);
      ContinuesTransitive(steps, last, longer);
    } else if s.mode != Idle {
      longer := Extend(c, last, Restart);
      ContinuesTransitive(steps, last, longer);
    }
    assert End(c, longer).store == s.store;
    SameRemaining(c, End(c, longer), s);
  }

  lemma SameRemaining(c: Config, a: Sys, b: Sys)
    requires a.store == b.store
    ensures Remaining(c, a) == Remaining(c, b)
  {}

  /** One poll, and the batch it fetched brought to its end, spends attempts. */
  lemma OneRound(c: Config, steps: seq<Step>) returns (longer: seq<Step>)
    requires Run(c, steps) && End(c, steps).mode == Idle && PendingIds(End(c, steps).store) != {}
    ensures Run(c, longer) && Continues(steps, longer)
    ensures End(c, longer).mode == Idle && Remaining(c, End(c, longer)) < Remaining(c, End(c, steps))
  {
    hide Remaining, Working, Do, Control, CadenceHolds, Conserved, Fetches;
    var ready := ReachFetch(c, steps);
    EveryRun(c, ready);
    var s := End(c, ready);
    var fetched := Extend(c, ready, Tick(LATEST, false));
    FetchedWork(c, s);
    longer := BackToIdle(c, fetched);
    SameRemaining(c, End(c, fetched), End(c, steps));
    ContinuesTransitive(steps, ready, fetched);
    ContinuesTransitive(steps, fetched, longer);
  }

  /** From every state an unattended run can reach, at rest, in mid-batch, stopped
      or down, the dispatcher by itself can go on to a state where it is idle
      and nothing is pending. */
  lemma RunsToRest(c: Config, steps: seq<Step>) returns (longer: seq<Step>)
    requires Run(c, steps)
    ensures Run(c, longer) && Continues(steps, longer)
    ensures End(c, longer).mode == Idle && PendingIds(End(c, longer).store) == {}
  {
    hide Run, Remaining;
    longer := BackToIdle(c, steps);
    while PendingIds(End(c, longer).store) != {}
      invariant Run(c, longer) && Continues(steps, longer) && End(c, longer).mode == Idle
      decreases Remaining(c, End(c, longer))
    {
      var last := longer;
      longer := OneRound(c, last);
      ContinuesTransitive(steps, last, longer);
    }
  }
}
