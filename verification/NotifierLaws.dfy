/** What holds of every interleaving of the controller and its workers. */
module NotifierLaws {
  import opened Strings
  import opened Notifier

  // ---------------------------------------------------------------- the invariant

  ghost predicate OthersDone(s: State) {
    forall i :: 0 <= i < |s.workers| && s.thread != Some(i) ==> s.workers[i] == Done
  }

  /** How mActive, the thread and a pending failure are tied together at each point of the controller. */
  ghost predicate Tied(s: State, pending: bool) {
    match s.control
    case Idle => s.active <==> s.thread.Some? && !pending
    case Activating => !s.active && (s.thread.Some? <==> pending)
    case Starting => s.active && (s.thread.Some? <==> pending)
    case Deactivating => s.thread.Some? && (s.active <==> !pending)
    case Joining => s.thread.Some? && !s.active
    case Disabling => s.thread.None? && !s.active && !pending
    case Destroying => !s.active && (s.thread.Some? <==> pending)
    case Gone => s.thread.None? && !s.active && !pending
  }

  ghost predicate Inv(s: State, pending: bool) {
    && (s.thread.Some? ==> s.thread.value < |s.workers|)
    && OthersDone(s)
    && Tied(s, pending)
    && (pending ==> s.thread.Some? && (s.workers[s.thread.value] == Failed || s.workers[s.thread.value] == Done))
    && (!pending && s.thread.Some? ==>
          s.workers[s.thread.value] != Failed && (s.active ==> s.workers[s.thread.value] != Done))
  }

  function NextPending(pending: bool, step: Step): bool {
    match step
    case OpenFails(_) => true
    case Join => false
    case StartThread => false
    case _ => pending
  }

  predicate Overwrites(step: Step) {
    step.StartThread? || step.DestroyMembers?
  }

  predicate IsWorkerStep(step: Step) {
    || step.OpenAll? || step.OpenFails? || step.LeaveFailed? || step.SeesActive? || step.SeesInactive?
    || step.PollFails? || step.PollReturns? || step.Act?
  }

  /** Each step of the controller keeps the invariant, or ends the process exactly as the trace predicts. */
  lemma ControlStep(s: State, pending: bool, step: Step)
    requires Inv(s, pending) && Enabled(s, step) && !IsWorkerStep(step)
    ensures Do(s, step).outcome.Terminated? <==> Overwrites(step) && pending
    ensures Do(s, step).outcome.Running? ==> Inv(Do(s, step), NextPending(pending, step))
    ensures !Do(s, step).outcome.NullQueue?
  {
  }

  lemma WorkerStep(s: State, pending: bool, step: Step)
    requires Inv(s, pending) && Enabled(s, step) && IsWorkerStep(step)
    ensures !Do(s, step).outcome.Terminated?
    ensures Do(s, step).outcome.Running? ==> Inv(Do(s, step), NextPending(pending, step))
    ensures Do(s, step).outcome.NullQueue? ==> !s.queue
  {
    assert s.thread == Some(step.w);
  }

  lemma StepKeeps(s: State, pending: bool, step: Step)
    requires Inv(s, pending) && Enabled(s, step)
    ensures Do(s, step).outcome.Terminated? <==> Overwrites(step) && pending
    ensures Do(s, step).outcome.Running? ==> Inv(Do(s, step), NextPending(pending, step))
    ensures Do(s, step).outcome.NullQueue? ==> !s.queue
  {
    if IsWorkerStep(step) {
      WorkerStep(s, pending, step);
    } else {
      ControlStep(s, pending, step);
    }
  }

  // ---------------------------------------------------------------- every run

  /** The calls to the queue go to the sensor that was looked up, and only when there is a queue. */
  ghost predicate CallsGood(s: State) {
    forall c :: c in s.calls ==> s.queue && c.sensor == s.sensor
  }

  lemma CallsKept(s: State, step: Step)
    requires Enabled(s, step) && CallsGood(s)
    ensures var t := Do(s, step); t.queue == s.queue && t.sensor == s.sensor && CallsGood(t)
  {
  }

  /** In every run, the calls to the queue are good. */
  lemma {:induction false} EveryCall(s0: State, steps: seq<Step>)
    requires Init(s0) && Run(s0, steps).Some?
    ensures var s := Run(s0, steps).value;
            s.queue == s0.queue && s.sensor == s0.sensor && CallsGood(s)
  {
    if steps != [] {
      var n := |steps| - 1;
      EveryCall(s0, steps[..n]);
      CallsKept(Run(s0, steps[..n]).value, steps[n]);
    }
  }

  /** The calls that a trace makes: one for each time a worker acts, enabling or disabling as it found, and one
      disabling call for each deactivate that goes through. */
  function CallsOf(steps: seq<Step>, sensor: int): seq<Call> {
    if steps == [] then []
    else
      var before := CallsOf(steps[..|steps| - 1], sensor);
      match steps[|steps| - 1]
      case Act(_, enable) => before + [ByWorker(enable, sensor)]
      case Disable => before + [ByController(sensor)]
      case _ => before
  }

  lemma {:induction false} CallsAreTheTrace(s0: State, steps: seq<Step>)
    requires Init(s0) && Run(s0, steps).Some?
    ensures Run(s0, steps).value.calls == if s0.queue then CallsOf(steps, s0.sensor) else []
  {
    if steps != [] {
      var n := |steps| - 1;
      EveryCall(s0, steps[..n]);
      CallsAreTheTrace(s0, steps[..n]);
      CallsOfStep(Run(s0, steps[..n]).value, steps[n]);
    }
  }

  lemma CallsOfStep(s: State, step: Step)
    requires Enabled(s, step)
    ensures Do(s, step).calls
            == if !s.queue then s.calls
               else match step
                    case Act(_, enable) => s.calls + [ByWorker(enable, s.sensor)]
                    case Disable => s.calls + [ByController(s.sensor)]
                    case _ => s.calls
  {
  }

  /** In every run, the process is terminated exactly when the trace starts a thread or destroys the
      notifier with a failure pending; otherwise the invariant holds, and only a missing queue can end it. */
  lemma {:induction false} EveryRun(s0: State, steps: seq<Step>)
    requires Init(s0) && Run(s0, steps).Some?
    ensures var s := Run(s0, steps).value;
            && (s.outcome.Terminated? <==> Abused(steps))
            && (s.outcome.Running? ==> Inv(s, Pending(steps)))
            && (s.outcome.NullQueue? ==> !s0.queue)
  {
    if steps != [] {
      var n := |steps| - 1;
      var before, step := steps[..n], steps[n];
      EveryRun(s0, before);
      EveryCall(s0, before);
      StepKeeps(Run(s0, before).value, Pending(before), step);
      AbusedSnoc(before, step);
      assert steps == before + [step];
    }
  }

  lemma AbusedSnoc(before: seq<Step>, step: Step)
    ensures Abused(before + [step]) <==> Abused(before) || (Overwrites(step) && Pending(before))
  {
    var steps := before + [step];
    assert forall i :: 0 <= i < |before| ==> steps[i] == before[i] && steps[..i] == before[..i];
    assert steps[..|before|] == before && steps[|before|] == step;
  }

  /** At most one worker lives. */
  lemma OneWorkerLives(s0: State, steps: seq<Step>, i: nat, j: nat)
    requires Init(s0) && Run(s0, steps).Some? && Run(s0, steps).value.outcome.Running?
    requires i < |Run(s0, steps).value.workers| && Run(s0, steps).value.workers[i] != Done
    requires j < |Run(s0, steps).value.workers| && Run(s0, steps).value.workers[j] != Done
    ensures i == j
  {
    EveryRun(s0, steps);
  }

  /** Between calls, activate would overwrite a thread, and the destructor would destroy one, exactly when a
      failure is pending, and mActive and mThread show it. */
  lemma PendingIsVisible(s0: State, steps: seq<Step>)
    requires Init(s0) && Run(s0, steps).Some?
    requires Run(s0, steps).value.outcome.Running? && Run(s0, steps).value.control.Idle?
    ensures var s := Run(s0, steps).value;
            Pending(steps) <==> !s.active && s.thread.Some?
  {
    EveryRun(s0, steps);
  }

  /** A call of activate that finds mActive false goes through exactly when no failure was pending. */
  lemma ActivateIff(s0: State, steps: seq<Step>)
    requires Init(s0) && Run(s0, steps).Some?
    requires Run(s0, steps).value.outcome.Running? && Run(s0, steps).value.control.Idle? && !Run(s0, steps).value.active
    ensures var s := Run(s0, steps).value;
            var s3 := Run(s, [CallActivate, SetActive, StartThread]);
            && s3.Some?
            && (s3.value.outcome.Terminated? <==> Pending(steps))
            && (!Pending(steps) ==> s3.value.outcome.Running? && s3.value.active && s3.value.control.Idle?)
  {
    EveryRun(s0, steps);
    var s := Run(s0, steps).value;
    RunThree(s, CallActivate, SetActive, StartThread);
  }

  /** So does the destructor of an inactive notifier. */
  lemma DestroyIff(s0: State, steps: seq<Step>)
    requires Init(s0) && Run(s0, steps).Some?
    requires Run(s0, steps).value.outcome.Running? && Run(s0, steps).value.control.Idle? && !Run(s0, steps).value.active
    ensures var s := Run(s0, steps).value;
            var s2 := Run(s, [CallDestroy, DestroyMembers]);
            && s2.Some?
            && (s2.value.outcome.Terminated? <==> Pending(steps))
            && (!Pending(steps) ==> s2.value.outcome.Running? && s2.value.control.Gone?)
  {
    EveryRun(s0, steps);
    RunTwo(Run(s0, steps).value, CallDestroy, DestroyMembers);
  }

  /** When no open fails, no run is ever terminated. */
  lemma {:induction false} SafeWithoutFailures(s0: State, steps: seq<Step>)
    requires Init(s0) && Run(s0, steps).Some?
    requires forall step :: step in steps ==> !step.OpenFails?
    ensures !Run(s0, steps).value.outcome.Terminated?
  {
    EveryRun(s0, steps);
    forall i | 0 <= i < |steps| ensures !Pending(steps[..i]) {
      NeverPending(steps[..i]);
    }
  }

  lemma {:induction false} NeverPending(steps: seq<Step>)
    requires forall step :: step in steps ==> !step.OpenFails?
    ensures !Pending(steps)
  {
    if steps != [] {
      assert steps[|steps| - 1] in steps;
      NeverPending(steps[..|steps| - 1]);
    }
  }

  /** When deactivate turns the sensor off, its thread has been joined and no worker lives. */
  lemma DisableAfterJoin(s0: State, steps: seq<Step>)
    requires Init(s0) && Run(s0, steps).Some? && Enabled(Run(s0, steps).value, Disable)
    ensures var s := Run(s0, steps).value;
            && s.thread.None? && !s.active && (forall i :: 0 <= i < |s.workers| ==> s.workers[i] == Done)
            && Do(s, Disable).calls == if s0.queue then s.calls + [ByController(s0.sensor)] else s.calls
  {
    EveryRun(s0, steps);
    EveryCall(s0, steps);
  }

  lemma {:induction false} DyingIff(s0: State, steps: seq<Step>)
    requires Init(s0) && Run(s0, steps).Some?
    ensures Run(s0, steps).value.dying <==> CallDestroy in steps
  {
    if steps != [] {
      var n := |steps| - 1;
      DyingIff(s0, steps[..n]);
      assert steps == steps[..n] + [steps[n]];
      DyingStep(Run(s0, steps[..n]).value, steps[n]);
    }
  }

  lemma DyingStep(s: State, step: Step)
    requires Enabled(s, step)
    ensures Do(s, step).dying <==> s.dying || step.CallDestroy?
  {
  }

  /** After its last call a deactivate returns to its caller, and one called by the destructor goes on to destroy
      the members, which then does not end the process. */
  lemma DisableReturns(s0: State, steps: seq<Step>)
    requires Init(s0) && Run(s0, steps).Some? && Enabled(Run(s0, steps).value, Disable)
    ensures var s := Do(Run(s0, steps).value, Disable);
            && (CallDestroy !in steps ==> s.control.Idle? && s.outcome.Running?)
            && (CallDestroy in steps ==> Enabled(s, DestroyMembers) && Do(s, DestroyMembers).outcome.Running?
                                         && Do(s, DestroyMembers).control.Gone?)
  {
    EveryRun(s0, steps);
    DyingIff(s0, steps);
  }

  // ---------------------------------------------------------------- the runs that fail

  lemma {:induction false} RunConcat(s: State, a: seq<Step>, b: seq<Step>)
    ensures Run(s, a + b) == if Run(s, a).None? then None else Run(Run(s, a).value, b)
  {
    if b == [] {
      assert a + b == a;
    } else {
      var n := |b| - 1;
      assert (a + b)[..|a + b| - 1] == a + b[..n];
      RunConcat(s, a, b[..n]);
    }
  }

  lemma Extend(s: State, steps: seq<Step>, t: State, step: Step)
    requires Run(s, steps) == Some(t) && Enabled(t, step)
    ensures Run(s, steps + [step]) == Some(Do(t, step))
  {
    assert (steps + [step])[..|steps|] == steps;
  }

  const ACTIVATE: seq<Step> := [CallActivate, SetActive, StartThread]

  lemma FirstActivation(s: State)
    requires Init(s)
    ensures Run(s, ACTIVATE) == Some(s.(active := true, workers := [Opening], thread := Some(0)))
  {
    RunThree(s, CallActivate, SetActive, StartThread);
    assert [] + [Opening] == [Opening];
  }

  lemma FirstOpenFails(s: State) returns (steps: seq<Step>)
    requires Init(s)
    ensures Pending(steps) && Run(s, steps).Some?
    ensures var t := Run(s, steps).value; t.outcome.Running? && t.control.Idle? && !t.active
  {
    FirstActivation(s);
    Extend(s, ACTIVATE, Run(s, ACTIVATE).value, OpenFails(0));
    steps := ACTIVATE + [OpenFails(0)];
    assert steps[|steps| - 1] == OpenFails(0);
  }

  /** A worker that cannot open its files, then a second activation: the process is terminated. */
  lemma FailThenActivate(s: State)
    requires Init(s)
    ensures exists steps :: Run(s, steps + ACTIVATE).Some? && Run(s, steps + ACTIVATE).value.outcome.Terminated?
  {
    var steps := FirstOpenFails(s);
    ActivateIff(s, steps);
    RunConcat(s, steps, ACTIVATE);
  }

  const DESTROY: seq<Step> := [CallDestroy, DestroyMembers]

  /** The same failure, then the destructor: the process is terminated. */
  lemma FailThenDestroy(s: State)
    requires Init(s)
    ensures exists steps :: Run(s, steps + DESTROY).Some? && Run(s, steps + DESTROY).value.outcome.Terminated?
  {
    var steps := FirstOpenFails(s);
    DestroyIff(s, steps);
    RunConcat(s, steps, DESTROY);
  }

  /** One more step of the only worker. */
  lemma WorkerMoves(s: State, steps: seq<Step>, t: State, step: Step, pc: Worker) returns (more: seq<Step>, u: State)
    requires Run(s, steps) == Some(t) && Enabled(t, step) && t.active && |t.workers| == 1
    requires (step, pc) in {(OpenAll(0), AtHead), (SeesActive(0), Polling), (PollReturns(0), Acting)}
    ensures Run(s, more) == Some(u) && u == t.(workers := [pc])
  {
    Extend(s, steps, t, step);
    more, u := steps + [step], Do(t, step);
    assert t.workers[0 := pc] == [pc];
  }

  lemma FirstAct(s: State) returns (steps: seq<Step>, t: State)
    requires Init(s)
    ensures Run(s, steps) == Some(t) && t.queue == s.queue && Enabled(t, Act(0, true))
  {
    FirstActivation(s);
    steps, t := WorkerMoves(s, ACTIVATE, Run(s, ACTIVATE).value, OpenAll(0), AtHead);
    steps, t := WorkerMoves(s, steps, t, SeesActive(0), Polling);
    steps, t := WorkerMoves(s, steps, t, PollReturns(0), Acting);
  }

  /** Some run dereferences a null queue if and only if there is no queue. */
  lemma ActWithoutQueue(s: State)
    requires Init(s)
    ensures (exists steps :: Run(s, steps).Some? && Run(s, steps).value.outcome.NullQueue?) <==> !s.queue
  {
    forall steps | Run(s, steps).Some? && Run(s, steps).value.outcome.NullQueue? ensures !s.queue {
      EveryRun(s, steps);
    }
    if !s.queue {
      var steps, t := FirstAct(s);
      Extend(s, steps, t, Act(0, true));
    }
  }

  /** In every run of a constructed notifier each call to the queue is for the first matching sensor of a
      successful search. */
  lemma ConstructedCalls(list: ListReply, reply: QueueReply, s0: State, steps: seq<Step>)
    requires LookedUp(s0, list, reply) && Run(s0, steps).Some?
    ensures forall c :: c in Run(s0, steps).value.calls ==> Found(list) && FirstMatchHandle(list, c.sensor)
  {
    EveryCall(s0, steps);
  }

  /** Some run of a constructed notifier dereferences null if and only if the search failed or gave no queue. */
  lemma ConstructedNullIff(list: ListReply, reply: QueueReply, s0: State)
    requires LookedUp(s0, list, reply)
    ensures (exists steps :: Run(s0, steps).Some? && Run(s0, steps).value.outcome.NullQueue?)
            <==> !Found(list) || reply.queue.None?
  {
    ActWithoutQueue(s0);
  }

  // ---------------------------------------------------------------- deactivate can finish

  /** From a waiting deactivate, one step of the worker it waits for, with mActive already cleared. */
  function Towards(w: nat, pc: Worker): Step {
    match pc
    case Opening => OpenAll(w)
    case AtHead => SeesInactive(w)
    case Polling => PollFails(w)
    case Acting => Act(w, false)
    case Failed => LeaveFailed(w)
    case Done => Join
  }

  function Distance(pc: Worker): nat {
    match pc
    case Done => 0
    case AtHead => 1
    case Failed => 1
    case _ => 2
  }

  /** A deactivate that waits for a worker which is not about to dereference a null queue. */
  ghost predicate Waiting(s: State) {
    && s.outcome.Running? && s.control.Joining? && !s.active
    && s.thread.Some? && s.thread.value < |s.workers|
    && (s.queue || s.workers[s.thread.value] != Acting)
  }

  lemma TowardsWorks(s: State)
    requires Waiting(s)
    ensures var pc := s.workers[s.thread.value];
            var step := Towards(s.thread.value, pc);
            && Enabled(s, step) && (IsWorkerStep(step) || step.Join?)
            && (pc == Done ==> Do(s, step).control.Disabling?)
            && (pc != Done ==> Waiting(Do(s, step)) && Do(s, step).thread == s.thread
                               && Distance(Do(s, step).workers[s.thread.value]) < Distance(pc))
  {
  }

  /** At most this many steps of the worker, or the join. */
  ghost predicate Short(more: seq<Step>, n: nat) {
    |more| <= n && forall step :: step in more ==> IsWorkerStep(step) || step.Join?
  }

  lemma RunCons(s: State, step: Step, rest: seq<Step>)
    requires Enabled(s, step)
    ensures Run(s, [step] + rest) == Run(Do(s, step), rest)
  {
    RunOne(s, step);
    RunConcat(s, [step], rest);
  }

  lemma {:induction false} WaitEnds(s: State) returns (more: seq<Step>)
    requires Waiting(s)
    ensures Short(more, Distance(s.workers[s.thread.value]) + 1)
    ensures Run(s, more).Some? && Run(s, more).value.control.Disabling?
    decreases Distance(s.workers[s.thread.value])
  {
    var step := Towards(s.thread.value, s.workers[s.thread.value]);
    TowardsWorks(s);
    var rest := [];
    if s.workers[s.thread.value] != Done {
      rest := WaitEnds(Do(s, step));
    }
    RunCons(s, step, rest);
    more := [step] + rest;
  }

  /** The worker is about to dereference a null queue, or has. */
  ghost predicate Stuck(s: State) {
    && s.control.Joining?
    && (s.outcome.Running? ==>
          !s.queue && s.thread.Some? && At(s, s.thread.value, Acting) && OthersDone(s))
  }

  lemma {:induction false} StuckForever(s: State, more: seq<Step>)
    requires Stuck(s) && Run(s, more).Some?
    ensures Stuck(Run(s, more).value)
  {
    if more != [] {
      var n := |more| - 1;
      StuckForever(s, more[..n]);
      StuckStep(Run(s, more[..n]).value, more[n]);
    }
  }

  lemma StuckStep(s: State, step: Step)
    requires Stuck(s) && Enabled(s, step)
    ensures Stuck(Do(s, step))
  {
    assert IsWorkerStep(step) && s.thread == Some(step.w);
  }

  /** However the threads got there, two steps of the worker at most and then the join let a waiting
      deactivate go on; the one exception is a worker about to call a queue that does not exist, and then
      nothing does. */
  lemma JoinIsReachable(s0: State, steps: seq<Step>)
    requires Init(s0) && Run(s0, steps).Some?
    requires Run(s0, steps).value.outcome.Running? && Run(s0, steps).value.control.Joining?
    ensures var s := Run(s0, steps).value;
            && s.thread.Some?
            && (s0.queue || !At(s, s.thread.value, Acting) ==>
                  exists more :: Short(more, 3) && Run(s, more).Some? && Run(s, more).value.control.Disabling?)
            && (!s0.queue && At(s, s.thread.value, Acting) ==>
                  forall more :: Run(s, more).Some? ==> !Run(s, more).value.control.Disabling?)
  {
    var s := Run(s0, steps).value;
    EveryRun(s0, steps);
    EveryCall(s0, steps);
    if s0.queue || !At(s, s.thread.value, Acting) {
      var more := WaitEnds(s);
      assert Short(more, 3);
    } else {
      forall more | Run(s, more).Some? ensures !Run(s, more).value.control.Disabling? {
        StuckForever(s, more);
      }
    }
  }
}
