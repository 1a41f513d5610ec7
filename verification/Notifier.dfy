/** The sensor notifier: finding the sensor and its event queue, and the life of the worker thread as the
    interleaved steps of the controller, which calls activate, deactivate and the destructor, and of the
    worker, which runs notify. */
module Notifier {
  import opened Strings

  // ---------------------------------------------------------------- finding the sensor

  datatype Result = OK | NotExist | BadValue

  datatype SensorInfo = SensorInfo(typeAsString: string, flags: nat, sensorHandle: int)

  /** What the sensor manager answers: the list of sensors, and the event queue, which may be null. */
  datatype ListReply = ListReply(sensors: seq<SensorInfo>, result: Result)
  datatype QueueReply = QueueReply(queue: Option<nat>, result: Result)

  /** The sensor has the type, and its wake-up flag, bit 0, is as asked. */
  predicate Matches(s: SensorInfo, typeAsString: string, wakeup: bool) {
    s.typeAsString == typeAsString && (s.flags % 2 == 1) == wakeup
  }

  /** The first sensor of the type whose lowest flag bit is as asked. */
  ghost predicate IsFirstMatch(sensors: seq<SensorInfo>, typeAsString: string, wakeup: bool, i: int) {
    && 0 <= i < |sensors|
    && sensors[i].typeAsString == typeAsString && sensors[i].flags % 2 == (if wakeup then 1 else 0)
    && NoMatch(sensors[..i], typeAsString, wakeup)
  }

  ghost predicate NoMatch(sensors: seq<SensorInfo>, typeAsString: string, wakeup: bool) {
    forall j :: 0 <= j < |sensors| ==>
      sensors[j].typeAsString != typeAsString || sensors[j].flags % 2 != (if wakeup then 1 else 0)
  }

  // ---------------------------------------------------------------- the two threads

  /** Where a worker is in notify: opening the three files, at the test of mActive, waiting in poll, about to
      call the queue, past the failed open that cleared mActive, or finished. */
  datatype Worker = Opening | AtHead | Polling | Acting | Failed | Done

  /** Where the controller is: between calls; in activate past its test, and past the write of mActive; in
      deactivate past its test, past the write, and past the join; destroying the members; gone. */
  datatype Control = Idle | Activating | Starting | Deactivating | Joining | Disabling | Destroying | Gone

  /** What became of the process: std::terminate is called when a joinable thread is overwritten or
      destroyed, and a null queue is dereferenced when a worker acts without one. */
  datatype Outcome = Running | Terminated | NullQueue

  datatype Call = ByWorker(enable: bool, sensor: int) | ByController(sensor: int)

  datatype State = State(
    active: bool,
    workers: seq<Worker>,
    thread: Option<nat>,
    control: Control,
    dying: bool,
    queue: bool,
    sensor: int,
    calls: seq<Call>,
    outcome: Outcome)

  predicate Init(s: State) {
    && !s.active && s.workers == [] && s.thread.None? && s.control.Idle? && !s.dying
    && s.calls == [] && s.outcome.Running?
  }

  datatype Step =
    | CallActivate | SetActive | StartThread
    | CallDeactivate | CallDestroy | ClearActive | Join | Disable | DestroyMembers
    | OpenAll(w: nat) | OpenFails(w: nat) | LeaveFailed(w: nat)
    | SeesActive(w: nat) | SeesInactive(w: nat)
    | PollFails(w: nat) | PollReturns(w: nat) | Act(w: nat, enable: bool)

  predicate At(s: State, w: nat, pc: Worker) {
    w < |s.workers| && s.workers[w] == pc
  }

  predicate Enabled(s: State, step: Step) {
    s.outcome.Running? &&
    match step
    case CallActivate => s.control.Idle?
    case SetActive => s.control.Activating?
    case StartThread => s.control.Starting?
    case CallDeactivate => s.control.Idle?
    case CallDestroy => s.control.Idle?
    case ClearActive => s.control.Deactivating?
    case Join => s.control.Joining? && (s.thread.Some? ==> At(s, s.thread.value, Done))
    case Disable => s.control.Disabling?
    case DestroyMembers => s.control.Destroying?
    case OpenAll(w) => At(s, w, Opening)
    case OpenFails(w) => At(s, w, Opening)
    case LeaveFailed(w) => At(s, w, Failed)
    case SeesActive(w) => At(s, w, AtHead) && s.active
    case SeesInactive(w) => At(s, w, AtHead) && !s.active
    case PollFails(w) => At(s, w, Polling)
    case PollReturns(w) => At(s, w, Polling)
    case Act(w, _) => At(s, w, Acting)
  }

  function Move(s: State, w: nat, pc: Worker): State
    requires w < |s.workers|
  {
    s.(workers := s.workers[w := pc])
  }

  /** Where deactivate returns to: the caller, or the rest of the destructor. */
  function Returned(s: State): Control {
    if s.dying then Destroying else Idle
  }

  function Do(s: State, step: Step): State
    requires Enabled(s, step)
  {
    match step
    case CallActivate => if s.active then s else s.(control := Activating)
    case SetActive => s.(active := true, control := Starting)
    case StartThread =>
      var started := s.(workers := s.workers + [Opening]);
      if s.thread.Some? then started.(outcome := Terminated)
      else started.(thread := Some(|s.workers|), control := Idle)
    case CallDeactivate => if !s.active then s else s.(control := Deactivating)
    case CallDestroy =>
      var dying := s.(dying := true);
      dying.(control := if !s.active then Destroying else Deactivating)
    case ClearActive => s.(active := false, control := Joining)
    case Join => s.(thread := None, control := Disabling)
    case Disable =>
      var called := if s.queue then s.(calls := s.calls + [ByController(s.sensor)]) else s;
      called.(control := Returned(s))
    case DestroyMembers => if s.thread.Some? then s.(outcome := Terminated) else s.(control := Gone)
    case OpenAll(w) => Move(s, w, AtHead)
    case OpenFails(w) => Move(s, w, Failed).(active := false)
    case LeaveFailed(w) => Move(s, w, Done)
    case SeesActive(w) => Move(s, w, Polling)
    case SeesInactive(w) => Move(s, w, Done)
    case PollFails(w) => Move(s, w, AtHead)
    case PollReturns(w) => Move(s, w, Acting)
    case Act(w, enable) =>
      if s.queue then Move(s, w, AtHead).(calls := s.calls + [ByWorker(enable, s.sensor)])
      else s.(outcome := NullQueue)
  }

  /** The state after a run, or None when some step of it was not possible. */
  function Run(s: State, steps: seq<Step>): Option<State> {
    if steps == [] then Some(s)
    else
      match Run(s, steps[..|steps| - 1])
      case None => None
      case Some(t) => if Enabled(t, steps[|steps| - 1]) then Some(Do(t, steps[|steps| - 1])) else None
  }

  // ---------------------------------------------------------------- the object

  /** The notifier object. Its methods, run by the controller, are the controller's steps in a row; a worker
      can run between any two of them, and has to finish where deactivate joins it. */
  class SensorNotifier {
    var queue: Option<nat>
    var sensorHandle: int
    var active: bool
    var workers: seq<Worker>
    var thread: Option<nat>
    var calls: seq<Call>
    ghost var control: Control
    ghost var outcome: Outcome

    ghost function View(): State
      reads this
    {
      State(active, workers, thread, control, false, queue.Some?, sensorHandle, calls, outcome)
    }

    constructor ()
      ensures queue == None && sensorHandle == -1 && Init(View())
    {
      queue, sensorHandle, active, workers, thread, calls := None, -1, false, [], None, [];
      control, outcome := Idle, Running;
    }

    /** The handle changes only when the search succeeds, and then the queue is replaced as well, even by a
        null queue; every other failure leaves both alone. */
    method InitializeSensorQueue(typeAsString: string, wakeup: bool, list: ListReply, reply: QueueReply)
      returns (res: Result)
      modifies this`queue, this`sensorHandle
      ensures list.result != OK ==> res == list.result && queue == old(queue) && sensorHandle == old(sensorHandle)
      ensures list.result == OK && NoMatch(list.sensors, typeAsString, wakeup) ==>
                res == NotExist && queue == old(queue) && sensorHandle == old(sensorHandle)
      ensures list.result == OK && !NoMatch(list.sensors, typeAsString, wakeup) ==>
                && res == reply.result && queue == reply.queue
                && exists i :: IsFirstMatch(list.sensors, typeAsString, wakeup, i)
                               && sensorHandle == list.sensors[i].sensorHandle
    {
      if list.result != OK {
        return list.result;
      }
      var it := 0;
      while it < |list.sensors| && !Matches(list.sensors[it], typeAsString, wakeup)
        invariant 0 <= it <= |list.sensors|
        invariant forall j :: 0 <= j < it ==> !Matches(list.sensors[j], typeAsString, wakeup)
      {
        it := it + 1;
      }
      if it == |list.sensors| {
        return NotExist;
      }
      assert IsFirstMatch(list.sensors, typeAsString, wakeup, it);
      sensorHandle := list.sensors[it].sensorHandle;
      queue := reply.queue;
      res := reply.result;
    }

    /** `activate`: nothing when active; otherwise the flag is set and a thread started, and the process is
        terminated when the thread overwritten is joinable. */
    method Activate()
      requires outcome.Running? && control.Idle?
      modifies this
      ensures Run(old(View()), if old(active) then [CallActivate] else [CallActivate, SetActive, StartThread]) == Some(View())
    {
      ghost var s := View();
      RunOne(s, CallActivate);
      if active {
        return;
      }
      active := true;
      RunTwo(s, CallActivate, SetActive);
      RunThree(s, CallActivate, SetActive, StartThread);
      workers := workers + [Opening];
      if thread.Some? {
        control, outcome := Starting, Terminated;
      } else {
        thread := Some(|workers| - 1);
      }
    }

    /** `deactivate` up to the join. */
    method BeginDeactivate() returns (waits: bool)
      requires outcome.Running? && control.Idle?
      modifies this
      ensures waits == old(active)
      ensures Run(old(View()), if waits then [CallDeactivate, ClearActive] else [CallDeactivate]) == Some(View())
    {
      ghost var s := View();
      RunOne(s, CallDeactivate);
      waits := active;
      if active {
        RunTwo(s, CallDeactivate, ClearActive);
        active := false;
        control := Joining;
      }
    }

    /** `deactivate` from the join on, once the thread has finished. */
    method EndDeactivate()
      requires outcome.Running? && control.Joining?
      requires thread.Some? ==> thread.value < |workers| && workers[thread.value] == Done
      modifies this
      ensures Run(old(View()), [Join, Disable]) == Some(View())
      ensures thread.None? && control.Idle?
      ensures calls == if queue.Some? then old(calls) + [ByController(sensorHandle)] else old(calls)
    {
      RunTwo(View(), Join, Disable);
      if thread.Some? {
        thread := None;
      }
      if queue.Some? {
        calls := calls + [ByController(sensorHandle)];
      }
      control := Idle;
    }
  }

  lemma RunOne(s: State, a: Step)
    requires Enabled(s, a)
    ensures Run(s, [a]) == Some(Do(s, a))
  {
    assert [a][..0] == [];
    assert Run(s, [a][..0]) == Some(s);
  }

  lemma RunTwo(s: State, a: Step, b: Step)
    requires Enabled(s, a) && Enabled(Do(s, a), b)
    ensures Run(s, [a, b]) == Some(Do(Do(s, a), b))
  {
    RunOne(s, a);
    assert [a, b][..1] == [a];
  }

  lemma RunThree(s: State, a: Step, b: Step, c: Step)
    requires Enabled(s, a) && Enabled(Do(s, a), b) && Enabled(Do(Do(s, a), b), c)
    ensures Run(s, [a, b, c]) == Some(Do(Do(Do(s, a), b), c))
  {
    RunTwo(s, a, b);
    assert [a, b, c][..2] == [a, b];
  }

  /** The sensors were listed and one of them is the non-UI wake-up sensor. */
  ghost predicate Found(list: ListReply) {
    list.result == OK && !NoMatch(list.sensors, "xiaomi.sensor.nonui", true)
  }

  ghost predicate FirstMatchHandle(list: ListReply, handle: int) {
    exists i :: IsFirstMatch(list.sensors, "xiaomi.sensor.nonui", true, i) && handle == list.sensors[i].sensorHandle
  }

  /** A notifier for whose sensor the sensor manager gave these answers: it has a queue exactly when the sensor
      was found and the queue given was not null, and the handle is the first match's or still -1. */
  ghost predicate LookedUp(s: State, list: ListReply, reply: QueueReply) {
    && Init(s)
    && (s.queue <==> Found(list) && reply.queue.Some?)
    && (Found(list) ==> FirstMatchHandle(list, s.sensor))
    && (!Found(list) ==> s.sensor == -1)
  }

  /** The notifier for the non-UI sensor: its constructor looks the sensor up once and ignores the result. */
  method Construct(list: ListReply, reply: QueueReply) returns (n: SensorNotifier)
    ensures fresh(n) && LookedUp(n.View(), list, reply)
  {
    n := new SensorNotifier();
    var _ := n.InitializeSensorQueue("xiaomi.sensor.nonui", true, list, reply);
  }

  // ---------------------------------------------------------------- the reference: what the trace says

  /** The last thread started has failed to open its files and has not been joined. */
  function Pending(steps: seq<Step>): bool {
    if steps == [] then false
    else
      match steps[|steps| - 1]
      case OpenFails(_) => true
      case Join => false
      case StartThread => false
      case _ => Pending(steps[..|steps| - 1])
  }

  /** A thread is started, or the notifier destroyed, while a failure is pending. */
  ghost predicate Abused(steps: seq<Step>) {
    exists i :: 0 <= i < |steps| && (steps[i].StartThread? || steps[i].DestroyMembers?) && Pending(steps[..i])
  }
}
