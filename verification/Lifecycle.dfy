/**
 The lifecycle manager of src/daemon/argo_lifecycle.c and argo_lifecycle_monitoring.c: a second store
 of the companion instances, with a transition history for each, kept beside the registry.
 */
module Lifecycle {
  import opened Chains
  import opened CiRegistry
  import opened CStrings
  import opened Wrappers

  const HEARTBEAT_TIMEOUT: int := 60
  const MAX_MISSED: int := 3

  datatype Event = Created | Initializing | Readied | TaskAssigned | TaskComplete | Failed
                 | ShutdownRequested | ShuttingDown | Terminated

  datatype Transition = Transition(time: int, from: Status, to: Status, event: Event, reason: Option<string>)

  /** One instance; the newest transition comes first. */
  datatype Instance = Instance(
    name: string, status: Status, created: int, lastTransition: int,
    transitionCount: nat, transitions: seq<Transition>,
    lastHeartbeat: int, missedHeartbeats: int,
    task: Option<string>, taskStart: int, errorCount: nat, lastError: Option<string>)

  datatype Code = Done | Invalid | NoPort | NotAdded(why: CiRegistry.Reply) | NotReady

  /** Both stores. */
  datatype Stores = Stores(cis: seq<Instance>, registry: seq<Ci>)

  datatype Effect = Effect(code: Code, stores: Stores)

  function SeekFrom(cis: seq<Instance>, name: string, i: nat): (r: nat)
    requires i <= |cis|
    ensures i <= r <= |cis|
    ensures r < |cis| ==> cis[r].name == name
    ensures forall k :: i <= k < r ==> cis[k].name != name
    decreases |cis| - i
  {
    if i == |cis| || cis[i].name == name then i else SeekFrom(cis, name, i + 1)
  }

  /** lifecycle_find_ci_internal */
  function Seek(cis: seq<Instance>, name: string): (r: nat)
    ensures r <= |cis|
    ensures r < |cis| ==> cis[r].name == name
    ensures forall k :: 0 <= k < r ==> cis[k].name != name
  {
    SeekFrom(cis, name, 0)
  }

  predicate UniqueInstances(cis: seq<Instance>) {
    forall i, j :: 0 <= i < j < |cis| ==> cis[i].name != cis[j].name
  }

  lemma SeekIs(cis: seq<Instance>, i: nat)
    requires i < |cis| && forall j :: 0 <= j < i ==> cis[j].name != cis[i].name
    ensures Seek(cis, cis[i].name) == i
  {
    var r := Seek(cis, cis[i].name);
    assert r <= i;
  }

  lemma SeekSame(a: seq<Instance>, b: seq<Instance>, name: string)
    requires |a| == |b| && forall i :: 0 <= i < |a| ==> a[i].name == b[i].name
    ensures Seek(a, name) == Seek(b, name)
  {
    var i := Seek(a, name);
    var j := Seek(b, name);
    if i < |a| {
      assert b[i].name == name;
      assert j <= i;
    }
    if j < |a| {
      assert a[j].name == name;
      assert i <= j;
    }
  }

  predicate Known(s: Stores, name: string) {
    Seek(s.cis, name) < |s.cis|
  }

  function AddTransition(c: Instance, t: Transition): Instance {
    c.(transitions := [t] + c.transitions, transitionCount := c.transitionCount + 1)
  }

  /** Put the instance found under `name` into `status`, in both stores, and record the transition. */
  function Move(s: Stores, name: string, status: Status, event: Event, reason: Option<string>, now: int): Stores
    requires Known(s, name)
  {
    var i := Seek(s.cis, name);
    var c := s.cis[i];
    var moved := AddTransition(c.(status := status, lastTransition := now),
                               Transition(now, c.status, status, event, reason));
    Stores(s.cis[i := moved], SetStatus(s.registry, name, status))
  }

  function NewInstance(name: string, now: int): Instance {
    AddTransition(Instance(Cut(name, NAME_MAX), OFFLINE, now, now, 0, [], 0, 0, None, 0, 0, None),
                  Transition(now, OFFLINE, OFFLINE, Created, Some("Created")))
  }

  ghost function Create(s: Stores, name: string, role: string, model: string, now: int): Effect {
    if Known(s, name) then Effect(Invalid, s)
    else
      var a := Allocate(s.registry, role);
      if a.port < 0 then Effect(NoPort, s.(registry := a.cis))
      else
        var reply := AddReply(a.cis, name);
        if reply != Success then Effect(NotAdded(reply), s.(registry := a.cis))
        else Effect(Done, Stores(s.cis + [NewInstance(name, now)], Add(a.cis, name, role, model, a.port, now)))
  }

  function StartCi(s: Stores, name: string, now: int): Effect {
    if !Known(s, name) then Effect(Invalid, s)
    else if s.cis[Seek(s.cis, name)].status != OFFLINE then Effect(Done, s)
    else Effect(Done, Move(s, name, STARTING, Initializing, Some("Starting"), now))
  }

  function StopCi(s: Stores, name: string, graceful: bool, now: int): Effect {
    if !Known(s, name) then Effect(Invalid, s)
    else if graceful then
      Effect(Done, Move(s, name, SHUTDOWN, ShutdownRequested, Some("Graceful shutdown requested"), now))
    else Effect(Done, Move(s, name, OFFLINE, Terminated, Some("Forced shutdown"), now))
  }

  function RestartCi(s: Stores, name: string, now: int): Effect {
    var stopped := StopCi(s, name, true, now);
    if stopped.code != Done then stopped else StartCi(stopped.stores, name, now)
  }

  /** The status an event leads to; Created leaves it alone. */
  function Target(event: Event, current: Status): Status {
    match event
    case Created => current
    case Initializing => STARTING
    case Readied => READY
    case TaskAssigned => BUSY
    case TaskComplete => READY
    case Failed => ERROR
    case ShutdownRequested => SHUTDOWN
    case ShuttingDown => SHUTDOWN
    case Terminated => OFFLINE
  }

  /** lifecycle_transition_internal */
  function TransitionCi(s: Stores, name: string, event: Event, reason: Option<string>, now: int): Effect {
    if !Known(s, name) then Effect(Invalid, s)
    else
      var c := s.cis[Seek(s.cis, name)];
      var status := Target(event, c.status);
      if status == c.status then Effect(Done, s) else Effect(Done, Move(s, name, status, event, reason, now))
  }

  function AssignTask(s: Stores, name: string, task: Option<string>, now: int): Effect {
    if !Known(s, name) then Effect(Invalid, s)
    else
      var i := Seek(s.cis, name);
      if s.cis[i].status != READY then Effect(NotReady, s)
      else TransitionCi(s.(cis := s.cis[i := s.cis[i].(task := task, taskStart := now)]), name, TaskAssigned, task, now)
  }

  function CompleteTask(s: Stores, name: string, success: bool, now: int): Effect {
    if !Known(s, name) then Effect(Invalid, s)
    else
      var i := Seek(s.cis, name);
      TransitionCi(s.(cis := s.cis[i := s.cis[i].(task := None)]), name, TaskComplete,
                   Some(if success then "Task completed successfully" else "Task failed"), now)
  }

  function HeartbeatCi(s: Stores, name: string, now: int): Effect {
    if !Known(s, name) then Effect(Invalid, s)
    else
      var i := Seek(s.cis, name);
      Effect(Done, Stores(s.cis[i := s.cis[i].(lastHeartbeat := now, missedHeartbeats := 0)],
                          Beat(s.registry, name, now)))
  }

  function ReportError(s: Stores, name: string, message: Option<string>, now: int): Effect {
    if !Known(s, name) then Effect(Invalid, s)
    else
      var i := Seek(s.cis, name);
      var c := s.cis[i].(errorCount := s.cis[i].errorCount + 1, lastError := message);
      TransitionCi(s.(cis := s.cis[i := c]), name, Failed, message, now)
  }

  /** Not offline, and without a heartbeat for longer than the timeout. */
  predicate Late(c: Instance, now: int) {
    c.status != OFFLINE && now - c.lastHeartbeat > HEARTBEAT_TIMEOUT
  }

  /** How many of the instances from `i` on are late. */
  function LateFrom(cis: seq<Instance>, i: nat, now: int): nat
    requires i <= |cis|
    decreases |cis| - i
  {
    if i == |cis| then 0 else (if Late(cis[i], now) then 1 else 0) + LateFrom(cis, i + 1, now)
  }

  /** What the heartbeat check does about instance `i`. */
  function CheckOne(s: Stores, i: nat, now: int): (r: Stores)
    requires i < |s.cis|
    ensures |r.cis| == |s.cis|
  {
    var c := s.cis[i];
    if !Late(c, now) then s
    else
      var missed := c.(missedHeartbeats := c.missedHeartbeats + 1);
      var s1 := s.(cis := s.cis[i := missed]);
      if missed.missedHeartbeats >= MAX_MISSED
      then ReportError(s1, c.name, Some("Max missed heartbeats exceeded"), now).stores
      else s1
  }

  function CheckFrom(s: Stores, i: nat, now: int): (r: Stores)
    requires i <= |s.cis|
    decreases |s.cis| - i
  {
    if i == |s.cis| then s else CheckFrom(CheckOne(s, i, now), i + 1, now)
  }

  lemma {:induction false} LateFromSame(a: seq<Instance>, b: seq<Instance>, i: nat, now: int)
    requires i <= |a| == |b| && forall k :: i <= k < |a| ==> a[k] == b[k]
    ensures LateFrom(a, i, now) == LateFrom(b, i, now)
    decreases |a| - i
  {
    if i < |a| {
      LateFromSame(a, b, i + 1, now);
    }
  }

  /** Even a reported error touches no instance behind `i`: the name is found at `i` or before. */
  lemma CheckOneIsLocal(s: Stores, i: nat, now: int)
    requires i < |s.cis|
    ensures LateFrom(CheckOne(s, i, now).cis, i + 1, now) == LateFrom(s.cis, i + 1, now)
  {
    var c := s.cis[i];
    var s1 := s.(cis := s.cis[i := c.(missedHeartbeats := c.missedHeartbeats + 1)]);
    assert s1.cis[i].name == c.name;
    assert Seek(s1.cis, c.name) <= i;
    ReportIsLocal(s1, c.name, Some("Max missed heartbeats exceeded"), now);
    hide ReportError;
    LateFromSame(CheckOne(s, i, now).cis, s.cis, i + 1, now);
  }

  lemma ReportIsLocal(s: Stores, name: string, message: Option<string>, now: int)
    ensures var t := ReportError(s, name, message, now).stores;
            |t.cis| == |s.cis| && forall k :: 0 <= k < |s.cis| && k != Seek(s.cis, name) ==> t.cis[k] == s.cis[k]
  {
    if Known(s, name) {
      var i := Seek(s.cis, name);
      var cis := s.cis[i := s.cis[i].(errorCount := s.cis[i].errorCount + 1, lastError := message)];
      SeekSame(s.cis, cis, name);
    }
  }

  function ClearHistory(s: Stores, name: string): Stores {
    if !Known(s, name) then s
    else
      var i := Seek(s.cis, name);
      s.(cis := s.cis[i := s.cis[i].(transitions := [], transitionCount := 0)])
  }

  // ---------------------------------------------------------------- the manager

  class Manager {
    var cis: seq<Instance>
    const registry: Registry

    ghost predicate Valid()
      reads this, registry, registry.spine
    {
      registry.Valid()
    }

    ghost function Abs(): Stores
      reads this, registry, registry.spine
    {
      Stores(cis, registry.Contents())
    }

    constructor (registry: Registry)
      requires registry.Valid()
      ensures this.registry == registry && Valid() && cis == []
    {
      this.registry := registry;
      cis := [];
    }

    method FindCi(name: string) returns (index: int)
      ensures index == if Known(Stores(cis, []), name) then Seek(cis, name) else -1
    {
      var i := 0;
      while i < |cis|
        invariant 0 <= i <= |cis| && Seek(cis, name) == SeekFrom(cis, name, i)
      {
        if cis[i].name == name {
          return i;
        }
        i := i + 1;
      }
      index := -1;
    }

    /** Set the status in both stores and prepend the transition. */
    method MoveTo(index: nat, name: string, status: Status, event: Event, reason: Option<string>, now: int)
      requires Valid() && Known(Abs(), name) && index == Seek(cis, name)
      modifies this, registry.spine
      ensures Valid()
      ensures Abs() == Move(old(Abs()), name, status, event, reason, now)
    {
      var c := cis[index];
      var transition := Transition(now, c.status, status, event, reason);
      c := c.(status := status, lastTransition := now,
              transitions := [transition] + c.transitions, transitionCount := c.transitionCount + 1);
      cis := cis[index := c];
      var _ := registry.UpdateStatus(name, status);
    }

    method CreateCi(name: string, role: string, model: string, now: int) returns (code: Code)
      requires Valid()
      modifies this, registry, registry.spine
      ensures Valid()
      ensures Effect(code, Abs()) == Create(old(Abs()), name, role, model, now)
    {
      hide Allocate, AddReply, NewInstance, NewCi, SeekFrom, Chain, Items;
      var existing := FindCi(name);
      if existing >= 0 {
        return Invalid;
      }
      var instance := NewInstance(name, now);
      var port := registry.AllocatePort(role);
      if port < 0 {
        return NoPort;
      }
      var reply, added := registry.AddCi(name, role, model, port, now);
      if reply != Success {
        return NotAdded(reply);
      }
      cis := cis + [instance];
      code := Done;
    }

    method Start(name: string, now: int) returns (code: Code)
      requires Valid()
      modifies this, registry.spine
      ensures Valid()
      ensures Effect(code, Abs()) == StartCi(old(Abs()), name, now)
    {
      var index := FindCi(name);
      if index < 0 {
        return Invalid;
      }
      if cis[index].status != OFFLINE {
        return Done;
      }
      MoveTo(index, name, STARTING, Initializing, Some("Starting"), now);
      code := Done;
    }

    method Stop(name: string, graceful: bool, now: int) returns (code: Code)
      requires Valid()
      modifies this, registry.spine
      ensures Valid()
      ensures Effect(code, Abs()) == StopCi(old(Abs()), name, graceful, now)
    {
      var index := FindCi(name);
      if index < 0 {
        return Invalid;
      }
      if graceful {
        MoveTo(index, name, SHUTDOWN, ShutdownRequested, Some("Graceful shutdown requested"), now);
      } else {
        MoveTo(index, name, OFFLINE, Terminated, Some("Forced shutdown"), now);
      }
      code := Done;
    }

    method Restart(name: string, now: int) returns (code: Code)
      requires Valid()
      modifies this, registry.spine
      ensures Valid()
      ensures Effect(code, Abs()) == RestartCi(old(Abs()), name, now)
    {
      code := Stop(name, true, now);
      if code != Done {
        return;
      }
      code := Start(name, now);
    }

    method Transit(name: string, event: Event, reason: Option<string>, now: int) returns (code: Code)
      requires Valid()
      modifies this, registry.spine
      ensures Valid()
      ensures Effect(code, Abs()) == TransitionCi(old(Abs()), name, event, reason, now)
    {
      var index := FindCi(name);
      if index < 0 {
        return Invalid;
      }
      var oldStatus := cis[index].status;
      var newStatus := Target(event, oldStatus);
      if newStatus != oldStatus {
        MoveTo(index, name, newStatus, event, reason, now);
      }
      code := Done;
    }

    method Assign(name: string, task: Option<string>, now: int) returns (code: Code)
      requires Valid()
      modifies this, registry.spine
      ensures Valid()
      ensures Effect(code, Abs()) == AssignTask(old(Abs()), name, task, now)
    {
      var index := FindCi(name);
      if index < 0 {
        return Invalid;
      }
      if cis[index].status != READY {
        return NotReady;
      }
      cis := cis[index := cis[index].(task := task, taskStart := now)];
      code := Transit(name, TaskAssigned, task, now);
    }

    method Complete(name: string, success: bool, now: int) returns (code: Code)
      requires Valid()
      modifies this, registry.spine
      ensures Valid()
      ensures Effect(code, Abs()) == CompleteTask(old(Abs()), name, success, now)
    {
      var index := FindCi(name);
      if index < 0 {
        return Invalid;
      }
      cis := cis[index := cis[index].(task := None)];
      code := Transit(name, TaskComplete, Some(if success then "Task completed successfully" else "Task failed"), now);
    }

    method Heartbeat(name: string, now: int) returns (code: Code)
      requires Valid()
      modifies this, registry.spine
      ensures Valid()
      ensures Effect(code, Abs()) == HeartbeatCi(old(Abs()), name, now)
    {
      var index := FindCi(name);
      if index < 0 {
        return Invalid;
      }
      cis := cis[index := cis[index].(lastHeartbeat := now, missedHeartbeats := 0)];
      var _ := registry.Heartbeat(name, now);
      code := Done;
    }

    method Report(name: string, message: Option<string>, now: int) returns (code: Code)
      requires Valid()
      modifies this, registry.spine
      ensures Valid()
      ensures Effect(code, Abs()) == ReportError(old(Abs()), name, message, now)
    {
      var index := FindCi(name);
      if index < 0 {
        return Invalid;
      }
      cis := cis[index := cis[index].(errorCount := cis[index].errorCount + 1, lastError := message)];
      code := Transit(name, Failed, message, now);
    }

    /** lifecycle_clear_history, on the instance found under this name. */
    method Clear(name: string)
      requires Valid()
      modifies this
      ensures Valid() && Abs() == ClearHistory(old(Abs()), name)
    {
      var index := FindCi(name);
      if index >= 0 {
        cis := cis[index := cis[index].(transitions := [], transitionCount := 0)];
      }
    }

    /** What the check does about instance `i`, and whether its heartbeat is late. */
    method CheckAt(i: nat, now: int) returns (late: bool)
      requires Valid() && i < |cis|
      modifies this, registry.spine
      ensures Valid() && registry.spine == old(registry.spine)
      ensures late == Late(old(cis)[i], now)
      ensures Abs() == CheckOne(old(Abs()), i, now)
    {
      hide ReportError;
      var c := cis[i];
      late := c.status != OFFLINE && now - c.lastHeartbeat > HEARTBEAT_TIMEOUT;
      if late {
        cis := cis[i := c.(missedHeartbeats := c.missedHeartbeats + 1)];
        if cis[i].missedHeartbeats >= MAX_MISSED {
          var _ := Report(c.name, Some("Max missed heartbeats exceeded"), now);
        }
      }
    }

    /** lifecycle_check_heartbeats */
    method CheckHeartbeats(now: int) returns (stale: nat)
      requires Valid()
      modifies this, registry.spine
      ensures Valid()
      ensures Abs() == CheckFrom(old(Abs()), 0, now)
      ensures stale == LateFrom(old(cis), 0, now)
    {
      hide CheckOne, Late;
      stale := 0;
      var i := 0;
      while i < |cis|
        invariant Valid() && 0 <= i <= |cis| && registry.spine == old(registry.spine)
        invariant CheckFrom(Abs(), i, now) == CheckFrom(old(Abs()), 0, now)
        invariant stale + LateFrom(cis, i, now) == LateFrom(old(cis), 0, now)
        decreases |cis| - i
      {
        CheckOneIsLocal(Abs(), i, now);
        var late := CheckAt(i, now);
        if late {
          stale := stale + 1;
        }
        i := i + 1;
      }
    }
  }
}
