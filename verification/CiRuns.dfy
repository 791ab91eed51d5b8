/**
 Whole runs of the lifecycle manager over an empty registry, whatever names are created: histories are
 chains, live ports lie in their role's block, and the registry never outgrows its bound.
 */
module CiRuns {
  import opened Chains
  import opened CiPorts
  import opened CiRegistry
  import opened CStrings
  import opened Lifecycle
  import opened Wrappers

  datatype Op =
    | CreateOp(name: string, role: string, model: string, now: int)
    | StartOp(name: string, now: int)
    | StopOp(name: string, graceful: bool, now: int)
    | RestartOp(name: string, now: int)
    | TransitOp(name: string, event: Event, reason: Option<string>, now: int)
    | AssignOp(name: string, task: Option<string>, now: int)
    | CompleteOp(name: string, success: bool, now: int)
    | BeatOp(name: string, now: int)
    | ReportOp(name: string, reason: Option<string>, now: int)
    | CheckOp(now: int)
    | ClearOp(name: string)

  const EMPTY := Stores([], [])

  ghost function Apply(s: Stores, op: Op): Stores {
    match op
    case CreateOp(name, role, model, now) => Create(s, name, role, model, now).stores
    case StartOp(name, now) => StartCi(s, name, now).stores
    case StopOp(name, graceful, now) => StopCi(s, name, graceful, now).stores
    case RestartOp(name, now) => RestartCi(s, name, now).stores
    case TransitOp(name, event, reason, now) => TransitionCi(s, name, event, reason, now).stores
    case AssignOp(name, task, now) => AssignTask(s, name, task, now).stores
    case CompleteOp(name, success, now) => CompleteTask(s, name, success, now).stores
    case BeatOp(name, now) => HeartbeatCi(s, name, now).stores
    case ReportOp(name, reason, now) => ReportError(s, name, reason, now).stores
    case CheckOp(now) => CheckFrom(s, 0, now)
    case ClearOp(name) => ClearHistory(s, name)
  }

  ghost function Run(s: Stores, ops: seq<Op>): Stores
    decreases |ops|
  {
    if ops == [] then s else Run(Apply(s, ops[0]), ops[1..])
  }

  lemma {:induction false} RunAppend(s: Stores, ops: seq<Op>, more: seq<Op>)
    ensures Run(s, ops + more) == Run(Run(s, ops), more)
    decreases |ops|
  {
    hide Apply;
    if ops == [] {
      assert ops + more == more;
    } else {
      assert (ops + more)[1..] == ops[1..] + more;
      RunAppend(Apply(s, ops[0]), ops[1..], more);
    }
  }

  lemma RunOne(s: Stores, op: Op)
    ensures Run(s, [op]) == Apply(s, op)
  {
    hide Apply;
    assert [op][1..] == [];
  }

  // ---------------------------------------------------------------- an induction principle for runs

  /** A change of an instance that is no transition: name and status stay, and the history stays or is cleared. */
  predicate Touches(s: Stores, i: nat, c: Instance) {
    && i < |s.cis| && c.name == s.cis[i].name && c.status == s.cis[i].status
    && ((c.transitions == s.cis[i].transitions && c.transitionCount == s.cis[i].transitionCount)
        || (c.transitions == [] && c.transitionCount == 0))
  }

  function Touched(s: Stores, i: nat, c: Instance): Stores
    requires i < |s.cis|
  {
    s.(cis := s.cis[i := c])
  }

  function Beaten(s: Stores, name: string, now: int): Stores {
    s.(registry := Beat(s.registry, name, now))
  }

  /** The three steps all operations but creating are made of keep `p`. */
  ghost predicate KeptBySteps(p: Stores -> bool) {
    && (forall s, i: nat, c :: p(s) && Touches(s, i, c) ==> p(Touched(s, i, c)))
    && (forall s, name, status, event, reason, now :: p(s) && Known(s, name) ==>
          p(Move(s, name, status, event, reason, now)))
    && (forall s, name, now :: p(s) ==> p(Beaten(s, name, now)))
  }

  ghost predicate KeptByCreates(p: Stores -> bool, named: string -> bool) {
    forall s, name, role, model, now :: p(s) && named(name) ==> p(Create(s, name, role, model, now).stores)
  }

  /** Whether all names created by the operations are of this kind. */
  ghost predicate Creates(ops: seq<Op>, named: string -> bool) {
    forall op <- ops :: op.CreateOp? ==> named(op.name)
  }

  lemma TransitionKeeps(p: Stores -> bool, s: Stores, name: string, event: Event, reason: Option<string>, now: int)
    requires KeptBySteps(p) && p(s)
    ensures p(TransitionCi(s, name, event, reason, now).stores)
  {
    hide Move, Seek, Target;
  }

  lemma StartKeeps(p: Stores -> bool, s: Stores, name: string, now: int)
    requires KeptBySteps(p) && p(s)
    ensures p(StartCi(s, name, now).stores)
  {
    hide Move, Seek;
  }

  lemma StopKeeps(p: Stores -> bool, s: Stores, name: string, graceful: bool, now: int)
    requires KeptBySteps(p) && p(s)
    ensures p(StopCi(s, name, graceful, now).stores)
  {
    hide Move, Seek;
  }

  lemma TouchKeeps(p: Stores -> bool, s: Stores, i: nat, c: Instance)
    requires KeptBySteps(p) && p(s) && Touches(s, i, c)
    ensures p(s.(cis := s.cis[i := c]))
  {
    assert Touched(s, i, c) == s.(cis := s.cis[i := c]);
  }

  lemma AssignKeeps(p: Stores -> bool, s: Stores, name: string, task: Option<string>, now: int)
    requires KeptBySteps(p) && p(s)
    ensures p(AssignTask(s, name, task, now).stores)
  {
    hide KeptBySteps, TransitionCi, Seek;
    if Known(s, name) && s.cis[Seek(s.cis, name)].status == READY {
      var i := Seek(s.cis, name);
      var c := s.cis[i].(task := task, taskStart := now);
      TouchKeeps(p, s, i, c);
      TransitionKeeps(p, s.(cis := s.cis[i := c]), name, TaskAssigned, task, now);
    }
  }

  lemma CompleteKeeps(p: Stores -> bool, s: Stores, name: string, success: bool, now: int)
    requires KeptBySteps(p) && p(s)
    ensures p(CompleteTask(s, name, success, now).stores)
  {
    hide KeptBySteps, TransitionCi, Seek;
    if Known(s, name) {
      var i := Seek(s.cis, name);
      var c := s.cis[i].(task := None);
      TouchKeeps(p, s, i, c);
      TransitionKeeps(p, s.(cis := s.cis[i := c]), name, TaskComplete,
                      Some(if success then "Task completed successfully" else "Task failed"), now);
    }
  }

  lemma ReportKeeps(p: Stores -> bool, s: Stores, name: string, message: Option<string>, now: int)
    requires KeptBySteps(p) && p(s)
    ensures p(ReportError(s, name, message, now).stores)
  {
    hide KeptBySteps, TransitionCi, Seek;
    if Known(s, name) {
      var i := Seek(s.cis, name);
      var c := s.cis[i].(errorCount := s.cis[i].errorCount + 1, lastError := message);
      TouchKeeps(p, s, i, c);
      TransitionKeeps(p, s.(cis := s.cis[i := c]), name, Failed, message, now);
    }
  }

  lemma BeatKeeps(p: Stores -> bool, s: Stores, name: string, now: int)
    requires KeptBySteps(p) && p(s)
    ensures p(HeartbeatCi(s, name, now).stores)
  {
    if Known(s, name) {
      var i := Seek(s.cis, name);
      var c := s.cis[i].(lastHeartbeat := now, missedHeartbeats := 0);
      var t := s.(cis := s.cis[i := c]);
      TouchKeeps(p, s, i, c);
      assert HeartbeatCi(s, name, now).stores == Beaten(t, name, now);
    }
  }

  lemma {:induction false} CheckKeeps(p: Stores -> bool, s: Stores, i: nat, now: int)
    requires KeptBySteps(p) && p(s) && i <= |s.cis|
    ensures p(CheckFrom(s, i, now))
    decreases |s.cis| - i
  {
    hide KeptBySteps, ReportError;
    if i < |s.cis| {
      var c := s.cis[i].(missedHeartbeats := s.cis[i].missedHeartbeats + 1);
      TouchKeeps(p, s, i, c);
      ReportKeeps(p, s.(cis := s.cis[i := c]), s.cis[i].name, Some("Max missed heartbeats exceeded"), now);
      CheckKeeps(p, CheckOne(s, i, now), i + 1, now);
    }
  }

  lemma OpKeeps(p: Stores -> bool, s: Stores, op: Op)
    requires KeptBySteps(p) && p(s) && !op.CreateOp?
    ensures p(Apply(s, op))
  {
    hide KeptBySteps, StartCi, StopCi, TransitionCi, AssignTask, CompleteTask, HeartbeatCi, ReportError, CheckFrom;
    match op
    case StartOp(name, now) => StartKeeps(p, s, name, now);
    case StopOp(name, graceful, now) => StopKeeps(p, s, name, graceful, now);
    case RestartOp(name, now) =>
      StopKeeps(p, s, name, true, now);
      StartKeeps(p, StopCi(s, name, true, now).stores, name, now);
    case TransitOp(name, event, reason, now) => TransitionKeeps(p, s, name, event, reason, now);
    case AssignOp(name, task, now) => AssignKeeps(p, s, name, task, now);
    case CompleteOp(name, success, now) => CompleteKeeps(p, s, name, success, now);
    case BeatOp(name, now) => BeatKeeps(p, s, name, now);
    case ReportOp(name, reason, now) => ReportKeeps(p, s, name, reason, now);
    case CheckOp(now) => CheckKeeps(p, s, 0, now);
    case ClearOp(name) =>
      if Known(s, name) {
        var i := Seek(s.cis, name);
        TouchKeeps(p, s, i, s.cis[i].(transitions := [], transitionCount := 0));
      }
  }

  /** What holds at first and is kept by the steps and by creating such names holds after every run. */
  lemma {:induction false} RunKeeps(p: Stores -> bool, named: string -> bool, s: Stores, ops: seq<Op>)
    requires KeptBySteps(p) && KeptByCreates(p, named) && p(s) && Creates(ops, named)
    ensures p(Run(s, ops))
    decreases |ops|
  {
    hide KeptBySteps;
    if ops != [] {
      var op := ops[0];
      assert op in ops;
      if op.CreateOp? {
        assert p(Create(s, op.name, op.role, op.model, op.now).stores);
      } else {
        OpKeeps(p, s, op);
      }
      hide Apply, KeptByCreates;
      RunKeeps(p, named, Apply(s, op), ops[1..]);
    }
  }

  predicate AnyName(name: string) {
    true
  }

  // ---------------------------------------------------------------- histories

  /** The newest transition led to the current status, and each started where the next older ended. */
  predicate HistoryOk(c: Instance) {
    && c.transitionCount == |c.transitions|
    && (c.transitions != [] ==> c.transitions[0].to == c.status)
    && forall k :: 0 <= k < |c.transitions| - 1 ==> c.transitions[k].from == c.transitions[k + 1].to
  }

  predicate HistoriesOk(s: Stores) {
    forall i :: 0 <= i < |s.cis| ==> HistoryOk(s.cis[i])
  }

  lemma HistoriesKept()
    ensures KeptBySteps(HistoriesOk) && KeptByCreates(HistoriesOk, AnyName)
  {
    forall s, i: nat, c | HistoriesOk(s) && Touches(s, i, c)
      ensures HistoriesOk(Touched(s, i, c))
    {
      assert HistoryOk(s.cis[i]);
    }
    forall s, name, status, event, reason, now | HistoriesOk(s) && Known(s, name)
      ensures HistoriesOk(Move(s, name, status, event, reason, now))
    {
      assert HistoryOk(s.cis[Seek(s.cis, name)]);
    }
    forall s, name, role, model, now | HistoriesOk(s)
      ensures HistoriesOk(Create(s, name, role, model, now).stores)
    {
      assert HistoryOk(NewInstance(name, now));
    }
  }

  /** In every run every history is a chain that ends in the current status, and is counted right. */
  lemma HistoriesAreChains(ops: seq<Op>)
    ensures var s := Run(EMPTY, ops);
            forall i :: 0 <= i < |s.cis| ==>
              var c := s.cis[i];
              && c.transitionCount == |c.transitions|
              && (c.transitions != [] ==> c.transitions[0].to == c.status)
              && forall k :: 0 <= k < |c.transitions| - 1 ==> c.transitions[k].from == c.transitions[k + 1].to
  {
    HistoriesKept();
    hide KeptBySteps, KeptByCreates;
    RunKeeps(HistoriesOk, AnyName, EMPTY, ops);
    var s := Run(EMPTY, ops);
    assert forall i :: 0 <= i < |s.cis| ==> HistoryOk(s.cis[i]);
  }

  // ---------------------------------------------------------------- blocks and size

  predicate WithinBounds(s: Stores) {
    InTheirBlocks(s.registry) && |s.registry| <= MAX_CIS
  }

  /** A role cut to its buffer names the same block. */
  lemma CutRoleSameBlock(role: string)
    ensures RoleOffset(Cut(role, ROLE_MAX)) == RoleOffset(role)
  {
  }

  lemma AllocateWithinBlocks(cis: seq<Ci>, role: string)
    requires InTheirBlocks(cis)
    ensures InTheirBlocks(Allocate(cis, role).cis) && |Allocate(cis, role).cis| <= |cis|
  {
    hide RoleOffset, FreeFrom, ReclaimableFrom, Find, InBlock;
  }

  lemma CreateWithinBounds(s: Stores, name: string, role: string, model: string, now: int)
    requires WithinBounds(s)
    ensures WithinBounds(Create(s, name, role, model, now).stores)
  {
    AllocateWithinBlocks(s.registry, role);
    AllocationFailsExactly(s.registry, role);
    CutRoleSameBlock(role);
    hide RoleOffset, Seek, Find, Allocate, Exhausted, Cut;
    var a := Allocate(s.registry, role);
    if !Known(s, name) && a.port >= 0 {
      var c := NewCi(name, role, model, a.port, now);
      assert InBlock(c.port, c.role);
      assert forall k :: 1 <= k < |[c] + a.cis| ==> ([c] + a.cis)[k] == a.cis[k - 1];
    }
  }

  lemma BoundsKept()
    ensures KeptBySteps(WithinBounds) && KeptByCreates(WithinBounds, AnyName)
  {
    forall s, name, role, model, now | WithinBounds(s)
      ensures WithinBounds(Create(s, name, role, model, now).stores)
    {
      CreateWithinBounds(s, name, role, model, now);
    }
    hide Create;
  }

  /** In every run every live port lies in its role's block of ten, and at most 50 entries exist. */
  lemma PortsStayInBlocks(ops: seq<Op>)
    ensures var registry := Run(EMPTY, ops).registry;
            && |registry| <= 50
            && forall i :: 0 <= i < |registry| ==>
                 var c := registry[i];
                 match c.role
                 case "builder" => 9000 <= c.port <= 9009
                 case "coordinator" => 9010 <= c.port <= 9019
                 case "requirements" => 9020 <= c.port <= 9029
                 case "analysis" => 9030 <= c.port <= 9039
                 case _ => 9040 <= c.port <= 9049
  {
    BoundsKept();
    hide KeptBySteps, KeptByCreates;
    RunKeeps(WithinBounds, AnyName, EMPTY, ops);
    var registry := Run(EMPTY, ops).registry;
    assert forall i :: 0 <= i < |registry| ==> InBlock(registry[i].port, registry[i].role);
  }
}
