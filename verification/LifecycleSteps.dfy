/** What single calls of the lifecycle manager mean for the instance they name, and for all others. */
module LifecycleSteps {
  import opened CiRegistry
  import opened Lifecycle
  import opened CiNames
  import opened CiRuns
  import opened Wrappers

  function Named(s: Stores, name: string): Instance
    requires Known(s, name)
  {
    s.cis[Seek(s.cis, name)]
  }

  /** Every instance but the named one is as it was, and so is every registry entry of another name. */
  predicate OthersSame(s: Stores, t: Stores, name: string) {
    && |t.cis| == |s.cis| && |t.registry| == |s.registry|
    && (forall i :: 0 <= i < |s.cis| && s.cis[i].name != name ==> t.cis[i] == s.cis[i])
    && (forall i :: 0 <= i < |s.registry| && s.registry[i].name != name ==> t.registry[i] == s.registry[i])
  }

  /** The history of `d` is that of `c` with these records, newest first, in front. */
  predicate Recorded(c: Instance, d: Instance, steps: seq<(Status, Event)>) {
    && d.transitionCount == c.transitionCount + |steps|
    && |d.transitions| == |c.transitions| + |steps|
    && d.transitions[|steps|..] == c.transitions
    && forall k :: 0 <= k < |steps| ==> d.transitions[k].to == steps[k].0 && d.transitions[k].event == steps[k].1
  }

  lemma MoveIs(s: Stores, name: string, status: Status, event: Event, reason: Option<string>, now: int)
    requires Known(s, name)
    ensures var t := Move(s, name, status, event, reason, now);
            && Known(t, name) && Named(t, name).status == status
            && Recorded(Named(s, name), Named(t, name), [(status, event)])
            && Named(t, name).task == Named(s, name).task && Named(t, name).taskStart == Named(s, name).taskStart
            && OthersSame(s, t, name)
  {
    SeekSame(s.cis, Move(s, name, status, event, reason, now).cis, name);
  }

  /** Records on records. */
  lemma RecordedTwice(c: Instance, d: Instance, e: Instance, older: (Status, Event), newer: (Status, Event))
    requires Recorded(c, d, [older]) && Recorded(d, e, [newer])
    ensures Recorded(c, e, [newer, older])
  {
    assert e.transitions[1..][1..] == e.transitions[2..];
    assert e.transitions[1..][0] == e.transitions[1];
  }

  /** A step that also changes fields no record speaks of. */
  lemma UpdateThenMove(s: Stores, name: string, c: Instance, status: Status, event: Event,
                       reason: Option<string>, now: int)
    requires Known(s, name) && c.name == name
    requires c.transitions == Named(s, name).transitions && c.transitionCount == Named(s, name).transitionCount
    ensures var s1 := s.(cis := s.cis[Seek(s.cis, name) := c]);
            && Known(s1, name) && Named(s1, name) == c
            && var t := Move(s1, name, status, event, reason, now);
               && Known(t, name) && Named(t, name).status == status
               && Named(t, name).task == c.task && Named(t, name).taskStart == c.taskStart
               && Recorded(Named(s, name), Named(t, name), [(status, event)]) && OthersSame(s, t, name)
  {
    var s1 := s.(cis := s.cis[Seek(s.cis, name) := c]);
    SeekSame(s.cis, s1.cis, name);
    hide Move, Seek;
    MoveIs(s1, name, status, event, reason, now);
  }

  lemma WorkGiven(s: Stores, name: string, task: Option<string>, now: int)
    requires Known(s, name) && Named(s, name).status == READY
    ensures var r := AssignTask(s, name, task, now);
            && r.code == Done && Known(r.stores, name)
            && Named(r.stores, name).status == BUSY && Named(r.stores, name).task == task
            && Named(r.stores, name).taskStart == now
            && Recorded(Named(s, name), Named(r.stores, name), [(BUSY, TaskAssigned)]) && OthersSame(s, r.stores, name)
  {
    hide Move, Recorded, OthersSame;
    UpdateThenMove(s, name, Named(s, name).(task := task, taskStart := now), BUSY, TaskAssigned, task, now);
  }

  lemma WorkDone(s: Stores, name: string, success: bool, now: int)
    requires Known(s, name) && Named(s, name).status == BUSY
    ensures var r := CompleteTask(s, name, success, now);
            && r.code == Done && Known(r.stores, name)
            && Named(r.stores, name).status == READY && Named(r.stores, name).task == None
            && Recorded(Named(s, name), Named(r.stores, name), [(READY, TaskComplete)]) && OthersSame(s, r.stores, name)
  {
    hide Move, Recorded, OthersSame;
    UpdateThenMove(s, name, Named(s, name).(task := None), READY, TaskComplete,
                   Some(if success then "Task completed successfully" else "Task failed"), now);
  }

  /**
   Work given to a ready instance and completed takes it to busy and back to ready, with one record
   each and the work forgotten; an instance that is not ready takes no work and nothing changes.
   */
  lemma WorkCycle(s: Stores, name: string, task: Option<string>, success: bool, now: int, later: int)
    requires Known(s, name)
    ensures var given := AssignTask(s, name, task, now);
            if Named(s, name).status != READY then given == Effect(NotReady, s)
            else
              var done := CompleteTask(given.stores, name, success, later);
              && given.code == Done && Known(given.stores, name)
              && Named(given.stores, name).status == BUSY && Named(given.stores, name).task == task
              && Named(given.stores, name).taskStart == now
              && done.code == Done && Known(done.stores, name)
              && Named(done.stores, name).status == READY && Named(done.stores, name).task == None
              && Recorded(Named(s, name), Named(done.stores, name), [(READY, TaskComplete), (BUSY, TaskAssigned)])
              && OthersSame(s, done.stores, name)
  {
    if Named(s, name).status == READY {
      hide AssignTask, CompleteTask, Recorded, OthersSame;
      WorkGiven(s, name, task, now);
      var given := AssignTask(s, name, task, now).stores;
      WorkDone(given, name, success, later);
      var done := CompleteTask(given, name, success, later).stores;
      RecordedTwice(Named(s, name), Named(given, name), Named(done, name), (BUSY, TaskAssigned), (READY, TaskComplete));
      OthersTwice(s, given, done, name);
    }
  }

  lemma OthersTwice(s: Stores, t: Stores, u: Stores, name: string)
    requires OthersSame(s, t, name) && OthersSame(t, u, name)
    ensures OthersSame(s, u, name)
  {
  }

  /** A restart is a graceful stop: it ends in SHUTDOWN with one record, and the start in it does nothing. */
  lemma RestartOnlyStops(s: Stores, name: string, now: int)
    requires Known(s, name)
    ensures RestartCi(s, name, now) == StopCi(s, name, true, now)
    ensures var t := RestartCi(s, name, now).stores;
            && Known(t, name) && Named(t, name).status == SHUTDOWN
            && Recorded(Named(s, name), Named(t, name), [(SHUTDOWN, ShutdownRequested)]) && OthersSame(s, t, name)
  {
    MoveIs(s, name, SHUTDOWN, ShutdownRequested, Some("Graceful shutdown requested"), now);
  }

  /** A forced stop and a start bring any instance to STARTING. */
  lemma ForcedStopThenStart(s: Stores, name: string, now: int, later: int)
    requires Known(s, name)
    ensures var stopped := StopCi(s, name, false, now).stores;
            var t := StartCi(stopped, name, later).stores;
            && Known(t, name) && Named(t, name).status == STARTING
            && Recorded(Named(s, name), Named(t, name), [(STARTING, Initializing), (OFFLINE, Terminated)])
            && OthersSame(s, t, name)
  {
    MoveIs(s, name, OFFLINE, Terminated, Some("Forced shutdown"), now);
    hide Move, Recorded, OthersSame;
    var stopped := StopCi(s, name, false, now).stores;
    MoveIs(stopped, name, STARTING, Initializing, Some("Starting"), later);
    var t := StartCi(stopped, name, later).stores;
    RecordedTwice(Named(s, name), Named(stopped, name), Named(t, name),
                  (OFFLINE, Terminated), (STARTING, Initializing));
    OthersTwice(s, stopped, t, name);
  }

  // ---------------------------------------------------------------- heartbeats

  const MISSED: Option<string> := Some("Max missed heartbeats exceeded")

  /** What a heartbeat check means for one instance. */
  function Checked(c: Instance, now: int): Instance {
    if !Late(c, now) then c
    else if c.missedHeartbeats + 1 < MAX_MISSED then c.(missedHeartbeats := c.missedHeartbeats + 1)
    else
      var e := c.(missedHeartbeats := c.missedHeartbeats + 1, errorCount := c.errorCount + 1, lastError := MISSED);
      if c.status == ERROR then e
      else
        e.(status := ERROR, lastTransition := now, transitionCount := c.transitionCount + 1,
           transitions := [Transition(now, c.status, ERROR, Failed, MISSED)] + c.transitions)
  }

  /** Of the instances of one name only the first can be other than offline: no call finds a later one. */
  predicate OnlyFirstLive(s: Stores) {
    forall i, j :: 0 <= i < j < |s.cis| && s.cis[i].name == s.cis[j].name ==> s.cis[j].status == OFFLINE
  }

  lemma OnlyFirstLiveKept()
    ensures KeptBySteps(OnlyFirstLive) && KeptByCreates(OnlyFirstLive, AnyName)
  {
    forall s, name, status, event, reason, now | OnlyFirstLive(s) && Known(s, name)
      ensures OnlyFirstLive(Move(s, name, status, event, reason, now))
    {
      var t := Move(s, name, status, event, reason, now);
      assert forall i :: 0 <= i < |s.cis| ==> t.cis[i].name == s.cis[i].name;
    }
    forall s, name, role, model, now | OnlyFirstLive(s)
      ensures OnlyFirstLive(Create(s, name, role, model, now).stores)
    {
      assert NewInstance(name, now).status == OFFLINE;
    }
    hide Move, Create;
  }

  /** So it is after every run, whatever names are created. */
  lemma FirstLiveInRuns(ops: seq<Op>)
    ensures OnlyFirstLive(Run(EMPTY, ops))
  {
    OnlyFirstLiveKept();
    hide KeptBySteps, KeptByCreates;
    RunKeeps(OnlyFirstLive, AnyName, EMPTY, ops);
  }

  lemma UniqueIsFirstLive(s: Stores)
    requires UniqueInstances(s.cis)
    ensures OnlyFirstLive(s)
  {
  }

  lemma CheckOneIs(s: Stores, i: nat, now: int)
    requires OnlyFirstLive(s) && i < |s.cis|
    ensures CheckOne(s, i, now).cis == s.cis[i := Checked(s.cis[i], now)]
  {
    var c := s.cis[i];
    assert s.cis[i := c] == s.cis;
    if Late(c, now) {
      var missed := c.(missedHeartbeats := c.missedHeartbeats + 1);
      var s1 := s.(cis := s.cis[i := missed]);
      SeekIs(s1.cis, i);
      var e := missed.(errorCount := c.errorCount + 1, lastError := MISSED);
      var s2 := s1.(cis := s1.cis[i := e]);
      SeekIs(s2.cis, i);
      assert s2.cis == s.cis[i := e];
    }
  }

  /** A checked instance bears its name, and stays offline if it was. */
  lemma CheckedKeepsFirstLive(s: Stores, t: Stores, k: nat, now: int)
    requires OnlyFirstLive(s) && k < |s.cis| && t.cis == s.cis[k := Checked(s.cis[k], now)]
    ensures OnlyFirstLive(t)
  {
    CheckedKeepsName(s.cis[k], now);
    assert forall i :: 0 <= i < |s.cis| ==> t.cis[i].name == s.cis[i].name;
    assert s.cis[k].status == OFFLINE ==> t.cis[k].status == OFFLINE;
  }

  lemma {:induction false} CheckFromIs(s: Stores, k: nat, i: nat, now: int)
    requires OnlyFirstLive(s) && k <= |s.cis| && i < |s.cis|
    ensures |CheckFrom(s, k, now).cis| == |s.cis|
    ensures CheckFrom(s, k, now).cis[i] == if i < k then s.cis[i] else Checked(s.cis[i], now)
    decreases |s.cis| - k
  {
    hide CheckOne, Checked, OnlyFirstLive;
    if k < |s.cis| {
      CheckOneIs(s, k, now);
      CheckedKeepsFirstLive(s, CheckOne(s, k, now), k, now);
      CheckFromIs(CheckOne(s, k, now), k + 1, i, now);
    }
  }

  /**
   After every run, whatever names were created, the check treats each instance by itself, whatever it
   did to those before it in the array.
   */
  lemma CheckTreatsEach(ops: seq<Op>, i: nat, now: int)
    requires i < |Run(EMPTY, ops).cis|
    ensures var s := Run(EMPTY, ops);
            |CheckFrom(s, 0, now).cis| == |s.cis| && CheckFrom(s, 0, now).cis[i] == Checked(s.cis[i], now)
  {
    hide Run, CheckFrom, Checked;
    FirstLiveInRuns(ops);
    CheckFromIs(Run(EMPTY, ops), 0, i, now);
  }

  lemma CheckedKeepsName(c: Instance, now: int)
    ensures Checked(c, now).name == c.name
  {
  }

  /** Names, roles and ports of the entries. */
  predicate SameEntries(a: seq<Ci>, b: seq<Ci>) {
    && |a| == |b|
    && forall k :: 0 <= k < |a| ==> a[k].name == b[k].name && a[k].role == b[k].role && a[k].port == b[k].port
  }

  /** With names that fit, the registry follows: each entry gets the status its instance has after the check. */
  lemma CheckMarksRegistry(s: Stores, now: int)
    requires Inv(s)
    ensures var t := CheckFrom(s, 0, now);
            && SameEntries(s.registry, t.registry)
            && forall k :: 0 <= k < |s.registry| ==>
                 Known(s, s.registry[k].name)
                 && t.registry[k].status == Checked(Named(s, s.registry[k].name), now).status
  {
    InvKept();
    EntriesStay(s.registry);
    var same := (t: Stores) => SameEntries(s.registry, t.registry);
    hide KeptBySteps, CheckFrom, Checked;
    CheckKeeps(Inv, s, 0, now);
    CheckKeeps(same, s, 0, now);
    var t := CheckFrom(s, 0, now);
    forall k | 0 <= k < |s.registry|
      ensures Known(s, s.registry[k].name)
              && t.registry[k].status == Checked(Named(s, s.registry[k].name), now).status
    {
      StatusFollows(s, t, k, now);
    }
  }

  lemma StatusFollows(s: Stores, t: Stores, k: nat, now: int)
    requires Inv(s) && t == CheckFrom(s, 0, now) && Inv(t) && SameEntries(s.registry, t.registry) && k < |s.registry|
    ensures Known(s, s.registry[k].name)
            && t.registry[k].status == Checked(Named(s, s.registry[k].name), now).status
  {
    UniqueIsFirstLive(s);
    hide CheckFrom, Checked, RegistryOk, OnlyFirstLive;
    assert Agrees(s.cis, s.registry[k]) && Agrees(t.cis, t.registry[k]);
    var i, j := Seek(s.cis, s.registry[k].name), Seek(t.cis, s.registry[k].name);
    CheckFromIs(s, 0, i, now);
    CheckFromIs(s, 0, j, now);
    CheckedKeepsName(s.cis[i], now);
    CheckedKeepsName(s.cis[j], now);
  }

  lemma EntriesStay(registry: seq<Ci>)
    ensures KeptBySteps((t: Stores) => SameEntries(registry, t.registry))
  {
    forall s: Stores, name, status, event, reason, now | SameEntries(registry, s.registry) && Known(s, name)
      ensures SameEntries(registry, Move(s, name, status, event, reason, now).registry)
    {
      StatusKeepsEntries(s.registry, name, status);
    }
    forall s: Stores, name, now | SameEntries(registry, s.registry)
      ensures SameEntries(registry, Beaten(s, name, now).registry)
    {
      BeatKeepsEntries(s.registry, name, now);
    }
    hide SameEntries, SetStatus, Beat, Seek;
  }

  lemma StatusKeepsEntries(registry: seq<Ci>, name: string, status: Status)
    ensures SameEntries(registry, SetStatus(registry, name, status))
  {
  }

  lemma BeatKeepsEntries(registry: seq<Ci>, name: string, now: int)
    ensures SameEntries(registry, Beat(registry, name, now))
  {
  }

  lemma {:induction false} ChecksTreatEach(s: Stores, times: seq<int>, i: nat)
    requires OnlyFirstLive(s) && i < |s.cis|
    ensures var t := Run(s, Checks(times));
            |t.cis| == |s.cis| && t.cis[i] == CheckedTimes(s.cis[i], times)
    decreases |times|
  {
    hide Checked, CheckFrom, OnlyFirstLive, KeptBySteps, KeptByCreates;
    if times != [] {
      assert Checks(times)[1..] == Checks(times[1..]);
      CheckFromIs(s, 0, i, times[0]);
      OnlyFirstLiveKept();
      CheckKeeps(OnlyFirstLive, s, 0, times[0]);
      ChecksTreatEach(CheckFrom(s, 0, times[0]), times[1..], i);
    }
  }

  function Checks(times: seq<int>): seq<Op> {
    if times == [] then [] else [CheckOp(times[0])] + Checks(times[1..])
  }

  function CheckedTimes(c: Instance, times: seq<int>): Instance
    decreases |times|
  {
    if times == [] then c else CheckedTimes(Checked(c, times[0]), times[1..])
  }

  /**
   After every run, whatever names were created: two late checks since the last heartbeat of an instance
   only count; the third puts it into ERROR if it is live.
   */
  lemma ThirdMissIsError(ops: seq<Op>, i: nat, a: int, b: int, d: int)
    requires var s := Run(EMPTY, ops);
             && i < |s.cis| && s.cis[i].missedHeartbeats == 0
             && s.cis[i].status != OFFLINE && s.cis[i].status != ERROR
             && a - s.cis[i].lastHeartbeat > HEARTBEAT_TIMEOUT && b - s.cis[i].lastHeartbeat > HEARTBEAT_TIMEOUT
             && d - s.cis[i].lastHeartbeat > HEARTBEAT_TIMEOUT
    ensures var s := Run(EMPTY, ops);
            var two, three := Run(EMPTY, ops + Checks([a, b])), Run(EMPTY, ops + Checks([a, b, d]));
            && |two.cis| == |three.cis| == |s.cis|
            && two.cis[i] == s.cis[i].(missedHeartbeats := 2)
            && three.cis[i].status == ERROR && Recorded(s.cis[i], three.cis[i], [(ERROR, Failed)])
  {
    hide Run, Checks, OnlyFirstLive, Recorded, CheckedTimes;
    FirstLiveInRuns(ops);
    var s := Run(EMPTY, ops);
    RunAppend(EMPTY, ops, Checks([a, b]));
    RunAppend(EMPTY, ops, Checks([a, b, d]));
    ChecksTreatEach(s, [a, b], i);
    ChecksTreatEach(s, [a, b, d], i);
    ThreeMisses(s.cis[i], a, b, d);
  }

  lemma ThreeMisses(c: Instance, a: int, b: int, d: int)
    requires c.missedHeartbeats == 0 && c.status != OFFLINE && c.status != ERROR
    requires a - c.lastHeartbeat > HEARTBEAT_TIMEOUT && b - c.lastHeartbeat > HEARTBEAT_TIMEOUT
    requires d - c.lastHeartbeat > HEARTBEAT_TIMEOUT
    ensures CheckedTimes(c, [a, b]) == c.(missedHeartbeats := 2)
    ensures CheckedTimes(c, [a, b, d]).status == ERROR
    ensures Recorded(c, CheckedTimes(c, [a, b, d]), [(ERROR, Failed)])
  {
    var c1 := c.(missedHeartbeats := 1);
    assert Checked(c, a) == c1;
    assert Checked(c1, b) == c.(missedHeartbeats := 2);
    assert [a, b][1..] == [b] && [b][1..] == [];
    assert [a, b, d][1..] == [b, d] && [b, d][1..] == [d] && [d][1..] == [];
    assert CheckedTimes(c, [a, b]) == CheckedTimes(c1, [b]) == CheckedTimes(Checked(c1, b), []);
    assert CheckedTimes(c, [a, b, d]) == CheckedTimes(c1, [b, d]) == CheckedTimes(Checked(c1, b), [d]);
    assert CheckedTimes(Checked(c1, b), [d]) == CheckedTimes(Checked(Checked(c1, b), d), []);
  }
}
