/** What events, whole lives and heartbeats come to, whatever happened before and whatever names there are. */
module LifecycleRuns {
  import opened CiPorts
  import opened CiRegistry
  import opened CiRuns
  import opened Lifecycle
  import opened LifecycleSteps
  import opened Wrappers

  // ---------------------------------------------------------------- creating

  /** The first `n` characters. */
  function Kept(s: string, n: nat): string {
    if |s| <= n then s else s[..n]
  }

  /**
   A create fails for a known name, for an exhausted block, and where the registry refuses it; only an
   allocation may have changed the registry by then. Otherwise the manager gets a new instance at its
   end and the registry a new entry in front, both offline, with texts cut to their buffers.
   */
  lemma CreateTakesEffect(s: Stores, name: string, role: string, model: string, now: int)
    ensures var r := Create(s, name, role, model, now);
            var t, a := r.stores, Allocate(s.registry, role);
            && (r.code == Invalid <==> exists i :: 0 <= i < |s.cis| && s.cis[i].name == name)
            && (r.code == Invalid || r.code == NoPort ==> t == s)
            && (r.code == NoPort <==> r.code != Invalid && Exhausted(s.registry, role))
            && (r.code == Done <==>
                  && r.code !in {Invalid, NoPort} && |a.cis| < 50
                  && forall k :: 0 <= k < |a.cis| ==> a.cis[k].name != name)
            && (r.code.NotAdded? ==> t == Stores(s.cis, a.cis) && (r.code.why == Full <==> |a.cis| >= 50))
            && (r.code == Done ==>
                  && t.registry == [Ci(Kept(name, 31), Kept(role, 31), Kept(model, 63), "localhost", a.port, OFFLINE,
                                       now, now)] + a.cis
                  && t.cis == s.cis + [Instance(Kept(name, 31), OFFLINE, now, now, 1,
                                                [Transition(now, OFFLINE, OFFLINE, Created, Some("Created"))],
                                                0, 0, None, 0, 0, None)])
  {
    AllocationFailsExactly(s.registry, role);
    hide Allocate, Exhausted;
    if i :| 0 <= i < |s.cis| && s.cis[i].name == name {
      assert Seek(s.cis, name) <= i;
    }
    assert [Transition(now, OFFLINE, OFFLINE, Created, Some("Created"))] + []
           == [Transition(now, OFFLINE, OFFLINE, Created, Some("Created"))];
  }

  // ---------------------------------------------------------------- events

  /** Where an event leads. */
  predicate LeadsTo(event: Event, from: Status, to: Status) {
    && (event in {Initializing} ==> to == STARTING)
    && (event in {Readied, TaskComplete} ==> to == READY)
    && (event in {TaskAssigned} ==> to == BUSY)
    && (event in {Failed} ==> to == ERROR)
    && (event in {ShutdownRequested, ShuttingDown} ==> to == SHUTDOWN)
    && (event in {Terminated} ==> to == OFFLINE)
    && (event in {Created} ==> to == from)
  }

  /**
   An event takes a known instance where it leads, in both stores and with one record of it; where the
   instance is there already, nothing changes. No other instance or entry is touched.
   */
  lemma EventTakesEffect(s: Stores, name: string, event: Event, reason: Option<string>, now: int)
    requires Known(s, name)
    ensures var r := TransitionCi(s, name, event, reason, now);
            var t := r.stores;
            && r.code == Done && Known(t, name) && OthersSame(s, t, name)
            && var c, d := Named(s, name), Named(t, name);
               && LeadsTo(event, c.status, d.status)
               && if d.status == c.status then t == s
                  else
                    && Recorded(c, d, [(d.status, event)])
                    && d.transitions[0] == Transition(now, c.status, d.status, event, reason)
                    && d.task == c.task && d.lastTransition == now && d.missedHeartbeats == c.missedHeartbeats
                    && (Find(s.registry, name) < |s.registry| ==>
                          t.registry[Find(s.registry, name)].status == d.status)
  {
    var status := Target(event, Named(s, name).status);
    if status != Named(s, name).status {
      MoveIs(s, name, status, event, reason, now);
      SeekSame(s.cis, Move(s, name, status, event, reason, now).cis, name);
    }
  }

  /** One more step of a life: where it leads and what it records. */
  predicate Lived(s: Stores, t: Stores, name: string, steps: seq<(Status, Event)>) {
    && Known(s, name) && Known(t, name) && OthersSame(s, t, name)
    && steps != [] && Named(t, name).status == steps[0].0 && Recorded(Named(s, name), Named(t, name), steps)
  }

  /** Two stretches of a life, one after the other. */
  lemma LivedBoth(s: Stores, t: Stores, u: Stores, name: string, older: seq<(Status, Event)>,
                  newer: seq<(Status, Event)>)
    requires Lived(s, t, name, older) && Lived(t, u, name, newer)
    ensures Lived(s, u, name, newer + older)
  {
    OthersTwice(s, t, u, name);
    var d, e, all := Named(t, name), Named(u, name), newer + older;
    assert e.transitions[|all|..] == e.transitions[|newer|..][|older|..];
    forall k | 0 <= k < |all|
      ensures e.transitions[k].to == all[k].0 && e.transitions[k].event == all[k].1
    {
      if k >= |newer| {
        assert e.transitions[k] == e.transitions[|newer|..][k - |newer|] && all[k] == older[k - |newer|];
      }
    }
  }

  /** The calls of a whole life: start, ready, a task given and completed, shutdown, and the end. */
  function FirstOps(name: string, task: Option<string>, at: seq<int>): seq<Op>
    requires |at| == 6
  {
    [StartOp(name, at[0]), TransitOp(name, Readied, None, at[1]), AssignOp(name, task, at[2])]
  }

  function SecondOps(name: string, success: bool, at: seq<int>): seq<Op>
    requires |at| == 6
  {
    [CompleteOp(name, success, at[3]), TransitOp(name, ShuttingDown, None, at[4]),
     TransitOp(name, Terminated, None, at[5])]
  }

  lemma StartLives(s: Stores, name: string, now: int)
    requires Known(s, name) && Named(s, name).status == OFFLINE
    ensures Lived(s, Apply(s, StartOp(name, now)), name, [(STARTING, Initializing)])
  {
    MoveIs(s, name, STARTING, Initializing, Some("Starting"), now);
  }

  lemma EventLives(s: Stores, name: string, event: Event, now: int, to: Status)
    requires Known(s, name) && Named(s, name).status != to && LeadsTo(event, Named(s, name).status, to)
    requires event != Created
    ensures Lived(s, Apply(s, TransitOp(name, event, None, now)), name, [(to, event)])
  {
    EventTakesEffect(s, name, event, None, now);
    hide TransitionCi, Recorded, OthersSame, Seek;
  }

  lemma RunThree(s: Stores, a: Op, b: Op, c: Op)
    ensures Run(s, [a, b, c]) == Apply(Apply(Apply(s, a), b), c)
  {
    hide Apply;
    assert [a, b, c][1..] == [b, c] && [b, c][1..] == [c];
    RunOne(Apply(Apply(s, a), b), c);
  }

  lemma AssignLives(s: Stores, name: string, task: Option<string>, now: int)
    requires Known(s, name) && Named(s, name).status == READY
    ensures Lived(s, Apply(s, AssignOp(name, task, now)), name, [(BUSY, TaskAssigned)])
  {
    hide AssignTask, Recorded, OthersSame;
    WorkGiven(s, name, task, now);
  }

  lemma CompleteLives(s: Stores, name: string, success: bool, now: int)
    requires Known(s, name) && Named(s, name).status == BUSY
    ensures Lived(s, Apply(s, CompleteOp(name, success, now)), name, [(READY, TaskComplete)])
  {
    hide CompleteTask, Recorded, OthersSame;
    WorkDone(s, name, success, now);
  }

  lemma FirstHalf(s: Stores, name: string, task: Option<string>, at: seq<int>)
    requires |at| == 6 && Known(s, name) && Named(s, name).status == OFFLINE
    ensures Lived(s, Run(s, FirstOps(name, task, at)), name,
                  [(BUSY, TaskAssigned)] + ([(READY, Readied)] + [(STARTING, Initializing)]))
  {
    hide Apply, Run, OthersSame, Recorded;
    var s1 := Apply(s, StartOp(name, at[0]));
    var s2 := Apply(s1, TransitOp(name, Readied, None, at[1]));
    RunThree(s, StartOp(name, at[0]), TransitOp(name, Readied, None, at[1]), AssignOp(name, task, at[2]));
    StartLives(s, name, at[0]);
    EventLives(s1, name, Readied, at[1], READY);
    LivedBoth(s, s1, s2, name, [(STARTING, Initializing)], [(READY, Readied)]);
    AssignLives(s2, name, task, at[2]);
    LivedBoth(s, s2, Apply(s2, AssignOp(name, task, at[2])), name, [(READY, Readied)] + [(STARTING, Initializing)],
              [(BUSY, TaskAssigned)]);
  }

  lemma SecondHalf(s: Stores, name: string, success: bool, at: seq<int>)
    requires |at| == 6 && Known(s, name) && Named(s, name).status == BUSY
    ensures Lived(s, Run(s, SecondOps(name, success, at)), name,
                  [(OFFLINE, Terminated)] + ([(SHUTDOWN, ShuttingDown)] + [(READY, TaskComplete)]))
  {
    hide Apply, Run, OthersSame, Recorded;
    var s1 := Apply(s, CompleteOp(name, success, at[3]));
    var s2 := Apply(s1, TransitOp(name, ShuttingDown, None, at[4]));
    RunThree(s, CompleteOp(name, success, at[3]), TransitOp(name, ShuttingDown, None, at[4]),
             TransitOp(name, Terminated, None, at[5]));
    CompleteLives(s, name, success, at[3]);
    EventLives(s1, name, ShuttingDown, at[4], SHUTDOWN);
    LivedBoth(s, s1, s2, name, [(READY, TaskComplete)], [(SHUTDOWN, ShuttingDown)]);
    EventLives(s2, name, Terminated, at[5], OFFLINE);
    LivedBoth(s, s2, Apply(s2, TransitOp(name, Terminated, None, at[5])), name,
            [(SHUTDOWN, ShuttingDown)] + [(READY, TaskComplete)], [(OFFLINE, Terminated)]);
  }

  /**
   From OFFLINE through a whole life and back: six records in this order in front of the history, and
   no other instance or entry is touched.
   */
  lemma WholeLife(s: Stores, name: string, task: Option<string>, success: bool, at: seq<int>)
    requires |at| == 6 && Known(s, name) && Named(s, name).status == OFFLINE
    ensures Lived(s, Run(s, FirstOps(name, task, at) + SecondOps(name, success, at)), name,
                  [(OFFLINE, Terminated), (SHUTDOWN, ShuttingDown), (READY, TaskComplete), (BUSY, TaskAssigned),
                   (READY, Readied), (STARTING, Initializing)])
  {
    var first, second := FirstOps(name, task, at), SecondOps(name, success, at);
    LifeRecords();
    FirstHalf(s, name, task, at);
    hide *;
    RunAppend(s, first, second);
    BusyNow(s, Run(s, first), name);
    SecondHalf(Run(s, first), name, success, at);
    LivedBoth(s, Run(s, first), Run(s, first + second), name,
              [(BUSY, TaskAssigned)] + ([(READY, Readied)] + [(STARTING, Initializing)]),
              [(OFFLINE, Terminated)] + ([(SHUTDOWN, ShuttingDown)] + [(READY, TaskComplete)]));
  }

  lemma LifeRecords()
    ensures [(OFFLINE, Terminated), (SHUTDOWN, ShuttingDown), (READY, TaskComplete), (BUSY, TaskAssigned),
             (READY, Readied), (STARTING, Initializing)]
            == ([(OFFLINE, Terminated)] + ([(SHUTDOWN, ShuttingDown)] + [(READY, TaskComplete)]))
               + ([(BUSY, TaskAssigned)] + ([(READY, Readied)] + [(STARTING, Initializing)]))
  {
  }

  lemma BusyNow(s: Stores, t: Stores, name: string)
    requires Lived(s, t, name, [(BUSY, TaskAssigned)] + ([(READY, Readied)] + [(STARTING, Initializing)]))
    ensures Known(t, name) && Named(t, name).status == BUSY
  {
  }

  // ---------------------------------------------------------------- heartbeats

  lemma {:induction false} CheckedLast(c: Instance, times: seq<int>)
    requires times != []
    ensures CheckedTimes(c, times) == Checked(CheckedTimes(c, times[..|times| - 1]), times[|times| - 1])
    decreases |times|
  {
    hide Checked;
    if |times| > 1 {
      CheckedLast(Checked(c, times[0]), times[1..]);
      assert times[..|times| - 1][1..] == times[1..][..|times| - 2];
    }
  }

  /** The state of an instance after `n` late checks in a row. */
  predicate Missed(c: Instance, d: Instance, n: nat) {
    && d.missedHeartbeats == n && d.lastHeartbeat == c.lastHeartbeat && d.name == c.name
    && d.errorCount == c.errorCount + (if n < 3 then 0 else n - 2)
    && d.status == (if n < 3 then c.status else ERROR)
    && d.transitionCount == c.transitionCount + (if n < 3 || c.status == ERROR then 0 else 1)
    && d.task == c.task
  }

  /** Each late check counts; from the third on each also counts an error, and the third one moves to ERROR. */
  lemma {:induction false} MissesCount(c: Instance, times: seq<int>)
    requires c.missedHeartbeats == 0 && c.status != OFFLINE
    requires forall t <- times :: t - c.lastHeartbeat > 60
    ensures Missed(c, CheckedTimes(c, times), |times|)
    decreases |times|
  {
    if times != [] {
      var n := |times| - 1;
      assert forall t <- times[..n] :: t in times;
      MissesCount(c, times[..n]);
      CheckedLast(c, times);
      assert times[n] in times;
    }
  }

  /** Checks within a minute of the heartbeat, and checks of an offline instance, change nothing. */
  lemma {:induction false} InTimeStays(c: Instance, times: seq<int>)
    requires c.status == OFFLINE || forall t <- times :: t - c.lastHeartbeat <= 60
    ensures CheckedTimes(c, times) == c
    decreases |times|
  {
    if times != [] {
      assert times[0] in times && forall t <- times[1..] :: t in times;
      InTimeStays(c, times[1..]);
    }
  }

  lemma BeatIs(ops: seq<Op>, name: string, h: int)
    requires Known(Run(EMPTY, ops), name)
    ensures var s := Run(EMPTY, ops);
            var beaten := Run(EMPTY, ops + [BeatOp(name, h)]);
            var i, k := Seek(s.cis, name), Find(s.registry, name);
            && beaten.cis == s.cis[i := s.cis[i].(lastHeartbeat := h, missedHeartbeats := 0)]
            && beaten.registry == (if k < |s.registry| then s.registry[k := s.registry[k].(lastHeartbeat := h)]
                                   else s.registry)
  {
    RunAppend(EMPTY, ops, [BeatOp(name, h)]);
    RunOne(Run(EMPTY, ops), BeatOp(name, h));
    hide Run, Seek, Find;
  }

  /**
   After any history, a heartbeat at `h` sets the count back to 0 in both stores and changes nothing
   else; then checks within a minute of it change nothing about the instance, and of later ones the
   third in a row, and not an earlier one, is an error.
   */
  lemma HeartbeatStartsOver(ops: seq<Op>, name: string, h: int, times: seq<int>)
    requires Known(Run(EMPTY, ops), name)
    ensures var s := Run(EMPTY, ops);
            var beaten := Run(EMPTY, ops + [BeatOp(name, h)]);
            var t := Run(EMPTY, ops + [BeatOp(name, h)] + Checks(times));
            var i, k := Seek(s.cis, name), Find(s.registry, name);
            && beaten.cis == s.cis[i := s.cis[i].(lastHeartbeat := h, missedHeartbeats := 0)]
            && beaten.registry == (if k < |s.registry| then s.registry[k := s.registry[k].(lastHeartbeat := h)]
                                   else s.registry)
            && |t.cis| == |s.cis|
            && (s.cis[i].status == OFFLINE || (forall x <- times :: x - h <= 60) ==> t.cis[i] == beaten.cis[i])
            && (s.cis[i].status != OFFLINE && (forall x <- times :: x - h > 60) ==>
                  Missed(beaten.cis[i], t.cis[i], |times|))
  {
    BeatIs(ops, name, h);
    var beaten := Run(EMPTY, ops + [BeatOp(name, h)]);
    var i := Seek(Run(EMPTY, ops).cis, name);
    var c := beaten.cis[i];
    RunAppend(EMPTY, ops + [BeatOp(name, h)], Checks(times));
    FirstLiveInRuns(ops + [BeatOp(name, h)]);
    hide Run, Checks, CheckedTimes, OnlyFirstLive, Seek;
    ChecksTreatEach(beaten, times, i);
    if c.status == OFFLINE || forall x <- times :: x - h <= 60 {
      InTimeStays(c, times);
    }
    if c.status != OFFLINE && forall x <- times :: x - h > 60 {
      MissesCount(c, times);
    }
  }

  /** Over any history, reporting an error counts it, keeps the message and takes the instance to ERROR. */
  lemma ErrorsAreCounted(s: Stores, name: string, message: Option<string>, now: int)
    requires Known(s, name)
    ensures var t := ReportError(s, name, message, now).stores;
            && Known(t, name) && OthersSame(s, t, name)
            && Named(t, name).errorCount == Named(s, name).errorCount + 1 && Named(t, name).lastError == message
            && Named(t, name).status == ERROR
            && (if Named(s, name).status == ERROR then Named(t, name).transitions == Named(s, name).transitions
                else Recorded(Named(s, name), Named(t, name), [(ERROR, Failed)]))
  {
    var c := Named(s, name).(errorCount := Named(s, name).errorCount + 1, lastError := message);
    var s1 := s.(cis := s.cis[Seek(s.cis, name) := c]);
    SeekSame(s.cis, s1.cis, name);
    SeekSame(s1.cis, ReportError(s, name, message, now).stores.cis, name);
    if Named(s, name).status != ERROR {
      UpdateThenMove(s, name, c, ERROR, Failed, message, now);
    }
  }

  /** Which instances are late: not offline, and more than 60 seconds without a heartbeat. */
  function LateFlags(cis: seq<Instance>, now: int): seq<bool> {
    seq(|cis|, i requires 0 <= i < |cis| => cis[i].status != OFFLINE && now - cis[i].lastHeartbeat > 60)
  }

  /** The check counts exactly these. */
  lemma {:induction false} LateIsNumber(cis: seq<Instance>, i: nat, now: int)
    requires i <= |cis|
    ensures LateFrom(cis, i, now) == multiset(LateFlags(cis, now)[i..])[true]
    decreases |cis| - i
  {
    if i < |cis| {
      LateIsNumber(cis, i + 1, now);
      assert LateFlags(cis, now)[i..] == [LateFlags(cis, now)[i]] + LateFlags(cis, now)[i + 1..];
    }
  }

  /** Clearing forgets the history of the named instance, its length included, and nothing else. */
  lemma ClearForgets(s: Stores, name: string)
    ensures var t := ClearHistory(s, name);
            && t.registry == s.registry && |t.cis| == |s.cis|
            && forall i :: 0 <= i < |s.cis| ==>
                 if i == Seek(s.cis, name) then t.cis[i] == s.cis[i].(transitions := [], transitionCount := 0)
                 else t.cis[i] == s.cis[i]
  {
  }
}
