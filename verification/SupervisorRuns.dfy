/**
 Whole runs of the supervisor: any sequence of starts, pauses, resumes, abandons, timeout scans,
 reaped exits and prunings, with every outcome of fork, pipe and kill and every clock.

 Ids can be reused once an entry is gone, so each registration gets a birth number, and a log keeps
 what was forked for it.
 */
module SupervisorRuns {
  import opened Chains
  import opened WorkflowRegistry
  import opened Supervisor

  datatype Event =
    | StartEvent(start: StartInput)
    | PauseEvent(id: string, killOk: bool)
    | ResumeEvent(id: string, killOk: bool)
    | AbandonEvent(id: string)
    | TimeoutEvent(now: int)
    | ExitEvent(exit: Exit, pid: int, now: int)
    | PruneEvent(cutoff: int)

  /** The log of one registration: its number, when it was started, the delays and results of its forks. */
  datatype Life = Life(birth: nat, started: int, delays: seq<nat>, pids: seq<int>) {
    function Forked(f: Fork): Life {
      Life(birth, started, delays + [f.delay], pids + [f.pid])
    }
  }

  datatype World = World(es: seq<Workflow>, lives: map<string, Life>, births: nat)

  const EMPTY := World([], map[], 0)

  ghost function StepOutcome(es: seq<Workflow>, ev: Event): Outcome {
    match ev
    case StartEvent(x) => Start(es, x)
    case PauseEvent(id, ok) => Outcome(Switch(es, id, Running, Paused, ok), [])
    case ResumeEvent(id, ok) => Outcome(Switch(es, id, Paused, Running, ok), [])
    case AbandonEvent(id) => Outcome(Abandon(es, id), [])
    case TimeoutEvent(now) => Outcome(MarkTimeouts(es, now), [])
    case ExitEvent(x, pid, now) => Reap(es, x, pid, now)
    case PruneEvent(cutoff) => Outcome(Pruned(es, cutoff), [])
  }

  function LogFork(lives: map<string, Life>, f: Fork): map<string, Life> {
    if f.id in lives then lives[f.id := lives[f.id].Forked(f)] else lives
  }

  /** Append the forks of one step to the logs. */
  function Logged(lives: map<string, Life>, forks: seq<Fork>): map<string, Life> {
    if forks == [] then lives else Logged(LogFork(lives, forks[0]), forks[1..])
  }

  ghost function Step(w: World, ev: Event): World {
    var o := StepOutcome(w.es, ev);
    if ev.StartEvent? && Startable(w.es, ev.start) then
      World(o.es, Logged(w.lives[ev.start.id := Life(w.births, ev.start.now, [], [])], o.forks), w.births + 1)
    else
      World(o.es, Logged(w.lives, o.forks), w.births)
  }

  ghost function Run(w: World, evs: seq<Event>): World
    decreases |evs|
  {
    if evs == [] then w else Run(Step(w, evs[0]), evs[1..])
  }

  // ---------------------------------------------------------------- the invariant

  /** Delays of the first attempt and of `k` retries. */
  function Backoff(k: nat): (r: seq<nat>)
    ensures |r| == k + 1
  {
    if k == 0 then [0] else Backoff(k - 1) + [Delay(k)]
  }

  function Sum(s: seq<nat>): nat {
    if s == [] then 0 else Sum(s[..|s| - 1]) + s[|s| - 1]
  }

  lemma {:induction false} BackoffTotal(k: nat)
    ensures Sum(Backoff(k)) == RETRY_BASE * (Pow2(k) - 1)
  {
    if k > 0 {
      assert Backoff(k)[..k] == Backoff(k - 1);
      BackoffTotal(k - 1);
    }
  }

  lemma {:induction false} Pow2Monotone(a: nat, b: nat)
    requires a <= b
    ensures Pow2(a) <= Pow2(b)
    decreases b - a
  {
    if a < b {
      Pow2Monotone(a + 1, b);
    }
  }

  /** The last fork that succeeded, or 0. */
  function LastChild(pids: seq<int>): int {
    if pids == [] then 0
    else if pids[|pids| - 1] > 0 then pids[|pids| - 1]
    else LastChild(pids[..|pids| - 1])
  }

  lemma LastOfMore(pids: seq<int>, pid: int)
    ensures LastChild(pids + [pid]) == if pid > 0 then pid else LastChild(pids)
  {
    assert (pids + [pid])[..|pids|] == pids;
  }

  /** A registration whose first fork failed is FAILED since then; every other one is running or paused. */
  predicate StateOk(e: Workflow, life: Life) {
    if e.state == Failed then |life.pids| == 1 && life.pids[0] < 0 && e.endTime == e.startTime
    else (e.state == Running || e.state == Paused) && life.pids != [] && life.pids[0] >= 0 && e.endTime == 0
  }

  /** What the registry says about an entry agrees with its log. */
  predicate EntryOk(w: World, e: Workflow) {
    && e.id in w.lives && 0 < |e.id| <= ID_MAX
    && w.lives[e.id].birth < w.births
    && e.maxRetries == MAX_RETRIES && e.timeoutSeconds == TIMEOUT_SECONDS
    && e.retryCount <= e.maxRetries
    && e.startTime == w.lives[e.id].started
    && w.lives[e.id].delays == Backoff(e.retryCount)
    && e.pid == LastChild(w.lives[e.id].pids) && StateOk(e, w.lives[e.id])
  }

  predicate Inv(w: World) {
    && DistinctIds(w.es)
    && (forall i :: 0 <= i < |w.es| ==> EntryOk(w, w.es[i]))
    && (forall id <- w.lives :: w.lives[id].birth < w.births)
  }

  lemma SubsetKeepsInv(w: World, es: seq<Workflow>)
    requires Inv(w) && DistinctIds(es) && forall e :: e in es ==> e in w.es
    ensures Inv(w.(es := es))
  {
    forall i | 0 <= i < |es|
      ensures EntryOk(w.(es := es), es[i])
    {
      assert es[i] in w.es;
      var j :| 0 <= j < |w.es| && w.es[j] == es[i];
      assert EntryOk(w, w.es[j]);
    }
  }

  /** An update of one entry that leaves alone what the log speaks about. */
  lemma TouchKeepsInv(w: World, i: nat, e: Workflow)
    requires Inv(w) && i < |w.es| && EntryOk(w, e) && e.id == w.es[i].id
    ensures Inv(w.(es := w.es[i := e]))
  {
    var es := w.es[i := e];
    forall k | 0 <= k < |es|
      ensures EntryOk(w.(es := es), es[k])
    {
      assert EntryOk(w, w.es[k]);
    }
  }

  lemma StartKeepsInv(w: World, x: StartInput)
    requires Inv(w)
    ensures Inv(Step(w, StartEvent(x)))
  {
    if Startable(w.es, x) {
      var o := Start(w.es, x);
      var life := Life(w.births, x.now, [], []);
      var t := Step(w, StartEvent(x));
      assert o.forks == [o.forks[0]];
      LogOne(w.lives[x.id := life], o.forks[0]);
      assert t.lives[x.id] == Life(w.births, x.now, [0], [x.pid]);
      AddKeepsDistinct(w.es, o.es[0]);
      forall k | 0 <= k < |o.es|
        ensures EntryOk(t, o.es[k])
      {
        if k > 0 {
          assert o.es[k] == w.es[k - 1];
          assert EntryOk(w, w.es[k - 1]);
        }
      }
    }
  }

  /** The index reaped for an exit, if any. */
  function Reaped(es: seq<Workflow>, x: Exit): nat {
    RunningFrom(es, x.pid, 0)
  }

  /** Whether reaping this exit retries the entry. */
  predicate Retries(e: Workflow, x: Exit) {
    !e.abandonRequested && x.code != 0 && e.retryCount < e.maxRetries
  }

  lemma ExitKeepsInv(w: World, x: Exit, pid: int, now: int)
    requires Inv(w)
    ensures Inv(Step(w, ExitEvent(x, pid, now)))
  {
    var i := Reaped(w.es, x);
    if i < |w.es| {
      if Retries(w.es[i], x) {
        RetryKeepsInv(w, x, pid, now);
      } else {
        RemoveKeepsDistinct(w.es, i);
        SubsetKeepsInv(w, Without(w.es, i));
      }
    }
  }

  /** The world after the retry of entry `i`. */
  lemma RetryStep(w: World, x: Exit, pid: int, now: int)
    requires Inv(w) && Reaped(w.es, x) < |w.es| && Retries(w.es[Reaped(w.es, x)], x)
    ensures var i := Reaped(w.es, x);
            var e := w.es[i];
            && e.id in w.lives
            && Step(w, ExitEvent(x, pid, now))
               == World(w.es[i := Retried(e.(exitCode := x.code), pid, now)],
                        w.lives[e.id := w.lives[e.id].Forked(Fork(e.id, Delay(e.retryCount + 1), pid))], w.births)
  {
    var e := w.es[Reaped(w.es, x)];
    assert EntryOk(w, e);
    LogOne(w.lives, Fork(e.id, Delay(e.retryCount + 1), pid));
  }

  lemma RetriedOk(w: World, x: Exit, pid: int, now: int)
    requires Inv(w) && Reaped(w.es, x) < |w.es| && Retries(w.es[Reaped(w.es, x)], x)
    ensures EntryOk(Step(w, ExitEvent(x, pid, now)), Step(w, ExitEvent(x, pid, now)).es[Reaped(w.es, x)])
  {
    RetryStep(w, x, pid, now);
    var e := w.es[Reaped(w.es, x)];
    assert EntryOk(w, e);
    LastOfMore(w.lives[e.id].pids, pid);
    hide Step, Reaped, LastChild, Inv;
  }

  lemma RetryKeepsInv(w: World, x: Exit, pid: int, now: int)
    requires Inv(w) && Reaped(w.es, x) < |w.es| && Retries(w.es[Reaped(w.es, x)], x)
    ensures Inv(Step(w, ExitEvent(x, pid, now)))
  {
    RetryStep(w, x, pid, now);
    RetriedOk(w, x, pid, now);
    var i, t := Reaped(w.es, x), Step(w, ExitEvent(x, pid, now));
    hide Step, Reaped, Backoff, LastChild, StateOk;
    forall k | 0 <= k < |t.es|
      ensures EntryOk(t, t.es[k])
    {
      assert EntryOk(w, w.es[k]);
    }
  }

  lemma LogOne(lives: map<string, Life>, f: Fork)
    requires f.id in lives
    ensures Logged(lives, [f]) == lives[f.id := lives[f.id].Forked(f)]
  {
    assert [f][1..] == [];
  }

  lemma TimeoutKeepsInv(w: World, now: int)
    requires Inv(w)
    ensures Inv(Step(w, TimeoutEvent(now)))
  {
    var es := MarkTimeouts(w.es, now);
    forall k | 0 <= k < |es|
      ensures EntryOk(w.(es := es), es[k])
    {
      assert EntryOk(w, w.es[k]);
    }
  }

  lemma StepKeepsInv(w: World, ev: Event)
    requires Inv(w)
    ensures Inv(Step(w, ev))
  {
    match ev
    case StartEvent(x) => StartKeepsInv(w, x);
    case PauseEvent(id, ok) => SwitchKeepsInv(w, id, Running, Paused, ok);
    case ResumeEvent(id, ok) => SwitchKeepsInv(w, id, Paused, Running, ok);
    case AbandonEvent(id) =>
      var i := Index(w.es, id);
      if i < |w.es| {
        assert EntryOk(w, w.es[i]);
        TouchKeepsInv(w, i, w.es[i].(abandonRequested := true));
      }
    case TimeoutEvent(now) => TimeoutKeepsInv(w, now);
    case ExitEvent(x, pid, now) => ExitKeepsInv(w, x, pid, now);
    case PruneEvent(cutoff) =>
      PrunedIds(w.es, cutoff);
      SubsetKeepsInv(w, Pruned(w.es, cutoff));
  }

  lemma SwitchKeepsInv(w: World, id: string, from: WorkflowState, to: WorkflowState, ok: bool)
    requires Inv(w) && from in {Running, Paused} && to in {Running, Paused}
    ensures Inv(w.(es := Switch(w.es, id, from, to, ok)))
  {
    var i := Index(w.es, id);
    if i < |w.es| && w.es[i].state == from {
      assert EntryOk(w, w.es[i]);
      TouchKeepsInv(w, i, w.es[i].(state := to));
    }
  }

  lemma {:induction false} RunKeepsInv(w: World, evs: seq<Event>)
    requires Inv(w)
    ensures Inv(Run(w, evs))
    decreases |evs|
  {
    if evs != [] {
      StepKeepsInv(w, evs[0]);
      RunKeepsInv(Step(w, evs[0]), evs[1..]);
    }
  }

  // ---------------------------------------------------------------- bounded retries

  /**
   In every run, ids are distinct, and every entry has retried at most `maxRetries` times, was forked
   for exactly once more than it retried, with the delays 0, 5, 10, 20, ..., which add up to
   5 * (2^retries - 1) seconds.
   */
  lemma RetriesAreBounded(evs: seq<Event>)
    ensures var w := Run(EMPTY, evs);
            && DistinctIds(w.es)
            && forall i :: 0 <= i < |w.es| ==>
                 var e := w.es[i];
                 && e.id in w.lives && e.retryCount <= e.maxRetries == MAX_RETRIES
                 && |w.lives[e.id].delays| == 1 + e.retryCount
                 && w.lives[e.id].delays == Backoff(e.retryCount)
                 && Sum(w.lives[e.id].delays) == RETRY_BASE * (Pow2(e.retryCount) - 1)
                                              <= RETRY_BASE * (Pow2(e.maxRetries) - 1)
  {
    RunKeepsInv(EMPTY, evs);
    var w := Run(EMPTY, evs);
    forall i | 0 <= i < |w.es|
      ensures var e := w.es[i];
              && e.id in w.lives && e.retryCount <= e.maxRetries == MAX_RETRIES
              && |w.lives[e.id].delays| == 1 + e.retryCount
              && w.lives[e.id].delays == Backoff(e.retryCount)
              && Sum(w.lives[e.id].delays) == RETRY_BASE * (Pow2(e.retryCount) - 1)
                                           <= RETRY_BASE * (Pow2(e.maxRetries) - 1)
    {
      assert EntryOk(w, w.es[i]);
      BackoffTotal(w.es[i].retryCount);
      Pow2Monotone(w.es[i].retryCount, w.es[i].maxRetries);
    }
  }

  /** In every run every id fits the id field of an entry. */
  lemma IdsFit(evs: seq<Event>)
    ensures forall e <- Run(EMPTY, evs).es :: 0 < |e.id| <= ID_MAX
  {
    RunKeepsInv(EMPTY, evs);
    var w := Run(EMPTY, evs);
    forall e <- w.es
      ensures 0 < |e.id| <= ID_MAX
    {
      var i :| 0 <= i < |w.es| && w.es[i] == e;
      assert EntryOk(w, w.es[i]);
    }
  }

  // ---------------------------------------------------------------- one registration over time

  /** Whether registration number `birth` of `id` is still in the registry. */
  predicate Alive(w: World, id: string, birth: nat) {
    Has(w.es, id) && id in w.lives && w.lives[id].birth == birth
  }

  function EntryOf(es: seq<Workflow>, id: string): Workflow
    requires Has(es, id)
  {
    es[Index(es, id)]
  }

  /**
   What one step may do to a registration: end it for good, or keep its start time and limits, never
   clear the abandon flag, and fork for it only while that flag is not set.
   */
  predicate Continues(w: World, t: World, id: string, birth: nat)
    requires Alive(w, id, birth)
  {
    && birth < t.births
    && (Alive(t, id, birth) ==>
          var e, f := EntryOf(w.es, id), EntryOf(t.es, id);
          && f.startTime == e.startTime && f.timeoutSeconds == e.timeoutSeconds && f.maxRetries == e.maxRetries
          && f.retryCount >= e.retryCount
          && (e.abandonRequested ==>
                f.abandonRequested && f.retryCount == e.retryCount && t.lives[id] == w.lives[id]))
  }

  lemma StepContinues(w: World, ev: Event, id: string, birth: nat)
    requires Inv(w) && Alive(w, id, birth)
    ensures Continues(w, Step(w, ev), id, birth)
  {
    var i := Index(w.es, id);
    assert EntryOk(w, w.es[i]);
    match ev
    case StartEvent(x) => StartContinues(w, x, id, birth);
    case PauseEvent(other, ok) => SwitchContinues(w, other, Running, Paused, ok, id, birth);
    case ResumeEvent(other, ok) => SwitchContinues(w, other, Paused, Running, ok, id, birth);
    case AbandonEvent(other) =>
      var j := Index(w.es, other);
      if j < |w.es| {
        TouchContinues(w, j, w.es[j].(abandonRequested := true), id);
      }
    case TimeoutEvent(now) => TouchAllContinues(w.es, MarkTimeouts(w.es, now), id);
    case ExitEvent(x, pid, now) => ExitContinues(w, x, pid, now, id, birth);
    case PruneEvent(cutoff) =>
      PrunedIds(w.es, cutoff);
      SubsetEntry(w.es, Pruned(w.es, cutoff), id);
  }

  /** An array with the same ids place by place finds the entry at the same place. */
  lemma TouchAllContinues(a: seq<Workflow>, b: seq<Workflow>, id: string)
    requires DistinctIds(a) && |a| == |b| && Has(a, id)
    requires forall k :: 0 <= k < |a| ==> a[k].id == b[k].id
    ensures Has(b, id) && Index(b, id) == Index(a, id)
  {
    var i := Index(a, id);
    assert b[i].id == id;
    IndexIs(b, i);
  }

  lemma TouchContinues(w: World, j: nat, e: Workflow, id: string)
    requires DistinctIds(w.es) && j < |w.es| && e.id == w.es[j].id && Has(w.es, id)
    ensures var es := w.es[j := e];
            Has(es, id) && EntryOf(es, id) == if w.es[j].id == id then e else EntryOf(w.es, id)
  {
    TouchAllContinues(w.es, w.es[j := e], id);
    IndexIs(w.es, j);
  }

  lemma SwitchContinues(w: World, other: string, from: WorkflowState, to: WorkflowState, ok: bool,
                        id: string, birth: nat)
    requires Inv(w) && Alive(w, id, birth) && birth < w.births
    ensures Continues(w, w.(es := Switch(w.es, other, from, to, ok)), id, birth)
  {
    var j := Index(w.es, other);
    if j < |w.es| {
      TouchContinues(w, j, w.es[j].(state := to), id);
    }
  }

  /** What is left of distinct entries keeps each entry as it was. */
  lemma SubsetEntry(a: seq<Workflow>, b: seq<Workflow>, id: string)
    requires DistinctIds(a) && forall e :: e in b ==> e in a
    ensures Has(b, id) ==> Has(a, id) && EntryOf(b, id) == EntryOf(a, id)
  {
    if Has(b, id) {
      var e := EntryOf(b, id);
      assert e in b;
      var k :| 0 <= k < |a| && a[k] == e;
      IndexIs(a, k);
    }
  }

  lemma StartContinues(w: World, x: StartInput, id: string, birth: nat)
    requires Inv(w) && Alive(w, id, birth) && birth < w.births
    ensures Continues(w, Step(w, StartEvent(x)), id, birth)
  {
    if Startable(w.es, x) {
      assert x.id != id;
      var o := Start(w.es, x);
      LogOne(w.lives[x.id := Life(w.births, x.now, [], [])], o.forks[0]);
      assert o.forks == [o.forks[0]];
      AddKeepsDistinct(w.es, o.es[0]);
      var i := Index(w.es, id);
      assert o.es[i + 1] == w.es[i];
      IndexIs(o.es, i + 1);
    }
  }

  lemma ExitContinues(w: World, x: Exit, pid: int, now: int, id: string, birth: nat)
    requires Inv(w) && Alive(w, id, birth) && birth < w.births
    ensures Continues(w, Step(w, ExitEvent(x, pid, now)), id, birth)
  {
    var j := Reaped(w.es, x);
    if j < |w.es| {
      if Retries(w.es[j], x) {
        var e := w.es[j];
        assert EntryOk(w, e);
        LogOne(w.lives, Fork(e.id, Delay(e.retryCount + 1), pid));
        TouchContinues(w, j, Retried(e.(exitCode := x.code), pid, now), id);
        IndexIs(w.es, j);
      } else {
        SubsetEntry(w.es, Without(w.es, j), id);
      }
    }
  }

  /** Births only move on, and a registration that ended does not come back. */
  lemma DeadStaysDead(w: World, ev: Event, id: string, birth: nat)
    requires Inv(w) && !Alive(w, id, birth) && birth < w.births
    ensures !Alive(Step(w, ev), id, birth) && birth < Step(w, ev).births
  {
    match ev
    case StartEvent(x) => DeadThroughStart(w, x, id, birth);
    case PauseEvent(_, _) => DeadThroughUpdate(w, Step(w, ev), id);
    case ResumeEvent(_, _) => DeadThroughUpdate(w, Step(w, ev), id);
    case AbandonEvent(_) => DeadThroughUpdate(w, Step(w, ev), id);
    case TimeoutEvent(_) => DeadThroughUpdate(w, Step(w, ev), id);
    case ExitEvent(x, pid, now) => DeadThroughExit(w, x, pid, now, id, birth);
    case PruneEvent(cutoff) =>
      PrunedIds(w.es, cutoff);
      SubsetEntry(w.es, Pruned(w.es, cutoff), id);
  }

  lemma SameIds(a: seq<Workflow>, b: seq<Workflow>, id: string)
    requires |a| == |b| && forall i :: 0 <= i < |a| ==> a[i].id == b[i].id
    ensures Has(a, id) <==> Has(b, id)
  {
    if Has(a, id) {
      assert b[Index(a, id)].id == id;
    }
    if Has(b, id) {
      assert a[Index(b, id)].id == id;
    }
  }

  lemma DeadThroughUpdate(w: World, t: World, id: string)
    requires |t.es| == |w.es| && forall k :: 0 <= k < |w.es| ==> t.es[k].id == w.es[k].id
    ensures Has(t.es, id) <==> Has(w.es, id)
  {
    SameIds(w.es, t.es, id);
  }

  lemma DeadThroughStart(w: World, x: StartInput, id: string, birth: nat)
    requires Inv(w) && !Alive(w, id, birth) && birth < w.births
    ensures !Alive(Step(w, StartEvent(x)), id, birth) && birth < Step(w, StartEvent(x)).births
  {
    if Startable(w.es, x) {
      var o := Start(w.es, x);
      LogOne(w.lives[x.id := Life(w.births, x.now, [], [])], o.forks[0]);
      assert o.forks == [o.forks[0]];
      if x.id != id && Has(o.es, id) {
        var i := Index(o.es, id);
        assert i > 0 && w.es[i - 1] == o.es[i];
        assert Has(w.es, id);
      }
    }
  }

  lemma DeadThroughExit(w: World, x: Exit, pid: int, now: int, id: string, birth: nat)
    requires Inv(w) && !Alive(w, id, birth) && birth < w.births
    ensures !Alive(Step(w, ExitEvent(x, pid, now)), id, birth)
  {
    var j := Reaped(w.es, x);
    if j < |w.es| {
      if Retries(w.es[j], x) {
        var e := w.es[j];
        assert EntryOk(w, e);
        LogOne(w.lives, Fork(e.id, Delay(e.retryCount + 1), pid));
        DeadThroughUpdate(w, Step(w, ExitEvent(x, pid, now)), id);
      } else {
        SubsetEntry(w.es, Without(w.es, j), id);
      }
    }
  }

  lemma {:induction false} DeadForGood(w: World, evs: seq<Event>, id: string, birth: nat)
    requires Inv(w) && !Alive(w, id, birth) && birth < w.births
    ensures !Alive(Run(w, evs), id, birth) && birth < Run(w, evs).births
    decreases |evs|
  {
    if evs != [] {
      StepKeepsInv(w, evs[0]);
      DeadStaysDead(w, evs[0], id, birth);
      DeadForGood(Step(w, evs[0]), evs[1..], id, birth);
    }
  }

  /** What holds of one step holds of whole runs. */
  lemma {:induction false} RunContinues(w: World, evs: seq<Event>, id: string, birth: nat)
    requires Inv(w) && Alive(w, id, birth)
    ensures Continues(w, Run(w, evs), id, birth)
    decreases |evs|
  {
    assert EntryOk(w, w.es[Index(w.es, id)]);
    if evs != [] {
      var t := Step(w, evs[0]);
      StepKeepsInv(w, evs[0]);
      StepContinues(w, evs[0], id, birth);
      if Alive(t, id, birth) {
        RunContinues(t, evs[1..], id, birth);
      } else {
        DeadForGood(t, evs[1..], id, birth);
      }
    }
  }

  /**
   Once an entry's abandon flag is set, then through every further run of its registration the flag
   stays set, nothing is ever forked for it again, and it keeps its start time.
   */
  lemma AbandonIsFinal(before: seq<Event>, after: seq<Event>, id: string)
    requires Has(Run(EMPTY, before).es, id)
    requires EntryOf(Run(EMPTY, before).es, id).abandonRequested
    ensures var w := Run(EMPTY, before);
            var t := Run(w, after);
            id in w.lives
            && (Alive(t, id, w.lives[id].birth) ==>
                  && EntryOf(t.es, id).abandonRequested
                  && t.lives[id].delays == w.lives[id].delays
                  && EntryOf(t.es, id).startTime == EntryOf(w.es, id).startTime)
  {
    RunKeepsInv(EMPTY, before);
    var w := Run(EMPTY, before);
    assert EntryOk(w, w.es[Index(w.es, id)]);
    RunContinues(w, after, id, w.lives[id].birth);
  }

  /** The next exit matched to an abandoned entry removes it, whatever the exit code, and forks nothing. */
  lemma AbandonedIsRemoved(evs: seq<Event>, x: Exit, pid: int, now: int)
    requires var es := Run(EMPTY, evs).es;
             Reaped(es, x) < |es| && es[Reaped(es, x)].abandonRequested
    ensures var w := Run(EMPTY, evs);
            var e := w.es[Reaped(w.es, x)];
            var t := Step(w, ExitEvent(x, pid, now));
            && !Has(t.es, e.id) && t.lives == w.lives && |t.es| == |w.es| - 1
            && forall id :: id != e.id && Has(w.es, id) ==> Has(t.es, id) && EntryOf(t.es, id) == EntryOf(w.es, id)
  {
    RunKeepsInv(EMPTY, evs);
    var w := Run(EMPTY, evs);
    var i := Reaped(w.es, x);
    RemoveKeepsDistinct(w.es, i);
    forall id | id != w.es[i].id && Has(w.es, id)
      ensures Has(Without(w.es, i), id) && EntryOf(Without(w.es, i), id) == EntryOf(w.es, id)
    {
      OthersRemain(w.es, i, id);
    }
  }

  lemma OthersRemain(es: seq<Workflow>, i: nat, id: string)
    requires DistinctIds(es) && i < |es| && es[i].id != id && Has(es, id)
    ensures Has(Without(es, i), id) && EntryOf(Without(es, i), id) == EntryOf(es, id)
  {
    var k := Index(es, id);
    var rest := Without(es, i);
    var at := if k < i then k else k - 1;
    assert rest[at] == es[k];
    RemoveKeepsDistinct(es, i);
    IndexIs(rest, at);
  }

  /**
   The timeout counts from the first start, however often the entry was retried since: a scan at `now`
   flags exactly the running entries whose registration was started more than an hour before, and
   changes nothing else.
   */
  lemma TimeoutIsExact(evs: seq<Event>, now: int)
    ensures var w := Run(EMPTY, evs);
            var t := Step(w, TimeoutEvent(now));
            && |t.es| == |w.es| && t.lives == w.lives
            && forall i :: 0 <= i < |w.es| ==>
                 var e := w.es[i];
                 && e.id in w.lives
                 && t.es[i] == if e.state == Running && now - w.lives[e.id].started > 3600
                               then e.(abandonRequested := true) else e
  {
    RunKeepsInv(EMPTY, evs);
    var w := Run(EMPTY, evs);
    forall i | 0 <= i < |w.es|
      ensures EntryOk(w, w.es[i])
    {
    }
  }

  // ---------------------------------------------------------------- what each call does, in any run

  /** What the name field of 128 bytes keeps of a path. */
  function FirstBytes(path: string): string {
    if |path| <= 127 then path else path[..127]
  }

  /**
   A start succeeds exactly with a safe script path, an id of 1 to 63 characters that is not taken, and
   a pipe; it puts one entry in front, running with the child's pid, or failed where the fork failed.
   */
  lemma StartTakesEffect(evs: seq<Event>, x: StartInput)
    ensures var w := Run(EMPTY, evs);
            var t := Step(w, StartEvent(x));
            if x.safe && 1 <= |x.id| <= 63 && !Has(w.es, x.id) && x.pipeOk then
              && |t.es| == |w.es| + 1 && t.es[1..] == w.es && t.births == w.births + 1
              && t.lives == w.lives[x.id := Life(w.births, x.now, [0], [x.pid])]
              && StartReply(w.es, x) == (if x.pid < 0 then ForkFailed else Ok)
              && var name := FirstBytes(x.script);
                 t.es[0] == if x.pid < 0
                            then Workflow(x.id, name, Failed, 0, 0, x.now, x.now, 0, false, 0, 1, 3600, 0, 3, 0)
                            else Workflow(x.id, name, Running, x.pid, x.pipe, x.now, 0, 0, false, 0, 1, 3600, 0, 3, 0)
            else
              && t == w
              && StartReply(w.es, x) == (if !x.safe || x.id == "" || |x.id| >= 64 then BadParameters
                                         else if Has(w.es, x.id) then AlreadyExists else ProcessError)
  {
    var w := Run(EMPTY, evs);
    if Startable(w.es, x) {
      var life, fork := Life(w.births, x.now, [], []), Fork(x.id, 0, x.pid);
      StartLogged(w.lives, x.id, life, fork);
      assert life.Forked(fork) == Life(w.births, x.now, [0], [x.pid]);
      assert ([Start(w.es, x).es[0]] + w.es)[1..] == w.es;
      hide Startable, Logged, Run, Has;
    }
  }

  lemma StartLogged(lives: map<string, Life>, id: string, life: Life, f: Fork)
    requires f.id == id
    ensures Logged(lives[id := life], [f]) == lives[id := life.Forked(f)]
  {
    LogOne(lives[id := life], f);
  }

  /** Exactly a running entry is paused, and then resuming it gives back the very same registry. */
  lemma PauseThenResume(evs: seq<Event>, id: string, ok: bool)
    ensures var w := Run(EMPTY, evs);
            var p := Step(w, PauseEvent(id, ok));
            if Has(w.es, id) && EntryOf(w.es, id).state == Running && (ok || EntryOf(w.es, id).pid <= 0) then
              && Has(p.es, id) && EntryOf(p.es, id) == EntryOf(w.es, id).(state := Paused)
              && Step(p, ResumeEvent(id, true)) == w && SwitchReply(w.es, id, Running, ok) == Ok
            else
              && p == w
              && SwitchReply(w.es, id, Running, ok)
                 == (if !Has(w.es, id) then NoSuchWorkflow
                     else if EntryOf(w.es, id).state == Running then ProcessError else WrongState)
  {
    var w := Run(EMPTY, evs);
    RunKeepsInv(EMPTY, evs);
    var p := Step(w, PauseEvent(id, ok));
    var i := Index(w.es, id);
    if i < |w.es| && w.es[i].state == Running && (ok || w.es[i].pid <= 0) {
      TouchContinues(w, i, w.es[i].(state := Paused), id);
      TouchAllContinues(w.es, p.es, id);
      assert p.es[i := w.es[i]] == w.es;
    }
  }

  /** Exactly a paused entry is resumed, and while it is paused no exit belongs to it. */
  lemma ResumeTakesEffect(evs: seq<Event>, id: string, ok: bool, x: Exit)
    ensures var w := Run(EMPTY, evs);
            var r := Step(w, ResumeEvent(id, ok));
            && (if Has(w.es, id) && EntryOf(w.es, id).state == Paused && (ok || EntryOf(w.es, id).pid <= 0) then
                  r == w.(es := w.es[Index(w.es, id) := EntryOf(w.es, id).(state := Running)])
                else r == w)
            && (Has(w.es, id) && EntryOf(w.es, id).state == Paused ==> Reaped(w.es, x) != Index(w.es, id))
  {
  }

  /**
   An abandon flags the entry and changes nothing else. From then on, through any further run of the
   registration, nothing is forked for it and the flag stays; the next exit that belongs to it removes it.
   */
  lemma AbandonTakesEffect(evs: seq<Event>, id: string, after: seq<Event>, x: Exit, pid: int, now: int)
    ensures var w := Run(EMPTY, evs);
            var t := Step(w, AbandonEvent(id));
            if !Has(w.es, id) then t == w && forall ok :: AbandonReply(w.es, id, ok) == NoSuchWorkflow
            else
              && AbandonReply(w.es, id, true) == Ok
              && (AbandonReply(w.es, id, false) == ProcessError
                  <==> EntryOf(w.es, id).state == Running && EntryOf(w.es, id).pid > 0)
              && t == w.(es := w.es[Index(w.es, id) := EntryOf(w.es, id).(abandonRequested := true)])
              && id in w.lives
              && var u := Run(t, after);
                 Alive(u, id, w.lives[id].birth) ==>
                   && EntryOf(u.es, id).abandonRequested && u.lives[id] == w.lives[id]
                   && (Reaped(u.es, x) == Index(u.es, id) ==>
                         !Has(Step(u, ExitEvent(x, pid, now)).es, id)
                         && Step(u, ExitEvent(x, pid, now)).lives == u.lives)
  {
    RunKeepsInv(EMPTY, evs);
    var w := Run(EMPTY, evs);
    if Has(w.es, id) {
      var i := Index(w.es, id);
      var t := w.(es := w.es[i := w.es[i].(abandonRequested := true)]);
      assert t == Step(w, AbandonEvent(id));
      assert EntryOk(w, w.es[i]);
      TouchContinues(w, i, w.es[i].(abandonRequested := true), id);
      StepKeepsInv(w, AbandonEvent(id));
      hide *;
      FlagLasts(t, id, after, x, pid, now);
    }
  }

  lemma FlagLasts(t: World, id: string, after: seq<Event>, x: Exit, pid: int, now: int)
    requires Inv(t) && Has(t.es, id) && id in t.lives && EntryOf(t.es, id).abandonRequested
    ensures var u := Run(t, after);
            Alive(u, id, t.lives[id].birth) ==>
              && EntryOf(u.es, id).abandonRequested && u.lives[id] == t.lives[id]
              && (Reaped(u.es, x) == Index(u.es, id) ==>
                    !Has(Step(u, ExitEvent(x, pid, now)).es, id)
                    && Step(u, ExitEvent(x, pid, now)).lives == u.lives)
  {
    RunContinues(t, after, id, t.lives[id].birth);
    RunKeepsInv(t, after);
    var u := Run(t, after);
    if Alive(u, id, t.lives[id].birth) && Reaped(u.es, x) == Index(u.es, id) {
      hide Run, EntryOk;
      RemoveKeepsDistinct(u.es, Index(u.es, id));
    }
  }

  /**
   An exit record belongs to an entry if and only if the entry is running, the record carries the pid
   of its last fork that succeeded, and no entry in front of it is running with a child of that pid.
   */
  lemma ExitFindsChild(evs: seq<Event>, id: string, x: Exit)
    requires Has(Run(EMPTY, evs).es, id)
    ensures var w := Run(EMPTY, evs);
            var i := Index(w.es, id);
            && (forall e <- w.es :: e.id in w.lives)
            && (Reaped(w.es, x) == i <==>
                  && w.es[i].state == Running && x.pid == LastChild(w.lives[id].pids)
                  && forall j :: 0 <= j < i ==>
                       !(w.es[j].state == Running && x.pid == LastChild(w.lives[w.es[j].id].pids)))
  {
    RunKeepsInv(EMPTY, evs);
    var w := Run(EMPTY, evs);
    forall j | 0 <= j < |w.es|
      ensures EntryOk(w, w.es[j])
    {
    }
    hide Inv, Run, Backoff, LastChild, StateOk;
    ReapedIs(w.es, x, Index(w.es, id));
  }

  lemma ReapedIs(es: seq<Workflow>, x: Exit, i: nat)
    requires i < |es|
    ensures Reaped(es, x) == i
            <==> es[i].state == Running && es[i].pid == x.pid
                 && forall j :: 0 <= j < i ==> !(es[j].state == Running && es[j].pid == x.pid)
  {
  }

  /**
   What an exit record does: none belongs to it, and nothing changes; or the entry is removed, exactly
   where it is abandoned, the code is 0 or three retries are used up; or it is retried, with the next
   delay, and takes the new child's pid unless the fork failed.
   */
  lemma ExitTakesEffect(evs: seq<Event>, x: Exit, pid: int, now: int)
    ensures var w := Run(EMPTY, evs);
            var t := Step(w, ExitEvent(x, pid, now));
            var i := Reaped(w.es, x);
            if i == |w.es| then t == w
            else
              var e := w.es[i];
              && e.id in w.lives
              && if e.abandonRequested || x.code == 0 || e.retryCount == 3 then
                   t == w.(es := w.es[..i] + w.es[i + 1..])
                 else
                   && e.retryCount < 3
                   && t.es == w.es[i := e.(exitCode := x.code, retryCount := e.retryCount + 1, lastRetryTime := now,
                                           pid := if pid > 0 then pid else e.pid)]
                   && t.births == w.births
                   && var life := w.lives[e.id];
                      t.lives == w.lives[e.id := life.(delays := life.delays + [[5, 10, 20][e.retryCount]],
                                                       pids := life.pids + [pid])]
  {
    RunKeepsInv(EMPTY, evs);
    var w := Run(EMPTY, evs);
    var i := Reaped(w.es, x);
    if i < |w.es| {
      var e := w.es[i];
      assert EntryOk(w, e);
      hide Run, EntryOk, Backoff;
      if Retries(e, x) {
        RetryStep(w, x, pid, now);
        hide Step, Inv;
        RetriedFields(w.lives[e.id], e, x, pid, now);
      } else {
        RemovalStep(w, x, pid, now);
        hide Step, Inv;
      }
    }
  }

  lemma RemovalStep(w: World, x: Exit, pid: int, now: int)
    requires Reaped(w.es, x) < |w.es| && !Retries(w.es[Reaped(w.es, x)], x)
    ensures Step(w, ExitEvent(x, pid, now)) == w.(es := w.es[..Reaped(w.es, x)] + w.es[Reaped(w.es, x) + 1..])
  {
  }

  lemma RetriedFields(life: Life, e: Workflow, x: Exit, pid: int, now: int)
    requires e.retryCount < 3 && e.state == Running
    ensures Retried(e.(exitCode := x.code), pid, now)
            == e.(exitCode := x.code, retryCount := e.retryCount + 1, lastRetryTime := now,
                  pid := if pid > 0 then pid else e.pid)
    ensures life.Forked(Fork(e.id, Delay(e.retryCount + 1), pid))
            == life.(delays := life.delays + [[5, 10, 20][e.retryCount]], pids := life.pids + [pid])
  {
    FirstDelays();
  }

  lemma FirstDelays()
    ensures Delay(1) == 5 && Delay(2) == 10 && Delay(3) == 20
  {
    assert Pow2(1) == 2 * Pow2(0) && Pow2(2) == 2 * Pow2(1);
  }

  /**
   After a retry, the exit record of the new child belongs to the entry again, unless an entry in front
   of it runs with the same pid; where the fork failed, a record with the old pid does.
   */
  lemma RetriedChildIsFound(evs: seq<Event>, x: Exit, pid: int, now: int, y: Exit)
    requires var es := Run(EMPTY, evs).es;
             Reaped(es, x) < |es| && Retries(es[Reaped(es, x)], x)
    ensures var es := Run(EMPTY, evs).es;
            var i := Reaped(es, x);
            var t := Step(Run(EMPTY, evs), ExitEvent(x, pid, now));
            Reaped(t.es, y) == i <==>
              && y.pid == (if pid > 0 then pid else x.pid)
              && forall j :: 0 <= j < i ==> !(es[j].state == Running && es[j].pid == y.pid)
  {
    ExitTakesEffect(evs, x, pid, now);
    RunKeepsInv(EMPTY, evs);
    var w := Run(EMPTY, evs);
    var i := Reaped(w.es, x);
    assert EntryOk(w, w.es[i]);
    var t := Step(w, ExitEvent(x, pid, now));
    assert forall j :: 0 <= j < i ==> t.es[j] == w.es[j];
    hide Run, Step, Inv, EntryOk;
    ReapedIs(t.es, y, i);
  }

  /** Only starts that failed are ever pruned, and exactly those from before the cutoff. */
  lemma PruneTakesEffect(evs: seq<Event>, cutoff: int)
    ensures var w := Run(EMPTY, evs);
            var t := Step(w, PruneEvent(cutoff));
            && t.lives == w.lives
            && forall i :: 0 <= i < |w.es| ==>
                 var e := w.es[i];
                 && e.id in w.lives
                 && (e !in t.es <==> e.state == Failed && 0 < w.lives[e.id].started < cutoff)
                 && (e.state == Failed <==> |w.lives[e.id].pids| == 1 && w.lives[e.id].pids[0] < 0)
  {
    RunKeepsInv(EMPTY, evs);
    var w := Run(EMPTY, evs);
    PrunedIds(w.es, cutoff);
    forall i | 0 <= i < |w.es|
      ensures EntryOk(w, w.es[i])
    {
    }
  }

  // ---------------------------------------------------------------- the completion task

  /** The exit events of one call of the completion task. */
  function Exits(exits: seq<Exit>, k: nat, pids: nat -> int, clock: nat -> int): seq<Event> {
    if exits == [] then [] else [ExitEvent(exits[0], pids(k), clock(k))] + Exits(exits[1..], k + 1, pids, clock)
  }

  lemma {:induction false} LoggedAppend(lives: map<string, Life>, a: seq<Fork>, b: seq<Fork>)
    ensures Logged(lives, a + b) == Logged(Logged(lives, a), b)
    decreases |a|
  {
    if a == [] {
      assert a + b == b;
    } else {
      assert (a + b)[1..] == a[1..] + b;
      LoggedAppend(LogFork(lives, a[0]), a[1..], b);
    }
  }

  /** A call of the completion task is the run of its exit records in queue order, entries and logs alike. */
  lemma {:induction false} DrainIsRun(w: World, exits: seq<Exit>, k: nat, pids: nat -> int, clock: nat -> int)
    ensures var o := Drain(w.es, exits, k, pids, clock);
            Run(w, Exits(exits, k, pids, clock)) == World(o.es, Logged(w.lives, o.forks), w.births)
    decreases |exits|
  {
    hide Reap;
    if exits != [] {
      var evs := Exits(exits, k, pids, clock);
      assert evs[1..] == Exits(exits[1..], k + 1, pids, clock);
      var first := Reap(w.es, exits[0], pids(k), clock(k));
      DrainIsRun(Step(w, evs[0]), exits[1..], k + 1, pids, clock);
      LoggedAppend(w.lives, first.forks, Drain(first.es, exits[1..], k + 1, pids, clock).forks);
    }
  }

  /** Each exit record leaves every entry but the first running one with that pid unchanged. */
  lemma ReapTouchesOne(es: seq<Workflow>, x: Exit, pid: int, now: int, id: string)
    requires DistinctIds(es) && Has(es, id)
    requires Reaped(es, x) == |es| || es[Reaped(es, x)].id != id
    ensures var after := Reap(es, x, pid, now).es;
            DistinctIds(after) && Has(after, id) && EntryOf(after, id) == EntryOf(es, id)
  {
    var j := Reaped(es, x);
    if j < |es| {
      RemoveKeepsDistinct(es, j);
      OthersRemain(es, j, id);
      TouchContinues(World(es, map[], 0), j, Retried(es[j].(exitCode := x.code), pid, now), id);
    }
  }

  /** A whole drain leaves alone every entry that is not running or whose pid no record carries. */
  lemma {:induction false} DrainLeavesOthers(es: seq<Workflow>, exits: seq<Exit>, k: nat, pids: nat -> int,
                                             clock: nat -> int, id: string)
    requires DistinctIds(es) && Has(es, id)
    requires EntryOf(es, id).state != Running || forall x <- exits :: x.pid != EntryOf(es, id).pid
    ensures var after := Drain(es, exits, k, pids, clock).es;
            Has(after, id) && EntryOf(after, id) == EntryOf(es, id)
    decreases |exits|
  {
    if exits != [] {
      var x := exits[0];
      assert x in exits;
      var j := Reaped(es, x);
      if j < |es| && es[j].id == id {
        IndexIs(es, j);
        assert false;
      }
      ReapTouchesOne(es, x, pids(k), clock(k), id);
      DrainLeavesOthers(Reap(es, x, pids(k), clock(k)).es, exits[1..], k + 1, pids, clock, id);
    }
  }
}
