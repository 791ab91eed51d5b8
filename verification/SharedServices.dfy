/**
 The periodic task table of src/daemon/argo_shared_services.c: up to 32 tasks, each run by the
 background thread once its interval has passed since its last run.
 */
module SharedServices {

  const MAX_TASKS: nat := 32
  /** A null task function. */
  const NO_FN: nat := 0

  datatype Task = Task(fn: nat, context: int, interval: int, lastRun: int, enabled: bool)

  /** The table: 32 slots of which the first `count` are in use, and the number of finished runs. */
  datatype Table = Table(slots: seq<Task>, count: nat, total: nat)

  datatype Reply = Success | InvalidParams | ResourceLimit | Duplicate | NotFound

  predicate ValidTable(t: Table) {
    |t.slots| == MAX_TASKS && t.count <= MAX_TASKS
  }

  // ---------------------------------------------------------------- the operations on the table

  function FindFrom(slots: seq<Task>, count: nat, fn: nat, i: nat): (r: nat)
    requires i <= count <= |slots|
    ensures i <= r <= count
    ensures r < count ==> slots[r].fn == fn
    ensures forall k :: i <= k < r ==> slots[k].fn != fn
    decreases count - i
  {
    if i == count || slots[i].fn == fn then i else FindFrom(slots, count, fn, i + 1)
  }

  /** The slot of the task with this function, or `count`. */
  function Find(t: Table, fn: nat): (r: nat)
    requires ValidTable(t)
    ensures r <= t.count
  {
    FindFrom(t.slots, t.count, fn, 0)
  }

  function RegisterReply(t: Table, fn: nat, interval: int): Reply
    requires ValidTable(t)
  {
    if fn == NO_FN || interval <= 0 then InvalidParams
    else if t.count >= MAX_TASKS then ResourceLimit
    else if Find(t, fn) < t.count then Duplicate
    else Success
  }

  function Register(t: Table, fn: nat, context: int, interval: int, now: int): (r: Table)
    requires ValidTable(t)
    ensures ValidTable(r)
  {
    if RegisterReply(t, fn, interval) == Success
    then t.(slots := t.slots[t.count := Task(fn, context, interval, now, true)], count := t.count + 1)
    else t
  }

  function LookupReply(t: Table, fn: nat): Reply
    requires ValidTable(t)
  {
    if fn == NO_FN then InvalidParams else if Find(t, fn) < t.count then Success else NotFound
  }

  /** The slots after moving those behind `at` up to `i` down by one. */
  function Shifted(slots: seq<Task>, at: nat, i: nat): (r: seq<Task>)
    requires at <= i < |slots|
    ensures |r| == |slots|
    ensures forall k :: 0 <= k < |r| ==> r[k] == slots[if at <= k < i then k + 1 else k]
  {
    slots[..at] + slots[at + 1..i + 1] + slots[i..]
  }

  /** Later tasks move down one slot; the last slot keeps its task, though no longer in use. */
  function Unregister(t: Table, fn: nat): (r: Table)
    requires ValidTable(t)
    ensures ValidTable(r)
  {
    if LookupReply(t, fn) == Success then
      var at := Find(t, fn);
      t.(slots := Shifted(t.slots, at, t.count - 1), count := t.count - 1)
    else t
  }

  function Enable(t: Table, fn: nat, enable: bool): (r: Table)
    requires ValidTable(t)
    ensures ValidTable(r)
  {
    if LookupReply(t, fn) == Success
    then t.(slots := t.slots[Find(t, fn) := t.slots[Find(t, fn)].(enabled := enable)])
    else t
  }

  predicate Due(task: Task, now: int) {
    task.enabled && now - task.lastRun >= task.interval
  }

  /** The bookkeeping after the task in slot `at` has run. */
  function Finished(t: Table, at: nat, clock: int): (r: Table)
    requires ValidTable(t) && at < MAX_TASKS
    ensures ValidTable(r)
  {
    t.(slots := t.slots[at := t.slots[at].(lastRun := clock)], total := t.total + 1)
  }

  /** The rest of an undisturbed pass from slot `at` on; `ends[i]` is the time read after slot i has run. */
  function Pass(t: Table, now: int, at: nat, ends: seq<int>): (r: Table)
    requires ValidTable(t) && at <= t.count && |ends| == MAX_TASKS
    ensures ValidTable(r) && r.count == t.count
    decreases t.count - at
  {
    if at == t.count then t
    else Pass(if Due(t.slots[at], now) then Finished(t, at, ends[at]) else t, now, at + 1, ends)
  }

  // ---------------------------------------------------------------- the table in place

  class Services {
    const tasks: array<Task>
    var taskCount: nat
    var totalRuns: nat

    ghost predicate Valid()
      reads this
    {
      tasks.Length == MAX_TASKS && taskCount <= MAX_TASKS
    }

    ghost function Contents(): (t: Table)
      requires Valid()
      reads this, tasks
      ensures ValidTable(t)
    {
      Table(tasks[..], taskCount, totalRuns)
    }

    constructor ()
      ensures Valid() && fresh(tasks) && taskCount == 0 && totalRuns == 0
    {
      tasks := new Task[MAX_TASKS](_ => Task(NO_FN, 0, 0, 0, false));
      taskCount, totalRuns := 0, 0;
    }

    method FindTask(fn: nat) returns (at: nat)
      requires Valid()
      ensures at == Find(Contents(), fn)
    {
      at := 0;
      while at < taskCount && tasks[at].fn != fn
        invariant at <= taskCount
        invariant FindFrom(tasks[..], taskCount, fn, at) == Find(Contents(), fn)
      {
        at := at + 1;
      }
    }

    /** shared_services_register_task at time `now` */
    method RegisterTask(fn: nat, context: int, interval: int, now: int) returns (reply: Reply)
      requires Valid()
      modifies this, tasks
      ensures Valid() && reply == RegisterReply(old(Contents()), fn, interval)
      ensures Contents() == Register(old(Contents()), fn, context, interval, now)
    {
      hide FindFrom;
      if fn == NO_FN || interval <= 0 {
        return InvalidParams;
      }
      if taskCount >= MAX_TASKS {
        return ResourceLimit;
      }
      var at := FindTask(fn);
      if at < taskCount {
        return Duplicate;
      }
      tasks[taskCount] := Task(fn, context, interval, now, true);
      taskCount := taskCount + 1;
      return Success;
    }

    /** The tasks behind slot `at` move down by one. */
    method ShiftDown(at: nat)
      requires Valid() && at < taskCount
      modifies tasks
      ensures tasks[..] == Shifted(old(tasks[..]), at, taskCount - 1)
    {
      ghost var slots := tasks[..];
      var i := at;
      while i < taskCount - 1
        invariant at <= i < taskCount
        invariant forall k :: 0 <= k < MAX_TASKS ==> tasks[k] == slots[if at <= k < i then k + 1 else k]
      {
        tasks[i] := tasks[i + 1];
        i := i + 1;
      }
      assert tasks[..] == Shifted(slots, at, i);
    }

    /** shared_services_unregister_task */
    method UnregisterTask(fn: nat) returns (reply: Reply)
      requires Valid()
      modifies this, tasks
      ensures Valid() && reply == LookupReply(old(Contents()), fn)
      ensures Contents() == Unregister(old(Contents()), fn)
    {
      hide Find;
      if fn == NO_FN {
        return InvalidParams;
      }
      ghost var t := Contents();
      var found := FindTask(fn);
      if found == taskCount {
        return NotFound;
      }
      ShiftDown(found);
      taskCount := taskCount - 1;
      return Success;
    }

    /** shared_services_enable_task */
    method EnableTask(fn: nat, enable: bool) returns (reply: Reply)
      requires Valid()
      modifies tasks
      ensures Valid() && reply == LookupReply(old(Contents()), fn)
      ensures Contents() == Enable(old(Contents()), fn, enable)
    {
      hide FindFrom;
      if fn == NO_FN {
        return InvalidParams;
      }
      var found := FindTask(fn);
      if found == taskCount {
        return NotFound;
      }
      tasks[found] := tasks[found].(enabled := enable);
      return Success;
    }

    /**
     One pass of the background thread over the table, with nobody taking the lock while tasks run:
     `now` was read before the pass, `ends[i]` is read after the task in slot i has run.
     */
    method RunPass(now: int, ends: seq<int>)
      requires Valid() && |ends| == MAX_TASKS
      modifies this, tasks
      ensures Valid() && Contents() == Pass(old(Contents()), now, 0, ends)
    {
      var i := 0;
      while i < taskCount
        invariant Valid() && taskCount == old(taskCount) && i <= taskCount
        invariant Pass(Contents(), now, i, ends) == Pass(old(Contents()), now, 0, ends)
      {
        var task := tasks[i];
        if task.enabled && now - task.lastRun >= task.interval {
          ghost var before := Contents();
          tasks[i] := task.(lastRun := ends[i]);
          totalRuns := totalRuns + 1;
          assert Contents() == Finished(before, i, ends[i]);
        }
        i := i + 1;
      }
    }
  }

  // ---------------------------------------------------------------- a pass

  /** A pass leaves earlier slots alone, and later slots as they are up to the time of their last run. */
  lemma {:induction false} PassKeeps(t: Table, now: int, at: nat, ends: seq<int>, k: nat)
    requires ValidTable(t) && at <= t.count && |ends| == MAX_TASKS && k < MAX_TASKS
    ensures var r := Pass(t, now, at, ends);
            var task := t.slots[k];
            r.slots[k] == if at <= k < t.count && task.enabled && now - task.lastRun >= task.interval
                          then task.(lastRun := ends[k]) else task
    decreases t.count - at
  {
    if at < t.count {
      PassKeeps(if Due(t.slots[at], now) then Finished(t, at, ends[at]) else t, now, at + 1, ends, k);
    }
  }

  /** After a pass no task is due at the time the pass began. */
  lemma NothingDueAfterPass(t: Table, now: int, ends: seq<int>)
    requires ValidTable(t) && |ends| == MAX_TASKS
    requires forall k :: 0 <= k < t.count ==> t.slots[k].interval > 0
    requires forall k :: 0 <= k < MAX_TASKS ==> now <= ends[k]
    ensures var r := Pass(t, now, 0, ends); forall k :: 0 <= k < r.count ==> !Due(r.slots[k], now)
  {
    forall k | 0 <= k < t.count
      ensures !Due(Pass(t, now, 0, ends).slots[k], now)
    {
      PassKeeps(t, now, 0, ends, k);
    }
  }
}
