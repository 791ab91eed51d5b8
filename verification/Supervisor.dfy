/**
 Workflow supervision: starting, pausing, resuming, abandoning, timing out and completing workflows
 (src/daemon/argo_daemon_workflow.c, _workflow_control.c, _workflow_api.c and _tasks.c). One handler
 or task call is one step on the registry; results of fork, pipe and kill and the clock are inputs.
 */
module Supervisor {
  import opened Chains
  import opened WorkflowRegistry
  import ExitQueue
  import opened Wrappers

  type Exit = ExitQueue.Exit

  const RETRY_BASE: nat := 5
  const MAX_RETRIES: nat := 3
  const TIMEOUT_SECONDS: nat := 3600
  const ID_MAX: nat := 63
  const NAME_SIZE: nat := 128

  function Pow2(n: nat): nat {
    if n == 0 then 1 else 2 * Pow2(n - 1)
  }

  /** The delay before the `k`-th retry. */
  function Delay(k: nat): nat
    requires k > 0
  {
    RETRY_BASE * Pow2(k - 1)
  }

  /** A fork that was attempted for an entry: how long the child sleeps first, and the result. */
  datatype Fork = Fork(id: string, delay: nat, pid: int)

  datatype Outcome = Outcome(es: seq<Workflow>, forks: seq<Fork>)

  datatype Reply = Ok | BadParameters | AlreadyExists | NoSuchWorkflow | WrongState | ProcessError | ForkFailed

  // ---------------------------------------------------------------- the steps

  /** What a caller and the system contribute to a start. */
  datatype StartInput = StartInput(id: string, script: string, safe: bool, pipeOk: bool, pipe: int, pid: int, now: int)

  function NewEntry(x: StartInput): Workflow {
    Workflow(x.id, if |x.script| < NAME_SIZE then x.script else x.script[..NAME_SIZE - 1],
             Pending, 0, 0, x.now, 0, 0, false, 0, 1, TIMEOUT_SECONDS, 0, MAX_RETRIES, 0)
  }

  lemma NewEntryId(x: StartInput)
    ensures NewEntry(x).id == x.id
  {
  }

  predicate Startable(es: seq<Workflow>, x: StartInput) {
    x.safe && 0 < |x.id| <= ID_MAX && !Has(es, x.id) && x.pipeOk
  }

  function Start(es: seq<Workflow>, x: StartInput): Outcome {
    if !Startable(es, x) then Outcome(es, [])
    else if x.pid < 0 then Outcome([InState(NewEntry(x), Failed, x.now)] + es, [Fork(x.id, 0, x.pid)])
    else Outcome([NewEntry(x).(state := Running, pid := x.pid, stdinPipe := x.pipe)] + es, [Fork(x.id, 0, x.pid)])
  }

  /** The code a start is answered with. */
  function StartReply(es: seq<Workflow>, x: StartInput): Reply {
    if !x.safe || |x.id| > ID_MAX || |x.id| == 0 then BadParameters
    else if Has(es, x.id) then AlreadyExists
    else if !x.pipeOk then ProcessError
    else if x.pid < 0 then ForkFailed
    else Ok
  }

  /** Pause and resume: move an entry from one state to another if the signal can be sent. */
  function Switch(es: seq<Workflow>, id: string, from: WorkflowState, to: WorkflowState, killOk: bool): seq<Workflow> {
    var i := Index(es, id);
    if i == |es| || es[i].state != from || (es[i].pid > 0 && !killOk) then es
    else es[i := es[i].(state := to)]
  }

  function SwitchReply(es: seq<Workflow>, id: string, from: WorkflowState, killOk: bool): Reply {
    var i := Index(es, id);
    if i == |es| then NoSuchWorkflow
    else if es[i].state != from then WrongState
    else if es[i].pid > 0 && !killOk then ProcessError
    else Ok
  }

  function AbandonReply(es: seq<Workflow>, id: string, killOk: bool): Reply {
    var i := Index(es, id);
    if i == |es| then NoSuchWorkflow
    else if es[i].pid > 0 && es[i].state == Running && !killOk then ProcessError
    else Ok
  }

  function Abandon(es: seq<Workflow>, id: string): seq<Workflow> {
    var i := Index(es, id);
    if i == |es| then es else es[i := es[i].(abandonRequested := true)]
  }

  predicate TimedOut(e: Workflow, now: int) {
    e.state == Running && e.timeoutSeconds != 0 && now - e.startTime > e.timeoutSeconds
  }

  function MarkTimeout(e: Workflow, now: int): Workflow {
    if TimedOut(e, now) then e.(abandonRequested := true) else e
  }

  function MarkTimeouts(es: seq<Workflow>, now: int): (r: seq<Workflow>)
    ensures |r| == |es| && forall i :: 0 <= i < |es| ==> r[i] == MarkTimeout(es[i], now)
  {
    seq(|es|, i requires 0 <= i < |es| => MarkTimeout(es[i], now))
  }

  /** The first running entry with this pid from `i` on, or |es|. */
  function RunningFrom(es: seq<Workflow>, pid: int, i: nat): (r: nat)
    requires i <= |es|
    ensures i <= r <= |es|
    ensures r < |es| ==> es[r].pid == pid && es[r].state == Running
    ensures forall k :: i <= k < r ==> !(es[k].pid == pid && es[k].state == Running)
    decreases |es| - i
  {
    if i == |es| || (es[i].pid == pid && es[i].state == Running) then i else RunningFrom(es, pid, i + 1)
  }

  /** An entry retried at `now`; the new child's pid is `pid` unless the fork failed. */
  function Retried(e: Workflow, pid: int, now: int): Workflow {
    var e1 := e.(retryCount := e.retryCount + 1, lastRetryTime := now);
    if pid > 0 then e1.(pid := pid, state := Running) else e1
  }

  /** One exit record taken from the queue; `pid` is the result of the fork, should there be one. */
  ghost function Reap(es: seq<Workflow>, x: Exit, pid: int, now: int): Outcome {
    var i := RunningFrom(es, x.pid, 0);
    if i == |es| then Outcome(es, [])
    else
      var e := es[i].(exitCode := x.code);
      if e.abandonRequested || x.code == 0 || e.retryCount >= e.maxRetries then Outcome(Without(es, i), [])
      else Outcome(es[i := Retried(e, pid, now)], [Fork(e.id, Delay(e.retryCount + 1), pid)])
  }

  /** The completion task: the records in queue order, the `k`-th with the `k`-th fork result and clock. */
  ghost function Drain(es: seq<Workflow>, exits: seq<Exit>, k: nat, pids: nat -> int, clock: nat -> int): Outcome
    decreases |exits|
  {
    if exits == [] then Outcome(es, [])
    else
      var first := Reap(es, exits[0], pids(k), clock(k));
      var rest := Drain(first.es, exits[1..], k + 1, pids, clock);
      Outcome(rest.es, first.forks + rest.forks)
  }

  // ---------------------------------------------------------------- the daemon

  class Daemon {
    const registry: Registry
    const queue: ExitQueue.Queue

    ghost predicate Valid()
      reads this, registry, registry.spine, queue, queue.entries
    {
      registry.Valid() && queue.Valid()
    }

    constructor ()
      ensures Valid() && fresh(registry) && fresh(queue) && fresh(queue.entries)
      ensures registry.Contents() == [] && ExitQueue.Contents(queue.Abs()) == []
    {
      registry := new Registry();
      queue := new ExitQueue.Queue();
    }

    /** daemon_execute_bash_workflow, in the parent; `x.pid` is what fork returned there. */
    method Execute(x: StartInput) returns (reply: Reply, forks: seq<Fork>)
      requires registry.Valid() && x.pid != 0
      modifies registry, registry.spine
      ensures registry.Valid()
      ensures Outcome(registry.Contents(), forks) == Start(old(registry.Contents()), x)
      ensures reply == StartReply(old(registry.Contents()), x)
      ensures reply == Ok <==> Startable(old(registry.Contents()), x) && x.pid > 0
    {
      ghost var before := registry.Contents();
      hide DistinctIds, Chain, Items, Index, Has, InState, NewEntry;
      forks := [];
      if !x.safe {
        return BadParameters, [];
      }
      if |x.id| > ID_MAX || |x.id| == 0 {
        return BadParameters, [];
      }
      var entry := NewEntry(x);
      NewEntryId(x);
      var added, nodes := registry.Add(entry);
      if added != Success {
        return AlreadyExists, [];
      }
      reply, forks := Spawn(x, entry, before);
    }

    /** The pipe and the fork for the entry just added. */
    method Spawn(x: StartInput, ghost entry: Workflow, ghost before: seq<Workflow>)
      returns (reply: Reply, forks: seq<Fork>)
      requires registry.Valid() && registry.Contents() == [entry] + before && entry.id == x.id && x.pid != 0
      modifies registry, registry.spine
      ensures registry.Valid()
      ensures reply == if !x.pipeOk then ProcessError else if x.pid < 0 then ForkFailed else Ok
      ensures forks == if x.pipeOk then [Fork(x.id, 0, x.pid)] else []
      ensures registry.Contents()
              == if !x.pipeOk then before
                 else if x.pid < 0 then [InState(entry, Failed, x.now)] + before
                 else [entry.(state := Running, pid := x.pid, stdinPipe := x.pipe)] + before
    {
      hide DistinctIds, Chain, Items, Index, Has, Without, InState;
      FrontIsFirst(entry, before, InState(entry, Failed, x.now));
      if !x.pipeOk {
        var _ := registry.RemoveEntry(x.id);
        return ProcessError, [];
      }
      forks := [Fork(x.id, 0, x.pid)];
      if x.pid < 0 {
        var _ := registry.UpdateState(x.id, Failed, x.now);
        return ForkFailed, forks;
      }
      Launch(x, entry, before);
      reply := Ok;
    }

    /** The parent's side after a successful fork. */
    method Launch(x: StartInput, ghost entry: Workflow, ghost before: seq<Workflow>)
      requires registry.Valid() && registry.Contents() == [entry] + before && entry.id == x.id
      modifies registry.spine
      ensures registry.Valid()
      ensures registry.Contents() == [entry.(state := Running, pid := x.pid, stdinPipe := x.pipe)] + before
    {
      hide DistinctIds, Chain, Items, Index, Has;
      ghost var running := entry.(state := Running);
      FrontIsFirst(entry, before, running);
      var _ := registry.UpdateState(x.id, Running, x.now);
      FrontIsFirst(running, before, running.(pid := x.pid, stdinPipe := x.pipe));
      var found, at := registry.FindNode(x.id);
      if found != null {
        registry.SetEntry(found, at, found.item.(pid := x.pid, stdinPipe := x.pipe));
      }
    }

    /** api_workflow_pause and api_workflow_resume differ in the states and the signal only. */
    method SwitchState(id: string, from: WorkflowState, to: WorkflowState, killOk: bool) returns (reply: Reply)
      requires registry.Valid()
      modifies registry.spine
      ensures registry.Valid()
      ensures registry.Contents() == Switch(old(registry.Contents()), id, from, to, killOk)
      ensures reply == SwitchReply(old(registry.Contents()), id, from, killOk)
    {
      var node, at := registry.FindNode(id);
      if node == null {
        return NoSuchWorkflow;
      }
      if node.item.state != from {
        return WrongState;
      }
      if node.item.pid > 0 && !killOk {
        return ProcessError;
      }
      registry.SetEntry(node, at, node.item.(state := to));
      reply := Ok;
    }

    method Pause(id: string, killOk: bool) returns (reply: Reply)
      requires registry.Valid()
      modifies registry.spine
      ensures registry.Valid()
      ensures registry.Contents() == Switch(old(registry.Contents()), id, Running, Paused, killOk)
      ensures reply == SwitchReply(old(registry.Contents()), id, Running, killOk)
    {
      reply := SwitchState(id, Running, Paused, killOk);
    }

    method Resume(id: string, killOk: bool) returns (reply: Reply)
      requires registry.Valid()
      modifies registry.spine
      ensures registry.Valid()
      ensures registry.Contents() == Switch(old(registry.Contents()), id, Paused, Running, killOk)
      ensures reply == SwitchReply(old(registry.Contents()), id, Paused, killOk)
    {
      reply := SwitchState(id, Paused, Running, killOk);
    }

    /** api_workflow_abandon: the flag is set even when the signal cannot be sent. */
    method AbandonWorkflow(id: string, killOk: bool) returns (reply: Reply)
      requires registry.Valid()
      modifies registry.spine
      ensures registry.Valid()
      ensures registry.Contents() == Abandon(old(registry.Contents()), id)
      ensures reply == AbandonReply(old(registry.Contents()), id, killOk)
    {
      var node, at := registry.FindNode(id);
      if node == null {
        return NoSuchWorkflow;
      }
      var entry := node.item;
      registry.SetEntry(node, at, entry.(abandonRequested := true));
      if entry.pid > 0 && entry.state == Running && !killOk {
        return ProcessError;
      }
      reply := Ok;
    }

    /** workflow_timeout_task */
    method TimeoutTask(now: int)
      requires registry.Valid()
      modifies registry.spine
      ensures registry.Valid()
      ensures registry.Contents() == MarkTimeouts(old(registry.Contents()), now)
      ensures forall i :: 0 <= i < |old(registry.Contents())| ==>
                var e := old(registry.Contents())[i];
                registry.Contents()[i]
                == if e.state == Running && e.timeoutSeconds != 0 && now > e.startTime + e.timeoutSeconds
                   then e.(abandonRequested := true) else e
    {
      ghost var before := registry.Contents();
      var entries := registry.List();
      for i := 0 to |entries|
        invariant registry.Valid() && unchanged(registry)
        invariant entries == before
        invariant |registry.Contents()| == |before|
        invariant forall k :: 0 <= k < |before| ==>
          registry.Contents()[k] == if k < i then MarkTimeout(before[k], now) else before[k]
      {
        var entry := entries[i];
        if entry.state == Running && entry.timeoutSeconds != 0 && now - entry.startTime > entry.timeoutSeconds {
          IndexIs(registry.Contents(), i);
          var found, at := registry.FindNode(entry.id);
          if found != null {
            registry.SetEntry(found, at, found.item.(abandonRequested := true));
          }
        }
      }
      assert registry.Contents() == MarkTimeouts(before, now);
    }

    /** The body of workflow_completion_task's drain loop. */
    method ReapOne(x: Exit, pid: int, now: int) returns (forks: seq<Fork>)
      requires registry.Valid()
      modifies registry, registry.spine
      ensures registry.Valid() && forall n <- registry.spine :: n in old(registry.spine)
      ensures Outcome(registry.Contents(), forks) == Reap(old(registry.Contents()), x, pid, now)
    {
      hide DistinctIds, Chain, Items, IndexFrom, Without;
      forks := [];
      ghost var before := registry.Contents();
      var entries := registry.List();
      var i := 0;
      while i < |entries|
        invariant 0 <= i <= |entries| && unchanged(registry) && registry.Contents() == before && registry.Valid()
        invariant RunningFrom(before, x.pid, 0) == RunningFrom(before, x.pid, i)
      {
        var entry := entries[i];
        if entry.pid == x.pid && entry.state == Running {
          forks := Settle(entry.id, i, x.code, pid, now);
          return;
        }
        i := i + 1;
      }
    }

    /** What an exit does to the entry it belongs to. */
    method Settle(id: string, ghost i: nat, code: int, pid: int, now: int) returns (forks: seq<Fork>)
      requires registry.Valid() && i < |registry.Contents()|
      requires registry.Contents()[i].id == id && registry.Contents()[i].state == Running
      modifies registry, registry.spine
      ensures registry.Valid() && forall n <- registry.spine :: n in old(registry.spine)
      ensures var es := old(registry.Contents());
              var e := es[i].(exitCode := code);
              if e.abandonRequested || code == 0 || e.retryCount >= e.maxRetries
              then registry.Contents() == Without(es, i) && forks == []
              else registry.Contents() == es[i := Retried(e, pid, now)]
                   && forks == [Fork(e.id, Delay(e.retryCount + 1), pid)]
    {
      ghost var before := registry.Contents();
      ghost var marked := before[i := before[i].(exitCode := code)];
      assert Without(marked, i) == Without(before, i);
      hide DistinctIds, Chain, Items, IndexFrom, Without;
      IndexIs(before, i);
      var node, at := registry.FindNode(id);
      registry.SetEntry(node, at, node.item.(exitCode := code));
      IndexIs(marked, i);
      forks := [];
      if node.item.abandonRequested {
        var _ := registry.RemoveEntry(id);
      } else if code == 0 {
        var _ := registry.RemoveEntry(id);
      } else {
        forks := HandleFailure(id, pid, now);
      }
    }

    /** handle_workflow_failure with retry_workflow_execution, in the parent. */
    method HandleFailure(id: string, pid: int, now: int) returns (forks: seq<Fork>)
      requires registry.Valid() && Has(registry.Contents(), id)
      requires registry.Contents()[Index(registry.Contents(), id)].state == Running
      modifies registry, registry.spine
      ensures registry.Valid() && forall n <- registry.spine :: n in old(registry.spine)
      ensures var es, i := old(registry.Contents()), Index(old(registry.Contents()), id);
              if es[i].retryCount < es[i].maxRetries
              then registry.Contents() == es[i := Retried(es[i], pid, now)]
                   && forks == [Fork(id, Delay(es[i].retryCount + 1), pid)]
              else registry.Contents() == Without(es, i) && forks == []
    {
      ghost var before := registry.Contents();
      hide DistinctIds, Chain, Items;
      var node, at := registry.FindNode(id);
      if node.item.retryCount < node.item.maxRetries {
        var fork := Retry(node, at, pid, now);
        forks := [fork];
      } else {
        forks := [];
        var _ := registry.RemoveEntry(id);
      }
    }

    /** The retrying branch of a failure. */
    method Retry(node: Node<Workflow>, ghost at: nat, pid: int, now: int) returns (fork: Fork)
      requires registry.Valid() && at < |registry.spine| && node == registry.spine[at]
      requires registry.Contents()[at].state == Running
      modifies registry.spine
      ensures registry.Valid()
      ensures var e := old(registry.Contents())[at];
              && registry.Contents() == old(registry.Contents())[at := Retried(e, pid, now)]
              && fork == Fork(e.id, Delay(e.retryCount + 1), pid)
    {
      ghost var before := registry.Contents();
      assert node.item == before[at];
      var id := node.item.id;
      var entry := node.item.(retryCount := node.item.retryCount + 1, lastRetryTime := now);
      hide DistinctIds, Chain, Items, IndexFrom, Pow2;
      registry.SetEntry(node, at, entry);
      fork := Fork(id, RETRY_BASE * Pow2(entry.retryCount - 1), pid);
      if pid > 0 {
        LastUpdateCounts(before, at, entry, Retried(before[at], pid, now));
        Adopt(node, at, pid, now);
      }
    }

    /** The parent's side after a successful fork for a retry. */
    method Adopt(node: Node<Workflow>, ghost at: nat, pid: int, now: int)
      requires registry.Valid() && at < |registry.spine| && node == registry.spine[at]
      modifies registry.spine
      ensures registry.Valid()
      ensures registry.Contents()
              == old(registry.Contents())[at := old(registry.Contents())[at].(pid := pid, state := Running)]
    {
      ghost var before := registry.Contents();
      assert node.item == before[at];
      var child := node.item.(pid := pid);
      hide DistinctIds, Chain, Items, IndexFrom;
      registry.SetEntry(node, at, child);
      IndexIs(registry.Contents(), at);
      LastUpdateCounts(before, at, child, child.(state := Running));
      var _ := registry.UpdateState(child.id, Running, now);
    }

    /** workflow_completion_task */
    method CompletionTask(pids: nat -> int, clock: nat -> int) returns (forks: seq<Fork>)
      requires Valid()
      modifies registry, registry.spine, queue, queue.entries
      ensures Valid() && ExitQueue.Contents(queue.Abs()) == [] && queue.dropped == 0
      ensures Outcome(registry.Contents(), forks)
              == Drain(old(registry.Contents()), old(ExitQueue.Contents(queue.Abs())), 0, pids, clock)
    {
      hide Reap, Drain, After, DistinctIds, Chain, Items, ExitQueue.Sound, ExitQueue.Contents;
      ghost var es := registry.Contents();
      var _ := queue.GetDropped();
      forks := [];
      ghost var all := ExitQueue.Contents(queue.Abs());
      var popped := queue.Pop();
      assert all == Popped(popped) + ExitQueue.Contents(queue.Abs());
      var n: nat := 0;
      AfterNothing(Drain(es, all, 0, pids, clock));
      while popped.Some?
        invariant Valid() && queue.dropped == 0
        invariant forall i :: 0 <= i < |registry.spine| ==> registry.spine[i] in old(registry.spine)
        invariant popped.None? ==> ExitQueue.Contents(queue.Abs()) == []
        invariant Drain(es, all, 0, pids, clock)
                  == After(forks, Drain(registry.Contents(), Popped(popped) + ExitQueue.Contents(queue.Abs()),
                                        n, pids, clock))
        decreases |ExitQueue.Contents(queue.Abs())|, popped.Some?
      {
        ghost var left := ExitQueue.Contents(queue.Abs());
        DrainStep(forks, registry.Contents(), popped.value, left, n, pids, clock);
        ghost var nodes := registry.spine;
        var more := ReapOne(popped.value, pids(n), clock(n));
        assert forall i :: 0 <= i < |registry.spine| ==> registry.spine[i] in nodes;
        forks := forks + more;
        n := n + 1;
        popped := queue.Pop();
        assert left == Popped(popped) + ExitQueue.Contents(queue.Abs());
      }
      DrainNothing(forks, registry.Contents(), n, pids, clock);
      assert Popped(popped) + ExitQueue.Contents(queue.Abs()) == [];
    }
  }

  lemma FrontIsFirst(e: Workflow, es: seq<Workflow>, x: Workflow)
    ensures Index([e] + es, e.id) == 0 && Has([e] + es, e.id) && Without([e] + es, 0) == es
    ensures ([e] + es)[0] == e && ([e] + es)[0 := x] == [x] + es
  {
    assert ([e] + es)[0].id == e.id;
  }

  lemma LastUpdateCounts(es: seq<Workflow>, i: nat, a: Workflow, b: Workflow)
    requires i < |es|
    ensures es[i := a][i := b] == es[i := b]
  {
  }

  function Popped(popped: Option<Exit>): seq<Exit> {
    if popped.Some? then [popped.value] else []
  }

  function After(forks: seq<Fork>, o: Outcome): Outcome {
    Outcome(o.es, forks + o.forks)
  }

  lemma AfterNothing(o: Outcome)
    ensures After([], o) == o
  {
    assert [] + o.forks == o.forks;
  }

  lemma DrainStep(forks: seq<Fork>, es: seq<Workflow>, x: Exit, rest: seq<Exit>, k: nat, pids: nat -> int,
                  clock: nat -> int)
    ensures var first := Reap(es, x, pids(k), clock(k));
            After(forks, Drain(es, [x] + rest, k, pids, clock))
            == After(forks + first.forks, Drain(first.es, rest, k + 1, pids, clock))
  {
    hide Reap;
    var first := Reap(es, x, pids(k), clock(k));
    assert ([x] + rest)[1..] == rest;
    var more := Drain(first.es, rest, k + 1, pids, clock).forks;
    assert forks + (first.forks + more) == forks + first.forks + more;
  }

  lemma DrainNothing(forks: seq<Fork>, es: seq<Workflow>, k: nat, pids: nat -> int, clock: nat -> int)
    ensures After(forks, Drain(es, [], k, pids, clock)) == Outcome(es, forks)
  {
    assert forks + [] == forks;
  }
}
