/**
 The workflow registry of src/daemon/argo_workflow_registry.c: a singly linked list of entries with
 a count, changed in place. The first half describes it on the sequence of its entries.
 */
module WorkflowRegistry {
  import opened Chains
  import opened Wrappers

  datatype WorkflowState = Pending | Running | Paused | Completed | Failed | Abandoned

  datatype Workflow = Workflow(
    id: string, name: string, state: WorkflowState, pid: int, stdinPipe: int,
    startTime: int, endTime: int, exitCode: int, abandonRequested: bool,
    currentStep: int, totalSteps: int, timeoutSeconds: int,
    retryCount: nat, maxRetries: nat, lastRetryTime: int)

  datatype Status = Success | Duplicate | NotFound

  // ---------------------------------------------------------------- entries as a sequence

  /** The index of the first entry with this id from `i` on, or |es|. */
  function IndexFrom(es: seq<Workflow>, id: string, i: nat): (r: nat)
    requires i <= |es|
    ensures i <= r <= |es|
    ensures r < |es| ==> es[r].id == id
    ensures forall k :: i <= k < r ==> es[k].id != id
    decreases |es| - i
  {
    if i == |es| || es[i].id == id then i else IndexFrom(es, id, i + 1)
  }

  function Index(es: seq<Workflow>, id: string): (r: nat)
    ensures r <= |es|
    ensures r < |es| ==> es[r].id == id
    ensures forall k :: 0 <= k < r ==> es[k].id != id
  {
    IndexFrom(es, id, 0)
  }

  predicate Has(es: seq<Workflow>, id: string) {
    Index(es, id) < |es|
  }

  predicate DistinctIds(es: seq<Workflow>) {
    forall i, j :: 0 <= i < j < |es| ==> es[i].id != es[j].id
  }

  ghost function Remove(es: seq<Workflow>, id: string): seq<Workflow> {
    if Has(es, id) then Without(es, Index(es, id)) else es
  }

  predicate IsTerminal(s: WorkflowState) {
    s == Completed || s == Failed || s == Abandoned
  }

  /** An entry put into state `s` at time `now`; a terminal state sets the end time once. */
  function InState(e: Workflow, s: WorkflowState, now: int): Workflow {
    var e1 := e.(state := s);
    if IsTerminal(s) && e.endTime == 0 then e1.(endTime := now) else e1
  }

  /** Pruning drops an entry that ended, at a known time, before the cutoff. */
  predicate Prunable(e: Workflow, cutoff: int) {
    IsTerminal(e.state) && e.endTime > 0 && e.endTime < cutoff
  }

  function Pruned(es: seq<Workflow>, cutoff: int): seq<Workflow> {
    if es == [] then []
    else if Prunable(es[0], cutoff) then Pruned(es[1..], cutoff)
    else [es[0]] + Pruned(es[1..], cutoff)
  }

  function CountIn(es: seq<Workflow>, s: WorkflowState): nat {
    if es == [] then 0 else (if es[0].state == s then 1 else 0) + CountIn(es[1..], s)
  }

  /** The states of the entries. */
  function States(es: seq<Workflow>): seq<WorkflowState> {
    seq(|es|, i requires 0 <= i < |es| => es[i].state)
  }

  /** What is counted is how often the state occurs. */
  lemma {:induction false} CountIsNumber(es: seq<Workflow>, s: WorkflowState)
    ensures CountIn(es, s) == multiset(States(es))[s]
  {
    if es != [] {
      CountIsNumber(es[1..], s);
      assert States(es) == [es[0].state] + States(es[1..]);
    }
  }

  /** Several updates of the state of one entry, each with its time. */
  function InStates(e: Workflow, updates: seq<(WorkflowState, int)>): Workflow
    decreases |updates|
  {
    if updates == [] then e
    else
      var n := |updates| - 1;
      InState(InStates(e, updates[..n]), updates[n].0, updates[n].1)
  }

  /** An update to a final state, at a time other than 0. */
  predicate Ends(update: (WorkflowState, int)) {
    update.0 in {Completed, Failed, Abandoned} && update.1 != 0
  }

  /** However often the state is updated, the last state stays, and the end time is that of the first end. */
  lemma {:induction false} FirstEndCounts(e: Workflow, updates: seq<(WorkflowState, int)>, k: nat)
    requires e.endTime == 0 && k < |updates| && forall j :: 0 <= j < k ==> !Ends(updates[j])
    ensures var r := InStates(e, updates);
            && r.state == updates[|updates| - 1].0
            && (Ends(updates[k]) ==> r == e.(state := r.state, endTime := updates[k].1))
            && (k == |updates| - 1 && !Ends(updates[k]) ==> r == e.(state := r.state))
    decreases |updates|
  {
    var n := |updates| - 1;
    if n > 0 {
      FirstEndCounts(e, updates[..n], if k < n then k else n - 1);
    }
  }

  lemma RemoveKeepsDistinct(es: seq<Workflow>, i: nat)
    requires DistinctIds(es) && i < |es|
    ensures DistinctIds(Without(es, i))
    ensures !Has(Without(es, i), es[i].id)
  {
    var r := Without(es, i);
    forall a, b | 0 <= a < b < |r|
      ensures r[a].id != r[b].id
    {
      assert r[a] == es[if a < i then a else a + 1] && r[b] == es[if b < i then b else b + 1];
    }
    forall k | 0 <= k < |r|
      ensures r[k].id != es[i].id
    {
      assert r[k] == es[if k < i then k else k + 1];
    }
  }

  lemma AddKeepsDistinct(es: seq<Workflow>, e: Workflow)
    requires DistinctIds(es) && !Has(es, e.id)
    ensures DistinctIds([e] + es)
  {
    var r := [e] + es;
    assert forall k :: 0 <= k < |es| ==> r[k + 1] == es[k];
  }

  /** Where ids are distinct, the entry at `i` is the one found for its id. */
  lemma IndexIs(es: seq<Workflow>, i: nat)
    requires DistinctIds(es) && i < |es|
    ensures Index(es, es[i].id) == i
  {
    var r := Index(es, es[i].id);
    assert r <= i;
  }

  lemma {:induction false} PrunedIds(es: seq<Workflow>, cutoff: int)
    requires DistinctIds(es)
    ensures DistinctIds(Pruned(es, cutoff))
    ensures forall e :: e in Pruned(es, cutoff)
                        <==> e in es && !(e.state in {Completed, Failed, Abandoned} && 0 < e.endTime < cutoff)
  {
    if es != [] {
      PrunedIds(es[1..], cutoff);
      var rest := Pruned(es[1..], cutoff);
      assert es == [es[0]] + es[1..];
      forall k | 0 <= k < |rest|
        ensures rest[k].id != es[0].id
      {
        assert rest[k] in es[1..];
      }
    }
  }

  /** `at` lists, in order, where in `es` the entries of `part` are. */
  predicate Places(es: seq<Workflow>, part: seq<Workflow>, at: seq<nat>) {
    && |at| == |part|
    && (forall k :: 0 <= k < |at| ==> at[k] < |es| && part[k] == es[at[k]])
    && (forall j, k :: 0 <= j < k < |at| ==> at[j] < at[k])
  }

  function Shift(s: seq<nat>): (r: seq<nat>)
    ensures |r| == |s| && forall k :: 0 <= k < |s| ==> r[k] == s[k] + 1
    ensures forall i <- s :: i + 1 in r
  {
    var r := seq(|s|, k requires 0 <= k < |s| => s[k] + 1);
    assert forall k :: 0 <= k < |s| ==> r[k] == s[k] + 1;
    r
  }

  lemma PlacesShift(es: seq<Workflow>, part: seq<Workflow>, at: seq<nat>)
    requires es != [] && Places(es[1..], part, at)
    ensures Places(es, part, Shift(at))
  {
  }

  lemma PlacesCons(es: seq<Workflow>, part: seq<Workflow>, at: seq<nat>)
    requires es != [] && Places(es, part, at) && forall k :: 0 <= k < |at| ==> at[k] > 0
    ensures Places(es, [es[0]] + part, [0] + at)
  {
    var all, whole := [0] + at, [es[0]] + part;
    forall k | 0 <= k < |all|
      ensures all[k] < |es| && whole[k] == es[all[k]]
    {
      if k > 0 {
        assert all[k] == at[k - 1] && whole[k] == part[k - 1];
      }
    }
    forall j, k | 0 <= j < k < |all|
      ensures all[j] < all[k]
    {
      assert all[k] == at[k - 1];
      if j > 0 {
        assert at[j - 1] < at[k - 1];
      }
    }
  }

  /** Pruning keeps exactly the entries that are not prunable, in their order. */
  lemma {:induction false} PruneKeepsOrder(es: seq<Workflow>, cutoff: int) returns (kept: seq<nat>)
    ensures Places(es, Pruned(es, cutoff), kept)
    ensures forall i :: 0 <= i < |es| ==> (i in kept <==> !Prunable(es[i], cutoff))
  {
    kept := [];
    if es != [] {
      var rest := PruneKeepsOrder(es[1..], cutoff);
      PlacesShift(es, Pruned(es[1..], cutoff), rest);
      kept := Shift(rest);
      if !Prunable(es[0], cutoff) {
        PlacesCons(es, Pruned(es[1..], cutoff), kept);
        kept := [0] + kept;
      }
      forall i | 0 <= i < |es|
        ensures i in kept <==> !Prunable(es[i], cutoff)
      {
        KeptIff(es, cutoff, rest, kept, i);
      }
    }
  }

  lemma KeptIff(es: seq<Workflow>, cutoff: int, rest: seq<nat>, kept: seq<nat>, i: nat)
    requires i < |es|
    requires forall k :: 0 <= k < |es[1..]| ==> (k in rest <==> !Prunable(es[1..][k], cutoff))
    requires kept == (if Prunable(es[0], cutoff) then [] else [0]) + Shift(rest)
    ensures i in kept <==> !Prunable(es[i], cutoff)
  {
    hide Prunable;
    if i == 0 {
      assert 0 !in Shift(rest);
    } else {
      assert es[1..][i - 1] == es[i];
      assert i in Shift(rest) <==> i - 1 in rest;
    }
  }

  // ---------------------------------------------------------------- the linked list

  class Registry {
    var head: Node?<Workflow>
    var count: nat
    /** The nodes reachable from `head`, in order. */
    ghost var spine: seq<Node<Workflow>>

    ghost predicate Valid()
      reads this, spine
    {
      Chain(head, spine) && count == |spine| && DistinctIds(Contents())
    }

    ghost function Contents(): (r: seq<Workflow>)
      reads this, spine
      ensures |r| == |spine|
    {
      Items(spine)
    }

    constructor ()
      ensures Valid() && Contents() == [] && spine == []
    {
      head, count, spine := null, 0, [];
    }

    /** The node holding this id, with its place in the list, or null. */
    method FindNode(id: string) returns (node: Node?<Workflow>, ghost at: nat)
      requires Valid()
      ensures at == Index(Contents(), id)
      ensures node == null <==> !Has(Contents(), id)
      ensures node != null ==> at < |spine| && node == spine[at] && node.item == Contents()[at]
    {
      node := head;
      at := 0;
      while node != null
        invariant at <= |spine| && node == NodeAt(spine, at)
        invariant Index(Contents(), id) == IndexFrom(Contents(), id, at)
        decreases |spine| - at
      {
        if node.item.id == id {
          return;
        }
        node := node.next;
        at := at + 1;
      }
    }

    /** workflow_registry_add; `added` is the new node, if any. */
    method Add(entry: Workflow) returns (r: Status, ghost added: seq<Node<Workflow>>)
      requires Valid()
      modifies this
      ensures Valid() && fresh(added)
      ensures r == if Has(old(Contents()), entry.id) then Duplicate else Success
      ensures Contents() == (if r == Success then [entry] else []) + old(Contents())
      ensures spine == added + old(spine)
    {
      added := [];
      var found, at := FindNode(entry.id);
      if found != null {
        return Duplicate, [];
      }
      ghost var before := Contents();
      hide Chain, Items, DistinctIds;
      var node := Prepend(head, entry, spine);
      AddKeepsDistinct(before, entry);
      head := node;
      count := count + 1;
      added := [node];
      spine := [node] + spine;
      r := Success;
    }

    /** Replace the entry found at `at`. */
    method SetEntry(node: Node<Workflow>, ghost at: nat, entry: Workflow)
      requires Valid() && at < |spine| && node == spine[at] && entry.id == node.item.id
      modifies node
      ensures Valid() && Contents() == old(Contents())[at := entry]
    {
      ghost var before := Contents();
      SetItem(node, entry, head, spine, at);
      assert Contents() == before[at := entry];
    }

    method UpdateState(id: string, state: WorkflowState, now: int) returns (r: Status)
      requires Valid()
      modifies spine
      ensures Valid()
      ensures r == if Has(old(Contents()), id) then Success else NotFound
      ensures Contents() == if r == Success
                            then var i := Index(old(Contents()), id);
                                 old(Contents())[i := InState(old(Contents())[i], state, now)]
                            else old(Contents())
    {
      var node, at := FindNode(id);
      if node == null {
        return NotFound;
      }
      var entry := node.item.(state := state);
      if state == Completed || state == Failed || state == Abandoned {
        if entry.endTime == 0 {
          entry := entry.(endTime := now);
        }
      }
      SetEntry(node, at, entry);
      r := Success;
    }

    /** Take the node at `at`, whose predecessor is `prev`, out of the list. */
    method Drop(prev: Node?<Workflow>, node: Node<Workflow>, ghost at: nat)
      requires Valid() && at < |spine| && node == spine[at]
      requires prev == if at == 0 then null else spine[at - 1]
      modifies this, spine
      ensures Valid()
      ensures spine == Without(old(spine), at) && NodeAt(spine, at) == old(node.next)
      ensures Contents() == Without(old(Contents()), at)
    {
      ghost var before := Contents();
      ghost var rest := Without(spine, at);
      assert NodeAt(rest, at) == node.next;
      hide DistinctIds, Without, Items, Chain;
      RemoveKeepsDistinct(before, at);
      var newHead := Unlink(head, prev, node, spine, at);
      head := newHead;
      count := count - 1;
      spine := rest;
    }

    /** workflow_registry_remove */
    method RemoveEntry(id: string) returns (r: Status)
      requires Valid()
      modifies this, spine
      ensures Valid() && forall n <- spine :: n in old(spine)
      ensures r == if Has(old(Contents()), id) then Success else NotFound
      ensures Contents() == Remove(old(Contents()), id)
    {
      var prev: Node?<Workflow> := null;
      var node := head;
      ghost var at := 0;
      while node != null
        invariant at <= |spine| && node == NodeAt(spine, at)
        invariant prev == if at == 0 then null else spine[at - 1]
        invariant Index(Contents(), id) == IndexFrom(Contents(), id, at)
        invariant unchanged(this) && Contents() == old(Contents()) && Valid()
        decreases |spine| - at
      {
        if node.item.id == id {
          Drop(prev, node, at);
          return Success;
        }
        prev := node;
        node := node.next;
        at := at + 1;
      }
      r := NotFound;
    }

    /** workflow_registry_list: a copy of all entries, front to back. */
    method List() returns (entries: seq<Workflow>)
      requires Valid()
      ensures entries == Contents()
    {
      entries := [];
      var node := head;
      while node != null
        invariant |entries| <= |spine| && node == NodeAt(spine, |entries|)
        invariant entries == Contents()[..|entries|]
        decreases |spine| - |entries|
      {
        entries := entries + [node.item];
        node := node.next;
      }
    }

    /** workflow_registry_count; no state stands for the argument -1, which asks for all entries. */
    method CountState(state: Option<WorkflowState>) returns (n: nat)
      requires Valid()
      ensures n == if state.None? then |Contents()| else CountIn(Contents(), state.value)
    {
      if state.None? {
        return count;
      }
      n := 0;
      var node := head;
      ghost var at := 0;
      while node != null
        invariant at <= |spine| && node == NodeAt(spine, at)
        invariant n + CountIn(Contents()[at..], state.value) == CountIn(Contents(), state.value)
        decreases |spine| - at
      {
        assert Contents()[at..][1..] == Contents()[at + 1..];
        if node.item.state == state.value {
          n := n + 1;
        }
        node := node.next;
        at := at + 1;
      }
    }

    /** workflow_registry_prune */
    method Prune(olderThan: int) returns (pruned: nat)
      requires Valid()
      modifies this, spine
      ensures Valid() && forall n <- spine :: n in old(spine)
      ensures Contents() == Pruned(old(Contents()), olderThan)
      ensures pruned == |old(Contents())| - |Contents()|
    {
      assert Pruned([], olderThan) == [];
      StartOfChain(head, spine);
      hide DistinctIds, Items, Without, Pruned, Prunable, Chain;
      pruned := 0;
      var prev: Node?<Workflow> := null;
      var node := head;
      ghost var at := 0;
      assert Contents()[..0] == [] && Contents()[0..] == Contents();
      while node != null
        invariant Valid() && at <= |spine| && node == NodeAt(spine, at)
        invariant forall n <- spine :: n in old(spine)
        invariant prev == if at == 0 then null else spine[at - 1]
        invariant Contents()[..at] + Pruned(Contents()[at..], olderThan) == Pruned(old(Contents()), olderThan)
        invariant pruned == |old(Contents())| - |Contents()|
        decreases |spine| - at
      {
        ghost var before := Contents();
        PruneStep(before, at, olderThan);
        NextInChain(head, spine, at);
        var next := node.next;
        if Prunable(node.item, olderThan) {
          assert forall k :: 0 <= k < |spine| ==> spine[k] in old(spine);
          Drop(prev, node, at);
          pruned := pruned + 1;
        } else {
          prev := node;
          at := at + 1;
        }
        node := next;
      }
      assert Contents()[..at] == Contents() && Contents()[at..] == [];
    }
  }

  /** One round of the pruning loop, on the sequence. */
  lemma PruneStep(es: seq<Workflow>, at: nat, cutoff: int)
    requires at < |es|
    ensures es[..at] + Pruned(es[at..], cutoff)
            == if Prunable(es[at], cutoff)
               then Without(es, at)[..at] + Pruned(Without(es, at)[at..], cutoff)
               else es[..at + 1] + Pruned(es[at + 1..], cutoff)
  {
    assert es[at..][1..] == es[at + 1..];
    if Prunable(es[at], cutoff) {
      assert Without(es, at)[..at] == es[..at] && Without(es, at)[at..] == es[at + 1..];
    } else {
      assert es[..at + 1] == es[..at] + [es[at]];
      assert es[..at] + ([es[at]] + Pruned(es[at + 1..], cutoff)) == es[..at] + [es[at]] + Pruned(es[at + 1..], cutoff);
    }
  }
}
