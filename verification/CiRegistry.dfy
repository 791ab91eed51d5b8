/**
 The CI registry of src/daemon/argo_registry.c: a bounded linked list of companion instances whose
 ports come from ten-port blocks, one block per role.
 */
module CiRegistry {
  import opened Chains
  import opened CStrings

  const MAX_CIS: nat := 50
  const NAME_MAX: nat := 32
  const ROLE_MAX: nat := 32
  const MODEL_MAX: nat := 64
  const BASE_PORT: int := 9000
  const PORTS_PER_ROLE: nat := 10
  const HOST: string := "localhost"

  /** ci_status_t; a loaded file can put any number there. */
  type Status = int
  const OFFLINE: Status := 0
  const STARTING: Status := 1
  const READY: Status := 2
  const BUSY: Status := 3
  const ERROR: Status := 4
  const SHUTDOWN: Status := 5

  datatype Ci = Ci(name: string, role: string, model: string, host: string, port: int,
                   status: Status, registeredAt: int, lastHeartbeat: int)

  datatype Reply = Success | Full | Exists | NotFound

  // ---------------------------------------------------------------- entries as a sequence

  predicate UniqueNames(cis: seq<Ci>) {
    forall i, j :: 0 <= i < j < |cis| ==> cis[i].name != cis[j].name
  }

  function FindFrom(cis: seq<Ci>, name: string, i: nat): (r: nat)
    requires i <= |cis|
    ensures i <= r <= |cis|
    ensures r < |cis| ==> cis[r].name == name
    ensures forall k :: i <= k < r ==> cis[k].name != name
    decreases |cis| - i
  {
    if i == |cis| || cis[i].name == name then i else FindFrom(cis, name, i + 1)
  }

  function Find(cis: seq<Ci>, name: string): (r: nat)
    ensures r <= |cis|
    ensures r < |cis| ==> cis[r].name == name
    ensures forall k :: 0 <= k < r ==> cis[k].name != name
  {
    FindFrom(cis, name, 0)
  }

  function NewCi(name: string, role: string, model: string, port: int, now: int): Ci {
    Ci(Cut(name, NAME_MAX), Cut(role, ROLE_MAX), Cut(model, MODEL_MAX), HOST, port, OFFLINE, now, now)
  }

  /** registry_add_ci compares the name as given, but stores it cut to the name buffer. */
  function AddReply(cis: seq<Ci>, name: string): Reply {
    if |cis| >= MAX_CIS then Full else if Find(cis, name) < |cis| then Exists else Success
  }

  function Add(cis: seq<Ci>, name: string, role: string, model: string, port: int, now: int): seq<Ci> {
    if AddReply(cis, name) == Success then [NewCi(name, role, model, port, now)] + cis else cis
  }

  ghost function Remove(cis: seq<Ci>, name: string): seq<Ci> {
    if Find(cis, name) < |cis| then Without(cis, Find(cis, name)) else cis
  }

  function SetStatus(cis: seq<Ci>, name: string, status: Status): (r: seq<Ci>)
    ensures |r| == |cis|
  {
    var i := Find(cis, name);
    if i < |cis| then cis[i := cis[i].(status := status)] else cis
  }

  function Beat(cis: seq<Ci>, name: string, now: int): (r: seq<Ci>)
    ensures |r| == |cis|
  {
    var i := Find(cis, name);
    if i < |cis| then cis[i := cis[i].(lastHeartbeat := now)] else cis
  }

  // ---------------------------------------------------------------- ports

  function RoleOffset(role: string): (r: nat)
    ensures r in {0, 10, 20, 30, 40}
  {
    if role == "builder" then 0
    else if role == "coordinator" then 10
    else if role == "requirements" then 20
    else if role == "analysis" then 30
    else 40
  }

  function Base(role: string): int {
    BASE_PORT + RoleOffset(role)
  }

  predicate InBlock(port: int, role: string) {
    Base(role) <= port < Base(role) + PORTS_PER_ROLE
  }

  predicate Held(cis: seq<Ci>, port: int) {
    exists k :: 0 <= k < |cis| && cis[k].port == port
  }

  /** The offset within the block of the first port nobody holds, from `i` on. */
  function FreeFrom(cis: seq<Ci>, base: int, i: nat): (r: nat)
    requires i <= PORTS_PER_ROLE
    ensures i <= r <= PORTS_PER_ROLE
    ensures r < PORTS_PER_ROLE ==> !Held(cis, base + r)
    ensures forall port :: base + i <= port < base + r ==> Held(cis, port)
    decreases PORTS_PER_ROLE - i
  {
    if i == PORTS_PER_ROLE || !Held(cis, base + i) then i else FreeFrom(cis, base, i + 1)
  }

  predicate Reclaimable(c: Ci, role: string) {
    c.status == OFFLINE && InBlock(c.port, role)
  }

  function ReclaimableFrom(cis: seq<Ci>, role: string, i: nat): (r: nat)
    requires i <= |cis|
    ensures i <= r <= |cis|
    ensures r < |cis| ==> Reclaimable(cis[r], role)
    ensures forall k :: i <= k < r ==> !Reclaimable(cis[k], role)
    decreases |cis| - i
  {
    if i == |cis| || Reclaimable(cis[i], role) then i else ReclaimableFrom(cis, role, i + 1)
  }

  datatype Allocation = Allocation(port: int, cis: seq<Ci>)

  /** registry_allocate_port: a free port, or the port of an offline entry, which is removed by name. */
  ghost function Allocate(cis: seq<Ci>, role: string): Allocation {
    var free := FreeFrom(cis, Base(role), 0);
    if free < PORTS_PER_ROLE then Allocation(Base(role) + free, cis)
    else
      var i := ReclaimableFrom(cis, role, 0);
      if i < |cis| then Allocation(cis[i].port, Remove(cis, cis[i].name)) else Allocation(-1, cis)
  }

  // ---------------------------------------------------------------- the linked list

  class Registry {
    var head: Node?<Ci>
    var count: nat
    ghost var spine: seq<Node<Ci>>

    ghost predicate Valid()
      reads this, spine
    {
      Chain(head, spine) && count == |spine|
    }

    ghost function Contents(): (r: seq<Ci>)
      reads this, spine
      ensures |r| == |spine|
    {
      Items(spine)
    }

    constructor ()
      ensures Valid() && Contents() == [] && spine == []
    {
      head, count, spine := null, 0, [];
    }

    method FindCi(name: string) returns (node: Node?<Ci>, ghost at: nat)
      requires Valid()
      ensures at == Find(Contents(), name)
      ensures node == NodeAt(spine, at)
      ensures node != null ==> node.item == Contents()[at]
      ensures node == null <==> Find(Contents(), name) == |Contents()|
      ensures node != null ==> node.item.name == name
    {
      node := head;
      at := 0;
      while node != null
        invariant at <= |spine| && node == NodeAt(spine, at)
        invariant Find(Contents(), name) == FindFrom(Contents(), name, at)
        decreases |spine| - at
      {
        if node.item.name == name {
          return;
        }
        node := node.next;
        at := at + 1;
      }
    }

    /** Link a new node in front. */
    method PushFront(ci: Ci) returns (node: Node<Ci>)
      requires Valid()
      modifies this
      ensures Valid() && fresh(node) && spine == [node] + old(spine)
      ensures Contents() == [ci] + old(Contents())
    {
      hide Chain, Items;
      node := Prepend(head, ci, spine);
      head := node;
      count := count + 1;
      spine := [node] + spine;
    }

    method AddCi(name: string, role: string, model: string, port: int, now: int)
      returns (r: Reply, ghost added: seq<Node<Ci>>)
      requires Valid()
      modifies this
      ensures Valid() && fresh(added) && spine == added + old(spine)
      ensures r == AddReply(old(Contents()), name)
      ensures Contents() == Add(old(Contents()), name, role, model, port, now)
    {
      hide Chain, Items, Find, NewCi;
      added := [];
      if count >= MAX_CIS {
        return Full, [];
      }
      var found, at := FindCi(name);
      if found != null {
        return Exists, [];
      }
      var node := PushFront(NewCi(name, role, model, port, now));
      added := [node];
      r := Success;
    }

    method SetCi(node: Node<Ci>, ghost at: nat, ci: Ci)
      requires Valid() && at < |spine| && node == spine[at]
      modifies node
      ensures Valid() && Contents() == old(Contents())[at := ci]
    {
      ghost var before := Contents();
      SetItem(node, ci, head, spine, at);
      assert Contents() == before[at := ci];
    }

    /** Take the node at `at`, whose predecessor is `prev`, out of the list. */
    method Drop(prev: Node?<Ci>, node: Node<Ci>, ghost at: nat)
      requires Valid() && at < |spine| && node == spine[at]
      requires prev == if at == 0 then null else spine[at - 1]
      modifies this, spine
      ensures Valid() && spine == Without(old(spine), at)
      ensures Contents() == Without(old(Contents()), at)
    {
      ghost var rest := Without(spine, at);
      hide Without, Items, Chain;
      var newHead := Unlink(head, prev, node, spine, at);
      head := newHead;
      count := count - 1;
      spine := rest;
    }

    method RemoveCi(name: string) returns (r: Reply)
      requires Valid()
      modifies this, spine
      ensures Valid() && forall n <- spine :: n in old(spine)
      ensures r == if Find(old(Contents()), name) < |old(Contents())| then Success else NotFound
      ensures Contents() == Remove(old(Contents()), name)
    {
      var prev: Node?<Ci> := null;
      var node := head;
      ghost var at := 0;
      while node != null
        invariant at <= |spine| && node == NodeAt(spine, at)
        invariant prev == if at == 0 then null else spine[at - 1]
        invariant Find(Contents(), name) == FindFrom(Contents(), name, at)
        invariant unchanged(this) && Contents() == old(Contents()) && Valid()
        decreases |spine| - at
      {
        if node.item.name == name {
          Drop(prev, node, at);
          return Success;
        }
        prev := node;
        node := node.next;
        at := at + 1;
      }
      r := NotFound;
    }

    /** registry_is_port_available */
    method IsPortAvailable(port: int) returns (free: bool)
      requires Valid()
      ensures free <==> !Held(Contents(), port)
    {
      var node := head;
      ghost var at := 0;
      while node != null
        invariant at <= |spine| && node == NodeAt(spine, at)
        invariant forall k :: 0 <= k < at ==> Contents()[k].port != port
        decreases |spine| - at
      {
        if node.item.port == port {
          assert Contents()[at].port == port;
          return false;
        }
        node := node.next;
        at := at + 1;
      }
      free := true;
    }

    /** reclaim_port_from_offline_ci */
    method Reclaim(role: string) returns (port: int)
      requires Valid()
      modifies this, spine
      ensures Valid() && forall n <- spine :: n in old(spine)
      ensures var cis, i := old(Contents()), ReclaimableFrom(old(Contents()), role, 0);
              if i < |cis| then port == cis[i].port && Contents() == Remove(cis, cis[i].name)
              else port == -1 && Contents() == cis
    {
      var base := BASE_PORT + RoleOffset(role);
      var rangeEnd := base + PORTS_PER_ROLE;
      var node := head;
      ghost var at := 0;
      while node != null
        invariant at <= |spine| && node == NodeAt(spine, at)
        invariant ReclaimableFrom(Contents(), role, 0) == ReclaimableFrom(Contents(), role, at)
        invariant unchanged(this) && Contents() == old(Contents()) && Valid()
        decreases |spine| - at
      {
        assert node.item == Contents()[at];
        if node.item.status == OFFLINE && node.item.port >= base && node.item.port < rangeEnd {
          port := node.item.port;
          var _ := RemoveCi(node.item.name);
          return;
        }
        node := node.next;
        at := at + 1;
      }
      port := -1;
    }

    /** registry_allocate_port */
    method AllocatePort(role: string) returns (port: int)
      requires Valid()
      modifies this, spine
      ensures Valid() && forall n <- spine :: n in old(spine)
      ensures Allocation(port, Contents()) == Allocate(old(Contents()), role)
    {
      var base := BASE_PORT + RoleOffset(role);
      for i := 0 to PORTS_PER_ROLE
        invariant FreeFrom(Contents(), base, 0) == FreeFrom(Contents(), base, i)
        invariant unchanged(this) && Contents() == old(Contents()) && Valid()
      {
        var free := IsPortAvailable(base + i);
        if free {
          return base + i;
        }
      }
      port := Reclaim(role);
      if port >= 0 {
        return;
      }
      port := -1;
    }

    method UpdateStatus(name: string, status: Status) returns (r: Reply)
      requires Valid()
      modifies spine
      ensures Valid()
      ensures r == if Find(old(Contents()), name) < |old(Contents())| then Success else NotFound
      ensures Contents() == SetStatus(old(Contents()), name, status)
    {
      var node, at := FindCi(name);
      if node == null {
        return NotFound;
      }
      SetCi(node, at, node.item.(status := status));
      r := Success;
    }

    method Heartbeat(name: string, now: int) returns (r: Reply)
      requires Valid()
      modifies spine
      ensures Valid()
      ensures r == if Find(old(Contents()), name) < |old(Contents())| then Success else NotFound
      ensures Contents() == Beat(old(Contents()), name, now)
    {
      var node, at := FindCi(name);
      if node == null {
        return NotFound;
      }
      SetCi(node, at, node.item.(lastHeartbeat := now));
      r := Success;
    }
  }
}
