/**
 What depends on names fitting their buffers of 32 bytes: with such names the two stores agree, ports
 are distinct and a create never finds the registry full.
 */
module CiNames {
  import opened Chains
  import opened CiPorts
  import opened CiRegistry
  import opened CiRuns
  import opened CStrings
  import opened Lifecycle
  import opened Wrappers

  /** The name fits the name buffers of both stores. */
  predicate Fits(name: string) {
    |name| <= 31
  }

  /** The instance of the same name has the same status. */
  predicate Agrees(cis: seq<Instance>, c: Ci) {
    var i := Seek(cis, c.name);
    i < |cis| && cis[i].status == c.status
  }

  predicate AllAgree(cis: seq<Instance>, registry: seq<Ci>) {
    forall k :: 0 <= k < |registry| ==> Agrees(cis, registry[k])
  }

  predicate RegistryOk(registry: seq<Ci>) {
    UniqueNames(registry) && DistinctPorts(registry) && InTheirBlocks(registry)
  }

  predicate Inv(s: Stores) {
    UniqueInstances(s.cis) && RegistryOk(s.registry) && AllAgree(s.cis, s.registry)
  }

  lemma SetStatusKeepsRegistry(registry: seq<Ci>, name: string, status: Status)
    requires RegistryOk(registry)
    ensures RegistryOk(SetStatus(registry, name, status))
    ensures var after := SetStatus(registry, name, status);
            forall k :: 0 <= k < |registry| ==>
              after[k] == if registry[k].name == name then registry[k].(status := status) else registry[k]
  {
    var i := Find(registry, name);
    if i < |registry| {
      assert forall k :: 0 <= k < |registry| && k != i ==> registry[k].name != name;
    }
  }

  lemma MoveKeepsInv(s: Stores, name: string, status: Status, event: Event, reason: Option<string>, now: int)
    requires Inv(s) && Known(s, name)
    ensures Inv(Move(s, name, status, event, reason, now))
  {
    var t := Move(s, name, status, event, reason, now);
    SetStatusKeepsRegistry(s.registry, name, status);
    forall k | 0 <= k < |t.registry|
      ensures Agrees(t.cis, t.registry[k])
    {
      assert Agrees(s.cis, s.registry[k]);
      SeekSame(s.cis, t.cis, s.registry[k].name);
    }
  }

  lemma TouchKeepsInv(s: Stores, i: nat, c: Instance)
    requires Inv(s) && Touches(s, i, c)
    ensures Inv(Touched(s, i, c))
  {
    var cis := s.cis[i := c];
    forall k | 0 <= k < |s.registry|
      ensures Agrees(cis, s.registry[k])
    {
      assert Agrees(s.cis, s.registry[k]);
      SeekSame(s.cis, cis, s.registry[k].name);
    }
  }

  lemma BeatKeepsInv(s: Stores, name: string, now: int)
    requires Inv(s)
    ensures Inv(Beaten(s, name, now))
  {
    var registry := Beat(s.registry, name, now);
    assert forall k :: 0 <= k < |registry| ==>
      registry[k].name == s.registry[k].name && registry[k].port == s.registry[k].port
      && registry[k].role == s.registry[k].role && registry[k].status == s.registry[k].status;
    forall k | 0 <= k < |registry|
      ensures Agrees(s.cis, registry[k])
    {
      assert Agrees(s.cis, s.registry[k]);
    }
  }

  /** What allocation leaves of a sound registry is sound, and has room for the port handed out. */
  lemma AllocateKeeps(cis: seq<Instance>, registry: seq<Ci>, role: string)
    requires RegistryOk(registry) && AllAgree(cis, registry)
    ensures var a := Allocate(registry, role);
            RegistryOk(a.cis) && AllAgree(cis, a.cis)
            && (a.port >= 0 ==> InBlock(a.port, role) && !Held(a.cis, a.port) && |a.cis| < MAX_CIS)
  {
    AllocationFailsExactly(registry, role);
    var a := Allocate(registry, role);
    if a.port >= 0 {
      if FreeFrom(registry, Base(role), 0) == PORTS_PER_ROLE {
        var i := ReclaimableFrom(registry, role, 0);
        FindIs(registry, i);
        WithoutKeeps(cis, registry, i);
      }
      AllocatedPortIsFree(registry, role);
      RoomForOneMore(a.cis, a.port, role);
    }
  }

  lemma WithoutKeeps(cis: seq<Instance>, registry: seq<Ci>, i: nat)
    requires RegistryOk(registry) && AllAgree(cis, registry) && i < |registry|
    ensures RegistryOk(Without(registry, i)) && AllAgree(cis, Without(registry, i))
  {
    var rest := Without(registry, i);
    forall a, b | 0 <= a < b < |rest|
      ensures rest[a].name != rest[b].name && rest[a].port != rest[b].port
    {
      assert rest[a] == registry[if a < i then a else a + 1] && rest[b] == registry[if b < i then b else b + 1];
    }
    forall a | 0 <= a < |rest|
      ensures InBlock(rest[a].port, rest[a].role) && Agrees(cis, rest[a])
    {
      assert rest[a] == registry[if a < i then a else a + 1];
    }
  }

  lemma AddKeepsRegistry(registry: seq<Ci>, c: Ci)
    requires RegistryOk(registry) && InBlock(c.port, c.role) && !Held(registry, c.port)
    requires forall k :: 0 <= k < |registry| ==> registry[k].name != c.name
    ensures RegistryOk([c] + registry)
  {
    var all := [c] + registry;
    forall i, j | 0 <= i < j < |all|
      ensures all[i].name != all[j].name && all[i].port != all[j].port
    {
      assert all[j] == registry[j - 1];
      if i > 0 {
        assert all[i] == registry[i - 1];
      }
    }
    forall i | 0 <= i < |all|
      ensures InBlock(all[i].port, all[i].role)
    {
      if i > 0 {
        assert all[i] == registry[i - 1];
      }
    }
  }

  lemma AppendAgrees(cis: seq<Instance>, c: Instance, registry: seq<Ci>)
    requires AllAgree(cis, registry)
    ensures AllAgree(cis + [c], registry)
  {
    forall k | 0 <= k < |registry|
      ensures Agrees(cis + [c], registry[k])
    {
      assert Agrees(cis, registry[k]);
      var i := Seek(cis, registry[k].name);
      assert (cis + [c])[i] == cis[i];
      SeekIs(cis + [c], i);
    }
  }

  /**
   Creating an instance whose name fits the buffers: it succeeds whenever the name is new and the
   block is not exhausted; the registry is never full, and never holds the name already.
   */
  lemma CreateWorks(s: Stores, name: string, role: string, model: string, now: int)
    requires Inv(s) && Fits(name)
    ensures var e := Create(s, name, role, model, now);
            && Inv(e.stores)
            && e.code == (if Known(s, name) then Invalid else if Exhausted(s.registry, role) then NoPort else Done)
  {
    AllocationFailsExactly(s.registry, role);
    AllocateKeeps(s.cis, s.registry, role);
    var a := Allocate(s.registry, role);
    if !Known(s, name) && a.port >= 0 {
      forall k | 0 <= k < |a.cis|
        ensures a.cis[k].name != name
      {
        assert Agrees(s.cis, a.cis[k]);
      }
      CutRoleSameBlock(role);
      AddedKeepsInv(s.cis, a.cis, name, role, model, a.port, now);
    }
  }

  lemma AddedKeepsInv(cis: seq<Instance>, registry: seq<Ci>, name: string, role: string, model: string,
                      port: int, now: int)
    requires UniqueInstances(cis) && RegistryOk(registry) && AllAgree(cis, registry)
    requires Fits(name) && Seek(cis, name) == |cis|
    requires forall k :: 0 <= k < |registry| ==> registry[k].name != name
    requires InBlock(port, Cut(role, ROLE_MAX)) && !Held(registry, port) && |registry| < MAX_CIS
    ensures AddReply(registry, name) == Success
    ensures Inv(Stores(cis + [NewInstance(name, now)], Add(registry, name, role, model, port, now)))
  {
    var c := NewCi(name, role, model, port, now);
    var all := cis + [NewInstance(name, now)];
    AddKeepsRegistry(registry, c);
    AppendAgrees(cis, NewInstance(name, now), registry);
    assert all[|cis|] == NewInstance(name, now);
    SeekIs(all, |cis|);
    forall k | 0 <= k < |[c] + registry|
      ensures Agrees(all, ([c] + registry)[k])
    {
      if k > 0 {
        assert ([c] + registry)[k] == registry[k - 1];
      }
    }
  }

  lemma InvKept()
    ensures KeptBySteps(Inv) && KeptByCreates(Inv, Fits)
  {
    forall s, i: nat, c | Inv(s) && Touches(s, i, c)
      ensures Inv(Touched(s, i, c))
    {
      TouchKeepsInv(s, i, c);
    }
    forall s, name, status, event, reason, now | Inv(s) && Known(s, name)
      ensures Inv(Move(s, name, status, event, reason, now))
    {
      MoveKeepsInv(s, name, status, event, reason, now);
    }
    forall s, name, now | Inv(s)
      ensures Inv(Beaten(s, name, now))
    {
      BeatKeepsInv(s, name, now);
    }
    forall s, name, role, model, now | Inv(s) && Fits(name)
      ensures Inv(Create(s, name, role, model, now).stores)
    {
      CreateWorks(s, name, role, model, now);
    }
    hide Inv, Touches, Touched, Move, Beaten, Create;
  }

  lemma RunKeepsInv(ops: seq<Op>)
    requires Creates(ops, Fits)
    ensures Inv(Run(EMPTY, ops))
  {
    InvKept();
    hide KeptBySteps, KeptByCreates;
    RunKeeps(Inv, Fits, EMPTY, ops);
  }

  /** Every registry name is a lifecycle name, and the two statuses are equal. */
  predicate Agreed(s: Stores) {
    forall k :: 0 <= k < |s.registry| ==>
      Known(s, s.registry[k].name) && s.cis[Seek(s.cis, s.registry[k].name)].status == s.registry[k].status
  }

  /** With names that fit, the two stores agree after every run. */
  lemma StoresAgree(ops: seq<Op>)
    requires Creates(ops, Fits)
    ensures Agreed(Run(EMPTY, ops))
  {
    RunKeepsInv(ops);
    var s := Run(EMPTY, ops);
    assert forall k :: 0 <= k < |s.registry| ==> Agrees(s.cis, s.registry[k]);
  }

  /**
   With names that fit, live ports are distinct after every run, and a further create fails for a known
   name and for an exhausted block, and for nothing else: it never finds the registry full, nor the
   name taken in the registry.
   */
  lemma PortsAreSound(ops: seq<Op>, name: string, role: string, model: string, now: int)
    requires Creates(ops, Fits) && Fits(name)
    ensures var s := Run(EMPTY, ops);
            && DistinctPorts(s.registry)
            && Create(s, name, role, model, now).code
               == (if Known(s, name) then Invalid else if Exhausted(s.registry, role) then NoPort else Done)
  {
    RunKeepsInv(ops);
    CreateWorks(Run(EMPTY, ops), name, role, model, now);
  }
}
