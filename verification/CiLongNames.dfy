/**
 Names that do not fit their buffers of 32 bytes. Both stores compare a name uncut with what they stored
 cut, so a longer name can be created again and again; with it the two stores come to disagree, ports
 collide and the registry fills up. For the names of a run this is exact: the properties hold of all runs
 that create such names if and only if all these names fit.
 */
module CiLongNames {
  import opened CiNames
  import opened CiPorts
  import opened CiRegistry
  import opened CiRuns
  import opened CStrings
  import opened Lifecycle
  import opened Chains

  /** A long name can be created twice, in any role, and then both stores hold two entries of one name. */
  lemma LongNamesCollide(name: string, role: string, model: string, now: int)
    requires !Fits(name)
    ensures var s := Run(EMPTY, [CreateOp(name, role, model, now), CreateOp(name, role, model, now)]);
            && |s.cis| == 2 && s.cis[0].name == s.cis[1].name
            && |s.registry| == 2 && s.registry[0].name == s.registry[1].name
  {
    var op := CreateOp(name, role, model, now);
    var s1 := Apply(EMPTY, op);
    assert FreeFrom([], Base(role), 0) == 0;
    assert s1.cis == [NewInstance(name, now)];
    assert s1.registry == [NewCi(name, role, model, Base(role), now)];
    assert Seek(s1.cis, name) == 1 && Find(s1.registry, name) == 1;
    AllocationFailsExactly(s1.registry, role);
    assert !Held(s1.registry, Base(role) + 1);
    var s2 := Apply(s1, op);
    assert FreeFrom(s1.registry, Base(role), 0) < PORTS_PER_ROLE;
    assert |s2.cis| == 2 && |s2.registry| == 2;
    assert [op, op][1..] == [op];
    assert Run(s1, [op]) == Run(s2, []) by {
      assert [op][1..] == [];
    }
  }

  const ROLE: string := "builder"

  function Stored(name: string): string {
    Cut(name, NAME_MAX)
  }

  function Creation(name: string): Op {
    CreateOp(name, ROLE, "", 0)
  }

  function Creations(name: string, n: nat): seq<Op> {
    if n == 0 then [] else Creations(name, n - 1) + [Creation(name)]
  }

  /** All entries bear the stored name, are offline and hold ports of the block. */
  predicate AllIdle(registry: seq<Ci>, name: string) {
    forall k :: 0 <= k < |registry| ==>
      registry[k].name == Stored(name) && registry[k].status == OFFLINE && InBlock(registry[k].port, ROLE)
  }

  /** Idle entries hold all ports of the block, the newest holding the last port alone. */
  ghost predicate Packed(registry: seq<Ci>, name: string) {
    && |registry| >= PORTS_PER_ROLE && AllIdle(registry, name)
    && (forall port :: InBlock(port, ROLE) ==> Held(registry, port))
    && registry[0].port == LastPort()
    && forall k :: 1 <= k < |registry| ==> registry[k].port != LastPort()
  }

  ghost predicate Crowded(s: Stores, name: string) {
    && s.cis != [] && (forall i :: 0 <= i < |s.cis| ==> s.cis[i].name == Stored(name))
    && Packed(s.registry, name)
  }

  function LastPort(): int {
    Base(ROLE) + PORTS_PER_ROLE - 1
  }

  /** The first `n` ports of the block taken in turn by one long name. */
  predicate Stacked(s: Stores, name: string, n: nat) {
    && |s.cis| == n && (forall i :: 0 <= i < n ==> s.cis[i].name == Stored(name))
    && |s.registry| == n
    && forall k :: 0 <= k < n ==>
         s.registry[k].name == Stored(name) && s.registry[k].status == OFFLINE
         && s.registry[k].port == Base(ROLE) + n - 1 - k
  }

  /** A long name is found in neither store, however often it was created. */
  lemma LongNameIsNew(s: Stores, registry: seq<Ci>, name: string)
    requires !Fits(name)
    requires forall i :: 0 <= i < |s.cis| ==> s.cis[i].name == Stored(name)
    requires forall k :: 0 <= k < |registry| ==> registry[k].name == Stored(name)
    ensures !Known(s, name) && Find(registry, name) == |registry|
  {
  }

  /** What a create of a long name does with what was allocated. */
  lemma LongNameCreated(s: Stores, name: string, port: int, rest: seq<Ci>)
    requires !Fits(name) && Allocate(s.registry, ROLE) == Allocation(port, rest) && port >= 0 && |rest| < MAX_CIS
    requires forall i :: 0 <= i < |s.cis| ==> s.cis[i].name == Stored(name)
    requires forall k :: 0 <= k < |rest| ==> rest[k].name == Stored(name)
    ensures Apply(s, Creation(name))
            == Stores(s.cis + [NewInstance(name, 0)], [NewCi(name, ROLE, "", port, 0)] + rest)
  {
    LongNameIsNew(s, rest, name);
    hide Allocate, Seek, Find, Cut;
  }

  /** A create of a long name when some port is free. */
  lemma CreateTakesFree(s: Stores, name: string, free: nat)
    requires !Fits(name) && |s.registry| < MAX_CIS && free < PORTS_PER_ROLE
    requires forall i :: 0 <= i < |s.cis| ==> s.cis[i].name == Stored(name)
    requires forall k :: 0 <= k < |s.registry| ==> s.registry[k].name == Stored(name)
    requires !Held(s.registry, Base(ROLE) + free)
    requires forall port :: Base(ROLE) <= port < Base(ROLE) + free ==> Held(s.registry, port)
    ensures Apply(s, Creation(name))
            == Stores(s.cis + [NewInstance(name, 0)], [NewCi(name, ROLE, "", Base(ROLE) + free, 0)] + s.registry)
  {
    hide Apply, Stored;
    assert FreeFrom(s.registry, Base(ROLE), 0) == free;
    LongNameCreated(s, name, Base(ROLE) + free, s.registry);
  }

  lemma StackGrows(s: Stores, name: string, n: nat)
    requires !Fits(name) && n < PORTS_PER_ROLE && Stacked(s, name, n)
    ensures Stacked(Apply(s, Creation(name)), name, n + 1)
  {
    hide Apply, Stored, RoleOffset;
    forall port | Base(ROLE) <= port < Base(ROLE) + n
      ensures Held(s.registry, port)
    {
      assert s.registry[n - 1 - (port - Base(ROLE))].port == port;
    }
    CreateTakesFree(s, name, n);
    NewInstanceName(name);
    NewCiParts(name, Base(ROLE) + n);
    hide Held, NewInstance, NewCi;
  }

  lemma NewInstanceName(name: string)
    ensures NewInstance(name, 0).name == Stored(name)
  {
  }

  lemma NewCiParts(name: string, port: int)
    ensures var c := NewCi(name, ROLE, "", port, 0); c.name == Stored(name) && c.status == OFFLINE && c.port == port
  {
  }

  lemma {:induction false} CreationsStack(name: string, n: nat)
    requires !Fits(name) && n <= PORTS_PER_ROLE
    ensures Stacked(Run(EMPTY, Creations(name, n)), name, n)
  {
    hide Apply;
    if n > 0 {
      CreationsStack(name, n - 1);
      StackGrows(Run(EMPTY, Creations(name, n - 1)), name, n - 1);
      RunAppend(EMPTY, Creations(name, n - 1), [Creation(name)]);
      RunOne(Run(EMPTY, Creations(name, n - 1)), Creation(name));
      hide Run, Stacked;
    }
  }

  lemma StackIsCrowded(s: Stores, name: string)
    requires Stacked(s, name, PORTS_PER_ROLE)
    ensures Crowded(s, name)
  {
    forall port | InBlock(port, ROLE)
      ensures Held(s.registry, port)
    {
      assert s.registry[PORTS_PER_ROLE - 1 - (port - Base(ROLE))].port == port;
    }
  }

  /** Stopping the stored name stops the newest entry, and the first instance. */
  function StopStored(name: string): Op {
    StopOp(Stored(name), true, 0)
  }

  lemma StopsNewest(s: Stores, name: string)
    requires s.cis != [] && s.cis[0].name == Stored(name)
    requires s.registry != [] && s.registry[0].name == Stored(name)
    ensures var t := Apply(s, StopStored(name));
            && t.registry == s.registry[0 := s.registry[0].(status := SHUTDOWN)]
            && |t.cis| == |s.cis| && t.cis[0].status == SHUTDOWN
            && forall i :: 0 <= i < |s.cis| ==> t.cis[i].name == s.cis[i].name
  {
    assert Seek(s.cis, Stored(name)) == 0;
    assert Find(s.registry, Stored(name)) == 0;
  }

  /** A long name created twice and its stored form stopped: the older entry is not what its instance is. */
  lemma StatusesCanDisagree(name: string)
    requires !Fits(name)
    ensures !Agreed(Run(EMPTY, Creations(name, 2) + [StopStored(name)]))
  {
    CreationsStack(name, 2);
    var s := Run(EMPTY, Creations(name, 2));
    StopsNewest(s, name);
    RunAppend(EMPTY, Creations(name, 2), [StopStored(name)]);
    RunOne(s, StopStored(name));
    var t := Apply(s, StopStored(name));
    assert t.registry[1].name == Stored(name) && t.registry[1].status == OFFLINE;
    assert Seek(t.cis, Stored(name)) == 0;
  }

  lemma HeldAfterStatus(registry: seq<Ci>, k: nat, status: Status, port: int)
    requires k < |registry|
    ensures Held(registry[k := registry[k].(status := status)], port) <==> Held(registry, port)
  {
    var after := registry[k := registry[k].(status := status)];
    assert forall i :: 0 <= i < |registry| ==> after[i].port == registry[i].port;
    if Held(registry, port) {
      var i :| 0 <= i < |registry| && registry[i].port == port;
      assert after[i].port == port;
    }
  }

  /** With the newest entry stopped, allocation reclaims the port of the second but removes the first. */
  lemma ReclaimsWrongEntry(registry: seq<Ci>, name: string)
    requires Packed(registry, name)
    ensures Allocate(registry[0 := registry[0].(status := SHUTDOWN)], ROLE)
            == Allocation(registry[1].port, registry[1..])
  {
    hide Held;
    var after := registry[0 := registry[0].(status := SHUTDOWN)];
    forall port | InBlock(port, ROLE)
      ensures Held(after, port)
    {
      HeldAfterStatus(registry, 0, SHUTDOWN, port);
    }
    NothingFree(after);
    SecondIsReclaimed(after);
    assert after[0].name == after[1].name && Find(after, after[1].name) == 0;
    assert Without(after, 0) == registry[1..];
    hide FreeFrom, ReclaimableFrom;
  }

  lemma NothingFree(registry: seq<Ci>)
    requires forall port :: InBlock(port, ROLE) ==> Held(registry, port)
    ensures FreeFrom(registry, Base(ROLE), 0) == PORTS_PER_ROLE
  {
    hide Held;
    var free := FreeFrom(registry, Base(ROLE), 0);
    assert free < PORTS_PER_ROLE ==> InBlock(Base(ROLE) + free, ROLE);
  }

  lemma SecondIsReclaimed(registry: seq<Ci>)
    requires |registry| > 1 && !Reclaimable(registry[0], ROLE) && Reclaimable(registry[1], ROLE)
    ensures ReclaimableFrom(registry, ROLE, 0) == 1
  {
  }

  /**
   In a crowded block a stop and a create: the entry removed is the stopped one, which is not offline,
   and the port handed out is that of an entry still there.
   */
  lemma StopThenCreate(s: Stores, name: string)
    requires !Fits(name) && Crowded(s, name) && |s.registry| <= MAX_CIS
    ensures var t := Apply(Apply(s, StopStored(name)), Creation(name));
            && t.registry == [NewCi(name, ROLE, "", s.registry[1].port, 0)] + s.registry[1..]
            && |t.cis| > 0 && forall i :: 0 <= i < |t.cis| ==> t.cis[i].name == Stored(name)
  {
    hide Apply, Stored, Allocate;
    StopsNewest(s, name);
    ReclaimsWrongEntry(s.registry, name);
    LongNameCreated(Apply(s, StopStored(name)), name, s.registry[1].port, s.registry[1..]);
    NewInstanceName(name);
    hide NewInstance, NewCi, Held;
  }

  lemma RunThree(ops: seq<Op>, a: Op, b: Op, c: Op)
    ensures Run(EMPTY, ops + [a, b]) == Apply(Apply(Run(EMPTY, ops), a), b)
    ensures Run(EMPTY, ops + [a, b, c]) == Apply(Apply(Apply(Run(EMPTY, ops), a), b), c)
  {
    hide Run, Apply;
    RunAppend(EMPTY, ops, [a]);
    RunAppend(EMPTY, ops + [a], [b]);
    RunAppend(EMPTY, ops + [a] + [b], [c]);
    RunOne(Run(EMPTY, ops), a);
    RunOne(Run(EMPTY, ops + [a]), b);
    RunOne(Run(EMPTY, ops + [a] + [b]), c);
    assert ops + [a, b] == ops + [a] + [b];
    assert ops + [a, b, c] == ops + [a] + [b] + [c];
  }

  /** Ten creates of a long name, a stop of its stored form and one more create: two live ports are equal. */
  lemma PortsCanCollide(name: string)
    requires !Fits(name)
    ensures !DistinctPorts(Run(EMPTY, Creations(name, PORTS_PER_ROLE) + [StopStored(name), Creation(name)]).registry)
  {
    CreationsStack(name, PORTS_PER_ROLE);
    var s := Run(EMPTY, Creations(name, PORTS_PER_ROLE));
    StackIsCrowded(s, name);
    StopThenCreate(s, name);
    RunThree(Creations(name, PORTS_PER_ROLE), StopStored(name), Creation(name), Creation(name));
    var t := Apply(Apply(s, StopStored(name)), Creation(name));
    assert t.registry[0].port == t.registry[1].port;
  }

  /** After a stop and a create the last port is the only free one of the block. */
  lemma LastPortFree(registry: seq<Ci>, after: seq<Ci>, name: string)
    requires Packed(registry, name) && after == [NewCi(name, ROLE, "", registry[1].port, 0)] + registry[1..]
    ensures |after| == |registry| >= PORTS_PER_ROLE && AllIdle(after, name) && !Held(after, LastPort())
    ensures forall port :: Base(ROLE) <= port < LastPort() ==> Held(after, port)
  {
    assert forall k :: 1 <= k < |after| ==> after[k] == registry[k];
    forall port | Base(ROLE) <= port < LastPort()
      ensures Held(after, port)
    {
      assert InBlock(port, ROLE);
      var k :| 0 <= k < |registry| && registry[k].port == port;
      assert after[k].port == port;
    }
  }

  /** The last port taken again, the block is packed. */
  lemma PacksAgain(registry: seq<Ci>, name: string)
    requires |registry| >= PORTS_PER_ROLE && AllIdle(registry, name) && !Held(registry, LastPort())
    requires forall port :: Base(ROLE) <= port < LastPort() ==> Held(registry, port)
    ensures Packed([NewCi(name, ROLE, "", LastPort(), 0)] + registry, name)
  {
    var after := [NewCi(name, ROLE, "", LastPort(), 0)] + registry;
    assert forall k :: 1 <= k < |after| ==> after[k] == registry[k - 1];
    forall port | InBlock(port, ROLE)
      ensures Held(after, port)
    {
      if port == LastPort() {
        assert after[0].port == port;
      } else {
        assert Held(registry, port);
        var k :| 0 <= k < |registry| && registry[k].port == port;
        assert after[k + 1].port == port;
      }
    }
  }

  /** A stop and two creates leave the block crowded with one entry more. */
  lemma CrowdGrows(s: Stores, name: string)
    requires !Fits(name) && Crowded(s, name) && |s.registry| < MAX_CIS
    ensures var u := Apply(Apply(Apply(s, StopStored(name)), Creation(name)), Creation(name));
            Crowded(u, name) && |u.registry| == |s.registry| + 1
  {
    hide Apply, Packed, Held, NewInstance;
    StopThenCreate(s, name);
    var t := Apply(Apply(s, StopStored(name)), Creation(name));
    LastPortFree(s.registry, t.registry, name);
    CreateTakesFree(t, name, PORTS_PER_ROLE - 1);
    PacksAgain(t.registry, name);
    NewInstanceName(name);
  }

  /** Ten creates, and then a stop and two creates over and over. */
  function Growth(name: string, n: nat): seq<Op> {
    if n == 0 then Creations(name, PORTS_PER_ROLE)
    else Growth(name, n - 1) + [StopStored(name), Creation(name), Creation(name)]
  }

  lemma {:induction false} GrowthCrowds(name: string, n: nat)
    requires !Fits(name) && PORTS_PER_ROLE + n <= MAX_CIS
    ensures var s := Run(EMPTY, Growth(name, n)); Crowded(s, name) && |s.registry| == PORTS_PER_ROLE + n
  {
    hide Run, Apply, Crowded;
    if n == 0 {
      CreationsStack(name, PORTS_PER_ROLE);
      StackIsCrowded(Run(EMPTY, Creations(name, PORTS_PER_ROLE)), name);
    } else {
      GrowthCrowds(name, n - 1);
      CrowdGrows(Run(EMPTY, Growth(name, n - 1)), name);
      RunThree(Growth(name, n - 1), StopStored(name), Creation(name), Creation(name));
    }
  }

  function Filling(name: string): seq<Op> {
    Growth(name, MAX_CIS - PORTS_PER_ROLE) + [StopStored(name), Creation(name)]
  }

  /** In the end one role alone holds all 50 entries, and a create finds the registry full. */
  lemma RegistryCanFill(name: string)
    requires !Fits(name)
    ensures Create(Run(EMPTY, Filling(name)), name, ROLE, "", 0).code == NotAdded(Full)
  {
    hide Run, Apply, Growth;
    GrowthCrowds(name, MAX_CIS - PORTS_PER_ROLE);
    var s := Run(EMPTY, Growth(name, MAX_CIS - PORTS_PER_ROLE));
    StopThenCreate(s, name);
    RunThree(Growth(name, MAX_CIS - PORTS_PER_ROLE), StopStored(name), Creation(name), Creation(name));
    var t := Apply(Apply(s, StopStored(name)), Creation(name));
    LastPortFree(s.registry, t.registry, name);
    LongNameIsNew(t, t.registry, name);
    assert FreeFrom(t.registry, Base(ROLE), 0) == PORTS_PER_ROLE - 1;
  }

  // ---------------------------------------------------------------- the exact bound

  predicate CreatesFrom(ops: seq<Op>, names: set<string>) {
    forall op <- ops :: op.CreateOp? ==> op.name in names
  }

  lemma FittingCreates(ops: seq<Op>, names: set<string>)
    requires CreatesFrom(ops, names) && forall name <- names :: Fits(name)
    ensures Creates(ops, Fits)
  {
  }

  lemma {:induction false} CreationsFrom(name: string, n: nat, names: set<string>)
    requires name in names
    ensures CreatesFrom(Creations(name, n), names)
  {
    if n > 0 {
      CreationsFrom(name, n - 1, names);
    }
  }

  lemma {:induction false} GrowthFrom(name: string, n: nat, names: set<string>)
    requires name in names
    ensures CreatesFrom(Growth(name, n), names)
  {
    if n == 0 {
      CreationsFrom(name, PORTS_PER_ROLE, names);
    } else {
      GrowthFrom(name, n - 1, names);
    }
  }

  /** The stores agree after all runs that create such names if and only if all the names fit. */
  lemma StoresAgreeExactly(names: set<string>)
    ensures (forall ops :: CreatesFrom(ops, names) ==> Agreed(Run(EMPTY, ops))) <==> forall name <- names :: Fits(name)
  {
    if name :| name in names && !Fits(name) {
      var ops := Creations(name, 2) + [StopStored(name)];
      StatusesCanDisagree(name);
      CreationsFrom(name, 2, names);
      assert CreatesFrom(ops, names);
    } else {
      forall ops | CreatesFrom(ops, names)
        ensures Agreed(Run(EMPTY, ops))
      {
        FittingCreates(ops, names);
        StoresAgree(ops);
      }
    }
  }

  /** Live ports are distinct after all runs that create such names if and only if all the names fit. */
  lemma PortsDifferExactly(names: set<string>)
    ensures (forall ops :: CreatesFrom(ops, names) ==> DistinctPorts(Run(EMPTY, ops).registry))
            <==> forall name <- names :: Fits(name)
  {
    hide DistinctPorts;
    if name :| name in names && !Fits(name) {
      var ops := Creations(name, PORTS_PER_ROLE) + [StopStored(name), Creation(name)];
      PortsCanCollide(name);
      CreationsFrom(name, PORTS_PER_ROLE, names);
      assert CreatesFrom(ops, names);
    } else {
      forall ops | CreatesFrom(ops, names)
        ensures DistinctPorts(Run(EMPTY, ops).registry)
      {
        FittingCreates(ops, names);
        PortsAreSound(ops, "", ROLE, "", 0);
      }
    }
  }

  /** The registry refuses no create in any such run if and only if all the names fit. */
  lemma NeverRefusedExactly(names: set<string>)
    ensures (forall ops, name, role, model, now :: CreatesFrom(ops, names) && name in names ==>
               !Create(Run(EMPTY, ops), name, role, model, now).code.NotAdded?)
            <==> forall name <- names :: Fits(name)
  {
    hide Create;
    if name :| name in names && !Fits(name) {
      RegistryCanFill(name);
      GrowthFrom(name, MAX_CIS - PORTS_PER_ROLE, names);
      assert CreatesFrom(Filling(name), names);
    } else {
      forall ops, name, role, model, now | CreatesFrom(ops, names) && name in names
        ensures !Create(Run(EMPTY, ops), name, role, model, now).code.NotAdded?
      {
        FittingCreates(ops, names);
        PortsAreSound(ops, name, role, model, now);
      }
    }
  }
}
