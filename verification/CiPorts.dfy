/** Port allocation of src/daemon/argo_registry.c, on any registry at all. */
module CiPorts {
  import opened Chains
  import opened CiRegistry

  predicate DistinctPorts(cis: seq<Ci>) {
    forall i, j :: 0 <= i < j < |cis| ==> cis[i].port != cis[j].port
  }

  predicate InTheirBlocks(cis: seq<Ci>) {
    forall i :: 0 <= i < |cis| ==> InBlock(cis[i].port, cis[i].role)
  }

  /** The five blocks, which therefore share no port; every other role has the last one. */
  lemma BlocksAreDisjoint(port: int, role: string, other: string)
    ensures InBlock(port, role)
            <==> || (role == "builder" && 9000 <= port <= 9009)
                 || (role == "coordinator" && 9010 <= port <= 9019)
                 || (role == "requirements" && 9020 <= port <= 9029)
                 || (role == "analysis" && 9030 <= port <= 9039)
                 || (role !in ["builder", "coordinator", "requirements", "analysis"] && 9040 <= port <= 9049)
    ensures InBlock(port, role) && InBlock(port, other) ==>
              role == other || (role !in ["builder", "coordinator", "requirements", "analysis"]
                                && other !in ["builder", "coordinator", "requirements", "analysis"])
  {
  }

  lemma FindIs(cis: seq<Ci>, i: nat)
    requires UniqueNames(cis) && i < |cis|
    ensures Find(cis, cis[i].name) == i
  {
    var r := Find(cis, cis[i].name);
    assert r <= i;
  }

  /** All ports of the role's block are held, none of them by an offline entry. */
  ghost predicate Exhausted(cis: seq<Ci>, role: string) {
    && (forall port :: InBlock(port, role) ==> Held(cis, port))
    && forall k :: 0 <= k < |cis| && InBlock(cis[k].port, role) ==> cis[k].status != OFFLINE
  }

  /** On any registry at all, allocation fails exactly when the block is exhausted. */
  lemma AllocationFailsExactly(cis: seq<Ci>, role: string)
    ensures Allocate(cis, role).port < 0 <==> Exhausted(cis, role)
    ensures Allocate(cis, role).port < 0 ==> Allocate(cis, role) == Allocation(-1, cis)
    ensures Allocate(cis, role).port >= 0 ==> InBlock(Allocate(cis, role).port, role)
  {
    var free := FreeFrom(cis, Base(role), 0);
    if free < PORTS_PER_ROLE {
      assert InBlock(Base(role) + free, role);
    }
  }

  predicate FirstReclaimable(cis: seq<Ci>, role: string, i: nat) {
    && i < |cis| && cis[i].status == OFFLINE && InBlock(cis[i].port, role)
    && forall k :: 0 <= k < i && InBlock(cis[k].port, role) ==> cis[k].status != OFFLINE
  }

  /** No earlier entry bears the name of entry `i`. */
  predicate FirstOfName(cis: seq<Ci>, i: nat) {
    i < |cis| && forall k :: 0 <= k < i ==> cis[k].name != cis[i].name
  }

  /**
   What an allocation does. While a port of the block is held by nobody it hands out such a port and
   removes nothing. Otherwise it hands out the port of the first offline entry of the block, `i`, and
   removes the first entry of that name, `removed`: this is entry `i`, and so an offline entry of the
   block, if and only if entry `i` is the first of its name.
   */
  lemma AllocationRemovesAtMostOne(cis: seq<Ci>, role: string) returns (i: nat, removed: nat)
    requires Allocate(cis, role).port >= 0
    ensures var a := Allocate(cis, role);
            if exists port :: InBlock(port, role) && !Held(cis, port) then
              a.cis == cis && InBlock(a.port, role) && !Held(cis, a.port)
            else
              && FirstReclaimable(cis, role, i) && a.port == cis[i].port
              && FirstOfName(cis, removed) && cis[removed].name == cis[i].name
              && a.cis == Without(cis, removed)
              && (removed == i <==> FirstOfName(cis, i))
              && (Reclaimable(cis[removed], role) <==> FirstOfName(cis, i))
  {
    i, removed := 0, 0;
    var free := FreeFrom(cis, Base(role), 0);
    if free < PORTS_PER_ROLE {
      assert InBlock(Base(role) + free, role);
    } else {
      i := ReclaimableFrom(cis, role, 0);
      removed := Find(cis, cis[i].name);
    }
  }

  /** Where names are distinct, nothing but the offline entry whose port is handed out is removed. */
  lemma ReclaimsOffline(cis: seq<Ci>, role: string)
    requires UniqueNames(cis) && Allocate(cis, role).port >= 0
    ensures var a := Allocate(cis, role);
            a.cis == cis
            || exists i :: 0 <= i < |cis| && cis[i].status == OFFLINE && InBlock(cis[i].port, role)
                           && a.port == cis[i].port && a.cis == Without(cis, i)
  {
    var i, removed := AllocationRemovesAtMostOne(cis, role);
  }

  /**
   The port handed out is free afterwards, unless it was reclaimed by a name an earlier entry bears,
   or another entry holds it as well.
   */
  lemma AllocatedPortIsFree(cis: seq<Ci>, role: string)
    requires Allocate(cis, role).port >= 0
    ensures var a := Allocate(cis, role);
            !Held(a.cis, a.port)
            <==> FreeFrom(cis, Base(role), 0) < PORTS_PER_ROLE
                 || var i := ReclaimableFrom(cis, role, 0);
                    Find(cis, cis[i].name) == i && forall k :: 0 <= k < |cis| && k != i ==> cis[k].port != cis[i].port
  {
    if FreeFrom(cis, Base(role), 0) == PORTS_PER_ROLE {
      var i := ReclaimableFrom(cis, role, 0);
      var j := Find(cis, cis[i].name);
      HeldWithout(cis, j, cis[i].port);
    }
  }

  lemma HeldWithout(cis: seq<Ci>, j: nat, port: int)
    requires j < |cis|
    ensures Held(Without(cis, j), port) <==> exists k :: 0 <= k < |cis| && k != j && cis[k].port == port
  {
    var rest := Without(cis, j);
    if k :| 0 <= k < |cis| && k != j && cis[k].port == port {
      assert rest[if k < j then k else k - 1] == cis[k];
    }
  }

  function PortRange(lo: int, n: nat): (r: set<int>)
    ensures |r| == n
    ensures forall p :: p in r <==> lo <= p < lo + n
  {
    if n == 0 then {} else PortRange(lo, n - 1) + {lo + n - 1}
  }

  lemma {:induction false} SubsetSize<T>(a: set<T>, b: set<T>)
    requires a <= b
    ensures |a| <= |b|
  {
    if a != {} {
      var x :| x in a;
      SubsetSize(a - {x}, b - {x});
    }
  }

  function Ports(cis: seq<Ci>): set<int> {
    set k | 0 <= k < |cis| :: cis[k].port
  }

  lemma {:induction false} PortsSize(cis: seq<Ci>)
    requires DistinctPorts(cis)
    ensures |Ports(cis)| == |cis|
  {
    if cis != [] {
      var rest := cis[..|cis| - 1];
      PortsSize(rest);
      var last := cis[|cis| - 1].port;
      assert Ports(cis) == Ports(rest) + {last};
      forall k | 0 <= k < |rest|
        ensures rest[k].port != last
      {
        assert rest[k] == cis[k];
      }
    }
  }

  lemma PortsWithin(cis: seq<Ci>)
    requires InTheirBlocks(cis)
    ensures Ports(cis) <= PortRange(BASE_PORT, MAX_CIS)
  {
    hide PortRange;
    forall p <- Ports(cis)
      ensures p in PortRange(BASE_PORT, MAX_CIS)
    {
      var k :| 0 <= k < |cis| && cis[k].port == p;
      assert InBlock(cis[k].port, cis[k].role);
    }
  }

  /** Five blocks of ten ports: while one of their ports is free, fewer than 50 entries exist. */
  lemma RoomForOneMore(cis: seq<Ci>, port: int, role: string)
    requires DistinctPorts(cis) && InTheirBlocks(cis) && InBlock(port, role) && !Held(cis, port)
    ensures |cis| < 50
  {
    PortsWithin(cis);
    PortsSize(cis);
    assert port in PortRange(BASE_PORT, MAX_CIS);
    assert port !in Ports(cis);
    hide PortRange, Ports, InBlock;
    SubsetSize(Ports(cis) + {port}, PortRange(BASE_PORT, MAX_CIS));
  }
}
