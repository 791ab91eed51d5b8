/**
 The exit queue with one pusher and one popper running concurrently: every load and store of
 exit_queue_push and exit_queue_pop is a step of its own, in any interleaving, under sequential
 consistency. Two logs record the pushes that were accepted and the entries that were popped.
 */
module ExitQueueRace {
  import opened ExitQueue

  /** Where the pusher is: the field names are its local variables. */
  datatype Pusher =
    | PushIdle
    | CheckFull(e: Exit, current: nat, next: nat)      // write_idx loaded
    | Reject                                           // next_write == read_idx
    | StorePid(e: Exit, current: nat, next: nat)
    | StoreCode(e: Exit, current: nat, next: nat)
    | StoreTime(e: Exit, current: nat, next: nat)
    | StoreValid(e: Exit, current: nat, next: nat)
    | Publish(e: Exit, current: nat, next: nat)        // store write_idx

  /** Where the popper is. */
  datatype Popper =
    | PopIdle
    | CheckEmpty(read: nat)                            // read_idx loaded
    | LoadRead
    | CheckValid(current: nat)
    | LoadPid(current: nat)
    | LoadCode(current: nat, pid: int)
    | LoadTime(current: nat, pid: int, code: int)
    | ClearValid(current: nat, e: Exit)
    | Release(current: nat, e: Exit)                   // store read_idx

  datatype State = State(q: Ring, pusher: Pusher, popper: Popper,
                         accepted: seq<Exit>, popped: seq<Exit>, guardFailed: bool)

  /** One step of either side; the pusher's first step takes pid and code, its StoreTime the clock. */
  datatype Action = PusherStep(e: Exit) | PopperStep

  const INIT := State(Ring(seq(SIZE, _ => Slot(0, 0, 0, false)), 0, 0, 0), PushIdle, PopIdle, [], [], false)

  /** Indices the sides hold are within the buffer. */
  predicate InRange(s: State) {
    && |s.q.slots| == SIZE && s.q.write < SIZE && s.q.read < SIZE
    && (match s.pusher
        case PushIdle => true
        case Reject => true
        case CheckFull(_, c, _) => c < SIZE
        case StorePid(_, c, _) => c < SIZE
        case StoreCode(_, c, _) => c < SIZE
        case StoreTime(_, c, _) => c < SIZE
        case StoreValid(_, c, _) => c < SIZE
        case Publish(_, c, n) => c < SIZE && n < SIZE)
    && (match s.popper
        case PopIdle => true
        case LoadRead => true
        case CheckEmpty(r) => r < SIZE
        case CheckValid(c) => c < SIZE
        case LoadPid(c) => c < SIZE
        case LoadCode(c, _) => c < SIZE
        case LoadTime(c, _, _) => c < SIZE
        case ClearValid(c, _) => c < SIZE
        case Release(c, _) => c < SIZE)
  }

  function StorePart(q: Ring, i: nat, slot: Slot): Ring
    requires i < |q.slots|
  {
    q.(slots := q.slots[i := slot])
  }

  function Push(s: State, e: Exit): State
    requires InRange(s)
  {
    match s.pusher
    case PushIdle => s.(pusher := CheckFull(e, s.q.write, Next(s.q.write)))
    case CheckFull(x, c, n) => s.(pusher := if n == s.q.read then Reject else StorePid(x, c, n))
    case Reject => s.(q := s.q.(dropped := s.q.dropped + 1), pusher := PushIdle)
    case StorePid(x, c, n) =>
      s.(q := StorePart(s.q, c, s.q.slots[c].(pid := x.pid)), pusher := StoreCode(x, c, n))
    case StoreCode(x, c, n) =>
      s.(q := StorePart(s.q, c, s.q.slots[c].(code := x.code)), pusher := StoreTime(x, c, n))
    case StoreTime(x, c, n) =>
      s.(q := StorePart(s.q, c, s.q.slots[c].(time := e.time)), pusher := StoreValid(x.(time := e.time), c, n))
    case StoreValid(x, c, n) =>
      s.(q := StorePart(s.q, c, s.q.slots[c].(valid := true)), pusher := Publish(x, c, n))
    case Publish(x, _, n) =>
      s.(q := s.q.(write := n), pusher := PushIdle, accepted := s.accepted + [x])
  }

  function Pop(s: State): State
    requires InRange(s)
  {
    match s.popper
    case PopIdle => s.(popper := CheckEmpty(s.q.read))
    case CheckEmpty(r) => s.(popper := if r == s.q.write then PopIdle else LoadRead)
    case LoadRead => s.(popper := CheckValid(s.q.read))
    case CheckValid(c) =>
      if s.q.slots[c].valid then s.(popper := LoadPid(c)) else s.(popper := PopIdle, guardFailed := true)
    case LoadPid(c) => s.(popper := LoadCode(c, s.q.slots[c].pid))
    case LoadCode(c, p) => s.(popper := LoadTime(c, p, s.q.slots[c].code))
    case LoadTime(c, p, x) => s.(popper := ClearValid(c, Exit(p, x, s.q.slots[c].time)))
    case ClearValid(c, e) =>
      s.(q := StorePart(s.q, c, s.q.slots[c].(valid := false)), popper := Release(c, e))
    case Release(c, e) =>
      s.(q := s.q.(read := Next(c)), popper := PopIdle, popped := s.popped + [e])
  }

  function Step(s: State, a: Action): State
    requires InRange(s)
  {
    match a
    case PusherStep(e) => Push(s, e)
    case PopperStep => Pop(s)
  }

  // ---------------------------------------------------------------- the invariant

  function Backlog(s: State): int {
    |s.accepted| - |s.popped|
  }

  /** The slot of the `i`-th accepted push. */
  function SlotOf(s: State, i: nat): Slot
    requires |s.q.slots| == SIZE
  {
    s.q.slots[i % SIZE]
  }

  /** The pending entries are in their slots, the one being released possibly unmarked already. */
  predicate Stored(s: State)
    requires |s.q.slots| == SIZE
  {
    forall i :: |s.popped| <= i < |s.accepted| ==>
      && SlotOf(s, i).Content() == s.accepted[i]
      && (SlotOf(s, i).valid || (i == |s.popped| && s.popper.Release?))
  }

  /** The pusher works on the slot behind the last accepted push, and has room for it. */
  predicate PusherOk(s: State)
    requires InRange(s)
  {
    var slot := SlotOf(s, |s.accepted|);
    match s.pusher
    case PushIdle => true
    case Reject => true
    case CheckFull(_, c, n) => c == s.q.write && n == Next(c)
    case StorePid(_, c, n) => c == s.q.write && n == Next(c) && Backlog(s) < SIZE - 1
    case StoreCode(e, c, n) => c == s.q.write && n == Next(c) && Backlog(s) < SIZE - 1 && slot.pid == e.pid
    case StoreTime(e, c, n) =>
      c == s.q.write && n == Next(c) && Backlog(s) < SIZE - 1 && slot.pid == e.pid && slot.code == e.code
    case StoreValid(e, c, n) =>
      c == s.q.write && n == Next(c) && Backlog(s) < SIZE - 1 && slot.Content() == e
    case Publish(e, c, n) =>
      c == s.q.write && n == Next(c) && Backlog(s) < SIZE - 1 && slot.Content() == e && slot.valid
  }

  /** The popper works on the slot of the oldest pending entry. */
  predicate PopperOk(s: State)
    requires InRange(s)
  {
    match s.popper
    case PopIdle => true
    case CheckEmpty(r) => r == s.q.read
    case LoadRead => Backlog(s) > 0
    case CheckValid(c) => Backlog(s) > 0 && c == s.q.read
    case LoadPid(c) => Backlog(s) > 0 && c == s.q.read
    case LoadCode(c, p) => Backlog(s) > 0 && c == s.q.read && p == s.accepted[|s.popped|].pid
    case LoadTime(c, p, x) =>
      Backlog(s) > 0 && c == s.q.read && p == s.accepted[|s.popped|].pid && x == s.accepted[|s.popped|].code
    case ClearValid(c, e) => Backlog(s) > 0 && c == s.q.read && e == s.accepted[|s.popped|]
    case Release(c, e) => Backlog(s) > 0 && c == s.q.read && e == s.accepted[|s.popped|]
  }

  predicate Inv(s: State) {
    && InRange(s)
    && !s.guardFailed
    && s.popped <= s.accepted
    && Backlog(s) <= SIZE - 1
    && s.q.read == |s.popped| % SIZE
    && s.q.write == |s.accepted| % SIZE
    && Stored(s) && PusherOk(s) && PopperOk(s)
  }

  lemma SlotsDiffer(i: nat, j: nat)
    requires i < j < i + SIZE
    ensures i % SIZE != j % SIZE
  {
  }

  lemma IndexArithmetic(p: nat, a: nat)
    requires p <= a < p + SIZE
    ensures Next(a % SIZE) == p % SIZE <==> a - p == SIZE - 1
    ensures p % SIZE == a % SIZE <==> a == p
  {
    assert Next(a % SIZE) == (a + 1) % SIZE;
    if p < a {
      SlotsDiffer(p, a);
    }
    if a - p < SIZE - 1 {
      SlotsDiffer(p, a + 1);
    }
  }

  /** The index comparisons of both sides decide fullness and emptiness of the backlog. */
  lemma IndicesTell(s: State)
    requires Inv(s)
    ensures Next(s.q.write) == s.q.read <==> Backlog(s) == 127
    ensures s.q.read == s.q.write <==> Backlog(s) == 0
  {
    hide Next;
    IndexArithmetic(|s.popped|, |s.accepted|);
  }

  /** Writing the free slot touches no pending entry. */
  lemma FreeSlotIsFree(s: State, slot: Slot)
    requires Inv(s) && Backlog(s) < SIZE - 1
    ensures Stored(s.(q := StorePart(s.q, s.q.write, slot)))
  {
    forall i | |s.popped| <= i < |s.accepted|
      ensures i % SIZE != s.q.write
    {
      SlotsDiffer(i, |s.accepted|);
    }
  }

  /** A store into the free slot, moving the pusher on. */
  lemma StoreKeepsInv(s: State, slot: Slot, pusher: Pusher)
    requires Inv(s) && Backlog(s) < SIZE - 1
    requires var t := s.(q := StorePart(s.q, s.q.write, slot), pusher := pusher); InRange(t) && PusherOk(t)
    ensures Inv(s.(q := StorePart(s.q, s.q.write, slot), pusher := pusher))
  {
    FreeSlotIsFree(s, slot);
    StoreKeepsPopper(s, s.q.write);
  }

  /** The published entry is behind the ones that were pending. */
  lemma PublishStores(s: State, e: Exit)
    requires Inv(s) && s.pusher.Publish?
    ensures Stored(Push(s, e))
  {
    var t := Push(s, e);
    forall i | |t.popped| <= i < |t.accepted|
      ensures SlotOf(t, i).Content() == t.accepted[i]
      ensures SlotOf(t, i).valid || (i == |t.popped| && t.popper.Release?)
    {
      assert SlotOf(t, i) == SlotOf(s, i);
    }
  }

  lemma PublishKeepsInv(s: State, e: Exit)
    requires Inv(s) && s.pusher.Publish?
    ensures Inv(Push(s, e))
  {
    PublishStores(s, e);
    hide Stored;
    NextModulo(|s.accepted|);
    hide Next;
  }

  lemma NextModulo(n: nat)
    ensures Next(n % SIZE) == (n + 1) % SIZE
  {
  }

  lemma PushKeepsInv(s: State, e: Exit)
    requires Inv(s)
    ensures Inv(Push(s, e))
  {
    IndicesTell(s);
    hide Stored;
    var t := Push(s, e);
    match s.pusher
    case PushIdle => PusherMoves(s, t);
    case CheckFull(_, _, _) => PusherMoves(s, t);
    case Reject => PusherMoves(s, t);
    case StorePid(x, c, n) => StoreKeepsInv(s, s.q.slots[c].(pid := x.pid), t.pusher);
    case StoreCode(x, c, n) => StoreKeepsInv(s, s.q.slots[c].(code := x.code), t.pusher);
    case StoreTime(x, c, n) => StoreKeepsInv(s, s.q.slots[c].(time := e.time), t.pusher);
    case StoreValid(x, c, n) => StoreKeepsInv(s, s.q.slots[c].(valid := true), t.pusher);
    case Publish(_, _, _) => PublishKeepsInv(s, e);
  }

  /** A step of the pusher that leaves the buffer alone. */
  lemma PusherMoves(s: State, t: State)
    requires Inv(s) && t == s.(q := s.q.(dropped := t.q.dropped), pusher := t.pusher)
    requires InRange(t) && PusherOk(t)
    ensures Inv(t)
  {
    assert forall i :: |t.popped| <= i < |t.accepted| ==> SlotOf(t, i) == SlotOf(s, i);
  }

  lemma StoreKeepsPopper(s: State, c: nat)
    requires Inv(s) && c == s.q.write && Backlog(s) < SIZE - 1
    ensures Backlog(s) > 0 ==> c != s.q.read
  {
    IndicesTell(s);
  }

  lemma PopKeepsInv(s: State)
    requires Inv(s)
    ensures Inv(Pop(s))
  {
    IndicesTell(s);
    var t := Pop(s);
    match s.popper
    case PopIdle =>
    case CheckEmpty(_) =>
    case LoadRead =>
    case CheckValid(c) => assert SlotOf(s, |s.popped|).valid;
    case LoadPid(c) => assert SlotOf(s, |s.popped|).Content() == s.accepted[|s.popped|];
    case LoadCode(c, _) => assert SlotOf(s, |s.popped|).Content() == s.accepted[|s.popped|];
    case LoadTime(c, _, _) => assert SlotOf(s, |s.popped|).Content() == s.accepted[|s.popped|];
    case ClearValid(c, _) => ClearKeepsInv(s);
    case Release(c, e) => ReleaseKeepsInv(s);
  }

  lemma ClearKeepsInv(s: State)
    requires Inv(s) && s.popper.ClearValid?
    ensures Inv(Pop(s))
  {
    var t := Pop(s);
    forall i | |t.popped| <= i < |t.accepted|
      ensures SlotOf(t, i).Content() == t.accepted[i]
      ensures SlotOf(t, i).valid || (i == |t.popped| && t.popper.Release?)
    {
      if i > |s.popped| {
        SlotsDiffer(|s.popped|, i);
      }
      assert SlotOf(s, i).Content() == s.accepted[i];
    }
    if Backlog(s) < SIZE {
      SlotsDiffer(|s.popped|, |s.accepted|);
    }
  }

  lemma ReleaseStores(s: State)
    requires Inv(s) && s.popper.Release?
    ensures Stored(Pop(s))
  {
    var t := Pop(s);
    forall i | |t.popped| <= i < |t.accepted|
      ensures SlotOf(t, i).Content() == t.accepted[i] && SlotOf(t, i).valid
    {
      assert SlotOf(t, i) == SlotOf(s, i);
    }
  }

  lemma ReleaseKeepsInv(s: State)
    requires Inv(s) && s.popper.Release?
    ensures Inv(Pop(s))
  {
    ReleaseStores(s);
    hide Stored;
    NextModulo(|s.popped|);
    hide Next;
  }

  lemma StepKeepsInv(s: State, a: Action)
    requires Inv(s)
    ensures Inv(Step(s, a))
  {
    match a
    case PusherStep(e) => PushKeepsInv(s, e);
    case PopperStep => PopKeepsInv(s);
  }

  // ---------------------------------------------------------------- all interleavings

  /** Running an interleaving; a step that would leave the buffer ends the run. */
  function Run(s: State, actions: seq<Action>): State
    decreases |actions|
  {
    if actions == [] || !InRange(s) then s else Run(Step(s, actions[0]), actions[1..])
  }

  lemma {:induction false} RunKeepsInv(s: State, actions: seq<Action>)
    requires Inv(s)
    ensures Inv(Run(s, actions))
    decreases |actions|
  {
    if actions != [] {
      StepKeepsInv(s, actions[0]);
      RunKeepsInv(Step(s, actions[0]), actions[1..]);
    }
  }

  /**
   In every interleaving the popped entries are the accepted pushes in order, without loss,
   duplication or mixing of fields; at most 127 entries are pending; and the guard that tests
   `valid` in pop never fails.
   */
  lemma EveryInterleavingIsFifo(actions: seq<Action>)
    ensures var s := Run(INIT, actions);
            && s.popped <= s.accepted
            && |s.accepted| - |s.popped| <= 127
            && !s.guardFailed
  {
    RunKeepsInv(INIT, actions);
  }

  /**
   Each step is a step of an abstract queue, the accepted entries not yet popped: publishing appends
   one, releasing removes the oldest and hands out exactly it, a push is turned away exactly when
   127 entries are pending and a pop finds nothing exactly when none is, and nothing else touches it.
   */
  lemma RefinesAbstractQueue(actions: seq<Action>, a: Action)
    ensures var s := Run(INIT, actions);
            InRange(s) && s.popped <= s.accepted
            && var t := Step(s, a);
               t.popped <= t.accepted
               && t.q.dropped == s.q.dropped + (if a.PusherStep? && s.pusher.Reject? then 1 else 0)
               && var before, after := s.accepted[|s.popped|..], t.accepted[|t.popped|..];
                  match a
                  case PusherStep(_) =>
                    && after == before + (if s.pusher.Publish? then [s.pusher.e] else [])
                    && (s.pusher.CheckFull? ==> (t.pusher.Reject? <==> |before| == 127))
                  case PopperStep =>
                    && (s.popper.Release? ==> before == [s.popper.e] + after && t.popped == s.popped + [s.popper.e])
                    && (!s.popper.Release? ==> after == before && t.popped == s.popped)
                    && (s.popper.CheckEmpty? ==> (t.popper.PopIdle? <==> before == []))
  {
    RunKeepsInv(INIT, actions);
    var s := Run(INIT, actions);
    StepKeepsInv(s, a);
    IndicesTell(s);
  }

  /** The pusher's calls one after another: each starts with the exit it is called for. */
  function Calls(e: Exit, n: nat): seq<Action> {
    seq(n, _ => PusherStep(e))
  }

  lemma {:induction false} RunCalls(s: State, e: Exit, n: nat, t: State)
    requires n > 0 && InRange(s) && t == Push(s, e)
    ensures Run(s, Calls(e, n)) == Run(t, Calls(e, n - 1))
  {
    assert Calls(e, n)[1..] == Calls(e, n - 1);
  }

  /** The pusher about to store into slot `w`, which holds `slot` by now. */
  function Storing(s: State, slot: Slot, pusher: Pusher): State
    requires s.q.write < |s.q.slots|
  {
    s.(q := StorePart(s.q, s.q.write, slot), pusher := pusher)
  }

  lemma StoreSteps(s: State, e: Exit)
    requires InRange(s)
    ensures var w, n, slot := s.q.write, Next(s.q.write), s.q.slots[s.q.write];
            var a, b := slot.(pid := e.pid), slot.(pid := e.pid, code := e.code);
            var c := Slot(e.pid, e.code, e.time, slot.valid);
            && Push(s.(pusher := StorePid(e, w, n)), e) == Storing(s, a, StoreCode(e, w, n))
            && Push(Storing(s, a, StoreCode(e, w, n)), e) == Storing(s, b, StoreTime(e, w, n))
            && Push(Storing(s, b, StoreTime(e, w, n)), e) == Storing(s, c, StoreValid(e, w, n))
            && Push(Storing(s, c, StoreValid(e, w, n)), e) == Storing(s, c.(valid := true), Publish(e, w, n))
  {
    var w, slot := s.q.write, s.q.slots[s.q.write];
    var a, b, c := slot.(pid := e.pid), slot.(pid := e.pid, code := e.code), Slot(e.pid, e.code, e.time, slot.valid);
    StoreTwice(s.q.slots, w, a, b);
    StoreTwice(s.q.slots, w, b, c);
    StoreTwice(s.q.slots, w, c, c.(valid := true));
  }

  lemma StoreTwice(slots: seq<Slot>, w: nat, a: Slot, b: Slot)
    requires w < |slots|
    ensures slots[w := a][w := b] == slots[w := b]
  {
  }

  /** Undisturbed, the seven steps of an accepted push do to the memory what the sequential push does. */
  lemma UndisturbedPush(s: State, e: Exit)
    requires InRange(s) && s.pusher.PushIdle? && Next(s.q.write) != s.q.read
    ensures Run(s, Calls(e, 7))
            == s.(q := s.q.(slots := s.q.slots[s.q.write := Slot(e.pid, e.code, e.time, true)],
                          write := Next(s.q.write)),
                  accepted := s.accepted + [e])
  {
    hide Run;
    StoreSteps(s, e);
    var w, n := s.q.write, Next(s.q.write);
    var slot := s.q.slots[w];
    var s1 := s.(pusher := CheckFull(e, w, n));
    var s2 := s.(pusher := StorePid(e, w, n));
    RunCalls(s, e, 7, s1);
    RunCalls(s1, e, 6, s2);
    var s6 := Storing(s, Slot(e.pid, e.code, e.time, true), Publish(e, w, n));
    var s7 := s6.(q := s6.q.(write := n), pusher := PushIdle, accepted := s.accepted + [e]);
    RunCalls(s6, e, 1, s7);
    RunNothing(s7, e);
    var s3 := Storing(s, slot.(pid := e.pid), StoreCode(e, w, n));
    var s4 := Storing(s, slot.(pid := e.pid, code := e.code), StoreTime(e, w, n));
    var s5 := Storing(s, Slot(e.pid, e.code, e.time, slot.valid), StoreValid(e, w, n));
    hide Push, Storing;
    RunCalls(s2, e, 5, s3);
    RunCalls(s3, e, 4, s4);
    RunCalls(s4, e, 3, s5);
    RunCalls(s5, e, 2, s6);
  }

  lemma RunNothing(s: State, e: Exit)
    ensures Run(s, Calls(e, 0)) == s
  {
  }

  /** The popper's steps one after another. */
  function Pops(n: nat): seq<Action> {
    seq(n, _ => PopperStep)
  }

  lemma {:induction false} RunPops(s: State, n: nat, t: State)
    requires n > 0 && InRange(s) && t == Pop(s)
    ensures Run(s, Pops(n)) == Run(t, Pops(n - 1))
  {
    assert Pops(n)[1..] == Pops(n - 1);
  }

  /**
   Undisturbed, the nine steps of a pop hand out what is in the slot, unmark it and move on; a slot that is
   not marked stops the pop at its test, and an empty queue at once, with the memory as it was.
   */
  lemma UndisturbedPop(s: State)
    requires InRange(s) && s.popper.PopIdle?
    ensures var r, slot := s.q.read, s.q.slots[s.q.read];
            if r == s.q.write then Run(s, Pops(2)) == s
            else if !slot.valid then Run(s, Pops(4)) == s.(guardFailed := true)
            else
              Run(s, Pops(9))
              == s.(q := s.q.(slots := s.q.slots[r := slot.(valid := false)], read := Next(r)),
                    popped := s.popped + [Exit(slot.pid, slot.code, slot.time)])
  {
    hide Run;
    var r, slot := s.q.read, s.q.slots[s.q.read];
    PopsNothing(s);
    var s1 := s.(popper := CheckEmpty(r));
    if r == s.q.write {
      RunPops(s, 2, s1);
      RunPops(s1, 1, s);
    } else {
      var s2, s3 := s.(popper := LoadRead), s.(popper := CheckValid(r));
      if !slot.valid {
        RunPops(s, 4, s1);
        RunPops(s1, 3, s2);
        RunPops(s2, 2, s3);
        RunPops(s3, 1, s.(guardFailed := true));
        PopsNothing(s.(guardFailed := true));
      } else {
        RunPops(s, 9, s1);
        RunPops(s1, 8, s2);
        RunPops(s2, 7, s3);
        FullPop(s);
      }
    }
  }

  /** The pop of a marked slot from its test on. */
  lemma FullPop(s: State)
    requires InRange(s) && s.popper.PopIdle? && s.q.slots[s.q.read].valid
    ensures var r, slot := s.q.read, s.q.slots[s.q.read];
            Run(s.(popper := CheckValid(r)), Pops(6))
            == s.(q := s.q.(slots := s.q.slots[r := slot.(valid := false)], read := Next(r)),
                  popped := s.popped + [Exit(slot.pid, slot.code, slot.time)])
  {
    hide Run;
    var r, slot := s.q.read, s.q.slots[s.q.read];
    var s3, s4, s5 := s.(popper := CheckValid(r)), s.(popper := LoadPid(r)), s.(popper := LoadCode(r, slot.pid));
    var s6 := s.(popper := LoadTime(r, slot.pid, slot.code));
    RunPops(s3, 6, s4);
    RunPops(s4, 5, s5);
    RunPops(s5, 4, s6);
    PopEnds(s);
  }

  /** Its last three steps. */
  lemma PopEnds(s: State)
    requires InRange(s) && s.popper.PopIdle?
    ensures var r, slot := s.q.read, s.q.slots[s.q.read];
            Run(s.(popper := LoadTime(r, slot.pid, slot.code)), Pops(3))
            == s.(q := s.q.(slots := s.q.slots[r := slot.(valid := false)], read := Next(r)),
                  popped := s.popped + [Exit(slot.pid, slot.code, slot.time)])
  {
    hide Run;
    var r, slot := s.q.read, s.q.slots[s.q.read];
    var e := Exit(slot.pid, slot.code, slot.time);
    var s6, s7 := s.(popper := LoadTime(r, slot.pid, slot.code)), s.(popper := ClearValid(r, e));
    var s8 := s.(q := StorePart(s.q, r, slot.(valid := false)), popper := Release(r, e));
    var s9 := s8.(q := s8.q.(read := Next(r)), popper := PopIdle, popped := s.popped + [e]);
    RunPops(s6, 3, s7);
    RunPops(s7, 2, s8);
    RunPops(s8, 1, s9);
    PopsNothing(s9);
  }

  lemma PopsNothing(s: State)
    ensures Run(s, Pops(0)) == s
  {
  }
}
