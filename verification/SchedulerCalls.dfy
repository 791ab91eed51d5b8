/** What the calls of others do in runs of the background thread: registering, enabling and disabling. */
module SchedulerCalls {
  import opened SchedulerRuns
  import opened SharedServices

  /** Each slot in use holds the function of its owner, and no two slots have the same owner. */
  predicate Seated(w: World) {
    && Shape(w)
    && (forall i, j :: 0 <= i < j < |w.owners| ==> w.owners[i] != w.owners[j])
    && forall k :: 0 <= k < |w.owners| ==> w.table.slots[k].fn == w.books[w.owners[k]].fn
  }

  lemma AddKeepsSeats(w: World, fn: nat, context: int, interval: int)
    requires Seated(w) && LockFree(w)
    ensures Seated(AddStep(w, fn, context, interval))
  {
    hide Find;
  }

  /** Which slots are left after a removal. */
  lemma RemovalMoves(w: World, fn: nat)
    requires Shape(w) && LockFree(w)
    ensures var r, at := RemoveStep(w, fn), Find(w.table, fn);
            if LookupReply(w.table, fn) == Success then
              && |r.owners| == |w.owners| - 1 && r.books == w.books && r.phase == w.phase
              && forall k :: 0 <= k < |r.owners| ==>
                   var from := if k < at then k else k + 1;
                   r.owners[k] == w.owners[from] && r.table.slots[k] == w.table.slots[from]
            else r == w
  {
    hide Find;
  }

  lemma RemoveKeepsSeats(w: World, fn: nat)
    requires Seated(w) && LockFree(w)
    ensures Seated(RemoveStep(w, fn))
  {
    RemovalMoves(w, fn);
    hide Find, RemoveStep;
  }

  lemma SwitchKeepsSeats(w: World, fn: nat, enable: bool)
    requires Seated(w)
    ensures Seated(w.(table := Enable(w.table, fn, enable)))
  {
    hide Find;
  }

  lemma StepKeepsSeats(w: World, e: Event)
    requires Seated(w)
    ensures Seated(Apply(w, e))
  {
    hide Find, Due, AddStep, RemoveStep, Enable;
    match e
    case Add(fn, context, interval) =>
      if LockFree(w) {
        AddKeepsSeats(w, fn, context, interval);
      }
    case Remove(fn) =>
      if LockFree(w) {
        RemoveKeepsSeats(w, fn);
      }
    case Switch(fn, enable) => SwitchKeepsSeats(w, fn, enable);
    case _ =>
  }

  lemma {:induction false} RunKeepsSeats(w: World, es: seq<Event>)
    requires Seated(w)
    ensures Seated(Run(w, es))
    decreases |es|
  {
    hide Apply;
    if es != [] {
      StepKeepsSeats(w, es[0]);
      RunKeepsSeats(Apply(w, es[0]), es[1..]);
    }
  }

  /** The registration is switched off wherever it sits. */
  predicate Off(w: World, who: nat)
    requires Shape(w)
  {
    who < |w.books| && forall k :: 0 <= k < |w.owners| && w.owners[k] == who ==> !w.table.slots[k].enabled
  }

  /** The runs of a registration, one that is under way included. */
  function Begun(w: World, who: nat): nat
    requires who < |w.books|
  {
    |w.books[who].runs| + if w.phase.Running? && w.phase.who == who then 1 else 0
  }

  /** Off as before, with the same runs begun. */
  predicate StaysOff(w: World, t: World, who: nat)
    requires Shape(w) && Shape(t) && who < |w.books|
  {
    Off(t, who) && Begun(t, who) == Begun(w, who) && t.books[who].fn == w.books[who].fn
  }

  lemma AddStaysOff(w: World, fn: nat, context: int, interval: int, who: nat)
    requires Seated(w) && Off(w, who) && LockFree(w)
    ensures StaysOff(w, AddStep(w, fn, context, interval), who)
  {
    hide Find;
  }

  lemma RemoveStaysOff(w: World, fn: nat, who: nat)
    requires Seated(w) && Off(w, who) && LockFree(w)
    ensures StaysOff(w, RemoveStep(w, fn), who)
  {
    RemovalMoves(w, fn);
    hide Find, RemoveStep;
  }

  lemma SwitchStaysOff(w: World, fn: nat, enable: bool, who: nat)
    requires Seated(w) && Off(w, who) && !(fn == w.books[who].fn && enable)
    ensures StaysOff(w, w.(table := Enable(w.table, fn, enable)), who)
  {
    FoundFn(w.table, fn);
    hide Find;
  }

  lemma StepStaysOff(w: World, e: Event, who: nat)
    requires Seated(w) && Off(w, who) && e != Switch(w.books[who].fn, true)
    ensures StaysOff(w, Apply(w, e), who)
  {
    hide Find, AddStep, RemoveStep, Enable;
    match e
    case Add(fn, context, interval) =>
      if LockFree(w) {
        AddStaysOff(w, fn, context, interval, who);
      }
    case Remove(fn) =>
      if LockFree(w) {
        RemoveStaysOff(w, fn, who);
      }
    case Switch(fn, enable) => SwitchStaysOff(w, fn, enable, who);
    case _ =>
  }

  lemma FoundFn(t: Table, fn: nat)
    requires ValidTable(t)
    ensures Find(t, fn) < t.count ==> t.slots[Find(t, fn)].fn == fn
  {
  }

  lemma {:induction false} RunStaysOff(w: World, es: seq<Event>, who: nat)
    requires Seated(w) && Off(w, who) && Switch(w.books[who].fn, true) !in es
    ensures var t := Run(w, es);
            Off(t, who) && Begun(t, who) == Begun(w, who)
    decreases |es|
  {
    if es != [] {
      var e := es[0];
      assert e in es && forall x <- es[1..] :: x in es;
      StepKeepsSeats(w, e);
      StepStaysOff(w, e, who);
      hide Apply, Seated, Off;
      RunStaysOff(Apply(w, e), es[1..], who);
    }
  }

  /**
   In every run: once a task is disabled it is not run again until it is enabled, whatever callers and the
   clock do; only a run that is under way at that moment still ends.
   */
  lemma DisabledNeverRuns(clock: int, es: seq<Event>, fn: nat, more: seq<Event>)
    requires var w := Run(Init(clock), es);
             LockFree(w) && LookupReply(w.table, fn) == Success
    requires Switch(fn, true) !in more
    ensures var w := Run(Init(clock), es);
            var who := w.owners[Find(w.table, fn)];
            var t := Run(Apply(w, Switch(fn, false)), more);
            who < |t.books| && who < |w.books| && Begun(t, who) == Begun(w, who)
  {
    RunKeepsSeats(Init(clock), es);
    var w := Run(Init(clock), es);
    hide Run;
    FoundFn(w.table, fn);
    hide Find;
    var off := Apply(w, Switch(fn, false));
    StepKeepsSeats(w, Switch(fn, false));
    RunStaysOff(off, more, w.owners[Find(w.table, fn)]);
  }

  // ---------------------------------------------------------------- registering

  /** A slot in use holds this function. */
  predicate Registered(t: Table, fn: nat)
    requires ValidTable(t)
  {
    exists k :: 0 <= k < t.count && t.slots[k].fn == fn
  }

  lemma FoundExactly(t: Table, fn: nat)
    requires ValidTable(t)
    ensures Find(t, fn) < t.count <==> Registered(t, fn)
  {
  }

  /**
   In every run: a registration needs a function, a positive interval, one of the 32 slots and a function
   that is not registered yet, and is refused for the first of these that it lacks. It takes the next
   slot, enabled, with its first run due an interval from now.
   */
  lemma AddTakesEffect(clock: int, es: seq<Event>, fn: nat, context: int, interval: int)
    requires LockFree(Run(Init(clock), es))
    ensures var w := Run(Init(clock), es);
            var r := Apply(w, Add(fn, context, interval));
            var reply := RegisterReply(w.table, fn, interval);
            if fn == 0 || interval <= 0 then reply == InvalidParams && r == w
            else if w.table.count == 32 then reply == ResourceLimit && r == w
            else if Registered(w.table, fn) then reply == Duplicate && r == w
            else
              && reply == Success && w.table.count < 32
              && r.table == Table(w.table.slots[w.table.count := Task(fn, context, interval, w.clock, true)],
                                  w.table.count + 1, w.table.total)
              && r.books == w.books + [Book(fn, interval, w.clock, [])] && r.owners == w.owners + [|w.books|]
              && r.clock == w.clock && r.phase == w.phase
  {
    var w := Run(Init(clock), es);
    FoundExactly(w.table, fn);
    hide Run, Find, Registered;
  }

  /** In every run: switching finds exactly the registered functions, and switches one of them and nothing else. */
  lemma SwitchTakesEffect(clock: int, es: seq<Event>, fn: nat, enable: bool)
    requires LockFree(Run(Init(clock), es))
    ensures var w := Run(Init(clock), es);
            var r := Apply(w, Switch(fn, enable));
            var reply := LookupReply(w.table, fn);
            if fn == 0 || !Registered(w.table, fn) then
              r == w && reply == (if fn == 0 then InvalidParams else NotFound)
            else
              reply == Success
              && exists k :: 0 <= k < w.table.count && w.table.slots[k].fn == fn
                             && var slots := w.table.slots[k := w.table.slots[k].(enabled := enable)];
                                r == w.(table := w.table.(slots := slots))
  {
    var w := Run(Init(clock), es);
    FoundExactly(w.table, fn);
    FoundFn(w.table, fn);
    hide Run, Find, Registered;
  }

  /** In every run: removing a registered function moves the later slots down, and takes no run back. */
  lemma RemoveTakesEffect(clock: int, es: seq<Event>, fn: nat)
    requires LockFree(Run(Init(clock), es))
    ensures var w := Run(Init(clock), es);
            var r := Apply(w, Remove(fn));
            if fn == 0 || !Registered(w.table, fn) then r == w
            else
              && r.books == w.books && r.phase == w.phase && r.table.total == w.table.total
              && r.table.count == w.table.count - 1
              && exists k :: 0 <= k < w.table.count && w.table.slots[k].fn == fn
                             && r.owners == w.owners[..k] + w.owners[k + 1..]
                             && r.table.slots[..r.table.count]
                                == w.table.slots[..k] + w.table.slots[k + 1..w.table.count]
  {
    var w := Run(Init(clock), es);
    FoundExactly(w.table, fn);
    FoundFn(w.table, fn);
    hide Run, Find, Registered;
    if LookupReply(w.table, fn) == Success {
      var k := Find(w.table, fn);
      var r := RemoveStep(w, fn);
      assert r.table.slots[..r.table.count] == w.table.slots[..k] + w.table.slots[k + 1..w.table.count];
    }
  }
}
