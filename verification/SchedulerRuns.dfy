/**
 Runs of the background thread of src/daemon/argo_shared_services.c, interleaved with callers of its
 table. The thread holds the lock while it looks through the table and releases it while a task runs;
 the clock never goes back. Owners and books only observe: they record which registration sits in which
 slot, and when each registration's task really ran.
 */
module SchedulerRuns {
  import opened SharedServices

  /** Running: the lock is free, and the slot to update afterwards is already chosen. */
  datatype Phase =
    | Idle
    | Waiting(now: int)
    | Scanning(now: int, at: nat)
    | Running(now: int, at: nat, who: nat, start: int)

  datatype Span = Span(start: int, finish: int)

  /** One registration: its interval, when it was made, and the runs of its task. */
  datatype Book = Book(fn: nat, interval: int, since: int, runs: seq<Span>)

  datatype World = World(clock: int, table: Table, phase: Phase, owners: seq<nat>, books: seq<Book>)

  datatype Event =
    | Tick(d: nat)
    | ReadClock
    | TakeLock
    | Check
    | Finish
    | Add(fn: nat, context: int, interval: int)
    | Remove(fn: nat)
    | Switch(fn: nat, enable: bool)

  function Init(clock: int): World {
    World(clock, Table(seq(MAX_TASKS, _ => Task(NO_FN, 0, 0, 0, false)), 0, 0), Idle, [], [])
  }

  /** What an observer and the table agree on. */
  predicate Shape(w: World) {
    && ValidTable(w.table)
    && |w.owners| == w.table.count
    && (forall k :: 0 <= k < |w.owners| ==> w.owners[k] < |w.books|)
    && (w.phase.Scanning? ==> w.phase.at <= w.table.count)
    && (w.phase.Running? ==> w.phase.at < MAX_TASKS && w.phase.who < |w.books|)
  }

  /** Callers of the table need the lock. */
  predicate LockFree(w: World) {
    !w.phase.Scanning?
  }

  function CheckStep(w: World): (r: World)
    requires Shape(w) && w.phase.Scanning?
    ensures Shape(r)
  {
    var at := w.phase.at;
    if at == w.table.count then w.(phase := Idle)
    else if Due(w.table.slots[at], w.phase.now)
    then w.(phase := Running(w.phase.now, at, w.owners[at], w.clock))
    else w.(phase := Scanning(w.phase.now, at + 1))
  }

  /** The loop goes on behind the slot, or leaves where the table has shrunk. */
  function FinishStep(w: World): (r: World)
    requires Shape(w) && w.phase.Running?
    ensures Shape(r)
  {
    var p := w.phase;
    var book := w.books[p.who];
    var next := if p.at + 1 <= w.table.count then p.at + 1 else w.table.count;
    w.(table := Finished(w.table, p.at, w.clock),
       phase := Scanning(p.now, next),
       books := w.books[p.who := book.(runs := book.runs + [Span(p.start, w.clock)])])
  }

  function AddStep(w: World, fn: nat, context: int, interval: int): (r: World)
    requires Shape(w) && LockFree(w)
    ensures Shape(r)
  {
    var table := Register(w.table, fn, context, interval, w.clock);
    if RegisterReply(w.table, fn, interval) == Success
    then w.(table := table, owners := w.owners + [|w.books|], books := w.books + [Book(fn, interval, w.clock, [])])
    else w.(table := table)
  }

  function RemoveStep(w: World, fn: nat): (r: World)
    requires Shape(w) && LockFree(w)
    ensures Shape(r)
  {
    var table := Unregister(w.table, fn);
    if LookupReply(w.table, fn) == Success
    then
      var at := Find(w.table, fn);
      w.(table := table, owners := w.owners[..at] + w.owners[at + 1..])
    else w.(table := table)
  }

  /** One step; an event that cannot happen now leaves the world as it is. */
  function Apply(w: World, e: Event): (r: World)
    requires Shape(w)
    ensures Shape(r)
  {
    match e
    case Tick(d) => w.(clock := w.clock + d)
    case ReadClock => if w.phase.Idle? then w.(phase := Waiting(w.clock)) else w
    case TakeLock => if w.phase.Waiting? then w.(phase := Scanning(w.phase.now, 0)) else w
    case Check => if w.phase.Scanning? then CheckStep(w) else w
    case Finish => if w.phase.Running? then FinishStep(w) else w
    case Add(fn, context, interval) => if LockFree(w) then AddStep(w, fn, context, interval) else w
    case Remove(fn) => if LockFree(w) then RemoveStep(w, fn) else w
    case Switch(fn, enable) => if LockFree(w) then w.(table := Enable(w.table, fn, enable)) else w
  }

  function Run(w: World, es: seq<Event>): (r: World)
    requires Shape(w)
    ensures Shape(r)
    decreases |es|
  {
    if es == [] then w else Run(Apply(w, es[0]), es[1..])
  }

  lemma RunCons(w: World, e: Event, es: seq<Event>)
    requires Shape(w)
    ensures Run(w, [e] + es) == Run(Apply(w, e), es)
  {
    hide Apply;
    assert ([e] + es)[1..] == es;
  }

  // ---------------------------------------------------------------- an undisturbed pass

  /** `ends` never goes back, and from slot `at` on it is not before the clock. */
  predicate Onward(ends: seq<int>, at: nat, clock: int) {
    && |ends| == MAX_TASKS
    && (forall i :: at <= i < MAX_TASKS ==> clock <= ends[i])
    && (forall i, j :: 0 <= i <= j < MAX_TASKS ==> ends[i] <= ends[j])
  }

  /** The steps of the thread that make up the rest of a pass nobody disturbs. */
  function PassEvents(w: World, ends: seq<int>): seq<Event>
    requires Shape(w) && w.phase.Scanning? && Onward(ends, w.phase.at, w.clock)
    decreases w.table.count - w.phase.at
  {
    var at := w.phase.at;
    if at == w.table.count then [Check]
    else if Due(w.table.slots[at], w.phase.now)
    then [Check]
         + ([Tick(ends[at] - w.clock)]
            + ([Finish] + PassEvents(FinishStep(CheckStep(w).(clock := ends[at])), ends)))
    else [Check] + PassEvents(CheckStep(w), ends)
  }

  /** An undisturbed pass as one call and as a run of single steps leave the same table. */
  lemma {:induction false} PassIsRun(w: World, ends: seq<int>)
    requires Shape(w) && w.phase.Scanning? && Onward(ends, w.phase.at, w.clock)
    ensures var r := Run(w, PassEvents(w, ends));
            r.phase == Idle && r.table == Pass(w.table, w.phase.now, w.phase.at, ends)
    decreases w.table.count - w.phase.at
  {
    hide Run, Onward, Due, Apply, CheckStep, FinishStep, Finished;
    var at := w.phase.at;
    CheckSteps(w);
    if at == w.table.count {
      RunCons(w, Check, []);
      assert [Check] + [] == [Check];
      RunNothing(CheckStep(w));
    } else if Due(w.table.slots[at], w.phase.now) {
      NextOnward(ends, at, w.clock);
      var started := CheckStep(w);
      var ended := started.(clock := ends[at]);
      var next := FinishStep(ended);
      FinishSteps(started, ends[at]);
      var rest := PassEvents(next, ends);
      PassIsRun(next, ends);
      RunCons(ended, Finish, rest);
      RunCons(started, Tick(ends[at] - w.clock), [Finish] + rest);
      RunCons(w, Check, [Tick(ends[at] - w.clock)] + ([Finish] + rest));
    } else {
      NextOnward(ends, at, w.clock);
      PassIsRun(CheckStep(w), ends);
      RunCons(w, Check, PassEvents(CheckStep(w), ends));
    }
  }

  lemma CheckSteps(w: World)
    requires Shape(w) && w.phase.Scanning?
    ensures var r := CheckStep(w);
            && Apply(w, Check) == r && r.clock == w.clock && r.table == w.table
            && if w.phase.at == w.table.count then r.phase == Idle
               else if Due(w.table.slots[w.phase.at], w.phase.now)
               then r.phase == Running(w.phase.now, w.phase.at, w.owners[w.phase.at], w.clock)
               else r.phase == Scanning(w.phase.now, w.phase.at + 1)
  {
  }

  lemma FinishSteps(w: World, end: int)
    requires Shape(w) && w.phase.Running? && w.clock <= end && w.phase.at < w.table.count
    ensures var ended := w.(clock := end);
            var r := FinishStep(ended);
            && Apply(w, Tick(end - w.clock)) == ended && Apply(ended, Finish) == r
            && r.clock == end && r.phase == Scanning(w.phase.now, w.phase.at + 1)
            && r.table == Finished(w.table, w.phase.at, end) && r.table.count == w.table.count
  {
  }

  lemma NextOnward(ends: seq<int>, at: nat, clock: int)
    requires Onward(ends, at, clock) && at < MAX_TASKS
    ensures clock <= ends[at] && Onward(ends, at + 1, clock) && Onward(ends, at + 1, ends[at])
  {
  }

  lemma RunNothing(w: World)
    requires Shape(w)
    ensures Run(w, []) == w
  {
  }

  // ---------------------------------------------------------------- counting

  function Runs(books: seq<Book>): nat {
    if books == [] then 0 else Runs(books[..|books| - 1]) + |books[|books| - 1].runs|
  }

  lemma {:induction false} RunsOfUpdate(books: seq<Book>, k: nat, b: Book)
    requires k < |books|
    ensures Runs(books[k := b]) == Runs(books) - |books[k].runs| + |b.runs|
  {
    var n := |books| - 1;
    if k == n {
      assert books[k := b][..n] == books[..n];
    } else {
      assert books[k := b][..n] == books[..n][k := b];
      RunsOfUpdate(books[..n], k, b);
    }
  }

  lemma ApplyCounts(w: World, e: Event)
    requires Shape(w) && w.table.total == Runs(w.books)
    ensures Apply(w, e).table.total == Runs(Apply(w, e).books)
  {
    hide Find, Due;
    if e.Finish? && w.phase.Running? {
      var book := w.books[w.phase.who];
      RunsOfUpdate(w.books, w.phase.who, book.(runs := book.runs + [Span(w.phase.start, w.clock)]));
    } else if e.Add? {
      var b := Book(e.fn, e.interval, w.clock, []);
      assert (w.books + [b])[..|w.books|] == w.books;
    }
  }

  lemma {:induction false} RunCounts(w: World, es: seq<Event>)
    requires Shape(w) && w.table.total == Runs(w.books)
    ensures Run(w, es).table.total == Runs(Run(w, es).books)
    decreases |es|
  {
    hide Apply, Runs;
    if es != [] {
      ApplyCounts(w, es[0]);
      RunCounts(Apply(w, es[0]), es[1..]);
    }
  }

  /** Whatever callers do, total_task_runs is the number of runs of all registrations together. */
  lemma TotalCountsAllRuns(clock: int, es: seq<Event>)
    ensures Run(Init(clock), es).table.total == Runs(Run(Init(clock), es).books)
  {
    RunCounts(Init(clock), es);
  }

  // ---------------------------------------------------------------- spacing

  /** When the run before run `i` ended, or the registration was made. */
  function EndBefore(b: Book, i: nat): int
    requires i <= |b.runs|
  {
    if i == 0 then b.since else b.runs[i - 1].finish
  }

  /** The end of the last run, or the time of registration. */
  function LastEnd(b: Book): int {
    EndBefore(b, |b.runs|)
  }

  /** Every run starts at least an interval after the previous one ended. */
  predicate Spaced(b: Book)
    decreases |b.runs|
  {
    b.interval > 0
    && (b.runs != [] ==>
          var before := b.(runs := b.runs[..|b.runs| - 1]);
          var last := b.runs[|b.runs| - 1];
          Spaced(before) && LastEnd(before) + b.interval <= last.start <= last.finish)
  }

  /** A spaced registration has room for its runs between its start and its last end. */
  lemma {:induction false} SpacedRate(b: Book)
    requires Spaced(b)
    ensures |b.runs| * b.interval <= LastEnd(b) - b.since
    decreases |b.runs|
  {
    if b.runs != [] {
      SpacedRate(b.(runs := b.runs[..|b.runs| - 1]));
      var n := |b.runs|;
      assert n * b.interval == (n - 1) * b.interval + b.interval;
    }
  }

  predicate KeepsInterval(b: Book) {
    forall i :: 0 <= i < |b.runs| ==> EndBefore(b, i) + b.interval <= b.runs[i].start
  }

  /** What every pair of consecutive runs of a spaced registration keeps. */
  lemma {:induction false} SpacedPairs(b: Book, k: nat)
    requires Spaced(b) && k < |b.runs|
    ensures EndBefore(b, k) + b.interval <= b.runs[k].start
    decreases |b.runs|
  {
    var n := |b.runs| - 1;
    if k < n {
      SpacedPairs(b.(runs := b.runs[..n]), k);
    }
  }

  /** A slot in use and the book of its owner. */
  predicate SlotAgrees(w: World, k: nat)
    requires Shape(w) && k < |w.owners|
  {
    var b := w.books[w.owners[k]];
    w.table.slots[k].interval == b.interval && LastEnd(b) <= w.table.slots[k].lastRun <= w.clock
  }

  /** The running task started in time, and the chosen slot is its own if it still has one. */
  predicate RunAgrees(w: World)
    requires Shape(w) && w.phase.Running?
  {
    var p := w.phase;
    && p.now <= p.start <= w.clock
    && LastEnd(w.books[p.who]) + w.books[p.who].interval <= p.now
    && forall k :: 0 <= k < |w.owners| && w.owners[k] == p.who ==> k == p.at
  }

  predicate BookHolds(b: Book, clock: int) {
    Spaced(b) && LastEnd(b) <= clock
  }

  predicate Inv(w: World): (r: bool)
    ensures r ==> Shape(w)
  {
    && Shape(w)
    && (forall k :: 0 <= k < |w.books| ==> BookHolds(w.books[k], w.clock))
    && (forall i, j :: 0 <= i < j < |w.owners| ==> w.owners[i] != w.owners[j])
    && (forall k :: 0 <= k < |w.owners| ==> SlotAgrees(w, k))
    && (w.phase.Waiting? || w.phase.Scanning? ==> w.phase.now <= w.clock)
    && (w.phase.Running? ==> RunAgrees(w))
  }

  /** No task is unregistered from a slot below the one whose task is running. */
  predicate KeepsSlot(w: World, e: Event)
    requires Shape(w)
  {
    e.Remove? && w.phase.Running? ==> Find(w.table, e.fn) >= w.phase.at
  }

  predicate AllKeepSlots(w: World, es: seq<Event>)
    requires Shape(w)
    decreases |es|
  {
    es != [] ==> KeepsSlot(w, es[0]) && AllKeepSlots(Apply(w, es[0]), es[1..])
  }

  /** Slots agree as long as the clock only goes on. */
  lemma SlotsStay(w: World, r: World)
    requires Inv(w) && Shape(r)
    requires r.table == w.table && r.owners == w.owners && r.books == w.books && r.clock >= w.clock
    ensures forall k :: 0 <= k < |r.owners| ==> SlotAgrees(r, k)
  {
    forall k | 0 <= k < |r.owners|
      ensures SlotAgrees(r, k)
    {
      assert SlotAgrees(w, k);
    }
  }

  lemma TickKeepsInv(w: World, d: nat)
    requires Inv(w)
    ensures Inv(Apply(w, Tick(d)))
  {
    hide Find, Spaced, LastEnd;
    var r := Apply(w, Tick(d));
    SlotsStay(w, r);
    assert forall k :: 0 <= k < |w.books| ==> BookHolds(w.books[k], w.clock);
  }

  lemma CheckKeepsInv(w: World)
    requires Inv(w) && w.phase.Scanning?
    ensures Inv(CheckStep(w))
  {
    hide Find, Spaced, LastEnd;
    var r := CheckStep(w);
    var at := w.phase.at;
    SlotsStay(w, r);
    if at < w.table.count {
      assert SlotAgrees(w, at);
      assert forall k :: 0 <= k < |w.owners| && k != at ==> w.owners[k] != w.owners[at];
    }
  }

  lemma LongerBook(b: Book, last: Span)
    requires Spaced(b) && LastEnd(b) + b.interval <= last.start <= last.finish
    ensures var r := b.(runs := b.runs + [last]); Spaced(r) && LastEnd(r) == last.finish
  {
    var r := b.(runs := b.runs + [last]);
    assert r.runs[..|r.runs| - 1] == b.runs;
    assert r.(runs := r.runs[..|r.runs| - 1]) == b;
  }

  lemma FinishKeepsInv(w: World)
    requires Inv(w) && w.phase.Running?
    ensures Inv(FinishStep(w))
  {
    var p := w.phase;
    assert BookHolds(w.books[p.who], w.clock);
    LongerBook(w.books[p.who], Span(p.start, w.clock));
    hide Find, Spaced, LastEnd;
    var r := FinishStep(w);
    forall k | 0 <= k < |r.owners|
      ensures SlotAgrees(r, k)
    {
      assert SlotAgrees(w, k);
    }
    forall k | 0 <= k < |r.books|
      ensures BookHolds(r.books[k], r.clock)
    {
      assert BookHolds(w.books[k], w.clock);
    }
  }

  lemma AddKeepsInv(w: World, fn: nat, context: int, interval: int)
    requires Inv(w) && LockFree(w)
    ensures Inv(AddStep(w, fn, context, interval))
  {
    hide Find;
    var r := AddStep(w, fn, context, interval);
    if RegisterReply(w.table, fn, interval) == Success {
      assert BookHolds(Book(fn, interval, w.clock, []), w.clock);
      hide Spaced;
      forall k | 0 <= k < |r.owners|
        ensures SlotAgrees(r, k)
      {
        if k < |w.owners| {
          assert SlotAgrees(w, k);
        }
      }
      assert forall k :: 0 <= k < |w.books| ==> BookHolds(w.books[k], w.clock) && r.books[k] == w.books[k];
    }
  }

  lemma RemoveKeepsInv(w: World, fn: nat)
    requires Inv(w) && LockFree(w) && KeepsSlot(w, Remove(fn))
    ensures Inv(RemoveStep(w, fn))
  {
    hide Find, Spaced, LastEnd;
    var r := RemoveStep(w, fn);
    if LookupReply(w.table, fn) == Success {
      var at := Find(w.table, fn);
      assert forall k :: 0 <= k < |r.owners| ==> r.owners[k] == w.owners[if k < at then k else k + 1];
      forall k | 0 <= k < |r.owners|
        ensures SlotAgrees(r, k)
      {
        assert SlotAgrees(w, if k < at then k else k + 1);
      }
    }
  }

  lemma SwitchKeepsInv(w: World, fn: nat, enable: bool)
    requires Inv(w) && LockFree(w)
    ensures Inv(Apply(w, Switch(fn, enable)))
  {
    hide Find, Spaced, LastEnd;
    var r := Apply(w, Switch(fn, enable));
    forall k | 0 <= k < |r.owners|
      ensures SlotAgrees(r, k)
    {
      assert SlotAgrees(w, k);
    }
  }

  lemma ApplyKeepsInv(w: World, e: Event)
    requires Inv(w) && KeepsSlot(w, e)
    ensures Inv(Apply(w, e))
  {
    hide Inv, KeepsSlot, Shape, CheckStep, FinishStep, AddStep, RemoveStep;
    match e
    case Tick(d) => TickKeepsInv(w, d);
    case ReadClock => ClockReadKeepsInv(w);
    case TakeLock => LockTakenKeepsInv(w);
    case Check => if w.phase.Scanning? { CheckKeepsInv(w); }
    case Finish => if w.phase.Running? { FinishKeepsInv(w); }
    case Add(fn, context, interval) => if LockFree(w) { AddKeepsInv(w, fn, context, interval); }
    case Remove(fn) => if LockFree(w) { RemoveKeepsInv(w, fn); }
    case Switch(fn, enable) => if LockFree(w) { SwitchKeepsInv(w, fn, enable); }
  }

  lemma ClockReadKeepsInv(w: World)
    requires Inv(w)
    ensures Inv(Apply(w, ReadClock))
  {
    hide Find, BookHolds, LastEnd;
    var r := Apply(w, ReadClock);
    SlotsStay(w, r);
  }

  lemma LockTakenKeepsInv(w: World)
    requires Inv(w)
    ensures Inv(Apply(w, TakeLock))
  {
    hide Find, BookHolds, LastEnd;
    var r := Apply(w, TakeLock);
    SlotsStay(w, r);
  }

  lemma {:induction false} RunKeepsInv(w: World, es: seq<Event>)
    requires Inv(w) && AllKeepSlots(w, es)
    ensures Inv(Run(w, es))
    decreases |es|
  {
    hide Inv, Apply, KeepsSlot;
    if es != [] {
      ApplyKeepsInv(w, es[0]);
      RunKeepsInv(Apply(w, es[0]), es[1..]);
    }
  }

  /**
   Every registration's runs are at least its interval apart, counted from the end of the run before,
   and it has run at most (now - registration) / interval times, provided that no task is unregistered
   from a slot below a running one's.
   */
  lemma RateIsBounded(clock: int, es: seq<Event>, k: nat)
    requires AllKeepSlots(Init(clock), es)
    requires k < |Run(Init(clock), es).books|
    ensures var w := Run(Init(clock), es);
            var b := w.books[k];
            && b.interval > 0 && KeepsInterval(b)
            && |b.runs| * b.interval <= w.clock - b.since
            && |b.runs| <= (w.clock - b.since) / b.interval
  {
    hide Run, AllKeepSlots;
    RunKeepsInv(Init(clock), es);
    var w := Run(Init(clock), es);
    assert BookHolds(w.books[k], w.clock);
    HeldBookRate(w.books[k], w.clock);
  }

  lemma HeldBookRate(b: Book, clock: int)
    requires BookHolds(b, clock)
    ensures b.interval > 0 && KeepsInterval(b)
    ensures |b.runs| * b.interval <= clock - b.since && |b.runs| <= (clock - b.since) / b.interval
  {
    SpacedRate(b);
    forall i | 0 <= i < |b.runs|
      ensures EndBefore(b, i) + b.interval <= b.runs[i].start
    {
      SpacedPairs(b, i);
    }
    Quotient(|b.runs|, b.interval, clock - b.since);
  }

  lemma Quotient(n: nat, d: int, m: int)
    requires d > 0 && n * d <= m
    ensures n <= m / d
  {
    if n >= m / d + 1 {
      TimesMore(m / d + 1, n, d);
    }
  }

  lemma TimesMore(a: int, b: int, d: int)
    requires a <= b && d > 0
    ensures a * d <= b * d
  {
  }

  /**
   The proviso is exact: of two removals during a run, the one from a lower slot misdirects the update,
   so that its task is due again as soon as the run has ended; the one from a higher slot does not.
   */
  lemma DueAgainExactly(w: World, fn: nat)
    requires Inv(w) && w.phase.Running? && w.phase.at < w.table.count && w.owners[w.phase.at] == w.phase.who
    requires Due(w.table.slots[w.phase.at], w.phase.now)
    requires LookupReply(w.table, fn) == Success && Find(w.table, fn) != w.phase.at
    ensures var r := FinishStep(RemoveStep(w, fn));
            var below := Find(w.table, fn) < w.phase.at;
            var k := if below then w.phase.at - 1 else w.phase.at;
            && k < |r.owners| && r.owners[k] == w.phase.who
            && LastEnd(r.books[w.phase.who]) == w.clock
            && (Due(r.table.slots[k], w.clock) <==> below)
  {
    hide Find;
    assert SlotAgrees(w, w.phase.at);
    assert BookHolds(w.books[w.phase.who], w.clock);
  }

  // ---------------------------------------------------------------- after a removal from a lower slot

  /** The clock stands still. */
  function Instant(clock: int): seq<int> {
    seq(MAX_TASKS, _ => clock)
  }

  predicate DistinctOwners(w: World) {
    forall i, j :: 0 <= i < j < |w.owners| ==> w.owners[i] != w.owners[j]
  }

  function Ran(b: Book, span: Span): Book {
    b.(runs := b.runs + [span])
  }

  lemma CheckRecords(w: World)
    requires Shape(w) && w.phase.Scanning?
    ensures CheckStep(w).owners == w.owners && CheckStep(w).books == w.books
  {
  }

  lemma FinishRecords(w: World)
    requires Shape(w) && w.phase.Running?
    ensures var r := FinishStep(w);
            && r.owners == w.owners && |r.books| == |w.books|
            && forall o :: 0 <= o < |w.books| ==>
                 r.books[o] == if o == w.phase.who then Ran(w.books[o], Span(w.phase.start, w.clock)) else w.books[o]
  {
  }

  /** What a pass in an instant does to the registration in slot `k`: one run more if the slot was due. */
  lemma {:induction false} PassRecords(w: World, k: nat)
    requires Shape(w) && w.phase.Scanning? && DistinctOwners(w) && k < w.table.count
    requires Onward(Instant(w.clock), w.phase.at, w.clock)
    ensures var r := Run(w, PassEvents(w, Instant(w.clock)));
            && r.owners == w.owners && r.clock == w.clock && |r.books| == |w.books|
            && r.books[w.owners[k]]
               == if w.phase.at <= k && Due(w.table.slots[k], w.phase.now)
                  then Ran(w.books[w.owners[k]], Span(w.clock, w.clock)) else w.books[w.owners[k]]
    decreases w.table.count - w.phase.at
  {
    hide Run, Onward, Due, Apply, CheckStep, FinishStep, Ran;
    var at, ends := w.phase.at, Instant(w.clock);
    CheckSteps(w);
    CheckRecords(w);
    if at == w.table.count {
      RunCons(w, Check, []);
      assert [Check] + [] == [Check];
      RunNothing(CheckStep(w));
    } else if Due(w.table.slots[at], w.phase.now) {
      NextOnward(ends, at, w.clock);
      var started := CheckStep(w);
      FinishSteps(started, w.clock);
      FinishRecords(started.(clock := w.clock));
      var next := FinishStep(started.(clock := ends[at]));
      PassRecords(next, k);
      var rest := PassEvents(next, ends);
      RunCons(started, Finish, rest);
      RunCons(started, Tick(0), [Finish] + rest);
      RunCons(w, Check, [Tick(0)] + ([Finish] + rest));
    } else {
      NextOnward(ends, at, w.clock);
      PassRecords(CheckStep(w), k);
      RunCons(w, Check, PassEvents(CheckStep(w), ends));
    }
  }

  lemma InstantIsOnward(clock: int, at: nat)
    ensures Onward(Instant(clock), at, clock)
  {
  }

  predicate Removes(es: seq<Event>) {
    exists i :: 0 <= i < |es| && es[i].Remove?
  }

  lemma {:induction false} PassRemovesNothing(w: World, ends: seq<int>)
    requires Shape(w) && w.phase.Scanning? && Onward(ends, w.phase.at, w.clock)
    ensures !Removes(PassEvents(w, ends))
    decreases w.table.count - w.phase.at
  {
    hide Onward, Due, CheckStep, FinishStep;
    CheckSteps(w);
    var at := w.phase.at;
    if at < w.table.count {
      NextOnward(ends, at, w.clock);
      if Due(w.table.slots[at], w.phase.now) {
        FinishSteps(CheckStep(w), ends[at]);
        PassRemovesNothing(FinishStep(CheckStep(w).(clock := ends[at])), ends);
      } else {
        PassRemovesNothing(CheckStep(w), ends);
      }
    }
  }

  lemma {:induction false} NoRemovalKeepsSlots(w: World, es: seq<Event>)
    requires Shape(w) && !Removes(es)
    ensures AllKeepSlots(w, es)
    decreases |es|
  {
    hide Apply;
    if es != [] {
      assert !es[0].Remove?;
      assert forall i :: 0 <= i < |es[1..]| ==> es[1..][i] == es[i + 1];
      NoRemovalKeepsSlots(Apply(w, es[0]), es[1..]);
    }
  }

  lemma {:induction false} RunAppend(w: World, es: seq<Event>, more: seq<Event>)
    requires Shape(w)
    ensures Run(w, es + more) == Run(Run(w, es), more)
    decreases |es|
  {
    hide Apply;
    if es == [] {
      assert es + more == more;
    } else {
      assert (es + more)[1..] == es[1..] + more;
      RunAppend(Apply(w, es[0]), es[1..], more);
    }
  }

  /** One pass in an instant, and the next one begun: slot `k` behind the pass is as it was. */
  lemma NextPass(w: World, k: nat) returns (es: seq<Event>)
    requires Shape(w) && w.phase.Scanning? && DistinctOwners(w) && k < w.table.count && k < w.phase.at
    ensures !Removes(es)
    ensures var r := Run(w, es);
            && r.phase == Scanning(w.clock, 0) && r.clock == w.clock && r.owners == w.owners
            && r.table.count == w.table.count && r.table.slots[k] == w.table.slots[k]
            && |r.books| == |w.books| && r.books[w.owners[k]] == w.books[w.owners[k]]
  {
    hide Run, Onward, Due, PassEvents, Pass;
    InstantIsOnward(w.clock, w.phase.at);
    var ends := Instant(w.clock);
    var pass := PassEvents(w, ends);
    PassIsRun(w, ends);
    PassRecords(w, k);
    PassRemovesNothing(w, ends);
    PassKeeps(w.table, w.phase.now, w.phase.at, ends, k);
    var idle := Run(w, pass);
    RunCons(idle, ReadClock, [TakeLock]);
    RunCons(Apply(idle, ReadClock), TakeLock, []);
    RunNothing(Apply(Apply(idle, ReadClock), TakeLock));
    assert [ReadClock] + [TakeLock] == [ReadClock, TakeLock] && [TakeLock] + [] == [TakeLock];
    RunAppend(w, pass, [ReadClock, TakeLock]);
    es := pass + [ReadClock, TakeLock];
  }

  /** A task due in slot `k` while the clock stands still runs again in the next two passes. */
  lemma RunsOnceMore(w: World, k: nat) returns (es: seq<Event>)
    requires Shape(w) && w.phase.Scanning? && DistinctOwners(w) && k < w.table.count && k < w.phase.at
    requires Due(w.table.slots[k], w.clock)
    ensures !Removes(es)
    ensures |Run(w, es).books| == |w.books|
    ensures Run(w, es).books[w.owners[k]] == Ran(w.books[w.owners[k]], Span(w.clock, w.clock))
  {
    hide Run, Onward, Due, PassEvents, Pass, Ran;
    var first := NextPass(w, k);
    var next := Run(w, first);
    InstantIsOnward(next.clock, 0);
    var second := PassEvents(next, Instant(next.clock));
    PassRecords(next, k);
    PassRemovesNothing(next, Instant(next.clock));
    RunAppend(w, first, second);
    es := first + second;
  }

  /** Every registration's runs are at least its interval apart. */
  predicate IntervalsKept(w: World) {
    forall k :: 0 <= k < |w.books| ==> KeepsInterval(w.books[k])
  }

  lemma TwoRunsAtOnce(b: Book, start: int, clock: int)
    requires b.interval > 0
    ensures !KeepsInterval(Ran(Ran(b, Span(start, clock)), Span(clock, clock)))
  {
    var r := Ran(Ran(b, Span(start, clock)), Span(clock, clock));
    var n := |b.runs|;
    assert r.runs[n] == Span(start, clock) && r.runs[n + 1] == Span(clock, clock);
    assert EndBefore(r, n + 1) == clock;
  }

  /** After a removal from a lower slot the run can go on so that the task runs again too early. */
  lemma LowerRemovalBreaksSpacing(w: World, fn: nat) returns (es: seq<Event>)
    requires Inv(w) && w.phase.Running? && w.phase.at < w.table.count && w.owners[w.phase.at] == w.phase.who
    requires Due(w.table.slots[w.phase.at], w.phase.now)
    requires LookupReply(w.table, fn) == Success && Find(w.table, fn) < w.phase.at
    ensures !Removes(es)
    ensures !IntervalsKept(Run(RemoveStep(w, fn), es))
  {
    hide Run, Onward, Due, Find, Spaced, KeepsInterval;
    var who, k := w.phase.who, w.phase.at - 1;
    assert BookHolds(w.books[who], w.clock);
    SpacedInterval(w.books[who]);
    DueAgainExactly(w, fn);
    var removed := RemoveStep(w, fn);
    RemovedStillRuns(w, fn);
    var ended := FinishStep(removed);
    FinishRecords(removed);
    var more := RunsOnceMore(ended, k);
    RunCons(removed, Finish, more);
    es := [Finish] + more;
    var after := Run(removed, es);
    TwoRunsAtOnce(w.books[who], w.phase.start, w.clock);
    assert !KeepsInterval(after.books[who]);
  }

  lemma SpacedInterval(b: Book)
    requires Spaced(b)
    ensures b.interval > 0 && KeepsInterval(b)
  {
    forall i | 0 <= i < |b.runs|
      ensures EndBefore(b, i) + b.interval <= b.runs[i].start
    {
      SpacedPairs(b, i);
    }
  }

  lemma RemovedStillRuns(w: World, fn: nat)
    requires Inv(w) && w.phase.Running? && w.phase.at < w.table.count
    requires LookupReply(w.table, fn) == Success && Find(w.table, fn) < w.phase.at
    ensures var removed := RemoveStep(w, fn);
            && removed.phase == w.phase && removed.clock == w.clock && removed.books == w.books
            && DistinctOwners(removed) && removed.table.count == w.table.count - 1
            && var ended := FinishStep(removed);
               && Apply(removed, Finish) == ended && ended.phase.Scanning? && ended.phase.at >= w.phase.at
               && ended.clock == w.clock && ended.owners == removed.owners && ended.table.count == removed.table.count
  {
    hide Find, Spaced, LastEnd;
  }

  /**
   The proviso is exact for whole runs, too: after the removal of a task while one runs, all runs that
   keep the proviso from there on keep all intervals if and only if the removal was not from a lower slot.
   */
  lemma RemovalSafeExactly(w: World, fn: nat)
    requires Inv(w) && w.phase.Running? && w.phase.at < w.table.count && w.owners[w.phase.at] == w.phase.who
    requires Due(w.table.slots[w.phase.at], w.phase.now) && LookupReply(w.table, fn) == Success
    ensures (forall es :: AllKeepSlots(RemoveStep(w, fn), es) ==> IntervalsKept(Run(RemoveStep(w, fn), es)))
            <==> Find(w.table, fn) >= w.phase.at
  {
    hide Run, AllKeepSlots, Find, Due, Inv, IntervalsKept;
    var removed := RemoveStep(w, fn);
    if Find(w.table, fn) < w.phase.at {
      var es := LowerRemovalBreaksSpacing(w, fn);
      NoRemovalKeepsSlots(removed, es);
    } else {
      RemoveKeepsInv(w, fn);
      forall es | AllKeepSlots(removed, es)
        ensures IntervalsKept(Run(removed, es))
      {
        RunKeepsInv(removed, es);
        InvKeepsIntervals(Run(removed, es));
      }
    }
  }

  lemma InvKeepsIntervals(w: World)
    requires Inv(w)
    ensures IntervalsKept(w)
  {
    hide Spaced, KeepsInterval;
    forall k | 0 <= k < |w.books|
      ensures KeepsInterval(w.books[k])
    {
      assert BookHolds(w.books[k], w.clock);
      SpacedInterval(w.books[k]);
    }
  }

  /** Such a removal happens in a run, and a task whose interval is five runs twice in the same second. */
  lemma EarlierRemovalBreaksSpacing()
    ensures var es := [Add(1, 0, 10), Add(2, 0, 5), Tick(5), ReadClock, TakeLock, Check, Check, Remove(1), Finish,
                       Check, ReadClock, TakeLock, Check, Finish];
            var w := Run(Init(0), es);
            |w.books| == 2 && w.books[1] == Book(2, 5, 0, [Span(5, 5), Span(5, 5)])
  {
    var es := [Add(1, 0, 10), Add(2, 0, 5), Tick(5), ReadClock, TakeLock, Check, Check, Remove(1), Finish,
               Check, ReadClock, TakeLock, Check, Finish];
    hide Run, Apply;
    assert es[0..] == es;
    var w0 := Init(0);
    RunNext(w0, es, 0);
    var w1 := Apply(w0, Add(1, 0, 10));
    RunNext(w1, es, 1);
    var w2 := Apply(w1, Add(2, 0, 5));
    TwoTasks();
    SecondTaskStarts(w2);
    RunFive(w2, es, 2);
    var w7 := w2.(clock := 5, phase := Running(5, 1, 1, 5));
    RunNext(w7, es, 7);
    var w8 := Apply(w7, Remove(1));
    RunNext(w8, es, 8);
    var w9 := Apply(w8, Finish);
    FirstTaskGoes(w7);
    RunFive(w9, es, 9);
    SecondTaskRunsAgain(w9);
    assert es[14..] == [];
    RunNothing(Apply(Apply(Apply(Apply(Apply(w9, Check), ReadClock), TakeLock), Check), Finish));
  }

  lemma RunNext(w: World, es: seq<Event>, i: nat)
    requires Shape(w) && i < |es|
    ensures Run(w, es[i..]) == Run(Apply(w, es[i]), es[i + 1..])
  {
    hide Apply;
    assert es[i..][1..] == es[i + 1..];
  }

  lemma RunFive(w: World, es: seq<Event>, i: nat)
    requires Shape(w) && i + 5 <= |es|
    ensures Run(w, es[i..])
            == Run(Apply(Apply(Apply(Apply(Apply(w, es[i]), es[i + 1]), es[i + 2]), es[i + 3]), es[i + 4]), es[i + 5..])
  {
    hide Run, Apply;
    var w1 := Apply(w, es[i]);
    var w2 := Apply(w1, es[i + 1]);
    var w3 := Apply(w2, es[i + 2]);
    RunNext(w, es, i);
    RunNext(w1, es, i + 1);
    RunNext(w2, es, i + 2);
    RunNext(w3, es, i + 3);
    RunNext(Apply(w3, es[i + 3]), es, i + 4);
  }

  /** The second task of two, due at 5, and its slot. */
  predicate SecondDue(w: World, slot: nat, first: Task)
    requires Shape(w)
  {
    && w.table.count == slot + 1 && w.table.slots[slot] == Task(2, 0, 5, 0, true)
    && w.table.slots[0] == first && |w.books| == 2 && w.owners[slot] == 1
  }

  lemma TwoTasks()
    ensures var w := Apply(Apply(Init(0), Add(1, 0, 10)), Add(2, 0, 5));
            && SecondDue(w, 1, Task(1, 0, 10, 0, true)) && w.owners == [0, 1]
            && w.books[1] == Book(2, 5, 0, []) && w.phase == Idle && w.clock == 0
  {
  }

  lemma SecondTaskStarts(w: World)
    requires Shape(w) && SecondDue(w, 1, Task(1, 0, 10, 0, true)) && w.phase == Idle && w.clock == 0
    ensures Apply(Apply(Apply(Apply(Apply(w, Tick(5)), ReadClock), TakeLock), Check), Check)
            == w.(clock := 5, phase := Running(5, 1, 1, 5))
  {
    var w3 := Apply(Apply(Apply(w, Tick(5)), ReadClock), TakeLock);
    assert w3 == w.(clock := 5, phase := Scanning(5, 0));
    assert Apply(w3, Check) == w.(clock := 5, phase := Scanning(5, 1));
  }

  lemma FirstTaskGoes(w: World)
    requires Shape(w) && SecondDue(w, 1, Task(1, 0, 10, 0, true)) && w.owners == [0, 1]
    requires w.books[1] == Book(2, 5, 0, []) && w.phase == Running(5, 1, 1, 5) && w.clock == 5
    ensures var r := Apply(Apply(w, Remove(1)), Finish);
            && SecondDue(r, 0, Task(2, 0, 5, 0, true)) && r.phase == Scanning(5, 1) && r.clock == 5
            && r.books[1] == Book(2, 5, 0, [Span(5, 5)])
  {
    assert Find(w.table, 1) == 0;
    var r1 := Apply(w, Remove(1));
    assert r1 == RemoveStep(w, 1);
    assert r1.owners == [1];
  }

  lemma SecondTaskRunsAgain(w: World)
    requires Shape(w) && SecondDue(w, 0, Task(2, 0, 5, 0, true)) && w.phase == Scanning(5, 1) && w.clock == 5
    requires w.books[1] == Book(2, 5, 0, [Span(5, 5)])
    ensures var r := Apply(Apply(Apply(Apply(Apply(w, Check), ReadClock), TakeLock), Check), Finish);
            |r.books| == 2 && r.books[1] == Book(2, 5, 0, [Span(5, 5), Span(5, 5)])
  {
    var w3 := Apply(Apply(Apply(w, Check), ReadClock), TakeLock);
    assert w3 == w.(phase := Scanning(5, 0));
    assert Apply(w3, Check) == w.(phase := Running(5, 0, 1, 5));
  }
}
