/** Fresh workflow ids: generate_workflow_id of src/daemon/argo_daemon_workflow_helpers.c. */
module WorkflowIds {
  import opened CStrings
  import opened Decimals
  import opened Supervisor
  import opened SupervisorRuns
  import opened WorkflowRegistry

  /** Size of the id buffer of the caller and of the prefix buffer. */
  const BUFFER: nat := 128

  /** printf("%02d") */
  function TwoDigits(n: nat): string {
    if n < 10 then "0" + Decimal(n) else Decimal(n)
  }

  /** The two digits right behind the prefix, or 0 where the id has none there. */
  function Number(id: string, prefix: string): nat {
    if prefix <= id && |id| >= |prefix| + 2 && IsDigit(id[|prefix|]) && IsDigit(id[|prefix| + 1])
    then 10 * DigitValue(id[|prefix|]) + DigitValue(id[|prefix| + 1])
    else 0
  }

  /** The highest number of the first `n` entries. */
  function Highest(es: seq<Workflow>, prefix: string, n: nat): (m: nat)
    requires n <= |es|
    ensures m <= 99
    ensures forall i :: 0 <= i < n ==> Number(es[i].id, prefix) <= m
  {
    if n == 0 then 0
    else
      var rest := Highest(es, prefix, n - 1);
      var num := Number(es[n - 1].id, prefix);
      if num > rest then num else rest
  }

  /** The id generated when the caller gives no instance suffix. */
  function Generated(es: seq<Workflow>, template: string): string {
    Cut(template + "_" + TwoDigits(Highest(es, Cut(template + "_", BUFFER), |es|) + 1), BUFFER)
  }

  method GenerateId(registry: Registry, template: string, suffix: string) returns (id: string)
    requires registry.Valid()
    ensures id == if suffix != "" then Cut(template + "_" + suffix, BUFFER)
                  else Generated(registry.Contents(), template)
  {
    if suffix != "" {
      return Cut(template + "_" + suffix, BUFFER);
    }
    var entries := registry.List();
    var prefix := Cut(template + "_", BUFFER);
    var maxNum := 0;
    for i := 0 to |entries|
      invariant maxNum == Highest(entries, prefix, i)
    {
      var candidate := entries[i].id;
      if prefix <= candidate {
        var rest := candidate[|prefix|..];
        if |rest| >= 2 && IsDigit(rest[0]) && IsDigit(rest[1]) {
          var num := 10 * DigitValue(rest[0]) + DigitValue(rest[1]);
          if num > maxNum {
            maxNum := num;
          }
        }
      }
    }
    id := Cut(template + "_" + TwoDigits(maxNum + 1), BUFFER);
  }

  lemma TwoDigitsRead(prefix: string, n: nat)
    requires n <= 99
    ensures |TwoDigits(n)| == 2 && Number(prefix + TwoDigits(n), prefix) == n
  {
    var d := TwoDigits(n);
    if n >= 10 {
      assert Decimal(n) == [Digit(n / 10)] + [Digit(n % 10)];
    } else {
      assert d == ['0'] + [Digit(n)];
    }
    var id := prefix + d;
    assert id[|prefix|] == d[0] && id[|prefix| + 1] == d[1];
    assert id[..|prefix|] == prefix;
  }

  /**
   A generated id differs from every id in the registry, except that with number 99 taken it is
   always number 100, whether or not that one is taken, too. Ids are at most 63 long, as the id field
   of an entry is; a longer id that is cut to the caller's buffer is in no registry anyway.
   */
  lemma GeneratedIsFresh(es: seq<Workflow>, template: string)
    requires forall e <- es :: |e.id| <= ID_MAX
    ensures !Has(es, Generated(es, template))
            <==> Highest(es, template + "_", |es|) < 99 || !Has(es, template + "_" + "100")
  {
    hide TwoDigits, Highest, Number, Has;
    var prefix := template + "_";
    var m := Highest(es, prefix, |es|);
    if |template| + 4 >= BUFFER {
      TooLongToBeThere(es, Generated(es, template));
      TooLongToBeThere(es, prefix + "100");
    } else {
      assert Cut(prefix, BUFFER) == prefix;
      if m < 99 {
        TwoDigitsRead(prefix, m + 1);
        NumberIsNew(es, prefix, m + 1);
      } else {
        HundredIsLonger();
      }
    }
  }

  /** An id that begins with the template, an underscore and these two digits. */
  predicate Numbered(id: string, template: string, n: nat)
    requires n < 100
  {
    template + "_" + [Digit(n / 10), Digit(n % 10)] <= id
  }

  predicate SomeNumbered(es: seq<Workflow>, template: string, n: nat)
    requires n < 100
  {
    exists i :: 0 <= i < |es| && Numbered(es[i].id, template, n)
  }

  lemma NumberedIs(id: string, template: string, n: nat)
    requires 0 < n < 100
    ensures Numbered(id, template, n) <==> Number(id, template + "_") == n
  {
    var prefix := template + "_";
    var start := prefix + [Digit(n / 10), Digit(n % 10)];
    if Numbered(id, template, n) {
      assert id[..|prefix|] == start[..|prefix|] == prefix;
      assert id[|prefix|] == start[|prefix|] && id[|prefix| + 1] == start[|prefix| + 1];
    }
    if Number(id, prefix) == n {
      DigitIs(id[|prefix|]);
      DigitIs(id[|prefix| + 1]);
      assert id[..|start|] == start;
    }
  }

  lemma DigitIs(c: char)
    requires IsDigit(c)
    ensures Digit(DigitValue(c)) == c
  {
  }

  lemma {:induction false} HighestIsTaken(es: seq<Workflow>, prefix: string, n: nat)
    requires n <= |es| && Highest(es, prefix, n) > 0
    ensures exists i :: 0 <= i < n && Number(es[i].id, prefix) == Highest(es, prefix, n)
    decreases n
  {
    if Number(es[n - 1].id, prefix) <= Highest(es, prefix, n - 1) {
      HighestIsTaken(es, prefix, n - 1);
    }
  }

  /**
   The number handed out is one more than the highest number `h` in the registry for this template, in
   two digits up to 99 and in three for 100.
   */
  lemma GeneratedIsNext(es: seq<Workflow>, template: string) returns (h: nat)
    requires |template| < 124
    ensures h <= 99 && (h > 0 ==> SomeNumbered(es, template, h))
    ensures forall n :: h < n < 100 ==> !SomeNumbered(es, template, n)
    ensures Generated(es, template)
            == template + "_" + if h < 99 then [Digit((h + 1) / 10), Digit((h + 1) % 10)] else "100"
  {
    var prefix := template + "_";
    h := Highest(es, prefix, |es|);
    if h > 0 {
      HighestIsTaken(es, prefix, |es|);
      var i :| 0 <= i < |es| && Number(es[i].id, prefix) == h;
      NumberedIs(es[i].id, template, h);
    }
    forall n | h < n < 100
      ensures !SomeNumbered(es, template, n)
    {
      forall i | 0 <= i < |es|
        ensures !Numbered(es[i].id, template, n)
      {
        NumberedIs(es[i].id, template, n);
      }
    }
    hide Highest, Number, SomeNumbered;
    if h < 99 {
      TwoDigitsAre(h + 1);
    } else {
      HundredIsLonger();
    }
  }

  lemma TwoDigitsAre(n: nat)
    requires n < 100
    ensures TwoDigits(n) == [Digit(n / 10), Digit(n % 10)]
  {
    if n >= 10 {
      assert Decimal(n) == [Digit(n / 10)] + [Digit(n % 10)];
    } else {
      assert TwoDigits(n) == ['0'] + [Digit(n)];
    }
  }

  lemma TooLongToBeThere(es: seq<Workflow>, id: string)
    requires |id| > ID_MAX && forall e <- es :: |e.id| <= ID_MAX
    ensures !Has(es, id)
  {
  }

  /** So it is over every run, and the id can be started if and only if it is fresh and its template short enough. */
  lemma GeneratedStarts(evs: seq<Event>, template: string, x: StartInput)
    requires x.id == Generated(Run(EMPTY, evs).es, template) && x.safe && x.pipeOk
    ensures var es := Run(EMPTY, evs).es;
            var m := Highest(es, template + "_", |es|);
            Startable(es, x)
            <==> if m < 99 then |template| <= ID_MAX - 3
                 else |template| <= ID_MAX - 4 && !Has(es, template + "_" + "100")
  {
    hide Run, TwoDigits, Highest, Number, Has;
    var es := Run(EMPTY, evs).es;
    IdsFit(evs);
    GeneratedIsFresh(es, template);
    GeneratedLength(es, template);
  }

  lemma GeneratedLength(es: seq<Workflow>, template: string)
    ensures |template| + 4 < BUFFER ==>
              |Generated(es, template)| == |template| + if Highest(es, template + "_", |es|) < 99 then 3 else 4
    ensures |template| + 4 >= BUFFER ==> |Generated(es, template)| > ID_MAX
  {
    hide TwoDigits, Highest, Number;
    var m := Highest(es, template + "_", |es|);
    if m < 99 {
      TwoDigitsRead("", m + 1);
    } else {
      HundredIsLonger();
    }
  }

  /** For every template with room for the numbers: with 99 and 100 started, the generated id is taken. */
  lemma NumbersRunOut(template: string, a: StartInput, b: StartInput)
    requires |template| <= ID_MAX - 4 && a.id == template + "_" + "99" && b.id == template + "_" + "100"
    requires a.safe && a.pipeOk && b.safe && b.pipeOk
    ensures var es := Run(EMPTY, [StartEvent(a), StartEvent(b)]).es;
            |es| == 2 && Has(es, Generated(es, template))
  {
    var prefix := template + "_";
    var w1 := Step(EMPTY, StartEvent(a));
    var w2 := Step(w1, StartEvent(b));
    TwoStarts(a, b);
    var es := w2.es;
    RunOfTwo(StartEvent(a), StartEvent(b));
    NinetyNine();
    TwoDigitsRead(prefix, 99);
    hide TwoDigits, Number, Run, Step, Generated;
    assert es[1].id == prefix + TwoDigits(99);
    assert forall e <- es :: |e.id| <= ID_MAX;
    GeneratedIsFresh(es, template);
    assert es[0].id == prefix + "100";
  }

  lemma TwoStarts(a: StartInput, b: StartInput)
    requires Startable([], a) && Startable([], b) && a.id != b.id
    ensures var es := Step(Step(EMPTY, StartEvent(a)), StartEvent(b)).es;
            |es| == 2 && es[0].id == b.id && es[1].id == a.id
  {
    var es := Step(EMPTY, StartEvent(a)).es;
    assert |es| == 1 && es[0].id == a.id;
    assert !Has(es, b.id);
  }

  lemma RunOfTwo(a: Event, b: Event)
    ensures Run(EMPTY, [a, b]) == Step(Step(EMPTY, a), b)
  {
    hide Step;
    assert [a, b][1..] == [b] && [b][1..] == [];
    assert Run(Step(EMPTY, a), [b]) == Run(Step(Step(EMPTY, a), b), []);
  }

  lemma NinetyNine()
    ensures TwoDigits(99) == "99"
  {
    assert Decimal(9) == "9" && Decimal(99) == "99";
  }

  lemma NumberIsNew(es: seq<Workflow>, prefix: string, n: nat)
    requires Highest(es, prefix, |es|) < n <= 99
    ensures !Has(es, prefix + TwoDigits(n))
  {
    TwoDigitsRead(prefix, n);
    hide Highest, TwoDigits, Number;
  }

  lemma HundredIsLonger()
    ensures TwoDigits(100) == "100"
  {
    assert Decimal(10) == "10" && Decimal(100) == "100";
  }
}
