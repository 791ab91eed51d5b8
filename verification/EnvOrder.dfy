/**
 How far the result of the expansion pass of src/foundation/argo_env_load.c depends on the order of the
 array. A variable that is expanded early and is left with a reference in its text is expanded again
 wherever a later variable refers to it.
 */
module EnvOrder {
  import opened CStrings
  import opened EnvExpansion
  import opened EnvStore
  import opened Wrappers

  // ---------------------------------------------------------------- two orders of two variables

  lemma {:induction false} EarlierStay(env: seq<string>, i: nat, k: nat)
    requires k < i <= |env|
    ensures ExpandAll(env, i)[k] == env[k]
    decreases |env| - i
  {
    hide ExpandEntry;
    if i < |env| {
      EarlierStay(env[i := ExpandEntry(env, env[i])], i + 1, k);
    }
  }

  /** The bindings once `x` has been expanded. */
  function Rewritten(m: map<string, string>, x: string): map<string, string>
    requires Expandable(m) && x in m
  {
    m[x := Meaning(m, x)]
  }

  lemma OriginalIsStable(m: map<string, string>, env: seq<string>)
    requires Expandable(m) && AllEntries(env) && Bindings(env) == m
    ensures PartWay(m, env) && AllStable(m, env)
  {
    hide Expandable, Refers, NoReference;
  }

  /** `y` in front is expanded over the original bindings. */
  lemma FirstGetsMeaning(env: seq<string>, y: string, v: string)
    requires env != [] && env[0] == Entry(y, v) && '=' !in y
    requires AllEntries(env) && UniqueNames(env) && Expandable(Bindings(env))
    ensures y in Bindings(env) && Bindings(env)[y] == v
    ensures ExpandEntry(env, env[0]) == Entry(y, Meaning(Bindings(env), y))
  {
    hide Expandable, Meaning, PartWay, AllStable, ExpandEntry;
    EntryParts(y, v);
    OriginalIsStable(Bindings(env), env);
    EntryGetsMeaning(Bindings(env), env, y);
  }

  lemma FirstBinding(env: seq<string>, x: string, v: string, w: string)
    requires env != [] && env[0] == Entry(x, v) && '=' !in x && AllEntries(env)
    ensures AllEntries(env[0 := Entry(x, w)]) && Bindings(env[0 := Entry(x, w)]) == Bindings(env)[x := w]
  {
    EntryParts(x, v);
    EntryParts(x, w);
    hide NameOf, ValueOf, IsEntry;
    assert env[0 := Entry(x, w)][1..] == env[1..];
  }

  /** Two orders of the same entries, `y` in front of `x` and behind it. */
  predicate Swapped(a: seq<string>, b: seq<string>, y: string, vy: string, x: string, vx: string)
  {
    && |a| == |b| >= 2 && a[0] == b[1] == Entry(y, vy) && a[1] == b[0] == Entry(x, vx) && a[2..] == b[2..]
    && '=' !in y && '=' !in x
    && AllEntries(a) && UniqueNames(a)
  }

  lemma SwappedAgree(a: seq<string>, b: seq<string>, y: string, vy: string, x: string, vx: string)
    requires Swapped(a, b, y, vy, x, vx)
    ensures AllEntries(b) && UniqueNames(b) && Bindings(b) == Bindings(a) && x != y
  {
    EntryParts(y, vy);
    EntryParts(x, vx);
    hide NameOf, IsEntry;
    assert forall k :: 2 <= k < |a| ==> b[k] == b[2..][k - 2] && a[k] == a[2..][k - 2];
    assert NameOf(a[0]) == y && NameOf(a[1]) == x;
    forall e
      ensures e in a <==> e in b
    {
      assert a == [a[0], a[1]] + a[2..] && b == [b[0], b[1]] + b[2..];
    }
    forall i, j | 0 <= i < j < |b|
      ensures NameOf(b[i]) != NameOf(b[j])
    {
      assert b[i] == a[if i < 2 then 1 - i else i] && b[j] == a[if j < 2 then 1 - j else j];
    }
    BindingsAnyOrder(a, b);
  }

  /** In front of `x`, `y` gets its meaning; behind `x`, its meaning over the bindings with `x` expanded. */
  lemma TwoOrders(a: seq<string>, b: seq<string>, y: string, vy: string, x: string, vx: string)
    requires Swapped(a, b, y, vy, x, vx)
    requires Expandable(Bindings(a)) && x in Bindings(a) && Expandable(Rewritten(Bindings(a), x))
    ensures y in Bindings(a) && Bindings(a)[y] == vy && Bindings(a)[x] == vx && y in Rewritten(Bindings(a), x)
    ensures ExpandAll(a, 0)[0] == Entry(y, Meaning(Bindings(a), y))
    ensures ExpandAll(b, 0)[1] == Entry(y, Meaning(Rewritten(Bindings(a), x), y))
  {
    hide Expandable, Meaning, PartWay, AllStable, ExpandEntry, ExpandAll, Bindings;
    SwappedAgree(a, b, y, vy, x, vx);
    FirstGetsMeaning(a, y, vy);
    FirstGetsMeaning(b, x, vx);
    PassStep(a, 0);
    EarlierStay(a[0 := ExpandEntry(a, a[0])], 1, 0);
    var next := b[0 := Entry(x, Meaning(Bindings(a), x))];
    FirstBinding(b, x, vx, Meaning(Bindings(a), x));
    PassStep(b, 0);
    OriginalIsStable(Bindings(next), next);
    EntryGetsMeaning(Bindings(next), next, y);
    PassStep(next, 1);
    EarlierStay(next[1 := ExpandEntry(next, next[1])], 2, 1);
  }

  // ---------------------------------------------------------------- substituting an expanded value

  /** `v` refers to `x` from `i` on, itself or through the values of the variables it refers to. */
  predicate Uses(m: map<string, string>, v: string, i: nat, h: nat, x: string)
    requires i <= |v| && Height(m, v, i, h)
    decreases h, |v| - i
  {
    i < |v| &&
    match RefAt(v, i)
    case Some(ref) =>
      ref.name == x || (ref.name in m && Uses(m, m[ref.name], 0, h - 1, x)) || Uses(m, v, ref.next, h, x)
    case None => Uses(m, v, i + 1, h, x)
  }

  lemma {:induction false} RefersUses(m: map<string, string>, v: string, i: nat, h: nat, x: string)
    requires i <= |v| && Height(m, v, i, h) && Refers(v, i, x)
    ensures Uses(m, v, i, h, x)
    decreases |v| - i
  {
    hide FindCharFrom;
    match RefAt(v, i)
    case Some(ref) =>
      if ref.name != x {
        RefersUses(m, v, ref.next, h, x);
      }
    case None => RefersUses(m, v, i + 1, h, x);
  }

  /** `b` is no shorter, or no longer, than `a`. */
  predicate Grows(up: bool, a: string, b: string) {
    if up then |a| <= |b| else |b| <= |a|
  }

  lemma ConcatDiffers(up: bool, a1: string, a2: string, b1: string, b2: string)
    requires Grows(up, a1, b1) && Grows(up, a2, b2)
    ensures Grows(up, a1 + a2, b1 + b2) && (a1 + a2 == b1 + b2 <==> a1 == b1 && a2 == b2)
  {
    if a1 + a2 == b1 + b2 {
      assert |a1| == |b1|;
      assert a1 == (a1 + a2)[..|a1|] && b1 == (b1 + b2)[..|b1|];
      assert a2 == (a1 + a2)[|a1|..] && b2 == (b1 + b2)[|b1|..];
    }
  }

  /**
   What a text becomes when `x` was expanded before: it differs exactly where the text uses `x` and the
   expanded value of `x` does not stand still when it is expanded again.
   */
  lemma {:induction false} FullRewritten(m: map<string, string>, x: string, v: string, i: nat, h: nat, up: bool)
    requires Expandable(m) && x in m && i <= |v| && h <= MAX_DEPTH
    requires var n, f := Rewritten(m, x), Meaning(m, x);
             && Height(m, v, i, h) && Height(n, v, i, h) && Height(n, f, 0, MAX_DEPTH)
             && Grows(up, f, Full(n, f, 0, MAX_DEPTH))
    ensures var n, f := Rewritten(m, x), Meaning(m, x);
            && Grows(up, Full(m, v, i, h), Full(n, v, i, h))
            && (Full(m, v, i, h) == Full(n, v, i, h) <==> !Uses(m, v, i, h, x) || Full(n, f, 0, MAX_DEPTH) == f)
    decreases h, |v| - i
  {
    hide RefAt, FindCharFrom, Expandable, Meaning;
    var n, f := Rewritten(m, x), Meaning(m, x);
    if i < |v| {
      match RefAt(v, i)
      case Some(ref) =>
        var p := if ref.name in m then Full(m, m[ref.name], 0, h - 1) else "";
        var q := if ref.name in m then Full(n, n[ref.name], 0, h - 1) else "";
        if ref.name == x {
          MeaningIs(m, x, h - 1);
          FullIgnoresHeight(n, f, 0, h - 1, MAX_DEPTH);
        } else if ref.name in m {
          FullRewritten(m, x, m[ref.name], 0, h - 1, up);
        }
        FullRewritten(m, x, v, ref.next, h, up);
        ConcatDiffers(up, p, Full(m, v, ref.next, h), q, Full(n, v, ref.next, h));
      case None =>
        FullRewritten(m, x, v, i + 1, h, up);
        ConcatDiffers(up, [v[i]], Full(m, v, i + 1, h), [v[i]], Full(n, v, i + 1, h));
    }
  }

  lemma MeaningIs(m: map<string, string>, x: string, h: nat)
    requires Expandable(m) && x in m && h <= MAX_DEPTH && Height(m, m[x], 0, h)
    ensures Full(m, m[x], 0, h) == Meaning(m, x)
  {
    hide Full, Height, PlainNames;
    FullIgnoresHeight(m, m[x], 0, h, MAX_DEPTH);
  }

  /**
   Where `y` uses `x`, the two orders give `y` the same value if and only if the expanded value of `x`
   stands still when it is expanded again.
   */
  lemma TwoOrdersAgreeExactly(a: seq<string>, b: seq<string>, y: string, vy: string, x: string, vx: string)
    requires Swapped(a, b, y, vy, x, vx)
    requires Expandable(Bindings(a)) && x in Bindings(a) && Expandable(Rewritten(Bindings(a), x))
    requires Height(Bindings(a), vy, 0, MAX_DEPTH) && Uses(Bindings(a), vy, 0, MAX_DEPTH, x)
    ensures ExpandAll(a, 0)[0] == ExpandAll(b, 0)[1]
            <==> Meaning(Rewritten(Bindings(a), x), x) == Meaning(Bindings(a), x)
  {
    var m := Bindings(a);
    var n, f := Rewritten(m, x), Meaning(m, x);
    assert n[x] == f && Height(n, n[x], 0, MAX_DEPTH);
    assert x != y && y in m ==> n[y] == m[y] && Height(n, n[y], 0, MAX_DEPTH);
    TwoOrders(a, b, y, vy, x, vx);
    SwappedAgree(a, b, y, vy, x, vx);
    FullRewritten(m, x, vy, 0, MAX_DEPTH, |f| <= |Full(n, f, 0, MAX_DEPTH)|);
    EntriesDiffer(y, Meaning(m, y), Meaning(n, y));
    hide Full, Height, ExpandAll, Bindings, Uses;
  }

  lemma EntriesDiffer(y: string, v: string, w: string)
    ensures Entry(y, v) == Entry(y, w) <==> v == w
  {
    assert Entry(y, v)[|y| + 1..] == v && Entry(y, w)[|y| + 1..] == w;
  }

  // ---------------------------------------------------------------- references to nothing

  /** Every reference of `v` from `i` on names no variable. */
  predicate Dangling(m: map<string, string>, v: string, i: nat)
    requires i <= |v|
    decreases |v| - i
  {
    i == |v| ||
    match RefAt(v, i)
    case Some(ref) => ref.name !in m && '=' !in ref.name && Dangling(m, v, ref.next)
    case None => Dangling(m, v, i + 1)
  }

  /** Expanding such references shortens the text, unless there is none. */
  lemma {:induction false} DanglingShrinks(m: map<string, string>, v: string, i: nat, h: nat)
    requires i <= |v| && Dangling(m, v, i) && h > 0
    ensures PlainNames(v, i) && Height(m, v, i, h) && |Full(m, v, i, h)| <= |v| - i
    ensures |Full(m, v, i, h)| == |v| - i ==> NoReference(v, i)
    decreases |v| - i
  {
    hide FindCharFrom;
    if i < |v| {
      match RefAt(v, i)
      case Some(ref) => DanglingShrinks(m, v, ref.next, h);
      case None => DanglingShrinks(m, v, i + 1, h);
    }
  }

  lemma {:induction false} DanglingKeys(m: map<string, string>, n: map<string, string>, v: string, i: nat)
    requires i <= |v| && Dangling(m, v, i) && m.Keys == n.Keys
    ensures Dangling(n, v, i)
    decreases |v| - i
  {
    hide FindCharFrom;
    if i < |v| {
      match RefAt(v, i)
      case Some(ref) =>
        assert ref.name in m.Keys <==> ref.name in n.Keys;
        DanglingKeys(m, n, v, ref.next);
      case None => DanglingKeys(m, n, v, i + 1);
    }
  }

  /** With such references in the expanded value of `x`, nothing nests deeper than before. */
  lemma {:induction false} HeightRewritten(m: map<string, string>, x: string, v: string, i: nat, h: nat)
    requires Expandable(m) && x in m && Dangling(m, Meaning(m, x), 0)
    requires i <= |v| && Height(m, v, i, h) && h <= MAX_DEPTH
    ensures Height(Rewritten(m, x), v, i, h)
    decreases h, |v| - i
  {
    hide RefAt, FindCharFrom, Expandable, Meaning;
    var n, f := Rewritten(m, x), Meaning(m, x);
    if i < |v| {
      match RefAt(v, i)
      case Some(ref) =>
        if ref.name == x {
          if h == 1 {
            HeightZeroIsPlain(m, m[x], 0);
            PlainIsFull(m, m[x], 0, 0);
            MeaningIs(m, x, 0);
            assert m[x][0..] == m[x];
            PlainIsFull(n, f, 0, 0);
          } else {
            DanglingKeys(m, n, f, 0);
            DanglingShrinks(n, f, 0, h - 1);
          }
        } else if ref.name in m {
          HeightRewritten(m, x, m[ref.name], 0, h - 1);
        }
        HeightRewritten(m, x, v, ref.next, h);
      case None => HeightRewritten(m, x, v, i + 1, h);
    }
  }

  /** Then the rewritten bindings keep the limits, and the expanded value stands still only without references. */
  lemma RewrittenExpandable(m: map<string, string>, x: string)
    requires Expandable(m) && x in m && Dangling(m, Meaning(m, x), 0)
    ensures Expandable(Rewritten(m, x))
    ensures Meaning(Rewritten(m, x), x) == Meaning(m, x) ==> NoReference(Meaning(m, x), 0)
  {
    hide HasRefMark;
    var n, f := Rewritten(m, x), Meaning(m, x);
    DanglingKeys(m, n, f, 0);
    DanglingShrinks(n, f, 0, MAX_DEPTH);
    forall name <- n
      ensures PlainNames(n[name], 0) && Height(n, n[name], 0, MAX_DEPTH)
      ensures HasRefMark(n[name], 0) ==> |Full(n, n[name], 0, MAX_DEPTH)| < LINE_MAX - 1
    {
      if name != x {
        HeightRewritten(m, x, m[name], 0, MAX_DEPTH);
        FullRewritten(m, x, m[name], 0, MAX_DEPTH, false);
      } else if HasRefMark(f, 0) {
        MarkedFits(m, x);
      }
    }
  }

  /** A variable referred to is another one. */
  lemma {:induction false} RefersDeeper(m: map<string, string>, v: string, i: nat, h: nat, x: string)
    requires i <= |v| && Height(m, v, i, h) && Refers(v, i, x) && x in m
    ensures h > 0 && Height(m, m[x], 0, h - 1)
    decreases |v| - i
  {
    hide FindCharFrom;
    match RefAt(v, i)
    case Some(ref) =>
      if ref.name != x {
        RefersDeeper(m, v, ref.next, h, x);
      }
    case None => RefersDeeper(m, v, i + 1, h, x);
  }

  lemma {:induction false} NoSelfReference(m: map<string, string>, x: string, h: nat)
    requires x in m && Height(m, m[x], 0, h)
    ensures !Refers(m[x], 0, x)
  {
    hide Height, Refers;
    if Refers(m[x], 0, x) {
      RefersDeeper(m, m[x], 0, h, x);
      NoSelfReference(m, x, h - 1);
    }
  }

  // ---------------------------------------------------------------- all orders

  /** `a` holds the entries of `env` in some order. */
  ghost predicate Reorders(env: seq<string>, a: seq<string>) {
    AllEntries(a) && UniqueNames(a) && forall e :: e in env <==> e in a
  }

  /** In whatever order the array is, every variable ends with the same value. */
  ghost predicate OrderFree(env: seq<string>) {
    forall a, b, i, j :: Reorders(env, a) && Reorders(env, b)
                         && 0 <= i < |a| && 0 <= j < |b| && NameOf(a[i]) == NameOf(b[j])
      ==> ExpandAll(a, 0)[i] == ExpandAll(b, 0)[j]
  }

  function Others(env: seq<string>, y: string, x: string): (r: seq<string>)
    requires AllEntries(env)
    ensures forall e :: e in r <==> e in env && NameOf(e) != y && NameOf(e) != x
  {
    if env == [] then []
    else (if NameOf(env[0]) == y || NameOf(env[0]) == x then [] else [env[0]]) + Others(env[1..], y, x)
  }

  lemma {:induction false} OthersUnique(env: seq<string>, y: string, x: string)
    requires AllEntries(env) && UniqueNames(env)
    ensures AllEntries(Others(env, y, x)) && UniqueNames(Others(env, y, x))
  {
    hide NameOf, IsEntry;
    if env != [] {
      OthersUnique(env[1..], y, x);
      var rest := Others(env[1..], y, x);
      forall k | 0 <= k < |rest|
        ensures NameOf(rest[k]) != NameOf(env[0])
      {
        assert rest[k] in env[1..];
      }
    }
  }

  /** The entries with those of `y` and `x` in front. */
  lemma FrontOrder(env: seq<string>, y: string, x: string)
    requires AllEntries(env) && UniqueNames(env) && x != y && x in Bindings(env) && y in Bindings(env)
    ensures var m := Bindings(env);
            var a := [Entry(y, m[y]), Entry(x, m[x])] + Others(env, y, x);
            '=' !in y && '=' !in x && Reorders(env, a)
  {
    var m := Bindings(env);
    BindingAt(env, y);
    BindingAt(env, x);
    var j :| 0 <= j < |env| && NameOf(env[j]) == y && m[y] == ValueOf(env[j]);
    var k :| 0 <= k < |env| && NameOf(env[k]) == x && m[x] == ValueOf(env[k]);
    hide Bindings, NameOf, ValueOf, IsEntry, Entry, UniqueNames, AllEntries, Reorders, Others;
    EntryAgain(env[j]);
    EntryAgain(env[k]);
    TwoInFront(env, j, k);
  }

  lemma TwoInFront(env: seq<string>, j: nat, k: nat)
    requires AllEntries(env) && UniqueNames(env) && j < |env| && k < |env| && NameOf(env[j]) != NameOf(env[k])
    ensures Reorders(env, [env[j], env[k]] + Others(env, NameOf(env[j]), NameOf(env[k])))
  {
    hide NameOf, IsEntry, Others, UniqueNames;
    var rest := Others(env, NameOf(env[j]), NameOf(env[k]));
    OthersUnique(env, NameOf(env[j]), NameOf(env[k]));
    SameEntries(env, j, k, rest);
    StaysUnique(env[j], env[k], rest);
  }

  lemma SameEntries(env: seq<string>, j: nat, k: nat, rest: seq<string>)
    requires AllEntries(env) && UniqueNames(env) && j < |env| && k < |env|
    requires forall e :: e in rest <==> e in env && NameOf(e) != NameOf(env[j]) && NameOf(e) != NameOf(env[k])
    ensures forall e :: e in env <==> e in [env[j], env[k]] + rest
  {
    hide NameOf, IsEntry;
    forall e
      ensures e in env <==> e in [env[j], env[k]] + rest
    {
      if e in env {
        var i :| 0 <= i < |env| && env[i] == e;
        assert i == j || i == k || e in rest;
      }
    }
  }

  lemma StaysUnique(first: string, second: string, rest: seq<string>)
    requires IsEntry(first) && IsEntry(second) && NameOf(first) != NameOf(second)
    requires AllEntries(rest) && UniqueNames(rest)
    requires forall e <- rest :: NameOf(e) != NameOf(first) && NameOf(e) != NameOf(second)
    ensures AllEntries([first, second] + rest) && UniqueNames([first, second] + rest)
  {
    hide NameOf, IsEntry;
    var a := [first, second] + rest;
    assert forall p :: 2 <= p < |a| ==> a[p] == rest[p - 2] && a[p] in rest;
  }

  /** The expanded value of `x` keeps the limits and becomes another one when it is expanded again. */
  predicate ChangesAgain(m: map<string, string>, x: string)
    requires Expandable(m) && x in m
  {
    Expandable(Rewritten(m, x)) && Meaning(Rewritten(m, x), x) != Meaning(m, x)
  }

  /** A variable referred to whose expanded value changes when it is expanded again makes the order matter. */
  lemma ChangeMatters(env: seq<string>, y: string, x: string)
    requires AllEntries(env) && UniqueNames(env) && Expandable(Bindings(env))
    requires x in Bindings(env) && y in Bindings(env) && Refers(Bindings(env)[y], 0, x)
    requires ChangesAgain(Bindings(env), x)
    ensures !OrderFree(env)
  {
    var m := Bindings(env);
    NoSelfReference(m, x, MAX_DEPTH);
    RefersUses(m, m[y], 0, MAX_DEPTH, x);
    assert Height(m, m[y], 0, MAX_DEPTH);
    hide Expandable, Meaning, ExpandAll, Full, Height, Refers, Uses, Bindings, Others, NameOf, IsEntry, UniqueNames;
    FrontOrder(env, y, x);
    FrontOrder(env, x, y);
    OthersSame(env, y, x);
    var rest := Others(env, y, x);
    var a := [Entry(y, m[y]), Entry(x, m[x])] + rest;
    var b := [Entry(x, m[x]), Entry(y, m[y])] + rest;
    BindingsAnyOrder(a, env);
    assert a[2..] == rest && b[2..] == rest;
    TwoOrdersAgreeExactly(a, b, y, m[y], x, m[x]);
    EntryParts(y, m[y]);
    assert NameOf(a[0]) == NameOf(b[1]);
  }

  /** So where the order does not matter, every such value within the limits stands still. */
  lemma OrderFreeStandsStill(env: seq<string>)
    requires AllEntries(env) && UniqueNames(env) && Expandable(Bindings(env)) && OrderFree(env)
    ensures var m := Bindings(env);
            forall y <- m, x <- m :: Refers(m[y], 0, x) && Expandable(Rewritten(m, x)) ==>
              Meaning(Rewritten(m, x), x) == Meaning(m, x)
  {
    var m := Bindings(env);
    hide Expandable, Meaning, Bindings, OrderFree, Refers;
    forall y <- m, x <- m | Refers(m[y], 0, x) && Expandable(Rewritten(m, x))
      ensures Meaning(Rewritten(m, x), x) == Meaning(m, x)
    {
      if Meaning(Rewritten(m, x), x) != Meaning(m, x) {
        ChangeMatters(env, y, x);
      }
    }
  }

  /** References left that name no variable are such a change. */
  lemma DanglingChanges(m: map<string, string>, x: string)
    requires Expandable(m) && x in m && Dangling(m, Meaning(m, x), 0) && !NoReference(Meaning(m, x), 0)
    ensures ChangesAgain(m, x)
  {
    hide Expandable, Meaning, NoReference, Dangling;
    RewrittenExpandable(m, x);
  }

  lemma {:induction false} OthersSame(env: seq<string>, y: string, x: string)
    requires AllEntries(env)
    ensures Others(env, y, x) == Others(env, x, y)
  {
    if env != [] {
      OthersSame(env[1..], y, x);
    }
  }

  /**
   Where every expanded value of a variable that is referred to either has no reference left or changes
   within the limits when it is expanded again, the order of the array does not matter if and only if
   none has a reference left.
   */
  lemma OrderFreeExactly(env: seq<string>)
    requires AllEntries(env) && UniqueNames(env) && Expandable(Bindings(env))
    requires var m := Bindings(env);
             forall y <- m, x <- m :: Refers(m[y], 0, x) ==> NoReference(Meaning(m, x), 0) || ChangesAgain(m, x)
    ensures OrderFree(env) <==> Settled(Bindings(env))
  {
    var m := Bindings(env);
    hide Expandable, Meaning, Bindings, ExpandAll, Refers, NoReference, ChangesAgain;
    if Settled(m) {
      hide Settled;
      forall a, b, i, j | Reorders(env, a) && Reorders(env, b)
                          && 0 <= i < |a| && 0 <= j < |b| && NameOf(a[i]) == NameOf(b[j])
        ensures ExpandAll(a, 0)[i] == ExpandAll(b, 0)[j]
      {
        BindingsAnyOrder(a, env);
        OrderDoesNotMatter(a, b);
      }
    } else {
      var y, x :| y in m && x in m && Refers(m[y], 0, x) && !NoReference(Meaning(m, x), 0);
      ChangeMatters(env, y, x);
    }
  }

  /** In particular where the references left name no variable. */
  lemma OrderFreeWithDangling(env: seq<string>)
    requires AllEntries(env) && UniqueNames(env) && Expandable(Bindings(env))
    requires var m := Bindings(env); forall y <- m, x <- m :: Refers(m[y], 0, x) ==> Dangling(m, Meaning(m, x), 0)
    ensures OrderFree(env) <==> Settled(Bindings(env))
  {
    var m := Bindings(env);
    hide Expandable, Meaning, Bindings, OrderFree, Settled, Refers, NoReference, Dangling, ChangesAgain;
    forall y <- m, x <- m | Refers(m[y], 0, x)
      ensures NoReference(Meaning(m, x), 0) || ChangesAgain(m, x)
    {
      if !NoReference(Meaning(m, x), 0) {
        DanglingChanges(m, x);
      }
    }
    OrderFreeExactly(env);
  }

  // ---------------------------------------------------------------- a reference that does no harm

  lemma {:induction false} NoDollarNoReference(s: string, i: nat)
    requires i <= |s| && '$' !in s[i..]
    ensures NoReference(s, i) && PlainNames(s, i)
    ensures forall x :: !Refers(s, i, x)
    decreases |s| - i
  {
    if i < |s| {
      assert s[i] == s[i..][0] && forall c <- s[i + 1..] :: c in s[i..];
      NoDollarNoReference(s, i + 1);
    }
  }

  lemma OneReferenceFull(m: map<string, string>, name: string, tail: string, h: nat)
    requires h > 0 && '=' !in name && '}' !in name && |name| < VAR_NAME_MAX && '$' !in tail
    requires name in m ==> Height(m, m[name], 0, h - 1)
    ensures var s := "${" + name + "}" + tail;
            && PlainNames(s, 0) && Height(m, s, 0, h) && !NoReference(s, 0) && Refers(s, 0, name)
            && Full(m, s, 0, h) == (if name in m then Full(m, m[name], 0, h - 1) else "") + tail
  {
    var s := "${" + name + "}" + tail;
    FindCharIs(s, 2, |name| + 2, '}');
    assert s[2..|name| + 2] == name;
    assert RefAt(s, 0) == Some(Reference(name, |name| + 3));
    assert s[|name| + 3..] == tail;
    NoDollarNoReference(s, |name| + 3);
    PlainIsFull(m, s, |name| + 3, h);
    hide FindCharFrom;
  }

  lemma LoneDollarFull(m: map<string, string>, h: nat)
    ensures PlainNames("$", 0) && Height(m, "$", 0, h) && Full(m, "$", 0, h) == "$"
  {
    assert RefAt("$", 0) == None;
  }

  lemma JoinedTexts()
    ensures "${" + "D" + "}" + "{C}" == "${D}{C}" && "$" + "{C}" == "${C}"
    ensures "${" + "C" + "}" + "" == "${C}" && "${" + "X" + "}" + "" == "${X}" && "${C}" + "" == "${C}"
  {
  }

  const KNOT := map["D" := "$", "C" := "${D}{C}", "X" := "${D}{C}", "Y" := "${X}"]

  lemma KnotExpands(n: map<string, string>)
    requires n == KNOT || n == KNOT["X" := "${C}"]
    ensures Expandable(n) && Meaning(n, "X") == "${C}"
  {
    hide Full, Height, PlainNames, Refers, NoReference;
    JoinedTexts();
    LoneDollarFull(n, 7);
    LoneDollarFull(n, 8);
    LoneDollarFull(n, 9);
    LoneDollarFull(n, 10);
    OneReferenceFull(n, "D", "{C}", 8);
    OneReferenceFull(n, "D", "{C}", 9);
    OneReferenceFull(n, "D", "{C}", 10);
    OneReferenceFull(n, "C", "", 9);
    OneReferenceFull(n, "C", "", 10);
    OneReferenceFull(n, "X", "", 10);
  }

  const KNOT_ENTRIES: seq<string> := [Entry("Y", "${X}"), Entry("X", "${D}{C}"), Entry("C", "${D}{C}"), Entry("D", "$")]
  const KNOT_SWAPPED: seq<string> := [Entry("X", "${D}{C}"), Entry("Y", "${X}"), Entry("C", "${D}{C}"), Entry("D", "$")]

  lemma {:induction false} EntriesBind(names: seq<string>, values: seq<string>, env: seq<string>)
    requires |names| == |values| == |env|
    requires forall i :: 0 <= i < |env| ==> '=' !in names[i] && env[i] == Entry(names[i], values[i])
    requires forall i, j :: 0 <= i < j < |env| ==> names[i] != names[j]
    ensures AllEntries(env) && UniqueNames(env)
    ensures Bindings(env).Keys == set i | 0 <= i < |names| :: names[i]
    ensures forall i :: 0 <= i < |env| ==> names[i] in Bindings(env) && Bindings(env)[names[i]] == values[i]
  {
    forall i | 0 <= i < |env|
      ensures IsEntry(env[i]) && NameOf(env[i]) == names[i] && ValueOf(env[i]) == values[i]
    {
      EntryParts(names[i], values[i]);
    }
    hide IsEntry, NameOf, ValueOf, Entry, Bindings;
    forall i | 0 <= i < |env|
      ensures names[i] in Bindings(env) && Bindings(env)[names[i]] == values[i]
    {
      NamesAreKeys(env, i);
      BindingAt(env, names[i]);
    }
    forall name <- Bindings(env)
      ensures exists i :: 0 <= i < |names| && names[i] == name
    {
      BindingAt(env, name);
    }
  }

  lemma KnotBinds()
    ensures AllEntries(KNOT_ENTRIES) && UniqueNames(KNOT_ENTRIES) && Bindings(KNOT_ENTRIES) == KNOT
  {
    hide Bindings, Entry, IsEntry, NameOf;
    EntriesBind(["Y", "X", "C", "D"], ["${X}", "${D}{C}", "${D}{C}", "$"], KNOT_ENTRIES);
    var names := ["Y", "X", "C", "D"];
    assert (set i | 0 <= i < |names| :: names[i]) == {names[0], names[1], names[2], names[3]};
  }

  /**
   That no reference is left is not needed in general: here one is left in X, but it expands to itself,
   so that Y gets the same value in front of X and behind it.
   */
  lemma LeftReferenceCanBeHarmless()
    ensures AllEntries(KNOT_ENTRIES) && Bindings(KNOT_ENTRIES) == KNOT && Expandable(KNOT)
    ensures Refers(KNOT["Y"], 0, "X") && !NoReference(Meaning(KNOT, "X"), 0)
    ensures Expandable(Rewritten(KNOT, "X")) && Meaning(Rewritten(KNOT, "X"), "X") == Meaning(KNOT, "X")
    ensures ExpandAll(KNOT_ENTRIES, 0)[0] == ExpandAll(KNOT_SWAPPED, 0)[1]
  {
    hide Full, Height, PlainNames, Refers, NoReference, Expandable, Meaning, Bindings, ExpandAll, Uses, UniqueNames,
      IsEntry, NameOf, Entry;
    KnotExpands(KNOT);
    KnotExpands(KNOT["X" := "${C}"]);
    JoinedTexts();
    OneReferenceFull(map[], "C", "", 1);
    OneReferenceFull(map[], "X", "", 1);
    KnotBinds();
    HeightOf(KNOT, "Y");
    RefersUses(KNOT, "${X}", 0, MAX_DEPTH, "X");
    TwoOrdersAgreeExactly(KNOT_ENTRIES, KNOT_SWAPPED, "Y", "${X}", "X", "${D}{C}");
  }

  lemma HeightOf(m: map<string, string>, name: string)
    requires Expandable(m) && name in m
    ensures Height(m, m[name], 0, MAX_DEPTH)
  {
  }

  // ---------------------------------------------------------------- one environment in two orders

  lemma OneReference(env: seq<string>, name: string, tail: string, depth: nat, acc: string)
    requires depth < MAX_DEPTH && |acc| < LINE_MAX - 1 && '}' !in name && |name| < VAR_NAME_MAX
    ensures var s := "${" + name + "}" + tail;
            var next := AppendRef(env, name, acc, depth);
            ExpandFrom(env, s, 0, acc, depth) == ExpandFrom(env, s, |name| + 3, next, depth)
  {
    var s := "${" + name + "}" + tail;
    FindCharIs(s, 2, |name| + 2, '}');
    assert s[2..|name| + 2] == name;
    assert RefAt(s, 0) == Some(Reference(name, |name| + 3));
    hide AppendRef, FindCharFrom;
  }

  /** Plain text behind a reference is copied. */
  lemma {:induction false} CopiedTail(env: seq<string>, s: string, i: nat, acc: string, depth: nat)
    requires i <= |s| && depth < MAX_DEPTH && '$' !in s[i..] && |acc| + |s| - i < LINE_MAX - 1
    ensures ExpandFrom(env, s, i, acc, depth) == acc + s[i..]
    decreases |s| - i
  {
    if i < |s| {
      assert s[i] == s[i..][0] && s[i..] == [s[i]] + s[i + 1..];
      CopiedTail(env, s, i + 1, acc + [s[i]], depth);
    }
  }

  lemma ReferenceThenPlain(env: seq<string>, name: string, tail: string, depth: nat)
    requires depth < MAX_DEPTH && '}' !in name && |name| < VAR_NAME_MAX && '$' !in tail
    requires |AppendRef(env, name, "", depth)| + |tail| < LINE_MAX - 1
    ensures Expand(env, "${" + name + "}" + tail, depth) == AppendRef(env, name, "", depth) + tail
  {
    var s := "${" + name + "}" + tail;
    hide ExpandFrom, AppendRef;
    OneReference(env, name, tail, depth, "");
    assert s[|name| + 3..] == tail;
    CopiedTail(env, s, |name| + 3, AppendRef(env, name, "", depth), depth);
  }

  lemma LoneDollar(env: seq<string>, depth: nat)
    ensures Expand(env, "$", depth) == "$"
  {
    if depth < MAX_DEPTH {
      assert RefAt("$", 0) == None;
      assert ExpandFrom(env, "$", 0, "", depth) == ExpandFrom(env, "$", 1, "$", depth);
    }
  }

  /** A variable whose value is a lone `$` makes a reference out of the text behind it. */
  lemma DollarJoins(env: seq<string>, depth: nat)
    requires depth + 1 < MAX_DEPTH && Lookup(env, "A") == Some("$")
    ensures Expand(env, "${A}{C}", depth) == "${C}"
  {
    hide Lookup, ExpandFrom;
    LoneDollar(env, depth + 1);
    assert AppendRef(env, "A", "", depth) == "$";
    hide AppendRef, Expand;
    ReferenceThenPlain(env, "A", "{C}", depth);
    assert "${" + "A" + "}" + "{C}" == "${A}{C}" && "$" + "{C}" == "${C}";
  }

  /** A reference alone: the expansion of the value found. */
  lemma ReferenceAlone(env: seq<string>, name: string, depth: nat)
    requires depth < MAX_DEPTH && '}' !in name && |name| < VAR_NAME_MAX
    requires Lookup(env, name).Some? ==> |Expand(env, Lookup(env, name).value, depth + 1)| < LINE_MAX - 1
    ensures Expand(env, "${" + name + "}", depth)
            == match Lookup(env, name) case None => "" case Some(v) => Expand(env, v, depth + 1)
  {
    hide Lookup, ExpandFrom, Expand;
    ReferenceThenPlain(env, name, "", depth);
    assert "${" + name + "}" + "" == "${" + name + "}";
  }

  /** Three variables under their names, found by name. */
  lemma ThreeEntries(env: seq<string>, a: string, b: string, c: string, va: string, vb: string, vc: string)
    requires '=' !in a && '=' !in b && '=' !in c && a != b && a != c && b != c
    requires env == [Entry(a, va), Entry(b, vb), Entry(c, vc)]
    ensures Lookup(env, a) == Some(va) && Lookup(env, b) == Some(vb) && Lookup(env, c) == Some(vc)
    ensures forall name :: '=' !in name && name != a && name != b && name != c ==> Lookup(env, name) == None
    ensures forall i :: 0 <= i < 3 ==> IsEntry(env[i])
    ensures NameOf(env[0]) == a && NameOf(env[1]) == b && ValueOf(env[0]) == va && ValueOf(env[1]) == vb
  {
    EntryParts(a, va);
    EntryParts(b, vb);
    EntryParts(c, vc);
    hide Entry, NameOf, ValueOf, IsEntry, Matches;
    forall name, i | '=' !in name && 0 <= i < 3
      ensures Matches(env[i], name) <==> NameOf(env[i]) == name
    {
      MatchesIsName(env[i], name);
    }
    assert NameOf(env[0]) == a && NameOf(env[1]) == b && NameOf(env[2]) == c;
    FindFromIs(env, b, 0, 1);
    FindFromIs(env, c, 0, 2);
  }

  lemma ReferencesMarked()
    ensures HasRefMark("${X}", 0) && HasRefMark("${A}{C}", 0)
  {
  }

  /** Y before X: when Y is expanded, X still holds the text of its own reference. */
  lemma YieldsBraces()
    ensures ExpandAll([Entry("Y", "${X}"), Entry("X", "${A}{C}"), Entry("A", "$")], 0)[0] == Entry("Y", "${C}")
  {
    hide Expand, Lookup, Entry, IsEntry, NameOf, ValueOf, HasRefMark, ExpandAll;
    var env := [Entry("Y", "${X}"), Entry("X", "${A}{C}"), Entry("A", "$")];
    ThreeEntries(env, "Y", "X", "A", "${X}", "${A}{C}", "$");
    ReferencesMarked();
    DollarJoins(env, 1);
    ReferenceAlone(env, "X", 0);
    assert "${" + "X" + "}" == "${X}";
    PassStep(env, 0);
    EarlierStay(env[0 := ExpandEntry(env, env[0])], 1, 0);
  }

  /** X before Y: when Y is expanded, X was expanded already, into what reads as a reference. */
  lemma YieldsNothing()
    ensures ExpandAll([Entry("X", "${A}{C}"), Entry("Y", "${X}"), Entry("A", "$")], 0)[1] == Entry("Y", "")
  {
    hide Expand, Lookup, Entry, IsEntry, NameOf, ValueOf, HasRefMark, ExpandAll;
    var env := [Entry("X", "${A}{C}"), Entry("Y", "${X}"), Entry("A", "$")];
    ThreeEntries(env, "X", "Y", "A", "${A}{C}", "${X}", "$");
    ReferencesMarked();
    DollarJoins(env, 0);
    PassStep(env, 0);
    var next := [Entry("X", "${C}"), Entry("Y", "${X}"), Entry("A", "$")];
    assert env[0 := ExpandEntry(env, env[0])] == next;
    ThreeEntries(next, "X", "Y", "A", "${C}", "${X}", "$");
    ReferenceAlone(next, "C", 1);
    assert "${" + "C" + "}" == "${C}";
    ReferenceAlone(next, "X", 0);
    assert "${" + "X" + "}" == "${X}";
    PassStep(next, 1);
    EarlierStay(next[1 := ExpandEntry(next, next[1])], 2, 1);
  }

  /**
   A `$` alone does no harm, but here an expansion joins it to the text behind it and makes a reference:
   the same three variables in two orders leave Y with different values.
   */
  lemma OrderMattersOutside()
    ensures var y, x, a := Entry("Y", "${X}"), Entry("X", "${A}{C}"), Entry("A", "$");
            ExpandAll([y, x, a], 0)[0] == Entry("Y", "${C}") && ExpandAll([x, y, a], 0)[1] == Entry("Y", "")
  {
    hide *;
    YieldsBraces();
    YieldsNothing();
  }
}
