/**
 What the store means: set, unset and lookup are those of a finite map, and expanding every entry in
 place from left to right is simultaneous substitution over the original environment.
 */
module EnvExpansion {
  import opened EnvStore
  import opened CStrings
  import opened Wrappers

  // ---------------------------------------------------------------- the store is a map

  /** The bindings of the store; where a name occurs twice the first entry counts. */
  function Bindings(env: seq<string>): map<string, string>
    requires AllEntries(env)
  {
    if env == [] then map[] else Bindings(env[1..])[NameOf(env[0]) := ValueOf(env[0])]
  }

  lemma {:induction false} FindFromShift(env: seq<string>, name: string, i: nat)
    requires 0 < |env| && 1 <= i <= |env|
    ensures FindFrom(env, name, i) == FindFrom(env[1..], name, i - 1) + 1
    decreases |env| - i
  {
    if i < |env| && !Matches(env[i], name) {
      FindFromShift(env, name, i + 1);
    }
  }

  /** Looking a name up in the array is looking it up in the map. */
  lemma {:induction false} LookupIsBinding(env: seq<string>, name: string)
    requires AllEntries(env) && '=' !in name
    ensures Lookup(env, name) == if name in Bindings(env) then Some(Bindings(env)[name]) else None
  {
    if env != [] {
      MatchesIsName(env[0], name);
      LookupIsBinding(env[1..], name);
      FindFromShift(env, name, 1);
    }
  }

  lemma SetKeepsNames(env: seq<string>, name: string, value: string)
    requires AllEntries(env) && '=' !in name
    ensures AllEntries(Set(env, name, value)) && (UniqueNames(env) ==> UniqueNames(Set(env, name, value)))
  {
    EntryParts(name, value);
    hide IsEntry, NameOf, Matches, Entry;
    forall k | 0 <= k < |env|
      ensures Matches(env[k], name) <==> NameOf(env[k]) == name
    {
      MatchesIsName(env[k], name);
    }
  }

  /** argo_setenv then argo_getenv: the new value for this name, the old one for every other. */
  lemma SetThenLookup(env: seq<string>, name: string, value: string, asked: string)
    requires AllEntries(env) && '=' !in name && '=' !in asked
    ensures AllEntries(Set(env, name, value))
    ensures Lookup(Set(env, name, value), asked) == if asked == name then Some(value) else Lookup(env, asked)
    ensures UniqueNames(env) ==> UniqueNames(Set(env, name, value))
  {
    SetKeepsNames(env, name, value);
    hide UniqueNames;
    EntryParts(name, value);
    var after := Set(env, name, value);
    forall k | 0 <= k < |after|
      ensures IsEntry(after[k])
      ensures k < |env| && asked != name ==> (Matches(after[k], asked) <==> Matches(env[k], asked))
      ensures Matches(after[k], asked) <==> NameOf(after[k]) == asked
    {
      MatchesIsName(after[k], asked);
      if k < |env| {
        MatchesIsName(env[k], asked);
        MatchesIsName(env[k], name);
      }
    }
    var i := FindFrom(env, name, 0);
    if asked == name {
      FindFromIs(after, name, 0, i);
    } else {
      var j := FindFrom(env, asked, 0);
      if j < |env| {
        FindFromIs(after, asked, 0, j);
      }
    }
  }

  lemma UnsetKeepsNames(env: seq<string>, name: string)
    requires AllEntries(env) && UniqueNames(env)
    ensures var after, i := Unset(env, name), FindFrom(env, name, 0);
            && AllEntries(after) && UniqueNames(after)
            && forall k :: 0 <= k < |after| ==> after[k] == env[if k < i then k else k + 1]
  {
    hide FindFrom, NameOf, IsEntry, Matches;
    var after, i := Unset(env, name), FindFrom(env, name, 0);
    forall k | 0 <= k < |after|
      ensures after[k] == env[if k < i then k else k + 1]
    {
    }
    hide Unset;
    forall a, b | 0 <= a < b < |after|
      ensures NameOf(after[a]) != NameOf(after[b])
    {
      assert after[a] == env[if a < i then a else a + 1];
      assert after[b] == env[if b < i then b else b + 1];
    }
  }

  /** argo_unsetenv then argo_getenv, where names are unique: this name is gone, every other stays. */
  lemma UnsetThenLookup(env: seq<string>, name: string, asked: string)
    requires AllEntries(env) && UniqueNames(env) && '=' !in name && '=' !in asked
    ensures AllEntries(Unset(env, name)) && UniqueNames(Unset(env, name))
    ensures Lookup(Unset(env, name), asked) == if asked == name then None else Lookup(env, asked)
  {
    hide FindFrom, FindCharFrom;
    UnsetKeepsNames(env, name);
    var after, i := Unset(env, name), FindFrom(env, name, 0);
    hide Unset;
    forall k | 0 <= k < |env|
      ensures Matches(env[k], asked) <==> NameOf(env[k]) == asked
      ensures Matches(env[k], name) <==> NameOf(env[k]) == name
    {
      MatchesIsName(env[k], asked);
      MatchesIsName(env[k], name);
    }
    hide Matches, NameOf, ValueOf;
    var j := FindFrom(env, asked, 0);
    if asked != name && j < |env| {
      FindFromIs(after, asked, 0, if j < i then j else j - 1);
    }
  }

  // ---------------------------------------------------------------- simultaneous substitution

  /** No reference of `v` from `i` on has an equals sign in its name. */
  predicate PlainNames(v: string, i: nat)
    requires i <= |v|
    decreases |v| - i
  {
    i == |v| ||
    match RefAt(v, i)
    case Some(ref) => '=' !in ref.name && PlainNames(v, ref.next)
    case None => PlainNames(v, i + 1)
  }

  /** No well-formed reference begins in `v` from `i` on; a `$` alone does no harm. */
  predicate NoReference(v: string, i: nat)
    requires i <= |v|
    decreases |v| - i
  {
    i == |v| || (RefAt(v, i).None? && NoReference(v, i + 1))
  }

  /** A reference of `v` from `i` on names `x`. */
  predicate Refers(v: string, i: nat, x: string)
    requires i <= |v|
    decreases |v| - i
  {
    i < |v| &&
    match RefAt(v, i)
    case Some(ref) => ref.name == x || Refers(v, ref.next, x)
    case None => Refers(v, i + 1, x)
  }

  /** References nest at most `h` deep below `v` from `i` on; in particular they are acyclic. */
  predicate Height(m: map<string, string>, v: string, i: nat, h: nat)
    requires i <= |v|
    decreases h, |v| - i
  {
    i == |v| ||
    match RefAt(v, i)
    case Some(ref) =>
      h > 0 && (ref.name in m ==> Height(m, m[ref.name], 0, h - 1)) && Height(m, v, ref.next, h)
    case None => Height(m, v, i + 1, h)
  }

  /** Substitute every reference by the full substitution of its value; undefined names vanish. */
  function Full(m: map<string, string>, v: string, i: nat, h: nat): string
    requires i <= |v| && Height(m, v, i, h)
    decreases h, |v| - i
  {
    if i == |v| then ""
    else
      match RefAt(v, i)
      case Some(ref) =>
        (if ref.name in m then Full(m, m[ref.name], 0, h - 1) else "") + Full(m, v, ref.next, h)
      case None => [v[i]] + Full(m, v, i + 1, h)
  }

  /** The height only bounds the recursion; it does not change the result. */
  lemma {:induction false} FullIgnoresHeight(m: map<string, string>, v: string, i: nat, h: nat, more: nat)
    requires i <= |v| && Height(m, v, i, h) && h <= more
    ensures Height(m, v, i, more) && Full(m, v, i, more) == Full(m, v, i, h)
    decreases h, |v| - i
  {
    hide RefAt, FindCharFrom;
    if i < |v| {
      match RefAt(v, i)
      case Some(ref) =>
        if ref.name in m {
          FullIgnoresHeight(m, m[ref.name], 0, h - 1, more - 1);
        }
        FullIgnoresHeight(m, v, ref.next, h, more);
      case None => FullIgnoresHeight(m, v, i + 1, h, more);
    }
  }

  /**
   The limits of the code: names without `=`, nesting of at most 10, and full substitutions that fit the
   line buffer where there is anything to substitute. Other values may have any length.
   */
  predicate Expandable(m: map<string, string>) {
    forall name <- m ::
      && PlainNames(m[name], 0) && Height(m, m[name], 0, MAX_DEPTH)
      && (HasRefMark(m[name], 0) ==> |Full(m, m[name], 0, MAX_DEPTH)| < LINE_MAX - 1)
  }

  function Meaning(m: map<string, string>, name: string): string
    requires Expandable(m) && name in m
  {
    Full(m, m[name], 0, MAX_DEPTH)
  }

  /** No variable that is referred to has a reference left in its full substitution. */
  predicate Settled(m: map<string, string>)
    requires Expandable(m)
  {
    forall y <- m, x <- m :: Refers(m[y], 0, x) ==> NoReference(Meaning(m, x), 0)
  }

  /** Text without references expands to itself as long as it fits the buffer. */
  lemma {:induction false} PlainExpands(env: seq<string>, s: string, i: nat, acc: string, depth: nat)
    requires i <= |s| && depth < MAX_DEPTH && NoReference(s, i) && |acc| + |s| - i < LINE_MAX
    ensures ExpandFrom(env, s, i, acc, depth) == acc + s[i..]
    decreases |s| - i
  {
    if i < |s| && |acc| < LINE_MAX - 1 {
      PlainExpands(env, s, i + 1, acc + [s[i]], depth);
      assert acc + [s[i]] + s[i + 1..] == acc + s[i..];
    }
  }

  lemma {:induction false} PlainIsFull(m: map<string, string>, s: string, i: nat, h: nat)
    requires i <= |s| && NoReference(s, i)
    ensures Height(m, s, i, h) && Full(m, s, i, h) == s[i..]
    decreases |s| - i
  {
    if i < |s| {
      PlainIsFull(m, s, i + 1, h);
      assert s[i..] == [s[i]] + s[i + 1..];
    }
  }

  /** A text of height 0 contains no reference. */
  lemma {:induction false} HeightZeroIsPlain(m: map<string, string>, v: string, i: nat)
    requires i <= |v| && Height(m, v, i, 0)
    ensures NoReference(v, i)
    decreases |v| - i
  {
    if i < |v| {
      HeightZeroIsPlain(m, v, i + 1);
    }
  }

  // ---------------------------------------------------------------- the in-place pass

  /** The array part-way through the pass: each name still has its value or already its meaning. */
  predicate PartWay(m: map<string, string>, cur: seq<string>)
    requires Expandable(m)
  {
    && AllEntries(cur)
    && Bindings(cur).Keys == m.Keys
    && forall name <- m :: Bindings(cur)[name] == m[name] || Bindings(cur)[name] == Meaning(m, name)
  }

  /** The value found for `name` is as it was, or can be expanded again without harm. */
  predicate Stable(m: map<string, string>, cur: seq<string>, name: string)
    requires Expandable(m) && PartWay(m, cur) && name in m
  {
    Bindings(cur)[name] == m[name] || NoReference(Meaning(m, name), 0)
  }

  /** So is every value a variable refers to. */
  predicate AllStable(m: map<string, string>, cur: seq<string>)
    requires Expandable(m) && PartWay(m, cur)
  {
    forall y <- m, x <- m :: Refers(m[y], 0, x) ==> Stable(m, cur, x)
  }

  /** Expanding the value found for `name` gives its meaning, whether or not it was expanded already. */
  lemma {:induction false} BoundValueExpands(m: map<string, string>, cur: seq<string>, name: string, depth: nat, h: nat)
    requires Expandable(m) && PartWay(m, cur) && AllStable(m, cur) && name in m && Stable(m, cur, name)
    requires Height(m, m[name], 0, h) && depth + h <= MAX_DEPTH && |Full(m, m[name], 0, h)| < LINE_MAX - 1
    ensures Expand(cur, Bindings(cur)[name], depth) == Full(m, m[name], 0, h)
    decreases h, 1, 0
  {
    hide RefAt, FindFrom, FindCharFrom, Lookup, Bindings, HasRefMark, ExpandFrom, Full, Height, PlainNames, Refers,
      NoReference;
    FullIgnoresHeight(m, m[name], 0, h, MAX_DEPTH);
    var v := Bindings(cur)[name];
    if v == m[name] {
      if depth >= MAX_DEPTH {
        HeightZeroIsPlain(m, v, 0);
        PlainIsFull(m, v, 0, 0);
        assert v[0..] == v;
      } else {
        TextExpands(m, cur, v, 0, "", depth, h);
      }
    } else {
      if depth < MAX_DEPTH {
        PlainExpands(cur, v, 0, "", depth);
        assert v[0..] == v;
      }
    }
  }

  /** A reference appends the full substitution of what it is bound to. */
  lemma {:induction false} ReferenceAppends(m: map<string, string>, cur: seq<string>, name: string, acc: string,
                                            depth: nat, h: nat)
    requires Expandable(m) && PartWay(m, cur) && AllStable(m, cur) && '=' !in name
    requires h > 0 && depth < MAX_DEPTH && depth + h <= MAX_DEPTH
    requires name in m ==> Stable(m, cur, name) && Height(m, m[name], 0, h - 1)
                           && |acc| + |Full(m, m[name], 0, h - 1)| < LINE_MAX - 1
    ensures AppendRef(cur, name, acc, depth) == acc + if name in m then Full(m, m[name], 0, h - 1) else ""
    decreases h, 0, 0
  {
    hide Lookup, Bindings, Stable, AllStable, Expandable, Full, Height, Expand;
    LookupIsBinding(cur, name);
    if name in m {
      BoundValueExpands(m, cur, name, depth + 1, h - 1);
    }
  }

  lemma {:induction false} TextExpands(m: map<string, string>, cur: seq<string>, s: string, i: nat, acc: string,
                                       depth: nat, h: nat)
    requires Expandable(m) && PartWay(m, cur) && AllStable(m, cur)
    requires i <= |s| && PlainNames(s, i) && Height(m, s, i, h)
    requires forall x <- m :: Refers(s, i, x) ==> Stable(m, cur, x)
    requires depth < MAX_DEPTH && depth + h <= MAX_DEPTH
    requires |acc| + |Full(m, s, i, h)| < LINE_MAX - 1
    ensures ExpandFrom(cur, s, i, acc, depth) == acc + Full(m, s, i, h)
    decreases h, 0, |s| - i
  {
    hide RefAt, FindFrom, FindCharFrom, Lookup, Bindings, HasRefMark, Meaning, AllStable, Stable, NoReference;
    if i < |s| {
      match RefAt(s, i)
      case Some(ref) =>
        var x := if ref.name in m then Full(m, m[ref.name], 0, h - 1) else "";
        assert ref.name in m ==> Refers(s, i, ref.name);
        ReferenceAppends(m, cur, ref.name, acc, depth, h);
        TextExpands(m, cur, s, ref.next, acc + x, depth, h);
        Joined(acc, x, Full(m, s, ref.next, h));
      case None =>
        TextExpands(m, cur, s, i + 1, acc + [s[i]], depth, h);
        Joined(acc, [s[i]], Full(m, s, i + 1, h));
    }
  }

  lemma {:induction false} NoMarkIsPlain(v: string, i: nat)
    requires i <= |v| && !HasRefMark(v, i)
    ensures NoReference(v, i)
    decreases |v| - i
  {
    if i < |v| {
      assert RefAt(v, i) == None;
      NoMarkIsPlain(v, i + 1);
    }
  }

  /** One entry of the pass: whatever its turn, it ends with its meaning over the original environment. */
  lemma EntryGetsMeaning(m: map<string, string>, cur: seq<string>, name: string)
    requires Expandable(m) && PartWay(m, cur) && AllStable(m, cur) && name in m && '=' !in name
    ensures ExpandEntry(cur, Entry(name, m[name])) == Entry(name, Meaning(m, name))
  {
    hide RefAt, FindFrom, FindCharFrom, Lookup, Bindings, HasRefMark, ExpandFrom, Full, Height, PlainNames, AppendRef,
      PartWay, Stable, Refers, NoReference;
    EntryParts(name, m[name]);
    var v := m[name];
    if HasRefMark(v, 0) {
      assert forall x <- m :: Refers(v, 0, x) ==> Stable(m, cur, x);
      TextExpands(m, cur, v, 0, "", 0, MAX_DEPTH);
    } else {
      NoMarkIsPlain(v, 0);
      PlainIsFull(m, v, 0, MAX_DEPTH);
      assert v[0..] == v;
    }
  }

  /** The array with the first `i` entries replaced by their meanings. */
  function Resolved(m: map<string, string>, env: seq<string>, i: nat): (r: seq<string>)
    requires Expandable(m) && AllEntries(env) && i <= |env|
    requires forall k :: 0 <= k < |env| ==> NameOf(env[k]) in m
    ensures |r| == |env|
    ensures forall k :: 0 <= k < |env| ==>
      r[k] == if k < i then Entry(NameOf(env[k]), Meaning(m, NameOf(env[k]))) else env[k]
  {
    seq(|env|, k requires 0 <= k < |env| =>
      if k < i then Entry(NameOf(env[k]), Meaning(m, NameOf(env[k]))) else env[k])
  }

  lemma {:induction false} BindingAt(env: seq<string>, name: string)
    requires AllEntries(env) && name in Bindings(env)
    ensures exists k :: 0 <= k < |env| && NameOf(env[k]) == name && Bindings(env)[name] == ValueOf(env[k])
  {
    if NameOf(env[0]) != name {
      BindingAt(env[1..], name);
      var k :| 0 <= k < |env[1..]| && NameOf(env[1..][k]) == name && Bindings(env[1..])[name] == ValueOf(env[1..][k]);
      assert env[k + 1] == env[1..][k];
    } else {
      assert NameOf(env[0]) == name;
    }
  }

  lemma {:induction false} NamesAreKeys(env: seq<string>, k: nat)
    requires AllEntries(env) && k < |env|
    ensures NameOf(env[k]) in Bindings(env)
  {
    if k > 0 {
      NamesAreKeys(env[1..], k - 1);
    }
  }

  /** Arrays with the same names in the same order bind the same names. */
  lemma {:induction false} SameNamesSameKeys(a: seq<string>, b: seq<string>)
    requires AllEntries(a) && AllEntries(b) && |a| == |b|
    requires forall k :: 0 <= k < |a| ==> NameOf(a[k]) == NameOf(b[k])
    ensures Bindings(a).Keys == Bindings(b).Keys
  {
    if a != [] {
      assert NameOf(a[0]) == NameOf(b[0]);
      SameNamesSameKeys(a[1..], b[1..]);
    }
  }

  lemma ResolvedEntries(env: seq<string>, i: nat)
    requires AllEntries(env) && Expandable(Bindings(env)) && i <= |env|
    requires forall k :: 0 <= k < |env| ==> NameOf(env[k]) in Bindings(env)
    ensures var m, cur := Bindings(env), Resolved(Bindings(env), env, i);
            && AllEntries(cur)
            && (forall k :: 0 <= k < |env| ==> NameOf(cur[k]) == NameOf(env[k]))
            && (forall k :: 0 <= k < |env| ==>
                  ValueOf(cur[k]) == if k < i then Meaning(m, NameOf(env[k])) else ValueOf(env[k]))
  {
    hide Full, Height, PlainNames, FindCharFrom, Bindings, Meaning, Expandable;
    var m := Bindings(env);
    var cur := Resolved(m, env, i);
    forall k | 0 <= k < |cur|
      ensures IsEntry(cur[k]) && NameOf(cur[k]) == NameOf(env[k])
      ensures ValueOf(cur[k]) == if k < i then Meaning(m, NameOf(env[k])) else ValueOf(env[k])
    {
      EntryAgain(env[k]);
      EntryParts(NameOf(env[k]), Meaning(m, NameOf(env[k])));
    }
  }

  lemma ResolvedIsPartWay(env: seq<string>, i: nat)
    requires AllEntries(env) && UniqueNames(env) && Expandable(Bindings(env)) && i <= |env|
    requires forall k :: 0 <= k < |env| ==> NameOf(env[k]) in Bindings(env)
    ensures PartWay(Bindings(env), Resolved(Bindings(env), env, i))
  {
    hide Full, Height, PlainNames, FindCharFrom, Bindings, Meaning, Expandable, NameOf, ValueOf;
    var m := Bindings(env);
    var cur := Resolved(m, env, i);
    ResolvedEntries(env, i);
    SameNamesSameKeys(cur, env);
    forall name <- m
      ensures Bindings(cur)[name] == m[name] || Bindings(cur)[name] == Meaning(m, name)
    {
      BindingAt(cur, name);
      BindingAt(env, name);
      var k :| 0 <= k < |cur| && NameOf(cur[k]) == name && Bindings(cur)[name] == ValueOf(cur[k]);
      var j :| 0 <= j < |env| && NameOf(env[j]) == name && m[name] == ValueOf(env[j]);
      assert j == k;
    }
  }

  /** In an array of unique names, entry `i` is what its name is bound to. */
  lemma EntryIsBinding(env: seq<string>, i: nat)
    requires AllEntries(env) && UniqueNames(env) && i < |env|
    ensures var name := NameOf(env[i]);
            name in Bindings(env) && env[i] == Entry(name, Bindings(env)[name]) && '=' !in name
  {
    hide Bindings, FindCharFrom;
    var name := NameOf(env[i]);
    NamesAreKeys(env, i);
    BindingAt(env, name);
    EntryAgain(env[i]);
  }

  lemma SettledIsStable(m: map<string, string>, cur: seq<string>)
    requires Expandable(m) && Settled(m) && PartWay(m, cur)
    ensures AllStable(m, cur)
  {
    hide Expandable, PartWay, Refers, NoReference;
  }

  lemma ResolvesNext(env: seq<string>, i: nat)
    requires AllEntries(env) && UniqueNames(env) && Expandable(Bindings(env)) && Settled(Bindings(env)) && i < |env|
    requires forall k :: 0 <= k < |env| ==> NameOf(env[k]) in Bindings(env)
    ensures var cur := Resolved(Bindings(env), env, i);
            cur[i := ExpandEntry(cur, cur[i])] == Resolved(Bindings(env), env, i + 1)
  {
    hide Full, Height, PlainNames, FindCharFrom, Bindings, Meaning, Expandable, NameOf, ValueOf, ExpandEntry, PartWay,
      Refers, NoReference, Settled, AllStable;
    var m := Bindings(env);
    var cur := Resolved(m, env, i);
    ResolvedIsPartWay(env, i);
    SettledIsStable(m, cur);
    EntryIsBinding(env, i);
    EntryGetsMeaning(m, cur, NameOf(env[i]));
  }

  lemma PassStep(env: seq<string>, i: nat)
    requires i < |env|
    ensures ExpandAll(env, i) == ExpandAll(env[i := ExpandEntry(env, env[i])], i + 1)
  {
    hide ExpandEntry;
  }

  lemma PassEnds(env: seq<string>)
    ensures ExpandAll(env, |env|) == env
  {
  }

  lemma {:induction false} PassFrom(env: seq<string>, i: nat)
    requires AllEntries(env) && UniqueNames(env) && Expandable(Bindings(env)) && Settled(Bindings(env)) && i <= |env|
    requires forall k :: 0 <= k < |env| ==> NameOf(env[k]) in Bindings(env)
    ensures ExpandAll(Resolved(Bindings(env), env, i), i) == Resolved(Bindings(env), env, |env|)
    decreases |env| - i
  {
    hide *;
    if i < |env| {
      ResolvesNext(env, i);
      PassStep(Resolved(Bindings(env), env, i), i);
      PassFrom(env, i + 1);
    } else {
      PassEnds(Resolved(Bindings(env), env, i));
    }
  }

  /**
   The in-place left-to-right pass gives every variable the simultaneous full substitution of its
   value over the original bindings, provided that no variable referred to keeps a reference in its own.
   */
  lemma ExpansionIsSimultaneous(env: seq<string>)
    requires AllEntries(env) && UniqueNames(env) && Expandable(Bindings(env)) && Settled(Bindings(env))
    ensures var after := ExpandAll(env, 0);
            && |after| == |env|
            && forall i :: 0 <= i < |env| ==>
                 var name := NameOf(env[i]);
                 name in Bindings(env) && after[i] == Entry(name, Meaning(Bindings(env), name))
  {
    forall k | 0 <= k < |env|
      ensures NameOf(env[k]) in Bindings(env)
    {
      NamesAreKeys(env, k);
    }
    assert Resolved(Bindings(env), env, 0) == env;
    PassFrom(env, 0);
  }

  /** Bindings do not depend on the order of the array where names are unique. */
  lemma BindingsAnyOrder(a: seq<string>, b: seq<string>)
    requires AllEntries(a) && AllEntries(b) && UniqueNames(a) && UniqueNames(b)
    requires forall e :: e in a <==> e in b
    ensures Bindings(a) == Bindings(b)
  {
    BindingsWithin(a, b);
    BindingsWithin(b, a);
  }

  lemma BindingsWithin(a: seq<string>, b: seq<string>)
    requires AllEntries(a) && AllEntries(b) && UniqueNames(b)
    requires forall e :: e in a ==> e in b
    ensures forall name <- Bindings(a) :: name in Bindings(b) && Bindings(a)[name] == Bindings(b)[name]
  {
    forall name <- Bindings(a)
      ensures name in Bindings(b) && Bindings(a)[name] == Bindings(b)[name]
    {
      BindingAt(a, name);
      var k :| 0 <= k < |a| && NameOf(a[k]) == name && Bindings(a)[name] == ValueOf(a[k]);
      assert a[k] in a;
      var j :| 0 <= j < |b| && b[j] == a[k];
      NamesAreKeys(b, j);
      BindingAt(b, name);
    }
  }

  /** So the outcome for each variable does not depend on the order in which the array holds them. */
  lemma OrderDoesNotMatter(a: seq<string>, b: seq<string>)
    requires AllEntries(a) && AllEntries(b) && UniqueNames(a) && UniqueNames(b)
    requires forall e :: e in a <==> e in b
    requires Expandable(Bindings(a)) && Settled(Bindings(a))
    ensures forall i, j :: 0 <= i < |a| && 0 <= j < |b| && NameOf(a[i]) == NameOf(b[j]) ==>
      ExpandAll(a, 0)[i] == ExpandAll(b, 0)[j]
  {
    BindingsAnyOrder(a, b);
    ExpansionIsSimultaneous(a);
    ExpansionIsSimultaneous(b);
  }

  /** A second pass changes nothing where no full substitution has a reference left. */
  lemma ExpansionIsIdempotent(env: seq<string>)
    requires AllEntries(env) && UniqueNames(env) && Expandable(Bindings(env))
    requires forall name <- Bindings(env) :: NoReference(Meaning(Bindings(env), name), 0)
    ensures ExpandAll(ExpandAll(env, 0), 0) == ExpandAll(env, 0)
  {
    hide Full, Height, PlainNames, Expandable, Meaning, Bindings, Refers, NoReference, ExpandAll;
    ExpansionIsSimultaneous(env);
    var after := ExpandAll(env, 0);
    forall i | 0 <= i < |after|
      ensures ExpandEntry(after, after[i]) == after[i]
    {
      EntryAgain(env[i]);
      SettledEntryStays(Bindings(env), after, NameOf(env[i]));
    }
    FixedEntries(after, 0);
  }

  /** A full substitution with a mark left fits the line buffer: its value had one, too. */
  lemma MarkedFits(m: map<string, string>, name: string)
    requires Expandable(m) && name in m && HasRefMark(Meaning(m, name), 0)
    ensures HasRefMark(m[name], 0) && |Meaning(m, name)| < LINE_MAX - 1
  {
    hide Full, Height, PlainNames, HasRefMark;
    if !HasRefMark(m[name], 0) {
      UnmarkedStays(m, name);
    }
  }

  lemma UnmarkedStays(m: map<string, string>, name: string)
    requires Expandable(m) && name in m && !HasRefMark(m[name], 0)
    ensures Meaning(m, name) == m[name]
  {
    hide Full, Height, PlainNames, NoReference, HasRefMark;
    NoMarkIsPlain(m[name], 0);
    PlainIsFull(m, m[name], 0, MAX_DEPTH);
    assert m[name][0..] == m[name];
  }

  lemma SettledEntryStays(m: map<string, string>, cur: seq<string>, name: string)
    requires Expandable(m) && name in m && '=' !in name && NoReference(Meaning(m, name), 0)
    ensures ExpandEntry(cur, Entry(name, Meaning(m, name))) == Entry(name, Meaning(m, name))
  {
    hide *;
    if HasRefMark(Meaning(m, name), 0) {
      MarkedFits(m, name);
    }
    PlainEntryStays(cur, name, Meaning(m, name));
  }

  lemma PlainEntryStays(cur: seq<string>, name: string, v: string)
    requires '=' !in name && NoReference(v, 0) && (HasRefMark(v, 0) ==> |v| < LINE_MAX)
    ensures ExpandEntry(cur, Entry(name, v)) == Entry(name, v)
  {
    hide NoReference, ExpandFrom, HasRefMark, IsEntry, NameOf, ValueOf, Entry;
    EntryParts(name, v);
    if HasRefMark(v, 0) {
      PlainExpands(cur, v, 0, "", 0);
      assert "" + v[0..] == v;
    }
  }

  lemma {:induction false} FixedEntries(env: seq<string>, i: nat)
    requires i <= |env|
    requires forall k :: 0 <= k < |env| ==> ExpandEntry(env, env[k]) == env[k]
    ensures ExpandAll(env, i) == env
    decreases |env| - i
  {
    hide ExpandEntry;
    if i < |env| {
      assert env[i := ExpandEntry(env, env[i])] == env;
      FixedEntries(env, i + 1);
    }
  }

  /**
   On every environment, cyclic or not, the pass keeps the number, order and names of the entries,
   and every value it rewrites fits the line buffer.
   */
  lemma {:induction false} PassKeepsNames(env: seq<string>, i: nat)
    requires AllEntries(env) && i <= |env|
    ensures var after := ExpandAll(env, i);
            && AllEntries(after)
            && forall k :: 0 <= k < |env| ==>
                 && NameOf(after[k]) == NameOf(env[k])
                 && (after[k] == env[k] || |ValueOf(after[k])| <= 4095)
    decreases |env| - i
  {
    if i < |env| {
      var e := env[i];
      EntryAgain(e);
      EntryParts(NameOf(e), Expand(env, ValueOf(e), 0));
      ExpansionFits(env, ValueOf(e), 0, "", 0);
      var next := env[i := ExpandEntry(env, e)];
      PassKeepsNames(next, i + 1);
    }
  }

  lemma {:induction false} ExpansionFits(env: seq<string>, s: string, i: nat, acc: string, depth: nat)
    requires i <= |s| && depth < MAX_DEPTH && |acc| < LINE_MAX
    ensures |ExpandFrom(env, s, i, acc, depth)| < LINE_MAX
    decreases |s| - i
  {
    if i < |s| && |acc| < LINE_MAX - 1 {
      match RefAt(s, i)
      case None => ExpansionFits(env, s, i + 1, acc + [s[i]], depth);
      case Some(ref) => ExpansionFits(env, s, ref.next, AppendRef(env, ref.name, acc, depth), depth);
    }
  }
}
