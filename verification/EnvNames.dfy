/**
 Whether names stay unique in the environment store of src/foundation/argo_env_load.c and
 argo_env_utils.c. Nothing keeps a name from holding an equals sign; the entry then counts for what
 stands in front of the first one.
 */
module EnvNames {
  import opened CStrings
  import opened EnvStore

  datatype Change = Put(name: string, value: string) | Drop(name: string)

  function Changed(env: seq<string>, c: Change): seq<string> {
    match c
    case Put(name, value) => Set(env, name, value)
    case Drop(name) => Unset(env, name)
  }

  /** The store after these calls of argo_setenv and argo_unsetenv. */
  function ChangedAll(env: seq<string>, cs: seq<Change>): seq<string>
    decreases |cs|
  {
    if cs == [] then env else ChangedAll(Changed(env, cs[0]), cs[1..])
  }

  /** What an entry made under this name counts for. */
  function Stem(name: string): string {
    name[..FindCharFrom(name, 0, '=')]
  }

  predicate MadeUnder(e: string, name: string) {
    name + "=" <= e
  }

  lemma MadeUnderStem(e: string, name: string)
    requires MadeUnder(e, name)
    ensures IsEntry(e) && NameOf(e) == Stem(name) && Matches(e, name)
  {
    assert e[..|name|] == name && e[|name|] == '=';
    var k := FindCharFrom(name, 0, '=');
    assert forall i :: 0 <= i < |name| ==> e[i] == name[i];
    FindCharIs(e, 0, k, '=');
  }

  lemma MatchMadeUnder(e: string, name: string)
    ensures Matches(e, name) <==> MadeUnder(e, name)
  {
    if Matches(e, name) {
      assert e[..|name| + 1] == name + "=";
    } else if MadeUnder(e, name) {
      MadeUnderStem(e, name);
    }
  }

  lemma EntryMadeUnder(name: string, value: string)
    ensures MadeUnder(Entry(name, value), name)
  {
  }

  /** Every entry was made under one of the names, and no two count for the same. */
  ghost predicate Kept(env: seq<string>, names: set<string>) {
    && AllEntries(env) && UniqueNames(env)
    && forall k :: 0 <= k < |env| ==> exists n <- names :: MadeUnder(env[k], n)
  }

  predicate DistinctStems(names: set<string>) {
    forall a <- names, b <- names :: Stem(a) == Stem(b) ==> a == b
  }

  lemma PutKeeps(env: seq<string>, names: set<string>, name: string, value: string)
    requires Kept(env, names) && DistinctStems(names) && name in names
    ensures Kept(Set(env, name, value), names)
  {
    hide Stem, MadeUnder, IsEntry, NameOf, Entry, Matches;
    EntryMadeUnder(name, value);
    MadeUnderStem(Entry(name, value), name);
    var i := FindFrom(env, name, 0);
    forall k | 0 <= k < |env| && NameOf(env[k]) == Stem(name)
      ensures k == i
    {
      var n :| n in names && MadeUnder(env[k], n);
      MadeUnderStem(env[k], n);
      assert n == name;
      MatchMadeUnder(env[k], name);
      MatchMadeUnder(env[i], name);
      MadeUnderStem(env[i], name);
    }
    if i < |env| {
      MatchMadeUnder(env[i], name);
      MadeUnderStem(env[i], name);
    }
  }

  lemma DropKeeps(env: seq<string>, names: set<string>, name: string)
    requires Kept(env, names)
    ensures Kept(Unset(env, name), names)
  {
    hide MadeUnder, IsEntry, NameOf, Matches, FindFrom;
    var i := FindFrom(env, name, 0);
    var after := Unset(env, name);
    if i < |env| {
      assert forall k :: 0 <= k < |after| ==> after[k] == env[if k < i then k else k + 1];
    }
  }

  predicate ChangesFrom(cs: seq<Change>, names: set<string>) {
    forall c <- cs :: c.name in names
  }

  lemma {:induction false} ChangesKeep(env: seq<string>, cs: seq<Change>, names: set<string>)
    requires Kept(env, names) && DistinctStems(names) && ChangesFrom(cs, names)
    ensures Kept(ChangedAll(env, cs), names)
    decreases |cs|
  {
    hide Kept, DistinctStems, Set, Unset;
    if cs != [] {
      var c := cs[0];
      assert c in cs;
      match c {
        case Put(name, value) => PutKeeps(env, names, name, value);
        case Drop(name) => DropKeeps(env, names, name);
      }
      ChangesKeep(Changed(env, c), cs[1..], names);
    }
  }

  /** Names without an equals sign are their own stems. */
  lemma PlainStem(name: string)
    requires '=' !in name
    ensures Stem(name) == name
  {
  }

  lemma TwoPuts(a: string, b: string)
    ensures ChangedAll([], [Put(a, ""), Put(b, "")]) == Set(Set([], a, ""), b, "")
  {
    hide Set;
    var one := Set([], a, "");
    assert [Put(a, ""), Put(b, "")][1..] == [Put(b, "")] && [Put(b, "")][1..] == [];
    assert ChangedAll(one, [Put(b, "")]) == ChangedAll(Set(one, b, ""), []);
  }

  /** Two names that count for the same: put one after the other, the shorter first, both stay. */
  lemma BothStay(a: string, b: string)
    requires a != b && Stem(a) == Stem(b) && |a| <= |b|
    ensures var env := ChangedAll([], [Put(a, ""), Put(b, "")]);
            AllEntries(env) && !UniqueNames(env)
  {
    var first, second := Entry(a, ""), Entry(b, "");
    TwoPuts(a, b);
    EntryMadeUnder(a, "");
    EntryMadeUnder(b, "");
    MadeUnderStem(first, a);
    MadeUnderStem(second, b);
    assert first == a + "=";
    assert !Matches(first, b);
    hide Stem, Matches, NameOf, IsEntry;
    assert Set([], a, "") == [first];
    assert FindFrom([first], b, 0) == 1;
    assert Set([first], b, "") == [first, second];
    var env := [first, second];
    assert env[0] == first && env[1] == second && NameOf(env[0]) == NameOf(env[1]);
  }

  /**
   The store stays well formed, its names unique, over all calls with such names if and only if no two
   of the names have the same text in front of their first equals sign; so they do without equals signs.
   */
  lemma NamesStayUniqueExactly(names: set<string>)
    ensures (forall cs :: ChangesFrom(cs, names) ==>
               AllEntries(ChangedAll([], cs)) && UniqueNames(ChangedAll([], cs)))
            <==> DistinctStems(names)
    ensures (forall name <- names :: '=' !in name) ==> DistinctStems(names)
  {
    forall name <- names | '=' !in name
      ensures Stem(name) == name
    {
      PlainStem(name);
    }
    hide Stem;
    if DistinctStems(names) {
      forall cs | ChangesFrom(cs, names)
        ensures AllEntries(ChangedAll([], cs)) && UniqueNames(ChangedAll([], cs))
      {
        ChangesKeep([], cs, names);
      }
    } else {
      var a, b :| a in names && b in names && Stem(a) == Stem(b) && a != b;
      var c, d := if |a| <= |b| then a else b, if |a| <= |b| then b else a;
      BothStay(c, d);
      assert ChangesFrom([Put(c, ""), Put(d, "")], names);
    }
  }
}
