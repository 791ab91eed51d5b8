/**
 The environment store of src/foundation/argo_env_load.c and argo_env_utils.c: a growable array of
 NAME=value strings, looked up by a scan from the front, whose ${NAME} references are expanded in
 place from left to right.

 C strings are sequences without their terminating NUL. A null slot of the array is an empty string,
 which no entry is.
 */
module EnvStore {
  import opened CStrings
  import opened Wrappers

  const INITIAL_CAPACITY: nat := 256
  const GROWTH_QUANTUM: nat := 64
  const LINE_MAX: nat := 4096
  const VAR_NAME_MAX: nat := 256
  const MAX_DEPTH: nat := 10

  // ---------------------------------------------------------------- entries

  predicate IsEntry(e: string) {
    FindCharFrom(e, 0, '=') < |e|
  }

  function NameOf(e: string): string
    requires IsEntry(e)
  {
    e[..FindCharFrom(e, 0, '=')]
  }

  function ValueOf(e: string): string
    requires IsEntry(e)
  {
    e[FindCharFrom(e, 0, '=') + 1..]
  }

  function Entry(name: string, value: string): string {
    name + "=" + value
  }

  lemma EqualsMakesEntry(e: string, k: nat)
    requires k < |e| && e[k] == '='
    ensures IsEntry(e)
  {
  }

  lemma EntryParts(name: string, value: string)
    requires '=' !in name
    ensures IsEntry(Entry(name, value))
    ensures NameOf(Entry(name, value)) == name && ValueOf(Entry(name, value)) == value
  {
    FindCharIs(Entry(name, value), 0, |name|, '=');
  }

  lemma EntryAgain(e: string)
    requires IsEntry(e)
    ensures Entry(NameOf(e), ValueOf(e)) == e && '=' !in NameOf(e)
  {
  }

  /** The test of the lookup loop: the entry starts with the name and an equals sign. */
  predicate Matches(e: string, name: string) {
    |name| < |e| && e[..|name|] == name && e[|name|] == '='
  }

  lemma MatchesIsName(e: string, name: string)
    requires '=' !in name && IsEntry(e)
    ensures Matches(e, name) <==> NameOf(e) == name
  {
    if Matches(e, name) {
      assert forall j :: 0 <= j < |name| ==> e[j] == name[j];
      FindCharIs(e, 0, |name|, '=');
    }
  }

  /** The index of the first entry matching `name` from `i` on, or |env|. */
  function FindFrom(env: seq<string>, name: string, i: nat): (r: nat)
    requires i <= |env|
    ensures i <= r <= |env|
    ensures r < |env| ==> Matches(env[r], name)
    ensures forall k :: i <= k < r ==> !Matches(env[k], name)
    decreases |env| - i
  {
    if i == |env| || Matches(env[i], name) then i else FindFrom(env, name, i + 1)
  }

  lemma {:induction false} FindFromIs(env: seq<string>, name: string, i: nat, k: nat)
    requires i <= k < |env| && Matches(env[k], name)
    requires forall j :: i <= j < k ==> !Matches(env[j], name)
    ensures FindFrom(env, name, i) == k
    decreases k - i
  {
    if i < k {
      FindFromIs(env, name, i + 1, k);
    }
  }

  /** What the code looks up: the value of the first matching entry, split at its first `=`. */
  function Lookup(env: seq<string>, name: string): Option<string> {
    var i := FindFrom(env, name, 0);
    if i < |env| && IsEntry(env[i]) then Some(ValueOf(env[i])) else None
  }

  predicate AllEntries(env: seq<string>) {
    forall i :: 0 <= i < |env| ==> IsEntry(env[i])
  }

  predicate UniqueNames(env: seq<string>)
    requires AllEntries(env)
  {
    forall i, j :: 0 <= i < j < |env| ==> NameOf(env[i]) != NameOf(env[j])
  }

  // ---------------------------------------------------------------- set, unset

  function Set(env: seq<string>, name: string, value: string): seq<string> {
    var i := FindFrom(env, name, 0);
    if i < |env| then env[i := Entry(name, value)] else env + [Entry(name, value)]
  }

  function Unset(env: seq<string>, name: string): seq<string> {
    var i := FindFrom(env, name, 0);
    if i < |env| then env[..i] + env[i + 1..] else env
  }

  // ---------------------------------------------------------------- expansion

  datatype Reference = Reference(name: string, next: nat)

  /** The reference starting at `i`: `${`, a name shorter than the name buffer, `}`. */
  function RefAt(s: string, i: nat): (r: Option<Reference>)
    requires i < |s|
    ensures r.Some? ==> i < r.value.next <= |s|
  {
    if s[i] == '$' && i + 1 < |s| && s[i + 1] == '{' then
      var end := FindCharFrom(s, i + 2, '}');
      if end < |s| && end - (i + 2) < VAR_NAME_MAX then Some(Reference(s[i + 2..end], end + 1)) else None
    else None
  }

  /** expand_value: references are expanded recursively, up to a depth, into a bounded buffer. */
  function Expand(env: seq<string>, value: string, depth: nat): string
    decreases MAX_DEPTH - depth, 1, 0
  {
    if depth >= MAX_DEPTH then value else ExpandFrom(env, value, 0, "", depth)
  }

  function ExpandFrom(env: seq<string>, s: string, i: nat, acc: string, depth: nat): string
    requires i <= |s| && depth < MAX_DEPTH
    decreases MAX_DEPTH - depth, 0, |s| - i
  {
    if i == |s| || |acc| >= LINE_MAX - 1 then acc
    else
      match RefAt(s, i)
      case None => ExpandFrom(env, s, i + 1, acc + [s[i]], depth)
      case Some(ref) => ExpandFrom(env, s, ref.next, AppendRef(env, ref.name, acc, depth), depth)
  }

  lemma ExpandStarts(env: seq<string>, value: string, depth: nat)
    requires depth < MAX_DEPTH
    ensures Expand(env, value, depth) == ExpandFrom(env, value, 0, "", depth)
  {
  }

  /** The buffer after one reference: an expansion that does not fit is left out whole. */
  function AppendRef(env: seq<string>, name: string, acc: string, depth: nat): string
    requires depth < MAX_DEPTH
    decreases MAX_DEPTH - depth, 0, 0
  {
    match Lookup(env, name)
    case None => acc
    case Some(v) =>
      var x := Expand(env, v, depth + 1);
      if |acc| + |x| < LINE_MAX - 1 then acc + x else acc
  }

  /** Whether `${` occurs in `s` from `i` on. */
  predicate HasRefMark(s: string, i: nat)
    requires i <= |s|
    decreases |s| - i
  {
    i + 1 < |s| && ((s[i] == '$' && s[i + 1] == '{') || HasRefMark(s, i + 1))
  }

  function ExpandEntry(env: seq<string>, e: string): string {
    if IsEntry(e) && HasRefMark(ValueOf(e), 0) then Entry(NameOf(e), Expand(env, ValueOf(e), 0)) else e
  }

  /** expand_all_variables from index `i` on: each entry is expanded over the array as it is by then. */
  function ExpandAll(env: seq<string>, i: nat): (r: seq<string>)
    requires i <= |env|
    ensures |r| == |env|
    decreases |env| - i
  {
    if i == |env| then env else ExpandAll(env[i := ExpandEntry(env, env[i])], i + 1)
  }

  lemma EntriesWithout(env: seq<string>, i: nat)
    requires AllEntries(env) && i < |env|
    ensures AllEntries(env[..i] + env[i + 1..])
  {
    hide IsEntry;
  }

  // ---------------------------------------------------------------- the store

  class Store {
    var slots: array<string>
    var count: nat
    var capacity: nat

    ghost predicate Valid()
      reads this, slots
    {
      && count <= capacity
      && slots.Length == capacity + 1
      && AllEntries(slots[..count])
      && slots[count] == ""
    }

    ghost function Contents(): seq<string>
      requires Valid()
      reads this, slots
    {
      slots[..count]
    }

    constructor ()
      ensures Valid() && Contents() == [] && capacity == 256 && fresh(slots)
    {
      capacity := INITIAL_CAPACITY;
      count := 0;
      slots := new string[INITIAL_CAPACITY + 1](_ => "");
    }

    /** grow_env_array */
    method Grow()
      requires Valid()
      modifies this
      ensures Valid() && Contents() == old(Contents())
      ensures capacity == old(capacity) + 64 && fresh(slots)
    {
      var newCapacity := capacity + GROWTH_QUANTUM;
      var newSlots := new string[newCapacity + 1](_ => "");
      forall i | 0 <= i < capacity {
        newSlots[i] := slots[i];
      }
      for i := capacity to newCapacity + 1
        invariant unchanged(this) && unchanged(slots) && fresh(newSlots)
        invariant forall k :: 0 <= k < capacity ==> newSlots[k] == slots[k]
        invariant forall k :: capacity <= k < i ==> newSlots[k] == ""
      {
        newSlots[i] := "";
      }
      assert newSlots[..count] == slots[..count];
      slots := newSlots;
      capacity := newCapacity;
    }

    method FindEnvIndex(name: string) returns (index: int)
      requires Valid()
      ensures index == if FindFrom(Contents(), name, 0) < count then FindFrom(Contents(), name, 0) else -1
    {
      var i := 0;
      while i < count
        invariant 0 <= i <= count
        invariant FindFrom(Contents(), name, 0) == FindFrom(Contents(), name, i)
      {
        assert Contents()[i] == slots[i];
        if slots[i] != "" && Matches(slots[i], name) {
          return i;
        }
        i := i + 1;
      }
      index := -1;
    }

    /** argo_setenv and set_env_internal */
    method SetEnv(name: string, value: string)
      requires Valid()
      modifies this, slots
      ensures Valid() && Contents() == Set(old(Contents()), name, value)
    {
      ghost var before := Contents();
      var entry := name + "=" + value;
      EqualsMakesEntry(entry, |name|);
      var idx := FindEnvIndex(name);
      if idx >= 0 {
        slots[idx] := entry;
        assert Contents() == before[idx := entry];
      } else {
        if count >= capacity {
          Grow();
        }
        slots[count] := entry;
        count := count + 1;
        slots[count] := "";
        assert Contents() == before + [entry];
      }
    }

    /** argo_getenv */
    method GetEnv(name: string) returns (r: Option<string>)
      requires Valid()
      ensures r == Lookup(Contents(), name)
    {
      r := None;
      var idx := FindEnvIndex(name);
      if idx >= 0 {
        assert slots[idx] == Contents()[idx];
        var eq := FindCharFrom(slots[idx], 0, '=');
        if eq < |slots[idx]| {
          r := Some(slots[idx][eq + 1..]);
        }
      }
    }

    /** Move the entries after `idx` one slot down. */
    method ShiftDown(idx: nat)
      requires Valid() && idx < count
      modifies slots
      ensures slots[..count - 1] == old(slots[..count])[..idx] + old(slots[..count])[idx + 1..]
    {
      hide IsEntry;
      ghost var was := slots[..count];
      var i := idx;
      while i < count - 1
        invariant idx <= i <= count - 1
        invariant forall k :: 0 <= k < count ==> slots[k] == was[if idx <= k < i then k + 1 else k]
      {
        slots[i] := slots[i + 1];
        i := i + 1;
      }
      assert slots[..count - 1] == was[..idx] + was[idx + 1..];
    }

    /** argo_unsetenv */
    method UnsetEnv(name: string)
      requires Valid()
      modifies this, slots
      ensures Valid() && Contents() == Unset(old(Contents()), name)
    {
      hide FindFrom, IsEntry, Matches;
      ghost var before := Contents();
      var idx := FindEnvIndex(name);
      if idx >= 0 {
        ShiftDown(idx);
        ghost var after := before[..idx] + before[idx + 1..];
        EntriesWithout(before, idx);
        hide AllEntries;
        assert slots[..count - 1] == after;
        count := count - 1;
        slots[count] := "";
        assert slots[..count] == after;
      }
    }

    /** Look a reference up, expand its value one level deeper, and append it if it fits. */
    method ExpandReference(name: string, result: array<char>, resultLen: nat, depth: nat) returns (newLen: nat)
      requires Valid() && depth < MAX_DEPTH && result.Length == LINE_MAX && resultLen <= LINE_MAX - 1
      modifies result
      ensures newLen <= LINE_MAX - 1
      ensures result[..newLen] == AppendRef(old(Contents()), name, old(result[..resultLen]), depth)
      decreases MAX_DEPTH - depth, 0
    {
      ghost var acc := result[..resultLen];
      newLen := resultLen;
      var found := GetEnv(name);
      if found.Some? {
        var inner := ExpandValue(found.value, depth + 1);
        if resultLen + |inner| < LINE_MAX - 1 {
          forall k | 0 <= k < |inner| {
            result[resultLen + k] := inner[k];
          }
          newLen := resultLen + |inner|;
          assert result[..newLen] == acc + inner;
        }
      }
    }

    /** expand_value: the result is built in a buffer of fixed size. */
    method ExpandValue(value: string, depth: nat) returns (expanded: string)
      requires Valid()
      ensures expanded == Expand(Contents(), value, depth)
      decreases MAX_DEPTH - depth, 1
    {
      hide FindCharFrom, FindFrom, Lookup, AppendRef, IsEntry, HasRefMark;
      if depth >= MAX_DEPTH {
        return value;
      }
      hide Expand;
      ExpandStarts(Contents(), value, depth);
      ghost var env := Contents();
      var result := new char[LINE_MAX];
      var src: nat := 0;
      var resultLen: nat := 0;
      assert result[..0] == "";
      while src < |value| && resultLen < LINE_MAX - 1
        invariant src <= |value| && resultLen <= LINE_MAX - 1
        invariant ExpandFrom(env, value, 0, "", depth) == ExpandFrom(env, value, src, result[..resultLen], depth)
        decreases |value| - src
      {
        ghost var acc := result[..resultLen];
        if value[src] == '$' && src + 1 < |value| && value[src + 1] == '{' {
          var varStart := src + 2;
          var varEnd := FindCharFrom(value, varStart, '}');
          if varEnd < |value| && varEnd - varStart < VAR_NAME_MAX {
            resultLen := ExpandReference(value[varStart..varEnd], result, resultLen, depth);
            src := varEnd + 1;
            continue;
          }
        }
        result[resultLen] := value[src];
        resultLen := resultLen + 1;
        assert result[..resultLen] == acc + [value[src]];
        src := src + 1;
      }
      expanded := result[..resultLen];
    }

    method ExpandAllVariables()
      requires Valid()
      modifies slots
      ensures Valid() && Contents() == ExpandAll(old(Contents()), 0)
    {
      hide Expand, ExpandFrom, HasRefMark, FindFrom, FindCharFrom;
      var i := 0;
      while i < count
        invariant 0 <= i <= count && Valid()
        invariant ExpandAll(Contents(), i) == ExpandAll(old(Contents()), 0)
      {
        ghost var before := Contents();
        assert before[i] == slots[i];
        var eq := FindCharFrom(slots[i], 0, '=');
        if eq < |slots[i]| && HasRefMark(slots[i][eq + 1..], 0) {
          var name := slots[i][..eq];
          EntryAgain(slots[i]);
          var expanded := ExpandValue(slots[i][eq + 1..], 0);
          EntryParts(name, expanded);
          slots[i] := name + "=" + expanded;
        }
        assert Contents() == before[i := ExpandEntry(before, before[i])];
        i := i + 1;
      }
    }
  }
}
