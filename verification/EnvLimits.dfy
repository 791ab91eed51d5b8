/**
 The limits of expand_value in numbers: what a reference is, how long values and names can be, and where
 variables that refer to themselves are cut.
 */
module EnvLimits {
  import opened CStrings
  import opened EnvStore
  import opened Wrappers

  /**
   A reference at `i` is `${`, the text up to the first `}`, of at most 255 characters, and that `}`;
   whatever is longer or not closed is ordinary text.
   */
  lemma ReferenceExactly(s: string, i: nat, name: string, next: nat)
    requires i < |s|
    ensures RefAt(s, i) == Some(Reference(name, next))
            <==> && i + 3 + |name| == next <= |s|
                 && s[i..next] == "${" + name + "}" && '}' !in name && |name| <= 255
  {
    if i + 3 + |name| == next <= |s| && s[i..next] == "${" + name + "}" && '}' !in name {
      var ref := s[i..next];
      assert forall k :: i <= k < next ==> s[k] == ref[k - i];
      forall k | i + 2 <= k < next - 1
        ensures s[k] != '}'
      {
        assert s[k] == name[k - i - 2];
      }
      FindCharIs(s, i + 2, next - 1, '}');
      assert s[i + 2..next - 1] == name;
    }
    if RefAt(s, i) == Some(Reference(name, next)) {
      assert s[i..next] == "${" + name + "}";
      forall k | 0 <= k < |name|
        ensures name[k] != '}'
      {
        assert name[k] == s[i + 2 + k];
      }
    }
  }

  /** A value is expanded at all if and only if `${` occurs in it. */
  lemma {:induction false} MarkExactly(s: string, i: nat)
    requires i <= |s|
    ensures HasRefMark(s, i) <==> exists k :: i <= k < |s| - 1 && s[k] == '$' && s[k + 1] == '{'
    decreases |s| - i
  {
    if i < |s| {
      MarkExactly(s, i + 1);
    }
  }

  /** What the line buffer keeps of a text. */
  function Buffered(s: string): string {
    if |s| <= 4095 then s else s[..4095]
  }

  /** Text without `$` is copied as far as the buffer goes. */
  lemma {:induction false} PlainIsCopied(env: seq<string>, s: string, i: nat, acc: string, depth: nat)
    requires i <= |s| && depth < 10 && |acc| <= 4095 && '$' !in s[i..]
    ensures ExpandFrom(env, s, i, acc, depth) == Buffered(acc + s[i..])
    decreases |s| - i
  {
    if i == |s| || |acc| == 4095 {
      assert (acc + s[i..])[..|acc|] == acc;
      assert |s[i..]| == 0 ==> acc + s[i..] == acc;
    } else {
      assert s[i] == s[i..][0] && s[i..] == [s[i]] + s[i + 1..];
      Joined(acc, [s[i]], s[i + 1..]);
      PlainIsCopied(env, s, i + 1, acc + [s[i]], depth);
    }
  }

  /** Copying a part without `$` in front of something else. */
  lemma {:induction false} PartIsCopied(env: seq<string>, s: string, i: nat, k: nat, acc: string, depth: nat)
    requires i <= k <= |s| && depth < 10 && |acc| + k - i <= 4094 && '$' !in s[i..k]
    ensures ExpandFrom(env, s, i, acc, depth) == ExpandFrom(env, s, k, acc + s[i..k], depth)
    decreases k - i
  {
    if i == k {
      assert acc + s[i..k] == acc;
    } else {
      assert s[i] == s[i..k][0] && s[i..k] == [s[i]] + s[i + 1..k];
      Joined(acc, [s[i]], s[i + 1..k]);
      PartIsCopied(env, s, i + 1, k, acc + [s[i]], depth);
    }
  }

  lemma RefText(p: string, name: string)
    requires '}' !in name && |name| <= 255
    ensures var s := p + ("${" + name + "}");
            RefAt(s, |p|) == Some(Reference(name, |s|))
  {
    var s := p + ("${" + name + "}");
    assert s[|p|..|s|] == "${" + name + "}";
    ReferenceExactly(s, |p|, name, |s|);
  }

  /** Text and a reference behind it: the text, and what the reference appends to it. */
  lemma TextThenReference(env: seq<string>, p: string, name: string, depth: nat)
    requires '$' !in p && |p| <= 4094 && '}' !in name && |name| <= 255 && depth < 10
    ensures Expand(env, p + ("${" + name + "}"), depth) == AppendRef(env, name, p, depth)
  {
    var s := p + ("${" + name + "}");
    assert s[0..|p|] == p && "" + p == p;
    PartIsCopied(env, s, 0, |p|, "", depth);
    RefText(p, name);
    hide RefAt, AppendRef;
    assert ExpandFrom(env, s, |p|, p, depth) == ExpandFrom(env, s, |s|, AppendRef(env, name, p, depth), depth);
  }

  /**
   The value of a variable without references, of any length, put behind a text: it goes in whole where
   text and value are shorter than 4095 characters together, and is left out otherwise.
   */
  lemma ValueFitsExactly(env: seq<string>, p: string, name: string, v: string, depth: nat)
    requires '$' !in p && |p| <= 4094 && '}' !in name && |name| <= 255 && depth < 10
    requires Lookup(env, name) == Some(v) && '$' !in v
    ensures Expand(env, p + ("${" + name + "}"), depth) == if |p| + |v| < 4095 then p + v else p
  {
    TextThenReference(env, p, name, depth);
    if depth < 9 {
      PlainIsCopied(env, v, 0, "", depth + 1);
      assert v[0..] == v && "" + v == v;
    }
    hide ExpandFrom;
  }

  function Repeated(p: string, n: nat): (r: string)
    ensures |r| == n * |p|
  {
    if n == 0 then "" else p + Repeated(p, n - 1)
  }

  /**
   A variable that refers to itself is put into itself ten times, and then its own text stays: `p` and
   the reference behind it, below ten copies of `p`.
   */
  lemma {:induction false} CycleIsCut(env: seq<string>, p: string, name: string, depth: nat)
    requires '$' !in p && '}' !in name && |name| <= 255 && depth <= 10
    requires 11 * |p| + |name| + 3 < 4095
    requires Lookup(env, name) == Some(p + ("${" + name + "}"))
    ensures Expand(env, p + ("${" + name + "}"), depth)
            == Repeated(p, 10 - depth) + (p + ("${" + name + "}"))
    decreases 10 - depth
  {
    var v := p + ("${" + name + "}");
    if depth == 10 {
      assert Repeated(p, 0) + v == v;
    } else {
      CycleIsCut(env, p, name, depth + 1);
      TextThenReference(env, p, name, depth);
      var inner := Repeated(p, 9 - depth);
      assert |inner| == (9 - depth) * |p| <= 9 * |p|;
      Joined(p, inner, v);
      hide Expand, ExpandFrom, Lookup;
    }
  }

  /** Entry `i` is the first that begins with the name and an equals sign. */
  predicate FirstOfName(env: seq<string>, name: string, i: nat) {
    i < |env| && name + "=" <= env[i] && forall k :: 0 <= k < i ==> !(name + "=" <= env[k])
  }

  lemma MatchesIs(e: string, name: string)
    ensures Matches(e, name) <==> name + "=" <= e
  {
    if Matches(e, name) {
      assert e[..|name| + 1] == name + "=";
    }
    if name + "=" <= e {
      assert e[..|name|] == (name + "=")[..|name|] == name && e[|name|] == (name + "=")[|name|];
    }
  }

  /** `v` stands behind the first equals sign of `e`. */
  predicate BehindEquals(e: string, v: string) {
    exists k :: 0 <= k < |e| && e[k] == '=' && '=' !in e[..k] && e[k + 1..] == v
  }

  lemma ValueIs(e: string, v: string)
    requires IsEntry(e)
    ensures ValueOf(e) == v <==> BehindEquals(e, v)
  {
    var at := FindCharFrom(e, 0, '=');
    assert '=' !in e[..at];
    forall k | at < k <= |e|
      ensures '=' in e[..k]
    {
      assert e[..k][at] == '=';
    }
  }

  /**
   What is found under a name, one with equals signs in it included: of the first entry that begins with
   the name and `=`, the text behind its first `=`.
   */
  lemma LookupExactly(env: seq<string>, name: string, v: string)
    requires AllEntries(env)
    ensures Lookup(env, name) == Some(v) <==> exists i: nat :: FirstOfName(env, name, i) && BehindEquals(env[i], v)
    ensures Lookup(env, name) == None <==> forall e <- env :: !(name + "=" <= e)
  {
    var k := FindFrom(env, name, 0);
    FirstIsFound(env, name);
    if k < |env| {
      ValueIs(env[k], v);
      assert env[k] in env;
    }
    hide Matches, FindFrom, FirstOfName, BehindEquals, ValueOf, IsEntry;
  }

  /** The scan from the front finds the first entry of that name. */
  lemma FirstIsFound(env: seq<string>, name: string)
    ensures var k := FindFrom(env, name, 0);
            && (k < |env| ==> FirstOfName(env, name, k) && name + "=" <= env[k])
            && (forall i: nat :: FirstOfName(env, name, i) ==> i == k && k < |env|)
            && (k == |env| ==> forall e <- env :: !(name + "=" <= e))
  {
    forall i | 0 <= i < |env|
      ensures Matches(env[i], name) <==> name + "=" <= env[i]
    {
      MatchesIs(env[i], name);
    }
    hide Matches, FindFrom;
    forall e <- env | FindFrom(env, name, 0) == |env|
      ensures !(name + "=" <= e)
    {
      var i :| 0 <= i < |env| && env[i] == e;
    }
  }
}
