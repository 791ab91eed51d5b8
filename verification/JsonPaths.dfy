/**
 What json_extract_nested_string of src/foundation/argo_json.c finds, said without searching: by how a
 text is laid out around the first occurrences of the quoted field names, for paths of any depth.
 */
module JsonPaths {
  import opened CStrings
  import opened JsonStrings
  import opened ConsoleInput

  // ---------------------------------------------------------------- the pieces

  /** The quoted field name; the buffer holds 66 characters of it. */
  function Quoted(field: string): (r: string)
    ensures r != ""
  {
    if |field| <= 64 then "\"" + field + "\"" else "\"" + field[..65]
  }

  predicate StandsAt(s: string, pat: string, i: nat) {
    i + |pat| <= |s| && s[i..i + |pat|] == pat
  }

  /** `pat` stands at `i` and nowhere before. */
  predicate FirstAt(s: string, pat: string, i: nat) {
    StandsAt(s, pat, i) && forall j :: 0 <= j < i ==> !StandsAt(s, pat, j)
  }

  /** A string value as the extractor takes it: each quote in it directly behind a backslash. */
  predicate Unbroken(value: string) {
    && (forall k :: 0 <= k < |value| && value[k] == '"' ==> k > 0 && value[k - 1] == '\\')
    && (value != "" ==> value[|value| - 1] != '\\')
  }

  /** Behind the first quote of `rest`, at `q`, stands `value` and then a quote. */
  predicate ValueAt(rest: string, q: nat, value: string) {
    && q + |value| + 2 <= |rest|
    && rest[q] == '"' && (forall j :: 0 <= j < q ==> rest[j] != '"')
    && rest[q + 1..q + 1 + |value|] == value && rest[q + 1 + |value|] == '"' && Unbroken(value)
  }

  /** Each field name of the path behind what stands in front of it, then the rest. */
  function Layout(fronts: seq<string>, path: seq<string>, rest: string): string
    requires |fronts| == |path|
  {
    if path == [] then rest else fronts[0] + (Quoted(path[0]) + Layout(fronts[1..], path[1..], rest))
  }

  /** Each field name occurs first where the layout puts it. */
  predicate FirstOccurrences(fronts: seq<string>, path: seq<string>, rest: string)
    requires |fronts| == |path|
  {
    path != [] ==>
      FirstAt(Layout(fronts, path, rest), Quoted(path[0]), |fronts[0]|)
      && FirstOccurrences(fronts[1..], path[1..], rest)
  }

  // ---------------------------------------------------------------- searching

  lemma KeyIsQuoted(field: string)
    ensures SearchKey(field) == Quoted(field)
  {
    if |field| > 64 {
      assert ("\"" + field + "\"")[..66] == "\"" + field[..65];
    }
  }

  lemma StandsBehind(s: string, pat: string)
    requires s != ""
    ensures forall j: nat :: StandsAt(s[1..], pat, j) <==> StandsAt(s, pat, j + 1)
  {
    forall j: nat
      ensures StandsAt(s[1..], pat, j) <==> StandsAt(s, pat, j + 1)
    {
      if j + 1 + |pat| <= |s| {
        assert s[1..][j..j + |pat|] == s[j + 1..j + 1 + |pat|];
      }
    }
  }

  lemma {:induction false} FindTextIs(s: string, pat: string, i: nat)
    requires pat != ""
    ensures FirstAt(s, pat, i) <==> i < |s| && FindText(s, pat) == i
    decreases |s|
  {
    if s != "" {
      assert pat <= s <==> StandsAt(s, pat, 0);
      if i > 0 && !(pat <= s) {
        FindTextIs(s[1..], pat, i - 1);
        StandsBehind(s, pat);
        hide StandsAt;
        FirstAtBehind(s, pat, i);
      }
    }
  }

  lemma FirstAtBehind(s: string, pat: string, i: nat)
    requires s != "" && i > 0 && !StandsAt(s, pat, 0)
    requires forall j: nat :: StandsAt(s[1..], pat, j) <==> StandsAt(s, pat, j + 1)
    ensures FirstAt(s, pat, i) <==> FirstAt(s[1..], pat, i - 1)
  {
    hide StandsAt;
    if FirstAt(s[1..], pat, i - 1) {
      forall j | 0 <= j < i
        ensures !StandsAt(s, pat, j)
      {
        assert j > 0 ==> !StandsAt(s[1..], pat, j - 1);
      }
    }
  }

  /** The closing quote is the first one that is not directly behind a backslash. */
  lemma {:induction false} ClosingQuoteIs(s: string, r: nat)
    requires r < |s|
    ensures ClosingQuote(s) == r <==> s[r] == '"' && Unbroken(s[..r])
    decreases |s|
  {
    if s[0] == '"' {
      assert r > 0 ==> s[..r][0] == '"';
    } else if s[0] == '\\' && |s| > 1 && s[1] == '"' {
      if r >= 2 {
        ClosingQuoteIs(s[2..], r - 2);
        UnbrokenBehind(s[..r], 2);
        assert s[..r][2..] == s[2..][..r - 2];
      } else {
        assert r == 1 ==> s[..r][0] == '\\';
      }
    } else if r >= 1 {
      ClosingQuoteIs(s[1..], r - 1);
      UnbrokenBehind(s[..r], 1);
      assert s[..r][1..] == s[1..][..r - 1];
    }
  }

  /** Leaving out a first character that is no quote, or a backslash and a quote. */
  lemma UnbrokenBehind(v: string, n: nat)
    requires n <= |v| && v != ""
    requires if n == 2 then v[0] == '\\' && v[1] == '"'
             else n == 1 && v[0] != '"' && !(v[0] == '\\' && |v| > 1 && v[1] == '"')
    ensures Unbroken(v) <==> Unbroken(v[n..]) && (n == 1 && |v| == 1 ==> v[0] != '\\')
  {
    var w := v[n..];
    assert forall k :: n <= k < |v| ==> w[k - n] == v[k];
    if Unbroken(v) {
      forall k | 0 <= k < |w| && w[k] == '"'
        ensures k > 0 && w[k - 1] == '\\'
      {
        assert v[k + n] == '"';
      }
    }
    if Unbroken(w) && (n == 1 && |v| == 1 ==> v[0] != '\\') {
      forall k | 0 <= k < |v| && v[k] == '"'
        ensures k > 0 && v[k - 1] == '\\'
      {
        if k >= n {
          assert w[k - n] == '"';
        }
      }
    }
  }

  // ---------------------------------------------------------------- one field

  /** What is found behind a field name. */
  function Behind(rest: string): Extraction {
    var q := FindChar(rest, '"');
    if q == |rest| then Missing else Content(rest[q + 1..])
  }

  lemma ContentIs(content: string, value: string)
    ensures Content(content) == Found(value)
            <==> |value| < |content| && content[..|value|] == value && content[|value|] == '"' && Unbroken(value)
  {
    hide Unbroken, ClosingQuote;
    if |value| < |content| {
      ClosingQuoteIs(content, |value|);
    }
  }

  lemma ValueAtIs(rest: string, q: nat, value: string)
    requires q < |rest| && rest[q] == '"' && forall j :: 0 <= j < q ==> rest[j] != '"'
    ensures ValueAt(rest, q, value) <==> Content(rest[q + 1..]) == Found(value)
  {
    var content := rest[q + 1..];
    ContentIs(content, value);
    hide Content, Unbroken;
    if q + |value| + 2 <= |rest| {
      assert content[|value|] == rest[q + 1 + |value|];
      assert content[..|value|] == rest[q + 1..q + 1 + |value|];
    }
  }

  lemma BehindIs(rest: string, value: string)
    ensures Behind(rest) == Found(value) <==> exists q: nat :: ValueAt(rest, q, value)
    ensures Behind(rest).Missing? || Behind(rest).Found?
  {
    var q := FindChar(rest, '"');
    hide Unbroken;
    if q < |rest| {
      ValueAtIs(rest, q, value);
      hide Content;
      forall p: nat | ValueAt(rest, p, value)
        ensures p == q
      {
        FindCharIs(rest, 0, p, '"');
      }
    }
  }

  lemma ExtractSteps(json: string, field: string)
    ensures var i := FindText(json, Quoted(field));
            Extract(json, field)
            == if i == |json| then Missing else Behind(json[i + |Quoted(field)|..])
  {
    KeyIsQuoted(field);
    hide *;
    ExtractBehind(json, field);
  }

  lemma ExtractBehind(json: string, field: string)
    ensures var i := FindText(json, SearchKey(field));
            Extract(json, field)
            == if i == |json| then Missing else Behind(json[i + |SearchKey(field)|..])
  {
    hide SearchKey, FindText, FindChar, Content;
  }

  // ---------------------------------------------------------------- whole paths

  /** The rest behind the last field of the path, each searched for behind the one before. */
  function Follow(json: string, path: seq<string>): Extraction {
    if path == [] then Found(json)
    else
      var i := FindText(json, Quoted(path[0]));
      if i == |json| then Missing else Follow(json[i + |Quoted(path[0])|..], path[1..])
  }

  lemma {:induction false} NestedFollows(json: string, path: seq<string>)
    requires path != []
    ensures var inner := Descend(json, path);
            (if inner == Missing then Missing else Extract(inner.value, path[|path| - 1]))
            == if Follow(json, path).Found? then Behind(Follow(json, path).value) else Missing
    decreases |path|
  {
    hide FindText, Behind, Quoted, SearchKey, Extract;
    KeyIsQuoted(path[0]);
    var i := FindText(json, Quoted(path[0]));
    if |path| == 1 {
      ExtractSteps(json, path[0]);
      if i < |json| {
        var rest := json[i + |Quoted(path[0])|..];
        assert path[1..] == [];
        assert Follow(rest, path[1..]) == Found(rest);
      }
    } else if i < |json| {
      NestedFollows(json[i + |Quoted(path[0])|..], path[1..]);
      assert path[1..][|path| - 2] == path[|path| - 1];
    }
  }

  /** A laid out text is followed to its rest. */
  lemma {:induction false} LayoutIsFollowed(fronts: seq<string>, path: seq<string>, rest: string)
    requires |fronts| == |path| && FirstOccurrences(fronts, path, rest)
    ensures Follow(Layout(fronts, path, rest), path) == Found(rest)
    decreases |path|
  {
    hide FindText, Quoted, FirstAt;
    if path != [] {
      var more := Layout(fronts[1..], path[1..], rest);
      var json := Layout(fronts, path, rest);
      FindTextIs(json, Quoted(path[0]), |fronts[0]|);
      assert json[|fronts[0]| + |Quoted(path[0])|..] == more;
      LayoutIsFollowed(fronts[1..], path[1..], rest);
    }
  }

  /** What is followed to a rest is laid out like that. */
  lemma {:induction false} FollowedIsLayout(json: string, path: seq<string>) returns (fronts: seq<string>)
    requires Follow(json, path).Found?
    ensures |fronts| == |path| && json == Layout(fronts, path, Follow(json, path).value)
    ensures FirstOccurrences(fronts, path, Follow(json, path).value)
    decreases |path|
  {
    hide FindText, Quoted;
    fronts := [];
    if path != [] {
      var key := Quoted(path[0]);
      var i := FindText(json, key);
      FindTextIs(json, key, i);
      var more := FollowedIsLayout(json[i + |key|..], path[1..]);
      fronts := [json[..i]] + more;
      assert fronts[1..] == more;
      assert json == json[..i] + (json[i..i + |key|] + json[i + |key|..]);
      hide FirstAt;
    }
  }

  /**
   For a path of one to five fields the extractor returns `value` if and only if the text is made of
   the quoted fields in this order, each at its first occurrence behind the one before, and then the
   first quote, the value with every quote in it behind a backslash, and a quote; otherwise nothing.
   */
  lemma NestedExactly(json: string, path: seq<string>, value: string)
    requires 1 <= |path| <= 5
    ensures ExtractNested(json, path) == Found(value)
            <==> exists fronts: seq<string>, rest, q: nat ::
                   |fronts| == |path| && json == Layout(fronts, path, rest)
                   && FirstOccurrences(fronts, path, rest) && ValueAt(rest, q, value)
    ensures ExtractNested(json, path).Found? || ExtractNested(json, path).Missing?
  {
    NestedFollows(json, path);
    hide Follow, Behind, Layout, FirstOccurrences, ValueAt, Descend, Extract;
    if Follow(json, path).Found? {
      var rest := Follow(json, path).value;
      var fronts := FollowedIsLayout(json, path);
      BehindIs(rest, value);
    }
    forall fronts: seq<string>, rest, q: nat |
      |fronts| == |path| && json == Layout(fronts, path, rest) && FirstOccurrences(fronts, path, rest)
      && ValueAt(rest, q, value)
      ensures ExtractNested(json, path) == Found(value)
    {
      LayoutIsFollowed(fronts, path, rest);
      BehindIs(rest, value);
    }
  }

  /** Any other depth is refused. */
  lemma DepthIsOneToFive(json: string, path: seq<string>)
    ensures ExtractNested(json, path) == BadDepth <==> |path| == 0 || |path| > 5
  {
    if 1 <= |path| <= 5 {
      NestedExactly(json, path, "");
    }
  }

  lemma {:induction false} EscapedIsUnbroken(e: Escaper, s: string)
    requires !EndsInBackslash(s)
    ensures Unbroken(Escaped(e, s))
  {
    hide Escaped, ClosingQuote;
    var text := Escaped(e, s) + "\"";
    EscapedIsPassed(e, s, "\"");
    QuoteCloses();
    ClosingQuoteIs(text, |Escaped(e, s)|);
    assert text[..|Escaped(e, s)|] == Escaped(e, s);
  }

  lemma QuoteCloses()
    ensures ClosingQuote("\"") == 0
  {
  }

  /** A colon, a quoted value and more. */
  function FieldText(value: string, post: string): string {
    ":\"" + value + "\"" + post
  }

  lemma PlainValue(value: string, post: string)
    requires Unbroken(value)
    ensures ValueAt(FieldText(value, post), 1, value)
  {
    hide Unbroken;
    var rest := FieldText(value, post);
    assert rest[2..2 + |value|] == value;
  }

  /**
   In particular: an escaped text that does not end in a backslash, as the value of the last field of a
   path, comes back as it was escaped.
   */
  lemma NestedTextArrives(fronts: seq<string>, path: seq<string>, e: Escaper, s: string, post: string)
    requires |fronts| == |path| && 1 <= |path| <= 5 && !EndsInBackslash(s)
    requires FirstOccurrences(fronts, path, FieldText(Escaped(e, s), post))
    ensures ExtractNested(Layout(fronts, path, FieldText(Escaped(e, s), post)), path) == Found(Escaped(e, s))
  {
    hide *;
    EscapedIsUnbroken(e, s);
    PlainValue(Escaped(e, s), post);
    NestedExactly(Layout(fronts, path, FieldText(Escaped(e, s), post)), path, Escaped(e, s));
  }
}
