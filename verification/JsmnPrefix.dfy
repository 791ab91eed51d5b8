/**
 What the tokenizer says about a text that was cut short: JSMN_ERROR_PART, "the string is not a full
 JSON packet, more bytes expected", exactly where the cut runs through a container or a string.
 */
module JsmnPrefix {
  import opened Jsmn
  import opened JsonGrammar
  import opened JsmnRoundTrip
  import opened JsmnStructure
  import opened Wrappers

  /** The cut runs through the token: behind its first character and in front of its last. */
  predicate Covers(t: Token, cut: nat) {
    match t.kind
    case Object | Array => t.start < cut < t.end
    case String => t.start <= cut <= t.end
    case Primitive | Undefined => false
  }

  predicate SomeCovers(tokens: seq<Token>, cut: nat) {
    exists i :: 0 <= i < |tokens| && Covers(tokens[i], cut)
  }

  predicate SomeOpen(tokens: seq<Token>) {
    exists i :: 0 <= i < |tokens| && IsOpen(tokens[i])
  }

  lemma VerdictTells(tokens: seq<Token>)
    ensures Verdict(tokens) == if SomeOpen(tokens) then -3 else |tokens|
  {
    var i := LastOpen(tokens, |tokens|);
    if i >= 0 {
      assert IsOpen(tokens[i]);
    }
  }

  // ---------------------------------------------------------------- what later steps do to tokens

  /** From `a` to `b` with the same array: what is closed stays, what is open closes behind `pos`. */
  ghost predicate Grown(a: seq<Token>, pos: nat, b: seq<Token>) {
    && |a| <= |b|
    && (forall i :: 0 <= i < |a| ==>
          if a[i].end != -1 then b[i].(size := 0) == a[i].(size := 0)
          else b[i].kind == a[i].kind && b[i].start == a[i].start && (b[i].end == -1 || b[i].end > pos))
    && (forall i :: |a| <= i < |b| ==> b[i].start >= pos && (b[i].kind == String ==> b[i].start > pos))
  }

  lemma StepGrows(js: string, s: State, cap: nat)
    requires s.Ready() && !AtEnd(js, s.pos) && Step(js, s, cap).Continue?
    ensures Grown(s.tokens, s.pos, Step(js, s, cap).next.tokens)
  {
    hide StringEnd, PrimitiveEnd, LastOpenContainer;
  }

  lemma {:induction false} RunGrows(js: string, s: State, cap: nat)
    requires s.Ready()
    ensures Grown(s.tokens, s.pos, Run(js, s, cap).state.tokens)
    decreases |js| - s.pos
  {
    if !AtEnd(js, s.pos) && Step(js, s, cap).Continue? {
      StepGrows(js, s, cap);
      RunGrows(js, Step(js, s, cap).next, cap);
      hide Step;
    }
  }

  /** At the end of what the first call can read, the cut covers a token if and only if one is open. */
  lemma OpenIsCovered(js: string, s: State, cap: nat, cut: nat)
    requires Forest(js, s) && OpenAreContainers(s.tokens) && Run(js, s, cap).code >= 0
    requires s.pos >= cut && forall i :: 0 <= i < |s.tokens| ==>
               if IsOpen(s.tokens[i]) then s.tokens[i].start < cut else !Covers(s.tokens[i], cut)
    ensures SomeCovers(Run(js, s, cap).state.tokens, cut) <==> SomeOpen(s.tokens)
  {
    var end := Run(js, s, cap).state.tokens;
    RunGrows(js, s, cap);
    RunVerdict(js, s, cap);
    RunKeepsForest(js, s, cap);
    hide Run;
    if i :| 0 <= i < |s.tokens| && IsOpen(s.tokens[i]) {
      assert Delimited(js, end[i], Run(js, s, cap).state.pos);
      assert !IsOpen(end[i]);
      assert Covers(end[i], cut);
    }
    if i :| 0 <= i < |end| && Covers(end[i], cut) {
      if i < |s.tokens| {
        assert Delimited(js, s.tokens[i], s.pos);
        assert Covers(s.tokens[i], cut) || IsOpen(s.tokens[i]);
      }
    }
  }

  // ---------------------------------------------------------------- lexemes across the cut

  lemma {:induction false} HexBadExtends(head: string, tail: string, i: nat, k: nat)
    requires i <= |head| && HexEnd(head, i, k).None?
    ensures HexEnd(head + tail, i, k).None?
    decreases k
  {
    if IsHex(head[i]) {
      HexBadExtends(head, tail, i + 1, k - 1);
    }
  }

  lemma {:induction false} BadEscapeExtends(head: string, tail: string, i: nat)
    requires i <= |head| && StringEnd(head, i) == BadEscape
    ensures StringEnd(head + tail, i) == BadEscape
    decreases |head| - i
  {
    if head[i] == '\\' && i + 1 < |head| {
      if IsSimpleEscape(head[i + 1]) {
        BadEscapeExtends(head, tail, i + 2);
      } else if head[i + 1] == 'u' {
        if HexEnd(head, i + 2, 4).None? {
          HexBadExtends(head, tail, i + 2, 4);
        } else {
          var j := HexEnd(head, i + 2, 4).value;
          assert j < |head|;
          HexEndExtends(head, tail, i + 2, 4);
          BadEscapeExtends(head, tail, j);
        }
      }
    } else {
      BadEscapeExtends(head, tail, i + 1);
    }
  }

  /** A string still open at the cut closes behind it, if at all. */
  lemma {:induction false} OpenStringExtends(head: string, tail: string, i: nat)
    requires i <= |head| && StringEnd(head, i) == Unterminated && StringEnd(head + tail, i).Closed?
    ensures StringEnd(head + tail, i).quote >= |head|
    decreases |head| - i
  {
    if i < |head| && head[i] == '\\' && i + 1 < |head| {
      if IsSimpleEscape(head[i + 1]) {
        OpenStringExtends(head, tail, i + 2);
      } else {
        var j := HexEnd(head, i + 2, 4).value;
        if j < |head| {
          HexEndExtends(head, tail, i + 2, 4);
          OpenStringExtends(head, tail, j);
        } else {
          HexAcross(head, tail, i + 2, 4);
        }
      }
    } else if i + 1 < |head| {
      OpenStringExtends(head, tail, i + 1);
    }
  }

  lemma {:induction false} HexAcross(head: string, tail: string, i: nat, k: nat)
    requires i <= |head| && HexEnd(head, i, k).Some? && HexEnd(head, i, k).value >= |head|
    ensures HexEnd(head + tail, i, k).Some? ==> HexEnd(head + tail, i, k).value >= |head|
    decreases k
  {
    if k > 0 && i < |head| && !AtEnd(head, i) && IsHex(head[i]) {
      HexAcross(head, tail, i + 1, k - 1);
    }
  }

  // ---------------------------------------------------------------- the theorem

  /** Where the call on the front part stops at once although the call on the whole text goes on. */
  lemma StopsInString(head: string, tail: string, s: State, cap: nat)
    requires Forest(head, s) && !AtEnd(head, s.pos)
    requires Step(head, s, cap).Stop? && Step(head + tail, s, cap).Continue?
    ensures Step(head, s, cap) == Stop(-3, s)
    ensures var t := Step(head + tail, s, cap).next.tokens;
            |t| > |s.tokens| && t[|s.tokens|].end != -1 && Covers(t[|s.tokens|], |head|)
  {
    hide LastOpen, LastOpenContainer;
    var c := head[s.pos];
    assert (head + tail)[s.pos] == c;
    if c == '"' {
      match StringEnd(head, s.pos + 1)
      case Closed(_) =>
      case BadEscape => BadEscapeExtends(head, tail, s.pos + 1);
      case Unterminated => OpenStringExtends(head, tail, s.pos + 1);
    } else if c != '{' && c != '[' && !IsDelimiter(c) {
      PrimitiveEndExtends(head, tail, s.pos);
    }
  }

  lemma ForestExtends(head: string, tail: string, s: State)
    requires Forest(head, s)
    ensures Forest(head + tail, s)
  {
    forall i | 0 <= i < |s.tokens|
      ensures Delimited(head + tail, s.tokens[i], s.pos)
    {
      assert Delimited(head, s.tokens[i], s.pos);
    }
  }

  lemma ClosedNotCovered(js: string, s: State)
    requires Forest(js, s) && OpenAreContainers(s.tokens)
    ensures forall i, cut: nat :: 0 <= i < |s.tokens| && s.pos <= cut ==>
              if IsOpen(s.tokens[i]) then s.tokens[i].start < cut else !Covers(s.tokens[i], cut)
  {
    forall i, cut: nat | 0 <= i < |s.tokens| && s.pos <= cut
      ensures if IsOpen(s.tokens[i]) then s.tokens[i].start < cut else !Covers(s.tokens[i], cut)
    {
      assert Delimited(js, s.tokens[i], s.pos);
    }
  }

  /** On both texts the step at a cut primitive appends a primitive, and differs in where it ends only. */
  lemma CutSteps(head: string, tail: string, s: State, cap: nat)
    requires s.Ready() && s.pos <= |head| && !AtEnd(head, s.pos)
    requires Step(head, s, cap).Continue? && CutsAt(head, tail, s) && Step(head + tail, s, cap).Continue?
    ensures var near, far := Step(head, s, cap).next, Step(head + tail, s, cap).next;
            var n := |s.tokens|;
            && near.pos == |head| < far.pos && |near.tokens| == |far.tokens| == n + 1
            && (forall i :: 0 <= i < n ==> IsOpen(near.tokens[i]) == IsOpen(far.tokens[i]) == IsOpen(s.tokens[i]))
            && (forall i :: 0 <= i < n ==> far.tokens[i].(size := 0) == s.tokens[i].(size := 0))
            && near.tokens[n].kind == far.tokens[n].kind == Primitive
            && !IsOpen(near.tokens[n]) && !IsOpen(far.tokens[n])
  {
    PrimitiveBehind(head, tail, s.pos);
    hide PrimitiveEnd, LastOpen, LastOpenContainer, StringEnd;
  }

  /** The call on the front part ends inside a primitive that goes on. */
  lemma CutInPrimitive(head: string, tail: string, s: State, cap: nat)
    requires Forest(head, s) && !AtEnd(head, s.pos) && OpenAreContainers(s.tokens)
    requires Step(head, s, cap).Continue? && CutsAt(head, tail, s) && Run(head + tail, s, cap).code >= 0
    ensures var r := Run(head, s, cap);
            && (r.code == -3 || r.code >= 0)
            && (r.code == -3 <==> SomeCovers(Run(head + tail, s, cap).state.tokens, |head|))
  {
    var js := head + tail;
    var near, far := Step(head, s, cap).next, Step(js, s, cap).next;
    CutSteps(head, tail, s, cap);
    assert Run(head, near, cap) == Result(Verdict(near.tokens), near);
    VerdictTells(near.tokens);
    ForestExtends(head, tail, s);
    StepKeepsForest(js, s, cap);
    StepTracks(js, s, cap);
    ClosedNotCovered(head, s);
    SameOpen(near.tokens, far.tokens);
    assert Run(head, s, cap) == Run(head, near, cap) && Run(js, s, cap) == Run(js, far, cap);
    hide Run, Forest, Step, Verdict, CutsAt, AtEnd, SomeOpen;
    forall i | 0 <= i < |far.tokens|
      ensures if IsOpen(far.tokens[i]) then far.tokens[i].start < |head| else !Covers(far.tokens[i], |head|)
    {
      if i < |s.tokens| {
        assert far.tokens[i].(size := 0) == s.tokens[i].(size := 0);
      }
    }
    OpenIsCovered(js, far, cap, |head|);
  }

  lemma SameOpen(a: seq<Token>, b: seq<Token>)
    requires |a| == |b| && forall i :: 0 <= i < |a| ==> IsOpen(a[i]) == IsOpen(b[i])
    ensures SomeOpen(a) <==> SomeOpen(b)
  {
  }

  lemma PrimitiveBehind(head: string, tail: string, i: nat)
    requires i <= |head| && CutsPrimitive(head, tail, i)
    ensures PrimitiveEnd(head + tail, i).Some? ==> PrimitiveEnd(head + tail, i).value > |head|
  {
    PrimitiveEndExtends(head, tail, i);
    PrimitiveReaches(head, tail, i);
  }

  lemma {:induction false} PrimitiveReaches(head: string, tail: string, i: nat)
    requires i <= |head| && PrimitiveEnd(head, i) == Some(|head|)
    ensures PrimitiveEnd(head + tail, i).Some? ==> PrimitiveEnd(head + tail, i).value >= |head|
    decreases |head| - i
  {
    if i < |head| {
      PrimitiveReaches(head, tail, i + 1);
    }
  }

  lemma {:induction false} PrefixFrom(head: string, tail: string, s: State, cap: nat)
    requires Forest(head, s) && OpenAreContainers(s.tokens) && Run(head + tail, s, cap).code >= 0
    ensures var r := Run(head, s, cap);
            && (r.code == -3 || r.code >= 0)
            && (r.code == -3 <==> SomeCovers(Run(head + tail, s, cap).state.tokens, |head|))
    decreases |head| - s.pos
  {
    var js := head + tail;
    if AtEnd(head, s.pos) {
      VerdictTells(s.tokens);
      ForestExtends(head, tail, s);
      ClosedNotCovered(head, s);
      if s.pos == |head| {
        OpenIsCovered(js, s, cap, |head|);
      }
    } else if Step(head, s, cap).Continue? {
      if CutsAt(head, tail, s) {
        CutInPrimitive(head, tail, s, cap);
      } else {
        StepExtends(head, tail, s, cap, cap);
        StepKeepsForest(head, s, cap);
        StepTracks(head, s, cap);
        hide Forest, Step;
        PrefixFrom(head, tail, Step(head, s, cap).next, cap);
      }
    } else {
      StopsInString(head, tail, s, cap);
      ClosedSpansPersist(js, Step(js, s, cap).next, cap, |s.tokens|);
    }
  }

  /**
   A text that parses, cut anywhere: the call on the front part returns -3 (JSMN_ERROR_PART) if and only
   if the cut runs through a container or a string, and succeeds otherwise. No cut makes it invalid.
   */
  lemma PrefixVerdict(head: string, tail: string, cap: nat)
    requires Run(head + tail, START, cap).code >= 0
    ensures var r := Run(head, START, cap);
            && (r.code == -3 || r.code >= 0)
            && (r.code == -3 <==> SomeCovers(Run(head + tail, START, cap).state.tokens, |head|))
  {
    PrefixFrom(head, tail, START, cap);
  }

  /** So a JSON text whose value is a string, an array or an object is partial until its last character is there. */
  lemma PartialUntilComplete(lead: string, v: Value, trail: string, cut: nat, cap: nat)
    requires Blank(lead) && Legal(v) && Blank(trail) && |Tokens(v, |lead|)| <= cap
    requires v.Text? || v.List? || v.Record?
    requires |lead| < cut < |lead| + |Print(v)|
    ensures Run((lead + Print(v) + trail)[..cut], START, cap).code == -3
  {
    var js := lead + Print(v) + trail;
    RoundTrip(lead, v, trail, cap);
    assert js[..cut] + js[cut..] == js;
    PrefixVerdict(js[..cut], js[cut..], cap);
    assert Covers(Tokens(v, |lead|)[0], cut);
  }
}
