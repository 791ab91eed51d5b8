/**
 What the tokenizer guarantees on every input: token spans form a forest whose containers are
 delimited by their own brackets, the open tokens are exactly a bracket stack, counting agrees with
 parsing, and an interrupted parse can be resumed.
 */
module JsmnStructure {
  import opened Jsmn
  import opened Wrappers

  // ---------------------------------------------------------------- spans form a forest

  /** Token `t` delimits the kind of text it claims to, within the first `pos` characters. */
  predicate Delimited(js: string, t: Token, pos: nat)
    requires pos <= |js|
  {
    match t.kind
    case Object | Array =>
      && 0 <= t.start < pos
      && js[t.start] == (if t.kind == Object then '{' else '[')
      && (t.end != -1 ==>
            t.start + 1 < t.end <= pos && js[t.end - 1] == (if t.kind == Object then '}' else ']'))
    case String =>
      1 <= t.start <= t.end < pos && js[t.start - 1] == '"' && js[t.end] == '"'
    case Primitive =>
      && 0 <= t.start < t.end <= pos
      && forall k :: t.start <= k < t.end ==> IsGraphic(js[k]) && !IsDelimiter(js[k])
    case Undefined => false
  }

  /** `a`, allocated before `b`, starts before it and either ends before it or encloses it. */
  predicate Ordered(a: Token, b: Token) {
    && a.start < b.start
    && (a.end != -1 ==>
          a.end <= b.start || (IsContainer(a.kind) && b.end != -1 && b.end < a.end))
  }

  predicate Forest(js: string, s: State) {
    && s.Ready()
    && s.pos <= |js|
    && (forall i :: 0 <= i < |s.tokens| ==> Delimited(js, s.tokens[i], s.pos))
    && (forall i, j :: 0 <= i < j < |s.tokens| ==> Ordered(s.tokens[i], s.tokens[j]))
  }

  lemma DelimitedLater(js: string, t: Token, pos: nat, later: nat)
    requires pos <= later <= |js| && Delimited(js, t, pos)
    ensures Delimited(js, t, later)
    ensures Delimited(js, t.(size := t.size + 1), later)
  {
  }

  lemma PrimitiveText(js: string, i: nat)
    requires i <= |js| && PrimitiveEnd(js, i).Some?
    ensures var e := PrimitiveEnd(js, i).value;
            i <= e <= |js| && forall k :: i <= k < e ==> IsGraphic(js[k]) && !IsDelimiter(js[k])
    decreases |js| - i
  {
  }

  /** Appending a fresh token that starts at or after `s.pos` keeps the forest. */
  lemma AppendKeepsForest(js: string, s: State, t: Token, pos: nat, super: int)
    requires Forest(js, s) && s.pos <= pos <= |js|
    requires t.start >= s.pos && Delimited(js, t, pos)
    requires -1 <= super <= |s.tokens|
    ensures Forest(js, State(pos, Bump(s.tokens, s.super) + [t], super))
  {
    var bumped := Bump(s.tokens, s.super);
    var tokens := bumped + [t];
    forall i | 0 <= i < |tokens|
      ensures Delimited(js, tokens[i], pos)
    {
      if i < |s.tokens| {
        DelimitedLater(js, s.tokens[i], s.pos, pos);
      }
    }
    forall i, j | 0 <= i < j < |tokens|
      ensures Ordered(tokens[i], tokens[j])
    {
      assert Delimited(js, s.tokens[i], s.pos);
      if j < |s.tokens| {
        assert Ordered(s.tokens[i], s.tokens[j]);
      }
    }
  }

  lemma CloseKeepsForest(js: string, s: State)
    requires Forest(js, s) && !AtEnd(js, s.pos) && (js[s.pos] == '}' || js[s.pos] == ']')
    ensures var o := CloseStep(js, s); o.Continue? ==> Forest(js, o.next)
  {
    var i := LastOpen(s.tokens, |s.tokens|);
    if i != -1 && s.tokens[i].kind == BracketKind(js[s.pos]) {
      var t := s.tokens[i].(end := s.pos + 1);
      assert Delimited(js, s.tokens[i], s.pos);
      forall k | 0 <= k < |s.tokens|
        ensures Delimited(js, s.tokens[k], s.pos + 1)
      {
        DelimitedLater(js, s.tokens[k], s.pos, s.pos + 1);
      }
      forall b | i < b < |s.tokens|
        ensures Ordered(t, s.tokens[b])
      {
        assert Ordered(s.tokens[i], s.tokens[b]);
        assert Delimited(js, s.tokens[b], s.pos);
      }
      forall a | 0 <= a < i
        ensures Ordered(s.tokens[a], t)
      {
        assert Ordered(s.tokens[a], s.tokens[i]);
      }
    }
  }

  lemma StepKeepsForest(js: string, s: State, cap: nat)
    requires Forest(js, s) && !AtEnd(js, s.pos)
    ensures var o := Step(js, s, cap); o.Continue? ==> Forest(js, o.next)
  {
    hide StringEnd, PrimitiveEnd, LastOpen, LastOpenContainer;
    var c := js[s.pos];
    var o := Step(js, s, cap);
    if o.Continue? {
      if c == '{' || c == '[' {
        AppendKeepsForest(js, s, Token(BracketKind(c), s.pos, -1, 0), s.pos + 1, |s.tokens|);
      } else if c == '}' || c == ']' {
        CloseKeepsForest(js, s);
      } else if c == '"' {
        var q := StringEnd(js, s.pos + 1).quote;
        AppendKeepsForest(js, s, Token(String, s.pos + 1, q, 0), q + 1, s.super);
      } else if !IsDelimiter(c) {
        PrimitiveText(js, s.pos);
        PrimitiveNonEmpty(js, s.pos);
        var e := PrimitiveEnd(js, s.pos).value;
        AppendKeepsForest(js, s, Token(Primitive, s.pos, e, 0), e, s.super);
      } else {
        forall k | 0 <= k < |s.tokens|
          ensures Delimited(js, s.tokens[k], s.pos + 1)
        {
          DelimitedLater(js, s.tokens[k], s.pos, s.pos + 1);
        }
      }
    }
  }

  /** Whatever the text and however the call ends, the tokens it leaves form a forest. */
  lemma {:induction false} RunKeepsForest(js: string, s: State, cap: nat)
    requires Forest(js, s)
    ensures Forest(js, Run(js, s, cap).state)
    decreases |js| - s.pos
  {
    if !AtEnd(js, s.pos) {
      StepKeepsForest(js, s, cap);
      var o := Step(js, s, cap);
      if o.Continue? {
        RunKeepsForest(js, o.next, cap);
      }
    }
  }

  lemma {:induction false} RunVerdict(js: string, s: State, cap: nat)
    requires s.Ready()
    ensures var r := Run(js, s, cap);
            r.code >= 0 ==> AtEnd(js, r.state.pos) && r.code == |r.state.tokens|
                            && LastOpen(r.state.tokens, r.code) == -1
    decreases |js| - s.pos
  {
    if !AtEnd(js, s.pos) && Step(js, s, cap).Continue? {
      RunVerdict(js, Step(js, s, cap).next, cap);
    }
  }

  /**
   On any text at all, a successful parse yields tokens with strictly increasing starts, inside the
   text, pairwise nested or disjoint, each container delimited by its own pair of brackets.
   */
  lemma SuccessYieldsForest(js: string, cap: nat)
    requires Run(js, START, cap).code >= 0
    ensures var r := Run(js, START, cap);
            var toks := r.state.tokens;
            && r.code == |toks| && r.state.pos <= |js|
            && (forall i :: 0 <= i < |toks| ==> toks[i].end != -1 && Delimited(js, toks[i], r.state.pos))
            && (forall i, j :: 0 <= i < j < |toks| ==>
                  && toks[i].start < toks[j].start
                  && (toks[i].end <= toks[j].start
                      || (IsContainer(toks[i].kind) && toks[j].end < toks[i].end)))
  {
    RunKeepsForest(js, START, cap);
    RunVerdict(js, START, cap);
    var toks := Run(js, START, cap).state.tokens;
    forall i | 0 <= i < |toks|
      ensures toks[i].end != -1
    {
      assert Delimited(js, toks[i], Run(js, START, cap).state.pos);
      assert !IsOpen(toks[i]);
    }
    forall i, j | 0 <= i < j < |toks|
      ensures toks[i].start < toks[j].start
      ensures toks[i].end <= toks[j].start || (IsContainer(toks[i].kind) && toks[j].end < toks[i].end)
    {
      assert Ordered(toks[i], toks[j]);
    }
  }

  // ---------------------------------------------------------------- the open tokens are a bracket stack

  /** Every open token is a container; `Step` needs nothing else about the tokens. */
  predicate OpenAreContainers(tokens: seq<Token>) {
    forall i :: 0 <= i < |tokens| && IsOpen(tokens[i]) ==> IsContainer(tokens[i].kind)
  }

  /** The kinds of the open tokens, outermost first. */
  function OpenKinds(tokens: seq<Token>): (r: seq<Kind>) {
    if tokens == [] then []
    else
      var rest := OpenKinds(tokens[..|tokens| - 1]);
      if IsOpen(tokens[|tokens| - 1]) then rest + [tokens[|tokens| - 1].kind] else rest
  }

  lemma {:induction false} OpenKindsAgree(a: seq<Token>, b: seq<Token>)
    requires |a| == |b|
    requires forall i :: 0 <= i < |a| ==> IsOpen(a[i]) == IsOpen(b[i]) && a[i].kind == b[i].kind
    ensures OpenKinds(a) == OpenKinds(b)
  {
    if a != [] {
      OpenKindsAgree(a[..|a| - 1], b[..|b| - 1]);
    }
  }

  lemma OpenKindsAppend(tokens: seq<Token>, p: int, t: Token)
    requires -1 <= p < |tokens|
    ensures OpenKinds(Bump(tokens, p) + [t])
            == if IsOpen(t) then OpenKinds(tokens) + [t.kind] else OpenKinds(tokens)
  {
    var bumped := Bump(tokens, p);
    OpenKindsAgree(bumped, tokens);
    assert (bumped + [t])[..|tokens|] == bumped;
  }

  /** Closing the last open token pops the stack. */
  lemma {:induction false} OpenKindsClose(tokens: seq<Token>, n: nat, end: nat)
    requires n <= |tokens|
    ensures var i := LastOpen(tokens, n);
            if i == -1 then OpenKinds(tokens[..n]) == []
            else
              var closed := tokens[i := tokens[i].(end := end)];
              OpenKinds(tokens[..n]) == OpenKinds(closed[..n]) + [tokens[i].kind]
  {
    if n > 0 {
      assert tokens[..n][..n - 1] == tokens[..n - 1];
      var i := LastOpen(tokens, n);
      if i == n - 1 {
        var closed := tokens[i := tokens[i].(end := end)];
        assert closed[..n][..n - 1] == tokens[..n - 1];
      } else {
        OpenKindsClose(tokens, n - 1, end);
        if i != -1 {
          var closed := tokens[i := tokens[i].(end := end)];
          assert closed[..n][..n - 1] == closed[..n - 1];
        }
      }
    }
  }

  /**
   The reference recognizer: a bracket stack and a lexeme scanner, with no token array, no capacity
   and no backward searches.
   */
  predicate Accepts(js: string, pos: nat, stack: seq<Kind>)
    decreases |js| - pos
  {
    if AtEnd(js, pos) then stack == []
    else
      var c := js[pos];
      if c == '{' || c == '[' then Accepts(js, pos + 1, stack + [BracketKind(c)])
      else if c == '}' || c == ']' then
        && stack != [] && stack[|stack| - 1] == BracketKind(c)
        && Accepts(js, pos + 1, stack[..|stack| - 1])
      else if c == '"' then
        var q := StringEnd(js, pos + 1);
        q.Closed? && Accepts(js, q.quote + 1, stack)
      else if IsDelimiter(c) then Accepts(js, pos + 1, stack)
      else
        PrimitiveNonEmpty(js, pos);
        var e := PrimitiveEnd(js, pos);
        e.Some? && Accepts(js, e.value, stack)
  }

  lemma {:induction false} CountGrows(js: string, pos: nat, count: nat)
    ensures CountRun(js, pos, count) < 0 || CountRun(js, pos, count) >= count
    decreases |js| - pos
  {
    if !AtEnd(js, pos) {
      var c := js[pos];
      if c == '{' || c == '[' {
        CountGrows(js, pos + 1, count + 1);
      } else if c == '"' {
        if StringEnd(js, pos + 1).Closed? {
          CountGrows(js, StringEnd(js, pos + 1).quote + 1, count + 1);
        }
      } else if IsDelimiter(c) {
        CountGrows(js, pos + 1, count);
      } else {
        PrimitiveNonEmpty(js, pos);
        if PrimitiveEnd(js, pos).Some? {
          CountGrows(js, PrimitiveEnd(js, pos).value, count + 1);
        }
      }
    }
  }

  /** Step outcome `o` from `s` agrees with the recognizer and with counting mode. */
  predicate Tracks(js: string, s: State, cap: nat, o: Outcome)
    requires s.Ready() && !AtEnd(js, s.pos)
  {
    match o
    case Continue(next) =>
      && OpenAreContainers(next.tokens)
      && Accepts(js, s.pos, OpenKinds(s.tokens)) == Accepts(js, next.pos, OpenKinds(next.tokens))
      && CountRun(js, s.pos, |s.tokens|) == CountRun(js, next.pos, |next.tokens|)
    case Stop(code, _) =>
      if code == NO_MEM then |s.tokens| >= cap && CountRun(js, s.pos, |s.tokens|) != |s.tokens|
      else !Accepts(js, s.pos, OpenKinds(s.tokens))
  }

  lemma OpenTracks(js: string, s: State, cap: nat)
    requires s.Ready() && !AtEnd(js, s.pos) && OpenAreContainers(s.tokens)
    requires js[s.pos] == '{' || js[s.pos] == '['
    ensures Tracks(js, s, cap, OpenStep(js, s, cap))
  {
    hide StringEnd, PrimitiveEnd, OpenKinds;
    OpenKindsAppend(s.tokens, s.super, Token(BracketKind(js[s.pos]), s.pos, -1, 0));
    CountGrows(js, s.pos + 1, |s.tokens| + 1);
  }

  lemma CloseTracks(js: string, s: State, cap: nat)
    requires s.Ready() && !AtEnd(js, s.pos) && OpenAreContainers(s.tokens)
    requires js[s.pos] == '}' || js[s.pos] == ']'
    ensures Tracks(js, s, cap, CloseStep(js, s))
  {
    hide StringEnd, PrimitiveEnd, OpenKinds;
    OpenKindsClose(s.tokens, |s.tokens|, s.pos + 1);
    assert s.tokens[..|s.tokens|] == s.tokens;
    var i := LastOpen(s.tokens, |s.tokens|);
    if i != -1 {
      var closed := s.tokens[i := s.tokens[i].(end := s.pos + 1)];
      assert closed[..|s.tokens|] == closed;
      var stack := OpenKinds(s.tokens);
      assert stack[..|stack| - 1] == OpenKinds(closed);
    }
  }

  lemma StringTracks(js: string, s: State, cap: nat)
    requires s.Ready() && !AtEnd(js, s.pos) && OpenAreContainers(s.tokens) && js[s.pos] == '"'
    ensures Tracks(js, s, cap, StringStep(js, s, cap))
  {
    hide StringEnd, PrimitiveEnd, OpenKinds, LastOpen;
    match StringEnd(js, s.pos + 1)
    case Closed(q) =>
      OpenKindsAppend(s.tokens, s.super, Token(String, s.pos + 1, q, 0));
      CountGrows(js, q + 1, |s.tokens| + 1);
    case BadEscape =>
    case Unterminated =>
  }

  lemma PrimitiveTracks(js: string, s: State, cap: nat)
    requires s.Ready() && !AtEnd(js, s.pos) && OpenAreContainers(s.tokens) && !IsDelimiter(js[s.pos])
    requires js[s.pos] != '{' && js[s.pos] != '[' && js[s.pos] != '"'
    ensures Tracks(js, s, cap, PrimitiveStep(js, s, cap))
  {
    hide StringEnd, PrimitiveEnd, OpenKinds, LastOpen;
    PrimitiveNonEmpty(js, s.pos);
    match PrimitiveEnd(js, s.pos)
    case Some(e) =>
      OpenKindsAppend(s.tokens, s.super, Token(Primitive, s.pos, e, 0));
      CountGrows(js, e, |s.tokens| + 1);
    case None =>
  }

  lemma StepTracks(js: string, s: State, cap: nat)
    requires s.Ready() && !AtEnd(js, s.pos) && OpenAreContainers(s.tokens)
    ensures Tracks(js, s, cap, Step(js, s, cap))
  {
    var c := js[s.pos];
    if c == '{' || c == '[' {
      OpenTracks(js, s, cap);
    } else if c == '}' || c == ']' {
      CloseTracks(js, s, cap);
    } else if c == '"' {
      StringTracks(js, s, cap);
    } else if !IsDelimiter(c) {
      PrimitiveTracks(js, s, cap);
    }
  }

  /**
   Success is exactly acceptance by the bracket stack with enough tokens for what counting mode
   announces, and the count returned is the one counting mode returns.
   */
  lemma {:induction false} SuccessIsAcceptance(js: string, s: State, cap: nat)
    requires s.Ready() && OpenAreContainers(s.tokens) && |s.tokens| <= cap
    ensures var r := Run(js, s, cap);
            var n := CountRun(js, s.pos, |s.tokens|);
            && (r.code >= 0 <==> Accepts(js, s.pos, OpenKinds(s.tokens)) && 0 <= n <= cap)
            && (r.code >= 0 ==> r.code == n)
            && (r.code == -1 ==> n < 0 || n > cap)
    decreases |js| - s.pos
  {
    if AtEnd(js, s.pos) {
      OpenKindsClose(s.tokens, |s.tokens|, 0);
      assert s.tokens[..|s.tokens|] == s.tokens;
    } else {
      StepTracks(js, s, cap);
      CountGrows(js, s.pos, |s.tokens|);
      var o := Step(js, s, cap);
      if o.Continue? {
        StepRoom(js, s, cap);
        SuccessIsAcceptance(js, o.next, cap);
      }
    }
  }

  lemma StepRoom(js: string, s: State, cap: nat)
    requires s.Ready() && !AtEnd(js, s.pos) && |s.tokens| <= cap
    ensures Step(js, s, cap).Continue? ==> |Step(js, s, cap).next.tokens| <= cap
  {
  }

  /**
   Counting first and then parsing with exactly that many tokens never runs out of tokens, and
   succeeds with that count unless a bracket is unmatched; with fewer tokens it never succeeds.
   */
  lemma CountThenParse(js: string, cap: nat)
    ensures var n := CountRun(js, 0, 0);
            var r := Run(js, START, cap);
            && (n >= 0 && cap >= n ==> if Accepts(js, 0, []) then r.code == n else r.code in {-2, -3})
            && (cap < n ==> r.code < 0)
            && (n < 0 ==> r.code < 0)
  {
    SuccessIsAcceptance(js, START, cap);
    StopCodes(js, START, cap);
  }

  lemma {:induction false} StopCodes(js: string, s: State, cap: nat)
    requires s.Ready()
    ensures Run(js, s, cap).code >= 0 || Run(js, s, cap).code in {-1, -2, -3}
    decreases |js| - s.pos
  {
    if !AtEnd(js, s.pos) && Step(js, s, cap).Continue? {
      StopCodes(js, Step(js, s, cap).next, cap);
    }
  }

  // ---------------------------------------------------------------- resuming

  /** Closed spans are final: no later part of a call moves or retypes them. */
  lemma {:induction false} ClosedSpansPersist(js: string, s: State, cap: nat, i: nat)
    requires s.Ready() && i < |s.tokens| && s.tokens[i].end != -1
    ensures var r := Run(js, s, cap).state.tokens;
            i < |r| && r[i].(size := 0) == s.tokens[i].(size := 0)
    decreases |js| - s.pos
  {
    if !AtEnd(js, s.pos) {
      var o := Step(js, s, cap);
      if o.Continue? {
        ClosedSpansPersist(js, o.next, cap, i);
      }
    }
  }

  /** The text `tail` goes on with a character a primitive may run into. */
  predicate GoesOn(tail: string) {
    tail != "" && !IsDelimiter(tail[0]) && tail[0] != '\0'
  }

  /** The primitive at `i` of `head` runs up to its very end, and `tail` goes on. */
  predicate CutsPrimitive(head: string, tail: string, i: nat) {
    PrimitiveEnd(head, i) == Some(|head|) && GoesOn(tail)
  }

  lemma {:induction false} PrimitiveEndExtends(head: string, tail: string, i: nat)
    requires i <= |head|
    ensures if CutsPrimitive(head, tail, i) then PrimitiveEnd(head + tail, i) != Some(|head|)
            else PrimitiveEnd(head + tail, i) == PrimitiveEnd(head, i)
    decreases |head| - i
  {
    var js := head + tail;
    if i == |head| {
      assert GoesOn(tail) ==> !AtEnd(js, i) && js[i] == tail[0];
    } else {
      assert js[i] == head[i];
      if !AtEnd(head, i) && !IsDelimiter(head[i]) && IsGraphic(head[i]) {
        PrimitiveEndExtends(head, tail, i + 1);
      }
    }
  }

  lemma {:induction false} HexEndExtends(head: string, tail: string, i: nat, k: nat)
    requires i <= |head|
    requires HexEnd(head, i, k).None? || HexEnd(head, i, k).value < |head|
    ensures HexEnd(head + tail, i, k) == HexEnd(head, i, k)
    decreases k
  {
    if k > 0 && !AtEnd(head, i) && IsHex(head[i]) {
      HexEndExtends(head, tail, i + 1, k - 1);
    }
  }

  lemma {:induction false} StringEndExtends(head: string, tail: string, i: nat)
    requires i <= |head| && StringEnd(head, i).Closed?
    ensures StringEnd(head + tail, i) == StringEnd(head, i)
    decreases |head| - i
  {
    if head[i] != '"' {
      if head[i] == '\\' && i + 1 < |head| {
        if IsSimpleEscape(head[i + 1]) {
          StringEndExtends(head, tail, i + 2);
        } else {
          HexEndExtends(head, tail, i + 2, 4);
          StringEndExtends(head, tail, HexEnd(head, i + 2, 4).value);
        }
      } else {
        StringEndExtends(head, tail, i + 1);
      }
    }
  }

  /** Whether the step at `s` allocates a primitive the cut runs through. */
  predicate CutsAt(head: string, tail: string, s: State)
    requires !AtEnd(head, s.pos)
  {
    var c := head[s.pos];
    !IsDelimiter(c) && c != '{' && c != '[' && c != '"' && CutsPrimitive(head, tail, s.pos)
  }

  lemma StepExtends(head: string, tail: string, s: State, cap: nat, more: nat)
    requires s.Ready() && !AtEnd(head, s.pos) && cap <= more
    requires Step(head, s, cap).Continue? && !CutsAt(head, tail, s)
    ensures Step(head + tail, s, more) == Step(head, s, cap)
  {
    var c := head[s.pos];
    assert (head + tail)[s.pos] == c;
    if c == '"' {
      StringEndExtends(head, tail, s.pos + 1);
    } else if c != '{' && c != '[' && !IsDelimiter(c) {
      PrimitiveEndExtends(head, tail, s.pos);
    }
  }

  /** Across a cut primitive, one call and two calls end with different tokens. */
  lemma CutDiffers(head: string, tail: string, s: State, cap: nat, more: nat)
    requires s.Ready() && !AtEnd(head, s.pos) && cap <= more
    requires Step(head, s, cap).Continue? && CutsAt(head, tail, s)
    ensures Run(head + tail, Step(head, s, cap).next, more).state != Run(head + tail, s, more).state
  {
    var js := head + tail;
    assert js[s.pos] == head[s.pos];
    PrimitiveEndExtends(head, tail, s.pos);
    ClosedSpansPersist(js, Step(head, s, cap).next, more, |s.tokens|);
    var o := Step(js, s, more);
    if o.Continue? {
      assert o.next.tokens[|s.tokens|].end != -1;
      ClosedSpansPersist(js, o.next, more, |s.tokens|);
    }
  }

  /**
   What the caller can see of a cut: the first call consumed text, stopped at the end of it with a
   primitive ending there, and the further text goes on.
   */
  predicate CutVisible(head: string, tail: string, s: State, after: State) {
    && s.pos < |head| && after.pos == |head| && GoesOn(tail)
    && |after.tokens| > 0
    && after.tokens[|after.tokens| - 1].kind == Primitive
    && after.tokens[|after.tokens| - 1].end == |head|
  }

  /**
   However a call on `head` with `cap` tokens ends, calling again from where it stopped, with any
   further text and at least as many tokens, gives the code, parser state and tokens of one call on
   the whole text from the start, if and only if the cut does not run through a primitive.
   */
  lemma {:induction false} Resume(head: string, tail: string, s: State, cap: nat, more: nat)
    requires Forest(head, s) && cap <= more
    ensures var after := Run(head, s, cap).state;
            Run(head + tail, after, more) == Run(head + tail, s, more) <==> !CutVisible(head, tail, s, after)
    decreases |head| - s.pos
  {
    if !AtEnd(head, s.pos) {
      match Step(head, s, cap)
      case Continue(next) =>
        StepKeepsForest(head, s, cap);
        if CutsAt(head, tail, s) {
          CutDiffers(head, tail, s, cap, more);
          assert Run(head, next, cap).state == next;
        } else {
          StepExtends(head, tail, s, cap, more);
          Resume(head, tail, next, cap, more);
          UncutStepHidesNothing(head, tail, s, cap);
        }
      case Stop(_, last) =>
        assert last == s;
    }
  }

  lemma StoppedBehindPrimitive(head: string, s: State)
    requires Forest(head, s) && s.pos < |head|
    ensures forall i :: 0 <= i < |s.tokens| ==> s.tokens[i].kind == Primitive ==> s.tokens[i].end < |head|
  {
    forall i | 0 <= i < |s.tokens|
      ensures s.tokens[i].kind == Primitive ==> s.tokens[i].end < |head|
    {
      assert Delimited(head, s.tokens[i], s.pos);
    }
  }

  /** A cut is visible after an uncut step exactly when it is visible from the next state on. */
  lemma UncutStepHidesNothing(head: string, tail: string, s: State, cap: nat)
    requires Forest(head, s) && !AtEnd(head, s.pos) && !CutsAt(head, tail, s)
    requires Step(head, s, cap).Continue? && Forest(head, Step(head, s, cap).next)
    ensures var next := Step(head, s, cap).next;
            var after := Run(head, next, cap).state;
            CutVisible(head, tail, s, after) <==> CutVisible(head, tail, next, after)
  {
    var next := Step(head, s, cap).next;
    if next.pos == |head| {
      assert Run(head, next, cap).state == next;
      StoppedBehindPrimitive(head, s);
    }
  }

  /** The case the tokenizer is built for: it ran out of tokens and is called again with more. */
  lemma ResumeWithMoreTokens(js: string, s: State, cap: nat, more: nat)
    requires Forest(js, s) && cap <= more && Run(js, s, cap).code == -1
    ensures Run(js, Run(js, s, cap).state, more) == Run(js, s, more)
  {
    Resume(js, "", s, cap, more);
    assert js + "" == js;
  }
}
