/**
 The tokenizer of include/jsmn.h in the configuration the repository compiles: neither strict
 nor with parent links.

 The first half is a functional description of one parser call over the allocated prefix of the
 token array. The second half is the parser object itself, whose methods advance `pos`, `toknext`
 and `toksuper` and write the caller's array in place; each method is proved against the first half.
 */
module Jsmn {
  import opened Wrappers

  datatype Kind = Undefined | Object | Array | String | Primitive

  datatype Token = Token(kind: Kind, start: int, end: int, size: int)

  const NO_MEM: int := -1
  const INVALID: int := -2
  const PARTIAL: int := -3

  /** The parser together with the tokens allocated so far; `toknext` is the number of tokens. */
  datatype State = State(pos: nat, tokens: seq<Token>, super: int) {
    predicate Ready() {
      -1 <= super < |tokens|
    }
  }

  const START := State(0, [], -1)

  datatype Outcome = Continue(next: State) | Stop(code: int, last: State)

  // ---------------------------------------------------------------- characters

  predicate AtEnd(js: string, pos: nat) {
    pos >= |js| || js[pos] == '\0'
  }

  predicate IsBlank(c: char) {
    c == '\t' || c == '\r' || c == '\n' || c == ' '
  }

  /** The characters that end a primitive. */
  predicate IsDelimiter(c: char) {
    IsBlank(c) || c == ':' || c == ',' || c == ']' || c == '}'
  }

  predicate IsGraphic(c: char) {
    32 <= c as int < 127
  }

  predicate IsHex(c: char) {
    48 <= c as int <= 57 || 65 <= c as int <= 70 || 97 <= c as int <= 102
  }

  predicate IsSimpleEscape(c: char) {
    c == '"' || c == '/' || c == '\\' || c == 'b' || c == 'f' || c == 'r' || c == 'n' || c == 't'
  }

  // ---------------------------------------------------------------- lexemes

  /** Where the primitive running at `i` ends, or None at a character it must not contain. */
  function PrimitiveEnd(js: string, i: nat): (r: Option<nat>)
    ensures r.Some? ==> r.value >= i
    decreases |js| - i
  {
    if AtEnd(js, i) || IsDelimiter(js[i]) then Some(i)
    else if !IsGraphic(js[i]) then None
    else PrimitiveEnd(js, i + 1)
  }

  /** At most `k` hex digits from `i` on, fewer only at the end of the text. */
  function HexEnd(js: string, i: nat, k: nat): (r: Option<nat>)
    ensures r.Some? ==> i <= r.value <= i + k
    decreases k
  {
    if k == 0 || AtEnd(js, i) then Some(i)
    else if !IsHex(js[i]) then None
    else HexEnd(js, i + 1, k - 1)
  }

  datatype StringScan = Closed(quote: nat) | BadEscape | Unterminated

  /** The outcome of scanning a string body from `i` on. */
  function StringEnd(js: string, i: nat): (r: StringScan)
    ensures r.Closed? ==> i <= r.quote < |js| && js[r.quote] == '"'
    decreases |js| - i
  {
    if AtEnd(js, i) then Unterminated
    else if js[i] == '"' then Closed(i)
    else if js[i] == '\\' && i + 1 < |js| then
      if IsSimpleEscape(js[i + 1]) then StringEnd(js, i + 2)
      else if js[i + 1] == 'u' then
        match HexEnd(js, i + 2, 4)
        case None => BadEscape
        case Some(j) => StringEnd(js, j)
      else BadEscape
    else StringEnd(js, i + 1)
  }

  // ---------------------------------------------------------------- the token array

  predicate IsOpen(t: Token) {
    t.start != -1 && t.end == -1
  }

  predicate IsContainer(k: Kind) {
    k == Array || k == Object
  }

  /** The last open token before index `n`, or -1. */
  function LastOpen(tokens: seq<Token>, n: nat): (r: int)
    requires n <= |tokens|
    ensures -1 <= r < n
    ensures r >= 0 ==> IsOpen(tokens[r])
    ensures forall j :: r < j < n ==> !IsOpen(tokens[j])
  {
    if n == 0 then -1
    else if IsOpen(tokens[n - 1]) then n - 1
    else LastOpen(tokens, n - 1)
  }

  /** The last open container before index `n`, or -1. */
  function LastOpenContainer(tokens: seq<Token>, n: nat): (r: int)
    requires n <= |tokens|
    ensures -1 <= r < n
    ensures r >= 0 ==> IsOpen(tokens[r]) && IsContainer(tokens[r].kind)
    ensures forall j :: r < j < n ==> !(IsOpen(tokens[j]) && IsContainer(tokens[j].kind))
  {
    if n == 0 then -1
    else if IsContainer(tokens[n - 1].kind) && IsOpen(tokens[n - 1]) then n - 1
    else LastOpenContainer(tokens, n - 1)
  }

  /** Count one more child in token `i`; -1 stands for no token. */
  function Bump(tokens: seq<Token>, i: int): (r: seq<Token>)
    requires -1 <= i < |tokens|
    ensures |r| == |tokens|
  {
    if i == -1 then tokens else tokens[i := tokens[i].(size := tokens[i].size + 1)]
  }

  // ---------------------------------------------------------------- one iteration of the main loop

  function BracketKind(c: char): Kind {
    if c == '{' || c == '}' then Object else Array
  }

  function OpenStep(js: string, s: State, cap: nat): (o: Outcome)
    requires s.Ready() && !AtEnd(js, s.pos)
  {
    if |s.tokens| >= cap then Stop(NO_MEM, s)
    else
      Continue(State(s.pos + 1,
                     Bump(s.tokens, s.super) + [Token(BracketKind(js[s.pos]), s.pos, -1, 0)],
                     |s.tokens|))
  }

  function CloseStep(js: string, s: State): (o: Outcome)
    requires s.Ready() && !AtEnd(js, s.pos)
  {
    var i := LastOpen(s.tokens, |s.tokens|);
    if i == -1 || s.tokens[i].kind != BracketKind(js[s.pos]) then Stop(INVALID, s)
    else
      var closed := s.tokens[i := s.tokens[i].(end := s.pos + 1)];
      Continue(State(s.pos + 1, closed, LastOpen(closed, i + 1)))
  }

  function StringStep(js: string, s: State, cap: nat): (o: Outcome)
    requires s.Ready() && !AtEnd(js, s.pos)
  {
    match StringEnd(js, s.pos + 1)
    case BadEscape => Stop(INVALID, s)
    case Unterminated => Stop(PARTIAL, s)
    case Closed(q) =>
      if |s.tokens| >= cap then Stop(NO_MEM, s)
      else Continue(State(q + 1, Bump(s.tokens, s.super) + [Token(String, s.pos + 1, q, 0)], s.super))
  }

  function PrimitiveStep(js: string, s: State, cap: nat): (o: Outcome)
    requires s.Ready() && !AtEnd(js, s.pos)
  {
    match PrimitiveEnd(js, s.pos)
    case None => Stop(INVALID, s)
    case Some(e) =>
      if |s.tokens| >= cap then Stop(NO_MEM, s)
      else Continue(State(e, Bump(s.tokens, s.super) + [Token(Primitive, s.pos, e, 0)], s.super))
  }

  function CommaStep(s: State): (o: Outcome)
    requires s.Ready()
  {
    if s.super != -1 && !IsContainer(s.tokens[s.super].kind) then
      var i := LastOpenContainer(s.tokens, |s.tokens|);
      Continue(State(s.pos + 1, s.tokens, if i >= 0 then i else s.super))
    else
      Continue(s.(pos := s.pos + 1))
  }

  function Step(js: string, s: State, cap: nat): (o: Outcome)
    requires s.Ready() && !AtEnd(js, s.pos)
    ensures o.Continue? ==> o.next.Ready() && o.next.pos > s.pos && |o.next.tokens| >= |s.tokens|
    ensures o.Stop? ==> o.last == s && o.code < 0
  {
    var c := js[s.pos];
    if c == '{' || c == '[' then OpenStep(js, s, cap)
    else if c == '}' || c == ']' then CloseStep(js, s)
    else if c == '"' then StringStep(js, s, cap)
    else if IsBlank(c) then Continue(s.(pos := s.pos + 1))
    else if c == ':' then Continue(s.(pos := s.pos + 1, super := |s.tokens| - 1))
    else if c == ',' then CommaStep(s)
    else PrimitiveStep(js, s, cap)
  }

  /** The verdict at the end of the text: the token count, or PARTIAL while a bracket is open. */
  function Verdict(tokens: seq<Token>): int {
    if LastOpen(tokens, |tokens|) != -1 then PARTIAL else |tokens|
  }

  datatype Result = Result(code: int, state: State)

  /** A whole call in token mode with `cap` usable tokens. */
  function Run(js: string, s: State, cap: nat): (r: Result)
    requires s.Ready()
    ensures r.state.Ready() && r.state.pos >= s.pos
    decreases |js| - s.pos
  {
    if AtEnd(js, s.pos) then Result(Verdict(s.tokens), s)
    else
      match Step(js, s, cap)
      case Stop(code, last) => Result(code, last)
      case Continue(next) => Run(js, next, cap)
  }

  /** A whole call with a null token array: only lexemes are counted, brackets are not matched. */
  function CountRun(js: string, pos: nat, count: nat): (r: int)
    decreases |js| - pos
  {
    if AtEnd(js, pos) then count
    else
      var c := js[pos];
      if c == '{' || c == '[' then CountRun(js, pos + 1, count + 1)
      else if c == '"' then
        match StringEnd(js, pos + 1)
        case BadEscape => INVALID
        case Unterminated => PARTIAL
        case Closed(q) => CountRun(js, q + 1, count + 1)
      else if IsDelimiter(c) then CountRun(js, pos + 1, count)
      else
        match PrimitiveEnd(js, pos)
        case None => INVALID
        case Some(e) =>
          PrimitiveNonEmpty(js, pos);
          CountRun(js, e, count + 1)
  }

  /** Where a counting call stops, and whether it passed a colon. */
  datatype Halt = Halt(pos: nat, colon: bool)

  /** At the end of the text, or at the start of the lexeme it could not read. */
  function CountHalt(js: string, pos: nat, colon: bool): Halt
    decreases |js| - pos
  {
    if AtEnd(js, pos) then Halt(pos, colon)
    else
      var c := js[pos];
      if c == '{' || c == '[' then CountHalt(js, pos + 1, colon)
      else if c == '"' then
        var q := StringEnd(js, pos + 1);
        if q.Closed? then CountHalt(js, q.quote + 1, colon) else Halt(pos, colon)
      else if IsDelimiter(c) then CountHalt(js, pos + 1, colon || c == ':')
      else
        var e := PrimitiveEnd(js, pos);
        PrimitiveNonEmpty(js, pos);
        if e.Some? then CountHalt(js, e.value, colon) else Halt(pos, colon)
  }

  /**
   A counting call succeeds exactly when it gets to the end of the text. Otherwise the code is -3 where
   it stops at a string that does not end, and -2 at any other string or primitive it cannot read.
   */
  lemma {:induction false} CountStopsAtEnd(js: string, pos: nat, count: nat, colon: bool)
    ensures var n, halt := CountRun(js, pos, count), CountHalt(js, pos, colon).pos;
            && (n >= 0 <==> AtEnd(js, halt))
            && (n < 0 ==> n == if js[halt] == '"' && StringEnd(js, halt + 1) == Unterminated then -3 else -2)
    decreases |js| - pos
  {
    hide StringEnd, PrimitiveEnd;
    if !AtEnd(js, pos) {
      var c := js[pos];
      if c == '{' || c == '[' {
        CountStopsAtEnd(js, pos + 1, count + 1, colon);
      } else if c == '"' {
        if StringEnd(js, pos + 1).Closed? {
          CountStopsAtEnd(js, StringEnd(js, pos + 1).quote + 1, count + 1, colon);
        }
      } else if IsDelimiter(c) {
        CountStopsAtEnd(js, pos + 1, count, colon || c == ':');
      } else {
        PrimitiveNonEmpty(js, pos);
        if PrimitiveEnd(js, pos).Some? {
          CountStopsAtEnd(js, PrimitiveEnd(js, pos).value, count + 1, colon);
        }
      }
    }
  }

  lemma PrimitiveNonEmpty(js: string, i: nat)
    requires !AtEnd(js, i) && !IsDelimiter(js[i])
    ensures PrimitiveEnd(js, i).Some? ==> PrimitiveEnd(js, i).value > i
  {
  }

  lemma BumpAppend(tokens: seq<Token>, p: int, t: Token)
    requires -1 <= p < |tokens|
    ensures Bump(tokens + [t], p) == Bump(tokens, p) + [t]
  {
  }

  // ---------------------------------------------------------------- the parser object

  class Parser {
    var pos: nat
    var toknext: nat
    var toksuper: int

    constructor ()
      ensures pos == 0 && toknext == 0 && toksuper == -1
    {
      pos, toknext, toksuper := 0, 0, -1;
    }

    predicate Fits(tokens: array<Token>)
      reads this
    {
      toknext <= tokens.Length && -1 <= toksuper < toknext
    }

    /** What the parser and the caller's array stand for. */
    function Abs(tokens: array<Token>): State
      requires Fits(tokens)
      reads this, tokens
    {
      State(pos, tokens[..toknext], toksuper)
    }

    /** Take the next token slot; -1 stands for the null pointer. */
    method AllocToken(tokens: array<Token>, numTokens: nat) returns (index: int)
      requires Fits(tokens) && numTokens <= tokens.Length
      modifies this`toknext, tokens
      ensures index == -1 <==> old(toknext) >= numTokens
      ensures index == -1 ==> toknext == old(toknext) && tokens[..] == old(tokens[..])
      ensures index != -1 ==> index == old(toknext) && toknext == old(toknext) + 1
                              && toknext <= tokens.Length
                              && tokens[index].start == tokens[index].end == -1 && tokens[index].size == 0
                              && tokens[..] == old(tokens[..])[index := tokens[index]]
    {
      if toknext >= numTokens {
        return -1;
      }
      index := toknext;
      tokens[index] := tokens[index].(start := -1, end := -1, size := 0);
      toknext := toknext + 1;
    }

    /** Take the next token slot and fill it. */
    method FillNext(tokens: array<Token>, numTokens: nat, kind: Kind, start: int, end: int) returns (ok: bool)
      requires Fits(tokens) && numTokens <= tokens.Length
      modifies this`toknext, tokens
      ensures ok <==> old(toknext) < numTokens
      ensures Fits(tokens)
      ensures ok ==> tokens[..toknext] == old(tokens[..toknext]) + [Token(kind, start, end, 0)]
      ensures !ok ==> toknext == old(toknext) && tokens[..] == old(tokens[..])
      ensures tokens[toknext..] == old(tokens[..])[toknext..]
    {
      var index := AllocToken(tokens, numTokens);
      if index == -1 {
        return false;
      }
      tokens[index] := Token(kind, start, end, 0);
      ok := true;
      assert tokens[..toknext] == tokens[..index] + [tokens[index]];
    }

    /** Add one child to the token `toksuper` points at. */
    method CountChild(tokens: array<Token>)
      requires Fits(tokens)
      modifies tokens
      ensures tokens[..toknext] == Bump(old(tokens[..toknext]), toksuper)
      ensures tokens[toknext..] == old(tokens[toknext..])
    {
      if toksuper != -1 {
        tokens[toksuper] := tokens[toksuper].(size := tokens[toksuper].size + 1);
      }
    }

    method OpenBracket(js: string, tokens: array<Token>, numTokens: nat) returns (code: int)
      requires Fits(tokens) && numTokens <= tokens.Length && !AtEnd(js, pos) && (js[pos] == '{' || js[pos] == '[')
      modifies this`toknext, this`toksuper, tokens
      ensures Fits(tokens)
      ensures code == 0 ==> OpenStep(js, old(Abs(tokens)), numTokens) == Continue(Abs(tokens).(pos := pos + 1))
      ensures code == 0 ==> toknext == old(toknext) + 1
      ensures code != 0 ==> OpenStep(js, old(Abs(tokens)), numTokens) == Stop(code, Abs(tokens))
      ensures code == 0 || code == NO_MEM
      ensures tokens[toknext..] == old(tokens[..])[toknext..]
    {
      ghost var before := Abs(tokens);
      var ok := FillNext(tokens, numTokens, if js[pos] == '{' then Object else Array, pos, -1);
      if !ok {
        assert tokens[..toknext] == before.tokens;
        return NO_MEM;
      }
      BumpAppend(before.tokens, toksuper, Token(BracketKind(js[pos]), pos, -1, 0));
      CountChild(tokens);
      toksuper := toknext - 1;
      code := 0;
    }

    method CloseBracket(js: string, tokens: array<Token>) returns (code: int)
      requires Fits(tokens) && !AtEnd(js, pos) && (js[pos] == '}' || js[pos] == ']')
      modifies this`toksuper, tokens
      ensures Fits(tokens)
      ensures code == 0 ==> CloseStep(js, old(Abs(tokens))) == Continue(Abs(tokens).(pos := pos + 1))
      ensures code != 0 ==> CloseStep(js, old(Abs(tokens))) == Stop(code, Abs(tokens))
      ensures code != 0 ==> tokens[..] == old(tokens[..])
      ensures tokens[toknext..] == old(tokens[toknext..])
    {
      ghost var before := Abs(tokens);
      var kind := if js[pos] == '}' then Object else Array;
      var i: int := toknext - 1;
      while i >= 0
        invariant -1 <= i < toknext
        invariant tokens[..] == old(tokens[..]) && toksuper == before.super
        invariant LastOpen(before.tokens, toknext) == LastOpen(before.tokens, i + 1)
      {
        if tokens[i].start != -1 && tokens[i].end == -1 {
          if tokens[i].kind != kind {
            return INVALID;
          }
          break;
        }
        i := i - 1;
      }
      if i == -1 {
        return INVALID;
      }
      toksuper := -1;
      tokens[i] := tokens[i].(end := pos + 1);
      ghost var closed := before.tokens[i := before.tokens[i].(end := pos + 1)];
      assert tokens[..toknext] == closed;
      ghost var top := i;
      while i >= 0
        invariant -1 <= i <= top
        invariant tokens[..toknext] == closed && tokens[toknext..] == old(tokens[toknext..])
        invariant toksuper == -1
        invariant LastOpen(closed, top + 1) == LastOpen(closed, i + 1)
      {
        if tokens[i].start != -1 && tokens[i].end == -1 {
          assert closed[i] == tokens[i];
          toksuper := i;
          break;
        }
        assert closed[i] == tokens[i];
        i := i - 1;
      }
      code := 0;
    }

    method Comma(tokens: array<Token>)
      requires Fits(tokens)
      modifies this`toksuper
      ensures Fits(tokens)
      ensures CommaStep(old(Abs(tokens))) == Continue(Abs(tokens).(pos := pos + 1))
    {
      ghost var before := Abs(tokens);
      if toksuper != -1 && tokens[toksuper].kind != Array && tokens[toksuper].kind != Object {
        var i: int := toknext - 1;
        while i >= 0
          invariant -1 <= i < toknext && toksuper == before.super
          invariant LastOpenContainer(before.tokens, toknext) == LastOpenContainer(before.tokens, i + 1)
        {
          if tokens[i].kind == Array || tokens[i].kind == Object {
            if tokens[i].start != -1 && tokens[i].end == -1 {
              toksuper := i;
              break;
            }
          }
          i := i - 1;
        }
      }
    }

    method ParsePrimitive(js: string, tokens: array?<Token>, numTokens: nat) returns (code: int)
      requires tokens != null ==> Fits(tokens) && numTokens <= tokens.Length
      requires !AtEnd(js, pos) && !IsDelimiter(js[pos])
      modifies this`pos, this`toknext, tokens
      ensures tokens != null ==> Fits(tokens)
      ensures code == 0 ==> PrimitiveEnd(js, old(pos)) == Some(pos + 1)
      ensures tokens == null ==> toknext == old(toknext) && (code == 0 || code == INVALID)
      ensures code == INVALID ==> PrimitiveEnd(js, old(pos)) == None
      ensures tokens != null && code == 0 ==>
        old(toknext) < numTokens
        && Abs(tokens).tokens == old(Abs(tokens).tokens) + [Token(Primitive, old(pos), pos + 1, 0)]
      ensures code != 0 ==> pos == old(pos) && toknext == old(toknext)
      ensures code != 0 && tokens != null ==> tokens[..] == old(tokens[..])
                                              && (code == INVALID
                                                  || (code == NO_MEM && old(toknext) >= numTokens
                                                      && PrimitiveEnd(js, old(pos)).Some?))
      ensures tokens != null ==> tokens[toknext..] == old(tokens[..])[toknext..]
    {
      var start := pos;
      while pos < |js| && js[pos] != '\0'
        invariant start <= pos <= |js| && toknext == old(toknext)
        invariant pos == start ==> !AtEnd(js, pos) && !IsDelimiter(js[pos])
        invariant PrimitiveEnd(js, start) == PrimitiveEnd(js, pos)
        invariant tokens != null ==> tokens[..] == old(tokens[..])
      {
        if IsDelimiter(js[pos]) {
          break;
        }
        if js[pos] as int < 32 || js[pos] as int >= 127 {
          pos := start;
          return INVALID;
        }
        pos := pos + 1;
      }
      if tokens == null {
        pos := pos - 1;
        return 0;
      }
      var ok := FillNext(tokens, numTokens, Primitive, start, pos);
      if !ok {
        pos := start;
        return NO_MEM;
      }
      pos := pos - 1;
      code := 0;
    }

    /** From a backslash to the last character of its escape; false if it is not an escape. */
    method SkipEscape(js: string) returns (ok: bool)
      requires pos + 1 < |js| && js[pos] == '\\' && !AtEnd(js, pos)
      modifies this`pos
      ensures ok ==> pos > old(pos) && StringEnd(js, old(pos)) == StringEnd(js, pos + 1)
      ensures ok ==> if IsSimpleEscape(js[old(pos) + 1]) then pos == old(pos) + 1
                     else js[old(pos) + 1] == 'u' && HexEnd(js, old(pos) + 2, 4) == Some(pos + 1)
      ensures !ok ==> StringEnd(js, old(pos)) == BadEscape
    {
      ghost var slash := pos;
      pos := pos + 1;
      if IsSimpleEscape(js[pos]) {
        return true;
      }
      if js[pos] != 'u' {
        return false;
      }
      pos := pos + 1;
      var i := 0;
      while i < 4 && pos < |js| && js[pos] != '\0'
        invariant 0 <= i <= 4 && pos == slash + 2 + i
        invariant HexEnd(js, slash + 2, 4) == HexEnd(js, pos, 4 - i)
      {
        if !IsHex(js[pos]) {
          return false;
        }
        pos := pos + 1;
        i := i + 1;
      }
      pos := pos - 1;
      ok := true;
    }

    method ParseString(js: string, tokens: array?<Token>, numTokens: nat) returns (code: int)
      requires tokens != null ==> Fits(tokens) && numTokens <= tokens.Length
      requires !AtEnd(js, pos)
      modifies this`pos, this`toknext, tokens
      ensures tokens != null ==> Fits(tokens)
      ensures code == 0 ==> StringEnd(js, old(pos) + 1) == Closed(pos)
      ensures tokens == null ==> toknext == old(toknext) && (code == 0 || code == INVALID || code == PARTIAL)
      ensures code == INVALID ==> StringEnd(js, old(pos) + 1) == BadEscape
      ensures code == PARTIAL ==> StringEnd(js, old(pos) + 1) == Unterminated
      ensures tokens != null && code == 0 ==>
        old(toknext) < numTokens
        && Abs(tokens).tokens == old(Abs(tokens).tokens) + [Token(String, old(pos) + 1, pos, 0)]
      ensures code != 0 ==> pos == old(pos) && toknext == old(toknext)
      ensures code != 0 && tokens != null ==> tokens[..] == old(tokens[..])
                                              && (code == INVALID || code == PARTIAL
                                                  || (code == NO_MEM && old(toknext) >= numTokens
                                                      && StringEnd(js, old(pos) + 1).Closed?))
      ensures tokens != null ==> tokens[toknext..] == old(tokens[..])[toknext..]
    {
      var start := pos;
      pos := pos + 1;
      while pos < |js| && js[pos] != '\0'
        invariant start < pos && toknext == old(toknext)
        invariant StringEnd(js, start + 1) == StringEnd(js, pos)
        invariant tokens != null ==> tokens[..] == old(tokens[..])
        decreases |js| - pos
      {
        var c := js[pos];
        if c == '"' {
          if tokens == null {
            return 0;
          }
          var ok := FillNext(tokens, numTokens, String, start + 1, pos);
          if !ok {
            pos := start;
            return NO_MEM;
          }
          return 0;
        }
        if c == '\\' && pos + 1 < |js| {
          var ok := SkipEscape(js);
          if !ok {
            pos := start;
            return INVALID;
          }
        }
        pos := pos + 1;
      }
      pos := start;
      code := PARTIAL;
    }

    /** jsmn_parse with a token array. */
    method Parse(js: string, tokens: array<Token>, numTokens: nat) returns (r: int)
      requires Fits(tokens) && numTokens <= tokens.Length
      modifies this, tokens
      ensures Fits(tokens)
      ensures Result(r, Abs(tokens)) == Run(js, old(Abs(tokens)), numTokens)
      ensures tokens[toknext..] == old(tokens[..])[toknext..]
    {
      hide Step;
      var count: int := toknext;
      while pos < |js| && js[pos] != '\0'
        invariant Fits(tokens) && count == toknext
        invariant Run(js, Abs(tokens), numTokens) == Run(js, old(Abs(tokens)), numTokens)
        invariant tokens[toknext..] == old(tokens[..])[toknext..]
        decreases |js| - pos
      {
        var code := ParseOne(js, tokens, numTokens);
        if code < 0 {
          return code;
        }
        count := count + code;
        pos := pos + 1;
      }
      var i: int := toknext - 1;
      while i >= 0
        invariant -1 <= i < toknext
        invariant LastOpen(tokens[..toknext], toknext) == LastOpen(tokens[..toknext], i + 1)
      {
        if tokens[i].start != -1 && tokens[i].end == -1 {
          return PARTIAL;
        }
        i := i - 1;
      }
      r := count;
    }

    /**
     The body of the main loop up to its closing `pos++`: on success the number of tokens counted
     and `pos` at the last character used, on failure the code to return.
     */
    method ParseOne(js: string, tokens: array<Token>, numTokens: nat) returns (code: int)
      requires Fits(tokens) && numTokens <= tokens.Length && !AtEnd(js, pos)
      modifies this, tokens
      ensures Fits(tokens)
      ensures code >= 0 ==> Step(js, old(Abs(tokens)), numTokens) == Continue(Abs(tokens).(pos := pos + 1))
      ensures code >= 0 ==> toknext == old(toknext) + code
      ensures code < 0 ==> Step(js, old(Abs(tokens)), numTokens) == Stop(code, Abs(tokens))
      ensures tokens[toknext..] == old(tokens[..])[toknext..]
    {
      hide LastOpen, LastOpenContainer, StringEnd, PrimitiveEnd;
      var c := js[pos];
      if c == '{' || c == '[' {
        code := OpenBracket(js, tokens, numTokens);
        if code == 0 {
          code := 1;
        }
      } else if c == '}' || c == ']' {
        code := CloseBracket(js, tokens);
      } else if c == '"' {
        code := ParseScalar(js, tokens, numTokens);
      } else if IsBlank(c) {
        code := 0;
      } else if c == ':' {
        toksuper := toknext - 1;
        code := 0;
      } else if c == ',' {
        Comma(tokens);
        code := 0;
      } else {
        code := ParseScalar(js, tokens, numTokens);
      }
    }

    /** A string or primitive, counted under `toksuper`. */
    method ParseScalar(js: string, tokens: array<Token>, numTokens: nat) returns (code: int)
      requires Fits(tokens) && numTokens <= tokens.Length && !AtEnd(js, pos)
      requires js[pos] == '"' || !IsDelimiter(js[pos])
      modifies this`pos, this`toknext, tokens
      ensures Fits(tokens)
      ensures code == 1 || code < 0
      ensures var o := if js[old(pos)] == '"' then StringStep(js, old(Abs(tokens)), numTokens)
                       else PrimitiveStep(js, old(Abs(tokens)), numTokens);
              o == if code == 1 then Continue(Abs(tokens).(pos := pos + 1)) else Stop(code, Abs(tokens))
      ensures code == 1 ==> toknext == old(toknext) + 1
      ensures tokens[toknext..] == old(tokens[..])[toknext..]
    {
      hide StringEnd, PrimitiveEnd;
      ghost var before := Abs(tokens);
      if js[pos] == '"' {
        code := ParseString(js, tokens, numTokens);
      } else {
        code := ParsePrimitive(js, tokens, numTokens);
      }
      if code < 0 {
        assert tokens[..toknext] == before.tokens;
        return;
      }
      BumpAppend(before.tokens, toksuper, tokens[toknext - 1]);
      CountChild(tokens);
      code := 1;
    }

    /** jsmn_parse with a null token array: count what a parse would need. */
    method Count(js: string) returns (r: int)
      modifies this
      ensures r == CountRun(js, old(pos), old(toknext))
      ensures toknext == old(toknext)
      ensures var halt := CountHalt(js, old(pos), false);
              pos == halt.pos && toksuper == if halt.colon then toknext - 1 else old(toksuper)
    {
      hide StringEnd, PrimitiveEnd;
      var count := toknext;
      ghost var colon := false;
      while pos < |js| && js[pos] != '\0'
        invariant toknext == old(toknext)
        invariant CountRun(js, pos, count) == CountRun(js, old(pos), old(toknext))
        invariant CountHalt(js, pos, colon) == CountHalt(js, old(pos), false)
        invariant toksuper == if colon then toknext - 1 else old(toksuper)
        decreases |js| - pos
      {
        var c := js[pos];
        if c == '{' || c == '[' {
          count := count + 1;
        } else if c == '"' {
          var code := ParseString(js, null, 0);
          if code < 0 {
            return code;
          }
          count := count + 1;
        } else if IsDelimiter(c) {
          if c == ':' {
            toksuper := toknext - 1;
            colon := true;
          }
        } else {
          PrimitiveNonEmpty(js, pos);
          var code := ParsePrimitive(js, null, 0);
          if code < 0 {
            return code;
          }
          count := count + 1;
        }
        pos := pos + 1;
      }
      r := count;
    }
  }
}
