/**
 Console input from arc to the daemon: escaped and wrapped by arc/src/workflow_attach.c, extracted by
 src/foundation/argo_json.c, unescaped by src/daemon/argo_daemon_workflow_control.c. When does the
 daemon get what was typed?
 */
module ConsoleInput {
  import opened CStrings
  import opened JsonStrings

  // ---------------------------------------------------------------- escape, then unescape

  /** What the daemon makes of one escaped character. */
  function Decoded(e: Escaper, c: char): (r: string)
    ensures r != "" && (r == [c] <==> !NeedsUnicode(e, c))
  {
    if NeedsUnicode(e, c) then UnicodeEscape(c)[1..] else [c]
  }

  function DecodedAll(e: Escaper, s: string): string {
    if s == "" then "" else Decoded(e, s[0]) + DecodedAll(e, s[1..])
  }

  lemma UnescapeUnit(e: Escaper, c: char, t: string)
    ensures Unescaped(Unit(e, c) + t) == Decoded(e, c) + Unescaped(t)
  {
    var u := Unit(e, c);
    var s := u + t;
    hide Unescaped;
    if NeedsUnicode(e, c) {
      assert u == UnicodeEscape(c);
      UnescapeUnicode(c, t);
    } else if |u| == 2 {
      UnescapePair(s, u[1]);
      assert s[2..] == t;
    } else {
      assert s[1..] == t;
      UnescapeOne(s);
    }
  }

  lemma UnescapeUnicode(c: char, t: string)
    ensures Unescaped(UnicodeEscape(c) + t) == UnicodeEscape(c)[1..] + Unescaped(t)
  {
    hide Unescaped;
    var u := UnicodeEscape(c);
    var hex := u[2..];
    assert u == "\\u" + hex && '\\' !in hex;
    hide UnicodeEscape;
    assert (u + t)[2..] == hex + t;
    UnescapePair(u + t, 'u');
    UnescapePlain(hex, t);
    assert u[1..] == "u" + hex;
    Joined("u", hex, Unescaped(t));
  }

  lemma UnescapeOne(s: string)
    requires s != "" && s[0] != '\\'
    ensures Unescaped(s) == [s[0]] + Unescaped(s[1..])
  {
  }

  lemma UnescapePair(s: string, x: char)
    requires |s| >= 2 && s[0] == '\\' && s[1] == x
    ensures Unescaped(s) == [Meaning(x)] + Unescaped(s[2..])
  {
  }

  /** Text without backslashes stays as it is. */
  lemma {:induction false} UnescapePlain(p: string, t: string)
    requires '\\' !in p
    ensures Unescaped(p + t) == p + Unescaped(t)
  {
    if p == "" {
      assert p + t == t;
    } else {
      var s := p + t;
      assert s[0] == p[0] && p[0] in p && s[1..] == p[1..] + t;
      UnescapePlain(p[1..], t);
      assert Unescaped(s) == [p[0]] + Unescaped(s[1..]);
    }
  }

  lemma {:induction false} UnescapeEscaped(e: Escaper, s: string)
    ensures Unescaped(Escaped(e, s)) == DecodedAll(e, s)
  {
    if s != "" {
      UnescapeUnit(e, s[0], Escaped(e, s[1..]));
      UnescapeEscaped(e, s[1..]);
    }
  }

  /** Decoding only ever lengthens a text, and every \u sequence does lengthen it. */
  lemma {:induction false} DecodedLength(e: Escaper, s: string)
    ensures |DecodedAll(e, s)| >= |s|
    ensures (forall c <- s :: !NeedsUnicode(e, c)) ==> DecodedAll(e, s) == s
    ensures (exists c <- s :: NeedsUnicode(e, c)) ==> |DecodedAll(e, s)| > |s|
  {
    if s != "" {
      DecodedLength(e, s[1..]);
      assert forall c <- s[1..] :: c in s;
      assert s == [s[0]] + s[1..];
    }
  }

  /** The unescaper undoes an escaper on exactly the texts that need no \u sequence. */
  lemma UnescapeUndoesEscape(e: Escaper, s: string)
    ensures Unescaped(Escaped(e, s)) == s <==> forall c <- s :: !NeedsUnicode(e, c)
  {
    UnescapeEscaped(e, s);
    DecodedLength(e, s);
  }

  // ---------------------------------------------------------------- where the extractor sees the end

  predicate EndsInBackslash(s: string) {
    s != "" && s[|s| - 1] == '\\'
  }

  lemma {:induction false} NoQuoteNoEnd(p: string)
    requires '"' !in p
    ensures ClosingQuote(p) == |p|
  {
    if p != "" {
      assert p[0] in p;
      NoQuoteNoEnd(p[1..]);
    }
  }

  /** The extractor steps over an escaped character, unless a backslash pair runs into a quote. */
  lemma UnitIsPassed(e: Escaper, c: char, t: string)
    requires c == '\\' ==> t == "" || t[0] != '"'
    ensures ClosingQuote(Unit(e, c) + t) == |Unit(e, c)| + ClosingQuote(t)
  {
    UnitShape(e, c);
    hide Unit;
    var u := Unit(e, c);
    if c == '"' {
      PairedQuoteIsPassed(t);
    } else if c == '\\' {
      BackslashPairIsPassed(t);
    } else {
      PlainIsPassed(u, t);
    }
  }

  lemma UnitShape(e: Escaper, c: char)
    ensures c == '"' || c == '\\' ==> Unit(e, c) == ['\\', c]
    ensures c != '"' && c != '\\' ==> '"' !in Unit(e, c) && !EndsInBackslash(Unit(e, c))
  {
  }

  lemma PairedQuoteIsPassed(t: string)
    ensures ClosingQuote(['\\', '"'] + t) == 2 + ClosingQuote(t)
  {
    assert (['\\', '"'] + t)[2..] == t;
  }

  lemma BackslashPairIsPassed(t: string)
    requires t == "" || t[0] != '"'
    ensures ClosingQuote(['\\', '\\'] + t) == 2 + ClosingQuote(t)
  {
    var s := ['\\', '\\'] + t;
    var rest := ['\\'] + t;
    assert s[1..] == rest && rest[1..] == t;
    assert ClosingQuote(rest) == 1 + ClosingQuote(t);
  }

  /** So it does over a text without quotes that does not end in a backslash. */
  lemma {:induction false} PlainIsPassed(p: string, t: string)
    requires '"' !in p && !EndsInBackslash(p)
    ensures ClosingQuote(p + t) == |p| + ClosingQuote(t)
  {
    var s := p + t;
    if p == "" {
      assert s == t;
    } else {
      assert s[0] == p[0] && p[0] in p && s[1..] == p[1..] + t;
      if |p| > 1 {
        assert s[1] == p[1] && p[1] in p;
      }
      PlainIsPassed(p[1..], t);
    }
  }

  lemma EscapedStartsPlain(e: Escaper, s: string, w: string)
    requires s != ""
    ensures Escaped(e, s) + w != "" && (Escaped(e, s) + w)[0] != '"'
  {
  }

  lemma {:induction false} EscapedIsPassed(e: Escaper, s: string, w: string)
    requires EndsInBackslash(s) ==> w == "" || w[0] != '"'
    ensures ClosingQuote(Escaped(e, s) + w) == |Escaped(e, s)| + ClosingQuote(w)
  {
    hide ClosingQuote, Unit;
    if s == "" {
      assert Escaped(e, s) + w == w;
    } else {
      var t := Escaped(e, s[1..]) + w;
      assert Escaped(e, s) + w == Unit(e, s[0]) + t;
      if s[1..] == "" {
        assert t == w;
      } else {
        EscapedStartsPlain(e, s[1..], w);
      }
      UnitIsPassed(e, s[0], t);
      EscapedIsPassed(e, s[1..], w);
    }
  }

  /** A backslash before the closing quote hides it: the pair it is escaped to is not seen as one. */
  lemma BackslashHidesQuote(e: Escaper, s: string, z: string)
    requires EndsInBackslash(s) && '"' !in z
    ensures ClosingQuote(Escaped(e, s) + ("\"" + z)) == |Escaped(e, s)| + 1 + |z|
  {
    hide Escaped, Unit, ClosingQuote;
    var n := |s| - 1;
    EscapedSnoc(e, s, n);
    assert s[..n + 1] == s;
    UnitShape(e, '\\');
    LonePairBeforeQuote(z);
    var pair := ['\\', '\\'];
    Joined(Escaped(e, s[..n]), pair, "\"" + z);
    EscapedIsPassed(e, s[..n], pair + ("\"" + z));
  }

  lemma LoneBackslashIsPassed(s: string)
    requires |s| > 1 && s[0] == '\\' && s[1] != '"'
    ensures ClosingQuote(s) == 1 + ClosingQuote(s[1..])
  {
  }

  lemma LonePairText(z: string)
    ensures var text := ['\\', '\\'] + ("\"" + z);
            text[0] == '\\' && text[1] == '\\' && text[1..] == ['\\', '"'] + z
  {
  }

  lemma LonePairBeforeQuote(z: string)
    requires '"' !in z
    ensures ClosingQuote(['\\', '\\'] + ("\"" + z)) == 3 + |z|
  {
    hide ClosingQuote;
    LonePairText(z);
    LoneBackslashIsPassed(['\\', '\\'] + ("\"" + z));
    PairedQuoteIsPassed(z);
    NoQuoteNoEnd(z);
  }

  /** Cut short, an escaped text holds no closing quote. */
  lemma {:induction false} CutHasNoEnd(e: Escaper, s: string, k: nat)
    requires k <= |Escaped(e, s)|
    ensures ClosingQuote(Escaped(e, s)[..k]) == k
  {
    if s != "" {
      var u := Unit(e, s[0]);
      var rest := Escaped(e, s[1..]);
      if k < |u| {
        assert Escaped(e, s)[..k] == u[..k];
        UnitPrefixHasNoEnd(e, s[0], k);
      } else {
        var t := rest[..k - |u|];
        assert Escaped(e, s)[..k] == u + t;
        if t != "" {
          EscapedStartsPlain(e, s[1..], "");
          assert rest + "" == rest;
        }
        UnitIsPassed(e, s[0], t);
        CutHasNoEnd(e, s[1..], k - |u|);
      }
    }
  }

  lemma UnitPrefixHasNoEnd(e: Escaper, c: char, k: nat)
    requires k < |Unit(e, c)|
    ensures ClosingQuote(Unit(e, c)[..k]) == k
  {
    NoQuoteNoEnd(Unit(e, c)[..k]);
  }

  // ---------------------------------------------------------------- the message

  const OPENING: string := "{\"input\":\""

  /** The body arc posts, cut to its buffer. */
  function Wrapped(escaped: string): string {
    Cut(OPENING + escaped + "\"}", BODY_SIZE)
  }

  /** What the input handler writes to the workflow, or how extraction fails. */
  function Received(body: string): Extraction {
    match ExtractNested(body, ["input"])
    case Found(value) => Found(Unescaped(value))
    case other => other
  }

  lemma KeyFound(content: string)
    ensures SearchKey("input") == "\"input\""
    ensures FindText(OPENING + content, SearchKey("input")) == 1
    ensures (OPENING + content)[8..] == ":\"" + content
  {
    var s := OPENING + content;
    assert s[1..] == "\"input\"" + (":\"" + content);
    assert "\"input\"" <= s[1..];
    assert s[0] == '{';
  }

  /** The extractor finds the start of the text. */
  lemma ContentFound(content: string)
    ensures ExtractNested(OPENING + content, ["input"]) == Content(content)
  {
    KeyFound(content);
    var rest := ":\"" + content;
    assert rest == ":" + ("\"" + content);
    CharSkips(":", "\"" + content, '"');
    assert rest[2..] == content;
    hide FindText, SearchKey, FindChar, Content;
  }

  /** Room for the text and its closing quote, though not always for the closing brace. */
  predicate Fits(escaped: string) {
    |escaped| <= 2036
  }

  /** What of the body follows the opening. */
  lemma WrappedContent(escaped: string)
    ensures var content := if Fits(escaped) then escaped + ("\"" + if |escaped| + 12 < BODY_SIZE then "}" else "")
                           else escaped[..BODY_SIZE - 11];
            Wrapped(escaped) == OPENING + content
  {
    var whole := OPENING + escaped + "\"}";
    assert |OPENING| == 10 && |whole| == |escaped| + 12;
    if |escaped| + 12 < BODY_SIZE {
      assert escaped + "\"}" == escaped + ("\"" + "}");
    } else if Fits(escaped) {
      assert whole[..BODY_SIZE - 1] == OPENING + (escaped + ("\"" + ""));
    } else {
      assert whole[..BODY_SIZE - 1] == OPENING + escaped[..BODY_SIZE - 11];
    }
  }

  /** Extraction gives the escaped text exactly when it fits and the typed text does not end in a backslash. */
  lemma ExtractionOutcome(e: Escaper, s: string)
    ensures ExtractNested(Wrapped(Escaped(e, s)), ["input"])
            == if Fits(Escaped(e, s)) && !EndsInBackslash(s) then Found(Escaped(e, s)) else Missing
  {
    var t := Escaped(e, s);
    WrappedContent(t);
    hide Escaped, Wrapped, ExtractNested;
    if Fits(t) {
      var z := if |t| + 12 < BODY_SIZE then "}" else "";
      ContentFound(t + ("\"" + z));
      if EndsInBackslash(s) {
        BackslashHidesQuote(e, s, z);
      } else {
        EscapedIsPassed(e, s, "\"" + z);
        assert ClosingQuote("\"" + z) == 0;
        assert (t + ("\"" + z))[..|t|] == t;
      }
    } else {
      ContentFound(t[..BODY_SIZE - 11]);
      CutHasNoEnd(e, s, BODY_SIZE - 11);
    }
  }

  /**
   The daemon gets what was typed exactly when the escaped text fits its buffer, the text does not end
   in a backslash and no character of it needs a \u sequence; it gets nothing exactly when one of the
   first two fails. Where it gets what was typed, the escaper's allocation was large enough, too; where
   the escaped text has an excess over it, this speaks of the text only, not of the memory it is in.
   */
  lemma ConsoleRoundTrip(s: string)
    ensures var fits := Fits(Escaped(Console, s));
            && (Received(Wrapped(Escaped(Console, s))) == Found(s)
                <==> fits && !EndsInBackslash(s) && forall c <- s :: !NeedsUnicode(Console, c))
            && (Received(Wrapped(Escaped(Console, s))) == Missing <==> !fits || EndsInBackslash(s))
            && (Received(Wrapped(Escaped(Console, s))) == Found(s)
                ==> Excess(s) <= 0 && |Escaped(Console, s)| <= 2 * |s|)
  {
    hide Escaped, Unescaped, Wrapped, Fits, EndsInBackslash, ExtractNested, NeedsUnicode, Excess;
    ExtractionOutcome(Console, s);
    UnescapeUndoesEscape(Console, s);
    EscapedLength(s);
    if forall c <- s :: !NeedsUnicode(Console, c) {
      NoUnicodeNoExcess(s);
    }
  }

  /** Escaped by the library instead, every text that fits and does not end in a backslash arrives. */
  lemma LibraryRoundTrip(s: string)
    ensures Received(Wrapped(Escaped(Library, s))) == Found(s)
            <==> Fits(Escaped(Library, s)) && !EndsInBackslash(s)
  {
    hide Escaped, Unescaped, Wrapped, Fits, EndsInBackslash, ExtractNested;
    ExtractionOutcome(Library, s);
    UnescapeUndoesEscape(Library, s);
  }

  /** The input step of arc and the input handler of the daemon, one after the other. */
  method SendInput(typed: string) returns (reply: Extraction)
    requires NUL !in typed
    ensures reply == Received(Wrapped(Escaped(Console, typed)))
    ensures reply == Found(typed) || reply == Missing || exists c <- typed :: NeedsUnicode(Console, c)
    ensures reply == Found(typed) ==> |Escaped(Console, typed)| <= 2 * |typed|
  {
    hide Wrapped, Escaped, Unescaped, ExtractNested;
    ConsoleRoundTrip(typed);
    ExtractionOutcome(Console, typed);
    EscapedHasNoNul(Console, typed);
    var escaped := EscapeForConsole(typed);
    reply := ExtractNestedString(Wrapped(escaped), ["input"]);
    if reply.Found? {
      var value := reply.value;
      var text := new char[|value| + 1](i => if 0 <= i < |value| then value[i] else NUL);
      assert text[..|value|] == value;
      var length := UnescapeInPlace(text, |value|);
      reply := Found(text[..length]);
    }
  }

  lemma {:induction false} EscapedHasNoNul(e: Escaper, s: string)
    requires NUL !in s
    ensures NUL !in Escaped(e, s)
  {
    if s != "" {
      UnitHasNoNul(e, s[0]);
      hide Unit;
      assert s[0] in s && forall c <- s[1..] :: c in s;
      EscapedHasNoNul(e, s[1..]);
    }
  }

  lemma UnitHasNoNul(e: Escaper, c: char)
    requires c != NUL
    ensures NUL !in Unit(e, c)
  {
  }
}
