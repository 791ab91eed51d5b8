/**
 Which texts the tokenizer reads as one string or one primitive, and which it rejects, in literal
 characters: the scanners against a grammar of what they accept. Strings may hold any character but
 NUL, the quote and a lone backslash; primitives run up to a delimiter or the end of the text.
 */
module JsmnLexemes {
  import opened Jsmn
  import opened JsonGrammar
  import opened Wrappers

  // ---------------------------------------------------------------- strings

  /** A piece of a string as the tokenizer takes it: more control characters than RFC 8259 allows. */
  predicate LooseItem(i: StringItem) {
    match i
    case Plain(c) => c != '"' && c != '\\' && c != '\0'
    case Escaped(c) => IsEscapeLetter(c)
    case Unicode(hex) => |hex| == 4 && forall c <- hex :: IsHexDigit(c)
  }

  predicate LooseBody(body: seq<StringItem>) {
    forall i <- body :: LooseItem(i)
  }

  /** A backslash that begins no escape: before another letter, or before `u` and too few hex digits. */
  datatype Flaw = Letter(c: char) | Hex(digits: string, c: char)

  predicate NoEscape(bad: Flaw) {
    match bad
    case Letter(c) => !IsEscapeLetter(c) && c != 'u'
    case Hex(digits, c) =>
      |digits| < 4 && (forall d <- digits :: IsHexDigit(d)) && !IsHexDigit(c) && c != '\0'
  }

  function PrintFlaw(bad: Flaw): (r: string)
    ensures r != ""
  {
    match bad
    case Letter(c) => ['\\', c]
    case Hex(digits, c) => "\\u" + (digits + [c])
  }

  lemma {:induction false} HexScans(js: string, i: nat, hex: string)
    requires At(js, i, hex) && forall c <- hex :: IsHexDigit(c)
    ensures HexEnd(js, i, |hex|) == Some(i + |hex|)
    decreases |hex|
  {
    if hex != "" {
      assert js[i] == hex[0] && hex[0] in hex;
      assert hex == hex[..1] + hex[1..];
      AtSplit(js, i, hex[..1], hex[1..]);
      hide At;
      HexScans(js, i + 1, hex[1..]);
    }
  }

  /** Fewer than `k` hex digits and then something else. */
  lemma {:induction false} HexFails(js: string, i: nat, hex: string, k: nat)
    requires At(js, i, hex) && |hex| < k && forall c <- hex :: IsHexDigit(c)
    requires i + |hex| < |js| && !IsHexDigit(js[i + |hex|]) && js[i + |hex|] != '\0'
    ensures HexEnd(js, i, k) == None
    decreases |hex|
  {
    if hex != "" {
      assert js[i] == hex[0] && hex[0] in hex;
      assert hex == hex[..1] + hex[1..];
      AtSplit(js, i, hex[..1], hex[1..]);
      HexFails(js, i + 1, hex[1..], k - 1);
    }
  }

  lemma QuoteCloses(js: string, i: nat)
    requires i < |js| && js[i] == '"'
    ensures StringEnd(js, i) == Closed(i)
  {
  }

  lemma ItemScans(js: string, i: nat, item: StringItem)
    requires LooseItem(item) && At(js, i, PrintItem(item)) && i + |PrintItem(item)| < |js|
    ensures StringEnd(js, i) == StringEnd(js, i + |PrintItem(item)|)
  {
    var text := PrintItem(item);
    assert js[i] == text[0];
    match item
    case Plain(c) =>
    case Escaped(c) =>
      assert js[i + 1] == text[1];
    case Unicode(hex) =>
      assert js[i + 1] == text[1];
      AtSplit(js, i, "\\u", hex);
      HexScans(js, i + 2, hex);
  }

  lemma {:induction false} BodyScans(js: string, i: nat, body: seq<StringItem>, rest: string)
    requires LooseBody(body) && rest != "" && At(js, i, PrintBody(body) + rest)
    ensures StringEnd(js, i) == StringEnd(js, i + |PrintBody(body)|) && At(js, i + |PrintBody(body)|, rest)
    decreases |body|
  {
    hide StringEnd, PrintItem, LooseItem;
    if body == [] {
      assert PrintBody(body) + rest == rest;
    } else {
      var item := PrintItem(body[0]);
      var others := PrintBody(body[1..]) + rest;
      assert PrintBody(body) + rest == item + others;
      AtSplit(js, i, item, others);
      assert i + |item| < |js|;
      hide At;
      ItemScans(js, i, body[0]);
      BodyScans(js, i + |item|, body[1..], rest);
    }
  }

  lemma BodyCloses(js: string, i: nat, body: seq<StringItem>)
    requires LooseBody(body) && At(js, i, PrintBody(body) + "\"")
    ensures StringEnd(js, i) == Closed(i + |PrintBody(body)|)
  {
    BodyScans(js, i, body, "\"");
    var q := i + |PrintBody(body)|;
    assert js[q] == "\""[0];
    QuoteCloses(js, q);
  }

  lemma BodyFails(js: string, i: nat, body: seq<StringItem>, bad: Flaw)
    requires LooseBody(body) && NoEscape(bad) && At(js, i, PrintBody(body) + PrintFlaw(bad))
    ensures StringEnd(js, i) == BadEscape
  {
    BodyScans(js, i, body, PrintFlaw(bad));
    FlawFails(js, i + |PrintBody(body)|, bad);
  }

  lemma FlawFails(js: string, i: nat, bad: Flaw)
    requires NoEscape(bad) && At(js, i, PrintFlaw(bad))
    ensures StringEnd(js, i) == BadEscape
  {
    var text := PrintFlaw(bad);
    assert js[i] == text[0] && js[i + 1] == text[1];
    match bad
    case Letter(_) =>
    case Hex(digits, c) =>
      AtSplit(js, i, "\\u", digits + [c]);
      AtSplit(js, i + 2, digits, [c]);
      assert js[i + 2 + |digits|] == [c][0];
      HexFails(js, i + 2, digits, 4);
  }

  /** The hex digits a \u scan gets over end at `e`. */
  lemma {:induction false} HexRead(js: string, i: nat, k: nat) returns (e: nat)
    requires i <= |js|
    ensures i <= e <= |js| && e <= i + k && forall j :: i <= j < e ==> IsHexDigit(js[j])
    ensures HexEnd(js, i, k).Some? ==> HexEnd(js, i, k).value == e && (AtEnd(js, e) || e == i + k)
    ensures HexEnd(js, i, k).None? ==> e < |js| && e < i + k && !IsHexDigit(js[e]) && js[e] != '\0'
    decreases k
  {
    e := i;
    if k > 0 && !AtEnd(js, i) && IsHex(js[i]) {
      e := HexRead(js, i + 1, k - 1);
    }
  }

  /** What a string scan reads: pieces it takes, up to the closing quote or to a bad escape. */
  datatype StringText = StringText(body: seq<StringItem>, bad: Flaw)

  ghost predicate Reads(js: string, i: nat, t: StringText) {
    LooseBody(t.body)
    && match StringEnd(js, i)
       case Closed(q) => At(js, i, PrintBody(t.body) + "\"") && q == i + |PrintBody(t.body)|
       case BadEscape => NoEscape(t.bad) && At(js, i, PrintBody(t.body) + PrintFlaw(t.bad))
       case Unterminated => true
  }

  /** One more piece in front. */
  lemma ReadsBehind(js: string, i: nat, item: StringItem, t: StringText)
    requires LooseItem(item) && At(js, i, PrintItem(item))
    requires StringEnd(js, i) == StringEnd(js, i + |PrintItem(item)|) && Reads(js, i + |PrintItem(item)|, t)
    ensures Reads(js, i, t.(body := [item] + t.body))
  {
    hide StringEnd, PrintItem, LooseItem, NoEscape;
    var text := PrintItem(item);
    assert ([item] + t.body)[1..] == t.body;
    match StringEnd(js, i)
    case Closed(_) => AtJoin(js, i, text, PrintBody(t.body), "\"");
    case BadEscape => AtJoin(js, i, text, PrintBody(t.body), PrintFlaw(t.bad));
    case Unterminated =>
  }

  lemma AtJoin(js: string, i: nat, a: string, b: string, c: string)
    requires At(js, i, a) && At(js, i + |a|, b + c)
    ensures At(js, i, (a + b) + c)
  {
    assert (a + b) + c == a + (b + c);
    assert js[i..i + |a + b + c|] == js[i..i + |a|] + js[i + |a|..i + |a + b + c|];
  }

  lemma {:induction false} StringIsRead(js: string, i: nat) returns (t: StringText)
    requires i <= |js|
    ensures Reads(js, i, t)
    decreases |js| - i, 2
  {
    t := StringText([], Letter('\0'));
    if AtEnd(js, i) {
    } else if js[i] == '"' {
      assert js[i..i + 1] == "\"" == PrintBody([]) + "\"";
    } else if js[i] == '\\' && i + 1 < |js| {
      t := EscapeIsRead(js, i);
    } else if js[i] != '\\' {
      var more := StringIsRead(js, i + 1);
      assert js[i..i + 1] == [js[i]];
      ReadsBehind(js, i, Plain(js[i]), more);
      t := more.(body := [Plain(js[i])] + more.body);
    } else {
      assert AtEnd(js, i + 1);
    }
  }

  lemma {:induction false} EscapeIsRead(js: string, i: nat) returns (t: StringText)
    requires i + 1 < |js| && js[i] == '\\' && !AtEnd(js, i)
    ensures Reads(js, i, t)
    decreases |js| - i, 1
  {
    t := StringText([], Letter('\0'));
    if IsSimpleEscape(js[i + 1]) {
      var more := StringIsRead(js, i + 2);
      assert js[i..i + 2] == ['\\', js[i + 1]];
      ReadsBehind(js, i, Escaped(js[i + 1]), more);
      t := more.(body := [Escaped(js[i + 1])] + more.body);
    } else if js[i + 1] == 'u' {
      t := UnicodeIsRead(js, i);
    } else {
      t := t.(bad := Letter(js[i + 1]));
      assert js[i..i + 2] == PrintFlaw(t.bad) == PrintBody([]) + PrintFlaw(t.bad);
    }
  }

  lemma UnicodeStep(js: string, i: nat)
    requires i + 1 < |js| && js[i] == '\\' && js[i + 1] == 'u'
    ensures StringEnd(js, i)
            == if HexEnd(js, i + 2, 4).None? then BadEscape else StringEnd(js, HexEnd(js, i + 2, 4).value)
  {
  }

  lemma {:induction false} UnicodeIsRead(js: string, i: nat) returns (t: StringText)
    requires i + 1 < |js| && js[i] == '\\' && js[i + 1] == 'u'
    ensures Reads(js, i, t)
    decreases |js| - i, 0
  {
    t := StringText([], Letter('\0'));
    UnicodeStep(js, i);
    var e := HexRead(js, i + 2, 4);
    if HexEnd(js, i + 2, 4).None? {
      t := UnicodeFails(js, i, e);
    } else if AtEnd(js, e) {
      assert StringEnd(js, e) == Unterminated;
    } else {
      var more := StringIsRead(js, e);
      t := UnicodeGoesOn(js, i, e, more);
    }
  }

  lemma UnicodeFails(js: string, i: nat, e: nat) returns (t: StringText)
    requires i + 2 <= e < |js| && e < i + 6 && js[i] == '\\' && js[i + 1] == 'u'
    requires (forall j :: i + 2 <= j < e ==> IsHexDigit(js[j])) && !IsHexDigit(js[e]) && js[e] != '\0'
    requires StringEnd(js, i) == BadEscape
    ensures Reads(js, i, t)
  {
    hide StringEnd;
    var bad := Hex(js[i + 2..e], js[e]);
    t := StringText([], bad);
    SliceInThree(js, i, e);
    assert NoEscape(bad);
    hide IsHexDigit, NoEscape;
    assert PrintBody([]) + PrintFlaw(bad) == PrintFlaw(bad);
  }

  lemma UnicodeGoesOn(js: string, i: nat, e: nat, more: StringText) returns (t: StringText)
    requires e == i + 6 < |js| && js[i] == '\\' && js[i + 1] == 'u'
    requires forall j :: i + 2 <= j < e ==> IsHexDigit(js[j])
    requires StringEnd(js, i) == StringEnd(js, e) && Reads(js, e, more)
    ensures Reads(js, i, t)
  {
    hide StringEnd, Reads;
    var item := Unicode(js[i + 2..e]);
    t := more.(body := [item] + more.body);
    SliceInTwo(js, i, e);
    assert LooseItem(item);
    ReadsBehind(js, i, item, more);
  }

  lemma SliceInTwo(js: string, i: nat, e: nat)
    requires i + 2 <= e <= |js| && js[i] == '\\' && js[i + 1] == 'u'
    ensures js[i..e] == "\\u" + js[i + 2..e]
  {
  }

  lemma SliceInThree(js: string, i: nat, e: nat)
    requires i + 2 <= e < |js| && js[i] == '\\' && js[i + 1] == 'u'
    ensures js[i..e + 1] == "\\u" + (js[i + 2..e] + [js[e]])
  {
  }

  /**
   A string opened in front of `i` closes at `q` if and only if the text from `i` to `q` is made of
   plain characters, the eight escapes and \u with four hex digits, and a quote follows; it is rejected
   if and only if behind such pieces there is a backslash that begins no escape. Otherwise it is open.
   */
  lemma StringExactly(js: string, i: nat, q: nat)
    requires i <= |js|
    ensures StringEnd(js, i) == Closed(q)
            <==> exists body :: LooseBody(body) && q == i + |PrintBody(body)| && At(js, i, PrintBody(body) + "\"")
    ensures StringEnd(js, i) == BadEscape
            <==> exists body, bad :: LooseBody(body) && NoEscape(bad) && At(js, i, PrintBody(body) + PrintFlaw(bad))
  {
    hide StringEnd, PrintBody, LooseItem, NoEscape, At;
    var t := StringIsRead(js, i);
    if body :| LooseBody(body) && q == i + |PrintBody(body)| && At(js, i, PrintBody(body) + "\"") {
      BodyCloses(js, i, body);
    }
    if body, bad :| LooseBody(body) && NoEscape(bad) && At(js, i, PrintBody(body) + PrintFlaw(bad)) {
      BodyFails(js, i, body, bad);
    }
  }

  // ---------------------------------------------------------------- primitives

  /** What ends a primitive: blanks, `:`, `,` and the closing brackets. */
  predicate EndsPrimitive(c: char) {
    IsWhite(c) || c == ':' || c == ',' || c == ']' || c == '}'
  }

  /** What primitives are made of, `{`, `[` and quotes included. */
  predicate PrimitiveChar(c: char) {
    '!' <= c <= '~' && !EndsPrimitive(c)
  }

  lemma {:induction false} WordScans(js: string, i: nat, w: string)
    requires At(js, i, w) && forall c <- w :: PrimitiveChar(c)
    requires AtEnd(js, i + |w|) || EndsPrimitive(js[i + |w|])
    ensures PrimitiveEnd(js, i) == Some(i + |w|)
    decreases |w|
  {
    if w != "" {
      assert js[i] == w[0] && w[0] in w;
      assert w == w[..1] + w[1..];
      AtSplit(js, i, w[..1], w[1..]);
      WordScans(js, i + 1, w[1..]);
    }
  }

  lemma {:induction false} PrimitiveRead(js: string, i: nat)
    requires i <= |js|
    ensures match PrimitiveEnd(js, i)
            case Some(e) =>
              && i <= e <= |js| && (forall k :: i <= k < e ==> PrimitiveChar(js[k]))
              && (AtEnd(js, e) || EndsPrimitive(js[e]))
            case None =>
              exists e :: i <= e < |js| && (forall k :: i <= k < e ==> PrimitiveChar(js[k]))
                          && js[e] != '\0' && !PrimitiveChar(js[e]) && !EndsPrimitive(js[e])
    decreases |js| - i
  {
    if !AtEnd(js, i) && !IsDelimiter(js[i]) && IsGraphic(js[i]) {
      PrimitiveRead(js, i + 1);
    }
  }

  /**
   A primitive at `i` ends at `e` if and only if only printable characters other than delimiters stand
   from `i` to `e` and there the text ends or a delimiter stands; it is rejected if and only if the
   first other character is neither.
   */
  lemma PrimitiveExactly(js: string, i: nat, e: nat)
    requires i <= |js|
    ensures PrimitiveEnd(js, i) == Some(e)
            <==> i <= e <= |js| && (forall k :: i <= k < e ==> PrimitiveChar(js[k]))
                 && (e == |js| || js[e] == '\0' || EndsPrimitive(js[e]))
    ensures PrimitiveEnd(js, i) == None
            <==> exists k :: i <= k < |js| && (forall j :: i <= j < k ==> PrimitiveChar(js[j]))
                             && js[k] != '\0' && !PrimitiveChar(js[k]) && !EndsPrimitive(js[k])
  {
    PrimitiveRead(js, i);
  }

  // ---------------------------------------------------------------- rejections

  /** Whatever was read before, a string with a bad escape is the end of the call, with code -2. */
  lemma BadStringRejected(js: string, s: State, body: seq<StringItem>, bad: Flaw, cap: nat)
    requires s.Ready() && LooseBody(body) && NoEscape(bad) && At(js, s.pos, "\"" + (PrintBody(body) + PrintFlaw(bad)))
    ensures Run(js, s, cap) == Result(-2, s)
  {
    hide StringEnd, PrintBody, LooseItem, NoEscape;
    AtSplit(js, s.pos, "\"", PrintBody(body) + PrintFlaw(bad));
    assert js[s.pos] == "\""[0];
    BodyFails(js, s.pos + 1, body, bad);
  }
}
