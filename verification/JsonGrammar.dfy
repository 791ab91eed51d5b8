/**
 JSON texts as RFC 8259, sections 2 to 7, allows them to be written: concrete syntax trees that keep
 every free choice of a printer (blanks, escapes, number forms), their text, and the token sequence
 a tokenizer should produce for them.
 */
module JsonGrammar {
  import opened Decimals
  import opened Jsmn
  import opened Wrappers

  /** One character of a string: itself, a two-character escape, or \uXXXX. */
  datatype StringItem = Plain(c: char) | Escaped(c: char) | Unicode(hex: string)

  datatype Exponent = Exponent(mark: char, sign: string, digits: string)

  datatype Value =
    | Literal(name: string)
    | Number(minus: bool, whole: string, fraction: Option<string>, exponent: Option<Exponent>)
    | Text(body: seq<StringItem>)
    | List(pad: string, items: Items)
    | Record(pad: string, members: Members)

  datatype Items = NoItems | Item(lead: string, value: Value, trail: string, rest: Items)

  datatype Members =
    | NoMembers
    | Member(lead: string, key: seq<StringItem>, beforeColon: string, afterColon: string,
             value: Value, trail: string, rest: Members)

  // ---------------------------------------------------------------- well-formedness

  /** The blanks of section 2. */
  predicate IsWhite(c: char) {
    c == ' ' || c == '\t' || c == '\n' || c == '\r'
  }

  /** What may follow a backslash, besides a `u` with four hex digits (section 7). */
  predicate IsEscapeLetter(c: char) {
    c == '"' || c == '\\' || c == '/' || c == 'b' || c == 'f' || c == 'n' || c == 'r' || c == 't'
  }

  predicate IsHexDigit(c: char) {
    '0' <= c <= '9' || 'A' <= c <= 'F' || 'a' <= c <= 'f'
  }

  predicate Blank(s: string) {
    forall c <- s :: IsWhite(c)
  }

  predicate Digits(s: string) {
    s != "" && forall c <- s :: IsDigit(c)
  }

  predicate LegalItem(i: StringItem) {
    match i
    case Plain(c) => c as int >= 0x20 && c != '"' && c != '\\'
    case Escaped(c) => IsEscapeLetter(c)
    case Unicode(hex) => |hex| == 4 && forall c <- hex :: IsHexDigit(c)
  }

  predicate LegalBody(body: seq<StringItem>) {
    forall i <- body :: LegalItem(i)
  }

  predicate LegalExponent(e: Exponent) {
    (e.mark == 'e' || e.mark == 'E') && (e.sign == "" || e.sign == "+" || e.sign == "-") && Digits(e.digits)
  }

  predicate Legal(v: Value) {
    match v
    case Literal(name) => name == "true" || name == "false" || name == "null"
    case Number(_, whole, fraction, exponent) =>
      && Digits(whole) && (whole[0] == '0' ==> |whole| == 1)
      && (fraction.Some? ==> Digits(fraction.value))
      && (exponent.Some? ==> LegalExponent(exponent.value))
    case Text(body) => LegalBody(body)
    case List(pad, items) => Blank(pad) && LegalItems(items)
    case Record(pad, members) => Blank(pad) && LegalMembers(members)
  }

  predicate LegalItems(items: Items) {
    match items
    case NoItems => true
    case Item(lead, value, trail, rest) => Blank(lead) && Legal(value) && Blank(trail) && LegalItems(rest)
  }

  predicate LegalMembers(members: Members) {
    match members
    case NoMembers => true
    case Member(lead, key, beforeColon, afterColon, value, trail, rest) =>
      && Blank(lead) && LegalBody(key) && Blank(beforeColon) && Blank(afterColon)
      && Legal(value) && Blank(trail) && LegalMembers(rest)
  }

  // ---------------------------------------------------------------- the text

  function PrintItem(i: StringItem): string {
    match i
    case Plain(c) => [c]
    case Escaped(c) => ['\\', c]
    case Unicode(hex) => "\\u" + hex
  }

  function PrintBody(body: seq<StringItem>): string {
    if body == [] then "" else PrintItem(body[0]) + PrintBody(body[1..])
  }

  function PrintNumber(v: Value): string
    requires v.Number?
  {
    (if v.minus then "-" else "") + v.whole
    + (if v.fraction.Some? then "." + v.fraction.value else "")
    + (if v.exponent.Some? then [v.exponent.value.mark] + v.exponent.value.sign + v.exponent.value.digits else "")
  }

  function Print(v: Value): string {
    match v
    case Literal(name) => name
    case Number(_, _, _, _) => PrintNumber(v)
    case Text(body) => "\"" + PrintBody(body) + "\""
    case List(pad, items) => "[" + pad + PrintItems(items)
    case Record(pad, members) => "{" + pad + PrintMembers(members)
  }

  /** The items of an array up to and including its closing bracket. */
  function PrintItems(items: Items): string {
    match items
    case NoItems => "]"
    case Item(lead, value, trail, rest) =>
      lead + Print(value) + trail + ItemComma(rest) + PrintItems(rest)
  }

  function PrintKey(m: Members): string
    requires m.Member?
  {
    "\"" + PrintBody(m.key) + "\""
  }

  /** The first member up to where its value starts. */
  function PrintFront(m: Members): string
    requires m.Member?
  {
    m.lead + PrintKey(m) + m.beforeColon + ":" + m.afterColon
  }

  /** The members of an object up to and including its closing bracket. */
  function PrintMembers(members: Members): string {
    match members
    case NoMembers => "}"
    case Member(_, _, _, _, value, trail, rest) =>
      PrintFront(members) + Print(value) + trail + MemberComma(rest) + PrintMembers(rest)
  }

  function ItemComma(rest: Items): string {
    if rest.NoItems? then "" else ","
  }

  function MemberComma(rest: Members): string {
    if rest.NoMembers? then "" else ","
  }

  // ---------------------------------------------------------------- the tokens

  function ItemCount(items: Items): nat {
    if items.NoItems? then 0 else 1 + ItemCount(items.rest)
  }

  function MemberCount(members: Members): nat {
    if members.NoMembers? then 0 else 1 + MemberCount(members.rest)
  }

  /** The preorder tokens of `v` printed at offset `at`. */
  function Tokens(v: Value, at: nat): (r: seq<Token>)
    ensures |r| > 0
  {
    match v
    case Literal(name) => [Token(Primitive, at, at + |name|, 0)]
    case Number(_, _, _, _) => [Token(Primitive, at, at + |PrintNumber(v)|, 0)]
    case Text(body) => [Token(String, at + 1, at + 1 + |PrintBody(body)|, 0)]
    case List(pad, items) =>
      [Token(Array, at, at + |Print(v)|, ItemCount(items))] + ItemTokens(items, at + 1 + |pad|)
    case Record(pad, members) =>
      [Token(Object, at, at + |Print(v)|, MemberCount(members))] + MemberTokens(members, at + 1 + |pad|)
  }

  function ItemTokens(items: Items, at: nat): seq<Token> {
    match items
    case NoItems => []
    case Item(lead, value, trail, rest) =>
      Tokens(value, at + |lead|) + ItemTokens(rest, ItemRestAt(items, at))
  }

  /** Where the items after the first start, when the first starts at `at`. */
  function ItemRestAt(items: Items, at: nat): nat
    requires items.Item?
  {
    at + |items.lead| + |Print(items.value)| + |items.trail| + |ItemComma(items.rest)|
  }

  function MemberTokens(members: Members, at: nat): seq<Token> {
    match members
    case NoMembers => []
    case Member(lead, key, _, _, value, trail, rest) =>
      [Token(String, at + |lead| + 1, at + |lead| + 1 + |PrintBody(key)|, 1)]
      + Tokens(value, at + |PrintFront(members)|)
      + MemberTokens(rest, RestAt(members, at))
  }

  /** Where the members after the first start, when the first starts at `at`. */
  function RestAt(m: Members, at: nat): nat
    requires m.Member?
  {
    at + |PrintFront(m)| + |Print(m.value)| + |m.trail| + |MemberComma(m.rest)|
  }

  // ---------------------------------------------------------------- what each token spans

  /** The texts the tokens of `v` should span, in the same order; strings without their quotes. */
  function Spans(v: Value): seq<string> {
    match v
    case Literal(name) => [name]
    case Number(_, _, _, _) => [PrintNumber(v)]
    case Text(body) => [PrintBody(body)]
    case List(_, items) => [Print(v)] + ItemSpans(items)
    case Record(_, members) => [Print(v)] + MemberSpans(members)
  }

  function ItemSpans(items: Items): seq<string> {
    match items
    case NoItems => []
    case Item(_, value, _, rest) => Spans(value) + ItemSpans(rest)
  }

  function MemberSpans(members: Members): seq<string> {
    match members
    case NoMembers => []
    case Member(_, key, _, _, value, _, rest) => [PrintBody(key)] + Spans(value) + MemberSpans(rest)
  }

  predicate At(js: string, pos: nat, text: string) {
    pos + |text| <= |js| && js[pos..pos + |text|] == text
  }

  lemma AtSplit(js: string, pos: nat, a: string, b: string)
    requires At(js, pos, a + b)
    ensures At(js, pos, a) && At(js, pos + |a|, b)
  {
    var ab := js[pos..pos + |a| + |b|];
    assert js[pos..pos + |a|] == ab[..|a|];
    assert js[pos + |a|..pos + |a| + |b|] == ab[|a|..];
  }

  predicate TokensSpan(js: string, tokens: seq<Token>, spans: seq<string>) {
    && |tokens| == |spans|
    && forall i :: 0 <= i < |tokens| ==>
         tokens[i].start >= 0 && At(js, tokens[i].start, spans[i]) && tokens[i].end == tokens[i].start + |spans[i]|
  }

  /** One token in front of others. */
  lemma TokensSpanCons(js: string, t: Token, text: string, b: seq<Token>, sb: seq<string>)
    requires t.start >= 0 && At(js, t.start, text) && t.end == t.start + |text|
    requires TokensSpan(js, b, sb)
    ensures TokensSpan(js, [t] + b, [text] + sb)
  {
  }

  lemma TokensSpanAppend(js: string, a: seq<Token>, sa: seq<string>, b: seq<Token>, sb: seq<string>)
    requires TokensSpan(js, a, sa) && TokensSpan(js, b, sb)
    ensures TokensSpan(js, a + b, sa + sb)
  {
  }

  lemma AtBracketed(js: string, at: nat, open: string, pad: string, inner: string)
    requires At(js, at, open + pad + inner)
    ensures At(js, at, open) && At(js, at + |open|, pad) && At(js, at + |open| + |pad|, inner)
  {
    AtSplit(js, at, open + pad, inner);
    AtSplit(js, at, open, pad);
  }

  lemma AtFive(js: string, at: nat, a: string, b: string, c: string, d: string, e: string)
    requires At(js, at, a + b + c + d + e)
    ensures At(js, at, a) && At(js, at + |a|, b) && At(js, at + |a| + |b|, c)
    ensures At(js, at + |a| + |b| + |c|, d) && At(js, at + |a| + |b| + |c| + |d|, e)
  {
    AtSplit(js, at, a + b + c + d, e);
    AtSplit(js, at, a + b + c, d);
    AtBracketed(js, at, a, b, c);
  }

  /** The tokens of a printed value span exactly the texts of its parts. */
  lemma {:induction false} SpansExact(js: string, v: Value, at: nat)
    requires At(js, at, Print(v))
    ensures TokensSpan(js, Tokens(v, at), Spans(v))
  {
    hide ItemTokens, MemberTokens, PrintItems, PrintMembers, ItemSpans, MemberSpans, PrintBody;
    match v
    case Literal(_) =>
    case Number(_, _, _, _) =>
    case Text(body) =>
      AtBracketed(js, at, "\"", PrintBody(body), "\"");
    case List(pad, items) =>
      AtBracketed(js, at, "[", pad, PrintItems(items));
      ItemSpansExact(js, items, at + 1 + |pad|);
      TokensSpanCons(js, Token(Array, at, at + |Print(v)|, ItemCount(items)), Print(v),
                     ItemTokens(items, at + 1 + |pad|), ItemSpans(items));
    case Record(pad, members) =>
      AtBracketed(js, at, "{", pad, PrintMembers(members));
      MemberSpansExact(js, members, at + 1 + |pad|);
      TokensSpanCons(js, Token(Object, at, at + |Print(v)|, MemberCount(members)), Print(v),
                     MemberTokens(members, at + 1 + |pad|), MemberSpans(members));
  }

  /** The first item's parts and what follows, each at its place. */
  lemma ItemParts(js: string, items: Items, at: nat)
    requires items.Item? && At(js, at, PrintItems(items))
    ensures var valueAt := at + |items.lead|;
            var trailAt := valueAt + |Print(items.value)|;
            && At(js, at, items.lead) && At(js, valueAt, Print(items.value)) && At(js, trailAt, items.trail)
            && At(js, trailAt + |items.trail|, ItemComma(items.rest))
            && At(js, ItemRestAt(items, at), PrintItems(items.rest))
  {
    hide Print, At;
    AtFive(js, at, items.lead, Print(items.value), items.trail, ItemComma(items.rest), PrintItems(items.rest));
  }

  lemma {:induction false} ItemSpansExact(js: string, items: Items, at: nat)
    requires At(js, at, PrintItems(items))
    ensures TokensSpan(js, ItemTokens(items, at), ItemSpans(items))
  {
    if items.Item? {
      ItemParts(js, items, at);
      SpansExact(js, items.value, at + |items.lead|);
      ItemSpansExact(js, items.rest, ItemRestAt(items, at));
      TokensSpanAppend(js, Tokens(items.value, at + |items.lead|), Spans(items.value),
                       ItemTokens(items.rest, ItemRestAt(items, at)), ItemSpans(items.rest));
    }
  }

  /** The first member's key and colon, each at its place. */
  lemma FrontParts(js: string, m: Members, at: nat)
    requires m.Member? && At(js, at, PrintFront(m))
    ensures var keyEnd := at + |m.lead| + |PrintKey(m)|;
            var colonAt := keyEnd + |m.beforeColon|;
            && At(js, at, m.lead) && At(js, at + |m.lead|, PrintKey(m)) && At(js, keyEnd, m.beforeColon)
            && At(js, colonAt, ":") && At(js, colonAt + 1, m.afterColon)
            && at + |PrintFront(m)| == colonAt + 1 + |m.afterColon|
  {
    hide PrintBody, PrintKey, At;
    AtFive(js, at, m.lead, PrintKey(m), m.beforeColon, ":", m.afterColon);
  }

  /** The first member's value and what follows, each at its place. */
  lemma MemberParts(js: string, m: Members, at: nat)
    requires m.Member? && At(js, at, PrintMembers(m))
    ensures var valueAt := at + |PrintFront(m)|;
            var trailAt := valueAt + |Print(m.value)|;
            && At(js, at, PrintFront(m)) && At(js, valueAt, Print(m.value)) && At(js, trailAt, m.trail)
            && At(js, trailAt + |m.trail|, MemberComma(m.rest)) && At(js, RestAt(m, at), PrintMembers(m.rest))
  {
    hide Print, PrintFront, At;
    AtFive(js, at, PrintFront(m), Print(m.value), m.trail, MemberComma(m.rest), PrintMembers(m.rest));
  }

  lemma {:induction false} MemberSpansExact(js: string, members: Members, at: nat)
    requires At(js, at, PrintMembers(members))
    ensures TokensSpan(js, MemberTokens(members, at), MemberSpans(members))
  {
    hide Print, PrintFront, Tokens, Spans, At;
    if members.Member? {
      MemberParts(js, members, at);
      SpansExact(js, members.value, at + |PrintFront(members)|);
      MemberSpansExact(js, members.rest, RestAt(members, at));
      MemberTokensSpan(js, members, at);
    }
  }

  lemma KeyBody(js: string, m: Members, at: nat)
    requires m.Member? && At(js, at, PrintFront(m))
    ensures At(js, at + |m.lead| + 1, PrintBody(m.key))
  {
    FrontParts(js, m, at);
    AtBracketed(js, at + |m.lead|, "\"", PrintBody(m.key), "\"");
  }

  lemma MemberTokensSpan(js: string, m: Members, at: nat)
    requires m.Member? && At(js, at, PrintFront(m))
    requires TokensSpan(js, Tokens(m.value, at + |PrintFront(m)|), Spans(m.value))
    requires TokensSpan(js, MemberTokens(m.rest, RestAt(m, at)), MemberSpans(m.rest))
    ensures TokensSpan(js, MemberTokens(m, at), MemberSpans(m))
  {
    hide Print, PrintBody, PrintFront, Tokens, Spans, TokensSpan;
    KeyBody(js, m, at);
    var keyAt := at + |m.lead| + 1;
    var inner, innerSpans := Tokens(m.value, at + |PrintFront(m)|), Spans(m.value);
    var rest, restSpans := MemberTokens(m.rest, RestAt(m, at)), MemberSpans(m.rest);
    TokensSpanAppend(js, inner, innerSpans, rest, restSpans);
    var key := Token(String, keyAt, keyAt + |PrintBody(m.key)|, 1);
    TokensSpanCons(js, key, PrintBody(m.key), inner + rest, innerSpans + restSpans);
    assert MemberTokens(m, at) == [key] + (inner + rest);
    assert MemberSpans(m) == [PrintBody(m.key)] + (innerSpans + restSpans);
  }
}
