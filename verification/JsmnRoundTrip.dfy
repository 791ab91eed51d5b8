/**
 The tokenizer inverts every RFC 8259 printer: on a printed value it succeeds and allocates exactly
 the preorder tokens of that value.
 */
module JsmnRoundTrip {
  import opened Decimals
  import opened Jsmn
  import opened JsmnLexemes
  import opened JsonGrammar
  import opened Wrappers

  // ---------------------------------------------------------------- lexemes

  lemma BlankStep(js: string, s: State, cap: nat)
    requires s.Ready() && s.pos < |js| && IsBlank(js[s.pos])
    ensures Run(js, s, cap) == Run(js, s.(pos := s.pos + 1), cap)
  {
  }

  lemma {:induction false} BlanksAreSkipped(js: string, s: State, ws: string, cap: nat)
    requires s.Ready() && Blank(ws) && At(js, s.pos, ws)
    ensures Run(js, s, cap) == Run(js, s.(pos := s.pos + |ws|), cap)
    decreases |ws|
  {
    hide Run;
    if ws != "" {
      assert js[s.pos] == ws[0] && ws[0] in ws;
      BlankStep(js, s, cap);
      assert ws == ws[..1] + ws[1..];
      AtSplit(js, s.pos, ws[..1], ws[1..]);
      BlanksAreSkipped(js, s.(pos := s.pos + 1), ws[1..], cap);
    }
  }

  /** Text the tokenizer reads as one primitive. */
  predicate Word(w: string) {
    && w != "" && w[0] != '{' && w[0] != '[' && w[0] != '"'
    && forall c <- w :: PrimitiveChar(c)
  }

  /** The characters numbers are written with. */
  predicate NumberChar(c: char) {
    IsDigit(c) || c == '-' || c == '+' || c == '.' || c == 'e' || c == 'E'
  }

  lemma NumberIsWord(v: Value)
    requires Legal(v) && v.Number?
    ensures Word(PrintNumber(v))
  {
    var s := PrintNumber(v);
    NumberChars(v);
    assert v.whole[0] in v.whole;
    assert s[0] == if v.minus then '-' else v.whole[0];
    hide PrintNumber;
  }

  lemma NumberChars(v: Value)
    requires Legal(v) && v.Number?
    ensures PrintNumber(v) != "" && forall c <- PrintNumber(v) :: NumberChar(c)
  {
    hide IsDigit;
  }

  lemma ScalarsAreWords(v: Value)
    requires Legal(v) && (v.Literal? || v.Number?)
    ensures Word(Print(v))
  {
    if v.Number? {
      NumberIsWord(v);
    }
  }

  // ---------------------------------------------------------------- tokens

  predicate AllClosed(tokens: seq<Token>) {
    forall t <- tokens :: !IsOpen(t)
  }

  lemma {:induction false} TokensClosed(v: Value, at: nat)
    ensures AllClosed(Tokens(v, at))
  {
    hide Print, ItemTokens, MemberTokens;
    match v
    case Literal(_) =>
    case Number(_, _, _, _) =>
    case Text(_) =>
    case List(pad, items) => ItemTokensClosed(items, at + 1 + |pad|);
    case Record(pad, members) => MemberTokensClosed(members, at + 1 + |pad|);
  }

  lemma {:induction false} ItemTokensClosed(items: Items, at: nat)
    ensures AllClosed(ItemTokens(items, at))
  {
    hide Print, Tokens;
    if items.Item? {
      TokensClosed(items.value, at + |items.lead|);
      ItemTokensClosed(items.rest, ItemRestAt(items, at));
    }
  }

  lemma {:induction false} MemberTokensClosed(members: Members, at: nat)
    ensures AllClosed(MemberTokens(members, at))
  {
    hide Print, Tokens, PrintFront;
    if members.Member? {
      TokensClosed(members.value, at + |PrintFront(members)|);
      MemberTokensClosed(members.rest, RestAt(members, at));
    }
  }

  function Innermost(tokens: seq<Token>): int {
    LastOpen(tokens, |tokens|)
  }

  /** The innermost open token is determined by which tokens are open. */
  lemma InnermostIs(tokens: seq<Token>, k: int)
    requires -1 <= k < |tokens|
    requires k >= 0 ==> IsOpen(tokens[k])
    requires forall j :: k < j < |tokens| ==> !IsOpen(tokens[j])
    ensures Innermost(tokens) == k
  {
  }

  lemma InnermostSurvives(tokens: seq<Token>, p: int, more: seq<Token>)
    requires -1 <= p < |tokens| && AllClosed(more)
    ensures Innermost(Bump(tokens, p) + more) == Innermost(tokens)
  {
    InnermostIs(Bump(tokens, p) + more, Innermost(tokens));
  }

  // ---------------------------------------------------------------- values

  /** The state after a value printed at `s.pos` has been read. */
  function AfterValue(s: State, v: Value): (r: State)
    requires s.Ready()
    ensures r.Ready()
  {
    State(s.pos + |Print(v)|,
          Bump(s.tokens, s.super) + Tokens(v, s.pos),
          if v.List? || v.Record? then Innermost(s.tokens) else s.super)
  }

  /** The tokens once container `k` got `n` more children and was closed at `end`. */
  function Finish(tokens: seq<Token>, k: nat, n: nat, end: nat): (r: seq<Token>)
    requires k < |tokens|
    ensures |r| == |tokens|
  {
    tokens[k := tokens[k].(size := tokens[k].size + n, end := end)]
  }

  function AfterItems(s: State, k: nat, items: Items): (r: State)
    requires k < |s.tokens|
    ensures r.Ready()
  {
    var end := s.pos + |PrintItems(items)|;
    State(end, Finish(s.tokens, k, ItemCount(items), end) + ItemTokens(items, s.pos), LastOpen(s.tokens, k))
  }

  function AfterMembers(s: State, k: nat, members: Members): (r: State)
    requires k < |s.tokens|
    ensures r.Ready()
  {
    var end := s.pos + |PrintMembers(members)|;
    State(end, Finish(s.tokens, k, MemberCount(members), end) + MemberTokens(members, s.pos), LastOpen(s.tokens, k))
  }

  /** Scalars must be followed by something that ends a primitive. */
  predicate Followed(js: string, pos: nat) {
    AtEnd(js, pos) || EndsPrimitive(js[pos])
  }

  lemma FollowedByBlanks(js: string, pos: nat, ws: string, c: char)
    requires Blank(ws) && At(js, pos, ws) && At(js, pos + |ws|, [c]) && EndsPrimitive(c)
    ensures Followed(js, pos)
  {
    if ws != "" {
      assert js[pos] == ws[0];
    } else {
      assert js[pos] == [c][0];
    }
  }

  lemma ReadString(js: string, s: State, body: seq<StringItem>, cap: nat)
    requires s.Ready() && LegalBody(body) && At(js, s.pos, "\"" + PrintBody(body) + "\"")
    requires |s.tokens| < cap
    ensures var q := s.pos + 1 + |PrintBody(body)|;
            Run(js, s, cap)
            == Run(js, State(q + 1, Bump(s.tokens, s.super) + [Token(String, s.pos + 1, q, 0)], s.super), cap)
  {
    hide StringEnd, PrimitiveEnd, LastOpen, LastOpenContainer, PrintBody;
    var text := "\"" + PrintBody(body) + "\"";
    assert js[s.pos] == text[0];
    assert text == "\"" + (PrintBody(body) + "\"");
    AtSplit(js, s.pos, "\"", PrintBody(body) + "\"");
    assert forall i <- body :: LegalItem(i) ==> LooseItem(i);
    hide LooseItem, LegalItem;
    BodyCloses(js, s.pos + 1, body);
  }

  lemma ReadWord(js: string, s: State, w: string, cap: nat)
    requires s.Ready() && Word(w) && At(js, s.pos, w) && Followed(js, s.pos + |w|)
    requires |s.tokens| < cap
    ensures Run(js, s, cap)
            == Run(js, State(s.pos + |w|,
                             Bump(s.tokens, s.super) + [Token(Primitive, s.pos, s.pos + |w|, 0)], s.super), cap)
  {
    assert js[s.pos] == w[0] && w[0] in w;
    WordScans(js, s.pos, w);
    hide PrimitiveEnd, At;
  }

  lemma ReadOpen(js: string, s: State, c: char, cap: nat)
    requires s.Ready() && (c == '{' || c == '[') && At(js, s.pos, [c]) && |s.tokens| < cap
    ensures Run(js, s, cap)
            == Run(js, State(s.pos + 1, Bump(s.tokens, s.super) + [Token(BracketKind(c), s.pos, -1, 0)],
                             |s.tokens|), cap)
  {
    assert js[s.pos] == [c][0];
  }

  lemma ReadClose(js: string, s: State, k: nat, c: char, cap: nat)
    requires s.Ready() && k < |s.tokens| && Innermost(s.tokens) == k
    requires (c == '}' || c == ']') && s.tokens[k].kind == BracketKind(c) && At(js, s.pos, [c])
    ensures Run(js, s, cap)
            == Run(js, State(s.pos + 1, Finish(s.tokens, k, 0, s.pos + 1), LastOpen(s.tokens, k)), cap)
  {
    assert js[s.pos] == [c][0];
    var closed := Finish(s.tokens, k, 0, s.pos + 1);
    assert !IsOpen(closed[k]);
    LastOpenLocal(closed, s.tokens, k);
  }

  lemma {:induction false} LastOpenLocal(a: seq<Token>, b: seq<Token>, n: nat)
    requires n <= |a| && n <= |b|
    requires forall i :: 0 <= i < n ==> a[i] == b[i]
    ensures LastOpen(a, n) == LastOpen(b, n)
  {
    if n > 0 {
      LastOpenLocal(a, b, n - 1);
    }
  }

  /** A container wrapped around its children: opened, filled, closed. */
  lemma WrapTokens(s: State, v: Value, kind: Kind, pad: nat, n: nat, inner: seq<Token>)
    requires s.Ready() && |Print(v)| > 0
    requires Tokens(v, s.pos) == [Token(kind, s.pos, s.pos + |Print(v)|, n)] + inner
    ensures var entered := Bump(s.tokens, s.super) + [Token(kind, s.pos, -1, 0)];
            Finish(entered, |s.tokens|, n, s.pos + |Print(v)|) + inner
            == Bump(s.tokens, s.super) + Tokens(v, s.pos)
    ensures var entered := Bump(s.tokens, s.super) + [Token(kind, s.pos, -1, 0)];
            LastOpen(entered, |s.tokens|) == Innermost(s.tokens) && Innermost(entered) == |s.tokens|
  {
    var entered := Bump(s.tokens, s.super) + [Token(kind, s.pos, -1, 0)];
    LastOpenLocal(entered, Bump(s.tokens, s.super), |s.tokens|);
    InnermostSurvives(s.tokens, s.super, []);
    assert Bump(s.tokens, s.super) + [] == Bump(s.tokens, s.super);
    InnermostIs(entered, |s.tokens|);
  }

  /** Reading one printed value, whatever came before it. */
  lemma {:induction false} ReadValue(js: string, s: State, v: Value, cap: nat)
    requires s.Ready() && Legal(v) && At(js, s.pos, Print(v)) && Followed(js, s.pos + |Print(v)|)
    requires |s.tokens| + |Tokens(v, s.pos)| <= cap
    ensures Run(js, s, cap) == Run(js, AfterValue(s, v), cap)
    decreases v, 1
  {
    hide Run, LastOpen, PrintItems, PrintMembers, PrintBody, ItemTokens, MemberTokens;
    match v
    case Literal(name) =>
      ScalarsAreWords(v);
      ReadWord(js, s, name, cap);
    case Number(_, _, _, _) =>
      ScalarsAreWords(v);
      ReadWord(js, s, PrintNumber(v), cap);
    case Text(body) =>
      ReadString(js, s, body, cap);
    case List(pad, items) =>
      var s2 := EnterContainer(js, s, v, '[', pad, PrintItems(items), cap);
      WrapTokens(s, v, Array, |pad|, ItemCount(items), ItemTokens(items, s2.pos));
      ReadItems(js, s2, |s.tokens|, items, cap);
    case Record(pad, members) =>
      var s2 := EnterContainer(js, s, v, '{', pad, PrintMembers(members), cap);
      WrapTokens(s, v, Object, |pad|, MemberCount(members), MemberTokens(members, s2.pos));
      ReadMembers(js, s2, |s.tokens|, members, cap);
  }

  /** From an opening bracket to its first child. */
  lemma EnterContainer(js: string, s: State, v: Value, c: char, pad: string, inner: string, cap: nat)
    returns (s2: State)
    requires s.Ready() && (c == '[' || c == '{') && Blank(pad) && At(js, s.pos, [c] + pad + inner)
    requires |s.tokens| < cap
    ensures s2 == State(s.pos + 1 + |pad|, Bump(s.tokens, s.super) + [Token(BracketKind(c), s.pos, -1, 0)], |s.tokens|)
    ensures At(js, s2.pos, inner)
    ensures Run(js, s, cap) == Run(js, s2, cap)
  {
    hide Run, LastOpen;
    AtBracketed(js, s.pos, [c], pad, inner);
    ReadOpen(js, s, c, cap);
    var s1 := State(s.pos + 1, Bump(s.tokens, s.super) + [Token(BracketKind(c), s.pos, -1, 0)], |s.tokens|);
    BlanksAreSkipped(js, s1, pad, cap);
    s2 := s1.(pos := s1.pos + |pad|);
  }

  /** One child more, then the rest: the tokens add up. */
  lemma FinishLater(tokens: seq<Token>, k: nat, n: nat, end: nat, child: seq<Token>, rest: seq<Token>)
    requires k < |tokens|
    ensures Finish(Bump(tokens, k) + child, k, n, end) + rest == Finish(tokens, k, n + 1, end) + (child + rest)
  {
  }

  /** The state once the first of several items, and its comma, has been read. */
  function AfterItem(s: State, k: nat, items: Items): (r: State)
    requires items.Item? && k < |s.tokens|
  {
    State(ItemRestAt(items, s.pos), Bump(s.tokens, k) + Tokens(items.value, s.pos + |items.lead|), k)
  }

  /** The first item's parts, each at its place. */
  predicate ItemPlaced(js: string, at: nat, items: Items)
    requires items.Item?
  {
    var trailAt := at + |items.lead| + |Print(items.value)|;
    && At(js, at, items.lead) && At(js, at + |items.lead|, Print(items.value))
    && At(js, trailAt, items.trail) && Followed(js, trailAt)
    && At(js, trailAt + |items.trail|, ItemComma(items.rest))
  }

  lemma ItemIsPlaced(js: string, items: Items, at: nat)
    requires items.Item? && LegalItems(items) && At(js, at, PrintItems(items))
    ensures ItemPlaced(js, at, items) && At(js, ItemRestAt(items, at), PrintItems(items.rest))
  {
    hide Print, PrintItems, At, Followed;
    ItemParts(js, items, at);
    AfterItemFollowed(js, at + |items.lead| + |Print(items.value)|, items.trail, items.rest);
  }

  lemma ReadItem(js: string, s: State, k: nat, items: Items, cap: nat)
    requires items.Item? && LegalItems(items) && ItemPlaced(js, s.pos, items)
    requires k < |s.tokens| && Innermost(s.tokens) == k && s.tokens[k].kind == Array && s.super == k
    requires |AfterItem(s, k, items).tokens| <= cap
    ensures AfterItem(s, k, items).Ready()
    ensures Run(js, s, cap) == Run(js, AfterItem(s, k, items), cap)
    ensures Innermost(AfterItem(s, k, items).tokens) == k
    decreases items, 0
  {
    hide Run, Print, Tokens, LastOpen, LastOpenContainer, At, Followed;
    BlanksAreSkipped(js, s, items.lead, cap);
    var s1 := s.(pos := s.pos + |items.lead|);
    ReadValue(js, s1, items.value, cap);
    var s2 := AfterValue(s1, items.value);
    TokensClosed(items.value, s1.pos);
    InnermostSurvives(s.tokens, k, Tokens(items.value, s1.pos));
    BlanksAreSkipped(js, s2, items.trail, cap);
    var s3 := s2.(pos := s2.pos + |items.trail|);
    SkipComma(js, s3, k, ItemComma(items.rest), cap);
  }

  /** Reading the first item and then the others adds up to reading them all. */
  lemma ItemsBuilt(s: State, k: nat, items: Items)
    requires items.Item? && k < |s.tokens|
    ensures var next := AfterItem(s, k, items);
            && k < |next.tokens| && next.super == k && next.tokens[k].kind == s.tokens[k].kind
            && next.pos == ItemRestAt(items, s.pos)
            && AfterItems(next, k, items.rest) == AfterItems(s, k, items)
            && |next.tokens| + |ItemTokens(items.rest, next.pos)| == |s.tokens| + |ItemTokens(items, s.pos)|
  {
    hide ItemTokens, PrintItems, Tokens, Print, LastOpen, Innermost, ItemRestAt, Finish, Bump;
    PrintedItemsLength(items, s.pos);
    ItemTokensSplit(items, s.pos);
    ItemsFinish(s.tokens, k, ItemCount(items.rest), s.pos + |PrintItems(items)|,
                Tokens(items.value, s.pos + |items.lead|), ItemTokens(items.rest, ItemRestAt(items, s.pos)));
  }

  lemma ItemTokensSplit(items: Items, at: nat)
    requires items.Item?
    ensures ItemTokens(items, at)
            == Tokens(items.value, at + |items.lead|) + ItemTokens(items.rest, ItemRestAt(items, at))
  {
    hide Tokens, Print;
  }

  lemma ItemsFinish(tokens: seq<Token>, k: nat, n: nat, end: nat, child: seq<Token>, rest: seq<Token>)
    requires k < |tokens|
    ensures var next := Bump(tokens, k) + child;
            && next[k].kind == tokens[k].kind
            && Finish(next, k, n, end) + rest == Finish(tokens, k, n + 1, end) + (child + rest)
            && LastOpen(next, k) == LastOpen(tokens, k)
  {
    FinishLater(tokens, k, n, end, child, rest);
    LastOpenLocal(Bump(tokens, k) + child, tokens, k);
  }

  lemma PrintedItemsLength(items: Items, at: nat)
    requires items.Item?
    ensures at + |PrintItems(items)| == ItemRestAt(items, at) + |PrintItems(items.rest)|
  {
  }

  lemma ReadNoItems(js: string, s: State, k: nat, cap: nat)
    requires s.Ready() && k < |s.tokens| && Innermost(s.tokens) == k && s.tokens[k].kind == Array
    requires At(js, s.pos, PrintItems(NoItems))
    ensures Run(js, s, cap) == Run(js, AfterItems(s, k, NoItems), cap)
  {
    hide Run;
    ReadClose(js, s, k, ']', cap);
    assert Finish(s.tokens, k, 0, s.pos + 1) + [] == Finish(s.tokens, k, 0, s.pos + 1);
  }

  lemma {:induction false} ReadItems(js: string, s: State, k: nat, items: Items, cap: nat)
    requires s.Ready() && k < |s.tokens| && Innermost(s.tokens) == k && s.tokens[k].kind == Array && s.super == k
    requires LegalItems(items) && At(js, s.pos, PrintItems(items))
    requires |s.tokens| + |ItemTokens(items, s.pos)| <= cap
    ensures Run(js, s, cap) == Run(js, AfterItems(s, k, items), cap)
    decreases items, 1
  {
    if items.NoItems? {
      ReadNoItems(js, s, k, cap);
    } else {
      assert LegalItems(items.rest);
      ItemIsPlaced(js, items, s.pos);
      ItemsBuilt(s, k, items);
      hide *;
      ReadItem(js, s, k, items, cap);
      ReadItems(js, AfterItem(s, k, items), k, items.rest, cap);
    }
  }

  lemma AfterItemFollowed(js: string, pos: nat, trail: string, rest: Items)
    requires Blank(trail) && At(js, pos, trail) && At(js, pos + |trail|, ItemComma(rest))
    requires At(js, pos + |trail| + |ItemComma(rest)|, PrintItems(rest))
    ensures Followed(js, pos)
  {
    FollowedByBlanks(js, pos, trail, if rest.NoItems? then ']' else ',');
  }

  lemma AfterMemberFollowed(js: string, pos: nat, trail: string, rest: Members)
    requires Blank(trail) && At(js, pos, trail) && At(js, pos + |trail|, MemberComma(rest))
    requires At(js, pos + |trail| + |MemberComma(rest)|, PrintMembers(rest))
    ensures Followed(js, pos)
  {
    FollowedByBlanks(js, pos, trail, if rest.NoMembers? then '}' else ',');
  }

  /** A comma, where there is one, brings `toksuper` back to the container. */
  lemma SkipComma(js: string, s: State, k: nat, comma: string, cap: nat)
    requires s.Ready() && k < |s.tokens| && Innermost(s.tokens) == k && IsContainer(s.tokens[k].kind)
    requires s.super == k || (s.super >= 0 && !IsContainer(s.tokens[s.super].kind))
    requires comma == "" || comma == ","
    requires At(js, s.pos, comma)
    ensures Run(js, s, cap)
            == Run(js, s.(pos := s.pos + |comma|, super := if comma == "" then s.super else k), cap)
  {
    if comma == "," {
      assert js[s.pos] == comma[0];
      var c := LastOpenContainer(s.tokens, |s.tokens|);
      assert c == k;
    }
  }

  /** The tokens once member key `key` of container `k` was read. */
  function WithKey(tokens: seq<Token>, k: nat, key: Token): (r: seq<Token>)
    requires k < |tokens|
    ensures |r| == |tokens| + 1
  {
    Bump(tokens, k) + [key]
  }

  /** From the start of a member to its value. */
  lemma ReadFront(js: string, s: State, k: nat, m: Members, cap: nat)
    requires m.Member? && LegalMembers(m) && At(js, s.pos, PrintFront(m))
    requires k < |s.tokens| && s.super == k && |s.tokens| < cap
    ensures var keyAt := s.pos + |m.lead| + 1;
            var key := Token(String, keyAt, keyAt + |PrintBody(m.key)|, 0);
            Run(js, s, cap)
            == Run(js, State(s.pos + |PrintFront(m)|, WithKey(s.tokens, k, key), |s.tokens|), cap)
  {
    hide Run, At, PrintBody;
    FrontParts(js, m, s.pos);
    BlanksAreSkipped(js, s, m.lead, cap);
    var s1 := s.(pos := s.pos + |m.lead|);
    ReadString(js, s1, m.key, cap);
    var key := Token(String, s1.pos + 1, s1.pos + 1 + |PrintBody(m.key)|, 0);
    var s2 := State(s1.pos + |PrintKey(m)|, WithKey(s.tokens, k, key), k);
    BlanksAreSkipped(js, s2, m.beforeColon, cap);
    var s3 := s2.(pos := s2.pos + |m.beforeColon|);
    ReadColon(js, s3, cap);
    var s4 := s3.(pos := s3.pos + 1, super := |s3.tokens| - 1);
    BlanksAreSkipped(js, s4, m.afterColon, cap);
  }

  lemma ReadColon(js: string, s: State, cap: nat)
    requires s.Ready() && At(js, s.pos, ":")
    ensures Run(js, s, cap) == Run(js, s.(pos := s.pos + 1, super := |s.tokens| - 1), cap)
  {
    assert js[s.pos] == ":"[0];
  }

  /** A member's tokens as the parser builds them: key, then value under the key. */
  lemma MemberTokensBuilt(tokens: seq<Token>, k: nat, key: Token, value: seq<Token>)
    requires k < |tokens| && key.size == 0
    ensures Bump(WithKey(tokens, k, key), |tokens|) + value == Bump(tokens, k) + ([key.(size := 1)] + value)
  {
  }

  /** The token of the first member's key, before its value is read. */
  function KeyToken(m: Members, at: nat): Token
    requires m.Member?
  {
    Token(String, at + |m.lead| + 1, at + |m.lead| + 1 + |PrintBody(m.key)|, 0)
  }

  /** The tokens of the first member. */
  function OneMemberTokens(m: Members, at: nat): seq<Token>
    requires m.Member?
  {
    [KeyToken(m, at).(size := 1)] + Tokens(m.value, at + |PrintFront(m)|)
  }

  /** The state once the first of several members, and its comma, has been read. */
  predicate IsAfterMember(s: State, k: nat, m: Members, r: State)
    requires m.Member? && k < |s.tokens|
  {
    && r.Ready()
    && r.pos == RestAt(m, s.pos)
    && r.tokens == Bump(s.tokens, k) + OneMemberTokens(m, s.pos)
    && (m.rest.Member? ==> r.super == k)
    && Innermost(r.tokens) == k
  }

  /** The first member's parts after its key, each at its place. */
  predicate MemberPlaced(js: string, at: nat, m: Members)
    requires m.Member?
  {
    var trailAt := at + |PrintFront(m)| + |Print(m.value)|;
    && At(js, at, PrintFront(m)) && At(js, at + |PrintFront(m)|, Print(m.value))
    && Followed(js, trailAt) && At(js, trailAt, m.trail)
    && At(js, trailAt + |m.trail|, MemberComma(m.rest))
  }

  lemma MemberIsPlaced(js: string, m: Members, at: nat)
    requires m.Member? && LegalMembers(m) && At(js, at, PrintMembers(m))
    ensures MemberPlaced(js, at, m) && At(js, RestAt(m, at), PrintMembers(m.rest))
  {
    hide Print, PrintMembers, PrintFront, PrintBody, At, Followed;
    MemberParts(js, m, at);
    AfterMemberFollowed(js, at + |PrintFront(m)| + |Print(m.value)|, m.trail, m.rest);
  }

  /** Key, colon and value of a member. */
  lemma ReadPair(js: string, s: State, k: nat, m: Members, cap: nat) returns (r: State)
    requires m.Member? && LegalMembers(m) && MemberPlaced(js, s.pos, m)
    requires k < |s.tokens| && Innermost(s.tokens) == k && s.tokens[k].kind == Object && s.super == k
    requires |s.tokens| + |OneMemberTokens(m, s.pos)| <= cap
    ensures r.Ready() && r.pos == s.pos + |PrintFront(m)| + |Print(m.value)|
    ensures r.tokens == Bump(s.tokens, k) + OneMemberTokens(m, s.pos)
    ensures r.super == k || r.super == |s.tokens|
    ensures Run(js, s, cap) == Run(js, r, cap)
    decreases m, 0
  {
    hide Run, Print, Tokens, LastOpen, PrintBody;
    var key := KeyToken(m, s.pos);
    ReadFront(js, s, k, m, cap);
    var s1 := State(s.pos + |PrintFront(m)|, WithKey(s.tokens, k, key), |s.tokens|);
    InnermostSurvives(s.tokens, k, [key]);
    ReadValue(js, s1, m.value, cap);
    r := AfterValue(s1, m.value);
    MemberTokensBuilt(s.tokens, k, key, Tokens(m.value, s1.pos));
  }

  /** What follows a value within an object. */
  lemma ReadMember(js: string, s: State, k: nat, m: Members, cap: nat) returns (r: State)
    requires m.Member? && LegalMembers(m) && MemberPlaced(js, s.pos, m)
    requires k < |s.tokens| && Innermost(s.tokens) == k && s.tokens[k].kind == Object && s.super == k
    requires |s.tokens| + |OneMemberTokens(m, s.pos)| <= cap
    ensures IsAfterMember(s, k, m, r)
    ensures Run(js, s, cap) == Run(js, r, cap)
    decreases m, 1
  {
    hide Run, PrintFront, Print, Tokens, LastOpen, PrintBody, At, Followed;
    var s2 := ReadPair(js, s, k, m, cap);
    TokensClosed(m.value, s.pos + |PrintFront(m)|);
    InnermostSurvives(s.tokens, k, OneMemberTokens(m, s.pos));
    BlanksAreSkipped(js, s2, m.trail, cap);
    var s3 := s2.(pos := s2.pos + |m.trail|);
    SkipComma(js, s3, k, MemberComma(m.rest), cap);
    r := s3.(pos := s3.pos + |MemberComma(m.rest)|, super := if MemberComma(m.rest) == "" then s3.super else k);
  }

  lemma MembersBuilt(s: State, k: nat, m: Members, r: State)
    requires m.Member? && k < |s.tokens| && IsAfterMember(s, k, m, r)
    ensures && k < |r.tokens| && r.tokens[k].kind == s.tokens[k].kind
            && r.Ready() && r.pos == RestAt(m, s.pos) && (m.rest.Member? ==> r.super == k)
            && Innermost(r.tokens) == k && |r.tokens| == |s.tokens| + |OneMemberTokens(m, s.pos)|
            && AfterMembers(r, k, m.rest) == AfterMembers(s, k, m)
  {
    hide MemberTokens, OneMemberTokens, PrintMembers, Print, PrintFront, LastOpen;
    PrintedLength(m, s.pos);
    MemberTokensSplit(m, s.pos);
    var child, rest := OneMemberTokens(m, s.pos), MemberTokens(m.rest, RestAt(m, s.pos));
    FinishLater(s.tokens, k, MemberCount(m.rest), s.pos + |PrintMembers(m)|, child, rest);
    LastOpenLocal(r.tokens, s.tokens, k);
  }

  lemma PrintedLength(m: Members, at: nat)
    requires m.Member?
    ensures at + |PrintMembers(m)| == RestAt(m, at) + |PrintMembers(m.rest)|
  {
  }

  lemma ReadNoMembers(js: string, s: State, k: nat, cap: nat)
    requires s.Ready() && k < |s.tokens| && Innermost(s.tokens) == k && s.tokens[k].kind == Object
    requires At(js, s.pos, PrintMembers(NoMembers))
    ensures Run(js, s, cap) == Run(js, AfterMembers(s, k, NoMembers), cap)
  {
    hide Run;
    ReadClose(js, s, k, '}', cap);
    assert Finish(s.tokens, k, 0, s.pos + 1) + [] == Finish(s.tokens, k, 0, s.pos + 1);
  }

  lemma {:induction false} ReadMembers(js: string, s: State, k: nat, members: Members, cap: nat)
    requires s.Ready() && k < |s.tokens| && Innermost(s.tokens) == k && s.tokens[k].kind == Object
    requires members.Member? ==> s.super == k
    requires LegalMembers(members) && At(js, s.pos, PrintMembers(members))
    requires |s.tokens| + |MemberTokens(members, s.pos)| <= cap
    ensures Run(js, s, cap) == Run(js, AfterMembers(s, k, members), cap)
    decreases members, 2
  {
    if members.NoMembers? {
      ReadNoMembers(js, s, k, cap);
    } else {
      assert LegalMembers(members.rest);
      MemberIsPlaced(js, members, s.pos);
      MemberTokensSplit(members, s.pos);
      hide *;
      var r := ReadMember(js, s, k, members, cap);
      MembersBuilt(s, k, members, r);
      ReadMembers(js, r, k, members.rest, cap);
    }
  }

  lemma MemberTokensSplit(m: Members, at: nat)
    requires m.Member?
    ensures MemberTokens(m, at) == OneMemberTokens(m, at) + MemberTokens(m.rest, RestAt(m, at))
  {
    hide Tokens, Print;
  }

  // ---------------------------------------------------------------- the round trip

  /**
   Every legal JSON text, with any blanks around it, parses with any large enough token array into
   exactly the preorder tokens of its value, which span exactly the texts of its parts.
   */
  lemma RoundTrip(lead: string, v: Value, trail: string, cap: nat)
    requires Blank(lead) && Legal(v) && Blank(trail) && |Tokens(v, |lead|)| <= cap
    ensures var js := lead + Print(v) + trail;
            var tokens := Tokens(v, |lead|);
            && Run(js, START, cap) == Result(|tokens|, State(|js|, tokens, -1))
            && TokensSpan(js, tokens, Spans(v))
  {
    hide Run, Print, Tokens, LastOpen, At, Followed, TokensSpan, Spans;
    var js := lead + Print(v) + trail;
    WholeText(lead, Print(v), trail);
    BlanksAreSkipped(js, START, lead, cap);
    var s1 := START.(pos := |lead|);
    ReadValue(js, s1, v, cap);
    var s2 := AfterValue(s1, v);
    assert s2.tokens == Tokens(v, |lead|);
    BlanksAreSkipped(js, s2, trail, cap);
    TokensClosed(v, |lead|);
    InnermostIs(START.tokens, -1);
    EndOfText(js, State(|js|, s2.tokens, -1), cap);
    SpansExact(js, v, |lead|);
  }

  lemma WholeText(lead: string, text: string, trail: string)
    requires Blank(trail)
    ensures var js := lead + text + trail;
            && At(js, 0, lead) && At(js, |lead|, text) && At(js, |lead| + |text|, trail)
            && Followed(js, |lead| + |text|) && |js| == |lead| + |text| + |trail|
  {
    var js := lead + text + trail;
    assert At(js, 0, js);
    AtBracketed(js, 0, lead, text, trail);
    if trail != "" {
      assert js[|lead| + |text|] == trail[0];
    }
  }

  lemma EndOfText(js: string, s: State, cap: nat)
    requires s.Ready() && s.pos == |js| && AllClosed(s.tokens)
    ensures Run(js, s, cap) == Result(|s.tokens|, s)
  {
    InnermostIs(s.tokens, -1);
  }
}
