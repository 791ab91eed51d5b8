/**
 JSON string texts: the two escapers (arc/src/workflow_attach.c and src/foundation/argo_json.c), the
 field extractor of src/foundation/argo_json.c and the in-place unescaper of
 src/daemon/argo_daemon_workflow_control.c. Characters are bytes, the code of a character its value;
 `char` is signed in the C sources, so bytes from 128 on compare below 32.
 */
module JsonStrings {
  import opened CStrings

  const NUL: char := '\0'
  const BELL_BACK: char := 8 as char
  const FORM_FEED: char := 12 as char

  /** JSON_FIELD_NAME_SIZE and the quotes and NUL around a field name. */
  const KEY_SIZE: nat := 67
  const MAX_DEPTH: nat := 5
  /** ARC_ATTACH_JSON_BUFFER */
  const BODY_SIZE: nat := 2048

  /** The console escaper of arc and the library's json_escape_string. */
  datatype Escaper = Console | Library

  datatype Extraction = Found(value: string) | Missing | BadDepth

  // ---------------------------------------------------------------- escaping

  function HexDigit(d: nat): char
    requires d < 16
  {
    if d < 10 then ('0' as int + d) as char else ('a' as int + (d - 10)) as char
  }

  /** snprintf("\\u%04x") of an unsigned char */
  function UnicodeEscape(c: char): string {
    "\\u00" + [HexDigit(c as int / 16 % 16), HexDigit(c as int % 16)]
  }

  /** The value of a hex digit in lower case. */
  function HexValue(c: char): int {
    if '0' <= c <= '9' then c as int - '0' as int
    else if 'a' <= c <= 'f' then c as int - 'a' as int + 10
    else -1
  }

  /** Four digits, in lower case, of the code of the byte. */
  lemma UnicodeIsCode(c: char)
    requires c as int < 256
    ensures var u := UnicodeEscape(c);
            && |u| == 6 && u[..4] == "\\u00" && HexValue(u[4]) >= 0 && HexValue(u[5]) >= 0
            && 16 * HexValue(u[4]) + HexValue(u[5]) == c as int
  {
  }

  /** Whether the escaper writes the character as a \u sequence. */
  predicate NeedsUnicode(e: Escaper, c: char) {
    e == Console && c !in [BELL_BACK, FORM_FEED, '\n', '\r', '\t'] && (c < ' ' || c as int >= 128)
  }

  /** What one character becomes. */
  function Unit(e: Escaper, c: char): (r: string)
    ensures 1 <= |r| <= 6 && r[0] != '"'
  {
    if c == '"' || c == '\\' then ['\\', c]
    else if e == Library then [c]
    else if c == BELL_BACK then "\\b"
    else if c == FORM_FEED then "\\f"
    else if c == '\n' then "\\n"
    else if c == '\r' then "\\r"
    else if c == '\t' then "\\t"
    else if c < ' ' || c as int >= 128 then UnicodeEscape(c)
    else [c]
  }

  function Escaped(e: Escaper, s: string): string {
    if s == "" then "" else Unit(e, s[0]) + Escaped(e, s[1..])
  }

  lemma {:induction false} EscapedAppend(e: Escaper, s: string, t: string)
    ensures Escaped(e, s + t) == Escaped(e, s) + Escaped(e, t)
  {
    if s == "" {
      assert s + t == t;
    } else {
      assert (s + t)[0] == s[0] && (s + t)[1..] == s[1..] + t;
      EscapedAppend(e, s[1..], t);
    }
  }

  lemma EscapedSnoc(e: Escaper, s: string, i: nat)
    requires i < |s|
    ensures Escaped(e, s[..i + 1]) == Escaped(e, s[..i]) + Unit(e, s[i])
  {
    assert s[..i + 1] == s[..i] + [s[i]];
    EscapedAppend(e, s[..i], [s[i]]);
    assert Escaped(e, [s[i]]) == Unit(e, s[i]) + Escaped(e, "");
  }

  /**
   By how much the escaped text outgrows twice its length: four for each \u sequence, less one for each
   character that stays itself.
   */
  function Excess(s: string): int {
    if s == "" then 0
    else (if NeedsUnicode(Console, s[0]) then 4 else if |Unit(Console, s[0])| == 1 then -1 else 0) + Excess(s[1..])
  }

  lemma UnitLength(c: char)
    ensures |Unit(Console, c)| == if NeedsUnicode(Console, c) then 6 else if |Unit(Console, c)| == 1 then 1 else 2
  {
  }

  lemma {:induction false} EscapedLength(s: string)
    ensures |Escaped(Console, s)| == 2 * |s| + Excess(s)
  {
    hide Unit, NeedsUnicode;
    if s != "" {
      UnitLength(s[0]);
      EscapedLength(s[1..]);
    }
  }

  lemma {:induction false} NoUnicodeNoExcess(s: string)
    requires forall c <- s :: !NeedsUnicode(Console, c)
    ensures Excess(s) <= 0
  {
    hide Unit, NeedsUnicode;
    if s != "" {
      assert s[0] in s && forall c <- s[1..] :: c in s;
      NoUnicodeNoExcess(s[1..]);
    }
  }

  /** A control character and a line end are enough to outgrow the allocated buffer. */
  lemma ControlLineOutgrows()
    ensures var s := [1 as char, '\n']; |Escaped(Console, s)| == 8 > 2 * |s|
  {
    var s := [1 as char, '\n'];
    assert s[1..] == ['\n'] && s[1..][1..] == "";
    EscapedLength(s);
    assert Excess(s) == 4 + Excess(s[1..]) && Excess(s[1..]) == 0 + Excess("");
  }

  /**
   arc's json_escape_string; the text grows in place of the allocated buffer, which has room for twice
   the length and is large enough exactly where the escaped text has no excess.
   */
  method EscapeForConsole(input: string) returns (output: string)
    ensures output == Escaped(Console, input)
    ensures |output| <= 2 * |input| <==> Excess(input) <= 0
    ensures (forall c <- input :: !NeedsUnicode(Console, c)) ==> |output| <= 2 * |input|
  {
    output := "";
    var src := 0;
    while src < |input|
      invariant src <= |input|
      invariant output == Escaped(Console, input[..src])
    {
      EscapedSnoc(Console, input, src);
      var c := input[src];
      if c == '"' {
        output := output + ['\\', '"'];
      } else if c == '\\' {
        output := output + ['\\', '\\'];
      } else if c == BELL_BACK {
        output := output + ['\\', 'b'];
      } else if c == FORM_FEED {
        output := output + ['\\', 'f'];
      } else if c == '\n' {
        output := output + ['\\', 'n'];
      } else if c == '\r' {
        output := output + ['\\', 'r'];
      } else if c == '\t' {
        output := output + ['\\', 't'];
      } else if c < ' ' || c as int >= 128 {
        output := output + UnicodeEscape(c);
      } else {
        output := output + [c];
      }
      src := src + 1;
    }
    assert input[..src] == input;
    EscapedLength(input);
    if forall c <- input :: !NeedsUnicode(Console, c) {
      NoUnicodeNoExcess(input);
    }
  }

  /** How many characters of `src` the library's escaper takes into a buffer of `size` bytes. */
  function Taken(src: string, offset: nat, size: nat): (n: nat)
    ensures n <= |src|
  {
    if src == "" || offset >= size - 3 then 0
    else 1 + Taken(src[1..], offset + |Unit(Library, src[0])|, size)
  }

  /** The whole text fits exactly when its last character still starts in front of the last three bytes. */
  lemma {:induction false} TakesAll(src: string, offset: nat, size: nat)
    ensures Taken(src, offset, size) == |src|
            <==> src == "" || offset + |Escaped(Library, src[..|src| - 1])| < size - 3
  {
    if src != "" && offset < size - 3 {
      TakesAll(src[1..], offset + |Unit(Library, src[0])|, size);
      if |src| > 1 {
        assert src[..|src| - 1][1..] == src[1..][..|src[1..]| - 1];
      }
    }
  }

  lemma {:induction false} TakenAfter(src: string, i: nat, offset: nat, size: nat)
    requires i <= Taken(src, offset, size)
    ensures Taken(src, offset, size) == i + Taken(src[i..], offset + |Escaped(Library, src[..i])|, size)
  {
    hide Unit;
    if i == 0 {
      assert src[0..] == src;
    } else {
      var unit := Unit(Library, src[0]);
      var rest := src[1..];
      TakenAfter(rest, i - 1, offset + |unit|, size);
      assert src[..i][0] == src[0] && src[..i][1..] == rest[..i - 1];
      assert rest[i - 1..] == src[i..];
    }
  }

  /** The library's json_escape_string, appending at `start`; `end` is the new offset. */
  method EscapeInto(dest: array<char>, start: nat, src: string) returns (ok: bool, end: nat)
    requires dest.Length >= 3 && start < dest.Length
    modifies dest
    ensures var n := Taken(src, start, dest.Length);
            var written := Escaped(Library, src[..n]) + if ok then [NUL] else "";
            && ok == (n == |src|)
            && start + |written| <= dest.Length
            && dest[..start + |written|] == old(dest[..start]) + written
            && dest[start + |written|..] == old(dest[start + |written|..])
            && end == if ok then start + |written| - 1 else start
  {
    hide Taken, Unit, Escaped;
    var offset := start;
    var s := 0;
    TakenAfter(src, 0, start, dest.Length);
    EscapedStart(src);
    while s < |src| && offset < dest.Length - 3
      invariant s <= Taken(src, start, dest.Length)
      invariant offset == start + |Escaped(Library, src[..s])| <= dest.Length - 1
      invariant dest[..offset] == old(dest[..start]) + Escaped(Library, src[..s])
      invariant forall k :: offset <= k < dest.Length ==> dest[k] == old(dest[k])
      decreases |src| - s
    {
      var c := src[s];
      EscapedSnoc(Library, src, s);
      TakenAfter(src, s, start, dest.Length);
      TakesNext(src, s, offset, dest.Length);
      LibraryUnit(c);
      ghost var done := dest[..offset];
      if c == '"' || c == '\\' {
        dest[offset] := '\\';
        offset := offset + 1;
      }
      dest[offset] := c;
      offset := offset + 1;
      assert dest[..offset] == done + Unit(Library, c);
      Joined(old(dest[..start]), Escaped(Library, src[..s]), Unit(Library, c));
      s := s + 1;
    }
    TakenAfter(src, s, start, dest.Length);
    TakesNoMore(src, s, offset, dest.Length);
    ghost var body := Escaped(Library, src[..s]);
    if s < |src| {
      assert body + "" == body;
      return false, start;
    }
    assert src[..s] == src;
    dest[offset] := NUL;
    ok, end := true, offset;
    Joined(old(dest[..start]), body, [NUL]);
    assert dest[..offset + 1] == (old(dest[..start]) + body) + [NUL];
    assert dest[offset + 1..] == old(dest[offset + 1..]);
  }

  lemma EscapedStart(src: string)
    ensures Escaped(Library, src[..0]) == ""
  {
  }

  lemma LibraryUnit(c: char)
    ensures Unit(Library, c) == if c == '"' || c == '\\' then ['\\', c] else [c]
  {
  }

  lemma TakesNext(src: string, s: nat, offset: nat, size: nat)
    requires s < |src| && offset < size - 3
    ensures Taken(src[s..], offset, size) >= 1
  {
  }

  lemma TakesNoMore(src: string, s: nat, offset: nat, size: nat)
    requires s <= |src| && (s == |src| || offset >= size - 3)
    ensures Taken(src[s..], offset, size) == 0
  {
  }

  // ---------------------------------------------------------------- extracting

  /** Where the string content ends: the first quote not paired with a backslash, or |s|. */
  function ClosingQuote(s: string): (r: nat)
    ensures r <= |s|
    ensures r < |s| ==> s[r] == '"'
  {
    if s == "" || s[0] == '"' then 0
    else if s[0] == '\\' && |s| > 1 && s[1] == '"' then 2 + ClosingQuote(s[2..])
    else 1 + ClosingQuote(s[1..])
  }

  function SearchKey(field: string): string {
    Cut("\"" + field + "\"", KEY_SIZE)
  }

  function Content(s: string): Extraction {
    var end := ClosingQuote(s);
    if end == |s| then Missing else Found(s[..end])
  }

  function Extract(json: string, field: string): Extraction {
    var key := SearchKey(field);
    var i := FindText(json, key);
    if i == |json| then Missing
    else
      var rest := json[i + |key|..];
      var q := FindChar(rest, '"');
      if q == |rest| then Missing else Content(rest[q + 1..])
  }

  /** The loop of json_extract_string_field that looks for the closing quote. */
  method ScanContent(content: string) returns (end: nat)
    ensures end == ClosingQuote(content)
  {
    end := 0;
    assert content[0..] == content;
    while end < |content| && content[end] != '"'
      invariant end <= |content|
      invariant ClosingQuote(content) == end + ClosingQuote(content[end..])
    {
      if content[end] == '\\' && end + 1 < |content| && content[end + 1] == '"' {
        assert content[end..][2..] == content[end + 2..];
        end := end + 2;
      } else {
        assert content[end..][1..] == content[end + 1..];
        end := end + 1;
      }
    }
  }

  method ExtractStringField(json: string, field: string) returns (r: Extraction)
    ensures r == Extract(json, field)
  {
    hide FindText, FindChar, Cut, ClosingQuote;
    var key := SearchKey(field);
    var fieldStart := FindText(json, key);
    if fieldStart == |json| {
      return Missing;
    }
    var rest := json[fieldStart + |key|..];
    var quote := FindChar(rest, '"');
    if quote == |rest| {
      return Missing;
    }
    var content := rest[quote + 1..];
    var end := ScanContent(content);
    if end == |content| {
      return Missing;
    }
    r := Found(content[..end]);
  }

  /** Where the search for the last field of the path starts; nothing where a field is missing. */
  function Descend(json: string, path: seq<string>): (r: Extraction)
    ensures r == Missing || r.Found?
  {
    if |path| <= 1 then Found(json)
    else
      var i := FindText(json, SearchKey(path[0]));
      if i == |json| then Missing else Descend(json[i + |SearchKey(path[0])|..], path[1..])
  }

  function ExtractNested(json: string, path: seq<string>): Extraction {
    if path == [] || |path| > MAX_DEPTH then BadDepth
    else
      var inner := Descend(json, path);
      if inner == Missing then Missing else Extract(inner.value, path[|path| - 1])
  }

  method ExtractNestedString(json: string, path: seq<string>) returns (r: Extraction)
    ensures r == ExtractNested(json, path)
  {
    hide FindText, SearchKey, Extract;
    if |path| < 1 || |path| > MAX_DEPTH {
      return BadDepth;
    }
    var current := json;
    var i := 0;
    assert path[0..] == path;
    while i < |path| - 1
      invariant 0 <= i <= |path| - 1
      invariant Descend(current, path[i..]) == Descend(json, path)
    {
      var key := SearchKey(path[i]);
      var fieldPos := FindText(current, key);
      assert path[i..][1..] == path[i + 1..];
      if fieldPos == |current| {
        return Missing;
      }
      current := current[fieldPos + |key|..];
      i := i + 1;
    }
    r := ExtractStringField(current, path[|path| - 1]);
  }

  // ---------------------------------------------------------------- unescaping

  function Meaning(c: char): (r: char)
    ensures c != NUL ==> r != NUL
  {
    if c == 'n' then '\n'
    else if c == 'r' then '\r'
    else if c == 't' then '\t'
    else if c == 'b' then BELL_BACK
    else if c == 'f' then FORM_FEED
    else c
  }

  function Unescaped(s: string): (r: string)
    ensures |r| <= |s| && (NUL !in s ==> NUL !in r)
  {
    if s == "" then ""
    else if s[0] == '\\' && |s| > 1 then [Meaning(s[1])] + Unescaped(s[2..])
    else [s[0]] + Unescaped(s[1..])
  }

  lemma UnescapedStep(text: string, src: nat)
    requires src < |text|
    ensures Unescaped(text[src..])
            == if text[src] == '\\' && src + 1 < |text| then [Meaning(text[src + 1])] + Unescaped(text[src + 2..])
               else [text[src]] + Unescaped(text[src + 1..])
  {
    assert text[src..][1..] == text[src + 1..];
    if src + 1 < |text| {
      assert text[src..][2..] == text[src + 2..];
    }
  }

  lemma UnescapedNothing(text: string)
    ensures Unescaped(text[|text|..]) == ""
  {
  }

  /** unescape_json_string on the text of `n` characters in `str`; `length` is the new strlen. */
  method UnescapeInPlace(str: array<char>, n: nat) returns (length: nat)
    requires n < str.Length && str[n] == NUL && NUL !in str[..n]
    modifies str
    ensures length <= n && str[..length] == Unescaped(old(str[..n]))
    ensures str[length] == NUL && NUL !in str[..length]
    ensures str[length + 1..] == old(str[length + 1..])
  {
    hide Unescaped;
    ghost var text := str[..n];
    var src, dst := 0, 0;
    assert text[0..] == text;
    assert forall k :: 0 <= k < n ==> text[k] == str[k] && text[k] != NUL;
    while str[src] != NUL
      invariant dst <= src <= n
      invariant forall k :: dst <= k < str.Length ==> str[k] == old(str[k])
      invariant str[..dst] + Unescaped(text[src..]) == Unescaped(text)
      decreases n - src
    {
      assert src < n && str[src] == text[src] && str[src + 1] == old(str[src + 1]);
      assert src + 1 < n <==> str[src + 1] != NUL;
      UnescapedStep(text, src);
      ghost var done := str[..dst];
      var c := str[src];
      if c == '\\' && str[src + 1] != NUL {
        src := src + 1;
        c := str[src];
        if c == 'n' {
          c := '\n';
        } else if c == 'r' {
          c := '\r';
        } else if c == 't' {
          c := '\t';
        } else if c == 'b' {
          c := BELL_BACK;
        } else if c == 'f' {
          c := FORM_FEED;
        }
      }
      str[dst] := c;
      dst := dst + 1;
      src := src + 1;
      assert str[..dst] == done + [c];
      Joined(done, [c], Unescaped(text[src..]));
    }
    assert src == n;
    UnescapedNothing(text);
    ghost var result := str[..dst];
    assert result == Unescaped(text);
    length := dst;
    str[dst] := NUL;
    assert str[..dst] == result;
    assert str[dst + 1..] == old(str[dst + 1..]);
  }
}
