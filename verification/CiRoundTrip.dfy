/** Loading a saved CI registry into an empty one restores it, in reversed order. */
module CiRoundTrip {
  import opened CiRegistry
  import opened CStrings
  import opened CiPersistence
  import opened Decimals

  /** Text without quotes, as field names and saved values are. */
  predicate Unquoted(s: string) {
    '"' !in s
  }

  /** A field name the extractors can tell from values: nonempty, unquoted, starting with a letter. */
  predicate FieldName(f: string) {
    f != "" && Unquoted(f) && f[0] != ':' && f[0] != ','
  }

  // ---------------------------------------------------------------- searching

  lemma {:induction false} FindSkips(seg: string, s: string, f: string)
    requires Unquoted(seg)
    ensures FindText(seg + s, Key(f)) == |seg| + FindText(s, Key(f))
  {
    if seg == "" {
      assert seg + s == s;
    } else {
      assert (seg + s)[0] == seg[0] && seg[0] in seg;
      assert (seg + s)[1..] == seg[1..] + s;
      FindSkips(seg[1..], s, f);
    }
  }

  /** Where an unquoted text ends at a quote, so does any equal prefix. */
  lemma QuoteEnds(a: string, b: string, s: string, t: string)
    requires Unquoted(a) && Unquoted(b) && a + ("\"" + s) <= b + ("\"" + t)
    ensures a == b && s <= t && (s != "" ==> t != "" && s[0] == t[0])
  {
    var l, r := a + ("\"" + s), b + ("\"" + t);
    CharSkips(a, "\"" + s, '"');
    CharSkips(b, "\"" + t, '"');
    assert FindChar(l, '"') == |a| && FindChar(r, '"') == |b|;
    CharOfPrefix(l, r, '"');
    assert l[..|a|] == a && r[..|b|] == b && l[..|a|] == r[..|a|];
    assert l[|a| + 1..] == s && r[|a| + 1..] == t && l[|a| + 1..] <= r[|a| + 1..];
  }

  lemma CharOfPrefix(l: string, r: string, c: char)
    requires l <= r && FindChar(l, c) < |l|
    ensures FindChar(r, c) == FindChar(l, c)
  {
  }

  lemma WordIsNoKey(v: string, c: char, t: string, f: string)
    requires Unquoted(v) && FieldName(f) && (v == f ==> c != ':')
    ensures !(Key(f) <= "\"" + (v + ("\"" + ([c] + t))))
  {
    var s := "\"" + (v + ("\"" + ([c] + t)));
    if Key(f) <= s {
      assert Key(f)[1..] == f + ("\"" + ":") && s[1..] == v + ("\"" + ([c] + t));
      assert Key(f)[1..] <= s[1..];
      QuoteEnds(f, v, ":", [c] + t);
    }
  }

  lemma QuoteIsNoKey(c: char, t: string, f: string)
    requires FieldName(f) && c != f[0]
    ensures FindText("\"" + ([c] + t), Key(f)) == 1 + FindText([c] + t, Key(f))
  {
    var s := "\"" + ([c] + t);
    assert Key(f)[1] == f[0] && s[1] == c;
    assert s[1..] == [c] + t;
  }

  /** A quoted word is not the key searched for unless it is that word before a colon. */
  lemma WordSkips(v: string, c: char, t: string, f: string)
    requires Unquoted(v) && FieldName(f) && (v == f ==> c != ':') && c != f[0]
    ensures FindText("\"" + (v + ("\"" + ([c] + t))), Key(f)) == 2 + |v| + FindText([c] + t, Key(f))
  {
    var close := "\"" + ([c] + t);
    var s := "\"" + (v + close);
    WordIsNoKey(v, c, t, f);
    assert s[1..] == v + close;
    assert FindText(s, Key(f)) == 1 + FindText(v + close, Key(f));
    hide FindText;
    FindSkips(v, close, f);
    QuoteIsNoKey(c, t, f);
  }

  lemma TextLineLength(key: string, value: string, rest: string)
    ensures |TextLine(key, value, rest)| == |key| + |value| + 14 + |rest|
  {
  }

  lemma SkipTextLine(key: string, value: string, rest: string, f: string)
    requires Unquoted(key) && Unquoted(value) && FieldName(f) && key != f
    ensures FindText(TextLine(key, value, rest), Key(f)) == |TextLine(key, value, "")| + FindText(rest, Key(f))
  {
    hide FindText, Key;
    TextLineLength(key, value, "");
    SkipValue(value, rest, f);
    var quoted := "\"" + (value + ("\",\n" + rest));
    var colon := "\": \"" + (value + ("\",\n" + rest));
    assert colon == "\"" + ([':'] + (" " + quoted));
    WordSkips(key, ':', " " + quoted, f);
    assert [':'] + (" " + quoted) == ": " + quoted;
    FindSkips(": ", quoted, f);
    FindSkips("      ", "\"" + (key + colon), f);
  }

  /** A text value and the comma after it. */
  lemma CommaAfterValue(rest: string)
    ensures "\",\n" + rest == "\"" + ([','] + ("\n" + rest))
    ensures [','] + ("\n" + rest) == ",\n" + rest
  {
  }

  lemma SkipValue(value: string, rest: string, f: string)
    requires Unquoted(value) && FieldName(f)
    ensures FindText("\"" + (value + ("\",\n" + rest)), Key(f)) == |value| + 4 + FindText(rest, Key(f))
  {
    CommaAfterValue(rest);
    FindSkips(",\n", rest, f);
    hide FindText, Key;
    WordSkips(value, ',', "\n" + rest, f);
  }

  lemma HitTextLine(key: string, value: string, rest: string)
    ensures FindText(TextLine(key, value, rest), Key(key)) == 6
  {
    FindSkips("      ", "\"" + (key + ("\": \"" + (value + ("\",\n" + rest)))), key);
    var s := "\"" + (key + ("\": \"" + (value + ("\",\n" + rest))));
    assert s == Key(key) + (" \"" + (value + ("\",\n" + rest)));
  }

  lemma PrintedIsUnquoted(n: int)
    ensures Unquoted(PrintInt(n)) && '}' !in PrintInt(n)
  {
  }

  /** What follows the key of a number. */
  lemma ColonAfterKey(tail: string)
    ensures "\": " + tail == "\"" + ([':'] + (" " + tail))
    ensures [':'] + (" " + tail) == ": " + tail
  {
  }

  lemma SkipNumberLine(indent: string, key: string, n: int, end: string, rest: string, f: string)
    requires Unquoted(indent) && Unquoted(key) && Unquoted(end) && FieldName(f) && key != f
    ensures FindText(NumberLine(indent, key, n, end, rest), Key(f))
            == |NumberLine(indent, key, n, end, "")| + FindText(rest, Key(f))
  {
    PrintedIsUnquoted(n);
    hide PrintInt, FindText, Key;
    var s := PrintInt(n);
    var tail := s + (end + rest);
    FindSkips(end, rest, f);
    FindSkips(s, end + rest, f);
    ColonAfterKey(tail);
    WordSkips(key, ':', " " + tail, f);
    FindSkips(": ", tail, f);
    FindSkips(indent, "\"" + (key + ("\": " + tail)), f);
  }

  lemma HitNumberLine(indent: string, key: string, n: int, end: string, rest: string)
    requires Unquoted(indent)
    ensures FindText(NumberLine(indent, key, n, end, rest), Key(key)) == |indent|
  {
    hide PrintInt;
    var tail := PrintInt(n) + (end + rest);
    var s := "\"" + (key + ("\": " + tail));
    FindSkips(indent, s, key);
    assert s == Key(key) + (" " + tail);
  }

  // ---------------------------------------------------------------- extracting one field

  /** Extraction may start later where the search would get there anyway. */
  lemma ExtractLater(s: string, t: string, d: nat, end: nat, f: string, size: nat)
    requires size > 0 && d <= |s| && s[d..] == t && d <= end
    requires FindText(s, Key(f)) == d + FindText(t, Key(f))
    ensures ExtractString(s, end, f, size) == ExtractString(t, end - d, f, size)
    ensures ExtractInt(s, end, f) == ExtractInt(t, end - d, f)
  {
    hide FindText, ValueAfter, ScanInt, Key;
    var i := FindText(t, Key(f));
    if i < |t| {
      assert s[d + i + |Key(f)|..] == t[i + |Key(f)|..];
    }
  }

  lemma AfterTextLine(key: string, value: string, rest: string, end: nat, f: string, size: nat)
    requires Unquoted(key) && Unquoted(value) && FieldName(f) && key != f && size > 0
    requires end >= |TextLine(key, value, "")|
    ensures var later := end - |TextLine(key, value, "")|;
            && ExtractString(TextLine(key, value, rest), end, f, size) == ExtractString(rest, later, f, size)
            && ExtractInt(TextLine(key, value, rest), end, f) == ExtractInt(rest, later, f)
  {
    SkipTextLine(key, value, rest, f);
    WholeTextLine(key, value, rest);
    hide TextLine;
    ExtractLater(TextLine(key, value, rest), rest, |TextLine(key, value, "")|, end, f, size);
  }

  lemma WholeTextLine(key: string, value: string, rest: string)
    ensures TextLine(key, value, rest) == TextLine(key, value, "") + rest
    ensures TextLine(key, value, rest)[|TextLine(key, value, "")|..] == rest
  {
    TextLineSplit(key, value, "", rest);
    assert "" + rest == rest;
    hide TextLine;
  }

  lemma WholeNumberLine(indent: string, key: string, n: int, end: string, rest: string)
    ensures NumberLine(indent, key, n, end, rest) == NumberLine(indent, key, n, end, "") + rest
    ensures NumberLine(indent, key, n, end, rest)[|NumberLine(indent, key, n, end, "")|..] == rest
  {
    NumberLineSplit(indent, key, n, end, "", rest);
    assert "" + rest == rest;
    hide NumberLine;
  }

  lemma AfterNumberLine(indent: string, key: string, n: int, lineEnd: string, rest: string, end: nat, f: string)
    requires Unquoted(indent) && Unquoted(key) && Unquoted(lineEnd) && FieldName(f) && key != f
    requires end >= |NumberLine(indent, key, n, lineEnd, "")|
    ensures ExtractInt(NumberLine(indent, key, n, lineEnd, rest), end, f)
            == ExtractInt(rest, end - |NumberLine(indent, key, n, lineEnd, "")|, f)
  {
    SkipNumberLine(indent, key, n, lineEnd, rest, f);
    WholeNumberLine(indent, key, n, lineEnd, rest);
    hide NumberLine;
    ExtractLater(NumberLine(indent, key, n, lineEnd, rest), rest, |NumberLine(indent, key, n, lineEnd, "")|, end, f, 1);
  }

  lemma TextLineValue(key: string, value: string, rest: string, end: nat, size: nat)
    requires Unquoted(value) && |value| < size && end >= |TextLine(key, value, "")|
    ensures ExtractString(TextLine(key, value, rest), end, key, size) == value
  {
    hide TextLine, FindText, ValueAfter;
    HitTextLine(key, value, rest);
    TextLineLength(key, value, "");
    TextLineLength(key, value, rest);
    AfterKey(key, value, rest);
    QuotedValue(value, rest, end - 6 - |Key(key)|, size);
  }

  lemma AfterKey(key: string, value: string, rest: string)
    ensures TextLine(key, value, rest)[6 + |Key(key)|..] == " \"" + (value + ("\",\n" + rest))
  {
    var a := " \"" + (value + ("\",\n" + rest));
    assert TextLine(key, value, rest) == ("      " + Key(key)) + a;
  }

  lemma QuotedValue(value: string, rest: string, room: int, size: nat)
    requires Unquoted(value) && |value| < size && room >= |value| + 3
    ensures ValueAfter(" \"" + (value + ("\",\n" + rest)), room, size) == value
  {
    var b := value + ("\",\n" + rest);
    var a := " \"" + b;
    assert a == " " + ("\"" + b);
    CharSkips(" ", "\"" + b, '"');
    assert a[2..] == b;
    CharSkips(value, "\",\n" + rest, '"');
    assert b[..|value|] == value;
  }

  lemma NumberLineValue(indent: string, key: string, n: int, lineEnd: string, rest: string, end: nat)
    requires Unquoted(indent) && lineEnd != "" && !IsDigit(lineEnd[0]) && end > |indent|
    ensures ExtractInt(NumberLine(indent, key, n, lineEnd, rest), end, key) == n
  {
    hide NumberLine, PrintInt, ScanInt, FindText, Key;
    HitNumberLine(indent, key, n, lineEnd, rest);
    NumberAfterKey(indent, key, n, lineEnd, rest);
    ScanPrinted(" ", n, lineEnd + rest);
  }

  lemma NumberAfterKey(indent: string, key: string, n: int, lineEnd: string, rest: string)
    ensures var s := NumberLine(indent, key, n, lineEnd, rest);
            && |indent| + |Key(key)| <= |s| && |indent| < |s|
            && s[|indent| + |Key(key)|..] == " " + PrintInt(n) + (lineEnd + rest)
  {
    hide PrintInt;
    var tail := PrintInt(n) + (lineEnd + rest);
    assert NumberLine(indent, key, n, lineEnd, rest) == (indent + Key(key)) + (" " + tail);
    assert " " + tail == " " + PrintInt(n) + (lineEnd + rest);
  }

  // ---------------------------------------------------------------- one entry

  predicate CleanText(s: string, size: nat) {
    s != "" && |s| < size && Unquoted(s) && '}' !in s
  }

  /** What the text format can carry. */
  predicate Clean(c: Ci) {
    && CleanText(c.name, NAME_MAX) && CleanText(c.role, ROLE_MAX) && CleanText(c.model, MODEL_MAX)
    && Unquoted(c.host) && '}' !in c.host
    && c.port > 0
  }

  function EntryLength(c: Ci): nat {
    |EntryText(c, "")| - 1
  }

  /** How many characters the opening brace and the string fields take. */
  function TextLength(c: Ci): nat {
    2 + |TextLine("name", c.name, "")| + |TextLine("role", c.role, "")|
    + |TextLine("model", c.model, "")| + |TextLine("host", c.host, "")|
  }

  function NumbersLength(c: Ci): nat {
    |NumberLine("      ", "port", c.port, ",\n", "")| + |NumberLine("      ", "status", c.status, ",\n", "")|
    + |NumberLine("      ", "registered_at", c.registeredAt, "\n", "")|
  }

  lemma NumbersAddUp(c: Ci, rest: string)
    ensures |NumberLines(c, rest)| == NumbersLength(c) + |"    }" + rest|
  {
    hide NumberLine;
    var n3 := "    }" + rest;
    WholeNumberLine("      ", "registered_at", c.registeredAt, "\n", n3);
    var n2 := NumberLine("      ", "registered_at", c.registeredAt, "\n", n3);
    WholeNumberLine("      ", "status", c.status, ",\n", n2);
    var n1 := NumberLine("      ", "status", c.status, ",\n", n2);
    WholeNumberLine("      ", "port", c.port, ",\n", n1);
  }

  lemma EntryWhole(c: Ci, rest: string)
    ensures EntryText(c, rest) == EntryText(c, "") + rest
  {
    hide *;
    EntrySplit(c, "", rest);
    assert "" + rest == rest;
  }

  /** The lengths of the lines of an entry add up. */
  lemma EntryLengths(c: Ci)
    ensures |EntryText(c, "")| == TextLength(c) + NumbersLength(c) + 5
  {
    hide TextLine, NumberLine, NumberLines, NumbersLength;
    NumbersAddUp(c, "");
    var n0 := NumberLines(c, "");
    WholeTextLine("host", c.host, n0);
    var h := TextLine("host", c.host, n0);
    WholeTextLine("model", c.model, h);
    var m := TextLine("model", c.model, h);
    WholeTextLine("role", c.role, m);
    var r := TextLine("role", c.role, m);
    WholeTextLine("name", c.name, r);
  }

  lemma BraceInEntry(c: Ci, rest: string)
    requires Clean(c)
    ensures FindChar(EntryText(c, rest), '}') == EntryLength(c)
  {
    hide TextLine, NumberLines, Unquoted, NumbersLength, FindChar;
    BraceInNumbers(c, rest);
    var n0 := NumberLines(c, rest);
    BraceNotInText("host", c.host, n0);
    var h := TextLine("host", c.host, n0);
    BraceNotInText("model", c.model, h);
    var m := TextLine("model", c.model, h);
    BraceNotInText("role", c.role, m);
    var r := TextLine("role", c.role, m);
    BraceNotInText("name", c.name, r);
    CharSkips("{\n", TextLine("name", c.name, r), '}');
    EntryLengths(c);
  }

  lemma BraceInNumbers(c: Ci, rest: string)
    ensures FindChar(NumberLines(c, rest), '}') == NumbersLength(c) + 4
  {
    var n3 := "    }" + rest;
    CharSkips("    ", "}" + rest, '}');
    assert n3 == "    " + ("}" + rest);
    hide NumberLine, FindChar;
    BraceNotInNumber("      ", "registered_at", c.registeredAt, "\n", n3);
    var n2 := NumberLine("      ", "registered_at", c.registeredAt, "\n", n3);
    BraceNotInNumber("      ", "status", c.status, ",\n", n2);
    var n1 := NumberLine("      ", "status", c.status, ",\n", n2);
    BraceNotInNumber("      ", "port", c.port, ",\n", n1);
  }

  lemma BraceNotInText(key: string, value: string, rest: string)
    requires '}' !in key && '}' !in value
    ensures FindChar(TextLine(key, value, rest), '}') == |TextLine(key, value, "")| + FindChar(rest, '}')
  {
    WholeTextLine(key, value, rest);
    assert '}' !in TextLine(key, value, "");
    hide TextLine;
    CharSkips(TextLine(key, value, ""), rest, '}');
  }

  lemma BraceNotInNumber(indent: string, key: string, n: int, end: string, rest: string)
    requires '}' !in indent && '}' !in key && '}' !in end
    ensures FindChar(NumberLine(indent, key, n, end, rest), '}')
            == |NumberLine(indent, key, n, end, "")| + FindChar(rest, '}')
  {
    WholeNumberLine(indent, key, n, end, rest);
    PrintedIsUnquoted(n);
    assert '}' !in NumberLine(indent, key, n, end, "");
    hide NumberLine;
    CharSkips(NumberLine(indent, key, n, end, ""), rest, '}');
  }

  /** The opening brace does not disturb the search. */
  lemma AfterBrace(s: string, end: nat, f: string, size: nat)
    requires size > 0 && end >= 2
    ensures ExtractString("{\n" + s, end, f, size) == ExtractString(s, end - 2, f, size)
    ensures ExtractInt("{\n" + s, end, f) == ExtractInt(s, end - 2, f)
  {
    FindSkips("{\n", s, f);
    ExtractLater("{\n" + s, s, 2, end, f, size);
  }

  /** Each string field of a clean entry is read back. */
  lemma TextFieldsReadBack(c: Ci, rest: string)
    requires Clean(c)
    ensures var s, end := EntryText(c, rest), EntryLength(c);
            && ExtractString(s, end, "name", NAME_MAX) == c.name
            && ExtractString(s, end, "role", ROLE_MAX) == c.role
            && ExtractString(s, end, "model", MODEL_MAX) == c.model
  {
    hide TextLine, NumberLine, NumberLines, ExtractString, ExtractInt, NumbersLength, FindText, Key;
    EntryLengths(c);
    var end := EntryLength(c);
    var s4 := TextLine("host", c.host, NumberLines(c, rest));
    var s3 := TextLine("model", c.model, s4);
    var s2 := TextLine("role", c.role, s3);
    var s1 := TextLine("name", c.name, s2);
    AfterBrace(s1, end, "name", NAME_MAX);
    AfterBrace(s1, end, "role", ROLE_MAX);
    AfterBrace(s1, end, "model", MODEL_MAX);
    var e1 := end - 2;
    TextLineValue("name", c.name, s2, e1, NAME_MAX);
    AfterTextLine("name", c.name, s2, e1, "role", ROLE_MAX);
    AfterTextLine("name", c.name, s2, e1, "model", MODEL_MAX);
    var e2 := e1 - |TextLine("name", c.name, "")|;
    TextLineValue("role", c.role, s3, e2, ROLE_MAX);
    AfterTextLine("role", c.role, s3, e2, "model", MODEL_MAX);
    var e3 := e2 - |TextLine("role", c.role, "")|;
    TextLineValue("model", c.model, s4, e3, MODEL_MAX);
  }

  lemma AfterTextLines(c: Ci, s5: string, end: nat, f: string)
    requires Clean(c) && f in ["port", "status", "registered_at"] && end >= TextLength(c)
    ensures ExtractInt("{\n" + TextLines(c, s5), end, f) == ExtractInt(s5, end - TextLength(c), f)
  {
    hide TextLine, ExtractInt, ExtractString, FindText, Key;
    var s4 := TextLine("host", c.host, s5);
    var s3 := TextLine("model", c.model, s4);
    var s2 := TextLine("role", c.role, s3);
    var s1 := TextLine("name", c.name, s2);
    AfterBrace(s1, end, f, 1);
    var e1 := end - 2;
    AfterTextLine("name", c.name, s2, e1, f, 1);
    var e2 := e1 - |TextLine("name", c.name, "")|;
    AfterTextLine("role", c.role, s3, e2, f, 1);
    var e3 := e2 - |TextLine("role", c.role, "")|;
    AfterTextLine("model", c.model, s4, e3, f, 1);
    var e4 := e3 - |TextLine("model", c.model, "")|;
    AfterTextLine("host", c.host, s5, e4, f, 1);
  }

  lemma NumbersComeAfterText(c: Ci, rest: string, f: string)
    requires Clean(c) && f in ["port", "status", "registered_at"]
    ensures ExtractInt(EntryText(c, rest), EntryLength(c), f)
            == ExtractInt(NumberLines(c, rest), NumbersLength(c) + 4, f)
  {
    hide TextLines, NumberLines, ExtractInt, NumbersLength, TextLength, Clean;
    EntryLengths(c);
    AfterTextLines(c, NumberLines(c, rest), EntryLength(c), f);
  }

  lemma NumberLineLong(indent: string, key: string, n: int, end: string)
    ensures |NumberLine(indent, key, n, end, "")| > |indent|
  {
  }

  lemma NumberLinesValues(c: Ci, rest: string)
    ensures ExtractInt(NumberLines(c, rest), NumbersLength(c) + 4, "port") == c.port
    ensures ExtractInt(NumberLines(c, rest), NumbersLength(c) + 4, "status") == c.status
    ensures ExtractInt(NumberLines(c, rest), NumbersLength(c) + 4, "registered_at") == c.registeredAt
  {
    NumberLineLong("      ", "port", c.port, ",\n");
    NumberLineLong("      ", "status", c.status, ",\n");
    NumberLineLong("      ", "registered_at", c.registeredAt, "\n");
    hide NumberLine, ExtractInt;
    var end := NumbersLength(c) + 4;
    var s7 := NumberLine("      ", "registered_at", c.registeredAt, "\n", "    }" + rest);
    var s6 := NumberLine("      ", "status", c.status, ",\n", s7);
    NumberLineValue("      ", "port", c.port, ",\n", s6, end);
    AfterNumberLine("      ", "port", c.port, ",\n", s6, end, "status");
    var end6 := end - |NumberLine("      ", "port", c.port, ",\n", "")|;
    NumberLineValue("      ", "status", c.status, ",\n", s7, end6);
    AfterNumberLine("      ", "port", c.port, ",\n", s6, end, "registered_at");
    AfterNumberLine("      ", "status", c.status, ",\n", s7, end6, "registered_at");
    var end7 := end6 - |NumberLine("      ", "status", c.status, ",\n", "")|;
    NumberLineValue("      ", "registered_at", c.registeredAt, "\n", "    }" + rest, end7);
  }

  /** All three numbers of a clean entry are there, though loading asks for two of them only. */
  lemma NumbersReadBack(c: Ci, rest: string)
    requires Clean(c)
    ensures ExtractInt(EntryText(c, rest), EntryLength(c), "port") == c.port
    ensures ExtractInt(EntryText(c, rest), EntryLength(c), "status") == c.status
    ensures ExtractInt(EntryText(c, rest), EntryLength(c), "registered_at") == c.registeredAt
  {
    hide *;
    NumbersComeAfterText(c, rest, "registered_at");
    NumbersComeAfterText(c, rest, "port");
    NumbersComeAfterText(c, rest, "status");
    NumberLinesValues(c, rest);
  }

  /** The host is there, too, though loading does not ask for it. */
  lemma HostIsThere(c: Ci, rest: string, size: nat)
    requires Clean(c) && |c.host| < size
    ensures ExtractString(EntryText(c, rest), EntryLength(c), "host", size) == c.host
  {
    hide TextLine, NumberLine, NumberLines, ExtractString, ExtractInt, NumbersLength, FindText, Key;
    EntryLengths(c);
    var s4 := TextLine("host", c.host, NumberLines(c, rest));
    var s3 := TextLine("model", c.model, s4);
    var s2 := TextLine("role", c.role, s3);
    var s1 := TextLine("name", c.name, s2);
    AfterBrace(s1, EntryLength(c), "host", size);
    var e1 := EntryLength(c) - 2;
    AfterTextLine("name", c.name, s2, e1, "host", size);
    var e2 := e1 - |TextLine("name", c.name, "")|;
    AfterTextLine("role", c.role, s3, e2, "host", size);
    var e3 := e2 - |TextLine("role", c.role, "")|;
    AfterTextLine("model", c.model, s4, e3, "host", size);
    TextLineValue("host", c.host, NumberLines(c, rest), e3 - |TextLine("model", c.model, "")|, size);
  }

  /** What is restored of an entry. */
  datatype Core = Core(name: string, role: string, model: string, port: int, status: Status)

  function CoreOf(c: Ci): Core {
    Core(c.name, c.role, c.model, c.port, c.status)
  }

  /** The entry a load at `now` creates. */
  function Restored(c: Ci, now: int): (r: Ci)
    ensures Clean(c) ==> CoreOf(r) == CoreOf(c) && Clean(r)
  {
    NewCi(c.name, c.role, c.model, c.port, now).(status := c.status)
  }

  lemma EntryLoads(c: Ci, rest: string, cis: seq<Ci>, now: int)
    requires Clean(c) && |cis| < MAX_CIS && forall k :: 0 <= k < |cis| ==> cis[k].name != c.name
    ensures LoadEntry(EntryText(c, rest), EntryLength(c), cis, now) == [Restored(c, now)] + cis
  {
    TextFieldsReadBack(c, rest);
    NumbersReadBack(c, rest);
    AddedEntry(cis, c, now);
    hide ExtractString, ExtractInt, EntryText, Add, SetStatus, Find, EntryLength;
  }

  lemma AddedEntry(cis: seq<Ci>, c: Ci, now: int)
    requires |cis| < MAX_CIS && forall k :: 0 <= k < |cis| ==> cis[k].name != c.name
    requires |c.name| < NAME_MAX
    ensures AddReply(cis, c.name) == Success
    ensures SetStatus(Add(cis, c.name, c.role, c.model, c.port, now), c.name, c.status) == [Restored(c, now)] + cis
  {
    var added := [NewCi(c.name, c.role, c.model, c.port, now)] + cis;
    assert Find(cis, c.name) == |cis|;
    assert added[0].name == c.name && Find(added, c.name) == 0;
    assert added[0 := Restored(c, now)] == [Restored(c, now)] + cis;
  }

  // ---------------------------------------------------------------- all entries

  predicate Filler(s: string) {
    forall c <- s :: IsFiller(c)
  }

  lemma {:induction false} FillerIsSkipped(f: string, s: string)
    requires Filler(f) && (s == "" || !IsFiller(s[0]))
    ensures SkipFiller(f + s) == s
  {
    if f == "" {
      assert f + s == s;
    } else {
      assert (f + s)[0] == f[0] && f[0] in f;
      assert (f + s)[1..] == f[1..] + s;
      FillerIsSkipped(f[1..], s);
    }
  }

  predicate Saveable(cis: seq<Ci>) {
    |cis| <= MAX_CIS && UniqueNames(cis) && forall c <- cis :: Clean(c)
  }

  /** The entries in the order a load leaves them. */
  function RestoredAll(cis: seq<Ci>, now: int): (r: seq<Ci>)
    ensures |r| == |cis|
    ensures forall i :: 0 <= i < |cis| ==> r[i] == Restored(cis[|cis| - 1 - i], now)
  {
    if cis == [] then [] else RestoredAll(cis[1..], now) + [Restored(cis[0], now)]
  }

  lemma FooterLoads(f: string, cis: seq<Ci>, now: int)
    requires Filler(f) && f != ""
    ensures LoadFrom(f + "  ]\n}\n", cis, now) == cis
  {
    var s := f + "  ]\n}\n";
    assert s[0] == f[0] && f[0] in f;
    assert s == (f + "  ") + "]\n}\n";
    FillerIsSkipped(f + "  ", "]\n}\n");
  }

  lemma {:induction false} EntriesLoad(f: string, cis: seq<Ci>, loaded: seq<Ci>, now: int)
    requires Filler(f) && f != "" && UniqueNames(cis) && (forall c <- cis :: Clean(c))
    requires |loaded| + |cis| <= MAX_CIS
    requires forall i, k :: 0 <= i < |cis| && 0 <= k < |loaded| ==> cis[i].name != loaded[k].name
    ensures LoadFrom(f + EntriesText(cis), loaded, now) == RestoredAll(cis, now) + loaded
    decreases |cis|
  {
    hide LoadFrom, EntryText, Restored, Filler;
    if cis == [] {
      FooterLoads(f, loaded, now);
      assert RestoredAll(cis, now) + loaded == loaded;
    } else {
      var c := cis[0];
      var next := if |cis| > 1 then ",\n" else "\n";
      FirstEntryLoads(f, c, next + EntriesText(cis[1..]), loaded, now);
      LineEndsAreFiller();
      NewNames(cis, loaded, now);
      EntriesLoad(next, cis[1..], [Restored(c, now)] + loaded, now);
      assert RestoredAll(cis[1..], now) + ([Restored(c, now)] + loaded)
          == RestoredAll(cis[1..], now) + [Restored(c, now)] + loaded;
    }
  }

  lemma LineEndsAreFiller()
    ensures Filler(",\n") && Filler("\n")
  {
  }

  /** The names still to come are new to the registry after the first entry was added, too. */
  lemma NewNames(cis: seq<Ci>, loaded: seq<Ci>, now: int)
    requires cis != [] && UniqueNames(cis) && Clean(cis[0])
    requires forall i, k :: 0 <= i < |cis| && 0 <= k < |loaded| ==> cis[i].name != loaded[k].name
    ensures UniqueNames(cis[1..])
    ensures var more := [Restored(cis[0], now)] + loaded;
            forall i, k :: 0 <= i < |cis[1..]| && 0 <= k < |more| ==> cis[1..][i].name != more[k].name
  {
    var more := [Restored(cis[0], now)] + loaded;
    assert CoreOf(more[0]) == CoreOf(cis[0]);
    forall i, k | 0 <= i < |cis[1..]| && 0 <= k < |more|
      ensures cis[1..][i].name != more[k].name
    {
      assert cis[1..][i] == cis[i + 1];
      if k > 0 {
        assert more[k] == loaded[k - 1];
      }
    }
  }

  lemma FirstEntryLoads(f: string, c: Ci, rest: string, loaded: seq<Ci>, now: int)
    requires Filler(f) && f != "" && Clean(c) && |loaded| < MAX_CIS
    requires forall k :: 0 <= k < |loaded| ==> loaded[k].name != c.name
    ensures LoadFrom(f + ("    " + EntryText(c, rest)), loaded, now) == LoadFrom(rest, [Restored(c, now)] + loaded, now)
  {
    hide *;
    var t := EntryText(c, rest);
    EntryEnds(c, rest);
    EntryLoads(c, rest, loaded, now);
    FillerMore(f, t);
    FillerIsSkipped(f + "    ", t);
    LoadStep(f + ("    " + t), loaded, now, t, EntryLength(c));
  }

  lemma EntryEnds(c: Ci, rest: string)
    requires Clean(c)
    ensures var t := EntryText(c, rest);
            && t != "" && t[0] == '{' && !IsFiller(t[0]) && EntryLength(c) < |t|
            && FindChar(t, '}') == EntryLength(c) && t[EntryLength(c) + 1..] == rest
  {
    assert EntryText(c, rest)[0] == '{';
    BraceInEntry(c, rest);
    EntryWhole(c, rest);
    EntryLengths(c);
    hide EntryText, FindChar;
  }

  lemma FillerMore(f: string, t: string)
    requires Filler(f) && f != ""
    ensures Filler(f + "    ")
    ensures f + ("    " + t) == (f + "    ") + t
    ensures f + ("    " + t) != "" && (f + ("    " + t))[0] != ']'
  {
    assert f[0] in f;
  }

  lemma LoadStep(s: string, cis: seq<Ci>, now: int, t: string, end: nat)
    requires s != "" && s[0] != ']' && SkipFiller(s) == t
    requires t != "" && t[0] == '{' && FindChar(t, '}') == end < |t|
    ensures LoadFrom(s, cis, now) == LoadFrom(t[end + 1..], LoadEntry(t, end, cis, now), now)
  {
    hide LoadEntry, SkipFiller, FindChar;
  }

  lemma EntriesKeyFound(rest: string)
    ensures FindText("  \"entries\": [\n" + rest, Key("entries")) == 2
  {
    var u := "\"entries\": [\n" + rest;
    assert "  \"entries\": [\n" + rest == "  " + u;
    assert Key("entries") <= u && FindText(u, Key("entries")) == 0;
    FindSkips("  ", u, "entries");
  }

  lemma HeaderWords()
    ensures Unquoted("  ") && Unquoted("{\n") && Unquoted(",\n") && Unquoted("version") && Unquoted("count")
    ensures FieldName("entries") && "version" != "entries" && "count" != "entries"
  {
    assert "version"[0] != "entries"[0] && "count"[0] != "entries"[0];
  }

  /** The search for the entries goes past both header lines. */
  lemma HeaderFinds(count: nat, rest: string)
    ensures FindText(HeaderText(count, rest), Key("entries"))
            == 4 + |NumberLine("  ", "version", 1, ",\n", "")| + |NumberLine("  ", "count", count, ",\n", "")|
  {
    hide NumberLine, FindText, Key, Unquoted, FieldName;
    EntriesKeyFound(rest);
    HeaderWords();
    var t := "  \"entries\": [\n" + rest;
    SkipNumberLine("  ", "count", count, ",\n", t, "entries");
    var n1 := NumberLine("  ", "count", count, ",\n", t);
    SkipNumberLine("  ", "version", 1, ",\n", n1, "entries");
    FindSkips("{\n", NumberLine("  ", "version", 1, ",\n", n1), "entries");
  }

  lemma HeaderRest(count: nat, rest: string)
    ensures var i := 4 + |NumberLine("  ", "version", 1, ",\n", "")| + |NumberLine("  ", "count", count, ",\n", "")|;
            i < |HeaderText(count, rest)| && HeaderText(count, rest)[i..] == "\"entries\": [\n" + rest
  {
    hide NumberLine;
    var a, b := NumberLine("  ", "version", 1, ",\n", ""), NumberLine("  ", "count", count, ",\n", "");
    var u := "\"entries\": [\n" + rest;
    var t := "  \"entries\": [\n" + rest;
    assert t == "  " + u;
    WholeNumberLine("  ", "count", count, ",\n", t);
    WholeNumberLine("  ", "version", 1, ",\n", b + t);
    var s := HeaderText(count, rest);
    assert s == "{\n" + (a + (b + ("  " + u)));
    assert s[2..] == a + (b + ("  " + u));
    assert s[2..][|a|..] == b + ("  " + u);
    assert s[2..][|a|..][|b|..] == "  " + u;
    assert s[2..][|a|..][|b|..][2..] == u;
    assert s[2..][|a|..][|b|..][2..] == s[2 + |a| + |b| + 2..];
  }

  lemma NumberAfterBrace(key: string, n: int, rest: string, end: nat)
    requires FieldName(key) && end > 4
    ensures ExtractInt("{\n" + NumberLine("  ", key, n, ",\n", rest), end, key) == n
  {
    hide NumberLine, ExtractInt, FieldName;
    AfterBrace(NumberLine("  ", key, n, ",\n", rest), end, key, 1);
    NumberLineValue("  ", key, n, ",\n", rest, end - 2);
  }

  /** The header holds the version and the number of entries, though loading asks for neither. */
  lemma HeaderFieldsAreThere(count: nat, rest: string, end: nat)
    requires end > 4 + |NumberLine("  ", "version", 1, ",\n", "")|
    ensures ExtractInt(HeaderText(count, rest), end, "version") == 1
    ensures ExtractInt(HeaderText(count, rest), end, "count") == count
  {
    hide NumberLine, ExtractInt;
    NumberLineLong("  ", "version", 1, ",\n");
    var t := NumberLine("  ", "count", count, ",\n", "  \"entries\": [\n" + rest);
    NumberAfterBrace("version", 1, t, end);
    AfterBrace(NumberLine("  ", "version", 1, ",\n", t), end, "count", 1);
    AfterNumberLine("  ", "version", 1, ",\n", t, end - 2, "count");
    NumberLineValue("  ", "count", count, ",\n", "  \"entries\": [\n" + rest,
                    end - 2 - |NumberLine("  ", "version", 1, ",\n", "")|);
  }

  lemma EntriesBracket(rest: string)
    ensures var u := "\"entries\": [\n" + rest;
            FindChar(u, '[') == 11 && 11 < |u| && u[12..] == "\n" + rest
  {
    var u := "\"entries\": [\n" + rest;
    assert u == "\"entries\": " + ("[\n" + rest);
    CharSkips("\"entries\": ", "[\n" + rest, '[');
    assert ("[\n" + rest)[0] == '[';
  }

  lemma LoadStarts(s: string, i: nat, t: string, j: nat, cis: seq<Ci>, now: int)
    requires FindText(s, Key("entries")) == i < |s| && s[i..] == t
    requires FindChar(t, '[') == j < |t|
    ensures LoadText(s, cis, now) == LoadFrom(t[j + 1..], cis, now)
  {
    hide LoadFrom, FindText, FindChar, Key;
  }

  lemma HeaderLoads(count: nat, rest: string, cis: seq<Ci>, now: int)
    ensures LoadText(HeaderText(count, rest), cis, now) == LoadFrom("\n" + rest, cis, now)
  {
    hide *;
    HeaderFinds(count, rest);
    HeaderRest(count, rest);
    EntriesBracket(rest);
    var i := 4 + |NumberLine("  ", "version", 1, ",\n", "")| + |NumberLine("  ", "count", count, ",\n", "")|;
    LoadStarts(HeaderText(count, rest), i, "\"entries\": [\n" + rest, 11, cis, now);
  }

  /**
   Loading what was saved restores name, role, model, port and status of every entry, in reversed
   order.
   */
  lemma LoadUndoesSave(cis: seq<Ci>, now: int)
    requires Saveable(cis)
    ensures var back := LoadText(SaveText(cis), [], now);
            && |back| == |cis|
            && (forall i :: 0 <= i < |cis| ==> CoreOf(back[i]) == CoreOf(cis[|cis| - 1 - i]))
            && Saveable(back)
  {
    hide LoadText, LoadFrom, EntriesText, HeaderText, Filler, Clean, Restored;
    HeaderLoads(|cis|, EntriesText(cis), [], now);
    LineEndsAreFiller();
    EntriesLoad("\n", cis, [], now);
    var back := LoadText(SaveText(cis), [], now);
    assert back == RestoredAll(cis, now);
    forall i | 0 <= i < |back|
      ensures CoreOf(back[i]) == CoreOf(cis[|cis| - 1 - i]) && Clean(back[i])
    {
      assert cis[|cis| - 1 - i] in cis;
    }
    forall i, j | 0 <= i < j < |back|
      ensures back[i].name != back[j].name
    {
      assert CoreOf(back[i]) == CoreOf(cis[|cis| - 1 - i]) && CoreOf(back[j]) == CoreOf(cis[|cis| - 1 - j]);
    }
  }

  // ---------------------------------------------------------------- what a load can yield

  lemma FirstCharOnly(s: string, c: char)
    ensures c !in s[..FindChar(s, c)]
  {
  }

  /** A value is read from in front of the room's end and holds no quote. */
  lemma ValueWithin(a: string, room: int, size: nat)
    requires size > 0
    ensures var v := ValueAfter(a, room, size);
            Unquoted(v) && |v| < size && forall c <- v :: exists k :: 0 <= k < |a| && k < room && a[k] == c
  {
    var j := FindChar(a, '"');
    var v := ValueAfter(a, room, size);
    if v != "" {
      var b := a[j + 1..];
      FirstCharOnly(b, '"');
      hide FindChar;
      forall k | 0 <= k < |v|
        ensures v[k] != '"' && a[j + 1 + k] == v[k] && j + 1 + k < room
      {
        assert v[k] == b[..FindChar(b, '"')][k];
      }
    }
  }

  /** Within an entry that ends at its first closing brace, no field holds a quote or such a brace. */
  lemma FieldIsClean(s: string, f: string, size: nat)
    requires size > 0
    ensures var v := ExtractString(s, FindChar(s, '}'), f, size);
            Unquoted(v) && |v| < size && '}' !in v
  {
    hide FindText, FindChar, ValueAfter, Key;
    var end := FindChar(s, '}');
    var i := FindText(s, Key(f));
    if i < |s| && i < end {
      var a := s[i + |Key(f)|..];
      ValueWithin(a, end - i - |Key(f)|, size);
      FirstCharOnly(s, '}');
      forall k | 0 <= k < |a| && k < end - i - |Key(f)|
        ensures a[k] != '}'
      {
        assert a[k] == s[..end][i + |Key(f)| + k];
      }
    }
  }

  lemma EntryKeepsSaveable(s: string, cis: seq<Ci>, now: int)
    requires Saveable(cis)
    ensures Saveable(LoadEntry(s, FindChar(s, '}'), cis, now))
  {
    FieldIsClean(s, "name", NAME_MAX);
    FieldIsClean(s, "role", ROLE_MAX);
    FieldIsClean(s, "model", MODEL_MAX);
    hide FindChar, ExtractString, ExtractInt;
    var end := FindChar(s, '}');
    var name := ExtractString(s, end, "name", NAME_MAX);
    var role := ExtractString(s, end, "role", ROLE_MAX);
    var model := ExtractString(s, end, "model", MODEL_MAX);
    var port := ExtractInt(s, end, "port");
    if name != "" && role != "" && model != "" && port > 0 && AddReply(cis, name) == Success {
      AddedIsSaveable(cis, name, role, model, port, ExtractInt(s, end, "status"), now);
    }
  }

  lemma AddedIsSaveable(cis: seq<Ci>, name: string, role: string, model: string, port: int, status: Status, now: int)
    requires Saveable(cis) && AddReply(cis, name) == Success && port > 0
    requires CleanText(name, NAME_MAX) && CleanText(role, ROLE_MAX) && CleanText(model, MODEL_MAX)
    ensures Saveable(SetStatus(Add(cis, name, role, model, port, now), name, status))
  {
    assert |name| < NAME_MAX && |role| < ROLE_MAX && |model| < MODEL_MAX;
    assert Unquoted(HOST) && '}' !in HOST;
    hide CleanText, Unquoted;
    var c := NewCi(name, role, model, port, now).(status := status);
    assert forall k :: 0 <= k < |cis| ==> cis[k].name != name;
    AddedEntry(cis, c, now);
    assert Clean(Restored(c, now));
  }

  lemma {:induction false} LoadFromSaveable(s: string, cis: seq<Ci>, now: int)
    requires Saveable(cis)
    ensures Saveable(LoadFrom(s, cis, now))
    decreases |s|
  {
    hide Saveable, LoadEntry, FindChar;
    if s != "" && s[0] != ']' {
      var t := SkipFiller(s);
      var end := FindChar(t, '}');
      if t != "" && t[0] == '{' && end < |t| {
        EntryKeepsSaveable(t, cis, now);
        LoadFromSaveable(t[end + 1..], LoadEntry(t, end, cis, now), now);
      }
    }
  }

  /** Whatever text is loaded, the registry can be saved and loaded again without loss. */
  lemma LoadedIsSaveable(s: string, now: int)
    ensures Saveable(LoadText(s, [], now))
  {
    hide FindText, FindChar, LoadFrom;
    var i := FindText(s, Key("entries"));
    if i < |s| {
      var t := s[i..];
      var j := FindChar(t, '[');
      if j < |t| {
        LoadFromSaveable(t[j + 1..], [], now);
      }
    }
  }

  predicate RestoresAll(cis: seq<Ci>, back: seq<Ci>) {
    |back| == |cis| && forall i :: 0 <= i < |cis| ==> CoreOf(back[i]) == CoreOf(cis[|cis| - 1 - i])
  }

  /**
   For entries whose host the format can carry, as the registry's own hosts are, loading restores what
   was saved if and only if names are distinct, at most 50 entries exist, and every name, role and
   model is nonempty, short enough and without quote and closing brace, and every port positive.
   */
  lemma LoadUndoesSaveExactly(cis: seq<Ci>, now: int)
    requires forall c <- cis :: Unquoted(c.host) && '}' !in c.host
    ensures RestoresAll(cis, LoadText(SaveText(cis), [], now)) <==> Saveable(cis)
  {
    hide LoadText, SaveText;
    var back := LoadText(SaveText(cis), [], now);
    if Saveable(cis) {
      LoadUndoesSave(cis, now);
    }
    LoadedIsSaveable(SaveText(cis), now);
    if RestoresAll(cis, back) {
      RestoredFromSaveable(cis, back);
    }
  }

  lemma RestoredFromSaveable(cis: seq<Ci>, back: seq<Ci>)
    requires forall c <- cis :: Unquoted(c.host) && '}' !in c.host
    requires RestoresAll(cis, back) && Saveable(back)
    ensures Saveable(cis)
  {
    hide CleanText, Unquoted;
    var n := |cis|;
    forall i | 0 <= i < n
      ensures Clean(cis[i])
    {
      assert CoreOf(back[n - 1 - i]) == CoreOf(cis[n - 1 - (n - 1 - i)]);
      assert back[n - 1 - i] in back;
    }
    forall i, j | 0 <= i < j < n
      ensures cis[i].name != cis[j].name
    {
      assert CoreOf(back[n - 1 - i]) == CoreOf(cis[n - 1 - (n - 1 - i)]);
      assert CoreOf(back[n - 1 - j]) == CoreOf(cis[n - 1 - (n - 1 - j)]);
    }
  }

  /** Two save-and-load rounds restore the order as well. */
  lemma TwoRoundsRestoreOrder(cis: seq<Ci>, now: int, later: int)
    requires Saveable(cis)
    ensures var twice := LoadText(SaveText(LoadText(SaveText(cis), [], now)), [], later);
            |twice| == |cis| && forall i :: 0 <= i < |cis| ==> CoreOf(twice[i]) == CoreOf(cis[i])
  {
    hide LoadText, SaveText, Clean, CoreOf;
    LoadUndoesSave(cis, now);
    var once := LoadText(SaveText(cis), [], now);
    LoadUndoesSave(once, later);
    forall i | 0 <= i < |cis|
      ensures CoreOf(LoadText(SaveText(once), [], later)[i]) == CoreOf(cis[i])
    {
      assert CoreOf(once[|cis| - 1 - i]) == CoreOf(cis[|cis| - 1 - (|cis| - 1 - i)]);
    }
  }

  // ---------------------------------------------------------------- other layouts

  /** Blanks, line ends, tabs and commas. */
  predicate Between(s: string) {
    forall c <- s :: c == ' ' || c == '\n' || c == '\t' || c == ','
  }

  /** Entries as they are saved, each behind anything of that kind, and what follows the last one. */
  function Laid(fillers: seq<string>, cis: seq<Ci>, end: string): string
    requires |fillers| == |cis|
    decreases |cis|
  {
    if cis == [] then end else fillers[0] + EntryText(cis[0], Laid(fillers[1..], cis[1..], end))
  }

  lemma EntryBehind(f: string, c: Ci, rest: string, loaded: seq<Ci>, now: int)
    requires Between(f) && Clean(c) && |loaded| < MAX_CIS
    requires forall k :: 0 <= k < |loaded| ==> loaded[k].name != c.name
    ensures LoadFrom(f + EntryText(c, rest), loaded, now) == LoadFrom(rest, [Restored(c, now)] + loaded, now)
  {
    hide *;
    BetweenIsFiller(f);
    EntryEnds(c, rest);
    EntryLoads(c, rest, loaded, now);
    StepBehindFiller(f, EntryText(c, rest), EntryLength(c), loaded, now);
  }

  lemma StepBehindFiller(f: string, t: string, end: nat, loaded: seq<Ci>, now: int)
    requires Filler(f) && t != "" && t[0] == '{' && !IsFiller(t[0]) && end < |t| && FindChar(t, '}') == end
    ensures LoadFrom(f + t, loaded, now) == LoadFrom(t[end + 1..], LoadEntry(t, end, loaded, now), now)
  {
    FillerIsSkipped(f, t);
    NoBracketInFront(f, t);
    hide *;
    LoadStep(f + t, loaded, now, t, end);
  }

  lemma BetweenIsFiller(f: string)
    requires Between(f)
    ensures Filler(f)
  {
  }

  lemma NoBracketInFront(f: string, t: string)
    requires Filler(f) && t != "" && t[0] == '{'
    ensures f + t != "" && (f + t)[0] != ']'
  {
    if f != "" {
      assert f[0] in f;
    }
  }

  lemma NothingMore(f: string, z: string, loaded: seq<Ci>, now: int)
    requires Between(f) && (z == "" || (z[0] != '{' && !Between(z[..1])))
    ensures LoadFrom(f + z, loaded, now) == loaded
  {
    BetweenIsFiller(f);
    assert z != "" ==> z[0] in z[..1];
    FillerIsSkipped(f, z);
  }

  /**
   Loading does not depend on the layout between the entries: any run of blanks, line ends, tabs and
   commas does, and anything else that is no opening brace ends the list.
   */
  lemma {:induction false} AnyLayoutLoads(fillers: seq<string>, cis: seq<Ci>, last: string, z: string, loaded: seq<Ci>,
                                          now: int)
    requires |fillers| == |cis| && (forall f <- fillers :: Between(f)) && Between(last)
    requires z == "" || (z[0] != '{' && !Between(z[..1]))
    requires UniqueNames(cis) && (forall c <- cis :: Clean(c)) && |loaded| + |cis| <= MAX_CIS
    requires forall i, k :: 0 <= i < |cis| && 0 <= k < |loaded| ==> cis[i].name != loaded[k].name
    ensures LoadFrom(Laid(fillers, cis, last + z), loaded, now) == RestoredAll(cis, now) + loaded
    decreases |cis|
  {
    hide LoadFrom, EntryText, Restored, Between;
    if cis == [] {
      NothingMore(last, z, loaded, now);
      assert RestoredAll(cis, now) + loaded == loaded;
    } else {
      var c := cis[0];
      EntryBehind(fillers[0], c, Laid(fillers[1..], cis[1..], last + z), loaded, now);
      NewNames(cis, loaded, now);
      AnyLayoutLoads(fillers[1..], cis[1..], last, z, [Restored(c, now)] + loaded, now);
      assert RestoredAll(cis[1..], now) + ([Restored(c, now)] + loaded)
          == RestoredAll(cis[1..], now) + [Restored(c, now)] + loaded;
    }
  }

  /** The quoted field name with its colon begins nowhere in the first `end` characters. */
  predicate Lacks(s: string, end: nat, field: string) {
    forall j :: 0 <= j < end && j < |s| ==> !("\"" + field + "\":" <= s[j..])
  }

  lemma {:induction false} FoundLater(s: string, end: nat, pat: string)
    requires forall j :: 0 <= j < end && j < |s| ==> !(pat <= s[j..])
    ensures FindText(s, pat) >= end || FindText(s, pat) == |s|
    decreases |s|
  {
    if s != "" && end > 0 {
      assert s[0..] == s;
      forall j | 0 <= j < end - 1 && j < |s[1..]|
        ensures !(pat <= s[1..][j..])
      {
        assert s[1..][j..] == s[j + 1..];
      }
      FoundLater(s[1..], end - 1, pat);
    }
  }

  /** An entry that lacks its name, role, model or port does not get it from a later one: it is left out. */
  lemma LackingEntryIsLeftOut(s: string, end: nat, cis: seq<Ci>, now: int, field: string)
    requires field in ["name", "role", "model", "port"] && Lacks(s, end, field)
    ensures LoadEntry(s, end, cis, now) == cis
  {
    hide ExtractString, ExtractInt, LoadEntry;
    NothingFound(s, end, field);
    NeedsAllFour(s, end, cis, now);
  }

  lemma NothingFound(s: string, end: nat, field: string)
    requires Lacks(s, end, field)
    ensures ExtractInt(s, end, field) == 0
    ensures forall size: nat :: size > 0 ==> ExtractString(s, end, field, size) == ""
  {
    FoundLater(s, end, Key(field));
    hide FindText, ScanInt, ValueAfter;
  }

  lemma NeedsAllFour(s: string, end: nat, cis: seq<Ci>, now: int)
    ensures ExtractString(s, end, "name", NAME_MAX) == "" || ExtractString(s, end, "role", ROLE_MAX) == ""
            || ExtractString(s, end, "model", MODEL_MAX) == "" || ExtractInt(s, end, "port") == 0 ==>
              LoadEntry(s, end, cis, now) == cis
  {
    hide ExtractString, ExtractInt, AddReply, SetStatus, Add;
  }
}
