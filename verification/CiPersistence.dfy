/**
 Saving the CI registry as text and loading it back: src/daemon/argo_registry_persistence.c.
 A pointer into a NUL-terminated text is the rest of the text from there on.
 */
module CiPersistence {
  import opened Chains
  import opened CiRegistry
  import opened CStrings
  import opened Decimals

  // ---------------------------------------------------------------- saving

  /** One line with a string value, and what follows it. */
  function TextLine(key: string, value: string, rest: string): string {
    "      " + ("\"" + (key + ("\": \"" + (value + ("\",\n" + rest)))))
  }

  /** One line with a number, its indentation and line end, and what follows it. */
  function NumberLine(indent: string, key: string, n: int, end: string, rest: string): string {
    indent + ("\"" + (key + ("\": " + (PrintInt(n) + (end + rest)))))
  }

  function NumberLines(c: Ci, rest: string): string {
    NumberLine("      ", "port", c.port, ",\n",
      NumberLine("      ", "status", c.status, ",\n",
        NumberLine("      ", "registered_at", c.registeredAt, "\n", "    }" + rest)))
  }

  function TextLines(c: Ci, rest: string): string {
    TextLine("name", c.name, TextLine("role", c.role, TextLine("model", c.model, TextLine("host", c.host, rest))))
  }

  /** An entry from its opening brace to its closing brace, and what follows it. */
  function EntryText(c: Ci, rest: string): string {
    "{\n" + TextLines(c, NumberLines(c, rest))
  }

  /** The entries and the footer. */
  function EntriesText(cis: seq<Ci>): string {
    if cis == [] then "  ]\n}\n"
    else "    " + EntryText(cis[0], (if |cis| > 1 then ",\n" else "\n") + EntriesText(cis[1..]))
  }

  function HeaderText(count: nat, rest: string): string {
    "{\n" + NumberLine("  ", "version", 1, ",\n", NumberLine("  ", "count", count, ",\n", "  \"entries\": [\n" + rest))
  }

  function SaveText(cis: seq<Ci>): string {
    HeaderText(|cis|, EntriesText(cis))
  }

  // ---------------------------------------------------------------- loading

  function Key(field: string): string {
    "\"" + field + "\":"
  }

  /** extract_string_field into a zeroed buffer; an empty string where it fails. */
  function ExtractString(s: string, end: nat, field: string, size: nat): string
    requires size > 0
  {
    var i := FindText(s, Key(field));
    if i == |s| || i >= end then ""
    else ValueAfter(s[i + |Key(field)|..], end - i - |Key(field)|, size)
  }

  /** The next quoted text of `a`, if it ends within `room` characters. */
  function ValueAfter(a: string, room: int, size: nat): string
    requires size > 0
  {
    var j := FindChar(a, '"');
    if j == |a| || j >= room then ""
    else
      var b := a[j + 1..];
      var k := FindChar(b, '"');
      if k == |b| || j + 1 + k >= room then "" else Cut(b[..k], size)
  }

  /** extract_int_field */
  function ExtractInt(s: string, end: nat, field: string): int {
    var i := FindText(s, Key(field));
    if i == |s| || i >= end then 0 else ScanInt(s[i + |Key(field)|..])
  }

  predicate IsFiller(c: char) {
    c == ' ' || c == '\n' || c == '\t' || c == ','
  }

  function SkipFiller(s: string): (r: string)
    ensures |r| <= |s|
  {
    if s != "" && IsFiller(s[0]) then SkipFiller(s[1..]) else s
  }

  /** The entry starting at `s` and ending `end` characters ahead, added to the registry. */
  function LoadEntry(s: string, end: nat, cis: seq<Ci>, now: int): seq<Ci> {
    var name := ExtractString(s, end, "name", NAME_MAX);
    var role := ExtractString(s, end, "role", ROLE_MAX);
    var model := ExtractString(s, end, "model", MODEL_MAX);
    var port := ExtractInt(s, end, "port");
    var status := ExtractInt(s, end, "status");
    if name != "" && role != "" && model != "" && port > 0 && AddReply(cis, name) == Success
    then SetStatus(Add(cis, name, role, model, port, now), name, status)
    else cis
  }

  function LoadFrom(s: string, cis: seq<Ci>, now: int): seq<Ci>
    decreases |s|
  {
    if s == "" || s[0] == ']' then cis
    else
      var t := SkipFiller(s);
      if t == "" || t[0] != '{' then cis
      else
        var end := FindChar(t, '}');
        if end == |t| then cis else LoadFrom(t[end + 1..], LoadEntry(t, end, cis, now), now)
  }

  function LoadText(s: string, cis: seq<Ci>, now: int): seq<Ci> {
    var i := FindText(s, Key("entries"));
    if i == |s| then cis
    else
      var t := s[i..];
      var j := FindChar(t, '[');
      if j == |t| then cis else LoadFrom(t[j + 1..], cis, now)
  }

  // ---------------------------------------------------------------- the methods

  /** registry_save_state, with the text in place of the file. */
  method SaveState(registry: Registry) returns (text: string)
    requires registry.Valid()
    ensures text == SaveText(registry.Contents())
  {
    hide EntryText, HeaderText, Items;
    ghost var all := registry.Contents();
    text := HeaderText(registry.count, "");
    HeaderSplit(|all|, EntriesText(all));
    var node := registry.head;
    ghost var at := 0;
    assert all[0..] == all;
    while node != null
      invariant at <= |registry.spine| && node == NodeAt(registry.spine, at)
      invariant text + EntriesText(all[at..]) == SaveText(all)
      decreases |registry.spine| - at
    {
      var c := node.item;
      NextEntry(text, all, at);
      text := text + ("    " + EntryText(c, if node.next != null then ",\n" else "\n"));
      node := node.next;
      at := at + 1;
    }
    text := text + "  ]\n}\n";
  }

  lemma NextEntry(text: string, all: seq<Ci>, at: nat)
    requires at < |all|
    ensures text + EntriesText(all[at..])
            == text + ("    " + EntryText(all[at], if at + 1 < |all| then ",\n" else "\n")) + EntriesText(all[at + 1..])
  {
    hide EntryText;
    var end := if at + 1 < |all| then ",\n" else "\n";
    var more := EntriesText(all[at + 1..]);
    assert all[at..][1..] == all[at + 1..];
    EntrySplit(all[at], end, more);
    assert "    " + (EntryText(all[at], end) + more) == ("    " + EntryText(all[at], end)) + more;
  }

  lemma Associate(a: string, b: string, c: string)
    ensures a + (b + c) == (a + b) + c
  {
  }

  lemma TextLineSplit(key: string, value: string, a: string, b: string)
    ensures TextLine(key, value, a + b) == TextLine(key, value, a) + b
  {
    Associate("\",\n", a, b);
    Associate(value, "\",\n" + a, b);
    Associate("\": \"", value + ("\",\n" + a), b);
    Associate(key, "\": \"" + (value + ("\",\n" + a)), b);
    Associate("\"", key + ("\": \"" + (value + ("\",\n" + a))), b);
    Associate("      ", "\"" + (key + ("\": \"" + (value + ("\",\n" + a)))), b);
  }

  lemma NumberLineSplit(indent: string, key: string, n: int, end: string, a: string, b: string)
    ensures NumberLine(indent, key, n, end, a + b) == NumberLine(indent, key, n, end, a) + b
  {
    hide PrintInt;
    var s := PrintInt(n);
    Associate(end, a, b);
    Associate(s, end + a, b);
    Associate("\": ", s + (end + a), b);
    Associate(key, "\": " + (s + (end + a)), b);
    Associate("\"", key + ("\": " + (s + (end + a))), b);
    Associate(indent, "\"" + (key + ("\": " + (s + (end + a)))), b);
  }

  /** The text of an entry goes in front of whatever follows it. */
  lemma EntrySplit(c: Ci, a: string, b: string)
    ensures EntryText(c, a + b) == EntryText(c, a) + b
  {
    hide TextLine, NumberLine;
    Associate("    }", a, b);
    var r3 := "    }" + a;
    NumberLineSplit("      ", "registered_at", c.registeredAt, "\n", r3, b);
    var r2 := NumberLine("      ", "registered_at", c.registeredAt, "\n", r3);
    NumberLineSplit("      ", "status", c.status, ",\n", r2, b);
    var r1 := NumberLine("      ", "status", c.status, ",\n", r2);
    NumberLineSplit("      ", "port", c.port, ",\n", r1, b);
    var r0 := NumberLine("      ", "port", c.port, ",\n", r1);
    TextLineSplit("host", c.host, r0, b);
    var h := TextLine("host", c.host, r0);
    TextLineSplit("model", c.model, h, b);
    var m := TextLine("model", c.model, h);
    TextLineSplit("role", c.role, m, b);
    var r := TextLine("role", c.role, m);
    TextLineSplit("name", c.name, r, b);
    Associate("{\n", TextLine("name", c.name, r), b);
  }

  lemma HeaderSplit(count: nat, b: string)
    ensures HeaderText(count, b) == HeaderText(count, "") + b
  {
    hide NumberLine;
    var r2 := "  \"entries\": [\n" + "";
    assert "  \"entries\": [\n" + b == r2 + b;
    NumberLineSplit("  ", "count", count, ",\n", r2, b);
    var r1 := NumberLine("  ", "count", count, ",\n", r2);
    NumberLineSplit("  ", "version", 1, ",\n", r1, b);
    Associate("{\n", NumberLine("  ", "version", 1, ",\n", r1), b);
  }

  /** registry_load_state, with the text in place of the file. */
  method LoadState(registry: Registry, json: string, now: int)
    requires registry.Valid()
    modifies registry, registry.spine
    ensures registry.Valid() && registry.Contents() == LoadText(json, old(registry.Contents()), now)
  {
    hide FindText, FindChar, Key, LoadEntry, Chain, Items;
    var entriesStart := FindText(json, Key("entries"));
    if entriesStart == |json| {
      return;
    }
    var rest := json[entriesStart..];
    var bracket := FindChar(rest, '[');
    if bracket == |rest| {
      return;
    }
    var ptr := rest[bracket + 1..];
    while ptr != "" && ptr[0] != ']'
      invariant registry.Valid()
      invariant forall i :: 0 <= i < |registry.spine| ==>
        registry.spine[i] in old(registry.spine) || fresh(registry.spine[i])
      invariant LoadFrom(ptr, registry.Contents(), now) == LoadText(json, old(registry.Contents()), now)
      decreases |ptr|
    {
      ghost var start := ptr;
      while ptr != "" && IsFiller(ptr[0])
        invariant |ptr| <= |start| && SkipFiller(ptr) == SkipFiller(start)
        decreases |ptr|
      {
        ptr := ptr[1..];
      }
      if ptr == "" || ptr[0] != '{' {
        break;
      }
      var entryEnd := FindChar(ptr, '}');
      if entryEnd == |ptr| {
        break;
      }
      LoadOne(registry, ptr, entryEnd, now);
      ptr := ptr[entryEnd + 1..];
    }
  }

  method LoadOne(registry: Registry, ptr: string, entryEnd: nat, now: int)
    requires registry.Valid()
    modifies registry, registry.spine
    ensures registry.Valid() && registry.Contents() == LoadEntry(ptr, entryEnd, old(registry.Contents()), now)
    ensures forall i :: 0 <= i < |registry.spine| ==>
      registry.spine[i] in old(registry.spine) || fresh(registry.spine[i])
  {
    hide ExtractString, ExtractInt, Find, SetStatus, Chain, Items;
    var name := ExtractString(ptr, entryEnd, "name", NAME_MAX);
    var role := ExtractString(ptr, entryEnd, "role", ROLE_MAX);
    var model := ExtractString(ptr, entryEnd, "model", MODEL_MAX);
    var port := ExtractInt(ptr, entryEnd, "port");
    var status := ExtractInt(ptr, entryEnd, "status");
    if name != "" && role != "" && model != "" && port > 0 {
      var reply, added := registry.AddCi(name, role, model, port, now);
      if reply == Success {
        var _ := registry.UpdateStatus(name, status);
      }
    }
  }
}
