/** What survives writing a configuration with `toString()` and reading the text back with
    `Config(String)`: a store of plain top-level entries comes back unchanged, while a
    two-item list comes back as a different list. */
module RoundTrip {
  import opened Results
  import opened JavaText
  import opened LinkedMap
  import opened Config
  import opened ConfigParser
  import opened ConfigWriter
  import Compatibility

  /** A key that reads back as itself at top level: it has no character at or below a
      space, no dot, and does not start a comment. */
  predicate PlainKey(k: string) {
    && k != [] && k[0] != '#' && '.' !in k
    && forall i :: 0 <= i < |k| ==> !IsTrimmable(k[i])
  }

  /** A value text that reads back as itself: not blank at either end, not ending like a
      header, free of tabs and line breaks. */
  predicate Readable(t: string) {
    && t != [] && !IsTrimmable(t[0]) && !IsTrimmable(t[|t| - 1]) && t[|t| - 1] != ':'
    && '\t' !in t && '\n' !in t
  }

  /** A value whose rendering reads back as itself: an unbracketed scalar, the empty list,
      or a one-item list whose item has no brackets and no backslash (so it cannot hold
      the six-character mark). */
  predicate PlainValue(v: Value) {
    match v
    case Scalar(t) => Readable(t) && !(StartsWith(t, OPEN_LIST_MARK) && EndsWith(t, CLOSE_LIST_MARK))
    case List(items) =>
      items == [] ||
      (&& |items| == 1 && items[0] != "" && '[' !in items[0] && ']' !in items[0]
       && '\\' !in items[0] && '\t' !in items[0] && '\n' !in items[0])
  }

  /** A plain value's rendering is readable and parses back to the value. */
  lemma {:induction false} ValueReads(v: Value)
    requires PlainValue(v)
    ensures Readable(ValueText(v))
    ensures ParseValue(ValueText(v)) == v
  {
    if v.List? {
      var p := if v.items == [] then "" else v.items[0];
      IndexOfAbsent(p, LIST_SPLIT_MARK);
      ListRoundTrip(p);
      assert ValueText(v) == OPEN_LIST_MARK + p + CLOSE_LIST_MARK;
    }
  }

  /** The line `toString()` writes for a top-level entry, without its line break. */
  function Line(b: Binding<Value>): string {
    b.key + ASSIGN_MARK + ValueText(b.value)
  }

  function Lines(entries: Store): (r: seq<string>)
    ensures |r| == |entries|
    ensures forall i :: 0 <= i < |entries| ==> r[i] == Line(entries[i])
  {
    seq(|entries|, i requires 0 <= i < |entries| => Line(entries[i]))
  }

  /** A plain line has no tab to expand, no blank at either end, and its first assign
      mark right after the key. */
  lemma {:induction false} PlainLineShape(k: string, t: string)
    requires PlainKey(k) && Readable(t)
    ensures Untab(k + ASSIGN_MARK + t) == k + ASSIGN_MARK + t
    ensures Trim(k + ASSIGN_MARK + t) == k + ASSIGN_MARK + t
    ensures LeadingSpaces(k + ASSIGN_MARK + t) == 0
    ensures IndexOf(k + ASSIGN_MARK + t, ASSIGN_MARK) == |k|
  {
    var raw := k + ASSIGN_MARK + t;
    PlainLineUntabbed(k, t);
    TrimKeeps(raw);
    assert ' ' !in k;
    IndexOfAfter(k, ASSIGN_MARK, t);
  }

  lemma {:induction false} PlainLineUntabbed(k: string, t: string)
    requires PlainKey(k) && Readable(t)
    ensures Untab(k + ASSIGN_MARK + t) == k + ASSIGN_MARK + t
  {
    var raw := k + ASSIGN_MARK + t;
    assert '\t' !in k && '\t' !in ASSIGN_MARK;
    assert '\t' !in raw;
    ContainsChar(raw, '\t');
  }

  /** Without its spaces, a plain line starts with the key's first character and ends with
      the value's last one. */
  lemma {:induction false} PlainLineSqueezed(k: string, t: string)
    requires PlainKey(k) && Readable(t)
    ensures var squeezed := RemoveSpaces(k + ASSIGN_MARK + t);
            |squeezed| >= 2 && squeezed[0] == k[0] && squeezed[|squeezed| - 1] == t[|t| - 1]
  {
    assert ' ' !in k;
    RemoveSpacesNone(k);
    SqueezedEnd(t);
    RemoveSpacesConcat(k, ASSIGN_MARK);
    RemoveSpacesConcat(k + ASSIGN_MARK, t);
    SqueezedMark();
  }

  /** Without its spaces, a text that ends in a non-space still ends in that character. */
  lemma {:induction false} SqueezedEnd(t: string)
    requires t != [] && t[|t| - 1] != ' '
    ensures RemoveSpaces(t) != [] && RemoveSpaces(t)[|RemoveSpaces(t)| - 1] == t[|t| - 1]
  {
    var front := t[..|t| - 1];
    assert t == front + [t[|t| - 1]];
    RemoveSpacesConcat(front, [t[|t| - 1]]);
    RemoveSpacesNone([t[|t| - 1]]);
  }

  lemma {:induction false} SqueezedMark()
    ensures RemoveSpaces(ASSIGN_MARK) == "="
  {
    assert ASSIGN_MARK == " " + "=" + " ";
    RemoveSpacesConcat(" " + "=", " ");
    RemoveSpacesConcat(" ", "=");
    RemoveSpacesNone("=");
  }

  /** At top level, a plain line stores its key with its value and nothing else changes. */
  lemma {:induction false} LineReads(st: ParseState, b: Binding<Value>)
    requires st.section == "" && st.indent == 0
    requires PlainKey(b.key) && PlainValue(b.value)
    ensures Step(st, Line(b)) == Ok(ParseState("", 0, Put(st.store, b.key, b.value), st.sections))
  {
    ValueReads(b.value);
    LineStores(st, b.key, ValueText(b.value));
  }

  lemma {:induction false} LineStores(st: ParseState, k: string, t: string)
    requires st.section == "" && st.indent == 0
    requires PlainKey(k) && Readable(t)
    ensures Step(st, k + ASSIGN_MARK + t) == Ok(ParseState("", 0, Put(st.store, k, ParseValue(t)), st.sections))
  {
    var raw := k + ASSIGN_MARK + t;
    PlainLineShape(k, t);
    LineIsEntry(k, t);
    TrimKeeps(t);
    AroundMark(k, t);
    EntryOfParts(st, raw, k, t);
  }

  /** The key and the value are the text before and after the assign mark. */
  lemma {:induction false} AroundMark(k: string, t: string)
    ensures (k + ASSIGN_MARK + t)[..|k|] == k && (k + ASSIGN_MARK + t)[|k| + |ASSIGN_MARK|..] == t
  {
  }

  /** An unindented entry line with nothing to untab or trim, whose first assign mark
      follows `k` and precedes `t`, stores `t` read as a value under `k` at the top level. */
  lemma {:induction false} EntryOfParts(st: ParseState, raw: string, k: string, t: string)
    requires st.section == "" && st.indent == 0
    requires IsEntry(raw) && Untab(raw) == raw && Trim(raw) == raw && LeadingSpaces(raw) == 0
    requires Contains(raw, ASSIGN_MARK) && IndexOf(raw, ASSIGN_MARK) == |k| && Trim(t) == t
    requires raw[..|k|] == k && raw[|k| + |ASSIGN_MARK|..] == t
    ensures Step(st, raw) == Ok(ParseState("", 0, Put(st.store, k, ParseValue(t)), st.sections))
  {
    DedentResets("", 0, 0);
    StepIsEntry(st, raw);
    var path, key, value := EntryStores(st, raw);
  }

  /** A plain line is neither a comment, nor a header, nor too short. */
  lemma {:induction false} LineIsEntry(k: string, t: string)
    requires PlainKey(k) && Readable(t)
    ensures IsEntry(k + ASSIGN_MARK + t) && LeadingSpaces(Untab(k + ASSIGN_MARK + t)) % INDENT_SIZE == 0
    ensures Contains(Trim(Untab(k + ASSIGN_MARK + t)), ASSIGN_MARK)
  {
    var raw := k + ASSIGN_MARK + t;
    PlainLineShape(k, t);
    PlainLineLengths(k, t);
    EntryByLengths(raw);
  }

  /** The space-free text of a plain line neither starts a comment nor ends like a header,
      and neither it nor the line is too short. */
  lemma {:induction false} PlainLineLengths(k: string, t: string)
    requires PlainKey(k) && Readable(t)
    ensures Untab(k + ASSIGN_MARK + t) == k + ASSIGN_MARK + t
    ensures |RemoveSpaces(k + ASSIGN_MARK + t)| >= 2 && RemoveSpaces(k + ASSIGN_MARK + t)[0] != '#'
    ensures !EndsWith(RemoveSpaces(k + ASSIGN_MARK + t), SECTION_MARK)
    ensures |Trim(k + ASSIGN_MARK + t)| >= MIN_ENTRY_LEN
  {
    PlainLineShape(k, t);
    PlainLineSqueezed(k, t);
    LastCharRulesOut(RemoveSpaces(k + ASSIGN_MARK + t), SECTION_MARK);
  }

  /** An untabbed line whose space-free text neither starts a comment nor ends with the
      section mark, and is long enough in characters, is an entry line. */
  lemma {:induction false} EntryByLengths(raw: string)
    requires Untab(raw) == raw
    requires |RemoveSpaces(raw)| >= 2 && RemoveSpaces(raw)[0] != '#'
    requires !EndsWith(RemoveSpaces(raw), SECTION_MARK)
    requires |Trim(raw)| >= MIN_ENTRY_LEN
    ensures IsEntry(raw)
  {
    var squeezed := RemoveSpaces(raw);
    assert !StartsWith(squeezed, "#");
    assert JavaLength(squeezed) >= 2;
    assert !IsSkipped(raw);
    assert !IsHeader(raw);
    assert JavaLength(Trim(raw)) >= MIN_ENTRY_LEN;
  }

  /** Reading the lines of plain entries with distinct keys appends those entries. */
  lemma {:induction false} LinesRead(prefix: Store, entries: Store, sections: SectionIndex)
    requires forall i :: 0 <= i < |entries| ==> PlainKey(entries[i].key) && PlainValue(entries[i].value)
    requires UniqueKeys(prefix + entries)
    ensures ParseLines(ParseState("", 0, prefix, sections), Lines(entries)) ==
            Ok(ParseState("", 0, prefix + entries, sections))
    decreases |entries|
  {
    if entries == [] {
      assert prefix + entries == prefix;
    } else {
      var b := entries[0];
      ShiftFirst(prefix, entries);
      LineReads(ParseState("", 0, prefix, sections), b);
      assert Lines(entries)[1..] == Lines(entries[1..]);
      LinesRead(prefix + [b], entries[1..], sections);
    }
  }

  /** Moving the first entry to the prefix keeps the keys distinct, and storing it appends
      it. */
  lemma {:induction false} ShiftFirst(prefix: Store, entries: Store)
    requires entries != [] && UniqueKeys(prefix + entries)
    ensures Put(prefix, entries[0].key, entries[0].value) == prefix + [entries[0]]
    ensures prefix + [entries[0]] + entries[1..] == prefix + entries
  {
    var all := prefix + entries;
    var e := entries[0];
    forall i | 0 <= i < |prefix|
      ensures prefix[i].key != e.key
    {
      assert all[i] == prefix[i] && all[|prefix|] == e;
    }
    assert Find(prefix, e.key) < 0;
    assert entries == [e] + entries[1..];
  }

  /** The text of plain entries is their lines, each closed by a line break. */
  lemma {:induction false} PlainTextJoins(entries: Store)
    requires entries != []
    ensures ConfigWriter.PlainText(entries) == Joined(Lines(entries) + [""], "\n")
    decreases |entries|
  {
    var ls := Lines(entries) + [""];
    if |entries| == 1 {
      assert ConfigWriter.PlainText(entries[1..]) == "";
      assert ls[1..] == [""];
    } else {
      PlainTextJoins(entries[1..]);
      assert ls[1..] == Lines(entries[1..]) + [""];
    }
  }

  /** Splitting the text of plain entries on the Unix line break gives back their lines. */
  lemma {:induction false} SplitPlainText(entries: Store)
    requires entries != []
    requires forall i :: 0 <= i < |entries| ==> PlainKey(entries[i].key) && PlainValue(entries[i].value)
    ensures Split(ConfigWriter.PlainText(entries), "\n") == Lines(entries)
  {
    var ls := Lines(entries);
    PlainTextJoins(entries);
    forall i | 0 <= i < |ls| ensures '\n' !in ls[i] && ls[i] != "" {
      LineUnbroken(entries[i]);
    }
    SplitOfTerminated(ls, "\n");
  }

  /** A plain entry's line is not empty and holds no line break. */
  lemma {:induction false} LineUnbroken(b: Binding<Value>)
    requires PlainKey(b.key) && PlainValue(b.value)
    ensures '\n' !in Line(b) && Line(b) != ""
  {
    ValueReads(b.value);
    assert '\n' !in b.key;
  }

  /** A store of plain top-level entries with distinct keys is written without failure and
      read back on a Unix line break as the same entries, in the same order, with an empty
      section index; the re-read configuration is unchanged for `save`. */
  lemma {:induction false} PlainRoundTrip(c: Config, order: seq<int>, hash: Store -> int)
    requires Enumerates(order, c.sections)
    requires UniqueKeys(c.store)
    requires forall i :: 0 <= i < |c.store| ==> PlainKey(c.store[i].key) && PlainValue(c.store[i].value)
    ensures ToString(c, order).Ok?
    ensures Parse(Some(ToString(c, order).value), Compatibility.Linux, hash) == Ok(Config(c.store, map[], hash(c.store)))
    ensures !SaveWrites(Parse(Some(ToString(c, order).value), Compatibility.Linux, hash).value, hash)
  {
    WritesPlain(c, order);
    if c.store == [] {
      EmptyTextReads(hash);
    } else {
      TextReads(c.store, hash);
    }
  }

  /** The plain text of plain entries with distinct keys reads back as those entries. */
  lemma {:induction false} TextReads(entries: Store, hash: Store -> int)
    requires entries != [] && UniqueKeys(entries)
    requires forall i :: 0 <= i < |entries| ==> PlainKey(entries[i].key) && PlainValue(entries[i].value)
    ensures Parse(Some(ConfigWriter.PlainText(entries)), Compatibility.Linux, hash) == Ok(Config(entries, map[], hash(entries)))
  {
    SplitPlainText(entries);
    LinesParse(entries);
    ParseOfLines(ConfigWriter.PlainText(entries), Lines(entries), entries, hash);
  }

  /** The lines of plain entries parse, from the start state, into exactly those entries. */
  lemma {:induction false} LinesParse(entries: Store)
    requires UniqueKeys(entries)
    requires forall i :: 0 <= i < |entries| ==> PlainKey(entries[i].key) && PlainValue(entries[i].value)
    ensures ParseLines(Start, Lines(entries)) == Ok(ParseState("", 0, entries, map[]))
  {
    assert [] + entries == entries;
    LinesRead([], entries, map[]);
  }

  lemma {:induction false} ParseOfLines(text: string, lines: seq<string>, entries: Store, hash: Store -> int)
    requires Split(text, "\n") == lines && ParseLines(Start, lines) == Ok(ParseState("", 0, entries, map[]))
    ensures Parse(Some(text), Compatibility.Linux, hash) == Ok(Config(entries, map[], hash(entries)))
  {
  }

  /** Plain entries are written as their plain text. */
  lemma {:induction false} WritesPlain(c: Config, order: seq<int>)
    requires Enumerates(order, c.sections)
    requires forall i :: 0 <= i < |c.store| ==> PlainKey(c.store[i].key)
    ensures ToString(c, order) == Ok(ConfigWriter.PlainText(c.store))
  {
    forall i | 0 <= i < |c.store| ensures !Contains(c.store[i].key, SECTION_SPLIT) {
      ContainsChar(c.store[i].key, '.');
    }
    WritePlain(c.sections, order, c.store, {}, "");
  }

  /** The empty text reads as the empty configuration. */
  lemma {:induction false} EmptyTextReads(hash: Store -> int)
    ensures Parse(Some(""), Compatibility.Linux, hash) == Ok(Config([], map[], hash([])))
  {
    IndexOfAbsent("", "\n");
    assert Split("", "\n") == [""];
    assert Step(Start, "") == Ok(Start);
  }

  /** Two list items that the writer and the reader treat as plain text: no brackets, no
      comma, no backslash, no tab or line break. */
  predicate ItemPair(a: string, b: string) {
    && a != "" && b != ""
    && '[' !in a && ']' !in a && ',' !in a && '\\' !in a && '\t' !in a && '\n' !in a
    && '[' !in b && ']' !in b && ',' !in b && '\\' !in b && '\t' !in b && '\n' !in b
  }

  /** The text `toString()` writes for a single top-level two-item list. */
  function PairText(k: string, a: string, b: string): string {
    k + ASSIGN_MARK + OPEN_LIST_MARK + a + LIST_SPLIT_MARK + b + CLOSE_LIST_MARK
  }

  /** A two-item list is written with the six-character mark between its items. */
  lemma {:induction false} TwoItemListWritten(k: string, a: string, b: string)
    requires PlainKey(k)
    ensures ToString(Config([Binding(k, List([a, b]))], map[], 0), []) == Ok(PairText(k, a, b) + "\n")
  {
    var c := Config([Binding(k, List([a, b]))], map[], 0);
    WritesPlain(c, []);
    PairPlainText(k, a, b);
  }

  lemma {:induction false} PairPlainText(k: string, a: string, b: string)
    ensures ConfigWriter.PlainText([Binding(k, List([a, b]))]) == PairText(k, a, b) + "\n"
  {
    OnePlainText(Binding(k, List([a, b])));
    PairValueText(a, b);
  }

  lemma {:induction false} OnePlainText(b: Binding<Value>)
    ensures ConfigWriter.PlainText([b]) == ConfigWriter.PlainLine(b)
  {
    assert [b][1..] == [];
  }

  lemma {:induction false} PairValueText(a: string, b: string)
    ensures ValueText(List([a, b])) == OPEN_LIST_MARK + a + LIST_SPLIT_MARK + b + CLOSE_LIST_MARK
  {
    assert [a, b][1..] == [b];
    assert Joined([a, b], LIST_SPLIT_MARK) == a + LIST_SPLIT_MARK + b;
  }

  /** The bracketed text of two items joined by the mark is cut at the comma and space
      inside the mark: the first item keeps `\Q`, the second starts with `\E`. */
  lemma {:induction false} MarkedListReads(a: string, b: string)
    requires ItemPair(a, b)
    ensures ParseValue(OPEN_LIST_MARK + a + LIST_SPLIT_MARK + b + CLOSE_LIST_MARK) ==
            List([a + "\\Q", "\\E" + b])
  {
    var p := a + LIST_SPLIT_MARK + b;
    assert OPEN_LIST_MARK + a + LIST_SPLIT_MARK + b + CLOSE_LIST_MARK == OPEN_LIST_MARK + p + CLOSE_LIST_MARK;
    StripOuter(p);
    MarkSplits(a, b);
  }

  /** Two items joined by the mark contain the mark and split at the comma and space
      inside it. */
  lemma {:induction false} MarkSplits(a: string, b: string)
    requires ItemPair(a, b)
    ensures Contains(a + LIST_SPLIT_MARK + b, LIST_SPLIT_MARK)
    ensures Split(a + LIST_SPLIT_MARK + b, LIST_SPLIT_MATCH) == [a + "\\Q", "\\E" + b]
  {
    IndexOfAfter(a, LIST_SPLIT_MARK, b);
    var parts := [a + "\\Q", "\\E" + b];
    assert Joined(parts, LIST_SPLIT_MATCH) == a + LIST_SPLIT_MARK + b by {
      assert parts[1..] == ["\\E" + b];
    }
    SplitOfJoined(parts, LIST_SPLIT_MATCH);
  }

  /** Reading the written text of a two-item list gives back a different list: the items
      carry the two halves of the mark. */
  lemma {:induction false} TwoItemListChanges(k: string, a: string, b: string, hash: Store -> int)
    requires PlainKey(k) && ItemPair(a, b)
    ensures var back := [Binding(k, List([a + "\\Q", "\\E" + b]))];
            Parse(Some(PairText(k, a, b) + "\n"), Compatibility.Linux, hash) == Ok(Config(back, map[], hash(back)))
    ensures List([a + "\\Q", "\\E" + b]) != List([a, b])
  {
    var line := PairText(k, a, b);
    var st := ParseState("", 0, [Binding(k, List([a + "\\Q", "\\E" + b]))], map[]);
    assert '\n' !in line;
    OneLineSplits(line);
    PairLineParses(k, a, b);
    ParseOfLines(line + "\n", [line], st.store, hash);
    assert |a + "\\Q"| != |a|;
  }

  /** A single line without line breaks, closed by one, splits back into that line. */
  lemma {:induction false} OneLineSplits(line: string)
    requires line != "" && '\n' !in line
    ensures Split(line + "\n", "\n") == [line]
  {
    var parts := [line] + [""];
    assert parts[1..] == [""];
    assert Joined(parts[1..], "\n") == "";
    assert Joined(parts, "\n") == line + "\n";
    SplitOfTerminated([line], "\n");
  }

  lemma {:induction false} PairLineParses(k: string, a: string, b: string)
    requires PlainKey(k) && ItemPair(a, b)
    ensures ParseLines(Start, [PairText(k, a, b)]) ==
            Ok(ParseState("", 0, [Binding(k, List([a + "\\Q", "\\E" + b]))], map[]))
  {
    var t := OPEN_LIST_MARK + a + LIST_SPLIT_MARK + b + CLOSE_LIST_MARK;
    var v := List([a + "\\Q", "\\E" + b]);
    assert PairText(k, a, b) == k + ASSIGN_MARK + t;
    assert Readable(t);
    assert Step(Start, PairText(k, a, b)) == Ok(ParseState("", 0, Put([], k, v), map[])) by {
      LineStores(Start, k, t);
      MarkedListReads(a, b);
    }
    assert Put([], k, v) == [Binding(k, v)];
    OneLineParses(PairText(k, a, b), ParseState("", 0, [Binding(k, v)], map[]));
  }

  lemma {:induction false} OneLineParses(line: string, st: ParseState)
    requires Step(Start, line) == Ok(st)
    ensures ParseLines(Start, [line]) == Ok(st)
  {
    assert [line][1..] == [];
  }

  /** `toString()` ends every line with `\n` alone, while on Windows and on the classic Mac
      the parser splits on `\r\n` and `\r`: there, a text without a carriage return,
      such as one `toString()` wrote, is read as one single line. */
  lemma {:induction false} OneLineElsewhere(text: string, os: Compatibility.OS)
    requires os != Compatibility.Linux && '\r' !in text
    ensures Split(text, os.LineBreak()) == [text]
  {
    assert os.LineBreak()[0] == '\r';
    IndexOfAbsent(text, os.LineBreak());
  }
}
