/** `Config(String)`: one forward pass over the lines of a text, carrying the current
    dotted section path (as text, the way the source keeps it in a `StringBuilder`) and
    the indent of the last header or entry. */
module ConfigParser {
  import opened Results
  import opened JavaText
  import opened LinkedMap
  import opened Config
  import Strings
  import Compatibility

  datatype ParseState = ParseState(section: string, indent: int, store: Store, sections: SectionIndex)

  /** Before the first line: no section, indent 0, nothing stored. */
  const Start: ParseState := ParseState("", 0, [], map[])

  const INDENT_ERROR: string := "Indent size must be a multiple of 4"

  /** `line.replace("\t", "    ")` */
  function Untab(line: string): string {
    Replace(line, "\t", "    ")
  }

  /** The number of leading space characters. */
  function LeadingSpaces(line: string): (n: nat)
    ensures n <= |line|
    ensures forall i :: 0 <= i < n ==> line[i] == ' '
    ensures n < |line| ==> line[n] != ' '
    decreases |line|
  {
    if |line| > 0 && line[0] == ' ' then 1 + LeadingSpaces(line[1..]) else 0
  }

  /** `Arrays.copyOf(parent, n)`: cut to `n` entries or padded with nulls, which
      `Strings.join` appends as the text "null". */
  function CopyOf(parent: seq<string>, n: nat): (r: seq<string>)
    ensures |r| == n
    ensures forall i :: 0 <= i < n ==> r[i] == if i < |parent| then parent[i] else "null"
  {
    if n <= |parent| then parent[..n] else parent + seq(n - |parent|, _ => "null")
  }

  /** "Reached end of section": when a line is indented less than the previous one, the
      path is emptied (indent 0, or a path of one segment) or cut to `indent / 4` segments. */
  function Dedent(section: string, indent: nat, current: int): (r: Result<string>)
    ensures r.Err? <==> indent < current && 0 < indent < INDENT_SIZE && IndexOf(section, SECTION_SPLIT) != -1
    ensures r.Err? ==> r.error == IndexOutOfBounds
    ensures indent >= current ==> r == Ok(section)
  {
    if indent < current then
      if indent == 0 || IndexOf(section, SECTION_SPLIT) == -1 then Ok("")
      else Strings.Join(0, CopyOf(Split(section, SECTION_SPLIT), indent / INDENT_SIZE), SECTION_SPLIT)
    else Ok(section)
  }

  /** `sections.computeIfAbsent(indent, ...).add(name)`: duplicates are kept. */
  function Register(sections: SectionIndex, indent: int, name: string): (r: SectionIndex)
    ensures r.Keys == sections.Keys + {indent}
    ensures forall d :: d in sections && d != indent ==> r[d] == sections[d]
    ensures name in r[indent]
    ensures indent in sections ==> r[indent] == sections[indent] + [name]
    ensures indent !in sections ==> r[indent] == [name]
  {
    sections[indent := (if indent in sections then sections[indent] else []) + [name]]
  }

  /** The full key of an entry: the section path, a dot, the local key; or just the local
      key at top level. */
  function SectionKey(path: string, local: string): string {
    if path == "" then local else path + SECTION_SPLIT + local
  }

  /** A comment line or a line whose non-space text is shorter than two UTF-16 units. */
  predicate IsSkipped(raw: string) {
    var squeezed := RemoveSpaces(Untab(raw));
    StartsWith(squeezed, "#") || JavaLength(squeezed) < 2
  }

  /** A header line, recognised on the space-free text: it ends with the section mark. */
  predicate IsHeader(raw: string) {
    !IsSkipped(raw) && EndsWith(RemoveSpaces(Untab(raw)), SECTION_MARK)
  }

  /** A line that is neither skipped nor a header but is too short to be an entry. */
  predicate IsShortEntry(raw: string) {
    !IsSkipped(raw) && !IsHeader(raw) && JavaLength(Trim(Untab(raw))) < MIN_ENTRY_LEN
  }

  predicate IsEntry(raw: string) {
    !IsSkipped(raw) && !IsHeader(raw) && JavaLength(Trim(Untab(raw))) >= MIN_ENTRY_LEN
  }

  /** The space-free text of a header ends with the mark, so its trimmed text does too. */
  lemma {:induction false} HeaderKeepsMark(line: string)
    requires EndsWith(RemoveSpaces(line), SECTION_MARK)
    ensures EndsWith(Trim(line), SECTION_MARK)
  {
    var j := RemoveSpacesLast(line);
    TrimEndsAtLastNonSpace(line, j);
  }

  /** One line of the pass: skipped, a header, skipped as too short, or an entry. */
  function Step(st: ParseState, raw: string): (r: Result<ParseState>)
    ensures r.Ok? && st.indent % INDENT_SIZE == 0 ==> r.value.indent % INDENT_SIZE == 0
    ensures r.Ok? ==> UniqueKeys(st.store) ==> UniqueKeys(r.value.store)
    ensures r.Ok? ==> forall k :: k in Keys(st.store) ==> k in Keys(r.value.store)
    ensures r.Err? ==> r.error.ConfigFormat?
  {
    var line := Untab(raw);
    var squeezed := RemoveSpaces(line);
    if StartsWith(squeezed, "#") || JavaLength(squeezed) < 2 then Ok(st)
    else if EndsWith(squeezed, SECTION_MARK) then
      HeaderKeepsMark(line);
      OpenSection(st, line)
    else if JavaLength(Trim(line)) < MIN_ENTRY_LEN then Ok(st)
    else AddEntry(st, line)
  }

  /** A section header: check the indent, dedent, then append the name (the trimmed line
      without its mark) to the path and record it under the indent. */
  function OpenSection(st: ParseState, line: string): (r: Result<ParseState>)
    requires EndsWith(Trim(line), SECTION_MARK)
    ensures r.Ok? ==> r.value.indent % INDENT_SIZE == 0 && r.value.store == st.store
    ensures r.Err? ==> r.error.ConfigFormat?
  {
    var trimmed := Trim(line);
    var indent := LeadingSpaces(line);
    if indent % INDENT_SIZE != 0 then Err(ConfigFormat(INDENT_ERROR))
    else
      // at a multiple of four the dedent cannot fail
      var path := Dedent(st.section, indent, st.indent).value;
      var name := trimmed[..|trimmed| - |SECTION_MARK|];
      Ok(ParseState(SectionKey(path, name), indent, st.store, Register(st.sections, indent, name)))
  }

  /** An entry: check the indent, dedent, split on the assign mark, and store the key under
      the path with the rejoined, trimmed rest as its value. */
  function AddEntry(st: ParseState, line: string): (r: Result<ParseState>)
    ensures r.Ok? ==> r.value.indent % INDENT_SIZE == 0 && r.value.sections == st.sections
    ensures r.Ok? ==> UniqueKeys(st.store) ==> UniqueKeys(r.value.store)
    ensures r.Ok? ==> forall k :: k in Keys(st.store) ==> k in Keys(r.value.store)
    ensures r.Err? ==> r.error.ConfigFormat?
  {
    var trimmed := Trim(line);
    var indent := LeadingSpaces(line);
    if indent % INDENT_SIZE != 0 then Err(ConfigFormat(INDENT_ERROR))
    else
      // at a multiple of four the dedent cannot fail
      var path := Dedent(st.section, indent, st.indent).value;
      var n := Split(trimmed, ASSIGN_MARK);
      if |n| < 2 then Err(ConfigFormat("Not a statement: '" + trimmed + "'"))
      else
        // with at least two pieces, joining from the second one cannot fail
        var value := Strings.Join(1, n, ASSIGN_MARK).value;
        Ok(ParseState(path, indent, Put(st.store, SectionKey(path, n[0]), ParseValue(Trim(value))), st.sections))
  }

  /** The pass over all lines; the first failing line fails the whole parse. */
  function ParseLines(st: ParseState, lines: seq<string>): (r: Result<ParseState>)
    ensures r.Ok? && UniqueKeys(st.store) ==> UniqueKeys(r.value.store)
    ensures r.Err? ==> r.error.ConfigFormat?
    decreases |lines|
  {
    if lines == [] then Ok(st)
    else
      var next :- Step(st, lines[0]);
      ParseLines(next, lines[1..])
  }

  /** `new Config(s)`: a null text is refused; the text is split on the platform's line
      break; the hash of the parsed store becomes the initial hash. */
  function Parse(text: Option<string>, os: Compatibility.OS, hash: Store -> int): (r: Result<Config>)
    ensures text.None? ==> r == Err(NullPointer("Cannot parse config from null string"))
    ensures r.Ok? ==> UniqueKeys(r.value.store) && r.value.initialHash == hash(r.value.store)
    ensures r.Err? ==> text.None? || r.error.ConfigFormat?
  {
    if text.None? then Err(NullPointer("Cannot parse config from null string"))
    else
      var st :- ParseLines(Start, Split(text.value, os.LineBreak()));
      Ok(Config(st.store, st.sections, hash(st.store)))
  }

  /** The hash taken at the end of construction is the hash of the parsed store, so a
      configuration just read has nothing for `save` to write. */
  lemma {:induction false} ParsedSaveQuiet(text: Option<string>, os: Compatibility.OS, hash: Store -> int)
    requires Parse(text, os, hash).Ok?
    ensures !SaveWrites(Parse(text, os, hash).value, hash)
  {
  }

  /** Comment lines, near-empty lines and too-short entry lines leave the whole state
      (store, section index, path and indent) unchanged. */
  lemma {:induction false} SkippedLineChangesNothing(st: ParseState, raw: string)
    requires IsSkipped(raw) || IsShortEntry(raw)
    ensures Step(st, raw) == Ok(st)
  {
  }

  /** A header or an entry whose indent, after tab expansion, is not a multiple of four is
      a format error. */
  lemma {:induction false} MisindentedLineFails(st: ParseState, raw: string)
    requires IsHeader(raw) || IsEntry(raw)
    requires LeadingSpaces(Untab(raw)) % INDENT_SIZE != 0
    ensures Step(st, raw) == Err(ConfigFormat(INDENT_ERROR))
  {
  }

  /** An entry line without the assign mark is "not a statement". */
  lemma {:induction false} NotAStatement(st: ParseState, raw: string)
    requires IsEntry(raw) && LeadingSpaces(Untab(raw)) % INDENT_SIZE == 0
    requires !Contains(Trim(Untab(raw)), ASSIGN_MARK)
    ensures Step(st, raw) == Err(ConfigFormat("Not a statement: '" + Trim(Untab(raw)) + "'"))
  {
    var line := Untab(raw);
    StepIsEntry(st, raw);
    DedentSucceeds(st.section, LeadingSpaces(line), st.indent);
    assert Split(Trim(line), ASSIGN_MARK) == [Trim(line)];
    EntryWithoutMark(st, line);
  }

  /** Lengths are UTF-16 counts: a line of three characters above U+FFFF is six code
      units long, so it is an entry line rather than a short one, and without an assign
      mark it is "not a statement". */
  lemma {:induction false} WideLineIsNoStatement(st: ParseState, raw: string)
    requires |raw| >= 3 && forall i :: 0 <= i < |raw| ==> raw[i] as int >= 0x1_0000
    ensures Step(st, raw) == Err(ConfigFormat("Not a statement: '" + raw + "'"))
  {
    WideLineShape(raw);
    WideLength(raw);
    LastCharRulesOut(raw, SECTION_MARK);
    assert !IsSkipped(raw) && !IsHeader(raw);
    NotAStatement(st, raw);
  }

  /** A text of characters above U+FFFF has no tab, no space, no assign mark, and nothing
      to trim. */
  lemma {:induction false} WideLineShape(raw: string)
    requires |raw| >= 1 && forall i :: 0 <= i < |raw| ==> raw[i] as int >= 0x1_0000
    ensures Untab(raw) == raw && RemoveSpaces(raw) == raw && Trim(raw) == raw
    ensures LeadingSpaces(raw) == 0 && !Contains(raw, ASSIGN_MARK) && raw[0] != '#'
  {
    ContainsChar(raw, '\t');
    RemoveSpacesNone(raw);
    TrimKeeps(raw);
    IndexOfAbsent(raw, ASSIGN_MARK);
  }

  /** An entry line whose trimmed text does not split into two pieces is "not a
      statement", once its indent is checked and the dedent has succeeded. */
  lemma {:induction false} EntryWithoutMark(st: ParseState, line: string)
    requires LeadingSpaces(line) % INDENT_SIZE == 0
    requires Dedent(st.section, LeadingSpaces(line), st.indent).Ok?
    requires |Split(Trim(line), ASSIGN_MARK)| < 2
    ensures AddEntry(st, line) == Err(ConfigFormat("Not a statement: '" + Trim(line) + "'"))
  {
  }

  /** Dedenting to a multiple of four never fails: the copy it joins is never empty. */
  lemma {:induction false} DedentSucceeds(section: string, indent: nat, current: int)
    requires indent % INDENT_SIZE == 0
    ensures Dedent(section, indent, current).Ok?
  {
  }

  /** On a path made of dot-free segments, dedenting to indent `4 * m` keeps its first
      `m` segments, padding with "null" segments when the path is shorter than that. */
  lemma {:induction false} DedentKeepsSegments(segments: seq<string>, m: nat, current: int)
    requires |segments| >= 2 && segments[|segments| - 1] != ""
    requires forall i :: 0 <= i < |segments| ==> '.' !in segments[i]
    requires 0 < m && INDENT_SIZE * m < current
    ensures Dedent(Joined(segments, SECTION_SPLIT), INDENT_SIZE * m, current) == Ok(Joined(CopyOf(segments, m), SECTION_SPLIT))
    ensures m <= |segments| ==> Dedent(Joined(segments, SECTION_SPLIT), INDENT_SIZE * m, current) == Ok(Joined(segments[..m], SECTION_SPLIT))
  {
    var path := Joined(segments, SECTION_SPLIT);
    SplitOfJoined(segments, SECTION_SPLIT);
    IndexOfAfter(segments[0], SECTION_SPLIT, Joined(segments[1..], SECTION_SPLIT));
    assert (INDENT_SIZE * m) / INDENT_SIZE == m;
    assert CopyOf(segments, m)[0..] == CopyOf(segments, m);
  }

  /** Dedenting to indent 0, or from a one-segment path, empties the path; a line that is
      not less indented keeps it. */
  lemma {:induction false} DedentResets(section: string, indent: nat, current: int)
    ensures indent < current && (indent == 0 || '.' !in section) ==> Dedent(section, indent, current) == Ok("")
    ensures indent >= current ==> Dedent(section, indent, current) == Ok(section)
  {
    ContainsChar(section, '.');
  }

  /** An entry line is handled by the entry branch. */
  lemma {:induction false} StepIsEntry(st: ParseState, raw: string)
    requires IsEntry(raw)
    ensures Step(st, raw) == AddEntry(st, Untab(raw))
  {
  }

  /** An entry line (tabs already expanded) is stored under the section path joined with
      the text before the first assign mark, with the trimmed text after that mark (which
      may itself contain the mark) as its value; the path becomes the dedented one and the
      indent the line's. */
  lemma {:induction false} EntryStores(st: ParseState, line: string) returns (path: string, key: string, value: string)
    requires LeadingSpaces(line) % INDENT_SIZE == 0
    requires Contains(Trim(line), ASSIGN_MARK)
    ensures Dedent(st.section, LeadingSpaces(line), st.indent) == Ok(path)
    ensures key == Trim(line)[..IndexOf(Trim(line), ASSIGN_MARK)]
    ensures value == Trim(line)[IndexOf(Trim(line), ASSIGN_MARK) + |ASSIGN_MARK|..]
    ensures AddEntry(st, line) ==
              Ok(ParseState(path, LeadingSpaces(line), Put(st.store, SectionKey(path, key), ParseValue(Trim(value))), st.sections))
  {
    var t := Trim(line);
    var i := IndexOf(t, ASSIGN_MARK);
    DedentSucceeds(st.section, LeadingSpaces(line), st.indent);
    path := Dedent(st.section, LeadingSpaces(line), st.indent).value;
    key, value := t[..i], t[i + |ASSIGN_MARK|..];
    TrimmedPieces(line);
    EntryFromPieces(st, line, path, key, value);
  }

  /** A trimmed line holding the assign mark splits into the text before its first mark
      and pieces that rejoin to the text after it. */
  lemma {:induction false} TrimmedPieces(line: string)
    requires Contains(Trim(line), ASSIGN_MARK)
    ensures |Split(Trim(line), ASSIGN_MARK)| >= 2
    ensures Split(Trim(line), ASSIGN_MARK)[0] == Trim(line)[..IndexOf(Trim(line), ASSIGN_MARK)]
    ensures Joined(Split(Trim(line), ASSIGN_MARK)[1..], ASSIGN_MARK) ==
            Trim(line)[IndexOf(Trim(line), ASSIGN_MARK) + |ASSIGN_MARK|..]
  {
    var t := Trim(line);
    ContainsLength(t, ASSIGN_MARK);
    assert !IsTrimmable(t[|t| - 1]);
    SplitAtFirst(t, ASSIGN_MARK);
  }

  /** An entry whose trimmed text splits into at least two pieces stores the first piece
      under the path, with the rest rejoined. */
  lemma {:induction false} EntryFromPieces(st: ParseState, line: string, path: string, key: string, value: string)
    requires LeadingSpaces(line) % INDENT_SIZE == 0
    requires Dedent(st.section, LeadingSpaces(line), st.indent) == Ok(path)
    requires |Split(Trim(line), ASSIGN_MARK)| >= 2
    requires Split(Trim(line), ASSIGN_MARK)[0] == key
    requires Joined(Split(Trim(line), ASSIGN_MARK)[1..], ASSIGN_MARK) == value
    ensures AddEntry(st, line) == Ok(ParseState(path, LeadingSpaces(line),
                                                Put(st.store, SectionKey(path, key), ParseValue(Trim(value))),
                                                st.sections))
  {
  }

  /** A header line names a section at its indent: the name is appended to the dedented
      path and recorded under that indent; the store does not change. */
  lemma {:induction false} HeaderLineOpens(st: ParseState, raw: string)
    requires IsHeader(raw) && LeadingSpaces(Untab(raw)) % INDENT_SIZE == 0
    ensures var line := Untab(raw);
            var t := Trim(line);
            var path := Dedent(st.section, LeadingSpaces(line), st.indent).value;
            && |t| >= 1 && t[|t| - 1] == ':'
            && Step(st, raw) == Ok(ParseState(SectionKey(path, t[..|t| - 1]), LeadingSpaces(line), st.store,
                                              Register(st.sections, LeadingSpaces(line), t[..|t| - 1])))
  {
    var line := Untab(raw);
    HeaderKeepsMark(line);
    assert Step(st, raw) == OpenSection(st, line);
    SectionOpens(st, line);
  }

  lemma {:induction false} SectionOpens(st: ParseState, line: string)
    requires EndsWith(Trim(line), SECTION_MARK) && LeadingSpaces(line) % INDENT_SIZE == 0
    ensures var t := Trim(line);
            var path := Dedent(st.section, LeadingSpaces(line), st.indent).value;
            && |t| >= 1 && t[|t| - 1] == ':'
            && OpenSection(st, line) == Ok(ParseState(SectionKey(path, t[..|t| - 1]), LeadingSpaces(line), st.store,
                                                     Register(st.sections, LeadingSpaces(line), t[..|t| - 1])))
  {
    var t := Trim(line);
    DedentSucceeds(st.section, LeadingSpaces(line), st.indent);
    assert t[|t| - 1..] == SECTION_MARK;
    assert t[|t| - 1] == t[|t| - 1..][0];
  }
}
