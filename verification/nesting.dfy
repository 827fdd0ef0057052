/** How `Config(String)` infers dotted keys from indentation: a header opens a section
    below the current one, an entry is stored under the current path, and a line back at
    indent 0 returns to the top level. */
module ParseNesting {
  import opened Results
  import opened JavaText
  import opened LinkedMap
  import opened Config
  import opened ConfigParser
  import opened RoundTrip

  /** A header line (tabs already expanded) whose trimmed text is `name:` appends `name`
      to the dedented path and records it under the line's indent. */
  lemma {:induction false} HeaderStep(st: ParseState, raw: string, name: string)
    requires IsHeader(raw) && Untab(raw) == raw && LeadingSpaces(raw) % INDENT_SIZE == 0
    requires Trim(raw) == name + SECTION_MARK
    ensures Dedent(st.section, LeadingSpaces(raw), st.indent).Ok?
    ensures Step(st, raw) ==
              Ok(ParseState(SectionKey(Dedent(st.section, LeadingSpaces(raw), st.indent).value, name),
                            LeadingSpaces(raw), st.store, Register(st.sections, LeadingSpaces(raw), name)))
  {
    HeaderLineOpens(st, raw);
    var t := Trim(raw);
    assert t[..|t| - 1] == name;
  }

  /** An entry line (tabs already expanded) whose trimmed text is `k = t`, for a plain key
      and a readable value, stores `t` read as a value under the dedented path and `k`. */
  lemma {:induction false} EntryStep(st: ParseState, raw: string, k: string, t: string)
    requires IsEntry(raw) && Untab(raw) == raw && LeadingSpaces(raw) % INDENT_SIZE == 0
    requires Trim(raw) == k + ASSIGN_MARK + t && PlainKey(k) && Readable(t)
    ensures Dedent(st.section, LeadingSpaces(raw), st.indent).Ok?
    ensures Step(st, raw) ==
              Ok(ParseState(Dedent(st.section, LeadingSpaces(raw), st.indent).value, LeadingSpaces(raw),
                            Put(st.store, SectionKey(Dedent(st.section, LeadingSpaces(raw), st.indent).value, k),
                                ParseValue(t)),
                            st.sections))
  {
    PlainLineShape(k, t);
    TrimKeeps(t);
    AroundMark(k, t);
    StepIsEntry(st, raw);
    var path, key, value := EntryStores(st, raw);
  }

  /** A header at indent 0 opens its section at the top, whatever the path was. */
  lemma {:induction false} TopHeader(st: ParseState, raw: string, a: string)
    requires IsHeader(raw) && Untab(raw) == raw && LeadingSpaces(raw) == 0 && Trim(raw) == a + SECTION_MARK
    requires st.indent == 0
    ensures Step(st, raw) == Ok(ParseState(SectionKey(st.section, a), 0, st.store, Register(st.sections, 0, a)))
  {
    HeaderStep(st, raw, a);
    DedentResets(st.section, 0, 0);
  }

  /** A header at indent 4 below a line at indent 0 opens a subsection of the current
      path. */
  lemma {:induction false} SubHeader(st: ParseState, raw: string, b: string)
    requires IsHeader(raw) && Untab(raw) == raw && LeadingSpaces(raw) == INDENT_SIZE
    requires Trim(raw) == b + SECTION_MARK && st.indent == 0
    ensures Step(st, raw) ==
              Ok(ParseState(SectionKey(st.section, b), INDENT_SIZE, st.store, Register(st.sections, INDENT_SIZE, b)))
  {
    HeaderStep(st, raw, b);
    DedentResets(st.section, LeadingSpaces(raw), st.indent);
  }

  /** An entry at indent 8 below a line at indent 4 is stored under the current path. */
  lemma {:induction false} InnerEntry(st: ParseState, raw: string, k: string, v: string)
    requires IsEntry(raw) && Untab(raw) == raw && LeadingSpaces(raw) == 2 * INDENT_SIZE
    requires Trim(raw) == k + ASSIGN_MARK + v && PlainKey(k) && Readable(v)
    requires st.indent == INDENT_SIZE
    ensures Step(st, raw) ==
              Ok(ParseState(st.section, 2 * INDENT_SIZE,
                            Put(st.store, SectionKey(st.section, k), ParseValue(v)), st.sections))
  {
    assert LeadingSpaces(raw) % INDENT_SIZE == 0;
    EntryStep(st, raw, k, v);
    DedentResets(st.section, LeadingSpaces(raw), st.indent);
  }

  /** An entry back at indent 0, after an indented line, is stored at the top level. */
  lemma {:induction false} TopEntry(st: ParseState, raw: string, o: string, w: string)
    requires IsEntry(raw) && Untab(raw) == raw && LeadingSpaces(raw) == 0
    requires Trim(raw) == o + ASSIGN_MARK + w && PlainKey(o) && Readable(w)
    requires st.indent > 0
    ensures Step(st, raw) == Ok(ParseState("", 0, Put(st.store, o, ParseValue(w)), st.sections))
  {
    EntryStep(st, raw, o, w);
    DedentResets(st.section, 0, st.indent);
  }

  /** The pass over four lines is the four steps one after the other. */
  lemma {:induction false} FourSteps(st: ParseState, l1: string, l2: string, l3: string, l4: string,
                                     s1: ParseState, s2: ParseState, s3: ParseState, s4: ParseState)
    requires Step(st, l1) == Ok(s1) && Step(s1, l2) == Ok(s2)
    requires Step(s2, l3) == Ok(s3) && Step(s3, l4) == Ok(s4)
    ensures ParseLines(st, [l1, l2, l3, l4]) == Ok(s4)
  {
    var lines := [l1, l2, l3, l4];
    assert ParseLines(s4, lines[4..]) == Ok(s4);
    assert ParseLines(s3, lines[3..]) == Ok(s4) by {
      assert lines[3..][0] == l4 && lines[3..][1..] == lines[4..];
    }
    assert ParseLines(s2, lines[2..]) == Ok(s4) by {
      assert lines[2..][0] == l3 && lines[2..][1..] == lines[3..];
    }
    assert ParseLines(s1, lines[1..]) == Ok(s4) by {
      assert lines[1..][0] == l2 && lines[1..][1..] == lines[2..];
    }
    assert lines[0] == l1 && lines[0..] == lines;
  }

  /** The lines `a:`, `    b:`, `        k = v`, `o = w` store `a.b.k` and then `o`: the
      entry at indent 8 sits under both headers, and the entry back at indent 0 is at the
      top level again; the index records `a` at indent 0 and `b` at indent 4. */
  lemma {:induction false} NestedThenTop(l1: string, l2: string, l3: string, l4: string,
                                         a: string, b: string, k: string, v: string, o: string, w: string)
    requires IsHeader(l1) && Untab(l1) == l1 && LeadingSpaces(l1) == 0 && Trim(l1) == a + SECTION_MARK
    requires IsHeader(l2) && Untab(l2) == l2 && LeadingSpaces(l2) == INDENT_SIZE && Trim(l2) == b + SECTION_MARK
    requires IsEntry(l3) && Untab(l3) == l3 && LeadingSpaces(l3) == 2 * INDENT_SIZE && Trim(l3) == k + ASSIGN_MARK + v
    requires IsEntry(l4) && Untab(l4) == l4 && LeadingSpaces(l4) == 0 && Trim(l4) == o + ASSIGN_MARK + w
    requires a != "" && PlainKey(k) && Readable(v) && PlainKey(o) && Readable(w)
    ensures ParseLines(Start, [l1, l2, l3, l4]) ==
              Ok(ParseState("", 0, [Binding(a + SECTION_SPLIT + b + SECTION_SPLIT + k, ParseValue(v)),
                                    Binding(o, ParseValue(w))],
                            map[0 := [a], INDENT_SIZE := [b]]))
  {
    var s1 := ParseState(SectionKey(Start.section, a), 0, Start.store, Register(Start.sections, 0, a));
    var s2 := ParseState(SectionKey(s1.section, b), INDENT_SIZE, s1.store, Register(s1.sections, INDENT_SIZE, b));
    var s3 := ParseState(s2.section, 2 * INDENT_SIZE, Put(s2.store, SectionKey(s2.section, k), ParseValue(v)), s2.sections);
    var s4 := ParseState("", 0, Put(s3.store, o, ParseValue(w)), s3.sections);
    assert Step(Start, l1) == Ok(s1) by { TopHeader(Start, l1, a); }
    assert Step(s1, l2) == Ok(s2) by { SubHeader(s1, l2, b); }
    assert Step(s2, l3) == Ok(s3) by { InnerEntry(s2, l3, k, v); }
    assert Step(s3, l4) == Ok(s4) by { TopEntry(s3, l4, o, w); }
    FourSteps(Start, l1, l2, l3, l4, s1, s2, s3, s4);
    NestedState(a, b, k, v, o, w);
  }

  /** The state the four steps of `NestedThenTop` end in: the two stored entries and the
      two recorded headers. */
  lemma {:induction false} NestedState(a: string, b: string, k: string, v: string, o: string, w: string)
    requires a != "" && '.' !in o
    ensures var s1 := ParseState(SectionKey(Start.section, a), 0, Start.store, Register(Start.sections, 0, a));
            var s2 := ParseState(SectionKey(s1.section, b), INDENT_SIZE, s1.store, Register(s1.sections, INDENT_SIZE, b));
            && Put(Put(s2.store, SectionKey(s2.section, k), ParseValue(v)), o, ParseValue(w)) ==
               [Binding(a + SECTION_SPLIT + b + SECTION_SPLIT + k, ParseValue(v)), Binding(o, ParseValue(w))]
            && s2.sections == map[0 := [a], INDENT_SIZE := [b]]
  {
    assert SectionKey(SectionKey("", a), b) == a + SECTION_SPLIT + b;
    NestedStore(a + SECTION_SPLIT + b + SECTION_SPLIT + k, |a + SECTION_SPLIT + b|, ParseValue(v), o, ParseValue(w));
    NestedIndex(a, b);
  }

  /** A key with a dot, then a key without one, are stored in that order. */
  lemma {:induction false} NestedStore(key: string, dot: nat, v: Value, o: string, w: Value)
    requires dot < |key| && key[dot] == '.' && '.' !in o
    ensures Put(Put([], key, v), o, w) == [Binding(key, v), Binding(o, w)]
  {
    var first := Put([], key, v);
    assert first == [Binding(key, v)] by {
      assert Find<Value>([], key) == -1;
    }
    assert o != key;
    assert Find(first, o) == -1 by {
      FindDetermined(first, o, -1);
    }
  }

  /** Registering `a` at indent 0 and then `b` at indent 4 gives one list per indent. */
  lemma {:induction false} NestedIndex(a: string, b: string)
    ensures Register(Register(map[], 0, a), INDENT_SIZE, b) == map[0 := [a], INDENT_SIZE := [b]]
  {
    assert Register(map[], 0, a) == map[0 := [a]];
  }
}
