/** `toString()`: the store written back as text. Every dotted key first declares the
    sections of its path that have not been declared yet (each at the indent the section
    index records for its name), then writes its last segment indented under them. */
module ConfigWriter {
  import opened Results
  import opened JavaText
  import opened LinkedMap
  import opened Config
  import Strings

  /** An iteration order of the section index's key set: every listed indent is a key of
      the index and every key is listed. */
  predicate Enumerates(order: seq<int>, sections: SectionIndex) {
    && (forall i :: 0 <= i < |order| ==> order[i] in sections)
    && (forall d :: d in sections ==> d in order)
  }

  /** Some indent of the index lists the name. */
  predicate Recorded(sections: SectionIndex, name: string) {
    exists d :: d in sections && name in sections[d]
  }

  function Spaces(n: int): (r: string)
    ensures |r| == if n > 0 then n else 0
    ensures forall i :: 0 <= i < |r| ==> r[i] == ' '
  {
    if n <= 0 then "" else seq(n, _ => ' ')
  }

  /** The indent the writer uses for a section name: the last indent, in iteration order,
      whose list holds the name (the inner loop's `break` leaves only the inner loop), or
      -1 when none does. */
  function LookupIndent(sections: SectionIndex, order: seq<int>, name: string): (r: int)
    requires forall i :: 0 <= i < |order| ==> order[i] in sections
    ensures (forall i :: 0 <= i < |order| ==> name !in sections[order[i]]) ==> r == -1
    ensures (exists i :: 0 <= i < |order| && name in sections[order[i]]) ==>
              exists k :: && 0 <= k < |order| && r == order[k] && name in sections[r]
                          && forall j :: k < j < |order| ==> name !in sections[order[j]]
    decreases |order|
  {
    if order == [] then -1
    else
      var last := order[|order| - 1];
      var before := order[..|order| - 1];
      assert forall i :: 0 <= i < |before| ==> before[i] == order[i];
      if name in sections[last] then
        LastFound(sections, order, name);
        last
      else
        var r := LookupIndent(sections, before, name);
        EarlierFound(sections, order, name, r);
        r
  }

  /** The name in the last indent's list: that indent is the last one listing it. */
  lemma {:induction false} LastFound(sections: SectionIndex, order: seq<int>, name: string)
    requires order != [] && forall i :: 0 <= i < |order| ==> order[i] in sections
    requires name in sections[order[|order| - 1]]
    ensures exists k :: && 0 <= k < |order| && order[|order| - 1] == order[k] && name in sections[order[|order| - 1]]
                        && forall j :: k < j < |order| ==> name !in sections[order[j]]
  {
    var k := |order| - 1;
    assert order[|order| - 1] == order[k];
  }

  /** The name not in the last indent's list: what the earlier indents give carries over. */
  lemma {:induction false} EarlierFound(sections: SectionIndex, order: seq<int>, name: string, r: int)
    requires order != [] && forall i :: 0 <= i < |order| ==> order[i] in sections
    requires name !in sections[order[|order| - 1]]
    requires var before := order[..|order| - 1];
             && ((forall i :: 0 <= i < |before| ==> name !in sections[before[i]]) ==> r == -1)
             && ((exists i :: 0 <= i < |before| && name in sections[before[i]]) ==>
                   exists k :: && 0 <= k < |before| && r == before[k] && name in sections[r]
                               && forall j :: k < j < |before| ==> name !in sections[before[j]])
    ensures (forall i :: 0 <= i < |order| ==> name !in sections[order[i]]) ==> r == -1
    ensures (exists i :: 0 <= i < |order| && name in sections[order[i]]) ==>
              exists k :: && 0 <= k < |order| && r == order[k] && name in sections[r]
                          && forall j :: k < j < |order| ==> name !in sections[order[j]]
  {
    var before := order[..|order| - 1];
    assert forall i :: 0 <= i < |before| ==> before[i] == order[i];
    if exists i :: 0 <= i < |order| && name in sections[order[i]] {
      var i :| 0 <= i < |order| && name in sections[order[i]];
      assert name in sections[before[i]];
      var k :| && 0 <= k < |before| && r == before[k] && name in sections[r]
               && forall j :: k < j < |before| ==> name !in sections[before[j]];
      assert forall j :: k < j < |order| ==> name !in sections[order[j]] by {
        forall j | k < j < |order| ensures name !in sections[order[j]] {
          if j < |before| {
            assert order[j] == before[j];
          }
        }
      }
    }
  }

  /** The nested loops of the writer, scanning indents in iteration order and each list
      until the name is found; they compute `LookupIndent`. */
  method FindIndent(sections: SectionIndex, order: seq<int>, name: string) returns (ind: int)
    requires forall i :: 0 <= i < |order| ==> order[i] in sections
    ensures ind == LookupIndent(sections, order, name)
  {
    ind := -1;
    var k := 0;
    while k < |order|
      invariant 0 <= k <= |order|
      invariant ind == LookupIndent(sections, order[..k], name)
    {
      assert order[..k + 1][..k] == order[..k];
      var list := sections[order[k]];
      var j := 0;
      while j < |list|
        invariant 0 <= j <= |list|
        invariant name !in list[..j]
        invariant ind == LookupIndent(sections, order[..k], name)
      {
        if list[j] == name {
          ind := order[k];
          break;
        }
        assert list[..j + 1] == list[..j] + [list[j]];
        j := j + 1;
      }
      assert j == |list| ==> list[..j] == list;
      k := k + 1;
    }
    assert order[..k] == order;
  }

  /** With indents that are never negative, the lookup finds an indent exactly when the name
      is recorded, and the indent it finds lists the name. */
  lemma {:induction false} LookupRecorded(sections: SectionIndex, order: seq<int>, name: string)
    requires Enumerates(order, sections)
    requires forall d :: d in sections ==> d >= 0
    ensures LookupIndent(sections, order, name) != -1 <==> Recorded(sections, name)
    ensures LookupIndent(sections, order, name) != -1 ==> name in sections[LookupIndent(sections, order, name)]
  {
    if Recorded(sections, name) {
      var d :| d in sections && name in sections[d];
      var i :| 0 <= i < |order| && order[i] == d;
    }
  }

  /** Declares, in order, the sections of a path not declared yet: `name:` on its own line
      at the recorded indent. A name with no recorded indent is a format error. */
  function Headers(sections: SectionIndex, order: seq<int>, segs: seq<string>, done: set<string>)
    : (r: Result<(string, set<string>)>)
    requires forall i :: 0 <= i < |order| ==> order[i] in sections
    ensures r.Ok? ==> r.value.1 == done + set i | 0 <= i < |segs| :: segs[i]
    ensures r.Err? ==> r.error.ConfigFormat?
    decreases |segs|
  {
    if segs == [] then Ok(("", done))
    else if segs[0] in done then
      var rest :- Headers(sections, order, segs[1..], done);
      assert forall i :: 0 < i < |segs| ==> segs[i] == segs[1..][i - 1];
      Ok(rest)
    else
      var ind := LookupIndent(sections, order, segs[0]);
      if ind == -1 then Err(ConfigFormat("No indent for configuration section \"" + segs[0] + "\""))
      else
        var rest :- Headers(sections, order, segs[1..], done + {segs[0]});
        assert forall i :: 0 < i < |segs| ==> segs[i] == segs[1..][i - 1];
        Ok((Spaces(ind) + segs[0] + SECTION_MARK + "\n" + rest.0, rest.1))
  }

  /** A section name already written adds nothing; one not written yet is written once, at
      an indent whose list holds the name, and counts as written for the names after it. */
  lemma {:induction false} HeaderText(sections: SectionIndex, order: seq<int>, segs: seq<string>, done: set<string>)
    requires forall i :: 0 <= i < |order| ==> order[i] in sections
    requires segs != []
    ensures segs[0] in done ==> Headers(sections, order, segs, done) == Headers(sections, order, segs[1..], done)
    ensures segs[0] !in done && Headers(sections, order, segs, done).Ok? ==>
              var ind := LookupIndent(sections, order, segs[0]);
              && ind != -1 && segs[0] in sections[ind]
              && Headers(sections, order, segs[1..], done + {segs[0]}).Ok?
              && Headers(sections, order, segs, done).value.0 ==
                 Spaces(ind) + segs[0] + SECTION_MARK + "\n" + Headers(sections, order, segs[1..], done + {segs[0]}).value.0
  {
  }

  /** Appends a value the way the writer does: a scalar's text, or the items each followed
      by the six-character mark, with the last mark deleted from the whole builder. The
      builder grows by exactly the value's reference rendering. */
  function AppendValue(sb: string, v: Value): (r: string)
    ensures r == sb + ValueText(v)
  {
    match v
    case Scalar(t) => sb + t
    case List(items) =>
      var started := sb + OPEN_LIST_MARK;
      if items == [] then started + CLOSE_LIST_MARK
      else
        MarkDeleted(started, items);
        Strings.DeleteTailing(started + Strings.Appended(items, LIST_SPLIT_MARK), |LIST_SPLIT_MARK|).passed
        + CLOSE_LIST_MARK
  }

  /** Deleting the trailing mark from the whole builder only ever removes that mark, never
      text the builder held before (it holds at least the opening bracket). */
  lemma {:induction false} MarkDeleted(started: string, items: seq<string>)
    requires started != [] && items != []
    ensures Strings.DeleteTailing(started + Strings.Appended(items, LIST_SPLIT_MARK), |LIST_SPLIT_MARK|).passed ==
            started + Joined(items, LIST_SPLIT_MARK)
  {
    Strings.AppendedIsJoined(items, LIST_SPLIT_MARK);
    var full := started + Strings.Appended(items, LIST_SPLIT_MARK);
    assert full == started + Joined(items, LIST_SPLIT_MARK) + LIST_SPLIT_MARK;
    var passed := Strings.DeleteTailing(full, |LIST_SPLIT_MARK|).passed;
    assert passed == full[..|full| - |LIST_SPLIT_MARK|];
  }

  /** The sections a dotted key declares before its entry: all segments but the last. */
  function Parents(parent: seq<string>): seq<string> {
    if |parent| > 0 then parent[..|parent| - 1] else []
  }

  /** One entry: for a dotted key, its undeclared sections and then its last segment,
      indented four spaces per section; for a plain key, the key itself; then the assign
      mark, the value and a line break. A key made only of dots splits into nothing, and
      reading its last segment is out of bounds. */
  function WriteEntry(sections: SectionIndex, order: seq<int>, b: Binding<Value>, done: set<string>, sb: string)
    : (r: Result<(string, set<string>)>)
    requires forall i :: 0 <= i < |order| ==> order[i] in sections
    ensures r.Ok? ==> done <= r.value.1 && |sb| < |r.value.0| && r.value.0[..|sb|] == sb
  {
    if Contains(b.key, SECTION_SPLIT) then
      var parent := Split(b.key, SECTION_SPLIT);
      var hs :- Headers(sections, order, Parents(parent), done);
      if |parent| == 0 then Err(IndexOutOfBounds)
      else
        var line := sb + hs.0 + Spaces(INDENT_SIZE * |parent| - INDENT_SIZE) + parent[|parent| - 1] + ASSIGN_MARK;
        Ok((AppendValue(line, b.value) + "\n", hs.1))
    else
      Ok((AppendValue(sb + b.key + ASSIGN_MARK, b.value) + "\n", done))
  }

  /** The loop over the store's keys in insertion order; the first failure ends it. */
  function WriteEntries(sections: SectionIndex, order: seq<int>, entries: Store, done: set<string>, sb: string)
    : (r: Result<string>)
    requires forall i :: 0 <= i < |order| ==> order[i] in sections
    ensures r.Ok? ==> |sb| + |entries| <= |r.value| && r.value[..|sb|] == sb
    decreases |entries|
  {
    if entries == [] then Ok(sb)
    else
      var next :- WriteEntry(sections, order, entries[0], done, sb);
      var r := WriteEntries(sections, order, entries[1..], next.1, next.0);
      if r.Ok? then
        PrefixOfPrefix(sb, next.0, r.value);
        r
      else r
  }

  /** A prefix of a prefix is a prefix. */
  lemma {:induction false} PrefixOfPrefix(a: string, b: string, c: string)
    requires |a| <= |b| && b[..|a|] == a
    requires |b| <= |c| && c[..|b|] == b
    ensures c[..|a|] == a
  {
    assert c[..|b|][..|a|] == c[..|a|];
  }

  /** `toString()`, with the section index's key-set iteration order as a parameter. */
  function ToString(c: Config, order: seq<int>): (r: Result<string>)
    requires Enumerates(order, c.sections)
    ensures r.Ok? ==> |r.value| >= |c.store|
  {
    WriteEntries(c.sections, order, c.store, {}, "")
  }

  /** The line of one entry whose key has no dot. */
  function PlainLine(b: Binding<Value>): string {
    b.key + ASSIGN_MARK + ValueText(b.value) + "\n"
  }

  /** Reference text of a store without dotted keys: its lines in insertion order. */
  function PlainText(entries: Store): string
    decreases |entries|
  {
    if entries == [] then "" else PlainLine(entries[0]) + PlainText(entries[1..])
  }

  /** A dotted entry is written as the headers of its sections not written yet, then its
      last segment indented four spaces per section, the assign mark, the value's
      rendering and a line break. */
  lemma {:induction false} DottedEntryText(sections: SectionIndex, order: seq<int>, b: Binding<Value>, done: set<string>, sb: string)
    requires forall i :: 0 <= i < |order| ==> order[i] in sections
    requires Contains(b.key, SECTION_SPLIT)
    requires |Split(b.key, SECTION_SPLIT)| > 0
    requires Headers(sections, order, Parents(Split(b.key, SECTION_SPLIT)), done).Ok?
    ensures var parent := Split(b.key, SECTION_SPLIT);
            var hs := Headers(sections, order, Parents(parent), done).value;
            WriteEntry(sections, order, b, done, sb) ==
              Ok((sb + hs.0 + Spaces(INDENT_SIZE * (|parent| - 1)) + parent[|parent| - 1] + ASSIGN_MARK
                  + ValueText(b.value) + "\n", hs.1))
  {
    var parent := Split(b.key, SECTION_SPLIT);
    var hs := Headers(sections, order, Parents(parent), done).value;
    assert INDENT_SIZE * |parent| - INDENT_SIZE == INDENT_SIZE * (|parent| - 1);
    var line := sb + hs.0 + Spaces(INDENT_SIZE * (|parent| - 1)) + parent[|parent| - 1] + ASSIGN_MARK;
  }

  /** An entry without a dot is written as its plain line. */
  lemma {:induction false} WritePlainEntry(sections: SectionIndex, order: seq<int>, b: Binding<Value>, done: set<string>, sb: string)
    requires forall i :: 0 <= i < |order| ==> order[i] in sections
    requires !Contains(b.key, SECTION_SPLIT)
    ensures WriteEntry(sections, order, b, done, sb) == Ok((sb + PlainLine(b), done))
  {
    var head := sb + b.key + ASSIGN_MARK;
    assert AppendValue(head, b.value) + "\n" == sb + PlainLine(b);
    assert WriteEntry(sections, order, b, done, sb) == Ok((AppendValue(head, b.value) + "\n", done));
  }

  /** Without dotted keys, nothing is declared and every entry is its plain line. */
  lemma {:induction false} WritePlain(sections: SectionIndex, order: seq<int>, entries: Store, done: set<string>, sb: string)
    requires forall i :: 0 <= i < |order| ==> order[i] in sections
    requires forall i :: 0 <= i < |entries| ==> !Contains(entries[i].key, SECTION_SPLIT)
    ensures WriteEntries(sections, order, entries, done, sb) == Ok(sb + PlainText(entries))
    decreases |entries|
  {
    if entries != [] {
      var b := entries[0];
      var rest := entries[1..];
      assert forall i :: 0 <= i < |rest| ==> rest[i] == entries[i + 1];
      WritePlainStep(sections, order, entries, done, sb);
      WritePlain(sections, order, rest, done, sb + PlainLine(b));
      PlainTextStep(entries, sb);
    } else {
      assert sb + PlainText(entries) == sb;
    }
  }

  /** Writing a store whose first key has no dot writes that entry's plain line first. */
  lemma {:induction false} WritePlainStep(sections: SectionIndex, order: seq<int>, entries: Store, done: set<string>, sb: string)
    requires forall i :: 0 <= i < |order| ==> order[i] in sections
    requires entries != [] && !Contains(entries[0].key, SECTION_SPLIT)
    ensures WriteEntries(sections, order, entries, done, sb) ==
            WriteEntries(sections, order, entries[1..], done, sb + PlainLine(entries[0]))
  {
    WritePlainEntry(sections, order, entries[0], done, sb);
  }

  lemma {:induction false} PlainTextStep(entries: Store, sb: string)
    requires entries != []
    ensures sb + PlainLine(entries[0]) + PlainText(entries[1..]) == sb + PlainText(entries)
  {
  }

  /** A store whose every dotted key splits into at least one segment and has every section
      segment recorded in the index. */
  predicate Writable(entries: Store, sections: SectionIndex) {
    forall i :: 0 <= i < |entries| && Contains(entries[i].key, SECTION_SPLIT) ==>
      && |Split(entries[i].key, SECTION_SPLIT)| > 0
      && forall j :: 0 <= j < |Split(entries[i].key, SECTION_SPLIT)| - 1 ==>
           Recorded(sections, Split(entries[i].key, SECTION_SPLIT)[j])
  }

  /** The headers of a path are written exactly when each of its names is declared already
      or recorded, given that every declared name is recorded. */
  lemma {:induction false} HeadersSucceed(sections: SectionIndex, order: seq<int>, segs: seq<string>, done: set<string>)
    requires Enumerates(order, sections)
    requires forall d :: d in sections ==> d >= 0
    requires forall x :: x in done ==> Recorded(sections, x)
    ensures Headers(sections, order, segs, done).Ok? <==> forall j :: 0 <= j < |segs| ==> Recorded(sections, segs[j])
    decreases |segs|
  {
    if segs != [] {
      assert forall j :: 0 < j < |segs| ==> segs[j] == segs[1..][j - 1];
      LookupRecorded(sections, order, segs[0]);
      if segs[0] in done {
        HeadersSucceed(sections, order, segs[1..], done);
      } else if Recorded(sections, segs[0]) {
        HeadersSucceed(sections, order, segs[1..], done + {segs[0]});
      }
    }
  }

  /** One entry is written exactly when it is writable on its own, and afterwards every
      declared name is still recorded. */
  lemma {:induction false} WriteEntrySucceeds(sections: SectionIndex, order: seq<int>, b: Binding<Value>, done: set<string>, sb: string)
    requires Enumerates(order, sections)
    requires forall d :: d in sections ==> d >= 0
    requires forall x :: x in done ==> Recorded(sections, x)
    ensures WriteEntry(sections, order, b, done, sb).Ok? <==> Writable([b], sections)
    ensures WriteEntry(sections, order, b, done, sb).Ok? ==>
              forall x :: x in WriteEntry(sections, order, b, done, sb).value.1 ==> Recorded(sections, x)
  {
    WritableOne(b, sections);
    EntryOutcome(sections, order, b, done, sb);
    if Contains(b.key, SECTION_SPLIT) {
      var parent := Split(b.key, SECTION_SPLIT);
      HeadersSucceed(sections, order, Parents(parent), done);
      HeadersRecorded(sections, order, Parents(parent), done);
    }
  }

  /** A single entry is writable when its key, if dotted, splits into segments whose
      parents are all recorded. */
  lemma {:induction false} WritableOne(b: Binding<Value>, sections: SectionIndex)
    ensures Writable([b], sections) <==>
            (Contains(b.key, SECTION_SPLIT) ==>
               && |Split(b.key, SECTION_SPLIT)| > 0
               && forall j :: 0 <= j < |Parents(Split(b.key, SECTION_SPLIT))| ==>
                    Recorded(sections, Parents(Split(b.key, SECTION_SPLIT))[j]))
  {
    assert [b][0] == b;
    var parent := Split(b.key, SECTION_SPLIT);
    if |parent| > 0 {
      assert |Parents(parent)| == |parent| - 1;
      assert forall j :: 0 <= j < |parent| - 1 ==> Parents(parent)[j] == parent[j];
    }
  }

  /** Writing one entry succeeds as its headers do, and then its key has segments; a key
      without a dot always succeeds and declares nothing. */
  lemma {:induction false} EntryOutcome(sections: SectionIndex, order: seq<int>, b: Binding<Value>, done: set<string>, sb: string)
    requires forall i :: 0 <= i < |order| ==> order[i] in sections
    ensures !Contains(b.key, SECTION_SPLIT) ==>
              WriteEntry(sections, order, b, done, sb).Ok? && WriteEntry(sections, order, b, done, sb).value.1 == done
    ensures Contains(b.key, SECTION_SPLIT) ==>
              var hs := Headers(sections, order, Parents(Split(b.key, SECTION_SPLIT)), done);
              && (WriteEntry(sections, order, b, done, sb).Ok? <==> hs.Ok? && |Split(b.key, SECTION_SPLIT)| > 0)
              && (WriteEntry(sections, order, b, done, sb).Ok? ==> WriteEntry(sections, order, b, done, sb).value.1 == hs.value.1)
  {
  }

  /** Once the headers of a path are written, every declared name is recorded. */
  lemma {:induction false} HeadersRecorded(sections: SectionIndex, order: seq<int>, segs: seq<string>, done: set<string>)
    requires Enumerates(order, sections)
    requires forall x :: x in done ==> Recorded(sections, x)
    requires Headers(sections, order, segs, done).Ok? <==> forall j :: 0 <= j < |segs| ==> Recorded(sections, segs[j])
    ensures Headers(sections, order, segs, done).Ok? ==>
              forall x :: x in Headers(sections, order, segs, done).value.1 ==> Recorded(sections, x)
  {
    var hs := Headers(sections, order, segs, done);
    if hs.Ok? {
      forall x | x in hs.value.1 ensures Recorded(sections, x) {
        if x !in done {
          var j :| 0 <= j < |segs| && segs[j] == x;
        }
      }
    }
  }

  /** Writing succeeds exactly on writable entries, given that every declared name is
      recorded. */
  lemma {:induction false} WriteSucceeds(sections: SectionIndex, order: seq<int>, entries: Store, done: set<string>, sb: string)
    requires Enumerates(order, sections)
    requires forall d :: d in sections ==> d >= 0
    requires forall x :: x in done ==> Recorded(sections, x)
    ensures WriteEntries(sections, order, entries, done, sb).Ok? <==> Writable(entries, sections)
    decreases |entries|
  {
    if entries != [] {
      var b := entries[0];
      WritableStep(entries, sections);
      WriteEntrySucceeds(sections, order, b, done, sb);
      var next := WriteEntry(sections, order, b, done, sb);
      if next.Ok? {
        WriteSucceeds(sections, order, entries[1..], next.value.1, next.value.0);
      }
    }
  }

  /** A store is writable exactly when its first entry and the rest are. */
  lemma {:induction false} WritableStep(entries: Store, sections: SectionIndex)
    requires entries != []
    ensures Writable(entries, sections) <==> Writable([entries[0]], sections) && Writable(entries[1..], sections)
  {
    assert [entries[0]][0] == entries[0];
    assert forall i :: 0 < i < |entries| ==> entries[i] == entries[1..][i - 1];
  }

  /** `toString()` fails exactly when some dotted key has a section name the index does not
      record, or splits into no segments at all. */
  lemma {:induction false} ToStringSucceeds(c: Config, order: seq<int>)
    requires Enumerates(order, c.sections)
    requires forall d :: d in c.sections ==> d >= 0
    ensures ToString(c, order).Ok? <==> Writable(c.store, c.sections)
  {
    WriteSucceeds(c.sections, order, c.store, {}, "");
  }
}
