/** The configuration object: its constants, its value model, the store and section
    index it carries, and the store operations `set`, `getOrSet`, `raw` and the `save`
    change gate. */
module Config {
  import opened Results
  import opened JavaText
  import opened LinkedMap

  /** Separates an entry's key from its value. */
  const ASSIGN_MARK: string := " = "
  const OPEN_LIST_MARK: string := "["
  const CLOSE_LIST_MARK: string := "]"
  /** `Pattern.quote(", ")`, i.e. the six characters `\Q, \E`. As a regular expression it
      matches `", "` (`LIST_SPLIT_MATCH`); as plain text, for `contains` and for the
      serializer, it stands for itself. */
  const LIST_SPLIT_MARK: string := "\\Q, \\E"
  const LIST_SPLIT_MATCH: string := ", "
  /** Ends a section header line. */
  const SECTION_MARK: string := ":"
  /** What `Pattern.quote(".")` matches: the dot between the segments of a key. */
  const SECTION_SPLIT: string := "."
  const INDENT_SIZE: int := 4
  /** The shortest entry line: a one-character key, the assign mark, a one-character value. */
  const MIN_ENTRY_LEN: int := |ASSIGN_MARK| + 2

  /** A stored value: the text of a scalar, or the items of a list. */
  datatype Value = Scalar(text: string) | List(items: seq<string>)

  /** `config`: the entries in insertion order. */
  type Store = Linked<Value>

  /** `sections`: for each indent, the section names declared at that indent. */
  type SectionIndex = map<int, seq<string>>

  /** A configuration object: its store, its section index and the hash taken when it was
      built (the token the `save` gate compares against). */
  datatype Config = Config(store: Store, sections: SectionIndex, initialHash: int)

  /** `s.replace("[", "").replace("]", "")` */
  function StripBrackets(s: string): (p: string)
    ensures p == Unbracketed(s)
    ensures '[' !in p && ']' !in p
    ensures forall x :: x in p ==> x in s
  {
    var once := Replace(s, OPEN_LIST_MARK, "");
    ReplaceCharRemoves(s, '[', "");
    ReplaceCharAdds(s, '[', "");
    ReplaceCharRemoves(once, ']', "");
    ReplaceCharAdds(once, ']', "");
    StripsBrackets(s);
    Replace(once, CLOSE_LIST_MARK, "")
  }

  /** Reference definition: the characters of `s` other than brackets, in order. */
  function Unbracketed(s: string): string
    decreases |s|
  {
    if s == [] then [] else (if s[0] == '[' || s[0] == ']' then [] else [s[0]]) + Unbracketed(s[1..])
  }

  /** The two replacements remove exactly the brackets, one character at a time. */
  lemma {:induction false} StripsBrackets(s: string)
    ensures Replace(Replace(s, OPEN_LIST_MARK, ""), CLOSE_LIST_MARK, "") == Unbracketed(s)
    decreases |s|
  {
    if s == [] {
    } else {
      var x, rest := s[0], s[1..];
      assert s == [x] + rest;
      ReplaceCharConcat([x], rest, '[', "");
      ReplaceOne(x, '[');
      var once := if x == '[' then [] else [x];
      ReplaceCharConcat(once, Replace(rest, OPEN_LIST_MARK, ""), ']', "");
      if x != '[' {
        ReplaceOne(x, ']');
      }
      StripsBrackets(rest);
    }
  }

  /** `parseList(s)`: drop every bracket; nothing left is the empty list; the remainder is
      cut at `", "` only when it contains the literal six-character mark, and is otherwise
      the single item. */
  function ParseList(s: string): (items: seq<string>)
    ensures items == [] <==> StripBrackets(s) == ""
    ensures !Contains(StripBrackets(s), LIST_SPLIT_MARK) && StripBrackets(s) != "" ==> items == [StripBrackets(s)]
    ensures Contains(StripBrackets(s), LIST_SPLIT_MARK) ==>
              items != [] && items == Split(StripBrackets(s), LIST_SPLIT_MATCH)
    ensures forall i :: 0 <= i < |items| ==> '[' !in items[i] && ']' !in items[i]
  {
    var p := StripBrackets(s);
    if p == "" then []
    else if Contains(p, LIST_SPLIT_MARK) then
      SplitChars(p, LIST_SPLIT_MATCH);
      MarkedSplitNonEmpty(p);
      Split(p, LIST_SPLIT_MATCH)
    else [p]
  }

  /** A remainder holding the six-character mark never splits into nothing. */
  lemma {:induction false} MarkedSplitNonEmpty(p: string)
    requires Contains(p, LIST_SPLIT_MARK)
    ensures Split(p, LIST_SPLIT_MATCH) != []
  {
    var k := IndexOf(p, LIST_SPLIT_MARK);
    assert p[k..k + 6][0] == p[k] == '\\';
    var ps := Pieces(p, LIST_SPLIT_MATCH);
    JoinedPieces(p, LIST_SPLIT_MATCH);
    JoinedChars(ps, LIST_SPLIT_MATCH, '\\');
    var i :| 0 <= i < |ps| && '\\' in ps[i];
    var kept := DropTrailingEmpty(ps);
    if IndexOf(p, LIST_SPLIT_MATCH) >= 0 && kept == [] {
      assert false;
    }
  }

  /** A value text that starts with `[` and ends with `]` is a list; anything else a scalar. */
  function ParseValue(val: string): (v: Value)
    ensures v.List? <==> StartsWith(val, OPEN_LIST_MARK) && EndsWith(val, CLOSE_LIST_MARK)
    ensures v.Scalar? ==> v.text == val
    ensures v.List? ==> v.items == ParseList(val)
  {
    if StartsWith(val, OPEN_LIST_MARK) && EndsWith(val, CLOSE_LIST_MARK) then List(ParseList(val))
    else Scalar(val)
  }

  /** Reference rendering of a value: the scalar's text, or the items between brackets
      separated by the six-character mark. */
  function ValueText(v: Value): string {
    match v
    case Scalar(t) => t
    case List(items) =>
      OPEN_LIST_MARK + (if items == [] then "" else Joined(items, LIST_SPLIT_MARK)) + CLOSE_LIST_MARK
  }

  /** Stripping the brackets of a bracketed text without inner brackets gives the inside. */
  lemma {:induction false} StripOuter(p: string)
    requires '[' !in p && ']' !in p
    ensures StripBrackets(OPEN_LIST_MARK + p + CLOSE_LIST_MARK) == p
  {
    var s := OPEN_LIST_MARK + p + CLOSE_LIST_MARK;
    assert s == OPEN_LIST_MARK + (p + CLOSE_LIST_MARK);
    assert Replace(s, OPEN_LIST_MARK, "") == p + CLOSE_LIST_MARK by {
      ReplaceCharConcat(OPEN_LIST_MARK, p + CLOSE_LIST_MARK, '[', "");
      ReplaceCharConcat(p, CLOSE_LIST_MARK, '[', "");
      ReplaceAbsent(p, '[');
      ReplaceAbsent(CLOSE_LIST_MARK, '[');
      ReplaceAlone('[');
    }
    assert Replace(p + CLOSE_LIST_MARK, CLOSE_LIST_MARK, "") == p by {
      ReplaceCharConcat(p, CLOSE_LIST_MARK, ']', "");
      ReplaceAbsent(p, ']');
      ReplaceAlone(']');
    }
  }

  /** A bracketed text without inner brackets and without the literal mark parses to a list
      that renders back to that same text. */
  lemma {:induction false} ListRoundTrip(p: string)
    requires '[' !in p && ']' !in p && !Contains(p, LIST_SPLIT_MARK)
    ensures ParseValue(OPEN_LIST_MARK + p + CLOSE_LIST_MARK) == List(if p == "" then [] else [p])
    ensures ValueText(ParseValue(OPEN_LIST_MARK + p + CLOSE_LIST_MARK)) == OPEN_LIST_MARK + p + CLOSE_LIST_MARK
  {
    var s := OPEN_LIST_MARK + p + CLOSE_LIST_MARK;
    assert StartsWith(s, OPEN_LIST_MARK) && EndsWith(s, CLOSE_LIST_MARK);
    StripOuter(p);
  }

  /** The list items the six-character mark is read back as: the cut happens at `", "`. */
  lemma {:induction false} CommaListIsOneItem()
    ensures ParseValue("[a, b, c]") == List(["a, b, c"])
  {
    var p := "a, b, c";
    assert "[a, b, c]" == OPEN_LIST_MARK + p + CLOSE_LIST_MARK;
    IndexOfAbsent(p, LIST_SPLIT_MARK);
    ListRoundTrip(p);
  }

  /** `set(key, value)`: a null key, an empty key or the assign mark as key, and a null
      value are refused in that order; otherwise the key is upserted in place and nothing
      else changes. */
  function Set(c: Config, key: Option<string>, value: Option<Value>): (r: Result<Config>)
    ensures key.None? ==> r == Err(NullPointer("Key cannot be null"))
    ensures key.Some? && (key.value == "" || key.value == ASSIGN_MARK) ==>
              r == Err(IllegalArgument("Invalid key: '" + key.value + "'"))
    ensures key.Some? && key.value != "" && key.value != ASSIGN_MARK && value.None? ==>
              r == Err(NullPointer("Value cannot be null"))
    ensures r.Ok? <==> key.Some? && key.value != "" && key.value != ASSIGN_MARK && value.Some?
    ensures r.Ok? ==> r.value.sections == c.sections && r.value.initialHash == c.initialHash
    ensures r.Ok? ==> Get(r.value.store, key.value) == value
    ensures r.Ok? ==> forall k :: k != key.value ==> Get(r.value.store, k) == Get(c.store, k)
    ensures r.Ok? ==> Keys(r.value.store) ==
                      (if Get(c.store, key.value).Some? then Keys(c.store) else Keys(c.store) + [key.value])
  {
    if key.None? then Err(NullPointer("Key cannot be null"))
    else if key.value == "" || key.value == ASSIGN_MARK then Err(IllegalArgument("Invalid key: '" + key.value + "'"))
    else if value.None? then Err(NullPointer("Value cannot be null"))
    else Ok(c.(store := Put(c.store, key.value, value.value)))
  }

  /** `getOrSet(key, def)`: a present value comes back and nothing changes; for an absent
      key the default comes back and, unless it is null, is inserted at the end. */
  function GetOrSet(c: Config, key: string, def: Option<Value>): (r: (Option<Value>, Config))
    ensures Get(c.store, key).Some? ==> r.0 == Get(c.store, key) && r.1 == c
    ensures Get(c.store, key).None? ==> r.0 == def
    ensures Get(c.store, key).None? && def.Some? ==>
      && Get(r.1.store, key) == def
      && Keys(r.1.store) == Keys(c.store) + [key]
      && (forall k :: k != key ==> Get(r.1.store, k) == Get(c.store, k))
      && r.1.sections == c.sections && r.1.initialHash == c.initialHash
    ensures def.None? ==> r.1 == c
  {
    var existing := Get(c.store, key);
    if existing.Some? then (existing, c)
    else if def.None? then (None, c)
    else (def, c.(store := Put(c.store, key, def.value)))
  }

  /** `raw(key)`: a null key is refused; otherwise the value, or null when absent. */
  function Raw(c: Config, key: Option<string>): (r: Result<Option<Value>>)
    ensures key.None? ==> r == Err(NullPointer("Key cannot be null"))
    ensures key.Some? ==> r == Ok(Get(c.store, key.value))
    ensures key.Some? ==> r.Ok? && (r.value.None? <==> key.value !in Keys(c.store))
    ensures key.Some? && r.Ok? && r.value.Some? ==> Binding(key.value, r.value.value) in c.store
  {
    if key.None? then Err(NullPointer("Key cannot be null")) else Ok(Get(c.store, key.value))
  }

  /** The `save` gate: a write happens exactly when the store's hash differs from the hash
      taken at construction. The hash function itself is a parameter. */
  predicate SaveWrites(c: Config, hash: Store -> int) {
    hash(c.store) != c.initialHash
  }

  /** Setting a key to the value it already has leaves the store as it was, so `save`
      still does not write. */
  lemma {:induction false} SetSameValueKeepsStore(c: Config, key: string, v: Value, hash: Store -> int)
    requires key != "" && key != ASSIGN_MARK
    requires Get(c.store, key) == Some(v)
    ensures Set(c, Some(key), Some(v)) == Ok(c)
    ensures SaveWrites(Set(c, Some(key), Some(v)).value, hash) == SaveWrites(c, hash)
  {
    var i := Find(c.store, key);
    assert c.store[i] == Binding(key, v);
    assert c.store[i := Binding(key, v)] == c.store;
  }
}
