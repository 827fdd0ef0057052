/** `Config(String... kv)`: a configuration built from alternating keys and values. Each
    key and value is trimmed and has its tabs expanded; a dotted key also declares the
    sections of its path, each at four spaces per level and at most once per level. */
module ConfigBuilder {
  import opened Results
  import opened JavaText
  import opened LinkedMap
  import opened Config
  import ConfigWriter

  const ODD_LENGTH_ERROR: string := "Key-value map length must be a multiple of two"

  /** `s.trim().replace("\t", "    ")` */
  function Clean(s: string): string {
    Replace(Trim(s), "\t", "    ")
  }

  /** A key or value that is not blank once its spaces are removed. */
  predicate Filled(s: string) {
    HasNonSpace(Clean(s))
  }

  predicate NoDups(xs: seq<string>) {
    forall i, j :: 0 <= i < j < |xs| ==> xs[i] != xs[j]
  }

  /** Every list of the index is free of repeated names. */
  predicate DistinctLists(sections: SectionIndex) {
    forall d :: d in sections ==> NoDups(sections[d])
  }

  /** `sections.computeIfAbsent(indent, ...)` and then add the name unless it is there. */
  function AddOnce(sections: SectionIndex, indent: int, name: string): (r: SectionIndex)
    ensures r.Keys == sections.Keys + {indent}
    ensures name in r[indent]
    ensures forall d :: d in sections ==> forall x :: x in sections[d] ==> x in r[d]
    ensures forall d, x :: d in r && x in r[d] ==> (d in sections && x in sections[d]) || (d == indent && x == name)
    ensures DistinctLists(sections) ==> DistinctLists(r)
  {
    var bound := if indent in sections then sections[indent] else [];
    sections[indent := if name in bound then bound else bound + [name]]
  }

  /** Declares the section names of a path, the first at indent `4 * depth`, each next one
      four spaces deeper. */
  function Declare(sections: SectionIndex, segs: seq<string>, depth: nat): (r: SectionIndex)
    ensures DistinctLists(sections) ==> DistinctLists(r)
    ensures sections.Keys <= r.Keys
    ensures forall d :: d in sections ==> forall x :: x in sections[d] ==> x in r[d]
    ensures forall d :: d in r && d !in sections ==> d >= 0
    decreases |segs|
  {
    if segs == [] then sections
    else Declare(AddOnce(sections, INDENT_SIZE * depth, segs[0]), segs[1..], depth + 1)
  }

  /** Declaring a path adds nothing but the path's names, each at its own level. */
  lemma {:induction false} DeclareOnly(sections: SectionIndex, segs: seq<string>, depth: nat)
    ensures OnlyPath(sections, Declare(sections, segs, depth), segs, depth)
    decreases |segs|
  {
    if segs != [] {
      var next := AddOnce(sections, INDENT_SIZE * depth, segs[0]);
      DeclareOnly(next, segs[1..], depth + 1);
      OnlyPathShift(sections, next, Declare(next, segs[1..], depth + 1), segs, depth);
    }
  }

  /** Every name `after` lists beyond those of `before` is a name of the path, listed at
      its own level: `segs[j]` at indent `4 * (depth + j)`. */
  predicate OnlyPath(before: SectionIndex, after: SectionIndex, segs: seq<string>, depth: nat) {
    forall d, x :: d in after && x in after[d] ==>
      (d in before && x in before[d]) ||
      exists j :: 0 <= j < |segs| && x == segs[j] && d == INDENT_SIZE * (depth + j)
  }

  /** Declaring the first name at `depth` and then the rest one level deeper adds only the
      path's names, each at its level. */
  lemma {:induction false} OnlyPathShift(sections: SectionIndex, next: SectionIndex, r: SectionIndex,
                                         segs: seq<string>, depth: nat)
    requires segs != []
    requires forall d, x :: d in next && x in next[d] ==>
               (d in sections && x in sections[d]) || (d == INDENT_SIZE * depth && x == segs[0])
    requires OnlyPath(next, r, segs[1..], depth + 1)
    ensures OnlyPath(sections, r, segs, depth)
  {
    forall d, x | d in r && x in r[d] && !(d in sections && x in sections[d])
      ensures exists j :: 0 <= j < |segs| && x == segs[j] && d == INDENT_SIZE * (depth + j)
    {
      if d in next && x in next[d] {
        assert x == segs[0] && d == INDENT_SIZE * (depth + 0);
      } else {
        var j :| 0 <= j < |segs[1..]| && x == segs[1..][j] && d == INDENT_SIZE * (depth + 1 + j);
        assert x == segs[j + 1] && d == INDENT_SIZE * (depth + (j + 1));
      }
    }
  }

  /** The index lists the name at the given level (four spaces per level). */
  predicate Listed(sections: SectionIndex, level: int, name: string) {
    INDENT_SIZE * level in sections && name in sections[INDENT_SIZE * level]
  }

  /** After declaring a path, each of its names is listed at its level. */
  lemma {:induction false} DeclareCovers(sections: SectionIndex, segs: seq<string>, depth: nat)
    ensures forall j :: 0 <= j < |segs| ==> Listed(Declare(sections, segs, depth), depth + j, segs[j])
    decreases |segs|
  {
    if segs != [] {
      var next := AddOnce(sections, INDENT_SIZE * depth, segs[0]);
      var r := Declare(sections, segs, depth);
      assert r == Declare(next, segs[1..], depth + 1);
      DeclareCovers(next, segs[1..], depth + 1);
      assert Listed(r, depth, segs[0]) by {
        assert Listed(next, depth, segs[0]);
      }
      ShiftListed(r, segs, depth);
    }
  }

  /** Names listed from the level after `depth` on, together with the first name listed at
      `depth`, are all the names listed from `depth` on. */
  lemma {:induction false} ShiftListed(r: SectionIndex, segs: seq<string>, depth: nat)
    requires segs != [] && Listed(r, depth, segs[0])
    requires forall j :: 0 <= j < |segs[1..]| ==> Listed(r, depth + 1 + j, segs[1..][j])
    ensures forall j :: 0 <= j < |segs| ==> Listed(r, depth + j, segs[j])
  {
    forall j | 0 < j < |segs| ensures Listed(r, depth + j, segs[j]) {
      assert segs[j] == segs[1..][j - 1];
      assert Listed(r, depth + 1 + (j - 1), segs[1..][j - 1]);
    }
  }

  /** One key-value pair: a blank key, then a blank value, is a format error; a dotted key
      declares the sections of its path; the value is stored as a list when bracketed. */
  function AddPair(store: Store, sections: SectionIndex, k: string, v: string): (r: Result<(Store, SectionIndex)>)
    ensures r.Ok? <==> Filled(k) && Filled(v)
    ensures !Filled(k) ==> r == Err(ConfigFormat("Key cannot be empty"))
    ensures Filled(k) && !Filled(v) ==> r == Err(ConfigFormat("Value cannot be empty"))
    ensures r.Ok? ==> r.value.0 == Put(store, Clean(k), ParseValue(Clean(v)))
  {
    var key := Clean(k);
    RemoveSpacesEmpty(key);
    RemoveSpacesEmpty(Clean(v));
    if RemoveSpaces(key) == "" then Err(ConfigFormat("Key cannot be empty"))
    else
      var declared :=
        if Contains(key, SECTION_SPLIT) then Declare(sections, ConfigWriter.Parents(Split(key, SECTION_SPLIT)), 0)
        else sections;
      var val := Clean(v);
      if RemoveSpaces(val) == "" then Err(ConfigFormat("Value cannot be empty"))
      else Ok((Put(store, key, ParseValue(val)), declared))
  }

  /** What is left after the first pair of an even-length argument list. */
  function Rest(kv: seq<string>): (r: seq<string>)
    requires |kv| % 2 == 0 && kv != []
    ensures |r| % 2 == 0 && |r| == |kv| - 2
    ensures forall i :: 0 <= i < |r| ==> r[i] == kv[i + 2]
  {
    kv[2..]
  }

  /** The loop over the pairs, left to right; the first bad pair fails the construction. */
  function AddPairs(store: Store, sections: SectionIndex, kv: seq<string>): (r: Result<(Store, SectionIndex)>)
    requires |kv| % 2 == 0
    ensures r.Err? ==> r.error == ConfigFormat("Key cannot be empty") || r.error == ConfigFormat("Value cannot be empty")
    decreases |kv|
  {
    if kv == [] then Ok((store, sections))
    else
      var next :- AddPair(store, sections, kv[0], kv[1]);
      AddPairs(next.0, next.1, Rest(kv))
  }

  /** `new Config(kv...)`: no arguments (or a null array) build the empty configuration with
      initial hash 0; an odd count is refused; otherwise the pairs are added in order and
      the hash of the result becomes the initial hash. */
  function FromPairs(kv: Option<seq<string>>, hash: Store -> int): (r: Result<Config>)
    ensures kv.None? || kv.value == [] ==> r == Ok(Config([], map[], 0))
    ensures kv.Some? && |kv.value| % 2 != 0 ==> r == Err(IllegalArgument(ODD_LENGTH_ERROR))
    ensures r.Ok? && kv.Some? && kv.value != [] ==> r.value.initialHash == hash(r.value.store)
  {
    if kv.None? || kv.value == [] then Ok(Config([], map[], 0))
    else if |kv.value| % 2 != 0 then Err(IllegalArgument(ODD_LENGTH_ERROR))
    else
      var built :- AddPairs([], map[], kv.value);
      Ok(Config(built.0, built.1, hash(built.0)))
  }

  /** The value the pairs leave for a key: that of the last pair whose cleaned key it is. */
  function LastValue(kv: seq<string>, key: string): Option<Value>
    requires |kv| % 2 == 0
    decreases |kv|
  {
    if kv == [] then None
    else
      var later := LastValue(Rest(kv), key);
      if later.Some? then later
      else if Clean(kv[0]) == key then Some(ParseValue(Clean(kv[1])))
      else None
  }

  /** The pairs are added exactly when every key and every value is filled. */
  lemma {:induction false} AllFilledStep(kv: seq<string>)
    requires |kv| % 2 == 0 && kv != []
    ensures (forall i :: 0 <= i < |kv| ==> Filled(kv[i])) <==>
            Filled(kv[0]) && Filled(kv[1]) && forall i :: 0 <= i < |Rest(kv)| ==> Filled(Rest(kv)[i])
  {
    EveryStep(kv, Rest(kv), Filled);
  }

  /** A property holds of every element exactly when it holds of the first two and of every
      element after them. */
  lemma {:induction false} EveryStep(kv: seq<string>, rest: seq<string>, ok: string -> bool)
    requires |kv| >= 2 && |rest| == |kv| - 2
    requires forall i :: 0 <= i < |rest| ==> rest[i] == kv[i + 2]
    ensures (forall i :: 0 <= i < |kv| ==> ok(kv[i])) <==>
            ok(kv[0]) && ok(kv[1]) && forall i :: 0 <= i < |rest| ==> ok(rest[i])
  {
    if ok(kv[0]) && ok(kv[1]) && forall i :: 0 <= i < |rest| ==> ok(rest[i]) {
      forall i | 2 <= i < |kv| ensures ok(kv[i]) {
        assert kv[i] == rest[i - 2];
      }
    }
  }

  lemma {:induction false} AddPairsSucceed(store: Store, sections: SectionIndex, kv: seq<string>)
    requires |kv| % 2 == 0
    ensures AddPairs(store, sections, kv).Ok? <==> forall i :: 0 <= i < |kv| ==> Filled(kv[i])
    decreases |kv|
  {
    if kv != [] {
      var rest := Rest(kv);
      var next := AddPair(store, sections, kv[0], kv[1]);
      if next.Ok? {
        assert AddPairs(store, sections, kv) == AddPairs(next.value.0, next.value.1, rest);
        AddPairsSucceed(next.value.0, next.value.1, rest);
        AllFilledStep(kv);
      } else {
        assert AddPairs(store, sections, kv).Err?;
        assert !Filled(kv[0]) || !Filled(kv[1]);
      }
    }
  }

  /** The value stored for a key is that of its last pair; keys of no pair keep their
      value. */
  lemma {:induction false} AddPairsStores(store: Store, sections: SectionIndex, kv: seq<string>)
    requires |kv| % 2 == 0
    requires AddPairs(store, sections, kv).Ok?
    ensures forall key :: Get(AddPairs(store, sections, kv).value.0, key) ==
                          if LastValue(kv, key).Some? then LastValue(kv, key) else Get(store, key)
    decreases |kv|
  {
    if kv != [] {
      var rest := Rest(kv);
      var next := AddPair(store, sections, kv[0], kv[1]).value;
      assert AddPairs(store, sections, kv) == AddPairs(next.0, next.1, rest);
      AddPairsStores(next.0, next.1, rest);
    }
  }

  /** The index lists each dotted key's section names at their levels. */
  predicate Covers(sections: SectionIndex, key: string) {
    Contains(key, SECTION_SPLIT) ==>
      forall j :: 0 <= j < |Split(key, SECTION_SPLIT)| - 1 ==>
        Listed(sections, j, Split(key, SECTION_SPLIT)[j])
  }

  /** The index only holds levels that are multiples of four and never lists a name twice. */
  predicate WellIndexed(sections: SectionIndex) {
    DistinctLists(sections) && forall d :: d in sections ==> d >= 0 && d % INDENT_SIZE == 0
  }

  lemma {:induction false} DeclareIndexed(sections: SectionIndex, segs: seq<string>, depth: nat)
    requires WellIndexed(sections)
    ensures WellIndexed(Declare(sections, segs, depth))
    decreases |segs|
  {
    if segs != [] {
      DeclareIndexed(AddOnce(sections, INDENT_SIZE * depth, segs[0]), segs[1..], depth + 1);
    }
  }

  /** Coverage survives an index that only grows. */
  lemma {:induction false} CoversGrows(small: SectionIndex, large: SectionIndex, key: string)
    requires small.Keys <= large.Keys
    requires forall d :: d in small ==> forall x :: x in small[d] ==> x in large[d]
    requires Covers(small, key)
    ensures Covers(large, key)
  {
  }

  /** Adding one pair keeps every stored key covered and the index well formed. */
  lemma {:induction false} AddPairCovers(store: Store, sections: SectionIndex, k: string, v: string)
    requires WellIndexed(sections)
    requires forall i :: 0 <= i < |store| ==> Covers(sections, store[i].key)
    requires AddPair(store, sections, k, v).Ok?
    ensures var r := AddPair(store, sections, k, v).value;
            WellIndexed(r.1) && forall i :: 0 <= i < |r.0| ==> Covers(r.1, r.0[i].key)
  {
    var key := Clean(k);
    var declared := PairIndex(store, sections, k, v);
    StoreCovered(store, key, ParseValue(Clean(v)), sections, declared);
  }

  /** The index after one pair: grown from the old one, well formed, and covering the
      pair's key. */
  lemma {:induction false} PairIndex(store: Store, sections: SectionIndex, k: string, v: string) returns (declared: SectionIndex)
    requires WellIndexed(sections)
    requires AddPair(store, sections, k, v).Ok?
    ensures declared == AddPair(store, sections, k, v).value.1
    ensures WellIndexed(declared) && Covers(declared, Clean(k))
    ensures sections.Keys <= declared.Keys
    ensures forall d :: d in sections ==> forall x :: x in sections[d] ==> x in declared[d]
  {
    var key := Clean(k);
    declared := AddPair(store, sections, k, v).value.1;
    if Contains(key, SECTION_SPLIT) {
      var segs := ConfigWriter.Parents(Split(key, SECTION_SPLIT));
      assert declared == Declare(sections, segs, 0);
      DeclareIndexed(sections, segs, 0);
      DeclaredCovers(sections, key);
    } else {
      assert declared == sections;
    }
  }

  /** Declaring the parents of a dotted key covers that key. */
  lemma {:induction false} DeclaredCovers(sections: SectionIndex, key: string)
    requires Contains(key, SECTION_SPLIT)
    ensures Covers(Declare(sections, ConfigWriter.Parents(Split(key, SECTION_SPLIT)), 0), key)
  {
    var parts := Split(key, SECTION_SPLIT);
    var segs := ConfigWriter.Parents(parts);
    var r := Declare(sections, segs, 0);
    DeclareCovers(sections, segs, 0);
    forall j | 0 <= j < |parts| - 1
      ensures Listed(r, j, parts[j])
    {
      assert parts[j] == segs[j];
      assert Listed(r, 0 + j, segs[j]);
    }
  }

  /** Storing a covered key into a store whose keys were covered by a smaller index keeps
      every key covered. */
  lemma {:induction false} StoreCovered(store: Store, key: string, val: Value, small: SectionIndex, large: SectionIndex)
    requires small.Keys <= large.Keys
    requires forall d :: d in small ==> forall x :: x in small[d] ==> x in large[d]
    requires forall i :: 0 <= i < |store| ==> Covers(small, store[i].key)
    requires Covers(large, key)
    ensures forall i :: 0 <= i < |Put(store, key, val)| ==> Covers(large, Put(store, key, val)[i].key)
  {
    var r := Put(store, key, val);
    forall i | 0 <= i < |r| ensures Covers(large, r[i].key) {
      assert r[i].key == Keys(r)[i];
      if r[i].key != key {
        assert i < |store| && Keys(r)[i] == Keys(store)[i];
        CoversGrows(small, large, store[i].key);
      }
    }
  }

  /** Adding all pairs keeps every stored key covered and the index well formed. */
  lemma {:induction false} AddPairsCovers(store: Store, sections: SectionIndex, kv: seq<string>)
    requires |kv| % 2 == 0
    requires WellIndexed(sections)
    requires forall i :: 0 <= i < |store| ==> Covers(sections, store[i].key)
    requires AddPairs(store, sections, kv).Ok?
    ensures var r := AddPairs(store, sections, kv).value;
            WellIndexed(r.1) && forall i :: 0 <= i < |r.0| ==> Covers(r.1, r.0[i].key)
    decreases |kv|
  {
    if kv != [] {
      AddPairCovers(store, sections, kv[0], kv[1]);
      var next := AddPair(store, sections, kv[0], kv[1]).value;
      AddPairsCovers(next.0, next.1, Rest(kv));
    }
  }

  /** A configuration built from pairs has every section of every dotted key declared at
      its level, never lists a name twice at one level, and uses only levels that are
      multiples of four. */
  lemma {:induction false} BuiltIsCovered(kv: Option<seq<string>>, hash: Store -> int)
    requires FromPairs(kv, hash).Ok?
    ensures var c := FromPairs(kv, hash).value;
            WellIndexed(c.sections) && forall i :: 0 <= i < |c.store| ==> Covers(c.sections, c.store[i].key)
  {
    if kv.Some? && kv.value != [] {
      AddPairsCovers([], map[], kv.value);
    }
  }

  /** Writing a configuration built from pairs never meets an undeclared section: it fails
      only on a key made of dots alone, which splits into no segment. */
  lemma {:induction false} BuiltWrites(kv: Option<seq<string>>, hash: Store -> int, order: seq<int>)
    requires FromPairs(kv, hash).Ok?
    requires ConfigWriter.Enumerates(order, FromPairs(kv, hash).value.sections)
    ensures var c := FromPairs(kv, hash).value;
            ConfigWriter.ToString(c, order).Ok? <==>
              forall i :: 0 <= i < |c.store| && Contains(c.store[i].key, SECTION_SPLIT) ==>
                |Split(c.store[i].key, SECTION_SPLIT)| > 0
  {
    var c := FromPairs(kv, hash).value;
    BuiltIsCovered(kv, hash);
    ConfigWriter.ToStringSucceeds(c, order);
    forall i | 0 <= i < |c.store| && Contains(c.store[i].key, SECTION_SPLIT)
      ensures forall j :: 0 <= j < |Split(c.store[i].key, SECTION_SPLIT)| - 1 ==>
                ConfigWriter.Recorded(c.sections, Split(c.store[i].key, SECTION_SPLIT)[j])
    {
      assert Covers(c.sections, c.store[i].key);
    }
  }
}
