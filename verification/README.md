# SimpleConfigs text ⇄ store engine, in Dafny

This project models the core of SimpleConfigs, a small Java library for indented
`key = value` configuration files. It covers:

- the text parser, the `Config(String)` constructor;
- the varargs constructor `Config(String... kv)`, which builds a configuration from
  key/value pairs and registers the sections of dotted keys;
- the serializer `toString()`, which rebuilds section headers and indentation from
  dotted keys and the section index;
- the store operations `set`, `getOrSet` and `raw`, and the `save` change gate;
- `parseList`;
- the string helpers `Strings.join` and `Strings.deleteTailing`;
- `Compatibility.formatUNIX`.

## Files

| file | contents |
|---|---|
| `results.dfy` | `Result` and `Option`, and the Java exceptions the core throws, as values |
| `javatext.dfy` | the `String` operations the core uses: `indexOf`, `replace`, `trim`, regular-expression `split` with trailing empty pieces dropped, and `length` counted in UTF-16 code units |
| `linkedmap.dfy` | `LinkedHashMap<String, V>` as an association list in insertion order |
| `strings.dfy` | `Strings.join` and `Strings.deleteTailing` |
| `compatibility.dfy` | the three platform line breaks and `formatUNIX` |
| `config.dfy` | the constants, the value model, `parseList`, `set`, `getOrSet`, `raw` and the `save` gate |
| `parser.dfy` | `Config(String)` as a fold of one step per line over a parse state |
| `nesting.dfy` | how that fold infers dotted keys from the indentation of headers and entries |
| `writer.dfy` | `toString()` |
| `builder.dfy` | the varargs constructor |
| `roundtrip.dfy` | what survives writing a configuration and reading the text back |

## How the model reads the code

- **Values.** A value is either `Scalar(text)` or `List(items)`, which are the two kinds
  the parser and the constructor create.
- **Store.** The store keeps insertion order, as the `LinkedHashMap` does.
- **Section index.** The section index maps an indent to the list of names declared at
  that indent.
- **The list separator.** The list separator is `Pattern.quote(", ")`, which is the
  six-character text `\Q, \E`. The model follows the code:
  - `parseList` tests for those six characters literally, so `"[a, b, c]"` reads as the
    single item `"a, b, c"`;
  - when the mark is present, `split` cuts at the `", "` inside it;
  - `toString()` writes the six characters between items.

  The library's documentation describes `"[a, b, c]"` as the three items `a`, `b`, `c`.
  The model follows the code rather than that description (`Config.CommaListIsOneItem`,
  `RoundTrip.TwoItemListChanges`).
- **Dedent.** When the indent drops, the path becomes empty if the new indent is 0 or the
  path has no dot, and is otherwise cut to `indent / 4` segments (`ConfigParser.DedentResets`).
  This uses `Arrays.copyOf`, which pads with `null`, and `Strings.join` prints each
  padded slot as `"null"`. The model reproduces this padding (`ConfigParser.CopyOf`).
- **Lengths.** A Dafny `string` holds Unicode scalar values, while Java's `length()`
  counts UTF-16 code units, two for a character above U+FFFF. The parser's two length
  tests use `JavaText.JavaLength`, which counts the way Java does.
- **Platform.** The platform is a parameter of `Parse`.
- **Hash.** Java's `hashCode` of the map is an uninterpreted parameter `hash`.
- **Section-indent lookup.** The lookup in `toString()` loops over the keys of a
  `HashMap`, whose iteration order is unspecified. The model takes that order as a
  parameter `order`. Because the inner `break` does not leave the outer loop, the lookup
  returns the last indent, in that order, whose list holds the name.

## Model

| member | source | states |
|---|---|---|
| Strings.Join | src/me/darksidecode/simpleconfigs/util/Strings.java:31-38 | For a start inside the array, the result is the elements from `start` on, joined by the separator. A negative start fails with an index error. A start at or past the end gives the empty text for an empty separator, and otherwise fails, because the builder is empty when characters are deleted from it |
| Strings.AppendedIsJoined | src/me/darksidecode/simpleconfigs/util/Strings.java:34 | Appending each element followed by the separator gives the join plus exactly one trailing separator, which is what the deleting loop then removes |
| Strings.JoinSingle | src/me/darksidecode/simpleconfigs/util/Strings.java:34-36 | Joining a range of one element gives exactly that element |
| Strings.JoinLength | src/me/darksidecode/simpleconfigs/util/Strings.java:34-36 | The joined length is the sum of the element lengths plus `count - 1` times the separator's length |
| Strings.DeleteTailing | src/me/darksidecode/simpleconfigs/util/Strings.java:55-60 | With `chars >= length`, a fresh empty builder is returned and the passed builder is untouched. With `chars < length`, negative included, the passed builder itself is returned. For `0 <= chars < length` it is shortened by exactly its last `chars` characters, and for `chars <= 0` its content never changes |
| Compatibility.FormatUnix | src/me/darksidecode/simpleconfigs/util/Compatibility.java:53-55 | The result holds no carriage return and is never longer than the input. A text without a carriage return comes back unchanged |
| Compatibility.FormatUnixIsScan | src/me/darksidecode/simpleconfigs/util/Compatibility.java:53-55 | The two chained replacements equal a single left-to-right scan that turns each `\r\n` and each remaining lone `\r` into one `\n` |
| Compatibility.FormatUnixIdempotent | src/me/darksidecode/simpleconfigs/util/Compatibility.java:53-55 | Normalising twice gives the same text as normalising once |
| LinkedMap.Put | src/me/darksidecode/simpleconfigs/Config.java:356 | After `put`, the key maps to the new value and every other key keeps its value. An existing key keeps its position, a new key is appended, and distinct keys stay distinct |
| LinkedMap.Get | src/me/darksidecode/simpleconfigs/Config.java:829 | A lookup finds nothing exactly when no entry has the key. Otherwise it finds a value that an entry binds to the key |
| Config.StripBrackets | src/me/darksidecode/simpleconfigs/Config.java:1023 | The result is exactly the reference filter `Unbracketed`: the input's characters other than `[` and `]`, in order. So it holds no bracket and no character the input lacks |
| Config.StripsBrackets | src/me/darksidecode/simpleconfigs/Config.java:1023 | Replacing every `[` and then every `]` by nothing equals one left-to-right pass that drops each bracket |
| Config.ParseList | src/me/darksidecode/simpleconfigs/Config.java:1021-1031 | The list is empty exactly when nothing is left after removing the brackets. Without the six-character mark, the list is the one item holding the whole remainder. With the mark, the items are the remainder split at `", "` with trailing empty pieces dropped, and there is at least one. No item holds a bracket |
| Config.ParseValue | src/me/darksidecode/simpleconfigs/Config.java:310-312 | A value is a list exactly when its text starts with `[` and ends with `]`, and its items are then `parseList` of the text. Otherwise it is the text itself |
| Config.ListRoundTrip | src/me/darksidecode/simpleconfigs/Config.java:1021-1031 | For inner text without brackets or the mark, reading `[p]` gives the empty list or the one item `p`, and rendering that list gives back `[p]` |
| Config.CommaListIsOneItem | src/me/darksidecode/simpleconfigs/Config.java:1027-1029 | `"[a, b, c]"` reads as the single item `"a, b, c"`, because the literal six-character mark is not in it |
| Config.Set | src/me/darksidecode/simpleconfigs/Config.java:351-358 | A null key gives a null-pointer error. An empty or `" = "` key gives the illegal-argument error "Invalid key: '<key>'". A valid key with a null value gives the null-pointer error "Value cannot be null". The call succeeds exactly when key and value are present and the key is valid. Then the key maps to the value, every other key keeps its value, an existing key keeps its position, a new key is appended, and the sections and initial hash are unchanged |
| Config.GetOrSet | src/me/darksidecode/simpleconfigs/Config.java:800-802 | A present key returns its value and changes nothing. An absent key returns `def`. A non-null `def` is then appended under the key and nothing else changes. A null `def` is not stored |
| Config.Raw | src/me/darksidecode/simpleconfigs/Config.java:826-830 | A null key gives the null-pointer error "Key cannot be null". Otherwise the result is the store's lookup of the key: null exactly when the key is absent, and otherwise a value the store binds to that key |
| Config.SetSameValueKeepsStore | src/me/darksidecode/simpleconfigs/Config.java:842-847 | Setting a key to the value it already holds leaves the configuration as it was, so the `save` gate decides the same way |
| Config.SaveWrites | src/me/darksidecode/simpleconfigs/Config.java:842-847 | `save` writes exactly when the hash of the store differs from the hash taken at construction. A configuration just read from text does not write (`ConfigParser.ParsedSaveQuiet`), nor does one whose key was set to the value it held |
| ConfigParser.LeadingSpaces | src/me/darksidecode/simpleconfigs/Config.java:240-246 | The count covers exactly the leading run of spaces: every counted character is a space, and the next one is not |
| ConfigParser.CopyOf | src/me/darksidecode/simpleconfigs/Config.java:258 | `Arrays.copyOf(parent, n)` has length `n`. It holds the parent's segments first and the text `"null"` in the padded slots |
| ConfigParser.Register | src/me/darksidecode/simpleconfigs/Config.java:264 | The indent becomes a key of the index. Its list gains the name at its end, duplicates kept, and a new indent gets the one-name list. Every other indent keeps its list |
| ConfigParser.HeaderKeepsMark | src/me/darksidecode/simpleconfigs/Config.java:238-262 | When the space-free line ends with `:`, so does the trimmed line, so cutting the mark off the trimmed line stays in bounds |
| ConfigParser.Step | src/me/darksidecode/simpleconfigs/Config.java:227-316 | One line keeps the indent a multiple of four, keeps stored keys distinct, and never drops a stored key. Its only failure is a format error |
| ConfigParser.OpenSection | src/me/darksidecode/simpleconfigs/Config.java:238-267 | A header sets an indent that is a multiple of four and leaves the store unchanged. Its only failure is a format error |
| ConfigParser.AddEntry | src/me/darksidecode/simpleconfigs/Config.java:273-314 | An entry sets an indent that is a multiple of four, keeps the section index, keeps stored keys distinct and never drops one. Its only failure is a format error |
| ConfigParser.ParseLines | src/me/darksidecode/simpleconfigs/Config.java:227-316 | The pass over the lines keeps stored keys distinct. Its only failure is a format error |
| ConfigParser.Parse | src/me/darksidecode/simpleconfigs/Config.java:220-319 | A null text gives the null-pointer error with the code's message. Every other failure is a format error. A parsed configuration has distinct keys and records the hash of its store as the initial hash |
| ConfigParser.ParsedSaveQuiet | src/me/darksidecode/simpleconfigs/Config.java:318 | A configuration just read from text has nothing for `save` to write |
| ConfigParser.SkippedLineChangesNothing | src/me/darksidecode/simpleconfigs/Config.java:229-271 | The state (store, sections, path and indent) is unchanged by a line whose space-free text starts with `#` or is shorter than two UTF-16 code units, and by a non-header line whose trimmed text is shorter than five code units |
| ConfigParser.MisindentedLineFails | src/me/darksidecode/simpleconfigs/Config.java:240-283 | A header or entry whose leading spaces, after tabs become four spaces, are not a multiple of four fails with the indent error |
| ConfigParser.NotAStatement | src/me/darksidecode/simpleconfigs/Config.java:296-300 | An entry line without `" = "` fails with "Not a statement" quoting the trimmed line |
| ConfigParser.WideLineIsNoStatement | src/me/darksidecode/simpleconfigs/Config.java:229-300 | A line of three or more characters above U+FFFF counts six or more code units, so it is neither skipped nor too short. Having no `" = "`, it fails with "Not a statement" |
| ConfigParser.DedentResets | src/me/darksidecode/simpleconfigs/Config.java:252-254 | When the indent drops to zero, or the path has no dot, the path becomes empty. When the indent does not drop, the path is kept |
| ConfigParser.Dedent | src/me/darksidecode/simpleconfigs/Config.java:252-259 | Dedenting fails exactly when the indent drops to between 1 and 3 inside a dotted path, where the copied array is empty and the join's deletion runs out of bounds. That failure is an index error. An indent that does not drop keeps the path |
| ConfigParser.DedentKeepsSegments | src/me/darksidecode/simpleconfigs/Config.java:255-259 | When the indent drops to `4m > 0` inside a dotted path, the path becomes its first `m` segments, padded with `"null"` when it has fewer |
| ConfigParser.DedentSucceeds | src/me/darksidecode/simpleconfigs/Config.java:286-293 | For an indent that is a multiple of four, the join inside the dedent rule never runs out of bounds |
| ConfigParser.EntryStores | src/me/darksidecode/simpleconfigs/Config.java:296-314 | An entry stores, under the path-prefixed text before the first `" = "`, the trimmed text after that mark, read as a scalar or a list. The value may itself contain `" = "`. The path becomes the dedented one, the indent becomes the line's, and the sections are unchanged |
| ConfigParser.HeaderLineOpens | src/me/darksidecode/simpleconfigs/Config.java:238-267 | A header appends its name, the trimmed line without the final `:`, to the dedented path. It registers the name at its indent and leaves the store unchanged |
| ParseNesting.NestedThenTop | src/me/darksidecode/simpleconfigs/Config.java:238-314 | The lines `a:`, `    b:`, `        k = v` and `o = w`, for any header names, plain keys and readable values, store `a.b.k` and then `o` at the top level, in that order. The index then records `a` at indent 0 and `b` at indent 4 |
| ConfigWriter.LookupIndent | src/me/darksidecode/simpleconfigs/Config.java:885-895 | The result is `-1` when no list holds the name. Otherwise it is an indent whose list holds the name, and no later indent in the iteration order holds it |
| ConfigWriter.FindIndent | src/me/darksidecode/simpleconfigs/Config.java:885-895 | The nested loop with its inner `break` computes `LookupIndent` |
| ConfigWriter.LookupRecorded | src/me/darksidecode/simpleconfigs/Config.java:885-898 | The lookup finds an indent exactly when some list of the index holds the name, and the list at that indent holds it |
| ConfigWriter.Headers | src/me/darksidecode/simpleconfigs/Config.java:880-904 | After the headers of a path, the written set is the old set plus every name of the path. Every failure is a format error |
| ConfigWriter.HeaderText | src/me/darksidecode/simpleconfigs/Config.java:884-903 | A name already written adds no text. A name not written yet is written once, as its indent in spaces, the name, `:` and a line break, at an indent whose list holds it |
| ConfigWriter.HeadersSucceed | src/me/darksidecode/simpleconfigs/Config.java:884-898 | The headers of a path are written exactly when every name on it is recorded in the index |
| ConfigWriter.AppendValue | src/me/darksidecode/simpleconfigs/Config.java:918-929 | Appending a value adds exactly its reference rendering: a scalar's text, or `[`, the items joined by the mark, `]`. Deleting the last mark never eats text the builder held before |
| ConfigWriter.DottedEntryText | src/me/darksidecode/simpleconfigs/Config.java:876-931 | A dotted entry is written as its pending headers, then four spaces per section, the last segment, `" = "`, the rendered value and a line break |
| ConfigWriter.WriteEntry | src/me/darksidecode/simpleconfigs/Config.java:874-931 | Writing an entry only appends text after the existing builder, and never forgets a written name |
| ConfigWriter.WritePlain | src/me/darksidecode/simpleconfigs/Config.java:912-931 | A store without dotted keys is written as its `key = value` lines in insertion order |
| ConfigWriter.WriteEntrySucceeds | src/me/darksidecode/simpleconfigs/Config.java:874-912 | An entry is written exactly when it is writable: its key splits into segments, and every section name on it is recorded. Every name written is recorded |
| ConfigWriter.WriteSucceeds | src/me/darksidecode/simpleconfigs/Config.java:874-932 | The loop over the store succeeds exactly when every entry is writable |
| ConfigWriter.ToStringSucceeds | src/me/darksidecode/simpleconfigs/Config.java:870-935 | `toString()` succeeds exactly when every dotted key splits into segments and every section name on it is recorded. |
| ConfigWriter.ToString | src/me/darksidecode/simpleconfigs/Config.java:870-935 | A written text has at least one character per entry |
| ConfigBuilder.AddOnce | src/me/darksidecode/simpleconfigs/Config.java:191-194 | The indent's list gains the name unless it already holds it, and every list keeps what it held and gains nothing else. Lists free of duplicates stay free of them |
| ConfigBuilder.Declare | src/me/darksidecode/simpleconfigs/Config.java:190-195 | Declaring a path keeps every existing entry of the index, adds only indents that are not negative, and keeps lists free of duplicates |
| ConfigBuilder.DeclareOnly | src/me/darksidecode/simpleconfigs/Config.java:187-195 | Declaring a path adds no name but the path's own: each name the index did not list before is segment `j` of the path, at indent `4(depth + j)` |
| ConfigBuilder.DeclareCovers | src/me/darksidecode/simpleconfigs/Config.java:187-195 | After a path is declared, its segment `j` is listed at indent `4j` |
| ConfigBuilder.DeclareIndexed | src/me/darksidecode/simpleconfigs/Config.java:190-195 | Declaring keeps the index well formed: its levels are non-negative multiples of four, and no list holds a name twice |
| ConfigBuilder.AddPair | src/me/darksidecode/simpleconfigs/Config.java:178-205 | A pair is accepted exactly when its key and value are both non-blank, and then the cleaned key maps to the cleaned value read as a scalar or a list. A blank key fails first with "Key cannot be empty". A blank value fails with "Value cannot be empty" |
| ConfigBuilder.AddPairs | src/me/darksidecode/simpleconfigs/Config.java:178-206 | Every failure of the loop over the pairs is the "Key cannot be empty" or the "Value cannot be empty" format error |
| ConfigBuilder.FromPairs | src/me/darksidecode/simpleconfigs/Config.java:153-210 | A null or empty argument list gives the empty configuration with hash 0. An odd-length list fails with an illegal-argument error. A built configuration records its store's hash |
| ConfigBuilder.AddPairsSucceed | src/me/darksidecode/simpleconfigs/Config.java:178-206 | The loop over the pairs succeeds exactly when every key and every value is non-blank |
| ConfigBuilder.AddPairsStores | src/me/darksidecode/simpleconfigs/Config.java:178-206 | After the loop, each key maps to the value of its last pair, and keys without a pair keep their previous value |
| ConfigBuilder.AddPairsCovers | src/me/darksidecode/simpleconfigs/Config.java:185-196 | After the loop, the index is well formed and every section segment of every stored dotted key is listed at its level |
| ConfigBuilder.BuiltIsCovered | src/me/darksidecode/simpleconfigs/Config.java:153-210 | Every configuration the constructor builds has a well-formed index that lists every section segment of every stored key at indent `4j` |
| ConfigBuilder.BuiltWrites | src/me/darksidecode/simpleconfigs/Config.java:897-898 | `toString()` never raises the "No indent" error for a configuration the constructor built. It succeeds exactly when every dotted key splits into segments |
| RoundTrip.ValueReads | src/me/darksidecode/simpleconfigs/Config.java:918-929 | A plain value's rendering reads back as the same value: an unbracketed scalar, the empty list, or a one-item list without brackets or backslash |
| RoundTrip.LineReads | src/me/darksidecode/simpleconfigs/Config.java:227-316 | At top level, the written line of a plain entry stores exactly that entry and leaves path and indent at top level |
| RoundTrip.LinesRead | src/me/darksidecode/simpleconfigs/Config.java:227-316 | Reading the lines of plain entries with distinct keys appends exactly those entries to the store |
| RoundTrip.WritesPlain | src/me/darksidecode/simpleconfigs/Config.java:870-935 | A configuration whose keys are plain is written as its `key = value` lines |
| RoundTrip.PlainRoundTrip | src/me/darksidecode/simpleconfigs/Config.java:220-319 | Writing a configuration of plain entries with distinct keys and reading it back gives the same store with an empty index. The configuration read back has nothing for `save` to write |
| RoundTrip.EmptyTextReads | src/me/darksidecode/simpleconfigs/Config.java:220-319 | The empty text reads as the empty configuration |
| RoundTrip.OneLineElsewhere | src/me/darksidecode/simpleconfigs/Config.java:227 | On Windows and on the classic Mac, a text without a carriage return splits into one single line |
| RoundTrip.TwoItemListWritten | src/me/darksidecode/simpleconfigs/Config.java:918-929 | A two-item list is written with the six-character mark between its items |
| RoundTrip.MarkedListReads | src/me/darksidecode/simpleconfigs/Config.java:1027-1028 | Two items joined by the mark read back cut at the `", "` inside it: the first item keeps `\Q` and the second starts with `\E` |
| RoundTrip.TwoItemListChanges | src/me/darksidecode/simpleconfigs/Config.java:1021-1031 | Writing a two-item list and reading it back gives a different list, the items carrying the halves of the mark |
| JavaText.SplitAtFirst | src/me/darksidecode/simpleconfigs/Config.java:296-307 | Splitting on a separator present in a text that does not end with the separator's last character gives at least two pieces. The first piece is the text before the first match, and the remaining pieces rejoin to exactly the text after it |
| JavaText.SplitOfJoined | src/me/darksidecode/simpleconfigs/Config.java:1028 | Splitting pieces joined by a separator gives back the pieces when none holds the separator's first character and the last is not empty |
| JavaText.Split | src/me/darksidecode/simpleconfigs/Config.java:296 | Without a match, the result is the whole text as one piece. With a match, the last piece kept is never empty |
| JavaText.SplitRejoins | src/me/darksidecode/simpleconfigs/Config.java:1028 | Splitting drops only separators: the text is its kept pieces rejoined, followed by one separator for each dropped empty piece. When nothing is kept, the text is separators only |
| JavaText.Trim | src/me/darksidecode/simpleconfigs/Config.java:235 | The trimmed text is no longer than the original. Unless empty, it starts and ends with a character above U+0020 |
| JavaText.TrimSlice | src/me/darksidecode/simpleconfigs/Config.java:235 | The trimmed text is the slice of the original left between a leading and a trailing run of characters at or below U+0020 |
| JavaText.Replace | src/me/darksidecode/simpleconfigs/Config.java:228 | Replacing with text no longer than the target never makes the text longer. A text without the target comes back unchanged |
| JavaText.ReplaceCharConcat | src/me/darksidecode/simpleconfigs/Config.java:229 | Replacing a single character distributes over concatenation |
| JavaText.JavaLength | src/me/darksidecode/simpleconfigs/Config.java:232 | The length in UTF-16 code units lies between the number of characters and twice that number |
| JavaText.NarrowLength | src/me/darksidecode/simpleconfigs/Config.java:232 | For text with no character above U+FFFF, the UTF-16 length is the number of characters |
| JavaText.WideLength | src/me/darksidecode/simpleconfigs/Config.java:270 | For text made only of characters above U+FFFF, the UTF-16 length is twice the number of characters |

## Left out

- **File I/O.** The file constructors, `read`, `write` and the file side of `save` are left
  out. `save` is modelled only as its gate (`Config.SaveWrites`): it writes exactly when
  the store's hash differs from the initial hash.
- **Platform detection.** `getLineBreak()` and `OS.getOS()` read a system property, so the
  platform is a parameter of `Parse` instead.
- **Typed accessors.** `get<T>` and the typed accessors (`getInteger`, `getBoolean`,
  `getDouble` and the like) are left out. They cast, or call Java's number and boolean
  parsers, or work in floating point.
- **Hashing.** Java's `hashCode` of the map is not computed. It is the parameter `hash`.
- **Stored values.** Values stored through `set` are limited to a scalar text or a list of
  texts. Arbitrary objects and their `toString()` are not modelled.
- **Null array elements.** Null elements inside the varargs array are not modelled (a
  `null` key or value there would throw). The array itself may be null.
- **`parseList`'s catch clause.** `parseList` wraps its body in a catch-all. No exception
  can arise inside it, so the catch is not modelled.
- **Round trips.** They are stated for Unix line breaks, and the round-trip lemmas cover
  stores of plain top-level keys. Text written by `toString()` ends its lines with `\n`
  alone. On Windows and on the classic Mac the parser splits on `\r\n` and on `\r`, so
  such a text, when it holds no `\r` (no key, section name or value contains one), is
  read there as one single line (`RoundTrip.OneLineElsewhere`).
- Strings.DeleteTailing: `chars` counts characters, not UTF-16 code units. A builder
  here holds Unicode scalar values, so it cannot hold half of a surrogate pair, which is
  what deleting one code unit from a character above U+FFFF leaves in Java. The writer,
  the only caller in the core, deletes the six ASCII characters of the list mark, where
  both counts agree.
- Config.GetOrSet: the key is never null. The store's keys are texts, so the entry that
  `computeIfAbsent` would insert under a `null` key is not modelled.
- ConfigWriter.ToString: its own contract states only that the text is at least one
  character per entry. The text is stated by `WritePlain` and `DottedEntryText`, and
  success by `ToStringSucceeds`.
- ConfigWriter.WriteEntry: its own contract states only that the builder grows. The
  text is stated by `DottedEntryText` and `WritePlain`.
- ConfigParser.Step: its own contract states only invariants. What each kind of line
  does is stated by `SkippedLineChangesNothing`, `MisindentedLineFails`, `NotAStatement`,
  `HeaderLineOpens` and `EntryStores`.
- ConfigParser.DedentKeepsSegments: it covers paths of at least two dot-free segments
  whose last segment is non-empty. Other paths are not covered.
- RoundTrip.PlainRoundTrip: it covers configurations without dotted keys. For
  configurations with sections, only the writer side is stated (`DottedEntryText`,
  `HeaderText`).
