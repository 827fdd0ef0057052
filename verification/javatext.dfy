/** The parts of `java.lang.String` the configuration engine relies on: `indexOf`,
    `contains`, `startsWith`, `endsWith`, literal `replace`, `trim` (which strips every
    character up to U+0020, not only spaces), `split` on a literal pattern (leading empty
    pieces kept, trailing ones dropped) and `length`. A Dafny `string` is a sequence of
    Unicode scalar values while a Java string is a sequence of UTF-16 code units; the
    operations above agree on both readings for the ASCII patterns the engine uses, and
    `JavaLength` gives the UTF-16 count wherever the engine compares a length. */
module JavaText {

  /** `s.startsWith(p)` */
  predicate StartsWith(s: string, p: string) {
    |p| <= |s| && s[..|p|] == p
  }

  /** `s.endsWith(p)` */
  predicate EndsWith(s: string, p: string) {
    |p| <= |s| && s[|s| - |p|..] == p
  }

  /** `p` occurs in `s` starting at position `j`. */
  predicate OccursAt(s: string, p: string, j: int) {
    0 <= j && j + |p| <= |s| && s[j..j + |p|] == p
  }

  /** `s.indexOf(p)`: the first position of `p` in `s`, or -1. */
  function IndexOf(s: string, p: string): (r: int)
    requires |p| > 0
    ensures r >= -1
    ensures r >= 0 ==> OccursAt(s, p, r)
    ensures forall j :: OccursAt(s, p, j) ==> 0 <= r <= j
    decreases |s|
  {
    if |s| < |p| then -1
    else if s[..|p|] == p then 0
    else
      var k := IndexOf(s[1..], p);
      assert forall j :: OccursAt(s, p, j) ==> j >= 1 && OccursAt(s[1..], p, j - 1) by {
        forall j | OccursAt(s, p, j) ensures j >= 1 && OccursAt(s[1..], p, j - 1) {
          assert s[1..][j - 1..j - 1 + |p|] == s[j..j + |p|];
        }
      }
      if k < 0 then -1
      else
        assert s[1..][k..k + |p|] == s[k + 1..k + 1 + |p|];
        k + 1
  }

  /** `s.contains(p)` */
  predicate Contains(s: string, p: string)
    requires |p| > 0
  {
    IndexOf(s, p) >= 0
  }

  /** A text containing a pattern is at least as long as the pattern. */
  lemma {:induction false} ContainsLength(s: string, p: string)
    requires |p| > 0 && Contains(s, p)
    ensures |s| >= |p|
  {
  }

  /** A single character occurs as a pattern exactly where it occurs as an element. */
  lemma {:induction false} ContainsChar(s: string, c: char)
    ensures Contains(s, [c]) <==> c in s
  {
    if c in s {
      var j :| 0 <= j < |s| && s[j] == c;
      assert OccursAt(s, [c], j);
    }
    var r := IndexOf(s, [c]);
    if r >= 0 {
      assert s[r..r + 1][0] == s[r];
    }
  }

  /** `s.replace(target, replacement)`: every non-overlapping occurrence of `target`,
      scanning from the left, is replaced. */
  function Replace(s: string, target: string, replacement: string): (r: string)
    requires |target| > 0
    ensures |replacement| <= |target| ==> |r| <= |s|
    ensures !Contains(s, target) ==> r == s
    decreases |s|
  {
    if |s| == 0 then ""
    else if StartsWith(s, target) then
      assert OccursAt(s, target, 0);
      replacement + Replace(s[|target|..], target, replacement)
    else
      assert forall j :: OccursAt(s[1..], target, j) ==> OccursAt(s, target, j + 1) by {
        forall j | OccursAt(s[1..], target, j) ensures OccursAt(s, target, j + 1) {
          assert s[1..][j..j + |target|] == s[j + 1..j + 1 + |target|];
        }
      }
      [s[0]] + Replace(s[1..], target, replacement)
  }

  /** Replacing a single character distributes over concatenation. */
  lemma {:induction false} ReplaceCharConcat(a: string, b: string, c: char, replacement: string)
    ensures Replace(a + b, [c], replacement) == Replace(a, [c], replacement) + Replace(b, [c], replacement)
    decreases |a|
  {
    if |a| == 0 {
      assert a + b == b;
    } else {
      assert (a + b)[1..] == a[1..] + b;
      ReplaceCharConcat(a[1..], b, c, replacement);
    }
  }

  /** Replacing a character that does not occur changes nothing. */
  lemma {:induction false} ReplaceAbsent(s: string, c: char)
    requires c !in s
    ensures Replace(s, [c], "") == s
  {
    ContainsChar(s, c);
  }

  /** Replacing a character by nothing in the text of that character alone leaves nothing. */
  lemma {:induction false} ReplaceAlone(c: char)
    ensures Replace([c], [c], "") == ""
  {
    assert [c][1..] == [];
  }

  /** Removing a character from a one-character text. */
  lemma {:induction false} ReplaceOne(x: char, c: char)
    ensures Replace([x], [c], "") == if x == c then [] else [x]
  {
    if x == c {
      ReplaceAlone(c);
    } else {
      ReplaceAbsent([x], c);
    }
  }

  /** After replacing a character by text that does not contain it, the character is gone. */
  lemma {:induction false} ReplaceCharRemoves(s: string, c: char, replacement: string)
    requires c !in replacement
    ensures c !in Replace(s, [c], replacement)
    decreases |s|
  {
    if |s| > 0 {
      ReplaceCharRemoves(s[1..], c, replacement);
    }
  }

  /** `s.replace(" ", "")` */
  function RemoveSpaces(s: string): (r: string)
    ensures ' ' !in r
    ensures |r| <= |s|
  {
    ReplaceCharRemoves(s, ' ', "");
    Replace(s, " ", "")
  }

  /** Some character is not a space. */
  predicate HasNonSpace(s: string)
    decreases |s|
  {
    s != [] && (s[0] != ' ' || HasNonSpace(s[1..]))
  }

  /** Removing spaces leaves nothing exactly when every character is a space. */
  lemma {:induction false} RemoveSpacesEmpty(s: string)
    ensures RemoveSpaces(s) == "" <==> !HasNonSpace(s)
    decreases |s|
  {
    if s != [] {
      assert s == [s[0]] + s[1..];
      RemoveSpacesConcat([s[0]], s[1..]);
      RemoveSpacesEmpty(s[1..]);
    }
  }

  /** Removing spaces keeps the non-space characters, in order. */
  lemma {:induction false} RemoveSpacesConcat(a: string, b: string)
    ensures RemoveSpaces(a + b) == RemoveSpaces(a) + RemoveSpaces(b)
  {
    ReplaceCharConcat(a, b, ' ', "");
  }

  /** Replacing a character only ever adds characters of the replacement. */
  lemma {:induction false} ReplaceCharAdds(s: string, c: char, replacement: string)
    ensures forall x :: x in Replace(s, [c], replacement) ==> x in s || x in replacement
    decreases |s|
  {
    if |s| > 0 {
      ReplaceCharAdds(s[1..], c, replacement);
    }
  }

  /** The last character left after removing spaces is the last non-space character. */
  lemma {:induction false} RemoveSpacesLast(s: string) returns (j: nat)
    requires RemoveSpaces(s) != ""
    ensures j < |s| && s[j] == RemoveSpaces(s)[|RemoveSpaces(s)| - 1] && s[j] != ' '
    ensures forall i :: j < i < |s| ==> s[i] == ' '
    decreases |s|
  {
    var init := s[..|s| - 1];
    RemoveSpacesSnoc(s);
    if s[|s| - 1] == ' ' {
      j := RemoveSpacesLast(init);
      assert s[j] == init[j];
    } else {
      j := |s| - 1;
    }
  }

  /** Removing spaces from a text is removing them from all but its last character, then
      keeping that character unless it is a space. */
  lemma {:induction false} RemoveSpacesSnoc(s: string)
    requires s != []
    ensures RemoveSpaces(s) == RemoveSpaces(s[..|s| - 1]) + (if s[|s| - 1] == ' ' then "" else [s[|s| - 1]])
  {
    var x := s[|s| - 1];
    assert s == s[..|s| - 1] + [x];
    RemoveSpacesConcat(s[..|s| - 1], [x]);
    assert [x][1..] == [];
  }


  /** Removing spaces from text without spaces changes nothing. */
  lemma {:induction false} RemoveSpacesNone(s: string)
    requires ' ' !in s
    ensures RemoveSpaces(s) == s
  {
    ContainsChar(s, ' ');
  }

  /** `s.length()`: the number of UTF-16 code units, two for a character above U+FFFF
      (a surrogate pair) and one for any other. */
  function JavaLength(s: string): (n: nat)
    ensures |s| <= n <= 2 * |s|
    decreases |s|
  {
    if s == [] then 0 else (if s[0] as int >= 0x1_0000 then 2 else 1) + JavaLength(s[1..])
  }

  /** Text in the Basic Multilingual Plane has one code unit per character. */
  lemma {:induction false} NarrowLength(s: string)
    requires forall i :: 0 <= i < |s| ==> s[i] as int < 0x1_0000
    ensures JavaLength(s) == |s|
    decreases |s|
  {
    if s != [] {
      NarrowLength(s[1..]);
    }
  }

  /** Text made only of characters above U+FFFF has two code units per character. */
  lemma {:induction false} WideLength(s: string)
    requires forall i :: 0 <= i < |s| ==> s[i] as int >= 0x1_0000
    ensures JavaLength(s) == 2 * |s|
    decreases |s|
  {
    if s != [] {
      WideLength(s[1..]);
    }
  }

  /** The code units of a concatenation are those of its parts. */
  lemma {:induction false} JavaLengthConcat(a: string, b: string)
    ensures JavaLength(a + b) == JavaLength(a) + JavaLength(b)
    decreases |a|
  {
    if a == [] {
      assert a + b == b;
    } else {
      assert (a + b)[1..] == a[1..] + b;
      JavaLengthConcat(a[1..], b);
    }
  }

  /** Characters Java's `trim()` strips: every code point up to U+0020. */
  predicate IsTrimmable(c: char) {
    c <= ' '
  }

  function TrimStart(s: string): (r: string)
    ensures |r| <= |s| && r == s[|s| - |r|..]
    ensures r == [] || !IsTrimmable(r[0])
    ensures forall i :: 0 <= i < |s| - |r| ==> IsTrimmable(s[i])
    decreases |s|
  {
    if |s| > 0 && IsTrimmable(s[0]) then TrimStart(s[1..]) else s
  }

  function TrimEnd(s: string): (r: string)
    ensures |r| <= |s| && r == s[..|r|]
    ensures r == [] || !IsTrimmable(r[|r| - 1])
    ensures forall i :: |r| <= i < |s| ==> IsTrimmable(s[i])
    decreases |s|
  {
    if |s| > 0 && IsTrimmable(s[|s| - 1]) then TrimEnd(s[..|s| - 1]) else s
  }

  /** `s.trim()` */
  function Trim(s: string): (r: string)
    ensures |r| <= |s|
    ensures r == [] || (!IsTrimmable(r[0]) && !IsTrimmable(r[|r| - 1]))
  {
    TrimEnd(TrimStart(s))
  }

  /** The trimmed text is the slice of the original between a run of trimmable
      characters at the front and one at the back. */
  lemma {:induction false} TrimSlice(s: string) returns (a: nat)
    ensures a + |Trim(s)| <= |s| && Trim(s) == s[a..a + |Trim(s)|]
    ensures forall i :: 0 <= i < a ==> IsTrimmable(s[i])
    ensures forall i :: a + |Trim(s)| <= i < |s| ==> IsTrimmable(s[i])
  {
    var front := TrimStart(s);
    a := |s| - |front|;
    var r := TrimEnd(front);
    assert Trim(s) == r;
    assert front == s[a..] && r == front[..|r|];
    assert s[a..a + |r|] == front[..|r|];
    forall i | a + |r| <= i < |s|
      ensures IsTrimmable(s[i])
    {
      assert s[i] == front[i - a];
    }
  }

  /** Text that already starts and ends with a non-trimmable character is its own trim. */
  lemma {:induction false} TrimKeeps(s: string)
    requires s == [] || (!IsTrimmable(s[0]) && !IsTrimmable(s[|s| - 1]))
    ensures Trim(s) == s
  {
  }

  /** When the text's last non-space character is `c` and `c` is not trimmable, the
      trimmed text ends with `c`. */
  lemma {:induction false} TrimEndsAtLastNonSpace(s: string, j: int)
    requires 0 <= j < |s| && !IsTrimmable(s[j])
    requires forall i :: j < i < |s| ==> s[i] == ' '
    ensures Trim(s) != [] && Trim(s)[|Trim(s)| - 1] == s[j]
  {
    var a := TrimStartBefore(s, j);
    TrimEndAfter(s, a, j);
    SliceLast(s, a, j);
  }

  lemma {:induction false} SliceLast(s: string, a: int, j: int)
    requires 0 <= a <= j < |s|
    ensures |s[a..j + 1]| == j - a + 1 && s[a..j + 1][j - a] == s[j]
  {
  }

  /** Trimming the start of a text with a non-trimmable character at `j` removes a prefix
      of at most `j` characters. */
  lemma {:induction false} TrimStartBefore(s: string, j: int) returns (a: int)
    requires 0 <= j < |s| && !IsTrimmable(s[j])
    ensures 0 <= a <= j && TrimStart(s) == s[a..]
  {
    a := |s| - |TrimStart(s)|;
  }

  /** The suffix from `a` of a text whose last non-space character is at `j` keeps, after
      trimming its end, exactly the characters from `a` to `j`. */
  lemma {:induction false} TrimEndAfter(s: string, a: int, j: int)
    requires 0 <= a <= j < |s| && !IsTrimmable(s[j])
    requires forall i :: j < i < |s| ==> s[i] == ' '
    ensures TrimEnd(s[a..]) == s[a..j + 1]
  {
    var u := s[a..];
    forall i | j - a < i < |u| ensures u[i] == ' ' {
      assert u[i] == s[i + a];
    }
    TrimEndAt(u, j - a);
    assert u[..j - a + 1] == s[a..j + 1];
  }

  /** Trimming the end of a text whose last non-space character is at `j` keeps exactly
      the text up to `j`. */
  lemma {:induction false} TrimEndAt(u: string, j: int)
    requires 0 <= j < |u| && !IsTrimmable(u[j])
    requires forall i :: j < i < |u| ==> u[i] == ' '
    ensures TrimEnd(u) == u[..j + 1]
  {
    var t := TrimEnd(u);
    assert |t| > j;
    assert t[|t| - 1] == u[|t| - 1];
    assert |t| == j + 1;
  }

  /** `parts[0] + sep + parts[1] + ... + sep + parts[|parts| - 1]` */
  function Joined(parts: seq<string>, sep: string): string
    requires |parts| > 0
    decreases |parts|
  {
    if |parts| == 1 then parts[0] else parts[0] + sep + Joined(parts[1..], sep)
  }

  /** Every piece between two matches of `sep`, empty ones included. */
  function Pieces(s: string, sep: string): (r: seq<string>)
    requires |sep| > 0
    ensures |r| >= 1
    decreases |s|
  {
    var i := IndexOf(s, sep);
    if i < 0 then [s] else [s[..i]] + Pieces(s[i + |sep|..], sep)
  }

  function DropTrailingEmpty(ps: seq<string>): (r: seq<string>)
    ensures |r| <= |ps| && r == ps[..|r|]
    ensures r == [] || r[|r| - 1] != ""
    ensures forall i :: |r| <= i < |ps| ==> ps[i] == ""
    decreases |ps|
  {
    if |ps| > 0 && ps[|ps| - 1] == "" then DropTrailingEmpty(ps[..|ps| - 1]) else ps
  }

  /** `s.split(Pattern.quote(sep))`: the whole text when `sep` does not occur, otherwise
      the pieces with trailing empty ones removed. */
  function Split(s: string, sep: string): (r: seq<string>)
    requires |sep| > 0
    ensures IndexOf(s, sep) < 0 ==> r == [s]
    ensures IndexOf(s, sep) >= 0 ==> r == [] || r[|r| - 1] != ""
  {
    if IndexOf(s, sep) < 0 then [s] else DropTrailingEmpty(Pieces(s, sep))
  }

  /** `n` copies of `sep`. */
  function Repeat(sep: string, n: nat): string {
    if n == 0 then "" else Repeat(sep, n - 1) + sep
  }

  /** What `split` drops is only separators: the text is its pieces rejoined followed by
      one separator per dropped empty piece (all of them separators when nothing is kept). */
  lemma {:induction false} SplitRejoins(s: string, sep: string)
    requires |sep| > 0
    ensures Split(s, sep) == [] ==> s == Repeat(sep, |Pieces(s, sep)| - 1)
    ensures Split(s, sep) != [] ==>
              s == Joined(Split(s, sep), sep) + Repeat(sep, |Pieces(s, sep)| - |Split(s, sep)|)
  {
    var ps := Pieces(s, sep);
    JoinedPieces(s, sep);
    if IndexOf(s, sep) >= 0 {
      var r := DropTrailingEmpty(ps);
      if r == [] {
        var tail := seq(|ps| - 1, _ => "");
        assert ps == [""] + tail;
        JoinedEmptyTail([""], |ps| - 1, sep);
      } else {
        var tail := seq(|ps| - |r|, _ => "");
        assert ps == r + tail;
        JoinedEmptyTail(r, |ps| - |r|, sep);
      }
    }
  }

  /** Joining `n` more empty parts appends `n` separators. */
  lemma {:induction false} JoinedEmptyTail(parts: seq<string>, n: nat, sep: string)
    requires |parts| > 0
    ensures Joined(parts + seq(n, _ => ""), sep) == Joined(parts, sep) + Repeat(sep, n)
    decreases n
  {
    var all := parts + seq(n, _ => "");
    if n == 0 {
      assert all == parts;
    } else {
      JoinedLast(all, sep);
      assert all[..|all| - 1] == parts + seq(n - 1, _ => "");
      JoinedEmptyTail(parts, n - 1, sep);
    }
  }

  /** Joining the pieces with the separator rebuilds the text: the partner of `Pieces`. */
  lemma {:induction false} JoinedPieces(s: string, sep: string)
    requires |sep| > 0
    ensures Joined(Pieces(s, sep), sep) == s
    decreases |s|
  {
    var i := IndexOf(s, sep);
    if i >= 0 {
      var rest := s[i + |sep|..];
      var ps := Pieces(s, sep);
      assert ps == [s[..i]] + Pieces(rest, sep);
      assert ps[1..] == Pieces(rest, sep);
      JoinedPieces(rest, sep);
      assert Joined(ps, sep) == s[..i] + sep + rest;
      CutAround(s, i, |sep|);
    }
  }

  /** A text is its part before `i`, the `n` characters from `i`, and the rest. */
  lemma {:induction false} CutAround(s: string, i: int, n: nat)
    requires 0 <= i && i + n <= |s|
    ensures s == s[..i] + s[i..i + n] + s[i + n..]
  {
  }

  /** The last part of a join follows the last separator. */
  lemma {:induction false} JoinedLast(parts: seq<string>, sep: string)
    requires |parts| >= 2
    ensures Joined(parts, sep) == Joined(parts[..|parts| - 1], sep) + sep + parts[|parts| - 1]
    decreases |parts|
  {
    if |parts| > 2 {
      JoinedLast(parts[1..], sep);
      assert parts[1..][..|parts| - 2] == parts[..|parts| - 1][1..];
    }
  }

  /** Every character of a join comes from a part or from the separator. */
  lemma {:induction false} JoinedChars(parts: seq<string>, sep: string, x: char)
    requires |parts| > 0
    requires x in Joined(parts, sep)
    ensures x in sep || exists i :: 0 <= i < |parts| && x in parts[i]
    decreases |parts|
  {
    if |parts| > 1 && x !in parts[0] && x !in sep {
      JoinedChars(parts[1..], sep, x);
      var i :| 0 <= i < |parts[1..]| && x in parts[1..][i];
      assert x in parts[i + 1];
    }
  }

  /** Every character of a piece comes from the text. */
  lemma {:induction false} PiecesChars(s: string, sep: string)
    requires |sep| > 0
    ensures forall i, x :: 0 <= i < |Pieces(s, sep)| && x in Pieces(s, sep)[i] ==> x in s
    decreases |s|
  {
    var k := IndexOf(s, sep);
    if k >= 0 {
      var rest := s[k + |sep|..];
      PiecesChars(rest, sep);
      forall i, x | 0 <= i < |Pieces(s, sep)| && x in Pieces(s, sep)[i] ensures x in s {
        if i == 0 {
          assert x in s[..k];
        } else {
          assert Pieces(s, sep)[i] == Pieces(rest, sep)[i - 1];
          assert x in rest;
        }
      }
    }
  }

  /** Every character of a split piece comes from the text. */
  lemma {:induction false} SplitChars(s: string, sep: string)
    requires |sep| > 0
    ensures forall i, x :: 0 <= i < |Split(s, sep)| && x in Split(s, sep)[i] ==> x in s
  {
    PiecesChars(s, sep);
  }

  /** A text that contains the separator and does not end with the separator's last
      character splits into the part before its first occurrence and pieces that rejoin to
      everything after it. */
  lemma {:induction false} SplitAtFirst(s: string, sep: string)
    requires |sep| > 0 && IndexOf(s, sep) >= 0 && s[|s| - 1] != sep[|sep| - 1]
    ensures |Split(s, sep)| >= 2
    ensures Split(s, sep)[0] == s[..IndexOf(s, sep)]
    ensures Joined(Split(s, sep)[1..], sep) == s[IndexOf(s, sep) + |sep|..]
  {
    SplitKeepsPieces(s, sep);
    PiecesAtFirst(s, sep);
    JoinedPieces(s[IndexOf(s, sep) + |sep|..], sep);
  }

  /** With a match and a last character unlike the separator's, no piece is dropped. */
  lemma {:induction false} SplitKeepsPieces(s: string, sep: string)
    requires |sep| > 0 && IndexOf(s, sep) >= 0 && s[|s| - 1] != sep[|sep| - 1]
    ensures Split(s, sep) == Pieces(s, sep)
  {
    PiecesAtFirst(s, sep);
    PiecesLastNonEmpty(s, sep);
    DropNothing(Pieces(s, sep));
  }

  /** A text with a match has the part before the first match as its first piece and the
      pieces of what follows that match as the others. */
  lemma {:induction false} PiecesAtFirst(s: string, sep: string)
    requires |sep| > 0 && IndexOf(s, sep) >= 0
    ensures |Pieces(s, sep)| >= 2
    ensures Pieces(s, sep)[0] == s[..IndexOf(s, sep)]
    ensures Pieces(s, sep)[1..] == Pieces(s[IndexOf(s, sep) + |sep|..], sep)
  {
    var i := IndexOf(s, sep);
    var rest := Pieces(s[i + |sep|..], sep);
    assert Pieces(s, sep) == [s[..i]] + rest;
    ConsParts(s[..i], rest);
  }

  /** A piece put in front of others is the first, and the others follow it. */
  lemma {:induction false} ConsParts(x: string, rest: seq<string>)
    ensures |[x] + rest| == |rest| + 1 && ([x] + rest)[0] == x && ([x] + rest)[1..] == rest
  {
  }

  /** Pieces whose last one is not empty lose nothing. */
  lemma {:induction false} DropNothing(ps: seq<string>)
    requires ps != [] && ps[|ps| - 1] != ""
    ensures DropTrailingEmpty(ps) == ps
  {
  }

  /** After a match, the last piece is empty only when the text ends like the separator. */
  lemma {:induction false} PiecesLastNonEmpty(s: string, sep: string)
    requires |sep| > 0 && |Pieces(s, sep)| >= 2 && |s| > 0 && s[|s| - 1] != sep[|sep| - 1]
    ensures Pieces(s, sep)[|Pieces(s, sep)| - 1] != ""
  {
    var ps := Pieces(s, sep);
    PiecesAroundLast(s, sep);
    TailAfterSeparator(Joined(ps[..|ps| - 1], sep), sep, ps[|ps| - 1]);
  }

  /** With two pieces or more, the text is the join of all but the last piece, a separator,
      and the last piece. */
  lemma {:induction false} PiecesAroundLast(s: string, sep: string)
    requires |sep| > 0 && |Pieces(s, sep)| >= 2
    ensures var ps := Pieces(s, sep);
            s == Joined(ps[..|ps| - 1], sep) + sep + ps[|ps| - 1]
  {
    JoinedPieces(s, sep);
    JoinedLast(Pieces(s, sep), sep);
  }

  /** What follows a separator in a text whose last character differs from the
      separator's is not empty. */
  lemma {:induction false} TailAfterSeparator(front: string, sep: string, tail: string)
    requires |sep| > 0 && (front + sep + tail)[|front + sep + tail| - 1] != sep[|sep| - 1]
    ensures tail != ""
  {
  }

  /** A separator whose first character is absent from `a` is first found right after `a`. */
  lemma {:induction false} IndexOfAfter(a: string, sep: string, b: string)
    requires |sep| > 0 && sep[0] !in a
    ensures IndexOf(a + sep + b, sep) == |a|
  {
    var s := a + sep + b;
    assert s[|a|..|a| + |sep|] == sep;
    assert OccursAt(s, sep, |a|);
    var r := IndexOf(s, sep);
    assert s[r..r + |sep|][0] == s[r];
  }

  /** A text without the separator's first character contains no separator. */
  lemma {:induction false} IndexOfAbsent(s: string, sep: string)
    requires |sep| > 0 && sep[0] !in s
    ensures IndexOf(s, sep) == -1
  {
  }

  /** Splitting a joined text gives the parts back when no part holds the separator's
      first character: the partner of `Joined`. */
  lemma {:induction false} PiecesOfJoined(parts: seq<string>, sep: string)
    requires |parts| > 0 && |sep| > 0
    requires forall i :: 0 <= i < |parts| ==> sep[0] !in parts[i]
    ensures Pieces(Joined(parts, sep), sep) == parts
    decreases |parts|
  {
    if |parts| == 1 {
      IndexOfAbsent(parts[0], sep);
    } else {
      var rest := Joined(parts[1..], sep);
      IndexOfAfter(parts[0], sep, rest);
      var s := parts[0] + sep + rest;
      assert s[..|parts[0]|] == parts[0];
      assert s[|parts[0]| + |sep|..] == rest;
      PiecesOfJoined(parts[1..], sep);
    }
  }

  /** The split of a joined text whose last part is non-empty is the parts themselves. */
  lemma {:induction false} SplitOfJoined(parts: seq<string>, sep: string)
    requires |parts| > 0 && |sep| > 0
    requires forall i :: 0 <= i < |parts| ==> sep[0] !in parts[i]
    requires parts[|parts| - 1] != ""
    ensures Split(Joined(parts, sep), sep) == parts
  {
    PiecesOfJoined(parts, sep);
    var s := Joined(parts, sep);
    if IndexOf(s, sep) < 0 {
      assert Pieces(s, sep) == [s];
    }
  }

  /** A text whose last character differs from the pattern's last character does not end
      with the pattern. */
  lemma {:induction false} LastCharRulesOut(s: string, p: string)
    requires |s| > 0 && |p| > 0 && s[|s| - 1] != p[|p| - 1]
    ensures !EndsWith(s, p)
  {
    if |p| <= |s| {
      assert s[|s| - |p|..][|p| - 1] == s[|s| - 1];
    }
  }

  /** Parts each closed by the separator split back into those parts: the empty piece after
      the last separator is dropped. */
  lemma {:induction false} SplitOfTerminated(parts: seq<string>, sep: string)
    requires |parts| > 0 && |sep| > 0
    requires forall i :: 0 <= i < |parts| ==> sep[0] !in parts[i]
    requires parts[|parts| - 1] != ""
    ensures Split(Joined(parts + [""], sep), sep) == parts
  {
    var ps := parts + [""];
    assert forall i :: 0 <= i < |ps| ==> sep[0] !in ps[i];
    PiecesOfJoined(ps, sep);
    var text := Joined(ps, sep);
    JoinedLast(ps, sep);
    assert ps[..|ps| - 1] == parts;
    assert OccursAt(text, sep, |Joined(parts, sep)|);
    var kept := DropTrailingEmpty(ps);
    assert |kept| == |parts|;
    assert kept == ps[..|parts|] == parts;
  }
}
