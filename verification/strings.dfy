/** `Strings.join` and `Strings.deleteTailing`: the two string-builder helpers the
    configuration engine uses. A `StringBuilder` is modelled by the text it holds. */
module Strings {
  import opened Results
  import opened JavaText

  /** What `join` appends before trimming: each part followed by the separator. */
  function Appended(parts: seq<string>, sep: string): string
    decreases |parts|
  {
    if parts == [] then "" else parts[0] + sep + Appended(parts[1..], sep)
  }

  /** The builder after `count` rounds of `deleteCharAt(length() - 1)`; the caller
      guarantees the builder never runs dry. */
  function Chop(b: string, count: int): (r: string)
    requires count <= |b|
    ensures count >= 0 ==> r == b[..|b| - count]
    ensures count <= 0 ==> r == b
    decreases count
  {
    if count <= 0 then b else Chop(b[..|b| - 1], count - 1)
  }

  /** `Strings.join(start, arr, separator)`: append `arr[i]` and the separator for every
      `i` from `start` on, then delete one character per separator character. A negative
      `start` reads `arr[start]`; an empty range leaves nothing for the deletions to eat. */
  function Join(start: int, arr: seq<string>, separator: string): (r: Result<string>)
    ensures 0 <= start < |arr| ==> r == Ok(Joined(arr[start..], separator))
    ensures start < 0 ==> r == Err(IndexOutOfBounds)
    ensures start >= |arr| ==> r == (if separator == "" then Ok("") else Err(IndexOutOfBounds))
  {
    var builder := if 0 <= start < |arr| then Appended(arr[start..], separator) else "";
    if start < 0 then Err(IndexOutOfBounds)
    else if |separator| > |builder| then Err(IndexOutOfBounds)
    else if start < |arr| then
      AppendedIsJoined(arr[start..], separator);
      Ok(Chop(builder, |separator|))
    else Ok(Chop(builder, |separator|))
  }

  /** The appended text is the joined text with one separator too many. */
  lemma {:induction false} AppendedIsJoined(parts: seq<string>, sep: string)
    requires |parts| > 0
    ensures Appended(parts, sep) == Joined(parts, sep) + sep
    decreases |parts|
  {
    if |parts| > 1 {
      AppendedIsJoined(parts[1..], sep);
    } else {
      assert parts[1..] == [];
    }
  }

  function SumLengths(parts: seq<string>): nat
    decreases |parts|
  {
    if parts == [] then 0 else |parts[0]| + SumLengths(parts[1..])
  }

  /** Joining a one-element range returns exactly that element. */
  lemma {:induction false} JoinSingle(arr: seq<string>, separator: string)
    requires |arr| > 0
    ensures Join(|arr| - 1, arr, separator) == Ok(arr[|arr| - 1])
  {
  }

  /** The joined text is as long as its parts plus one separator between each pair. */
  lemma {:induction false} JoinedLength(parts: seq<string>, sep: string)
    requires |parts| > 0
    ensures |Joined(parts, sep)| == SumLengths(parts) + (|parts| - 1) * |sep|
    decreases |parts|
  {
    if |parts| > 1 {
      JoinedLength(parts[1..], sep);
    }
  }

  /** `join` over a non-empty range: the parts' lengths plus (count - 1) separators. */
  lemma {:induction false} JoinLength(start: int, arr: seq<string>, separator: string)
    requires 0 <= start < |arr|
    ensures Join(start, arr, separator).Ok?
    ensures |Join(start, arr, separator).value| == SumLengths(arr[start..]) + (|arr| - start - 1) * |separator|
  {
    JoinedLength(arr[start..], separator);
  }

  /** The two builders observable after `deleteTailing`: the one it returns and the one
      the caller passed in. */
  datatype Builders = Builders(returned: string, passed: string)

  /** `Strings.deleteTailing(sb, chars)`, counting characters (see the note on lengths in
      `JavaText`). */
  function DeleteTailing(sb: string, chars: int): (r: Builders)
    ensures chars >= |sb| ==> r.returned == "" && r.passed == sb
    ensures chars < |sb| ==> r.returned == r.passed
    ensures 0 <= chars < |sb| ==> r.passed + sb[|sb| - chars..] == sb
    ensures 0 <= chars < |sb| ==> |r.passed| == |sb| - chars
    ensures chars <= 0 ==> r.passed == sb
  {
    if chars >= |sb| then Builders("", sb)
    else
      var b := Chop(sb, chars);
      Builders(b, b)
  }
}
