/** Line-break handling: the three platform line breaks and `formatUNIX`. Which
    platform the program runs on is an input here, not something the model detects. */
module Compatibility {
  import opened JavaText

  const WINDOWS_LINE: string := "\r\n"
  const UNIX_LINE: string := "\n"
  const MAC_LINE: string := "\r"

  datatype OS = Windows | Linux | Mac {

    /** The line break the parser splits on for this platform. */
    function LineBreak(): (r: string)
      ensures |r| > 0
      ensures r in {WINDOWS_LINE, UNIX_LINE, MAC_LINE}
    {
      match this
      case Windows => WINDOWS_LINE
      case Linux => UNIX_LINE
      case Mac => MAC_LINE
    }
  }

  /** `formatUNIX(s)`: Windows line breaks, then the remaining Mac ones, become Unix ones. */
  function FormatUnix(s: string): (r: string)
    ensures '\r' !in r
    ensures |r| <= |s|
    ensures '\r' !in s ==> r == s
  {
    ReplaceCharRemoves(Replace(s, WINDOWS_LINE, UNIX_LINE), '\r', UNIX_LINE);
    NoCarriageReturnNoWindowsLine(s);
    ContainsChar(s, '\r');
    Replace(Replace(s, WINDOWS_LINE, UNIX_LINE), MAC_LINE, UNIX_LINE)
  }

  lemma {:induction false} NoCarriageReturnNoWindowsLine(s: string)
    ensures '\r' !in s ==> !Contains(s, WINDOWS_LINE)
  {
    var r := IndexOf(s, WINDOWS_LINE);
    if r >= 0 {
      assert s[r..r + 2][0] == s[r];
    }
  }

  /** Reference reading of the normalisation, one left-to-right scan: a CR LF pair
      becomes one LF, any other CR becomes LF, everything else is kept. */
  function UnixScan(s: string): string
    decreases |s|
  {
    if s == [] then []
    else if |s| >= 2 && s[0] == '\r' && s[1] == '\n' then UNIX_LINE + UnixScan(s[2..])
    else if s[0] == '\r' then UNIX_LINE + UnixScan(s[1..])
    else [s[0]] + UnixScan(s[1..])
  }

  /** The two chained replacements agree with the one-scan reading. */
  lemma {:induction false} FormatUnixIsScan(s: string)
    ensures FormatUnix(s) == UnixScan(s)
    decreases |s|
  {
    if s != [] {
      var once := Replace(s, WINDOWS_LINE, UNIX_LINE);
      if |s| >= 2 && s[0] == '\r' && s[1] == '\n' {
        assert StartsWith(s, WINDOWS_LINE);
        assert once == UNIX_LINE + Replace(s[2..], WINDOWS_LINE, UNIX_LINE);
        ReplaceCharConcat(UNIX_LINE, Replace(s[2..], WINDOWS_LINE, UNIX_LINE), '\r', UNIX_LINE);
        FormatUnixIsScan(s[2..]);
      } else {
        assert !StartsWith(s, WINDOWS_LINE);
        assert once == [s[0]] + Replace(s[1..], WINDOWS_LINE, UNIX_LINE);
        ReplaceCharConcat([s[0]], Replace(s[1..], WINDOWS_LINE, UNIX_LINE), '\r', UNIX_LINE);
        FormatUnixIsScan(s[1..]);
      }
    }
  }

  /** Normalising twice is normalising once. */
  lemma {:induction false} FormatUnixIdempotent(s: string)
    ensures FormatUnix(FormatUnix(s)) == FormatUnix(s)
  {
  }
}
