/**
 * `clean_timestamp` of the serving API (data_serving/api.py): the rewriting
 * applied to textual times before they are handed to the datetime parser. The
 * two tests are Python `re.match` calls, i.e. anchored at the start of the string.
 */
module Timestamps {
  import opened Wrappers

  /** `\d`, restricted to the ASCII digits. */
  predicate IsDigit(c: char) {
    '0' <= c <= '9'
  }

  /**
   * `\s` and the set `str.strip()` removes: the characters Python's `str.isspace`
   * accepts.
   */
  predicate IsSpace(c: char) {
    var n := c as int;
    || 9 <= n <= 13 || 28 <= n <= 32 || n == 0x85 || n == 0xA0 || n == 0x1680
    || 0x2000 <= n <= 0x200A || n == 0x2028 || n == 0x2029 || n == 0x202F
    || n == 0x205F || n == 0x3000
  }

  /** The shape of `\d{4}-\d{2}-\d{2}T\d{2}:\d{2}:\d{2}`; `d` stands for a digit. */
  const IsoShape: string := "dddd-dd-ddTdd:dd:dd"

  predicate Fits(c: char, shape: char) {
    if shape == 'd' then IsDigit(c) else c == shape
  }

  /** `re.match(r"\d{4}-\d{2}-\d{2}T\d{2}:\d{2}:\d{2}", ts)` succeeds. */
  predicate IsIsoPrefixed(ts: string) {
    |ts| >= |IsoShape| && forall i :: 0 <= i < |IsoShape| ==> Fits(ts[i], IsoShape[i])
  }

  /**
   * `.*\sGMT` matches at the start with the `\s` at position `i`: `.` does not
   * match a newline, so none may come before `i`.
   */
  ghost predicate GmtAt(ts: string, i: int) {
    && 0 <= i && i + 4 <= |ts|
    && (forall k :: 0 <= k < i ==> ts[k] != '\n')
    && IsSpace(ts[i]) && ts[i + 1..i + 4] == "GMT"
  }

  /** `re.match(r".*\sGMT", ts)` succeeds. */
  ghost predicate MatchesGmt(ts: string) {
    exists i :: GmtAt(ts, i)
  }

  /** The backtracking search of `.*\sGMT` from position `i` on. */
  function FindGmt(ts: string, i: nat): (r: Option<nat>)
    requires i <= |ts|
    decreases |ts| - i
  {
    if i + 4 > |ts| then None
    else if IsSpace(ts[i]) && ts[i + 1..i + 4] == "GMT" then Some(i)
    else if ts[i] == '\n' then None
    else FindGmt(ts, i + 1)
  }

  /** The search finds a match exactly when `.*\sGMT` matches. */
  lemma {:induction false} FindGmtMatches(ts: string, i: nat)
    requires i <= |ts|
    requires forall k :: 0 <= k < i ==> ts[k] != '\n'
    ensures FindGmt(ts, i).Some? ==> GmtAt(ts, FindGmt(ts, i).value)
    ensures FindGmt(ts, i).None? ==> forall j :: i <= j ==> !GmtAt(ts, j)
    decreases |ts| - i
  {
    if i + 4 > |ts| {
    } else if IsSpace(ts[i]) && ts[i + 1..i + 4] == "GMT" {
    } else if ts[i] == '\n' {
      forall j | i <= j ensures !GmtAt(ts, j) {
        if j > i && j + 4 <= |ts| {
          assert ts[i] == '\n';
        }
      }
    } else {
      FindGmtMatches(ts, i + 1);
    }
  }

  predicate HasGmt(ts: string) {
    FindGmt(ts, 0).Some?
  }

  lemma {:induction false} HasGmtIsMatch(ts: string)
    ensures HasGmt(ts) <==> MatchesGmt(ts)
  {
    FindGmtMatches(ts, 0);
  }

  /** The number of leading whitespace characters. */
  function LeadingSpaces(s: string): (n: nat)
    ensures n <= |s|
    ensures forall k :: 0 <= k < n ==> IsSpace(s[k])
    ensures n < |s| ==> !IsSpace(s[n])
    decreases |s|
  {
    if s == [] || !IsSpace(s[0]) then 0 else 1 + LeadingSpaces(s[1..])
  }

  /** The number of trailing whitespace characters. */
  function TrailingSpaces(s: string): (n: nat)
    ensures n <= |s|
    ensures forall k :: |s| - n <= k < |s| ==> IsSpace(s[k])
    ensures n < |s| ==> !IsSpace(s[|s| - n - 1])
    decreases |s|
  {
    if s == [] || !IsSpace(s[|s| - 1]) then 0 else 1 + TrailingSpaces(s[..|s| - 1])
  }

  /**
   * `s.strip()`: the longest slice of `s` that neither starts nor ends with
   * whitespace, obtained by removing only whitespace on both sides.
   */
  function Strip(s: string): (r: string)
    ensures exists a, b :: StripsTo(s, a, b) && r == s[a..b]
    ensures r != [] ==> !IsSpace(r[0]) && !IsSpace(r[|r| - 1])
    ensures (forall k :: 0 <= k < |s| ==> IsSpace(s[k])) ==> r == []
  {
    var a := LeadingSpaces(s);
    var b := a + (|s| - a - TrailingSpaces(s[a..]));
    StripBounds(s, a, b);
    s[a..b]
  }

  /** Only whitespace lies outside `s[a..b]`. */
  ghost predicate StripsTo(s: string, a: int, b: int) {
    && 0 <= a <= b <= |s|
    && (forall k :: 0 <= k < a ==> IsSpace(s[k]))
    && (forall k :: b <= k < |s| ==> IsSpace(s[k]))
  }

  /** The cut points of `Strip` remove only whitespace and stop at non-whitespace. */
  lemma {:induction false} StripBounds(s: string, a: nat, b: int)
    requires a == LeadingSpaces(s) && b == a + (|s| - a - TrailingSpaces(s[a..]))
    ensures StripsTo(s, a, b)
    ensures a < b ==> !IsSpace(s[a]) && !IsSpace(s[b - 1])
    ensures (forall k :: 0 <= k < |s| ==> IsSpace(s[k])) ==> a == b
  {
    TrailingCut(s, a);
    AllSpaceCut(s);
  }

  /** Trailing whitespace of a suffix is trailing whitespace of the whole string. */
  lemma {:induction false} TrailingCut(s: string, a: nat)
    requires a <= |s|
    ensures var b := a + (|s| - a - TrailingSpaces(s[a..]));
      && (forall k :: b <= k < |s| ==> IsSpace(s[k]))
      && (a < b ==> !IsSpace(s[b - 1]))
  {
    var rest := s[a..];
    var t := TrailingSpaces(rest);
    forall k | a + |rest| - t <= k < |s| ensures IsSpace(s[k]) {
      assert s[k] == rest[k - a];
    }
    if t < |rest| {
      assert s[a + |rest| - t - 1] == rest[|rest| - t - 1];
    }
  }

  /** A string made only of whitespace has only leading whitespace. */
  lemma {:induction false} AllSpaceCut(s: string)
    ensures (forall k :: 0 <= k < |s| ==> IsSpace(s[k])) ==> LeadingSpaces(s) == |s|
  {
    var a := LeadingSpaces(s);
    if a < |s| {
      assert !IsSpace(s[a]);
    }
  }

  /** `ts.replace("T", " ")`. */
  function ReplaceT(ts: string): (r: string)
    ensures |r| == |ts|
    ensures forall i :: 0 <= i < |ts| ==> r[i] == if ts[i] == 'T' then ' ' else ts[i]
  {
    seq(|ts|, i requires 0 <= i < |ts| => if ts[i] == 'T' then ' ' else ts[i])
  }

  /**
   * `clean_timestamp`: an ISO-prefixed string gets every `T` replaced by a space;
   * otherwise a string matching `.*\sGMT` loses its last four characters and is
   * stripped; any other string is returned as it is.
   */
  function CleanTimestamp(ts: string): (r: string)
    ensures IsIsoPrefixed(ts) ==>
      && |r| == |ts|
      && (forall i :: 0 <= i < |ts| ==> r[i] == if ts[i] == 'T' then ' ' else ts[i])
    ensures !IsIsoPrefixed(ts) && MatchesGmt(ts) ==> |ts| >= 4 && r == Strip(ts[..|ts| - 4])
    ensures !IsIsoPrefixed(ts) && !MatchesGmt(ts) ==> r == ts
  {
    HasGmtIsMatch(ts);
    if IsIsoPrefixed(ts) then ReplaceT(ts)
    else if HasGmt(ts) then Strip(ts[..|ts| - 4])
    else ts
  }

  /** The ISO branch keeps the date and time digits and turns the separator into a space. */
  lemma {:induction false} IsoCleanedHasSpaceSeparator(ts: string)
    requires IsIsoPrefixed(ts)
    ensures var r := CleanTimestamp(ts);
      && r[10] == ' ' && r[..10] == ts[..10] && r[11..19] == ts[11..19]
      && !IsIsoPrefixed(r)
  {
    assert Fits(ts[10], IsoShape[10]);
    var r := CleanTimestamp(ts);
    forall i | 0 <= i < 19 && i != 10 ensures r[i] == ts[i] {
      assert Fits(ts[i], IsoShape[i]);
    }
    assert !Fits(r[10], IsoShape[10]);
  }

  /**
   * A one-line date followed by ` GMT`, not itself ISO-prefixed and already
   * stripped, is cleaned back to the date.
   */
  lemma {:induction false} GmtSuffixCleaned(d: string)
    requires !IsIsoPrefixed(d + " GMT")
    requires forall k :: 0 <= k < |d| ==> d[k] != '\n'
    requires d != [] ==> !IsSpace(d[0]) && !IsSpace(d[|d| - 1])
    ensures CleanTimestamp(d + " GMT") == d
  {
    var ts := d + " GMT";
    assert forall k :: 0 <= k < |d| ==> ts[k] == d[k];
    assert ts[|d|..] == " GMT";
    assert ts[|d| + 1..|d| + 4] == ts[|d|..][1..4];
    assert GmtAt(ts, |d|);
    HasGmtIsMatch(ts);
    assert ts[..|ts| - 4] == d;
    assert LeadingSpaces(d) == 0;
    assert d[0..] == d;
    assert TrailingSpaces(d) == 0;
  }

  /** A GMT-suffixed RFC 1123 date loses its ` GMT`. */
  lemma {:induction false} HttpDateCleaned()
    ensures CleanTimestamp("Mon, 01 Jan 2024 10:00:00 GMT") == "Mon, 01 Jan 2024 10:00:00"
  {
    var d := "Mon, 01 Jan 2024 10:00:00";
    assert d + " GMT" == "Mon, 01 Jan 2024 10:00:00 GMT";
    assert !Fits((d + " GMT")[0], IsoShape[0]);
    GmtSuffixCleaned(d);
  }
}
