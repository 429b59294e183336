/**
 * Character classes and small string operations used by the scanners,
 * the module locator and the configuration code.
 *
 * Strings are `seq<char>`; Python's `\s` and `str.strip` are modelled on
 * the ASCII whitespace set (the byte-string behaviour of Python 2).
 */
module Text {
  import opened Wrappers

  /** An optional string used as a condition in Python: set and not empty. */
  predicate Truthy(s: Option<string>) {
    s.Some? && s.value != ""
  }

  /** The six C whitespace characters: space, tab, LF, CR, VT, FF (a subset of Python 3's `\s`). */
  predicate IsSpace(c: char) {
    c == ' ' || c == '\t' || c == '\n' || c == '\r' || c == '\U{0B}' || c == '\U{0C}'
  }

  /** The whitespace the JSON grammar allows between tokens (RFC 8259 section 2). */
  predicate IsJsonSpace(c: char) {
    c == ' ' || c == '\t' || c == '\n' || c == '\r'
  }

  predicate AllSpace(s: string) {
    forall i :: 0 <= i < |s| ==> IsSpace(s[i])
  }

  predicate AllJsonSpace(s: string) {
    forall i :: 0 <= i < |s| ==> IsJsonSpace(s[i])
  }

  /** `w` occurs in `s` starting at index `i`. */
  predicate HasAt(s: string, i: nat, w: string) {
    i + |w| <= |s| && s[i..i + |w|] == w
  }

  /** Python's `str.strip()` with no arguments: `s` without its leading and trailing whitespace. */
  function Strip(s: string): (r: string)
    ensures exists i: nat :: i + |r| <= |s| && s[i..i + |r|] == r && AllSpace(s[..i]) && AllSpace(s[i + |r|..])
    ensures r != [] ==> !IsSpace(r[0]) && !IsSpace(r[|r| - 1])
    ensures AllSpace(s) <==> r == []
  {
    var i := LeadingSpaces(s);
    var j := SpaceTailStart(s[i..]);
    var r := s[i..i + j];
    assert r == s[i..][..j];
    assert s[i + |r|..] == s[i..][j..];
    assert j > 0 ==> r[|r| - 1] == s[i..][j - 1];
    AllSpaceSplit(s, i, i + j);
    r
  }

  /** A string whose prefix before `i` and suffix from `i` are whitespace is whitespace. */
  lemma AllSpaceSplit(s: string, i: nat, j: nat)
    requires i <= j <= |s| && AllSpace(s[..i]) && AllSpace(s[j..])
    ensures i == j ==> AllSpace(s)
  {
    if i == j {
      forall k | 0 <= k < |s| ensures IsSpace(s[k]) {
        if k >= i { assert s[k] == s[j..][k - j]; } else { assert s[k] == s[..i][k]; }
      }
    }
  }

  /** Number of whitespace characters at the start of `s`. */
  function LeadingSpaces(s: string): (n: nat)
    ensures n <= |s| && AllSpace(s[..n])
    ensures n < |s| ==> !IsSpace(s[n])
    decreases |s|
  {
    if s != [] && IsSpace(s[0]) then
      var n := LeadingSpaces(s[1..]) + 1;
      assert s[..n] == [s[0]] + s[1..][..n - 1];
      n
    else 0
  }

  /** Start of the run of whitespace that ends `s`. */
  function SpaceTailStart(s: string): (j: nat)
    ensures j <= |s| && AllSpace(s[j..])
    ensures j > 0 ==> !IsSpace(s[j - 1])
    decreases |s|
  {
    if s != [] && IsSpace(s[|s| - 1]) then
      var j := SpaceTailStart(s[..|s| - 1]);
      assert s[j..] == s[..|s| - 1][j..] + [s[|s| - 1]];
      j
    else |s|
  }

  /** Index of the first occurrence of `c` in `s`. */
  function FirstIndex(s: string, c: char): (i: nat)
    requires c in s
    ensures i < |s| && s[i] == c && c !in s[..i]
  {
    if s[0] == c then 0 else FirstIndex(s[1..], c) + 1
  }

  /** Python's `s.split(sep)` for a one-character separator. */
  function Split(s: string, sep: char): (parts: seq<string>)
    ensures |parts| >= 1
    ensures forall k :: 0 <= k < |parts| ==> sep !in parts[k]
    ensures Join(parts, sep) == s
    decreases |s|
  {
    if sep !in s then [s]
    else
      var i := FirstIndex(s, sep);
      var rest := Split(s[i + 1..], sep);
      assert s == s[..i] + [sep] + s[i + 1..];
      [s[..i]] + rest
  }

  /** Python's `sep.join(parts)` for a one-character separator. */
  function Join(parts: seq<string>, sep: char): string
    requires |parts| >= 1
  {
    if |parts| == 1 then parts[0] else parts[0] + [sep] + Join(parts[1..], sep)
  }

  /** The first `c` in `a + [c] + b` is the one after `a` when `a` holds none. */
  lemma {:induction false} FirstIndexAfter(a: string, c: char, b: string)
    requires c !in a
    ensures c in a + [c] + b && FirstIndex(a + [c] + b, c) == |a|
    decreases |a|
  {
    var s := a + [c] + b;
    assert s[|a|] == c;
    if a != [] {
      assert s[0] == a[0] && a[0] != c;
      assert s[1..] == a[1..] + [c] + b;
      FirstIndexAfter(a[1..], c, b);
    }
  }

  /** `Split` at the first separator. */
  lemma SplitAt(s: string, sep: char)
    requires sep in s
    ensures Split(s, sep) == [s[..FirstIndex(s, sep)]] + Split(s[FirstIndex(s, sep) + 1..], sep)
  {
  }

  /** Splitting a join of separator-free parts gives the parts back. */
  lemma {:induction false} SplitJoin(parts: seq<string>, sep: char)
    requires |parts| >= 1
    requires forall k :: 0 <= k < |parts| ==> sep !in parts[k]
    ensures Split(Join(parts, sep), sep) == parts
    decreases |parts|
  {
    if |parts| > 1 {
      var tail := Join(parts[1..], sep);
      var s := parts[0] + [sep] + tail;
      assert Join(parts, sep) == s;
      assert sep !in parts[0];
      FirstIndexAfter(parts[0], sep, tail);
      assert s[..|parts[0]|] == parts[0];
      assert s[|parts[0]| + 1..] == tail;
      SplitAt(s, sep);
      SplitJoin(parts[1..], sep);
      assert [parts[0]] + parts[1..] == parts;
    } else {
      assert sep !in parts[0];
    }
  }
}
