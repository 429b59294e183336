/**
 * The regular expressions of the dependency analyser, written out as
 * deterministic scanners over `seq<char>`.
 *
 * Every pattern used by the source matches at most one way at a given
 * start position, so a pattern is a function `MatchAt` from a position to
 * an optional hit, and Python's `findall`/`sub` scanning order is
 * `FindAll`: try each position from left to right and, after a hit,
 * resume at its end (matches never overlap).
 */
module Patterns {
  import opened Wrappers
  import opened Text

  /** The two loader calls the scanners look for. */
  datatype Call = Require | Define

  function Keyword(c: Call): string {
    match c
    case Require => "require"
    case Define => "define"
  }

  /** One constructor per regular expression of the source. */
  datatype Pattern =
      /** `(?:;|\s|>|^)<kw>\s*\(\s*?(\[[^\]]*\])`: the guarded scanners of the package. */
    | Guarded(call: Call)
      /** `<kw>\((\[.*\])`: the unguarded, greedy scanners of the legacy module. */
    | Greedy(call: Call)
      /** `define\s*\(([^\)]*?)\)`: the define call the bundle rewrite replaces. */
    | DefineCall

  /** A match: the span `[start, end)` of the text and its capture group. */
  datatype Hit = Hit(start: nat, end: nat, capture: string)

  /** The characters that may precede a guarded call: `;`, whitespace or `>`. */
  predicate IsBoundary(c: char) {
    c == ';' || IsSpace(c) || c == '>'
  }

  /** The index after a run of `\s` starting at `i`. */
  function SkipSpaces(s: string, i: nat): (j: nat)
    requires i <= |s|
    ensures i <= j <= |s|
    ensures forall k :: i <= k < j ==> IsSpace(s[k])
    ensures j < |s| ==> !IsSpace(s[j])
    decreases |s| - i
  {
    if i < |s| && IsSpace(s[i]) then SkipSpaces(s, i + 1) else i
  }

  /** The first index at or after `i` that holds `c`. */
  function Find(s: string, c: char, i: nat): (r: Option<nat>)
    requires i <= |s|
    ensures r.Some? ==> i <= r.value < |s| && s[r.value] == c
    ensures r.Some? ==> forall k :: i <= k < r.value ==> s[k] != c
    ensures r.None? ==> forall k :: i <= k < |s| ==> s[k] != c
    decreases |s| - i
  {
    if i == |s| then None else if s[i] == c then Some(i) else Find(s, c, i + 1)
  }

  /** The last index in `[i, j)` that holds `c`. */
  function FindLast(s: string, c: char, i: nat, j: nat): (r: Option<nat>)
    requires i <= j <= |s|
    ensures r.Some? ==> i <= r.value < j && s[r.value] == c
    ensures r.Some? ==> forall k :: r.value < k < j ==> s[k] != c
    ensures r.None? ==> forall k :: i <= k < j ==> s[k] != c
    decreases j - i
  {
    if i == j then None else if s[j - 1] == c then Some(j - 1) else FindLast(s, c, i, j - 1)
  }

  /** The end of the line holding index `i` (a regex `.` matches anything but LF). */
  function LineEnd(s: string, i: nat): (e: nat)
    requires i <= |s|
    ensures i <= e <= |s|
    ensures forall k :: i <= k < e ==> s[k] != '\n'
    ensures e < |s| ==> s[e] == '\n'
  {
    match Find(s, '\n', i)
    case Some(k) => k
    case None => |s|
  }

  /**
   * `<kw>\s*\(\s*?(\[[^\]]*\])` anchored at `k`: the end of the match and
   * the bracketed capture, which stops at the first `]`.
   */
  function CallAt(s: string, kw: string, k: nat): Option<(nat, string)>
  {
    if !HasAt(s, k, kw) then None
    else
      var i := SkipSpaces(s, k + |kw|);
      if i == |s| || s[i] != '(' then None
      else
        var j := SkipSpaces(s, i + 1);
        if j == |s| || s[j] != '[' then None
        else
          match Find(s, ']', j + 1)
          case None => None
          case Some(e) => Some((e + 1, s[j..e + 1]))
  }

  /** The match of `pat` that starts at `p`, if any. */
  function MatchAt(pat: Pattern, s: string, p: nat): (r: Option<Hit>)
    ensures r.Some? ==> r.value.start == p < r.value.end <= |s|
  {
    match pat
    case Guarded(c) => GuardedAt(Keyword(c), s, p)
    case Greedy(c) => GreedyAt(Keyword(c), s, p)
    case DefineCall => DefineCallAt(s, p)
  }

  /** `(?:;|\s|>|^)<kw>\s*\(\s*?(\[[^\]]*\])` at `p`. */
  function GuardedAt(kw: string, s: string, p: nat): (r: Option<Hit>)
    ensures r.Some? ==> r.value.start == p < r.value.end <= |s|
  {
    // The alternation tries `;`, `\s` and `>` first and falls back to `^`.
    if p < |s| && IsBoundary(s[p]) && CallAt(s, kw, p + 1).Some? then
      var (e, cap) := CallAt(s, kw, p + 1).value;
      Some(Hit(p, e, cap))
    else if p == 0 && CallAt(s, kw, 0).Some? then
      var (e, cap) := CallAt(s, kw, 0).value;
      Some(Hit(p, e, cap))
    else None
  }

  /** `<kw>\((\[.*\])` at `p`. */
  function GreedyAt(kw: string, s: string, p: nat): (r: Option<Hit>)
    ensures r.Some? ==> r.value.start == p < r.value.end <= |s|
  {
    var open := kw + "(";
    if !HasAt(s, p, open) then None
    else
      var j := p + |open|;
      if j == |s| || s[j] != '[' then None
      else
        // `.*` runs to the end of the line and backs off to the last `]`.
        match FindLast(s, ']', j + 1, LineEnd(s, j + 1))
        case None => None
        case Some(e) => Some(Hit(p, e + 1, s[j..e + 1]))
  }

  /** `define\s*\(([^\)]*?)\)` at `p`. */
  function DefineCallAt(s: string, p: nat): (r: Option<Hit>)
    ensures r.Some? ==> r.value.start == p < r.value.end <= |s|
  {
    if !HasAt(s, p, "define") then None
    else
      var i := SkipSpaces(s, p + 6);
      if i == |s| || s[i] != '(' then None
      else
        // The lazy `[^\)]*?` stops at the first `)`.
        match Find(s, ')', i + 1)
        case None => None
        case Some(e) => Some(Hit(p, e + 1, s[i + 1..e]))
  }

  /** Python's `findall` scanning order from position `p`: leftmost matches, never overlapping. */
  function FindAll(pat: Pattern, s: string, p: nat): (hits: seq<Hit>)
    decreases |s| - p
  {
    if p >= |s| then []
    else
      match MatchAt(pat, s, p)
      case Some(h) => [h] + FindAll(pat, s, h.end)
      case None => FindAll(pat, s, p + 1)
  }

  /** Reported matches start at or after `p` and are matches at their start. */
  lemma {:induction false} FindAllHits(pat: Pattern, s: string, p: nat)
    ensures forall k :: 0 <= k < |FindAll(pat, s, p)| ==>
      p <= FindAll(pat, s, p)[k].start && MatchAt(pat, s, FindAll(pat, s, p)[k].start) == Some(FindAll(pat, s, p)[k])
    decreases |s| - p
  {
    if p < |s| {
      var m := MatchAt(pat, s, p);
      if m.Some? {
        var h := m.value;
        var tail := FindAll(pat, s, h.end);
        FindAllHits(pat, s, h.end);
        FindAllCons(pat, s, p, h, tail);
      } else {
        FindAllHits(pat, s, p + 1);
        assert FindAll(pat, s, p) == FindAll(pat, s, p + 1);
      }
    }
  }

  lemma FindAllCons(pat: Pattern, s: string, p: nat, h: Hit, tail: seq<Hit>)
    requires p < |s| && MatchAt(pat, s, p) == Some(h) && tail == FindAll(pat, s, h.end)
    requires forall k :: 0 <= k < |tail| ==> h.end <= tail[k].start && MatchAt(pat, s, tail[k].start) == Some(tail[k])
    ensures forall k :: 0 <= k < |FindAll(pat, s, p)| ==>
      p <= FindAll(pat, s, p)[k].start && MatchAt(pat, s, FindAll(pat, s, p)[k].start) == Some(FindAll(pat, s, p)[k])
  {
    var hits := [h] + tail;
    assert FindAll(pat, s, p) == hits;
    forall k | 0 <= k < |hits| ensures p <= hits[k].start && MatchAt(pat, s, hits[k].start) == Some(hits[k]) {
      if k > 0 {
        assert hits[k] == tail[k - 1];
      }
    }
  }

  /** Reported matches start at or after `p`. */
  lemma {:induction false} FindAllFrom(pat: Pattern, s: string, p: nat)
    ensures forall k :: 0 <= k < |FindAll(pat, s, p)| ==> p <= FindAll(pat, s, p)[k].start
    decreases |s| - p
  {
    if p < |s| {
      var m := MatchAt(pat, s, p);
      if m.Some? {
        var tail := FindAll(pat, s, m.value.end);
        FindAllFrom(pat, s, m.value.end);
        var hits := [m.value] + tail;
        assert FindAll(pat, s, p) == hits;
        assert forall k :: 1 <= k < |hits| ==> hits[k] == tail[k - 1];
      } else {
        FindAllFrom(pat, s, p + 1);
        assert FindAll(pat, s, p) == FindAll(pat, s, p + 1);
      }
    }
  }

  /** Matches that do not overlap, in text order. */
  predicate InOrder(hits: seq<Hit>) {
    forall k :: 0 <= k < |hits| - 1 ==> hits[k].end <= hits[k + 1].start
  }

  lemma InOrderCons(h: Hit, tail: seq<Hit>)
    requires InOrder(tail) && forall k :: 0 <= k < |tail| ==> h.end <= tail[k].start
    ensures InOrder([h] + tail)
  {
    var hits := [h] + tail;
    forall k | 0 <= k < |hits| - 1 ensures hits[k].end <= hits[k + 1].start {
      assert hits[k + 1] == tail[k];
      if k > 0 {
        assert hits[k] == tail[k - 1];
      }
    }
  }

  /** Reported matches do not overlap and come in text order. */
  lemma {:induction false} FindAllInOrder(pat: Pattern, s: string, p: nat)
    ensures InOrder(FindAll(pat, s, p))
    decreases |s| - p
  {
    if p < |s| {
      var m := MatchAt(pat, s, p);
      if m.Some? {
        var tail := FindAll(pat, s, m.value.end);
        FindAllInOrder(pat, s, m.value.end);
        FindAllFrom(pat, s, m.value.end);
        InOrderCons(m.value, tail);
        assert FindAll(pat, s, p) == [m.value] + tail;
      } else {
        FindAllInOrder(pat, s, p + 1);
        assert FindAll(pat, s, p) == FindAll(pat, s, p + 1);
      }
    }
  }

  /** The capture groups of the matches from `p`, in text order. */
  function Captures(pat: Pattern, s: string, p: nat): (caps: seq<string>)
    ensures |caps| == |FindAll(pat, s, p)|
    ensures forall k :: 0 <= k < |caps| ==> caps[k] == FindAll(pat, s, p)[k].capture
  {
    var hits := FindAll(pat, s, p);
    seq(|hits|, k requires 0 <= k < |hits| => hits[k].capture)
  }

  /** Index `q` lies inside one of the `hits`. */
  predicate Covered(hits: seq<Hit>, q: nat) {
    exists k :: 0 <= k < |hits| && hits[k].start <= q < hits[k].end
  }

  /**
   * The scan misses nothing: every position from `p` at which the pattern
   * matches lies inside a reported match (it is either reported itself or
   * swallowed by an earlier, overlapping one).
   */
  lemma {:induction false} FindAllExhaustive(pat: Pattern, s: string, p: nat, q: nat)
    requires p <= q < |s| && MatchAt(pat, s, q).Some?
    ensures Covered(FindAll(pat, s, p), q)
    decreases |s| - p, 1
  {
    var m := MatchAt(pat, s, p);
    if m.Some? {
      CoveredAtMatch(pat, s, p, q, m.value);
    } else {
      CoveredAtMiss(pat, s, p, q);
    }
  }

  lemma {:induction false} CoveredAtMatch(pat: Pattern, s: string, p: nat, q: nat, h: Hit)
    requires p <= q < |s| && MatchAt(pat, s, q).Some? && MatchAt(pat, s, p) == Some(h)
    ensures Covered(FindAll(pat, s, p), q)
    decreases |s| - p, 0
  {
    var tail := FindAll(pat, s, h.end);
    assert FindAll(pat, s, p) == [h] + tail;
    if q >= h.end {
      FindAllExhaustive(pat, s, h.end, q);
      CoveredLater(h, tail, q);
    } else {
      CoveredFirst(h, tail, q);
    }
  }

  lemma {:induction false} CoveredAtMiss(pat: Pattern, s: string, p: nat, q: nat)
    requires p < q < |s| && MatchAt(pat, s, q).Some? && MatchAt(pat, s, p).None?
    ensures Covered(FindAll(pat, s, p), q)
    decreases |s| - p, 0
  {
    FindAllExhaustive(pat, s, p + 1, q);
  }

  lemma CoveredLater(h: Hit, tail: seq<Hit>, q: nat)
    requires Covered(tail, q)
    ensures Covered([h] + tail, q)
  {
    var k :| 0 <= k < |tail| && tail[k].start <= q < tail[k].end;
    assert ([h] + tail)[k + 1] == tail[k];
  }

  lemma CoveredFirst(h: Hit, tail: seq<Hit>, q: nat)
    requires h.start <= q < h.end
    ensures Covered([h] + tail, q)
  {
    assert ([h] + tail)[0] == h;
  }

  /** The scan finds nothing exactly when the pattern matches nowhere from `p` on. */
  lemma FindAllEmptyIff(pat: Pattern, s: string, p: nat)
    ensures FindAll(pat, s, p) == [] <==> forall q :: p <= q < |s| ==> MatchAt(pat, s, q).None?
  {
    if FindAll(pat, s, p) == [] {
      forall q | p <= q < |s| ensures MatchAt(pat, s, q).None? {
        if MatchAt(pat, s, q).Some? {
          FindAllExhaustive(pat, s, p, q);
        }
      }
    } else {
      FindAllHits(pat, s, p);
      var h := FindAll(pat, s, p)[0];
      assert MatchAt(pat, s, h.start).Some?;
    }
  }

  /*
   * Shape of the matches of each pattern.
   */

  /** A capture of the guarded scanners: `[`, no `]` inside, and `]`. */
  predicate BracketCapture(cap: string) {
    |cap| >= 2 && cap[0] == '[' && cap[|cap| - 1] == ']' && ']' !in cap[1..|cap| - 1]
  }

  lemma SkipSpacesLands(s: string, i: nat, n: nat)
    requires i + n < |s|
    requires forall q :: i <= q < i + n ==> IsSpace(s[q])
    requires !IsSpace(s[i + n])
    ensures SkipSpaces(s, i) == i + n
  {
  }

  lemma FindLands(s: string, c: char, i: nat, e: nat)
    requires i <= e < |s| && s[e] == c
    requires forall q :: i <= q < e ==> s[q] != c
    ensures Find(s, c, i) == Some(e)
  {
  }

  /** A successful `CallAt` has the keyword in place and a bracketed capture ending the match. */
  lemma CallAtShape(s: string, kw: string, k: nat)
    requires CallAt(s, kw, k).Some?
    ensures HasAt(s, k, kw)
    ensures var (end, cap) := CallAt(s, kw, k).value;
      BracketCapture(cap) && |cap| <= end <= |s| && s[end - |cap|..end] == cap
  {
    var i := SkipSpaces(s, k + |kw|);
    var j := SkipSpaces(s, i + 1);
    var e := Find(s, ']', j + 1).value;
    var cap := s[j..e + 1];
    assert forall q :: 1 <= q < |cap| - 1 ==> cap[q] == s[j + q];
  }

  /** `CallAt` from the positions of its tokens. */
  lemma CallAtFrom(s: string, kw: string, k: nat, i: nat, j: nat, e: nat)
    requires HasAt(s, k, kw) && k + |kw| <= i < j < e < |s|
    requires (forall q :: k + |kw| <= q < i ==> IsSpace(s[q])) && s[i] == '('
    requires (forall q :: i < q < j ==> IsSpace(s[q])) && s[j] == '['
    requires (forall q :: j < q < e ==> s[q] != ']') && s[e] == ']'
    ensures CallAt(s, kw, k) == Some((e + 1, s[j..e + 1]))
  {
    SkipSpacesLands(s, k + |kw|, i - k - |kw|);
    SkipSpacesLands(s, i + 1, j - i - 1);
    FindLands(s, ']', j + 1, e);
  }

  /**
   * A guarded call is recognised only where the source text has the
   * keyword at its very start or right after `;`, whitespace or `>`, and
   * its capture is a bracketed array that stops at the first `]`.
   */
  lemma GuardedHitShape(c: Call, s: string, p: nat)
    requires MatchAt(Guarded(c), s, p).Some?
    ensures var h := MatchAt(Guarded(c), s, p).value;
      && ((p == 0 && HasAt(s, 0, Keyword(c))) || (p < |s| && IsBoundary(s[p]) && HasAt(s, p + 1, Keyword(c))))
      && BracketCapture(h.capture)
      && |h.capture| <= h.end && s[h.end - |h.capture|..h.end] == h.capture
  {
    GuardedAtShape(Keyword(c), s, p);
  }

  lemma GuardedAtShape(kw: string, s: string, p: nat)
    requires GuardedAt(kw, s, p).Some?
    ensures var h := GuardedAt(kw, s, p).value;
      && ((p == 0 && HasAt(s, 0, kw)) || (p < |s| && IsBoundary(s[p]) && HasAt(s, p + 1, kw)))
      && BracketCapture(h.capture)
      && |h.capture| <= h.end && s[h.end - |h.capture|..h.end] == h.capture
  {
    if p < |s| && IsBoundary(s[p]) && CallAt(s, kw, p + 1).Some? {
      CallAtShape(s, kw, p + 1);
    } else {
      CallAtShape(s, kw, 0);
    }
  }

  /** The token positions of `pre + b + kw + w1 + "(" + w2 + rest`. */
  lemma CallLayout(s: string, pre: string, b: string, kw: string, w1: string, w2: string, rest: string)
    requires s == pre + b + kw + w1 + "(" + w2 + rest
    ensures var k := |pre| + |b|; var i := k + |kw| + |w1|; var j := i + 1 + |w2|;
      && HasAt(s, k, kw) && s[i] == '(' && s[j..] == rest
      && (forall q :: k + |kw| <= q < i ==> s[q] == w1[q - k - |kw|])
      && (forall q :: i < q < j ==> s[q] == w2[q - i - 1])
      && (b != [] ==> s[|pre|] == b[0])
      && (pre == [] && b == [] && kw != [] ==> s[0] == kw[0])
  {
    var k := |pre| + |b|;
    assert s == (pre + b) + kw + (w1 + "(" + w2 + rest);
    assert s[k..k + |kw|] == kw;
  }

  /** A guarded match wraps the call found after the boundary character, or at the text start. */
  lemma GuardedFromCall(c: Call, s: string, p: nat, k: nat)
    requires (k == p + 1 && p < |s| && IsBoundary(s[p])) || (k == 0 && p == 0 && (s == [] || !IsBoundary(s[0])))
    requires CallAt(s, Keyword(c), k).Some?
    ensures MatchAt(Guarded(c), s, p) == Some(Hit(p, CallAt(s, Keyword(c), k).value.0, CallAt(s, Keyword(c), k).value.1))
  {
    GuardedAtFromCall(Keyword(c), s, p, k);
  }

  lemma GuardedAtFromCall(kw: string, s: string, p: nat, k: nat)
    requires (k == p + 1 && p < |s| && IsBoundary(s[p])) || (k == 0 && p == 0 && (s == [] || !IsBoundary(s[0])))
    requires CallAt(s, kw, k).Some?
    ensures GuardedAt(kw, s, p) == Some(Hit(p, CallAt(s, kw, k).value.0, CallAt(s, kw, k).value.1))
  {
    var call := CallAt(s, kw, k);
    if k == p + 1 && p < |s| && IsBoundary(s[p]) {
      assert GuardedAt(kw, s, p) == Some(Hit(p, call.value.0, call.value.1));
    } else {
      assert !(p < |s| && IsBoundary(s[p]));
      assert GuardedAt(kw, s, p) == Some(Hit(p, call.value.0, call.value.1));
    }
  }

  /**
   * Whitespace, newlines included, may stand between the keyword and `(`
   * and between `(` and `[`: a call `<kw> ws ( ws [ ... ]` whose keyword
   * starts at `k`, right after a boundary character at `p` or at the very
   * start of the text, is recognised at `p`, and its capture runs from the
   * `[` at `j` to the first `]` after it, at `e`.
   */
  lemma GuardedCallFound(c: Call, s: string, p: nat, k: nat, i: nat, j: nat, e: nat)
    requires (k == p + 1 && p < |s| && IsBoundary(s[p])) || (k == 0 && p == 0)
    requires HasAt(s, k, Keyword(c)) && k + |Keyword(c)| <= i < j < e < |s|
    requires (forall q :: k + |Keyword(c)| <= q < i ==> IsSpace(s[q])) && s[i] == '('
    requires (forall q :: i < q < j ==> IsSpace(s[q])) && s[j] == '['
    requires (forall q :: j < q < e ==> s[q] != ']') && s[e] == ']'
    ensures MatchAt(Guarded(c), s, p) == Some(Hit(p, e + 1, s[j..e + 1]))
  {
    GuardedAtCallFound(Keyword(c), s, p, k, i, j, e);
  }

  lemma GuardedAtCallFound(kw: string, s: string, p: nat, k: nat, i: nat, j: nat, e: nat)
    requires kw != [] && !IsBoundary(kw[0])
    requires (k == p + 1 && p < |s| && IsBoundary(s[p])) || (k == 0 && p == 0)
    requires HasAt(s, k, kw) && k + |kw| <= i < j < e < |s|
    requires (forall q :: k + |kw| <= q < i ==> IsSpace(s[q])) && s[i] == '('
    requires (forall q :: i < q < j ==> IsSpace(s[q])) && s[j] == '['
    requires (forall q :: j < q < e ==> s[q] != ']') && s[e] == ']'
    ensures GuardedAt(kw, s, p) == Some(Hit(p, e + 1, s[j..e + 1]))
  {
    CallAtFrom(s, kw, k, i, j, e);
    if k == 0 {
      assert s[0] == s[k..k + |kw|][0];
    }
    GuardedAtFromCall(kw, s, p, k);
  }

  /**
   * When the first argument is not an array, as in `require(a['dep1'], ...)`,
   * nothing is recognised at that keyword, whether it starts the text or
   * follows a boundary character at `p`: after `(` and any whitespace the
   * next character at `j` is neither `[` nor whitespace (or the text ends).
   */
  lemma GuardedCallNeedsArray(c: Call, s: string, p: nat, k: nat, i: nat, j: nat)
    requires (k == p + 1 && p < |s| && IsBoundary(s[p])) || (k == 0 && p == 0)
    requires HasAt(s, k, Keyword(c)) && k + |Keyword(c)| <= i < j <= |s|
    requires (forall q :: k + |Keyword(c)| <= q < i ==> IsSpace(s[q])) && s[i] == '('
    requires forall q :: i < q < j ==> IsSpace(s[q])
    requires j == |s| || (s[j] != '[' && !IsSpace(s[j]))
    ensures MatchAt(Guarded(c), s, p).None?
  {
    GuardedAtNeedsArray(Keyword(c), s, p, k, i, j);
  }

  lemma GuardedAtNeedsArray(kw: string, s: string, p: nat, k: nat, i: nat, j: nat)
    requires kw != [] && !IsBoundary(kw[0])
    requires (k == p + 1 && p < |s| && IsBoundary(s[p])) || (k == 0 && p == 0)
    requires HasAt(s, k, kw) && k + |kw| <= i < j <= |s|
    requires (forall q :: k + |kw| <= q < i ==> IsSpace(s[q])) && s[i] == '('
    requires forall q :: i < q < j ==> IsSpace(s[q])
    requires j == |s| || (s[j] != '[' && !IsSpace(s[j]))
    ensures GuardedAt(kw, s, p).None?
  {
    CallAtNeedsArray(kw, s, k, i, j);
    if k == 0 {
      assert !IsBoundary(s[0]) by { assert s[0] == s[k..k + |kw|][0]; }
    } else if p == 0 {
      assert !HasAt(s, 0, kw) by { assert s[0] != kw[0]; }
    }
  }

  lemma CallAtNeedsArray(kw: string, s: string, k: nat, i: nat, j: nat)
    requires HasAt(s, k, kw) && k + |kw| <= i < j <= |s|
    requires (forall q :: k + |kw| <= q < i ==> IsSpace(s[q])) && s[i] == '('
    requires forall q :: i < q < j ==> IsSpace(s[q])
    requires j == |s| || (s[j] != '[' && !IsSpace(s[j]))
    ensures CallAt(s, kw, k).None?
  {
    SkipSpacesLands(s, k + |kw|, i - k - |kw|);
    if j < |s| {
      SkipSpacesLands(s, i + 1, j - i - 1);
    }
  }

  /**
   * A legacy match has no boundary guard and no whitespace: `<kw>([` at
   * its start; its capture runs from that `[` to the LAST `]` of the same
   * line (`.` does not cross a line break).
   */
  lemma GreedyHitShape(c: Call, s: string, p: nat)
    requires MatchAt(Greedy(c), s, p).Some?
    ensures var h := MatchAt(Greedy(c), s, p).value; var j := p + |Keyword(c)| + 1;
      && HasAt(s, p, Keyword(c) + "(") && j < h.end && s[j] == '['
      && h.capture == s[j..h.end] && h.capture[|h.capture| - 1] == ']'
      && '\n' !in h.capture
      && forall q :: h.end <= q < LineEnd(s, h.end) ==> s[q] != ']'
  {
    GreedyAtShape(Keyword(c), s, p);
  }

  lemma GreedyAtShape(kw: string, s: string, p: nat)
    requires GreedyAt(kw, s, p).Some?
    ensures var h := GreedyAt(kw, s, p).value; var j := p + |kw| + 1;
      && HasAt(s, p, kw + "(") && j < h.end && s[j] == '['
      && h.capture == s[j..h.end] && h.capture[|h.capture| - 1] == ']'
      && '\n' !in h.capture
      && forall q :: h.end <= q < LineEnd(s, h.end) ==> s[q] != ']'
  {
    var h := GreedyAt(kw, s, p).value;
    var j := p + |kw| + 1;
    var le := LineEnd(s, j + 1);
    assert forall q :: 0 <= q < |h.capture| ==> h.capture[q] == s[j + q];
    assert LineEnd(s, h.end) == le by {
      if le < |s| { FindLands(s, '\n', h.end, le); }
    }
  }

  /**
   * A legacy call is recognised wherever `<kw>([` occurs, whatever
   * precedes it; the capture ends at the `]` at `e`, the last one before the
   * line break.
   */
  lemma GreedyCallFound(c: Call, s: string, p: nat, e: nat)
    requires HasAt(s, p, Keyword(c) + "(") && p + |Keyword(c)| + 1 < e < |s|
    requires s[p + |Keyword(c)| + 1] == '[' && s[e] == ']'
    requires forall q :: p + |Keyword(c)| + 1 < q < e ==> s[q] != '\n'
    requires forall q :: e < q < LineEnd(s, e) ==> s[q] != ']'
    ensures MatchAt(Greedy(c), s, p) == Some(Hit(p, e + 1, s[p + |Keyword(c)| + 1..e + 1]))
  {
    GreedyAtFound(Keyword(c), s, p, e);
  }

  lemma GreedyAtFound(kw: string, s: string, p: nat, e: nat)
    requires HasAt(s, p, kw + "(") && p + |kw| + 1 < e < |s|
    requires s[p + |kw| + 1] == '[' && s[e] == ']'
    requires forall q :: p + |kw| + 1 < q < e ==> s[q] != '\n'
    requires forall q :: e < q < LineEnd(s, e) ==> s[q] != ']'
    ensures GreedyAt(kw, s, p) == Some(Hit(p, e + 1, s[p + |kw| + 1..e + 1]))
  {
    var j := p + |kw| + 1;
    var le := LineEnd(s, e);
    assert LineEnd(s, j + 1) == le by {
      if le < |s| { FindLands(s, '\n', j + 1, le); }
    }
    assert FindLast(s, ']', j + 1, le) == Some(e) by {
      FindLastLands(s, ']', j + 1, le, e);
    }
  }

  lemma FindLastLands(s: string, c: char, i: nat, j: nat, e: nat)
    requires i <= e < j <= |s| && s[e] == c
    requires forall q :: e < q < j ==> s[q] != c
    ensures FindLast(s, c, i, j) == Some(e)
    decreases j - i
  {
    if s[j - 1] != c {
      FindLastLands(s, c, i, j - 1, e);
    }
  }

  /**
   * An array that is not closed on the line of its `[` is missed by the
   * legacy scanner: no `]` between the `[` and the line break, no match.
   */
  lemma GreedyMissesOpenLine(c: Call, s: string, p: nat)
    requires HasAt(s, p, Keyword(c) + "(")
    requires forall q :: p + |Keyword(c)| + 1 < q < LineEnd(s, p + |Keyword(c)| + 1) ==> s[q] != ']'
    ensures MatchAt(Greedy(c), s, p).None?
  {
    GreedyAtMissesOpenLine(Keyword(c), s, p);
  }

  lemma GreedyAtMissesOpenLine(kw: string, s: string, p: nat)
    requires HasAt(s, p, kw + "(")
    requires forall q :: p + |kw| + 1 < q < LineEnd(s, p + |kw| + 1) ==> s[q] != ']'
    ensures GreedyAt(kw, s, p).None?
  {
    var j := p + |kw| + 1;
    if j < |s| && s[j] == '[' {
      assert LineEnd(s, j + 1) == LineEnd(s, j);
    }
  }

  /**
   * A rewrite match: `define`, optional whitespace, `(`, the capture (no
   * `)` inside) and the first `)` after it.
   */
  lemma DefineCallShape(s: string, p: nat)
    requires MatchAt(DefineCall, s, p).Some?
    ensures var h := MatchAt(DefineCall, s, p).value; var open := h.end - |h.capture| - 2;
      && HasAt(s, p, "define") && p + 6 <= open
      && AllSpace(s[p + 6..open]) && s[open] == '('
      && s[open + 1..h.end - 1] == h.capture && s[h.end - 1] == ')'
      && ')' !in h.capture
  {
    var h := MatchAt(DefineCall, s, p).value;
    var i := SkipSpaces(s, p + 6);
    assert h.end - |h.capture| - 2 == i;
    assert forall q :: 0 <= q < |h.capture| ==> h.capture[q] == s[i + 1 + q];
    var gap := s[p + 6..i];
    assert forall q :: 0 <= q < |gap| ==> gap[q] == s[p + 6 + q];
  }

  /** `define ws ( X )` with no `)` in `X` is a rewrite match wherever it occurs. */
  lemma DefineCallFound(s: string, p: nat, i: nat, e: nat)
    requires HasAt(s, p, "define") && p + 6 <= i < e < |s|
    requires (forall q :: p + 6 <= q < i ==> IsSpace(s[q])) && s[i] == '('
    requires (forall q :: i < q < e ==> s[q] != ')') && s[e] == ')'
    ensures MatchAt(DefineCall, s, p) == Some(Hit(p, e + 1, s[i + 1..e]))
  {
    SkipSpacesLands(s, p + 6, i - p - 6);
    FindLands(s, ')', i + 1, e);
  }
}
