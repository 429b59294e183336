/**
 * `get_bundle_content`: a module about to be put in a bundle has its
 * `define(` calls rewritten to carry its identifier, so the loader can
 * tell the bundled modules apart.
 *
 * The rewrite is `re.sub` with the third positional argument
 * `re.MULTILINE`, which `sub` reads as its `count`: at most eight calls
 * are rewritten.
 */
module Rewrite {
  import opened Wrappers
  import opened Text
  import opened Patterns

  /** `re.MULTILINE` in the `count` position of `re.sub`. */
  const SubCount: nat := 8

  /** What one match `define<ws>(X)` becomes: `define("<id>", X)`. */
  function Replacement(id: string, x: string): string {
    "define(\"" + id + "\", " + x + ")"
  }

  /** `re.sub` of the define-call pattern from `p`, with at most `n` replacements left. */
  function Sub(s: string, id: string, p: nat, n: nat): (r: string)
    requires p <= |s|
    ensures n == 0 ==> r == s[p..]
    decreases |s| - p
  {
    if p == |s| || n == 0 then s[p..]
    else
      match MatchAt(DefineCall, s, p)
      case Some(h) => Replacement(id, h.capture) + Sub(s, id, h.end, n - 1)
      case None => [s[p]] + Sub(s, id, p + 1, n)
  }

  /** The text of an anonymous module rewritten for a bundle. */
  function RewriteDefines(s: string, id: string): string {
    Sub(s, id, 0, SubCount)
  }

  /*
   * The specification of the rewrite: the text from `p`, with the span of
   * each given match replaced and everything between matches kept.
   */

  /** Matches in text order, each inside `s[p..]`, none overlapping. */
  predicate Ordered(s: string, hits: seq<Hit>, p: nat)
    decreases |hits|
  {
    hits == [] || (p <= hits[0].start <= hits[0].end <= |s| && Ordered(s, hits[1..], hits[0].end))
  }

  function Splice(s: string, hits: seq<Hit>, id: string, p: nat): (r: string)
    requires p <= |s| && Ordered(s, hits, p)
    decreases |hits|
  {
    if hits == [] then s[p..]
    else
      var h := hits[0];
      s[p..h.start] + Replacement(id, h.capture) + Splice(s, hits[1..], id, h.end)
  }

  function Take(hits: seq<Hit>, n: nat): (r: seq<Hit>)
    ensures |r| == if n < |hits| then n else |hits|
    ensures r == hits[..|r|]
  {
    if n < |hits| then hits[..n] else hits
  }

  lemma {:induction false} FindAllOrdered(s: string, p: nat)
    requires p <= |s|
    ensures Ordered(s, FindAll(DefineCall, s, p), p)
    decreases |s| - p
  {
    if p < |s| {
      var m := MatchAt(DefineCall, s, p);
      if m.Some? {
        var h := m.value;
        var tail := FindAll(DefineCall, s, h.end);
        FindAllOrdered(s, h.end);
        assert FindAll(DefineCall, s, p) == [h] + tail;
        assert ([h] + tail)[1..] == tail;
      } else {
        FindAllOrdered(s, p + 1);
        OrderedLater(s, FindAll(DefineCall, s, p + 1), p, p + 1);
      }
    }
  }

  lemma OrderedLater(s: string, hits: seq<Hit>, p: nat, p': nat)
    requires p <= p' && Ordered(s, hits, p')
    ensures Ordered(s, hits, p)
  {
  }

  lemma SpliceFirst(s: string, hits: seq<Hit>, id: string, p: nat)
    requires p <= |s| && Ordered(s, hits, p) && hits != []
    ensures Splice(s, hits, id, p)
         == s[p..hits[0].start] + Replacement(id, hits[0].capture) + Splice(s, hits[1..], id, hits[0].end)
  {
  }

  lemma TakeOrdered(s: string, hits: seq<Hit>, p: nat, n: nat)
    requires Ordered(s, hits, p)
    ensures Ordered(s, Take(hits, n), p)
    decreases n
  {
    if n > 0 && n < |hits| {
      TakeOrdered(s, hits[1..], hits[0].end, n - 1);
      assert Take(hits, n)[1..] == Take(hits[1..], n - 1);
    }
  }

  lemma SpliceStep(s: string, hits: seq<Hit>, id: string, p: nat)
    requires p < |s| && Ordered(s, hits, p + 1)
    ensures Ordered(s, hits, p)
    ensures Splice(s, hits, id, p) == [s[p]] + Splice(s, hits, id, p + 1)
  {
    OrderedLater(s, hits, p, p + 1);
    if hits == [] {
      assert s[p..] == [s[p]] + s[p + 1..];
    } else {
      var h := hits[0];
      var rest := Splice(s, hits[1..], id, h.end);
      SpliceFirst(s, hits, id, p);
      SpliceFirst(s, hits, id, p + 1);
      assert s[p..h.start] == [s[p]] + s[p + 1..h.start];
      RegroupHead(s[p], s[p + 1..h.start], Replacement(id, h.capture), rest);
    }
  }

  lemma RegroupHead(c: char, a: string, b: string, d: string)
    ensures [c] + a + b + d == [c] + (a + b + d)
  {
  }

  /** The statement of `SubIsSplice` at one position. */
  predicate SubSplices(s: string, id: string, p: nat, n: nat)
    requires p <= |s|
  {
    var t := Take(FindAll(DefineCall, s, p), n);
    Ordered(s, t, p) && Sub(s, id, p, n) == Splice(s, t, id, p)
  }

  lemma SubUnfoldMatch(s: string, id: string, p: nat, n: nat, h: Hit)
    requires p < |s| && n > 0 && MatchAt(DefineCall, s, p) == Some(h)
    ensures Sub(s, id, p, n) == Replacement(id, h.capture) + Sub(s, id, h.end, n - 1)
    ensures FindAll(DefineCall, s, p) == [h] + FindAll(DefineCall, s, h.end)
  {
  }

  lemma TakeCons(h: Hit, tail: seq<Hit>, n: nat)
    requires n > 0
    ensures Take([h] + tail, n) == [h] + Take(tail, n - 1)
  {
    if n - 1 < |tail| {
      assert ([h] + tail)[..n] == [h] + tail[..n - 1];
    }
  }

  /** A match at the current position, followed by ordered matches. */
  lemma OrderedCons(s: string, h: Hit, rest: seq<Hit>, p: nat)
    requires h.start == p <= h.end <= |s| && Ordered(s, rest, h.end)
    ensures Ordered(s, [h] + rest, p)
  {
    assert ([h] + rest)[1..] == rest;
  }

  /** A match at the current position is replaced with nothing kept before it. */
  lemma SpliceHere(s: string, h: Hit, rest: seq<Hit>, id: string, p: nat)
    requires h.start == p <= h.end <= |s| && Ordered(s, rest, h.end)
    ensures Ordered(s, [h] + rest, p)
    ensures Splice(s, [h] + rest, id, p) == Replacement(id, h.capture) + Splice(s, rest, id, h.end)
  {
    var t := [h] + rest;
    OrderedCons(s, h, rest, p);
    assert t[0] == h && t[1..] == rest;
    SpliceFirst(s, t, id, p);
    assert s[p..h.start] == [];
  }

  lemma SpliceUnfoldMatch(s: string, id: string, p: nat, n: nat, h: Hit, tail: seq<Hit>)
    requires n > 0 && h.start == p <= h.end <= |s|
    requires Ordered(s, Take(tail, n - 1), h.end)
    ensures Ordered(s, Take([h] + tail, n), p)
    ensures Splice(s, Take([h] + tail, n), id, p) == Replacement(id, h.capture) + Splice(s, Take(tail, n - 1), id, h.end)
  {
    TakeCons(h, tail, n);
    SpliceHere(s, h, Take(tail, n - 1), id, p);
  }

  lemma SubMatchCase(s: string, id: string, p: nat, n: nat, h: Hit)
    requires p < |s| && n > 0 && MatchAt(DefineCall, s, p) == Some(h)
    requires SubSplices(s, id, h.end, n - 1)
    ensures SubSplices(s, id, p, n)
  {
    SubUnfoldMatch(s, id, p, n, h);
    SpliceUnfoldMatch(s, id, p, n, h, FindAll(DefineCall, s, h.end));
  }

  lemma SubSkipCase(s: string, id: string, p: nat, n: nat)
    requires p < |s| && n > 0 && MatchAt(DefineCall, s, p).None?
    requires SubSplices(s, id, p + 1, n)
    ensures SubSplices(s, id, p, n)
  {
    var t := Take(FindAll(DefineCall, s, p + 1), n);
    assert FindAll(DefineCall, s, p) == FindAll(DefineCall, s, p + 1);
    SpliceStep(s, t, id, p);
    assert Sub(s, id, p, n) == [s[p]] + Sub(s, id, p + 1, n);
  }

  lemma SubDoneCase(s: string, id: string, p: nat, n: nat)
    requires p <= |s| && (p == |s| || n == 0)
    ensures SubSplices(s, id, p, n)
  {
    var t := Take(FindAll(DefineCall, s, p), n);
    assert t == [] by {
      if p == |s| {
        assert FindAll(DefineCall, s, p) == [];
      }
    }
    assert Sub(s, id, p, n) == s[p..];
  }

  /**
   * The rewrite replaces the first `n` matches that `findall` reports and
   * keeps every character outside them.
   */
  lemma {:induction false} SubIsSplice(s: string, id: string, p: nat, n: nat)
    requires p <= |s|
    ensures SubSplices(s, id, p, n)
    decreases |s| - p
  {
    if p == |s| || n == 0 {
      SubDoneCase(s, id, p, n);
    } else {
      var m := MatchAt(DefineCall, s, p);
      if m.Some? {
        var h := m.value;
        SubIsSplice(s, id, h.end, n - 1);
        SubMatchCase(s, id, p, n, h);
      } else {
        SubIsSplice(s, id, p + 1, n);
        SubSkipCase(s, id, p, n);
      }
    }
  }

  /** `get_bundle_content`'s result: the rewritten text of an anonymous module. */
  lemma RewriteDefinesSpec(s: string, id: string)
    ensures Ordered(s, Take(FindAll(DefineCall, s, 0), SubCount), 0)
    ensures RewriteDefines(s, id) == Splice(s, Take(FindAll(DefineCall, s, 0), SubCount), id, 0)
  {
    SubIsSplice(s, id, 0, SubCount);
  }

  /*
   * One call, rewritten; and rewritten again.
   */

  /** `define`, whitespace `w`, `(`, the arguments `x`, `)`. */
  function DefineText(w: string, x: string): string {
    "define" + w + "(" + x + ")"
  }

  /** `w` may sit between `define` and `(`, and `x` holds no `)`. */
  predicate SimpleCall(w: string, x: string) {
    AllSpace(w) && ')' !in x
  }

  /** No `define` anywhere in `post`. */
  predicate NoDefine(post: string) {
    forall i :: 0 <= i <= |post| ==> !HasAt(post, i, "define")
  }

  lemma SubNoMatch(s: string, id: string, p: nat, n: nat)
    requires p <= |s| && forall q :: p <= q < |s| ==> MatchAt(DefineCall, s, q).None?
    ensures Sub(s, id, p, n) == s[p..]
    decreases |s| - p
  {
    if p < |s| && n > 0 {
      SubNoMatch(s, id, p + 1, n);
      assert s[p..] == [s[p]] + s[p + 1..];
    }
  }

  lemma NoDefineNoMatch(s: string, pre: string, post: string)
    requires s == pre + post && NoDefine(post)
    ensures forall q :: |pre| <= q < |s| ==> MatchAt(DefineCall, s, q).None?
  {
    forall q | |pre| <= q < |s| ensures MatchAt(DefineCall, s, q).None? {
      if HasAt(s, q, "define") {
        assert s[q..q + 6] == post[q - |pre|..q - |pre| + 6];
        assert HasAt(post, q - |pre|, "define");
      }
    }
  }

  lemma DefineTextMatch(w: string, x: string, post: string)
    requires SimpleCall(w, x)
    ensures MatchAt(DefineCall, DefineText(w, x) + post, 0) == Some(Hit(0, |DefineText(w, x)|, x))
  {
    var s := DefineText(w, x) + post;
    var i := 6 + |w|;
    var e := i + 1 + |x|;
    assert s[..6] == "define";
    assert forall q :: 6 <= q < i ==> s[q] == w[q - 6];
    assert s[i] == '(';
    assert forall q :: i < q < e ==> s[q] == x[q - i - 1];
    assert s[e] == ')';
    DefineCallFound(s, 0, i, e);
    assert s[i + 1..e] == x;
  }

  /**
   * A module whose only define call opens the text: the call becomes
   * `define("<id>", x)` (whitespace before `(` is dropped with the match)
   * and the rest is kept.
   */
  lemma RewriteOnlyCall(id: string, w: string, x: string, post: string)
    requires SimpleCall(w, x) && NoDefine(post)
    ensures RewriteDefines(DefineText(w, x) + post, id) == Replacement(id, x) + post
  {
    var s := DefineText(w, x) + post;
    DefineTextMatch(w, x, post);
    NoDefineNoMatch(s, DefineText(w, x), post);
    SubNoMatch(s, id, |DefineText(w, x)|, SubCount - 1);
    assert s[|DefineText(w, x)|..] == post;
  }

  /**
   * The rewrite does not look for a name already present: rewriting its
   * own output inserts the identifier a second time.
   */
  lemma RewriteTwice(id: string, w: string, x: string, post: string)
    requires SimpleCall(w, x) && NoDefine(post) && ')' !in id
    ensures RewriteDefines(RewriteDefines(DefineText(w, x) + post, id), id)
         == Replacement(id, "\"" + id + "\", " + x) + post
    ensures RewriteDefines(RewriteDefines(DefineText(w, x) + post, id), id) != RewriteDefines(DefineText(w, x) + post, id)
  {
    RewriteOnlyCall(id, w, x, post);
    var x2 := "\"" + id + "\", " + x;
    assert Replacement(id, x) == DefineText("", x2);
    assert ')' !in x2;
    RewriteOnlyCall(id, "", x2, post);
    assert |Replacement(id, x2) + post| > |Replacement(id, x) + post|;
  }
}
