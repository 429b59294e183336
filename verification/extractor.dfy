/**
 * Static extraction of AMD dependencies from source text: the captures of
 * the `require(...)`/`define(...)` scanners, each decoded as a JSON array.
 * A capture that does not decode raises in the source and nothing catches
 * it, so one bad capture makes the whole extraction `None`.
 */
module Extractor {
  import opened Wrappers
  import opened Text
  import opened Patterns
  import opened JsonArray

  /** The decoded captures, concatenated in order; `None` as soon as one does not decode. */
  function DecodeAll(caps: seq<string>): (r: Option<seq<string>>)
    ensures r.Some? <==> forall k :: 0 <= k < |caps| ==> Decode(caps[k]).Some?
    ensures r.Some? && |caps| > 0 ==> Decode(caps[0]).value <= r.value
    decreases |caps|
  {
    if caps == [] then Some([])
    else
      match Decode(caps[0])
      case None => None
      case Some(first) =>
        match DecodeAll(caps[1..])
        case None => None
        case Some(rest) => Some(first + rest)
  }

  /** Both parts succeed and are concatenated; otherwise `None`. */
  function Concat(a: Option<seq<string>>, b: Option<seq<string>>): (r: Option<seq<string>>)
    ensures r.Some? <==> a.Some? && b.Some?
    ensures r.Some? ==> (|r.value| == |a.value| + |b.value|
      && r.value[..|a.value|] == a.value && r.value[|a.value|..] == b.value)
  {
    if a.Some? && b.Some? then Some(a.value + b.value) else None
  }

  /** Decoding a concatenation of capture lists is decoding each list and concatenating. */
  lemma {:induction false} DecodeAllAppend(a: seq<string>, b: seq<string>)
    ensures DecodeAll(a + b) == Concat(DecodeAll(a), DecodeAll(b))
    decreases |a|
  {
    if a == [] {
      assert a + b == b;
    } else {
      assert (a + b)[0] == a[0] && (a + b)[1..] == a[1..] + b;
      DecodeAllAppend(a[1..], b);
      match Decode(a[0])
      case None =>
      case Some(first) =>
        var ra := DecodeAll(a[1..]);
        var rb := DecodeAll(b);
        if ra.Some? && rb.Some? {
          assert first + (ra.value + rb.value) == (first + ra.value) + rb.value;
        }
    }
  }

  /**
   * `get_dependencies`: the require captures (when `findRequire`) and then
   * the define captures (when `findDefine`), each decoded.
   */
  function Dependencies(text: string, findRequire: bool, findDefine: bool): Option<seq<string>> {
    var required := if findRequire then Captures(Guarded(Require), text, 0) else [];
    var defines := if findDefine then Captures(Guarded(Define), text, 0) else [];
    DecodeAll(required + defines)
  }

  /** `get_module_dependencies` on the content of a module file. */
  function ModuleDependencies(content: string): Option<seq<string>> {
    Dependencies(content, true, true)
  }

  /** The dependencies a template asks the loader for: require calls only. */
  function TemplateScan(content: string): Option<seq<string>> {
    Dependencies(content, true, false)
  }

  /**
   * A module's dependencies are those of its require calls, in text order,
   * followed by those of its define calls; the template scan is the first
   * half alone.
   */
  lemma ModuleDependenciesSplit(content: string)
    ensures ModuleDependencies(content)
         == Concat(DecodeAll(Captures(Guarded(Require), content, 0)), DecodeAll(Captures(Guarded(Define), content, 0)))
    ensures TemplateScan(content) == DecodeAll(Captures(Guarded(Require), content, 0))
    ensures ModuleDependencies(content).Some? ==>
      (TemplateScan(content).Some? && TemplateScan(content).value <= ModuleDependencies(content).value)
  {
    var rs := Captures(Guarded(Require), content, 0);
    var ds := Captures(Guarded(Define), content, 0);
    DecodeAllAppend(rs, ds);
    assert rs + [] == rs;
  }

  /**
   * Every capture of a guarded scanner belongs to a keyword at the start of
   * the text or right after `;`, whitespace or `>`, and is a bracketed
   * array that stops at the first `]` (so a later `x()[0]` is never part of it).
   */
  lemma GuardedCapturesShape(c: Call, text: string)
    ensures forall k :: 0 <= k < |Captures(Guarded(c), text, 0)| ==>
      BracketCapture(Captures(Guarded(c), text, 0)[k])
    ensures forall h :: h in FindAll(Guarded(c), text, 0) ==>
      (h.start == 0 && HasAt(text, 0, Keyword(c)))
      || (h.start < |text| && IsBoundary(text[h.start]) && HasAt(text, h.start + 1, Keyword(c)))
  {
    var hits := FindAll(Guarded(c), text, 0);
    FindAllHits(Guarded(c), text, 0);
    forall k | 0 <= k < |hits|
      ensures BracketCapture(hits[k].capture)
      ensures (hits[k].start == 0 && HasAt(text, 0, Keyword(c)))
        || (hits[k].start < |text| && IsBoundary(text[hits[k].start]) && HasAt(text, hits[k].start + 1, Keyword(c)))
    {
      GuardedHitShape(c, text, hits[k].start);
    }
  }

  /** A text with no recognised call of either kind has no dependencies. */
  lemma NoCallsNoDependencies(text: string)
    requires forall q :: 0 <= q < |text| ==> MatchAt(Guarded(Require), text, q).None? && MatchAt(Guarded(Define), text, q).None?
    ensures ModuleDependencies(text) == Some([])
  {
    FindAllEmptyIff(Guarded(Require), text, 0);
    FindAllEmptyIff(Guarded(Define), text, 0);
    var rs := Captures(Guarded(Require), text, 0);
    var ds := Captures(Guarded(Define), text, 0);
    assert rs + ds == [];
  }

  /**
   * A keyword glued to the identifier before it, as in
   * `some_other_require([...])`, is not a call: when every occurrence of
   * `require` and `define` follows a character other than `;`,
   * whitespace or `>`, nothing is extracted and nothing fails.
   */
  lemma GluedKeywordsIgnored(text: string)
    requires forall q: nat :: HasAt(text, q, "require") || HasAt(text, q, "define") ==> 0 < q <= |text| && !IsBoundary(text[q - 1])
    ensures ModuleDependencies(text) == Some([])
  {
    forall q | 0 <= q < |text|
      ensures MatchAt(Guarded(Require), text, q).None? && MatchAt(Guarded(Define), text, q).None?
    {
      if MatchAt(Guarded(Require), text, q).Some? {
        GuardedHitShape(Require, text, q);
      }
      if MatchAt(Guarded(Define), text, q).Some? {
        GuardedHitShape(Define, text, q);
      }
    }
    NoCallsNoDependencies(text);
  }

  /** A value occurs in a concatenation exactly when it occurs in one of the parts. */
  lemma ConcatMembers(a: Option<seq<string>>, b: Option<seq<string>>, x: string)
    requires a.Some? && b.Some?
    ensures x in Concat(a, b).value <==> x in a.value || x in b.value
  {
  }

  /**
   * The scan of all templates: each template's require calls, in template
   * order; `None` when any template holds an array that does not decode.
   */
  function TemplateDependencies(templates: seq<string>): (r: Option<seq<string>>)
    ensures r.Some? <==> forall k :: 0 <= k < |templates| ==> TemplateScan(templates[k]).Some?
    decreases |templates|
  {
    if templates == [] then Some([])
    else Concat(TemplateScan(templates[0]), TemplateDependencies(templates[1..]))
  }

  /** The template dependencies are exactly the values some template's scan yields. */
  lemma {:induction false} TemplateDependenciesMembers(templates: seq<string>, x: string)
    requires TemplateDependencies(templates).Some?
    ensures x in TemplateDependencies(templates).value
        <==> exists k :: 0 <= k < |templates| && x in TemplateScan(templates[k]).value
    decreases |templates|
  {
    if templates != [] {
      var rest := templates[1..];
      TemplateDependenciesMembers(rest, x);
      ConcatMembers(TemplateScan(templates[0]), TemplateDependencies(rest), x);
      if exists k :: 0 <= k < |templates| && x in TemplateScan(templates[k]).value {
        var k :| 0 <= k < |templates| && x in TemplateScan(templates[k]).value;
        if k > 0 { assert rest[k - 1] == templates[k]; }
      }
      if exists k :: 0 <= k < |rest| && x in TemplateScan(rest[k]).value {
        var k :| 0 <= k < |rest| && x in TemplateScan(rest[k]).value;
        assert rest[k] == templates[k + 1];
      }
    }
  }

  /*
   * The legacy single-file filter: unguarded, greedy scanners.
   */

  /** The position the legacy template scan starts from: `re.MULTILINE` (8) sits in `findall`'s `pos` argument. */
  const LegacyTemplateStart: nat := 8

  /** The legacy `get_module_dependencies`: require arrays, then define arrays. */
  function LegacyModuleDependencies(content: string): Option<seq<string>> {
    DecodeAll(Captures(Greedy(Require), content, 0) + Captures(Greedy(Define), content, 0))
  }

  /** The legacy template scan of one template: require arrays from position 8 on. */
  function LegacyTemplateScan(content: string): Option<seq<string>> {
    DecodeAll(Captures(Greedy(Require), content, LegacyTemplateStart))
  }

  /** The legacy scan over all templates, in template order. */
  function LegacyTemplateDependencies(templates: seq<string>): (r: Option<seq<string>>)
    ensures r.Some? <==> forall k :: 0 <= k < |templates| ==> LegacyTemplateScan(templates[k]).Some?
    decreases |templates|
  {
    if templates == [] then Some([])
    else Concat(LegacyTemplateScan(templates[0]), LegacyTemplateDependencies(templates[1..]))
  }

  lemma LegacyModuleDependenciesSplit(content: string)
    ensures LegacyModuleDependencies(content)
         == Concat(DecodeAll(Captures(Greedy(Require), content, 0)), DecodeAll(Captures(Greedy(Define), content, 0)))
  {
    DecodeAllAppend(Captures(Greedy(Require), content, 0), Captures(Greedy(Define), content, 0));
  }

  /*
   * The first eight characters of a template are never scanned by the
   * legacy template scan: two templates that differ only there give the
   * same result.
   */

  /** `s1` and `s2` have the same length and the same characters from `q` on. */
  predicate AgreeFrom(s1: string, s2: string, q: nat) {
    |s1| == |s2| && forall k :: q <= k < |s1| ==> s1[k] == s2[k]
  }

  lemma FindAgree(s1: string, s2: string, q: nat, c: char, i: nat)
    requires AgreeFrom(s1, s2, q) && q <= i <= |s1|
    ensures Find(s1, c, i) == Find(s2, c, i)
  {
  }

  lemma FindLastAgree(s1: string, s2: string, q: nat, c: char, i: nat, j: nat)
    requires AgreeFrom(s1, s2, q) && q <= i <= j <= |s1|
    ensures FindLast(s1, c, i, j) == FindLast(s2, c, i, j)
  {
  }

  lemma LineEndAgree(s1: string, s2: string, q: nat, i: nat)
    requires AgreeFrom(s1, s2, q) && q <= i <= |s1|
    ensures LineEnd(s1, i) == LineEnd(s2, i)
  {
    FindAgree(s1, s2, q, '\n', i);
  }

  lemma HasAtAgree(s1: string, s2: string, q: nat, p: nat, w: string)
    requires AgreeFrom(s1, s2, q) && q <= p
    ensures HasAt(s1, p, w) == HasAt(s2, p, w)
  {
    if p + |w| <= |s1| {
      assert s1[p..p + |w|] == s2[p..p + |w|];
    }
  }

  /** From the `[` at `j` on, both texts yield the same capture. */
  lemma GreedyTailAgree(s1: string, s2: string, q: nat, j: nat)
    requires AgreeFrom(s1, s2, q) && q <= j < |s1|
    ensures var f := FindLast(s1, ']', j + 1, LineEnd(s1, j + 1));
      && f == FindLast(s2, ']', j + 1, LineEnd(s2, j + 1))
      && (f.Some? ==> s1[j..f.value + 1] == s2[j..f.value + 1])
  {
    LineEndAgree(s1, s2, q, j + 1);
    var le := LineEnd(s1, j + 1);
    FindLastAgree(s1, s2, q, ']', j + 1, le);
    var f := FindLast(s1, ']', j + 1, le);
    if f.Some? {
      assert s1[j..f.value + 1] == s2[j..f.value + 1];
    }
  }

  lemma GreedyAtAgree(kw: string, s1: string, s2: string, q: nat, p: nat)
    requires AgreeFrom(s1, s2, q) && q <= p
    ensures GreedyAt(kw, s1, p) == GreedyAt(kw, s2, p)
  {
    var open := kw + "(";
    HasAtAgree(s1, s2, q, p, open);
    var j := p + |open|;
    if HasAt(s1, p, open) && j < |s1| {
      assert s1[j] == s2[j];
      GreedyTailAgree(s1, s2, q, j);
    }
  }

  lemma GreedyAgree(c: Call, s1: string, s2: string, q: nat, p: nat)
    requires AgreeFrom(s1, s2, q) && q <= p
    ensures MatchAt(Greedy(c), s1, p) == MatchAt(Greedy(c), s2, p)
  {
    GreedyAtAgree(Keyword(c), s1, s2, q, p);
  }

  lemma {:induction false} GreedyFindAllAgree(c: Call, s1: string, s2: string, q: nat, p: nat)
    requires AgreeFrom(s1, s2, q) && q <= p
    ensures FindAll(Greedy(c), s1, p) == FindAll(Greedy(c), s2, p)
    decreases |s1| - p
  {
    if p < |s1| {
      GreedyAgree(c, s1, s2, q, p);
      match MatchAt(Greedy(c), s1, p)
      case Some(h) => GreedyFindAllAgree(c, s1, s2, q, h.end);
      case None => GreedyFindAllAgree(c, s1, s2, q, p + 1);
    }
  }

  /** Whatever the first eight characters of a template are, the legacy template scan ignores them. */
  lemma LegacyTemplateScanSkipsPrefix(x: string, y: string, t: string)
    requires |x| == LegacyTemplateStart && |y| == LegacyTemplateStart
    ensures LegacyTemplateScan(x + t) == LegacyTemplateScan(y + t)
  {
    assert AgreeFrom(x + t, y + t, LegacyTemplateStart) by {
      forall k | LegacyTemplateStart <= k < |x + t| ensures (x + t)[k] == (y + t)[k] {
        assert (x + t)[k] == t[k - |x|];
      }
    }
    GreedyFindAllAgree(Require, x + t, y + t, LegacyTemplateStart, LegacyTemplateStart);
  }
}
