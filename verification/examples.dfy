/**
 * Worked cases of the extractor, the decoder and the rewrite, on short
 * concrete texts.
 */
module Examples {
  import opened Wrappers
  import opened Text
  import opened JsonArray
  import opened Patterns
  import opened Extractor
  import opened Rewrite

  /** Mixed quotes keep the array's order. */
  lemma MixedQuotes()
    ensures Decode("['dep1',\"dep2\"]") == Some(["dep1", "dep2"])
  {
    var gaps := ["", "", "", "", ""];
    assert Entries(["dep2"], "\"\"", gaps[3..], ']') == "\"dep2\"]";
    assert Entries(["dep1", "dep2"], "''\"\"", gaps[1..], ']') == "'dep1'," + "\"dep2\"]";
    assert Render(["dep1", "dep2"], "''\"\"", gaps) == "['dep1',\"dep2\"]";
    DecodeRender(["dep1", "dep2"], "''\"\"", gaps);
  }

  /** A string opened with one quote and closed with the other decodes as well. */
  lemma MisalignedQuotes()
    ensures Decode("[\"dep1','dep2\"]") == Some(["dep1", "dep2"])
  {
    var gaps := ["", "", "", "", ""];
    assert Entries(["dep2"], "'\"", gaps[3..], ']') == "'dep2\"]";
    assert Entries(["dep1", "dep2"], "\"''\"", gaps[1..], ']') == "\"dep1'," + "'dep2\"]";
    assert Render(["dep1", "dep2"], "\"''\"", gaps) == "[\"dep1','dep2\"]";
    DecodeRender(["dep1", "dep2"], "\"''\"", gaps);
  }

  /** Unequal whitespace around the comma, as commonly written. */
  lemma SpacedEntries()
    ensures Decode("['a', 'b']") == Some(["a", "b"])
  {
    var gaps := ["", "", " ", "", ""];
    assert Entries(["b"], "''", gaps[3..], ']') == "'b']";
    assert Entries(["a", "b"], "''''", gaps[1..], ']') == "'a', " + "'b']";
    assert Render(["a", "b"], "''''", gaps) == "['a', 'b']";
    DecodeRender(["a", "b"], "''''", gaps);
  }

  /** A trailing comma is a parse error. */
  lemma TrailingComma()
    ensures Decode("['dep1',]") == None
  {
    var gaps := ["", "", ""];
    assert Entries(["dep1"], "''", gaps[1..], ',') == "'dep1',";
    DecodeRejectsAfterComma(["dep1"], "''", gaps, "]");
    assert "[" + gaps[0] + "'dep1'," + "]" == "['dep1',]";
  }

  /** A commented-out entry after a comma, as in the comments test, is a parse error. */
  lemma CommentedEntry()
    ensures Decode("[\n    'dep1',\n    //'dep2'\n]") == None
  {
    var indent := "\n    ";
    var gaps := [indent, "", indent];
    assert AllGaps(gaps);
    assert Entries(["dep1"], "''", gaps[1..], ',') == "'dep1'," + indent;
    DecodeRejectsAfterComma(["dep1"], "''", gaps, "//'dep2'\n]");
    CommentedText(indent);
  }

  lemma CommentedText(indent: string)
    requires indent == "\n    "
    ensures "[" + indent + ("'dep1'," + indent) + "//'dep2'\n]" == "[\n    'dep1',\n    //'dep2'\n]"
  {
    assert "[" + indent == "[\n    ";
    assert "'dep1'," + indent == "'dep1',\n    ";
    assert "[\n    " + "'dep1',\n    " == "[\n    'dep1',\n    ";
  }

  /** `my_require([...])`: the keyword is glued to an identifier, so nothing is extracted. */
  lemma GluedKeywordIgnored()
    ensures ModuleDependencies("my_require(['a'])") == Some([])
  {
    var t := "my_require(['a'])";
    forall k | 0 <= k < |t| ensures !IsBoundary(t[k]) {
      assert t[k] in t;
    }
    forall q: nat | HasAt(t, q, "require") || HasAt(t, q, "define")
      ensures 0 < q <= |t| && !IsBoundary(t[q - 1])
    {
      if HasAt(t, q, "require") {
        assert t[q..q + 7][0] == t[q];
      } else {
        assert t[q..q + 6][0] == t[q];
      }
      assert t[0] == 'm';
    }
    GluedKeywordsIgnored(t);
  }

  /** The anonymous module `define(['other/dep'], function(Dep) {` bundled as `dep`. */
  lemma RewriteExample()
    ensures var x := "['other/dep'], function(Dep";
      RewriteDefines("define(" + x + ")" + " {", "dep") == "define(\"dep\", " + x + ")" + " {"
  {
    var x := "['other/dep'], function(Dep";
    assert ')' !in x;
    assert forall i :: 0 <= i <= |" {"| ==> !HasAt(" {", i, "define");
    RewriteOnlyCall("dep", "", x, " {");
    assert DefineText("", x) == "define(" + x + ")";
    assert Replacement("dep", x) == "define(\"dep\", " + x + ")";
  }

  /** The legacy capture of `require(['a'], function(A) { return A.x()[0]; });` swallows the trailing `[0]`. */
  lemma SwallowedMatch(s: string, cap: string)
    requires cap == "['a']" + ", function(A) { return A.x()[0]"
    requires s == "require(" + cap + "; });"
    ensures MatchAt(Greedy(Require), s, 0) == Some(Hit(0, 44, cap))
  {
    assert |cap| == 36 && |s| == 49;
    assert s[..8] == "require(";
    assert s[8..44] == cap;
    assert forall q :: 8 <= q < 44 ==> s[q] == cap[q - 8];
    assert forall q :: 44 <= q < 49 ==> s[q] == "; });"[q - 44];
    assert cap[0] == '[' && cap[35] == ']';
    assert LineEnd(s, 43) == 49;
    GreedyCallFound(Require, s, 0, 43);
  }

  /** The swallowed capture is an array literal followed by code, so it does not decode. */
  lemma SwallowedCaptureFails(junk: string)
    requires junk == ", function(A) { return A.x()[0]"
    ensures Decode("['a']" + junk) == None
  {
    var gaps := ["", "", ""];
    assert Entries(["a"], "''", gaps[1..], ']') == "'a']";
    assert Render(["a"], "''", gaps) == "['a']";
    DecodeRejectsTrailing(["a"], "''", gaps, junk);
  }

  lemma SwallowedText(junk: string)
    requires junk == ", function(A) { return A.x()[0]"
    ensures "require(" + ("['a']" + junk) + "; });" == "require(['a'], function(A) { return A.x()[0]; });"
  {
    assert "['a']" + junk == "['a'], function(A) { return A.x()[0]";
    assert "require(" + "['a'], function(A) { return A.x()[0]" == "require(['a'], function(A) { return A.x()[0]";
  }

  /**
   * A legacy one-line call with a trailing index: the greedy capture runs
   * to the last `]` of the line, does not decode, and the extraction fails.
   */
  lemma SwallowedIndex()
    ensures LegacyModuleDependencies("require(['a'], function(A) { return A.x()[0]; });") == None
  {
    var junk := ", function(A) { return A.x()[0]";
    var cap := "['a']" + junk;
    var s := "require(" + cap + "; });";
    SwallowedText(junk);
    SwallowedMatch(s, cap);
    SwallowedCaptureFails(junk);
    var required := Captures(Greedy(Require), s, 0);
    assert FindAll(Greedy(Require), s, 0)[0] == Hit(0, 44, cap);
    assert required[0] == cap;
    var caps := required + Captures(Greedy(Define), s, 0);
    assert caps[0] == cap;
  }
}
