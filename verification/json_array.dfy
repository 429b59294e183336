/**
 * Decoding of a captured dependency array: every `'` is turned into `"`
 * and the result is parsed as a JSON array (RFC 8259 sections 2, 5 and 7).
 *
 * The grammar accepted is the part of JSON the dependency lists use: an
 * array whose elements are string literals without escapes or control
 * characters, with JSON whitespace between tokens. Anything else is a
 * parse error, `None`.
 */
module JsonArray {
  import opened Wrappers
  import opened Text

  /** Every `'` replaced by `"`; all other characters kept. */
  function SwapQuotes(s: string): (r: string)
    ensures |r| == |s|
    ensures forall i :: 0 <= i < |s| ==> r[i] == (if s[i] == '\'' then '"' else s[i])
  {
    seq(|s|, i requires 0 <= i < |s| => if s[i] == '\'' then '"' else s[i])
  }

  /**
   * A character that may stand unescaped inside a JSON string: not the
   * closing quote, not a backslash (escapes are not modelled) and not a
   * control character below U+0020.
   */
  predicate PlainStringChar(c: char) {
    c != '"' && c != '\\' && c >= ' '
  }

  predicate PlainString(x: string) {
    forall i :: 0 <= i < |x| ==> PlainStringChar(x[i])
  }

  /** `s` without its leading JSON whitespace. */
  function SkipJsonWs(s: string): (r: string)
    ensures |r| <= |s|
    ensures r != [] ==> !IsJsonSpace(r[0])
    decreases |s|
  {
    if s != [] && IsJsonSpace(s[0]) then
      SkipJsonWs(s[1..])
    else s
  }

  /**
   * The body of a string literal whose opening quote has been read: the
   * characters up to the closing `"`, and the text after it.
   */
  function ParseStringBody(s: string): (r: Option<(string, string)>)
    ensures r.Some? ==> |r.value.0| < |s| && s[|r.value.0|] == '"' && PlainString(r.value.0)
    ensures r.Some? ==> r.value.0 == s[..|r.value.0|] && r.value.1 == s[|r.value.0| + 1..]
    decreases |s|
  {
    if s == [] then None
    else if s[0] == '"' then Some(([], s[1..]))
    else if !PlainStringChar(s[0]) then None
    else
      match ParseStringBody(s[1..])
      case None => None
      case Some((body, rest)) =>
        assert [s[0]] + body == s[..|body| + 1];
        Some(([s[0]] + body, rest))
  }

  /**
   * The elements of an array from the point where a string element must
   * start, through the closing `]` and the trailing whitespace.
   */
  function ParseItems(s: string): (r: Option<seq<string>>)
    ensures r.Some? ==> |r.value| >= 1 && forall k :: 0 <= k < |r.value| ==> PlainString(r.value[k])
    decreases |s|
  {
    if s == [] || s[0] != '"' then None
    else
      var body := ParseStringBody(s[1..]);
      if body.None? then None
      else
        var (item, rest) := body.value;
        var t := SkipJsonWs(rest);
        if t == [] then None
        else if t[0] == ',' then
          var next := SkipJsonWs(t[1..]);
          assert |next| < |s|;
          var more := ParseItems(next);
          if more.None? then None
          else
            var items := [item] + more.value;
            assert forall k :: 1 <= k < |items| ==> items[k] == more.value[k - 1];
            Some(items)
        else if t[0] == ']' && SkipJsonWs(t[1..]) == [] then Some([item])
        else None
  }

  /** `json.loads` restricted to arrays of plain string literals. */
  function ParseArray(s: string): (r: Option<seq<string>>)
    ensures r.Some? ==> forall k :: 0 <= k < |r.value| ==> PlainString(r.value[k])
  {
    var t := SkipJsonWs(s);
    if t == [] || t[0] != '[' then None
    else
      var u := SkipJsonWs(t[1..]);
      if u != [] && u[0] == ']' then
        if SkipJsonWs(u[1..]) == [] then Some([]) else None
      else ParseItems(u)
  }

  /** The decoding of one captured array: quote swap, then JSON. */
  function Decode(capture: string): (r: Option<seq<string>>)
    ensures r.Some? ==> forall k :: 0 <= k < |r.value| ==> PlainString(r.value[k])
  {
    ParseArray(SwapQuotes(capture))
  }

  /*
   * Round trip: an array literal written with any mix of single- and
   * double-quoted entries, each quote chosen separately, and any JSON
   * whitespace between its tokens decodes to its entries, in order.
   */

  /** An identifier that can be written inside either kind of quote. */
  predicate Quotable(x: string) {
    PlainString(x) && '\'' !in x
  }

  predicate AllQuotable(items: seq<string>) {
    forall k :: 0 <= k < |items| ==> Quotable(items[k])
  }

  predicate IsQuote(q: char) {
    q == '\'' || q == '"'
  }

  /** Every quote character is `'` or `"`. */
  predicate AllQuotes(quotes: seq<char>) {
    forall k :: 0 <= k < |quotes| ==> IsQuote(quotes[k])
  }

  /** Every gap is JSON whitespace. */
  predicate AllGaps(gaps: seq<string>) {
    forall k :: 0 <= k < |gaps| ==> AllJsonSpace(gaps[k])
  }

  /**
   * The entries of an array literal, ending with the token `close`. Entry
   * `k` is opened with `quotes[2 * k]` and closed with `quotes[2 * k + 1]`;
   * `gaps[2 * k]` follows it, then a comma (`close` after the last entry),
   * then `gaps[2 * k + 1]`.
   */
  function Entries(items: seq<string>, quotes: seq<char>, gaps: seq<string>, close: char): string
    requires |quotes| == 2 * |items| && |gaps| == 2 * |items|
    decreases |items|
  {
    if |items| == 0 then [close]
    else
      [quotes[0]] + items[0] + [quotes[1]] + gaps[0]
      + (if |items| == 1 then [close] + gaps[1]
         else "," + gaps[1] + Entries(items[1..], quotes[2..], gaps[2..], close))
  }

  /**
   * The array literal as it appears in a `require([...])` call: `[`, the
   * whitespace `gaps[0]`, then the entries through `]`. Each stretch of
   * whitespace between two tokens is chosen separately.
   */
  function Render(items: seq<string>, quotes: seq<char>, gaps: seq<string>): string
    requires |quotes| == 2 * |items| && |gaps| == 2 * |items| + 1
  {
    "[" + gaps[0] + Entries(items, quotes, gaps[1..], ']')
  }

  function Doubles(n: nat): (q: seq<char>)
    ensures |q| == n && forall k :: 0 <= k < n ==> q[k] == '"'
  {
    seq(n, k => '"')
  }

  lemma SwapQuotesAppend(a: string, b: string)
    ensures SwapQuotes(a + b) == SwapQuotes(a) + SwapQuotes(b)
  {
  }

  lemma SwapQuotesUnquoted(x: string)
    requires '\'' !in x
    ensures SwapQuotes(x) == x
  {
  }

  /** Skipping whitespace looks through a whitespace prefix. */
  lemma {:induction false} SkipJsonWsPrefix(w: string, t: string)
    requires AllJsonSpace(w)
    ensures SkipJsonWs(w + t) == SkipJsonWs(t)
    decreases |w|
  {
    if w != [] {
      assert (w + t)[1..] == w[1..] + t;
      SkipJsonWsPrefix(w[1..], t);
    } else {
      assert w + t == t;
    }
  }

  lemma SkipJsonWsStop(t: string)
    requires t == [] || !IsJsonSpace(t[0])
    ensures SkipJsonWs(t) == t
  {
  }

  lemma {:induction false} ParseStringBodyOf(x: string, t: string)
    requires PlainString(x)
    ensures ParseStringBody(x + "\"" + t) == Some((x, t))
    decreases |x|
  {
    if x != [] {
      assert (x + "\"" + t)[1..] == x[1..] + "\"" + t;
      ParseStringBodyOf(x[1..], t);
      assert [x[0]] + x[1..] == x;
    }
  }

  /** The quote swap turns one entry's quotes, whichever they are, into double quotes. */
  lemma SwapQuotedEntry(o: char, x: string, c: char)
    requires IsQuote(o) && IsQuote(c) && Quotable(x)
    ensures SwapQuotes([o] + x + [c]) == "\"" + x + "\""
  {
    SwapQuotesAppend([o] + x, [c]);
    SwapQuotesAppend([o], x);
    SwapQuotesUnquoted(x);
    assert SwapQuotes([o]) == "\"" && SwapQuotes([c]) == "\"";
  }

  /** The quote swap leaves whitespace and the separator tokens alone. */
  lemma SwapQuotesGap(token: string, gap: string, rest: string)
    requires '\'' !in token && AllJsonSpace(gap)
    ensures SwapQuotes(token + gap + rest) == token + gap + SwapQuotes(rest)
  {
    SwapQuotesAppend(token + gap, rest);
    SwapQuotesUnquoted(token + gap);
  }

  /** One step of the quote swap over the entries: the first entry and the gap after it. */
  lemma SwapEntriesHead(items: seq<string>, quotes: seq<char>, gaps: seq<string>, close: char, tail: string)
    requires 1 <= |items| && |quotes| == 2 * |items| && |gaps| == 2 * |items|
    requires IsQuote(quotes[0]) && IsQuote(quotes[1]) && Quotable(items[0]) && AllJsonSpace(gaps[0])
    ensures SwapQuotes([quotes[0]] + items[0] + [quotes[1]] + gaps[0] + tail)
         == "\"" + items[0] + "\"" + gaps[0] + SwapQuotes(tail)
  {
    var entry := [quotes[0]] + items[0] + [quotes[1]];
    SwapQuotedEntry(quotes[0], items[0], quotes[1]);
    SwapQuotesAppend(entry + gaps[0], tail);
    SwapQuotesAppend(entry, gaps[0]);
    SwapQuotesUnquoted(gaps[0]);
  }

  lemma {:induction false} SwapEntries(items: seq<string>, quotes: seq<char>, gaps: seq<string>, close: char)
    requires |quotes| == 2 * |items| && |gaps| == 2 * |items|
    requires AllQuotes(quotes) && AllGaps(gaps) && AllQuotable(items) && close != '\''
    ensures SwapQuotes(Entries(items, quotes, gaps, close)) == Entries(items, Doubles(2 * |items|), gaps, close)
    decreases |items|
  {
    var d := Doubles(2 * |items|);
    if |items| == 0 {
      SwapQuotesUnquoted([close]);
    } else if |items| == 1 {
      SwapEntriesHead(items, quotes, gaps, close, [close] + gaps[1]);
      SwapQuotesGap([close], gaps[1], "");
      assert [close] + gaps[1] + "" == [close] + gaps[1];
      assert [d[0]] == "\"" && [d[1]] == "\"";
    } else {
      var rest := Entries(items[1..], quotes[2..], gaps[2..], close);
      SwapEntriesHead(items, quotes, gaps, close, "," + gaps[1] + rest);
      SwapQuotesGap(",", gaps[1], rest);
      SwapEntries(items[1..], quotes[2..], gaps[2..], close);
      assert d[2..] == Doubles(2 * |items[1..]|);
      assert [d[0]] == "\"" && [d[1]] == "\"";
    }
  }

  /** The double-quoted entries, split after the first comma. */
  lemma EntriesCons(items: seq<string>, gaps: seq<string>, close: char)
    requires |items| >= 2 && |gaps| == 2 * |items|
    ensures Entries(items, Doubles(2 * |items|), gaps, close)
         == "\"" + items[0] + "\"" + gaps[0] + "," + gaps[1] + Entries(items[1..], Doubles(2 * |items[1..]|), gaps[2..], close)
  {
    var q := Doubles(2 * |items|);
    assert q[2..] == Doubles(2 * |items[1..]|);
    var rest := Entries(items[1..], q[2..], gaps[2..], close);
    assert [q[0]] == "\"" && [q[1]] == "\"";
    assert Entries(items, q, gaps, close) == "\"" + items[0] + "\"" + gaps[0] + ("," + gaps[1] + rest);
    RegroupSeparator("\"" + items[0] + "\"" + gaps[0], gaps[1], rest);
  }

  /** The double-quoted last entry. */
  lemma EntriesLast(items: seq<string>, gaps: seq<string>, close: char)
    requires |items| == 1 && |gaps| == 2
    ensures Entries(items, Doubles(2 * |items|), gaps, close) == "\"" + items[0] + "\"" + gaps[0] + [close] + gaps[1]
  {
    assert Doubles(2 * |items|) == "\"\"";
  }

  lemma EntriesStartsQuoted(items: seq<string>, gaps: seq<string>, close: char)
    requires |items| >= 1 && |gaps| == 2 * |items|
    ensures Entries(items, Doubles(2 * |items|), gaps, close) != []
    ensures Entries(items, Doubles(2 * |items|), gaps, close)[0] == '"'
  {
  }

  lemma RegroupSeparator(head: string, gap: string, rest: string)
    ensures head + ("," + gap + rest) == head + "," + gap + rest
  {
  }

  lemma RegroupTail(head: string, rest: string, junk: string)
    ensures head + rest + junk == head + (rest + junk)
  {
  }

  lemma {:induction false} SkipJsonWsAll(w: string)
    requires AllJsonSpace(w)
    ensures SkipJsonWs(w) == []
    decreases |w|
  {
    if w != [] {
      SkipJsonWsAll(w[1..]);
    }
  }

  /** The first string of `"x" rest` is `x`. */
  lemma ReadStringOf(x: string, rest: string)
    requires PlainString(x)
    ensures var s := "\"" + x + "\"" + rest;
      s != [] && s[0] == '"' && ParseStringBody(s[1..]) == Some((x, rest))
  {
    var s := "\"" + x + "\"" + rest;
    assert s[1..] == x + "\"" + rest;
    ParseStringBodyOf(x, rest);
  }

  /** One element read, then `]`: only whitespace may follow. */
  lemma ParseItemsAfterClose(s: string, x: string, after: string)
    requires s != [] && s[0] == '"' && ParseStringBody(s[1..]) == Some((x, after))
    requires SkipJsonWs(after) != [] && SkipJsonWs(after)[0] == ']'
    ensures ParseItems(s) == if SkipJsonWs(SkipJsonWs(after)[1..]) == [] then Some([x]) else None
  {
  }

  lemma RegroupClosed(q: string, before: string, after: string, rest: string)
    ensures q + before + "]" + after + rest == q + (before + ("]" + (after + rest)))
  {
  }

  /** The last element, `]`, whitespace, then `rest`: the array ends there exactly when `rest` is whitespace. */
  lemma ParseClosed(x: string, before: string, after: string, rest: string)
    requires PlainString(x) && AllJsonSpace(before) && AllJsonSpace(after)
    ensures ParseItems("\"" + x + "\"" + before + "]" + after + rest) == if SkipJsonWs(rest) == [] then Some([x]) else None
  {
    var tail := "]" + (after + rest);
    RegroupClosed("\"" + x + "\"", before, after, rest);
    ReadStringOf(x, before + tail);
    SkipJsonWsPrefix(before, tail);
    SkipJsonWsStop(tail);
    assert tail[1..] == after + rest;
    SkipJsonWsPrefix(after, rest);
    ParseItemsAfterClose("\"" + x + "\"" + (before + tail), x, before + tail);
  }

  /** The last element of an array literal, then whitespace. */
  lemma ParseLastItem(x: string, before: string, after: string, post: string)
    requires PlainString(x) && AllJsonSpace(before) && AllJsonSpace(after) && AllJsonSpace(post)
    ensures ParseItems("\"" + x + "\"" + before + "]" + after + post) == Some([x])
  {
    ParseClosed(x, before, after, post);
    SkipJsonWsAll(post);
  }

  /** One element read, then a comma: what follows the comma decides. */
  lemma ParseItemsAfterComma(s: string, x: string, after: string)
    requires s != [] && s[0] == '"' && ParseStringBody(s[1..]) == Some((x, after))
    requires SkipJsonWs(after) != [] && SkipJsonWs(after)[0] == ','
    ensures var more := ParseItems(SkipJsonWs(SkipJsonWs(after)[1..]));
      ParseItems(s) == if more.Some? then Some([x] + more.value) else None
  {
  }

  /** The first string of `"x" before , after next` is `x`. */
  lemma ReadQuoted(x: string, before: string, after: string, next: string)
    requires PlainString(x)
    ensures var s := "\"" + x + "\"" + before + "," + after + next;
      s != [] && s[0] == '"' && ParseStringBody(s[1..]) == Some((x, before + ("," + (after + next))))
  {
    var s := "\"" + x + "\"" + before + "," + after + next;
    var rest := before + ("," + (after + next));
    assert s[1..] == x + "\"" + rest;
    ParseStringBodyOf(x, rest);
  }

  /** Whitespace, a comma, whitespace: skipping leads to the comma, then past it to `next`. */
  lemma SkipComma(before: string, after: string, next: string)
    requires AllJsonSpace(before) && AllJsonSpace(after) && (next == [] || !IsJsonSpace(next[0]))
    ensures SkipJsonWs(before + ("," + (after + next))) == "," + (after + next)
    ensures SkipJsonWs(("," + (after + next))[1..]) == next
  {
    var comma := "," + (after + next);
    SkipJsonWsPrefix(before, comma);
    SkipJsonWsStop(comma);
    assert comma[1..] == after + next;
    SkipJsonWsPrefix(after, next);
    SkipJsonWsStop(next);
  }

  /** An element, a comma, and what follows: the element is prepended to what the rest parses to. */
  lemma ParseItemsCons(x: string, before: string, after: string, next: string)
    requires PlainString(x) && AllJsonSpace(before) && AllJsonSpace(after)
    requires next == [] || !IsJsonSpace(next[0])
    ensures ParseItems("\"" + x + "\"" + before + "," + after + next)
         == if ParseItems(next).Some? then Some([x] + ParseItems(next).value) else None
  {
    ReadQuoted(x, before, after, next);
    SkipComma(before, after, next);
    ParseItemsAfterComma("\"" + x + "\"" + before + "," + after + next, x, before + ("," + (after + next)));
  }

  /** The double-quoted entries through `]`, followed by whitespace, parse to the entries. */
  lemma {:induction false} ParseEntries(items: seq<string>, gaps: seq<string>, post: string)
    requires |items| >= 1 && |gaps| == 2 * |items| && AllQuotable(items) && AllGaps(gaps) && AllJsonSpace(post)
    ensures ParseItems(Entries(items, Doubles(2 * |items|), gaps, ']') + post) == Some(items)
    decreases |items|
  {
    var x := items[0];
    assert Quotable(x) && AllJsonSpace(gaps[0]) && AllJsonSpace(gaps[1]);
    if |items| == 1 {
      EntriesLast(items, gaps, ']');
      ParseLastItem(x, gaps[0], gaps[1], post);
      assert items == [x];
    } else {
      var restText := Entries(items[1..], Doubles(2 * |items[1..]|), gaps[2..], ']');
      EntriesCons(items, gaps, ']');
      RegroupTail("\"" + x + "\"" + gaps[0] + "," + gaps[1], restText, post);
      ParseEntries(items[1..], gaps[2..], post);
      EntriesStartsQuoted(items[1..], gaps[2..], ']');
      var next := restText + post;
      assert next[0] == restText[0];
      ParseItemsCons(x, gaps[0], gaps[1], next);
      assert [x] + items[1..] == items;
    }
  }

  /** The quote swap turns any rendering into the double-quoted one. */
  lemma SwapRender(items: seq<string>, quotes: seq<char>, gaps: seq<string>)
    requires |quotes| == 2 * |items| && |gaps| == 2 * |items| + 1
    requires AllQuotes(quotes) && AllGaps(gaps) && AllQuotable(items)
    ensures SwapQuotes(Render(items, quotes, gaps)) == "[" + gaps[0] + Entries(items, Doubles(2 * |items|), gaps[1..], ']')
  {
    SwapEntries(items, quotes, gaps[1..], ']');
    SwapQuotesGap("[", gaps[0], Entries(items, quotes, gaps[1..], ']'));
  }

  /** Whitespace before the array is skipped. */
  lemma ParseArrayAfterSpace(w: string, s: string)
    requires AllJsonSpace(w)
    ensures ParseArray(w + s) == ParseArray(s)
  {
    SkipJsonWsPrefix(w, s);
  }

  /** An array whose first element starts with a quote is parsed as its elements. */
  lemma ParseArrayOpen(gap: string, inner: string)
    requires AllJsonSpace(gap) && inner != [] && inner[0] == '"'
    ensures ParseArray("[" + gap + inner) == ParseItems(inner)
  {
    assert ("[" + gap + inner)[1..] == gap + inner;
    SkipJsonWsPrefix(gap, inner);
    SkipJsonWsStop(inner);
  }

  /** The empty array, with any whitespace inside, then `rest`: only whitespace may follow. */
  lemma ParseEmptyArray(gap: string, rest: string)
    requires AllJsonSpace(gap)
    ensures ParseArray("[" + gap + "]" + rest) == if SkipJsonWs(rest) == [] then Some([]) else None
  {
    var s := "[" + gap + "]" + rest;
    assert s[1..] == gap + ("]" + rest);
    SkipJsonWsPrefix(gap, "]" + rest);
    SkipJsonWsStop("]" + rest);
    assert ("]" + rest)[1..] == rest;
  }

  /** The double-quoted rendering, between whitespace, parses back to its entries. */
  lemma ParseRender(pre: string, items: seq<string>, gaps: seq<string>, post: string)
    requires |gaps| == 2 * |items| + 1 && AllQuotable(items) && AllGaps(gaps)
    requires AllJsonSpace(pre) && AllJsonSpace(post)
    ensures ParseArray(pre + ("[" + gaps[0] + Entries(items, Doubles(2 * |items|), gaps[1..], ']')) + post) == Some(items)
  {
    var inner := Entries(items, Doubles(2 * |items|), gaps[1..], ']');
    var x := "[" + gaps[0] + inner;
    assert pre + x + post == pre + (x + post);
    ParseArrayAfterSpace(pre, x + post);
    assert AllJsonSpace(gaps[0]);
    if |items| == 0 {
      assert inner == "]";
      SkipJsonWsAll(post);
      ParseEmptyArray(gaps[0], post);
    } else {
      EntriesStartsQuoted(items, gaps[1..], ']');
      RegroupTail("[" + gaps[0], inner, post);
      assert (inner + post)[0] == inner[0];
      ParseArrayOpen(gaps[0], inner + post);
      ParseEntries(items, gaps[1..], post);
    }
  }

  /**
   * `c` is the array literal of `items` written with the quote characters
   * `quotes` and the whitespace `gaps`, with JSON whitespace `pre` before
   * it and `post` after it.
   */
  predicate Rendering(c: string, items: seq<string>, pre: string, quotes: seq<char>, gaps: seq<string>, post: string) {
    && |quotes| == 2 * |items| && |gaps| == 2 * |items| + 1
    && AllQuotes(quotes) && AllGaps(gaps) && AllQuotable(items)
    && AllJsonSpace(pre) && AllJsonSpace(post)
    && c == pre + Render(items, quotes, gaps) + post
  }

  lemma SpaceUnquoted(w: string)
    requires AllJsonSpace(w)
    ensures '"' !in w && '\'' !in w
  {
    forall i | 0 <= i < |w| ensures w[i] != '"' && w[i] != '\'' {
      assert IsJsonSpace(w[i]);
    }
  }

  /** A rendering between whitespace decodes to its entries. */
  lemma DecodeRendering(c: string, items: seq<string>, pre: string, quotes: seq<char>, gaps: seq<string>, post: string)
    requires Rendering(c, items, pre, quotes, gaps, post)
    ensures Decode(c) == Some(items)
  {
    var r := Render(items, quotes, gaps);
    SpaceUnquoted(pre);
    SpaceUnquoted(post);
    SwapQuotesAppend(pre + r, post);
    SwapQuotesAppend(pre, r);
    SwapQuotesUnquoted(pre);
    SwapQuotesUnquoted(post);
    SwapRender(items, quotes, gaps);
    ParseRender(pre, items, gaps, post);
  }

  /** Decoding a rendered array literal gives back its entries, whatever quotes and whitespace were used. */
  lemma DecodeRender(items: seq<string>, quotes: seq<char>, gaps: seq<string>)
    requires |quotes| == 2 * |items| && |gaps| == 2 * |items| + 1
    requires AllQuotes(quotes) && AllGaps(gaps) && AllQuotable(items)
    ensures Decode(Render(items, quotes, gaps)) == Some(items)
  {
    var r := Render(items, quotes, gaps);
    assert "" + r + "" == r;
    DecodeRendering(r, items, "", quotes, gaps, "");
  }

  /*
   * The converse: only renderings decode. The parser's input splits into
   * whitespace and tokens exactly as a rendering does, and the quote swap
   * can be undone position by position.
   */

  /** Skipping whitespace drops a whitespace prefix `w`. */
  lemma {:induction false} SkipJsonWsSplit(s: string) returns (w: string)
    ensures AllJsonSpace(w) && s == w + SkipJsonWs(s)
    decreases |s|
  {
    if s != [] && IsJsonSpace(s[0]) {
      var v := SkipJsonWsSplit(s[1..]);
      w := [s[0]] + v;
      assert s == [s[0]] + s[1..];
    } else {
      w := [];
    }
  }

  /** The opening quote, the body and the closing quote of the string at the start of `s`. */
  lemma ReadString(s: string) returns (x: string, rest: string)
    requires s != [] && s[0] == '"' && ParseStringBody(s[1..]).Some?
    ensures ParseStringBody(s[1..]) == Some((x, rest)) && s == "\"" + x + "\"" + rest
  {
    x, rest := ParseStringBody(s[1..]).value.0, ParseStringBody(s[1..]).value.1;
    assert s == [s[0]] + s[1..];
  }

  lemma RegroupItem(q: string, w1: string, sep: char, w2: string, next: string)
    ensures q + (w1 + ([sep] + w2 + next)) == q + w1 + [sep] + w2 + next
  {
  }

  /** One element read by the element parser, the whitespace around the token after it, and what follows. */
  lemma ReadItem(s: string) returns (x: string, w1: string, sep: char, w2: string, next: string)
    requires ParseItems(s).Some?
    ensures PlainString(x) && AllJsonSpace(w1) && AllJsonSpace(w2) && |next| < |s|
    ensures s == "\"" + x + "\"" + w1 + [sep] + w2 + next
    ensures sep == ',' ==> ParseItems(next).Some? && ParseItems(s).value == [x] + ParseItems(next).value
    ensures sep != ',' ==> sep == ']' && next == [] && ParseItems(s).value == [x]
  {
    var rest;
    x, rest := ReadString(s);
    w1 := SkipJsonWsSplit(rest);
    var t := SkipJsonWs(rest);
    sep := t[0];
    w2 := SkipJsonWsSplit(t[1..]);
    next := SkipJsonWs(t[1..]);
    assert t == [sep] + w2 + next;
    RegroupItem("\"" + x + "\"", w1, sep, w2, next);
  }

  lemma AllGapsPair(w1: string, w2: string, more: seq<string>)
    requires AllJsonSpace(w1) && AllJsonSpace(w2) && AllGaps(more)
    ensures AllGaps([w1, w2] + more)
  {
    var g := [w1, w2] + more;
    forall k | 2 <= k < |g| ensures AllJsonSpace(g[k]) {
      assert g[k] == more[k - 2];
    }
  }

  /** What the element parser accepts is the double-quoted entries through `]`. */
  lemma {:induction false} ParsedItemsRendered(s: string, items: seq<string>) returns (gaps: seq<string>)
    requires ParseItems(s) == Some(items)
    ensures |gaps| == 2 * |items| && AllGaps(gaps)
    ensures s == Entries(items, Doubles(2 * |items|), gaps, ']')
    decreases |s|
  {
    var x, w1, sep, w2, next := ReadItem(s);
    if sep == ',' {
      var more := ParsedItemsRendered(next, items[1..]);
      gaps := [w1, w2] + more;
      AllGapsPair(w1, w2, more);
      assert gaps[2..] == more;
      EntriesCons(items, gaps, ']');
    } else {
      gaps := [w1, w2];
      EntriesLast(items, gaps, ']');
    }
  }

  /** What the array parser accepts is a double-quoted rendering between whitespace. */
  lemma ParsedArrayRendered(t: string, items: seq<string>) returns (pre: string, gaps: seq<string>, post: string)
    requires ParseArray(t) == Some(items)
    ensures |gaps| == 2 * |items| + 1 && AllGaps(gaps) && AllJsonSpace(pre) && AllJsonSpace(post)
    ensures t == pre + ("[" + gaps[0] + Entries(items, Doubles(2 * |items|), gaps[1..], ']')) + post
  {
    pre := SkipJsonWsSplit(t);
    var a := SkipJsonWs(t);
    var g := SkipJsonWsSplit(a[1..]);
    var u := SkipJsonWs(a[1..]);
    assert a == "[" + g + u;
    if u != [] && u[0] == ']' {
      post := SkipJsonWsSplit(u[1..]);
      gaps := [g];
      assert u == "]" + post;
      assert Entries(items, Doubles(0), gaps[1..], ']') == "]";
    } else {
      var more := ParsedItemsRendered(u, items);
      gaps := [g] + more;
      post := [];
      assert gaps[1..] == more;
    }
  }

  /** The swap of `c`, split after `|a|` characters. */
  lemma SwapSplit(c: string, a: string, b: string)
    requires SwapQuotes(c) == a + b
    ensures |a| <= |c| && c == c[..|a|] + c[|a|..]
    ensures SwapQuotes(c[..|a|]) == a && SwapQuotes(c[|a|..]) == b
  {
    assert c == c[..|a|] + c[|a|..];
    SwapQuotesAppend(c[..|a|], c[|a|..]);
    assert SwapQuotes(c[..|a|]) == (a + b)[..|a|];
    assert SwapQuotes(c[|a|..]) == (a + b)[|a|..];
  }

  /** Text whose swap holds no double quote is its own swap. */
  lemma UnswapPlain(c: string, w: string)
    requires SwapQuotes(c) == w && '"' !in w
    ensures c == w && '\'' !in c
  {
    forall i | 0 <= i < |c| ensures c[i] == w[i] && c[i] != '\'' {
      assert w[i] in w;
    }
  }

  /** Undoing the swap over one double-quoted entry and the gap after it. */
  lemma UnswapHead(c: string, x: string, gap: string, tail: string)
    requires SwapQuotes(c) == "\"" + x + "\"" + gap + tail && PlainString(x) && AllJsonSpace(gap)
    ensures var n := |x| + 2 + |gap|;
      && n <= |c| && IsQuote(c[0]) && IsQuote(c[|x| + 1]) && Quotable(x)
      && c == [c[0]] + x + [c[|x| + 1]] + gap + c[n..] && SwapQuotes(c[n..]) == tail
  {
    var n := |x| + 2 + |gap|;
    SwapSplit(c, "\"" + x + "\"" + gap, tail);
    var h := c[..n];
    SwapSplit(h, "\"" + x + "\"", gap);
    SpaceUnquoted(gap);
    UnswapPlain(h[|x| + 2..], gap);
    UnswapQuoted(h[..|x| + 2], x);
  }

  /** Undoing the swap over one double-quoted entry: its quotes were `'` or `"`. */
  lemma UnswapQuoted(e: string, x: string)
    requires SwapQuotes(e) == "\"" + x + "\"" && PlainString(x)
    ensures IsQuote(e[0]) && IsQuote(e[|x| + 1]) && Quotable(x) && e == [e[0]] + x + [e[|x| + 1]]
  {
    SwapSplit(e, "\"" + x, "\"");
    var e1 := e[..|x| + 1];
    SwapSplit(e1, "\"", x);
    assert '"' !in x by {
      forall i | 0 <= i < |x| ensures x[i] != '"' {
        assert PlainStringChar(x[i]);
      }
    }
    UnswapPlain(e1[1..], x);
    assert SwapQuotes(e)[0] == '"' && SwapQuotes(e)[|x| + 1] == '"';
  }

  lemma AllQuotesCons(a: char, b: char, more: seq<char>)
    requires IsQuote(a) && IsQuote(b) && AllQuotes(more)
    ensures AllQuotes([a, b] + more)
  {
    var q := [a, b] + more;
    forall k | 2 <= k < |q| ensures IsQuote(q[k]) {
      assert q[k] == more[k - 2];
    }
  }

  lemma AllQuotableCons(items: seq<string>)
    requires |items| >= 1 && Quotable(items[0]) && AllQuotable(items[1..])
    ensures AllQuotable(items)
  {
    forall k | 1 <= k < |items| ensures Quotable(items[k]) {
      assert items[k] == items[1..][k - 1];
    }
  }

  /** The entries, with any quotes, split after the first comma. */
  lemma EntriesQuotedCons(items: seq<string>, quotes: seq<char>, gaps: seq<string>, close: char, rest: string)
    requires |items| >= 2 && |quotes| == 2 * |items| && |gaps| == 2 * |items|
    requires rest == Entries(items[1..], quotes[2..], gaps[2..], close)
    ensures Entries(items, quotes, gaps, close) == [quotes[0]] + items[0] + [quotes[1]] + gaps[0] + ("," + gaps[1] + rest)
  {
  }

  /** Undoing the swap over the last entry and its closing token. */
  lemma UnswapLast(c: string, items: seq<string>, gaps: seq<string>, close: char) returns (quotes: seq<char>)
    requires |items| == 1 && |gaps| == 2 && AllGaps(gaps) && close != '"' && PlainString(items[0])
    requires SwapQuotes(c) == Entries(items, Doubles(2 * |items|), gaps, close)
    ensures |quotes| == 2 && AllQuotes(quotes) && AllQuotable(items)
    ensures c == Entries(items, quotes, gaps, close)
  {
    var x := items[0];
    assert AllJsonSpace(gaps[0]) && AllJsonSpace(gaps[1]);
    SpaceUnquoted(gaps[1]);
    EntriesLast(items, gaps, close);
    UnswapHead(c, x, gaps[0], [close] + gaps[1]);
    UnswapPlain(c[|x| + 2 + |gaps[0]|..], [close] + gaps[1]);
    quotes := [c[0], c[|x| + 1]];
    assert Entries(items, quotes, gaps, close) == [c[0]] + x + [c[|x| + 1]] + gaps[0] + ([close] + gaps[1]);
  }

  /** Undoing the swap over the first entry and the comma after it. */
  lemma UnswapFirst(c: string, items: seq<string>, gaps: seq<string>, close: char) returns (q0: char, q1: char, rest: string)
    requires |items| >= 2 && |gaps| == 2 * |items| && AllGaps(gaps) && PlainString(items[0])
    requires SwapQuotes(c) == Entries(items, Doubles(2 * |items|), gaps, close)
    ensures IsQuote(q0) && IsQuote(q1) && Quotable(items[0])
    ensures c == [q0] + items[0] + [q1] + gaps[0] + ("," + gaps[1] + rest)
    ensures SwapQuotes(rest) == Entries(items[1..], Doubles(2 * |items[1..]|), gaps[2..], close)
  {
    var x := items[0];
    assert AllJsonSpace(gaps[0]) && AllJsonSpace(gaps[1]);
    SpaceUnquoted(gaps[1]);
    var restText := Entries(items[1..], Doubles(2 * |items[1..]|), gaps[2..], close);
    EntriesCons(items, gaps, close);
    UnswapHead(c, x, gaps[0], "," + gaps[1] + restText);
    var r := c[|x| + 2 + |gaps[0]|..];
    var m := 1 + |gaps[1]|;
    SwapSplit(r, "," + gaps[1], restText);
    UnswapPlain(r[..m], "," + gaps[1]);
    q0, q1, rest := c[0], c[|x| + 1], r[m..];
  }

  /** Undoing the swap over the double-quoted entries: each quote was `'` or `"`. */
  lemma {:induction false} UnswapEntries(c: string, items: seq<string>, gaps: seq<string>, close: char) returns (quotes: seq<char>)
    requires |gaps| == 2 * |items| && AllGaps(gaps) && close != '"'
    requires forall k :: 0 <= k < |items| ==> PlainString(items[k])
    requires SwapQuotes(c) == Entries(items, Doubles(2 * |items|), gaps, close)
    ensures |quotes| == 2 * |items| && AllQuotes(quotes) && AllQuotable(items)
    ensures c == Entries(items, quotes, gaps, close)
    decreases |items|
  {
    if |items| == 0 {
      UnswapPlain(c, [close]);
      quotes := [];
    } else if |items| == 1 {
      quotes := UnswapLast(c, items, gaps, close);
    } else {
      var q0, q1, rest := UnswapFirst(c, items, gaps, close);
      assert AllGaps(gaps[2..]);
      var more := UnswapEntries(rest, items[1..], gaps[2..], close);
      quotes := [q0, q1] + more;
      AllQuotesCons(q0, q1, more);
      AllQuotableCons(items);
      assert quotes[2..] == more;
      EntriesQuotedCons(items, quotes, gaps, close, rest);
    }
  }

  lemma RegroupOpen(a: string, b: string, e: string, f: string)
    ensures a + (b + e) + f == (a + b) + (e + f)
  {
  }

  /** A rendering between whitespace, cut after the whitespace that follows `[`. */
  lemma RenderParts(pre: string, items: seq<string>, quotes: seq<char>, gaps: seq<string>, post: string, body: string)
    requires |quotes| == 2 * |items| && |gaps| == 2 * |items| + 1
    requires body == Entries(items, quotes, gaps[1..], ']')
    ensures (pre + "[" + gaps[0]) + (body + post) == pre + Render(items, quotes, gaps) + post
  {
    RegroupOpen(pre, "[" + gaps[0], body, post);
  }

  /** Whatever decodes is a rendering of its result, with each quote and each gap read off the text. */
  lemma DecodedRendered(c: string, items: seq<string>) returns (pre: string, quotes: seq<char>, gaps: seq<string>, post: string)
    requires Decode(c) == Some(items)
    ensures Rendering(c, items, pre, quotes, gaps, post)
  {
    pre, gaps, post := ParsedArrayRendered(SwapQuotes(c), items);
    var body := Entries(items, Doubles(2 * |items|), gaps[1..], ']');
    var open := pre + "[" + gaps[0];
    assert AllJsonSpace(gaps[0]);
    SpaceUnquoted(pre);
    SpaceUnquoted(gaps[0]);
    SpaceUnquoted(post);
    RegroupOpen(pre, "[" + gaps[0], body, post);
    SwapSplit(c, open, body + post);
    UnswapPlain(c[..|open|], open);
    var r := c[|open|..];
    SwapSplit(r, body, post);
    UnswapPlain(r[|body|..], post);
    quotes := UnswapEntries(r[..|body|], items, gaps[1..], ']');
    RenderParts(pre, items, quotes, gaps, post, r[..|body|]);
  }

  /**
   * A capture decodes to `items` exactly when it is the array literal of
   * `items`, each quote `'` or `"` and each gap JSON whitespace, between
   * JSON whitespace: `json.loads` accepts nothing else.
   */
  lemma DecodeIffRendering(c: string, items: seq<string>)
    ensures Decode(c) == Some(items) <==> exists pre, quotes, gaps, post :: Rendering(c, items, pre, quotes, gaps, post)
  {
    if Decode(c) == Some(items) {
      var pre, quotes, gaps, post := DecodedRendered(c, items);
    }
    if exists pre, quotes, gaps, post :: Rendering(c, items, pre, quotes, gaps, post) {
      var pre, quotes, gaps, post :| Rendering(c, items, pre, quotes, gaps, post);
      DecodeRendering(c, items, pre, quotes, gaps, post);
    }
  }

  /*
   * Rejections: what the quote swap cannot turn into a JSON string is a
   * parse error, and nothing skips it.
   */

  /** Text that cannot begin an array element: empty, or not a quote, `]` or whitespace. */
  predicate NotAnElement(junk: string) {
    junk == [] || (junk[0] != '"' && junk[0] != '\'' && junk[0] != ']' && !IsJsonSpace(junk[0]))
  }

  /**
   * An array whose first entry is not a quoted string (a bare identifier
   * such as `dep_var1`, a `//` comment) does not decode.
   */
  lemma DecodeRejectsFirst(pad: string, junk: string)
    requires AllJsonSpace(pad) && NotAnElement(junk)
    ensures Decode("[" + pad + junk) == None
  {
    var sj := SwapQuotes(junk);
    SwapQuotesAppend("[" + pad, junk);
    SwapQuotesUnquoted("[" + pad);
    var s := "[" + pad + sj;
    assert SwapQuotes("[" + pad + junk) == s;
    assert s[1..] == pad + sj;
    SkipJsonWsPrefix(pad, sj);
    SkipJsonWsStop(sj);
    SkipJsonWsStop(s);
  }

  /**
   * Text the parser cannot read after the token `close`: after a comma,
   * anything but a string or whitespace; after `]`, anything but whitespace.
   */
  predicate Unreadable(close: char, junk: string) {
    if close == ',' then junk == [] || (junk[0] != '"' && !IsJsonSpace(junk[0]))
    else close == ']' && junk != [] && !IsJsonSpace(junk[0])
  }

  /** The last element, its closing token, and text that cannot follow it. */
  lemma ParseLastJunk(x: string, before: string, close: char, after: string, junk: string)
    requires PlainString(x) && AllJsonSpace(before) && AllJsonSpace(after) && Unreadable(close, junk)
    ensures ParseItems("\"" + x + "\"" + before + [close] + after + junk) == None
  {
    if close == ',' {
      assert ParseItems(junk) == None;
      assert [close] == ",";
      ParseItemsCons(x, before, after, junk);
    } else {
      assert [close] == "]";
      ParseClosed(x, before, after, junk);
      SkipJsonWsStop(junk);
    }
  }

  lemma {:induction false} ParseEntriesJunk(items: seq<string>, gaps: seq<string>, close: char, junk: string)
    requires |items| >= 1 && |gaps| == 2 * |items| && AllQuotable(items) && AllGaps(gaps)
    requires Unreadable(close, junk)
    ensures ParseItems(Entries(items, Doubles(2 * |items|), gaps, close) + junk) == None
    decreases |items|
  {
    var x := items[0];
    assert Quotable(x) && AllJsonSpace(gaps[0]) && AllJsonSpace(gaps[1]);
    if |items| == 1 {
      EntriesLast(items, gaps, close);
      ParseLastJunk(x, gaps[0], close, gaps[1], junk);
    } else {
      var restText := Entries(items[1..], Doubles(2 * |items[1..]|), gaps[2..], close);
      EntriesCons(items, gaps, close);
      RegroupTail("\"" + x + "\"" + gaps[0] + "," + gaps[1], restText, junk);
      ParseEntriesJunk(items[1..], gaps[2..], close, junk);
      EntriesStartsQuoted(items[1..], gaps[2..], close);
      var next := restText + junk;
      assert next[0] == restText[0];
      ParseItemsCons(x, gaps[0], gaps[1], next);
    }
  }

  /**
   * Once one entry has been read, a comma followed by anything but a
   * quoted string (a trailing comma before `]`, a `//` comment, a bare
   * identifier) makes the whole array fail to decode.
   */
  lemma DecodeRejectsAfterComma(items: seq<string>, quotes: seq<char>, gaps: seq<string>, junk: string)
    requires |items| >= 1 && |quotes| == 2 * |items| && |gaps| == 2 * |items| + 1
    requires AllQuotes(quotes) && AllGaps(gaps) && AllQuotable(items)
    requires junk == [] || (junk[0] != '"' && junk[0] != '\'' && !IsJsonSpace(junk[0]))
    ensures Decode("[" + gaps[0] + Entries(items, quotes, gaps[1..], ',') + junk) == None
  {
    var body := Entries(items, quotes, gaps[1..], ',');
    var dbody := Entries(items, Doubles(2 * |items|), gaps[1..], ',');
    SwapEntries(items, quotes, gaps[1..], ',');
    SwapQuotesAppend(body, junk);
    RegroupTail("[" + gaps[0], body, junk);
    SwapQuotesGap("[", gaps[0], body + junk);
    EntriesStartsQuoted(items, gaps[1..], ',');
    ParseEntriesJunk(items, gaps[1..], ',', SwapQuotes(junk));
    assert (dbody + SwapQuotes(junk))[0] == dbody[0];
    assert AllJsonSpace(gaps[0]);
    ParseArrayOpen(gaps[0], dbody + SwapQuotes(junk));
  }

  /** The double-quoted rendering followed by text that is not whitespace does not parse. */
  lemma ParseTrailing(items: seq<string>, gaps: seq<string>, junk: string)
    requires |gaps| == 2 * |items| + 1 && AllGaps(gaps) && AllQuotable(items)
    requires junk != [] && !IsJsonSpace(junk[0])
    ensures ParseArray("[" + gaps[0] + Entries(items, Doubles(2 * |items|), gaps[1..], ']') + junk) == None
  {
    var dbody := Entries(items, Doubles(2 * |items|), gaps[1..], ']');
    assert AllJsonSpace(gaps[0]);
    if |items| == 0 {
      assert dbody == "]";
      SkipJsonWsStop(junk);
      ParseEmptyArray(gaps[0], junk);
    } else {
      RegroupTail("[" + gaps[0], dbody, junk);
      EntriesStartsQuoted(items, gaps[1..], ']');
      assert (dbody + junk)[0] == dbody[0];
      ParseArrayOpen(gaps[0], dbody + junk);
      ParseEntriesJunk(items, gaps[1..], ']', junk);
    }
  }

  /**
   * A complete array literal followed by anything but whitespace does not
   * decode: `json.loads` rejects extra data after the value.
   */
  lemma DecodeRejectsTrailing(items: seq<string>, quotes: seq<char>, gaps: seq<string>, junk: string)
    requires |quotes| == 2 * |items| && |gaps| == 2 * |items| + 1
    requires AllQuotes(quotes) && AllGaps(gaps) && AllQuotable(items)
    requires junk != [] && !IsJsonSpace(junk[0])
    ensures Decode(Render(items, quotes, gaps) + junk) == None
  {
    var sj := SwapQuotes(junk);
    SwapQuotesAppend(Render(items, quotes, gaps), junk);
    SwapRender(items, quotes, gaps);
    assert sj[0] != junk[0] ==> sj[0] == '"';
    ParseTrailing(items, gaps, sj);
  }
}
