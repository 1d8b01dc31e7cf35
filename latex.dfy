/** LaTeX in the editor: processLatex, which replaces `$$...$$` and then `$...$`
    spans of the Markdown source by typeset HTML, and the two renderer hooks that
    send code spans and fenced blocks to the typesetter or the highlighter.
    KaTeX and highlight.js are not modelled: they are parameters, and KaTeX may
    throw, which selects the error markup. */
module Latex {
  import opened Text

  /** What katex.renderToString does with one source: HTML, or an exception. */
  datatype Typeset = Rendered(html: string) | Threw(message: string)

  /** katex.renderToString(source, {displayMode}). */
  type Katex = (string, bool) -> Typeset

  /** The markup shown in place of a formula KaTeX rejected. */
  function ErrorMarkup(display: bool, message: string): string {
    if display then "<div class=\"katex-error\">LaTeX Error: " + message + "</div>"
    else "<span class=\"katex-error\">LaTeX Error: " + message + "</span>"
  }

  /** One formula: the typesetter's HTML, or the error markup when it throws. */
  function RenderMath(katex: Katex, source: string, display: bool): string {
    match katex(source, display)
    case Rendered(html) => html
    case Threw(message) => ErrorMarkup(display, message)
  }

  /** The error markup tells display from inline (a div, a span) and carries the
      message verbatim, so two failures look alike only when they are alike. */
  lemma ErrorMarkupDistinct(d1: bool, m1: string, d2: bool, m2: string)
    ensures ErrorMarkup(d1, m1) == ErrorMarkup(d2, m2) <==> d1 == d2 && m1 == m2
  {
    var e1, e2 := ErrorMarkup(d1, m1), ErrorMarkup(d2, m2);
    if d1 != d2 {
      assert e1[1] != e2[1];
    } else if e1 == e2 {
      var n := if d1 then |"<div class=\"katex-error\">LaTeX Error: "| else |"<span class=\"katex-error\">LaTeX Error: "|;
      assert |m1| == |m2|;
      assert e1[n..n + |m1|] == m1;
      assert e2[n..n + |m2|] == m2;
    }
  }

  // ---------------------------------------------------------------------------
  // processLatex

  datatype Delimiter = Display | Inline

  /** A match: its length and the captured body. */
  datatype Span = Span(len: nat, body: string)

  /** The match of `\$\$([\s\S]*?)\$\$` (Display) or `\$([^\$\n]+?)\$` (Inline) at the
      start of t. The lazy body ends at the first closer; an inline body may not
      be empty, and it may not hold a newline. */
  function SpanMatch(d: Delimiter, t: string): (r: Option<Span>)
    ensures r.Some? && d == Display ==>
              4 <= r.value.len <= |t| && t[..2] == "$$" && t[2..r.value.len - 2] == r.value.body &&
              t[r.value.len - 2..r.value.len] == "$$"
    ensures r.Some? && d == Display ==> forall i :: 2 <= i < r.value.len - 2 ==> !("$$" <= t[i..])
    ensures r.Some? && d == Inline ==>
              3 <= r.value.len <= |t| && t[0] == '$' && t[1..r.value.len - 1] == r.value.body &&
              t[r.value.len - 1] == '$' && '$' !in r.value.body && '\n' !in r.value.body
  {
    match d
    case Display =>
      if |t| >= 2 && t[..2] == "$$" then
        match Find(t, "$$", 2)
        case Some(q) => Some(Span(q + 2, t[2..q]))
        case None => None
      else None
    case Inline =>
      if t != [] && t[0] == '$' then
        match Find(t, "$", 1)
        case Some(q) =>
          if q > 1 && '\n' !in t[1..q] then
            assert '$' !in t[1..q] by {
              forall i | 1 <= i < q ensures t[i] != '$' {
                assert !("$" <= t[i..]);
              }
            }
            Some(Span(q + 1, t[1..q]))
          else None
        case None => None
      else None
  }

  /** A display span is found whenever `$$` opens the text and another `$$`
      follows; it closes at the first of them. */
  lemma DisplaySpanFound(t: string, q: nat)
    requires 2 <= q && q + 2 <= |t| && t[..2] == "$$" && t[q..q + 2] == "$$"
    ensures SpanMatch(Display, t).Some? && SpanMatch(Display, t).value.len <= q + 2
  {
    assert "$$" <= t[q..];
  }

  /** An inline span is found whenever `$` opens the text and a later `$` follows
      with at least one character, and no `$` or newline, in between. */
  lemma InlineSpanFound(t: string, q: nat)
    requires 1 < q < |t| && t[0] == '$' && t[q] == '$'
    requires forall i :: 1 <= i < q ==> t[i] != '$' && t[i] != '\n'
    ensures SpanMatch(Inline, t).Some? && SpanMatch(Inline, t).value.len == q + 1
  {
    assert "$" <= t[q..] by { assert t[q..][0] == t[q]; }
    forall i | 1 <= i < q
      ensures !("$" <= t[i..])
    {
      assert t[i..][0] == t[i];
    }
    assert '\n' !in t[1..q] by {
      forall i | 1 <= i < q ensures t[1..q][i - 1] == t[i] { }
    }
  }

  /** One of the two `replace` calls of processLatex: with a global pattern, each
      leftmost match is replaced by the typeset of its trimmed body, and the scan
      resumes after the match in the original text. */
  function MathScan(katex: Katex, d: Delimiter, t: string): string
    decreases |t|
  {
    if t == [] then []
    else match SpanMatch(d, t)
      case Some(sp) => RenderMath(katex, Trim(sp.body), d == Display) + MathScan(katex, d, t[sp.len..])
      case None => [t[0]] + MathScan(katex, d, t[1..])
  }

  /** processLatex: display math first, then inline math over the result. */
  function ProcessLatex(katex: Katex, text: string): string {
    MathScan(katex, Inline, MathScan(katex, Display, text))
  }

  // ---------------------------------------------------------------------------
  // What the scan keeps and what it replaces.

  /** No span starts at a character other than `$`. */
  lemma NoSpanWithoutDollar(d: Delimiter, t: string)
    requires t != [] && t[0] != '$'
    ensures SpanMatch(d, t).None?
  {
    if d == Display && |t| >= 2 {
      assert t[..2][0] == t[0];
    }
  }

  /** A prefix where no match starts is copied through unchanged. */
  lemma {:induction false} ScanKeepsPrefix(katex: Katex, d: Delimiter, p: string, s: string)
    requires forall k :: 0 <= k < |p| ==> SpanMatch(d, (p + s)[k..]).None?
    ensures MathScan(katex, d, p + s) == p + MathScan(katex, d, s)
    decreases |p|
  {
    if p == [] {
      assert p + s == s;
    } else {
      ScanKeepsFirst(katex, d, p, s);
      ScanKeepsPrefix(katex, d, p[1..], s);
      Associative([p[0]], p[1..], MathScan(katex, d, s));
      assert [p[0]] + p[1..] == p;
    }
  }

  /** One step of ScanKeepsPrefix: the first character is kept, and no span
      starts in the rest of the prefix either. */
  lemma ScanKeepsFirst(katex: Katex, d: Delimiter, p: string, s: string)
    requires p != []
    requires forall k :: 0 <= k < |p| ==> SpanMatch(d, (p + s)[k..]).None?
    ensures MathScan(katex, d, p + s) == [p[0]] + MathScan(katex, d, p[1..] + s)
    ensures forall k :: 0 <= k < |p[1..]| ==> SpanMatch(d, (p[1..] + s)[k..]).None?
  {
    var t := p + s;
    assert t[0..] == t;
    MathScanKeeps(katex, d, t);
    assert t[1..] == p[1..] + s;
    forall k | 0 <= k < |p[1..]|
      ensures SpanMatch(d, (p[1..] + s)[k..]).None?
    {
      assert (p[1..] + s)[k..] == t[k + 1..];
    }
  }

  /** At a match, the typeset of the trimmed body replaces it and the scan goes on after it. */
  lemma MathScanReplaces(katex: Katex, d: Delimiter, x: string)
    requires SpanMatch(d, x).Some?
    ensures MathScan(katex, d, x) ==
            RenderMath(katex, Trim(SpanMatch(d, x).value.body), d == Display) +
            MathScan(katex, d, x[SpanMatch(d, x).value.len..])
  {
  }

  /** Where its delimiter does not match, the character is kept. */
  lemma MathScanKeeps(katex: Katex, d: Delimiter, x: string)
    requires x != [] && SpanMatch(d, x).None?
    ensures MathScan(katex, d, x) == [x[0]] + MathScan(katex, d, x[1..])
  {
  }

  /** Text in which no match starts comes back unchanged. */
  lemma NoSpanFixed(katex: Katex, d: Delimiter, t: string)
    requires forall k :: 0 <= k < |t| ==> SpanMatch(d, t[k..]).None?
    ensures MathScan(katex, d, t) == t
  {
    assert t + [] == t;
    ScanKeepsPrefix(katex, d, t, []);
  }

  /** A prefix without `$` is copied through unchanged. */
  lemma PrefixWithoutDollar(katex: Katex, d: Delimiter, p: string, s: string)
    requires '$' !in p
    ensures MathScan(katex, d, p + s) == p + MathScan(katex, d, s)
  {
    forall k | 0 <= k < |p|
      ensures SpanMatch(d, (p + s)[k..]).None?
    {
      assert (p + s)[k..][0] == p[k];
      NoSpanWithoutDollar(d, (p + s)[k..]);
    }
    ScanKeepsPrefix(katex, d, p, s);
  }

  /** After a prefix without `$`, a match is replaced by its typeset trimmed body. */
  lemma SpanRenderedAfter(katex: Katex, d: Delimiter, p: string, x: string)
    requires '$' !in p && SpanMatch(d, x).Some?
    ensures MathScan(katex, d, p + x) ==
            p + RenderMath(katex, Trim(SpanMatch(d, x).value.body), d == Display) +
            MathScan(katex, d, x[SpanMatch(d, x).value.len..])
  {
    var sp := SpanMatch(d, x).value;
    PrefixWithoutDollar(katex, d, p, x);
    MathScanReplaces(katex, d, x);
    Associative(p, RenderMath(katex, Trim(sp.body), d == Display), MathScan(katex, d, x[sp.len..]));
  }

  /** Text holding at most one `$`. */
  predicate AtMostOneDollar(t: string) {
    forall i, j :: 0 <= i < j < |t| && t[i] == '$' ==> t[j] != '$'
  }

  /** Every span starting at k needs a `$` at k and another at its last position. */
  lemma SpanNeedsTwoDollars(d: Delimiter, t: string, k: nat)
    requires k < |t|
    ensures SpanMatch(d, t[k..]).Some? ==>
      var n := SpanMatch(d, t[k..]).value.len;
      1 < n && t[k] == '$' && t[k + n - 1] == '$'
    ensures SpanMatch(d, t[k..]).Some? && d == Display ==>
      var n := SpanMatch(d, t[k..]).value.len;
      3 < n && t[k + 1] == '$'
  {
    var u := t[k..];
    if SpanMatch(d, u).Some? {
      var n := SpanMatch(d, u).value.len;
      if d == Display {
        assert u[0] == u[..2][0] && u[1] == u[..2][1] && u[n - 1] == u[n - 2..n][1];
        assert u[1] == t[k + 1];
      }
      assert u[0] == t[k] && u[n - 1] == t[k + n - 1];
    }
  }

  /** Text with at most one `$` has no span and comes back unchanged. */
  lemma OneDollarUnchanged(katex: Katex, d: Delimiter, t: string)
    requires AtMostOneDollar(t)
    ensures MathScan(katex, d, t) == t
  {
    forall k | 0 <= k < |t|
      ensures SpanMatch(d, t[k..]).None?
    {
      SpanNeedsTwoDollars(d, t, k);
    }
    NoSpanFixed(katex, d, t);
  }

  /** processLatex leaves text with no `$`, or a single unmatched one, unchanged. */
  lemma LatexFreeUnchanged(katex: Katex, text: string)
    requires AtMostOneDollar(text)
    ensures ProcessLatex(katex, text) == text
  {
    OneDollarUnchanged(katex, Display, text);
    OneDollarUnchanged(katex, Inline, text);
  }

  /** A price such as `$100` is not mistaken for math. */
  lemma DollarAmountUnchanged(katex: Katex, text: string)
    requires text == "$100"
    ensures ProcessLatex(katex, text) == text
  {
    assert AtMostOneDollar(text) by {
      forall i, j | 0 <= i < j < |text| && text[i] == '$' ensures text[j] != '$' {
        assert i == 0;
      }
    }
    LatexFreeUnchanged(katex, text);
  }

  /** The display span that starts at a `$$`: with no `$` inside, it runs to the next `$$`. */
  lemma DisplaySpanAt(b: string, s: string)
    requires '$' !in b
    ensures var x := "$$" + b + "$$" + s;
            SpanMatch(Display, x).Some? && SpanMatch(Display, x).value.len == |b| + 4 &&
            SpanMatch(Display, x).value.body == b && x[|b| + 4..] == s
  {
    var x := "$$" + b + "$$" + s;
    assert x[..2] == "$$";
    var q := |b| + 2;
    assert x[q..q + 2] == "$$";
    assert "$$" <= x[q..];
    forall i | 2 <= i < q
      ensures !("$$" <= x[i..])
    {
      assert x[i] == b[i - 2];
    }
    assert x[2..q] == b;
    assert x[q + 2..] == s;
  }

  /** A display span with no `$` inside is replaced by its typeset trimmed body,
      the text before it is kept and the scan goes on after it. An empty span
      `$$$$` is typeset too. */
  lemma DisplaySpanRendered(katex: Katex, p: string, b: string, s: string)
    requires '$' !in p && '$' !in b
    ensures MathScan(katex, Display, p + "$$" + b + "$$" + s) ==
            p + RenderMath(katex, Trim(b), true) + MathScan(katex, Display, s)
  {
    var x := "$$" + b + "$$" + s;
    assert p + "$$" + b + "$$" + s == p + x;
    DisplaySpanAt(b, s);
    SpanRenderedAfter(katex, Display, p, x);
  }

  /** The inline span that starts at a `$`: it runs to the next `$`. */
  lemma InlineCloserAt(b: string, s: string)
    requires '$' !in b
    ensures var x := "$" + b + "$" + s;
            Find(x, "$", 1).Some? && Find(x, "$", 1).value == |b| + 1 &&
            x[1..|b| + 1] == b && x[|b| + 2..] == s
  {
    var x := "$" + b + "$" + s;
    var q := |b| + 1;
    assert x[q] == '$' && "$" <= x[q..];
    forall i | 1 <= i < q
      ensures !("$" <= x[i..])
    {
      assert x[i] == b[i - 1];
    }
    assert x[1..q] == b;
    assert x[q + 1..] == s;
  }

  /** The inline span that starts at a `$` followed by a body on one line. */
  lemma InlineSpanAt(b: string, s: string)
    requires '$' !in b && '\n' !in b && b != []
    ensures var x := "$" + b + "$" + s;
            SpanMatch(Inline, x).Some? && SpanMatch(Inline, x).value.len == |b| + 2 &&
            SpanMatch(Inline, x).value.body == b && x[|b| + 2..] == s
  {
    InlineCloserAt(b, s);
  }

  /** An inline span with a non-empty body free of `$` and newlines is replaced
      by its typeset trimmed body. */
  lemma InlineSpanRendered(katex: Katex, p: string, b: string, s: string)
    requires '$' !in p && '$' !in b && '\n' !in b && b != []
    ensures MathScan(katex, Inline, p + "$" + b + "$" + s) ==
            p + RenderMath(katex, Trim(b), false) + MathScan(katex, Inline, s)
  {
    var x := "$" + b + "$" + s;
    assert p + "$" + b + "$" + s == p + x;
    InlineSpanAt(b, s);
    SpanRenderedAfter(katex, Inline, p, x);
  }

  /** No inline span starts at a `$` whose closer lies beyond a newline. */
  lemma InlineNewlineNoSpan(b: string, s: string)
    requires '$' !in b && '\n' in b
    ensures var x := "$" + b + "$" + s;
            SpanMatch(Inline, x).None? && x[0] == '$' && x[1..] == b + ("$" + s)
  {
    var x := "$" + b + "$" + s;
    InlineCloserAt(b, s);
    assert x[1..] == b + ("$" + s);
  }

  /** Inline math does not cross a line: the first `$` is kept as text and the
      closing `$` is free to open the next span. */
  lemma InlineStopsAtNewline(katex: Katex, p: string, b: string, s: string)
    requires '$' !in p && '$' !in b && '\n' in b
    ensures MathScan(katex, Inline, p + "$" + b + "$" + s) ==
            p + "$" + b + MathScan(katex, Inline, "$" + s)
  {
    var x := "$" + b + "$" + s;
    assert p + "$" + b + "$" + s == p + x;
    PrefixWithoutDollar(katex, Inline, p, x);
    InlineNewlineNoSpan(b, s);
    MathScanKeeps(katex, Inline, x);
    PrefixWithoutDollar(katex, Inline, b, "$" + s);
    var rest := MathScan(katex, Inline, "$" + s);
    assert MathScan(katex, Inline, x) == "$" + (b + rest);
    Associative(p, "$", b + rest);
    Associative(p + "$", b, rest);
  }

  /** `$$` with nothing after it to close it is kept as text. */
  lemma UnclosedDisplayKept(katex: Katex, p: string, s: string)
    requires '$' !in p && '$' !in s
    ensures MathScan(katex, Display, p + "$$" + s) == p + "$$" + s
  {
    var t := p + "$$" + s;
    assert forall i :: 0 <= i < |t| && t[i] == '$' ==> i == |p| || i == |p| + 1;
    forall k | 0 <= k < |t|
      ensures SpanMatch(Display, t[k..]).None?
    {
      SpanNeedsTwoDollars(Display, t, k);
    }
    NoSpanFixed(katex, Display, t);
  }

  /** Text with no two adjacent `$` is left alone by the display stage. */
  lemma NoDoubleDollarUnchanged(katex: Katex, t: string)
    requires forall i :: 0 <= i < |t| - 1 && t[i] == '$' ==> t[i + 1] != '$'
    ensures MathScan(katex, Display, t) == t
  {
    forall k | 0 <= k < |t|
      ensures SpanMatch(Display, t[k..]).None?
    {
      SpanNeedsTwoDollars(Display, t, k);
    }
    NoSpanFixed(katex, Display, t);
  }

  // ---------------------------------------------------------------------------
  // renderer.codespan and renderer.code

  /** renderer.codespan: `$...$` with something between the dollars is inline math
      (its inside typeset untrimmed); anything else is inline code. */
  function Codespan(katex: Katex, code: string): string {
    if |code| > 2 && code[0] == '$' && code[|code| - 1] == '$' then
      RenderMath(katex, code[1..|code| - 1], false)
    else
      "<code>" + code + "</code>"
  }

  /** A code span that renderer.codespan does not treat as math comes out as
      inline code whatever the typesetter does, and different spans never look
      alike: the code can be read back from the markup. */
  lemma CodespanPlainInjective(k1: Katex, k2: Katex, c1: string, c2: string)
    requires |c1| <= 2 || c1[0] != '$' || c1[|c1| - 1] != '$'
    requires |c2| <= 2 || c2[0] != '$' || c2[|c2| - 1] != '$'
    ensures Codespan(k1, c1) == Codespan(k2, c2) <==> c1 == c2
  {
    CodespanPlain(k1, c1);
    CodespanPlain(k2, c2);
    var e1, e2 := Codespan(k1, c1), Codespan(k2, c2);
    if e1 == e2 {
      assert |c1| == |c2|;
      assert e1[6..6 + |c1|] == c1;
      assert e2[6..6 + |c2|] == c2;
    }
  }

  /** `$`, `$$` and any text not both starting and ending with `$` are inline code. */
  lemma CodespanPlain(katex: Katex, code: string)
    requires |code| <= 2 || code[0] != '$' || code[|code| - 1] != '$'
    ensures Codespan(katex, code) == "<code>" + code + "</code>"
    ensures code == "$$" ==> Codespan(katex, code) == "<code>$$</code>"
  {
  }

  /** highlight.js as renderer.code uses it. */
  datatype Highlighter = Highlighter(
    knows: Option<string> -> bool,                 // hljs.getLanguage(language) is truthy
    highlight: (string, Option<string>) -> string,  // hljs.highlight(code, {language}).value
    auto: string -> string)                        // hljs.highlightAuto(code).value

  predicate IsMathLanguage(language: Option<string>) {
    language == Some("math") || language == Some("latex")
  }

  /** `language-X` for a non-empty language, nothing otherwise. */
  function LanguageClass(language: Option<string>): string {
    match language
    case Some(l) => if l != "" then "language-" + l else ""
    case None => ""
  }

  /** renderer.code: math and latex blocks are display math; every other block is
      highlighted and wrapped in `<pre><code class="hljs ...">`. */
  function Code(katex: Katex, hl: Highlighter, code: string, language: Option<string>): string {
    if IsMathLanguage(language) then RenderMath(katex, code, true)
    else
      var highlighted := if hl.knows(language) then hl.highlight(code, language) else hl.auto(code);
      "<pre><code class=\"hljs " + LanguageClass(language) + "\">" + highlighted + "</code></pre>"
  }

  /** A code span in dollars and the same text written as inline math in the
      source end up the same when the body needs no trimming. */
  lemma CodespanAgreesWithInline(katex: Katex, b: string)
    requires b != [] && '$' !in b && '\n' !in b && Trim(b) == b
    ensures Codespan(katex, "$" + b + "$") == ProcessLatex(katex, "$" + b + "$")
    ensures Codespan(katex, "$" + b + "$") == RenderMath(katex, b, false)
  {
    var x := "$" + b + "$";
    assert x[1..|x| - 1] == b;
    DisplayKeepsSingles(katex, b);
    AppendNothing(x);
    InlineSpanAt(b, []);
    MathScanReplaces(katex, Inline, x);
    assert MathScan(katex, Inline, []) == [];
    AppendNothing(RenderMath(katex, b, false));
  }

  /** processLatex runs over the raw Markdown, code spans included: a backticked
      `$b$` is typeset before the Markdown parser sees it, so renderer.codespan
      receives KaTeX's output between the backticks, not `$b$`. */
  lemma BacktickedMathTypesetFirst(katex: Katex, b: string)
    requires b != [] && '$' !in b && '\n' !in b
    ensures ProcessLatex(katex, "`" + "$" + b + "$" + "`") == "`" + RenderMath(katex, Trim(b), false) + "`"
  {
    var x := "`" + "$" + b + "$" + "`";
    assert x == "`" + ("$" + b + "$") + "`";
    TickedDisplayKept(katex, b);
    InlineSpanRendered(katex, "`", b, "`");
    assert MathScan(katex, Inline, "`") == "`" by {
      AppendNothing("`");
      PrefixWithoutDollar(katex, Inline, "`", []);
    }
  }

  /** `` `$b$` `` with no `$` in b holds no `$$` and passes the display stage. */
  lemma TickedDisplayKept(katex: Katex, b: string)
    requires b != [] && '$' !in b
    ensures MathScan(katex, Display, "`" + "$" + b + "$" + "`") == "`" + "$" + b + "$" + "`"
  {
    var x := "`" + "$" + b + "$" + "`";
    forall i | 0 <= i < |x| - 1 && x[i] == '$'
      ensures x[i + 1] != '$'
    {
      if i + 1 < |x| - 2 {
        assert x[i + 1] == b[i - 1];
      }
    }
    NoDoubleDollarUnchanged(katex, x);
  }

  /** `$b$` with no `$` in b holds no `$$` and passes the display stage. */
  lemma DisplayKeepsSingles(katex: Katex, b: string)
    requires b != [] && '$' !in b
    ensures MathScan(katex, Display, "$" + b + "$") == "$" + b + "$"
  {
    var x := "$" + b + "$";
    forall i | 0 <= i < |x| - 1 && x[i] == '$'
      ensures x[i + 1] != '$'
    {
      assert x[i + 1] == b[i];
    }
    NoDoubleDollarUnchanged(katex, x);
  }

  /** A ```math fence and the same text between `$$` in the source are typeset
      alike, provided the body needs no trimming and the typeset holds no `$`
      for the inline stage to act on. */
  lemma MathFenceAgreesWithDisplay(katex: Katex, hl: Highlighter, b: string)
    requires '$' !in b && Trim(b) == b && '$' !in RenderMath(katex, b, true)
    ensures Code(katex, hl, b, Some("math")) == ProcessLatex(katex, "$$" + b + "$$")
  {
    var x := "$$" + b + "$$";
    AppendNothing(x);
    DisplaySpanAt(b, []);
    MathScanReplaces(katex, Display, x);
    var r := RenderMath(katex, b, true);
    assert MathScan(katex, Display, []) == [];
    AppendNothing(r);
    assert MathScan(katex, Display, x) == r;
    PrefixWithoutDollar(katex, Inline, r, []);
    assert MathScan(katex, Inline, []) == [];
    assert ProcessLatex(katex, x) == r;
    assert IsMathLanguage(Some("math"));
  }

  /** Blocks in any other language never reach the typesetter, and come out as a
      highlighted `<pre><code class="hljs ...">` block. */
  lemma PlainCodeIgnoresKatex(k1: Katex, k2: Katex, hl: Highlighter, code: string, language: Option<string>)
    requires !IsMathLanguage(language)
    ensures Code(k1, hl, code, language) == Code(k2, hl, code, language)
    ensures var r := Code(k1, hl, code, language);
            "<pre><code class=\"hljs " <= r && |r| >= 13 && r[|r| - 13..] == "</code></pre>"
  {
    var highlighted := if hl.knows(language) then hl.highlight(code, language) else hl.auto(code);
    var open := "<pre><code class=\"hljs ";
    var r := open + (LanguageClass(language) + "\">" + highlighted + "</code></pre>");
    assert r == Code(k1, hl, code, language);
    assert r[..|open|] == open;
    assert r[|r| - 13..] == "</code></pre>";
  }

  /** Math and latex blocks never reach the highlighter. */
  lemma MathCodeIgnoresHighlighter(katex: Katex, h1: Highlighter, h2: Highlighter, code: string, language: Option<string>)
    requires IsMathLanguage(language)
    ensures Code(katex, h1, code, language) == Code(katex, h2, code, language) == RenderMath(katex, code, true)
  {
  }
}
