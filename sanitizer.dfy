/** sanitizeHtml: a fixed chain of fourteen `replace(/pattern/gi, '')` passes.
    Each pass is a Rule; MatchLen gives the length of the match the regular
    expression engine takes at the start of a string (its leftmost, greedy or
    lazy choice, worked out per pattern), and Apply is the global replace: take
    the leftmost match, delete it, resume right after it, never re-scan. */
module Sanitizer {
  import opened Text

  /** The deletion rules, in the order sanitizeHtml applies them. */
  datatype Rule =
    | ScriptElement       // <script\b ... </script>
    | QuotedHandler       // \s*on\w+\s*=\s*["'][^"']*["']
    | UnquotedHandler     // \s*on\w+\s*=\s*[^>\s]*
    | JavascriptScheme    // javascript:
    | DataHtml            // data:text/html
    | DataJavascript      // data:application/javascript
    | IframeElement       // <iframe\b ... </iframe>
    | ObjectOrEmbed       // <(object|embed)\b ... </(object|embed)>
    | BaseTag             // <base\b[^>]*>
    | MetaRefresh         // <meta ... http-equiv="refresh" ... >
    | JavascriptLink      // <link ... href="javascript: ... >
    | StyleElement        // <style\b ... </style>
    | JavascriptUrlAttr   // \s*(href|src)\s*=\s*["']javascript:
    | DataHtmlUrlAttr     // \s*(href|src)\s*=\s*["']data:text/html

  /** The fourteen passes of sanitizeHtml, in source order. */
  function Rules(): seq<Rule> {
    [ScriptElement, QuotedHandler, UnquotedHandler, JavascriptScheme, DataHtml, DataJavascript,
     IframeElement, ObjectOrEmbed, BaseTag, MetaRefresh, JavascriptLink, StyleElement,
     JavascriptUrlAttr, DataHtmlUrlAttr]
  }

  /** `\b` right after a pattern ending in a word character: no word character follows. */
  predicate BoundaryAt(t: string, i: nat) {
    i >= |t| || !IsWordChar(t[i])
  }

  /** A case-insensitive literal at the start of t. */
  function Literal(t: string, lit: string): (r: Option<nat>)
    ensures r.Some? <==> StartsCI(t, lit)
    ensures r.Some? ==> r.value == |lit| <= |t|
  {
    if StartsCI(t, lit) then Some(|lit|) else None
  }

  /** A closing tag, closeA or closeB in any case, starts at position q of t. */
  predicate CloserAt(t: string, q: nat, closeA: string, closeB: string)
    requires q <= |t|
  {
    StartsCI(t[q..], closeA) || StartsCI(t[q..], closeB)
  }

  /** The nearest position at or after `from` where a closing tag starts. */
  function FirstCloser(t: string, closeA: string, closeB: string, from: nat): (r: Option<nat>)
    requires from <= |t|
    ensures r.Some? ==> from <= r.value <= |t| && CloserAt(t, r.value, closeA, closeB)
    ensures r.Some? ==> forall p :: from <= p < r.value ==> !CloserAt(t, p, closeA, closeB)
    ensures r.None? ==> forall p :: from <= p <= |t| ==> !CloserAt(t, p, closeA, closeB)
  {
    match (FindCI(t, closeA, from), FindCI(t, closeB, from))
    case (Some(a), Some(b)) => if a <= b then Some(a) else Some(b)
    case (Some(a), None) => Some(a)
    case (None, Some(b)) => Some(b)
    case (None, None) => None
  }

  /** `<name\b[^<]*(?:(?!<\/name>)<[^<]*)*<\/name>` at the start of t. The body
      walk cannot step over a `<` that begins a closer, so the match runs from the
      opener to the end of the nearest closer; with no closer there is no match. */
  function ElementMatch(t: string, opener: string, closeA: string, closeB: string): (r: Option<nat>)
    requires opener != [] && closeA != [] && closeB != []
    ensures r.Some? <==> StartsCI(t, opener) && BoundaryAt(t, |opener|) &&
                         FirstCloser(t, closeA, closeB, |opener|).Some?
    ensures r.Some? ==> |opener| < r.value <= |t|
  {
    if StartsCI(t, opener) && BoundaryAt(t, |opener|) then
      match FirstCloser(t, closeA, closeB, |opener|)
      case Some(q) => Some(q + (if StartsCI(t[q..], closeA) then |closeA| else |closeB|))
      case None => None
    else None
  }

  /** Every character of t from position i up to k belongs to cls. */
  predicate AllIn(t: string, i: nat, k: nat, cls: CharClass)
    requires k <= |t|
  {
    forall j {:trigger InClass(t[j], cls)} :: i <= j < k ==> InClass(t[j], cls)
  }

  /** The handler patterns are worked out on positions of t rather than on its
      suffixes: RunAt(t, i, cls) is what a greedy `cls*` consumes from position i. */
  function RunAt(t: string, i: nat, cls: CharClass): (n: nat)
    requires i <= |t|
    ensures i + n <= |t| && AllIn(t, i, i + n, cls)
    ensures i + n < |t| ==> !InClass(t[i + n], cls)
    decreases |t| - i
  {
    if i < |t| && InClass(t[i], cls) then 1 + RunAt(t, i + 1, cls) else 0
  }

  /** RunAt counts the same run as Run does on the suffix from i. */
  lemma RunAtIsRun(t: string, i: nat, cls: CharClass)
    requires i <= |t|
    ensures RunAt(t, i, cls) == Run(t[i..], cls)
  {
    var u, n := t[i..], RunAt(t, i, cls);
    assert forall j :: 0 <= j <= n && j < |u| ==> u[j] == t[i + j];
    RunUnique(u, n, cls);
  }

  /** A prefix of u drawn from cls and not followed by a class character is the run. */
  lemma RunUnique(u: string, n: nat, cls: CharClass)
    requires n <= |u| && forall j :: 0 <= j < n ==> InClass(u[j], cls)
    requires n < |u| ==> !InClass(u[n], cls)
    ensures Run(u, cls) == n
  {
  }

  /** `on` in any case at position w of t. */
  predicate OnAt(t: string, w: nat) {
    w + 2 <= |t| && Lower(t[w]) == 'o' && Lower(t[w + 1]) == 'n'
  }

  /** The head `on\w+\s*=\s*` of a handler at w: the name runs from w to a, its
      `=` stands at e, and its value starts at p, where the whitespace after the
      `=` ends. */
  predicate HandlerHead(t: string, w: nat, a: nat, e: nat, p: nat) {
    w + 2 < a <= e < p <= |t| && OnAt(t, w) &&
    AllIn(t, w + 2, a, Word) && AllIn(t, a, e, Space) && t[e] == '=' &&
    AllIn(t, e + 1, p, Space) && (p < |t| ==> !InClass(t[p], Space))
  }

  /** `on\w+\s*=\s*` from position w of t: the position where the handler's value
      begins. Each quantifier here is greedy and the next token cannot start inside
      what it skipped, so backtracking never chooses a shorter run. */
  function HandlerValueStart(t: string, w: nat): (r: Option<nat>)
    requires w <= |t|
    ensures r.Some? ==> w + 3 <= r.value <= |t| && OnAt(t, w)
    ensures r.Some? ==> exists a, e :: HandlerHead(t, w, a, e, r.value)
  {
    if OnAt(t, w) && RunAt(t, w + 2, Word) > 0 then
      var a := w + 2 + RunAt(t, w + 2, Word);
      var e := a + RunAt(t, a, Space);
      if e < |t| && t[e] == '=' then
        var p := e + 1 + RunAt(t, e + 1, Space);
        assert HandlerHead(t, w, a, e, p);
        Some(p)
      else None
    else None
  }

  /** Any head found in the text is the one HandlerValueStart reports, so it
      finds a value start exactly when the text holds a handler head. */
  lemma HandlerHeadFound(t: string, w: nat, a: nat, e: nat, p: nat)
    requires HandlerHead(t, w, a, e, p)
    ensures HandlerValueStart(t, w).Some? && HandlerValueStart(t, w).value == p
  {
    assert !InClass(t[a], Word) by {
      if a < e {
        SpaceNotWord(t[a]);
      }
    }
    RunAtEnds(t, w + 2, a, Word);
    RunAtEnds(t, a, e, Space);
    RunAtEnds(t, e + 1, p, Space);
    ValueStartFromRuns(t, w, a, e);
  }

  /** HandlerValueStart once its three runs are known. */
  lemma ValueStartFromRuns(t: string, w: nat, a: nat, e: nat)
    requires OnAt(t, w) && w + 2 < a <= e < |t| && t[e] == '='
    requires RunAt(t, w + 2, Word) == a - (w + 2) && RunAt(t, a, Space) == e - a
    ensures HandlerValueStart(t, w).Some? && HandlerValueStart(t, w).value == e + 1 + RunAt(t, e + 1, Space)
  {
  }

  lemma SpaceNotWord(c: char)
    requires InClass(c, Space)
    ensures !InClass(c, Word)
  {
  }

  /** `["'][^"']*["']` at position p: the position right after the closing quote,
      which is the first quote after the opening one, of either kind. */
  function QuotedValue(t: string, p: nat): (r: Option<nat>)
    requires p <= |t|
    ensures r.Some? ==> p + 2 <= r.value <= |t| && IsQuote(t[p]) && IsQuote(t[r.value - 1]) &&
                        AllIn(t, p + 1, r.value - 1, NotQuote)
    ensures r.Some? <==> p < |t| && IsQuote(t[p]) && exists c :: p < c < |t| && IsQuote(t[c])
  {
    if p < |t| && IsQuote(t[p]) then
      var c := p + 1 + RunAt(t, p + 1, NotQuote);
      if c < |t| then Some(c + 1)
      else
        assert forall q :: p < q < |t| ==> InClass(t[q], NotQuote);
        None
    else None
  }

  /** A handler from position w, where its leading whitespace ends: the value is a
      quoted string (either quote may close it) or a run of characters other than
      `>` and whitespace. The result is the position right after the match. */
  function HandlerBody(quoted: bool, t: string, w: nat): (r: Option<nat>)
    requires w <= |t|
    ensures r.Some? ==> w < r.value <= |t| && HandlerValueStart(t, w).Some?
    ensures r.Some? && quoted ==>
              var p := HandlerValueStart(t, w).value;
              p + 2 <= r.value && IsQuote(t[p]) && IsQuote(t[r.value - 1]) &&
              AllIn(t, p + 1, r.value - 1, NotQuote)
    ensures r.Some? && !quoted ==>
              var p := HandlerValueStart(t, w).value;
              p <= r.value && AllIn(t, p, r.value, Bare) && (r.value < |t| ==> !InClass(t[r.value], Bare))
    ensures !quoted ==> (r.Some? <==> HandlerValueStart(t, w).Some?)
    ensures quoted && HandlerValueStart(t, w).Some? ==>
              var p := HandlerValueStart(t, w).value;
              (r.Some? <==> p < |t| && IsQuote(t[p]) && exists c :: p < c < |t| && IsQuote(t[c]))
  {
    match HandlerValueStart(t, w)
    case None => None
    case Some(p) =>
      if quoted then QuotedValue(t, p) else Some(p + RunAt(t, p, Bare))
  }

  /** `\s*on\w+\s*=\s*["'][^"']*["']` (quoted) or `\s*on\w+\s*=\s*[^>\s]*` at the start of t:
      the whitespace run, then a handler body. */
  function HandlerMatch(quoted: bool, t: string): (r: Option<nat>)
    ensures r.Some? ==> 0 < r.value <= |t|
    ensures r.Some? ==> exists k :: 0 <= k < r.value && AllIn(t, 0, k, Space) && HandlerBody(quoted, t, k) == r
  {
    HandlerBody(quoted, t, RunAt(t, 0, Space))
  }

  /** The first n characters of t end with value, in any case. */
  predicate EndsWithValue(t: string, n: nat, value: string) {
    |value| <= n <= |t| && StartsCI(t[n - |value|..], value)
  }

  /** The head `name\s*=\s*["']value` at the start of t: the name in any case,
      whitespace up to the `=` at e, whitespace up to the quote at q, then the
      value in any case. Neither `=` nor a quote is whitespace, so e and q are
      where the greedy runs stop. */
  predicate AssignHead(t: string, name: string, value: string, e: nat, q: nat) {
    |name| <= e < q < |t| && StartsCI(t, name) &&
    AllIn(t, |name|, e, Space) && t[e] == '=' &&
    AllIn(t, e + 1, q, Space) && IsQuote(t[q]) && StartsCI(t[q + 1..], value)
  }

  /** `name\s*=\s*["']value` at the start of t: the length matched. */
  function AssignMatch(t: string, name: string, value: string): (r: Option<nat>)
    ensures r.Some? ==> |value| < r.value <= |t| && EndsWithValue(t, r.value, value)
  {
    if StartsCI(t, name) then
      var e := |name| + RunAt(t, |name|, Space);
      if e < |t| && t[e] == '=' then
        var q := e + 1 + RunAt(t, e + 1, Space);
        if q < |t| && IsQuote(t[q]) && StartsCI(t[q + 1..], value) then Some(q + 1 + |value|) else None
      else None
    else None
  }

  /** A match is an assignment head and ends right after the value. */
  lemma AssignMatchHead(t: string, name: string, value: string) returns (e: nat, q: nat)
    requires AssignMatch(t, name, value).Some?
    ensures AssignHead(t, name, value, e, q) && AssignMatch(t, name, value).value == q + 1 + |value|
  {
    e := |name| + RunAt(t, |name|, Space);
    q := e + 1 + RunAt(t, e + 1, Space);
  }

  /** Any head in the text is matched, so AssignMatch succeeds exactly when the
      text starts with an assignment head. */
  lemma AssignHeadFound(t: string, name: string, value: string, e: nat, q: nat)
    requires AssignHead(t, name, value, e, q)
    ensures AssignMatch(t, name, value).Some? && AssignMatch(t, name, value).value == q + 1 + |value|
  {
    RunAtEnds(t, |name|, e, Space);
    RunAtEnds(t, e + 1, q, Space);
  }

  /** `(href|src)\s*=\s*["']value` at the start of t: either alternative's head. */
  predicate UrlHead(u: string, value: string, e: nat, q: nat) {
    AssignHead(u, "href", value, e, q) || AssignHead(u, "src", value, e, q)
  }

  /** `\s*(href|src)\s*=\s*["']value`: whitespace, then the href alternative, else the src one. */
  function UrlAttrMatch(t: string, value: string): (r: Option<nat>)
    ensures r.Some? ==> 0 < r.value <= |t|
  {
    var w := RunAt(t, 0, Space);
    var m := UrlAssign(t[w..], value);
    if m.Some? then Some(w + m.value) else None
  }

  /** A URL-attribute match is leading whitespace, then an `href` or `src` head,
      and ends right after the value. */
  lemma UrlAttrHead(t: string, value: string) returns (w: nat, e: nat, q: nat)
    requires UrlAttrMatch(t, value).Some?
    ensures w <= |t| && AllIn(t, 0, w, Space) && UrlHead(t[w..], value, e, q)
    ensures UrlAttrMatch(t, value).value == w + q + 1 + |value|
  {
    w := RunAt(t, 0, Space);
    e, q := UrlAssignHead(t[w..], value);
  }

  /** Whitespace then an `href` or `src` head is matched, whichever alternative it is. */
  lemma UrlAttrFound(ws: string, u: string, value: string, e: nat, q: nat)
    requires AllIn(ws, 0, |ws|, Space) && UrlHead(u, value, e, q)
    ensures UrlAttrMatch(ws + u, value).Some? && UrlAttrMatch(ws + u, value).value == |ws| + q + 1 + |value|
  {
    UrlAssignFound(u, value, e, q);
    UrlAttrAfterSpace(ws, u, value);
  }

  /** Whitespace followed by a URL-attribute match is matched with that whitespace. */
  lemma UrlAttrAfterSpace(ws: string, u: string, value: string)
    requires AllIn(ws, 0, |ws|, Space) && UrlAssign(u, value).Some?
    ensures UrlAttrMatch(ws + u, value).Some? && UrlAttrMatch(ws + u, value).value == |ws| + UrlAssign(u, value).value
  {
    UrlAssignStartsWithName(u, value);
    LeadingSpace(ws, u);
    UrlAttrFromParts(ws + u, value, |ws|);
  }

  /** UrlAttrMatch from its two parts: the whitespace run and the match after it. */
  lemma UrlAttrFromParts(t: string, value: string, w: nat)
    requires w <= |t| && RunAt(t, 0, Space) == w && UrlAssign(t[w..], value).Some?
    ensures UrlAttrMatch(t, value).Some? && UrlAttrMatch(t, value).value == w + UrlAssign(t[w..], value).value
  {
  }

  /** A URL-attribute match starts with a letter of its name, not with whitespace. */
  lemma UrlAssignStartsWithName(u: string, value: string)
    requires UrlAssign(u, value).Some?
    ensures u != [] && !InClass(u[0], Space)
  {
    var e, q := UrlAssignHead(u, value);
    assert Lower(u[0]) == 'h' || Lower(u[0]) == 's';
  }

  /** The whitespace run of ws + u is ws when u starts with something else. */
  lemma LeadingSpace(ws: string, u: string)
    requires AllIn(ws, 0, |ws|, Space) && u != [] && !InClass(u[0], Space)
    ensures RunAt(ws + u, 0, Space) == |ws| && (ws + u)[|ws|..] == u
  {
    var t := ws + u;
    assert t[|ws|] == u[0];
    assert AllIn(t, 0, |ws|, Space) by {
      forall j | 0 <= j < |ws|
        ensures InClass(t[j], Space)
      {
        assert t[j] == ws[j];
      }
    }
    RunAtEnds(t, 0, |ws|, Space);
  }

  /** A URL-attribute match ends with the scheme it looks for. */
  lemma UrlAttrEndsWithValue(t: string, value: string)
    requires UrlAttrMatch(t, value).Some?
    ensures EndsWithValue(t, UrlAttrMatch(t, value).value, value)
  {
    ShiftedMatch(t, RunAt(t, 0, Space), value);
  }

  /** `(href|src)\s*=\s*["']value`: the href alternative, else the src one. The two
      names start with different letters, so at most one of them can match and
      the order of the alternation does not change the result. */
  function UrlAssign(u: string, value: string): (m: Option<nat>)
    ensures m.Some? ==> |value| < m.value <= |u| && EndsWithValue(u, m.value, value)
  {
    var href := AssignMatch(u, "href", value);
    if href.Some? then href else AssignMatch(u, "src", value)
  }

  /** A match of either alternative is an `href` or `src` head, ending after the value. */
  lemma UrlAssignHead(u: string, value: string) returns (e: nat, q: nat)
    requires UrlAssign(u, value).Some?
    ensures UrlHead(u, value, e, q) && UrlAssign(u, value).value == q + 1 + |value|
  {
    var name := if AssignMatch(u, "href", value).Some? then "href" else "src";
    e, q := AssignMatchHead(u, name, value);
  }

  /** Either alternative's head is matched, so UrlAssign succeeds exactly when the
      text starts with an `href` or a `src` head. */
  lemma UrlAssignFound(u: string, value: string, e: nat, q: nat)
    requires UrlHead(u, value, e, q)
    ensures UrlAssign(u, value).Some? && UrlAssign(u, value).value == q + 1 + |value|
  {
    if AssignHead(u, "href", value, e, q) {
      AssignHeadFound(u, "href", value, e, q);
    } else {
      AssignHeadFound(u, "src", value, e, q);
      assert Lower(u[0]) == 's';
      assert !StartsCI(u, "href");
    }
  }

  /** At most one alternative of `(href|src)` matches, since the names differ in
      their first letter: the alternation's order cannot change the result. */
  lemma UrlAlternativesExclusive(u: string, value: string)
    ensures !(AssignMatch(u, "href", value).Some? && AssignMatch(u, "src", value).Some?)
  {
    if AssignMatch(u, "href", value).Some? {
      assert Lower(u[0]) == 'h';
    }
  }

  /** A match found in t[w..] that ends with the value ends with it in t too. */
  lemma ShiftedMatch(t: string, w: nat, value: string)
    requires w <= |t|
    ensures var m := UrlAssign(t[w..], value);
            m.Some? ==> EndsWithValue(t, w + m.value, value)
  {
    var m := UrlAssign(t[w..], value);
    if m.Some? {
      SuffixOfSuffix(t, w, m.value - |value|);
    }
  }

  lemma SuffixOfSuffix(t: string, i: nat, j: nat)
    requires i + j <= |t|
    ensures t[i..][j..] == t[i + j..]
  {
  }

  /** The attribute a tag rule looks for between its opener and the first `>`. */
  datatype TagAttr = RefreshEquiv | JavascriptHref

  predicate AttrAt(u: string, attr: TagAttr) {
    match attr
    case RefreshEquiv =>
      // http-equiv\s*=\s*["']refresh["']
      var m := AssignMatch(u, "http-equiv", "refresh");
      m.Some? && m.value < |u| && IsQuote(u[m.value])
    case JavascriptHref =>
      // href\s*=\s*["']javascript:
      AssignMatch(u, "href", "javascript:").Some?
  }

  /** Some position k in [from, to) where the attribute pattern matches. */
  predicate AttrBetween(t: string, from: nat, to: nat, attr: TagAttr)
    requires from <= to <= |t|
    decreases (to as int) - (from as int)
  {
    from < to && (AttrAt(t[from..], attr) || AttrBetween(t, from + 1, to, attr))
  }

  /** g is the first position at or after `from` that holds a `>`. */
  predicate FirstGt(t: string, from: nat, g: nat) {
    from <= g < |t| && t[g] == '>' && forall j :: from <= j < g ==> t[j] != '>'
  }

  /** Searching for ">" finds exactly the first `>`. */
  lemma FindFirstGt(t: string, from: nat)
    requires from <= |t|
    ensures Find(t, ">", from).Some? ==> FirstGt(t, from, Find(t, ">", from).value)
    ensures forall g :: FirstGt(t, from, g) ==> Find(t, ">", from).Some? && Find(t, ">", from).value == g
  {
    forall q | from <= q < |t|
      ensures t[q] == '>' <==> ">" <= t[q..]
    {
      assert t[q..][0] == t[q];
    }
  }

  /** `<name[^>]*ATTR[^>]*>`: the `[^>]*` on either side keep the attribute
      before the first `>`, so the match ends just past that `>`. */
  function TagWithAttrMatch(t: string, opener: string, attr: TagAttr): (r: Option<nat>)
    ensures r.Some? ==> StartsCI(t, opener) && |opener| < r.value <= |t| &&
                        FirstGt(t, |opener|, r.value - 1) && AttrBetween(t, |opener|, r.value - 1, attr)
  {
    if StartsCI(t, opener) then
      FindFirstGt(t, |opener|);
      match Find(t, ">", |opener|)
      case Some(g) => if AttrBetween(t, |opener|, g, attr) then Some(g + 1) else None
      case None => None
    else None
  }

  /** A tag rule matches exactly when the text starts with the opener and the
      attribute occurs before the first `>` after it. */
  lemma TagWithAttrFound(t: string, opener: string, attr: TagAttr, g: nat)
    requires StartsCI(t, opener) && FirstGt(t, |opener|, g)
    ensures TagWithAttrMatch(t, opener, attr).Some? <==> AttrBetween(t, |opener|, g, attr)
  {
    FindFirstGt(t, |opener|);
  }

  /** Without a `>` after the opener there is no match. */
  lemma TagWithoutGt(t: string, opener: string, attr: TagAttr)
    requires |opener| <= |t| && forall j :: |opener| <= j < |t| ==> t[j] != '>'
    ensures TagWithAttrMatch(t, opener, attr).None?
  {
  }

  /** Length of the match of rule's pattern at the start of t. */
  function MatchLen(rule: Rule, t: string): (r: Option<nat>)
    ensures r.Some? ==> 0 < r.value <= |t|
  {
    match rule
    case ScriptElement => ElementMatch(t, "<script", "</script>", "</script>")
    case QuotedHandler => HandlerMatch(true, t)
    case UnquotedHandler => HandlerMatch(false, t)
    case JavascriptScheme => Literal(t, "javascript:")
    case DataHtml => Literal(t, "data:text/html")
    case DataJavascript => Literal(t, "data:application/javascript")
    case IframeElement => ElementMatch(t, "<iframe", "</iframe>", "</iframe>")
    case ObjectOrEmbed =>
      OrElse(ElementMatch(t, "<object", "</object>", "</embed>"),
             ElementMatch(t, "<embed", "</object>", "</embed>"))
    case BaseTag =>
      if StartsCI(t, "<base") && BoundaryAt(t, 5) then
        match Find(t, ">", 5)
        case Some(g) => Some(g + 1)
        case None => None
      else None
    case MetaRefresh => TagWithAttrMatch(t, "<meta", RefreshEquiv)
    case JavascriptLink => TagWithAttrMatch(t, "<link", JavascriptHref)
    case StyleElement => ElementMatch(t, "<style", "</style>", "</style>")
    case JavascriptUrlAttr => UrlAttrMatch(t, "javascript:")
    case DataHtmlUrlAttr => UrlAttrMatch(t, "data:text/html")
  }

  /** A pattern as the scan sees it: the length of its match at the start of a string. */
  type Matcher = string -> Option<nat>

  /** Every match is non-empty and lies inside the text. */
  ghost predicate Consumes(m: Matcher) {
    forall t :: m(t).Some? ==> 0 < m(t).value <= |t|
  }

  /** The matcher of one rule. */
  function Pattern(rule: Rule): (m: Matcher)
    ensures Consumes(m)
  {
    t => MatchLen(rule, t)
  }

  /** `text.replace(pattern, '')` with a global pattern: the leftmost match is
      deleted and the scan resumes right after it, never looking back. */
  function Scan(m: Matcher, t: string): string
    requires Consumes(m)
    decreases |t|
  {
    if t == [] then []
    else match m(t)
      case Some(n) => Scan(m, t[n..])
      case None => [t[0]] + Scan(m, t[1..])
  }

  /** One `replace` line of sanitizeHtml. */
  function Apply(rule: Rule, t: string): string {
    Scan(Pattern(rule), t)
  }

  function ApplyAll(rules: seq<Rule>, t: string): string
    decreases |rules|
  {
    if rules == [] then t else ApplyAll(rules[1..], Apply(rules[0], t))
  }

  /** sanitizeHtml. */
  function Sanitize(html: string): string {
    ApplyAll(Rules(), html)
  }

  // ---------------------------------------------------------------------------
  // Every pass only deletes.

  lemma {:induction false} ScanDeletes(m: Matcher, t: string)
    requires Consumes(m)
    ensures IsSubsequence(Scan(m, t), t)
    decreases |t|
  {
    if t != [] {
      match m(t)
      case Some(n) =>
        ScanDeletes(m, t[n..]);
        SubsequenceOfSuffix(Scan(m, t[n..]), t, n);
      case None =>
        ScanDeletes(m, t[1..]);
        var r := [t[0]] + Scan(m, t[1..]);
        assert r[0] == t[0] && r[1..] == Scan(m, t[1..]);
    }
  }

  lemma {:induction false} ApplyAllDeletes(rules: seq<Rule>, t: string)
    ensures IsSubsequence(ApplyAll(rules, t), t)
    decreases |rules|
  {
    if rules == [] {
      SubsequenceReflexive(t);
    } else {
      var u := Apply(rules[0], t);
      ScanDeletes(Pattern(rules[0]), t);
      ApplyAllDeletes(rules[1..], u);
      SubsequenceTransitive(ApplyAll(rules[1..], u), u, t);
    }
  }

  /** sanitizeHtml never adds a character: its output is the input with some characters deleted. */
  lemma SanitizeOnlyDeletes(html: string)
    ensures IsSubsequence(Sanitize(html), html)
    ensures |Sanitize(html)| <= |html|
  {
    ApplyAllDeletes(Rules(), html);
    SubsequenceShorter(Sanitize(html), html);
  }

  // ---------------------------------------------------------------------------
  // A pass changes its input exactly when its pattern matches somewhere.

  ghost predicate NoMatch(m: Matcher, t: string) {
    forall k :: 0 <= k < |t| ==> m(t[k..]).None?
  }

  lemma {:induction false} NoMatchSuffix(m: Matcher, t: string)
    requires t != [] && NoMatch(m, t)
    ensures NoMatch(m, t[1..])
  {
    forall k | 0 <= k < |t[1..]|
      ensures m(t[1..][k..]).None?
    {
      assert t[1..][k..] == t[k + 1..];
    }
  }

  lemma {:induction false} ScanShorter(m: Matcher, t: string)
    requires Consumes(m)
    ensures |Scan(m, t)| <= |t|
    decreases |t|
  {
    if t != [] {
      match m(t)
      case Some(n) => ScanShorter(m, t[n..]);
      case None => ScanShorter(m, t[1..]);
    }
  }

  lemma {:induction false} MatchShortens(m: Matcher, t: string, k: nat)
    requires Consumes(m)
    requires k < |t| && m(t[k..]).Some?
    ensures |Scan(m, t)| < |t|
    decreases |t|
  {
    match m(t)
    case Some(n) => ScanShorter(m, t[n..]);
    case None =>
      assert k != 0 by { assert t[0..] == t; }
      assert t[1..][k - 1..] == t[k..];
      MatchShortens(m, t[1..], k - 1);
  }

  lemma {:induction false} NoMatchFixed(m: Matcher, t: string)
    requires Consumes(m) && NoMatch(m, t)
    ensures Scan(m, t) == t
    decreases |t|
  {
    if t != [] {
      assert m(t[0..]).None?;
      assert t[0..] == t;
      NoMatchSuffix(m, t);
      NoMatchFixed(m, t[1..]);
    }
  }

  /** A pass leaves its input unchanged if and only if its pattern matches nowhere in it. */
  lemma ScanUnchangedIff(m: Matcher, t: string)
    requires Consumes(m)
    ensures Scan(m, t) == t <==> NoMatch(m, t)
  {
    if NoMatch(m, t) {
      NoMatchFixed(m, t);
    } else {
      var k :| 0 <= k < |t| && m(t[k..]).Some?;
      MatchShortens(m, t, k);
    }
  }

  /** A prefix in which no match starts is copied through unchanged. */
  lemma {:induction false} ScanKeepsPrefix(m: Matcher, a: string, b: string)
    requires Consumes(m)
    requires forall k :: 0 <= k < |a| ==> m((a + b)[k..]).None?
    ensures Scan(m, a + b) == a + Scan(m, b)
    decreases |a|
  {
    if a == [] {
      assert a + b == b;
    } else {
      ScanKeepsFirst(m, a, b);
      ScanKeepsPrefix(m, a[1..], b);
      Associative([a[0]], a[1..], Scan(m, b));
      assert [a[0]] + a[1..] == a;
    }
  }

  /** One step of ScanKeepsPrefix: the first character is kept, and no match
      starts in the rest of the prefix either. */
  lemma ScanKeepsFirst(m: Matcher, a: string, b: string)
    requires Consumes(m) && a != []
    requires forall k :: 0 <= k < |a| ==> m((a + b)[k..]).None?
    ensures Scan(m, a + b) == [a[0]] + Scan(m, a[1..] + b)
    ensures forall k :: 0 <= k < |a[1..]| ==> m((a[1..] + b)[k..]).None?
  {
    assert (a + b)[0..] == a + b;
    assert (a + b)[1..] == a[1..] + b;
    forall k | 0 <= k < |a[1..]|
      ensures m((a[1..] + b)[k..]).None?
    {
      assert (a[1..] + b)[k..] == (a + b)[k + 1..];
    }
  }

  // ---------------------------------------------------------------------------
  // Element passes: from the opener to the nearest closer, or nothing.

  predicate IsElementRule(rule: Rule) {
    rule.ScriptElement? || rule.IframeElement? || rule.ObjectOrEmbed? || rule.StyleElement?
  }

  /** The two closing tags an element rule accepts (the same one twice but for object/embed). */
  function CloseTags(rule: Rule): (string, string)
    requires IsElementRule(rule)
  {
    match rule
    case ScriptElement => ("</script>", "</script>")
    case IframeElement => ("</iframe>", "</iframe>")
    case ObjectOrEmbed => ("</object>", "</embed>")
    case StyleElement => ("</style>", "</style>")
  }

  lemma ElementNeedsCloser(rule: Rule, u: string)
    requires IsElementRule(rule) && MatchLen(rule, u).Some?
    ensures exists q :: 0 <= q <= |u| && CloserAt(u, q, CloseTags(rule).0, CloseTags(rule).1)
  {
    var (a, b) := CloseTags(rule);
    match rule
    case ObjectOrEmbed =>
      if ElementMatch(u, "<object", a, b).Some? {
        assert FirstCloser(u, a, b, 7).Some?;
      } else {
        assert FirstCloser(u, a, b, 6).Some?;
      }
    case ScriptElement => assert FirstCloser(u, a, b, 7).Some?;
    case IframeElement => assert FirstCloser(u, a, b, 7).Some?;
    case StyleElement => assert FirstCloser(u, a, b, 6).Some?;
  }

  /** A match at k needs a closing tag at or after k. */
  lemma CloserAfter(rule: Rule, t: string, k: nat)
    requires IsElementRule(rule) && k <= |t|
    ensures MatchLen(rule, t[k..]).Some? ==>
              exists p :: k <= p <= |t| && CloserAt(t, p, CloseTags(rule).0, CloseTags(rule).1)
  {
    var (a, b) := CloseTags(rule);
    if MatchLen(rule, t[k..]).Some? {
      ElementNeedsCloser(rule, t[k..]);
      var q :| 0 <= q <= |t[k..]| && CloserAt(t[k..], q, a, b);
      assert t[k..][q..] == t[k + q..];
      assert CloserAt(t, k + q, a, b);
    }
  }

  /** An opener with no closing tag anywhere after it is left in place: a pass whose
      closer occurs nowhere in the text, in any case, changes nothing. */
  lemma UnclosedElementKept(rule: Rule, t: string)
    requires IsElementRule(rule)
    requires forall p :: 0 <= p <= |t| ==> !CloserAt(t, p, CloseTags(rule).0, CloseTags(rule).1)
    ensures Apply(rule, t) == t
  {
    forall k | 0 <= k < |t|
      ensures MatchLen(rule, t[k..]).None?
    {
      CloserAfter(rule, t, k);
    }
    NoMatchFixed(Pattern(rule), t);
  }

  /** s ends with suffix. */
  predicate EndsWith(s: string, suffix: string) {
    |suffix| <= |s| && s[|s| - |suffix|..] == suffix
  }

  lemma EndsWithCons(c: char, s: string, suffix: string)
    requires EndsWith(s, suffix)
    ensures EndsWith([c] + s, suffix)
  {
    assert ([c] + s)[|[c] + s| - |suffix|..] == s[|s| - |suffix|..];
  }

  /** When no match starting before k reaches past k and no match starts at or
      after k, the pass copies the text from k to the end of its output. */
  lemma {:induction false} ScanKeepsSuffix(m: Matcher, t: string, k: nat)
    requires Consumes(m) && k <= |t|
    requires forall j :: 0 <= j < k && m(t[j..]).Some? ==> j + m(t[j..]).value <= k
    requires forall j :: k <= j < |t| ==> m(t[j..]).None?
    ensures EndsWith(Scan(m, t), t[k..])
    decreases |t|
  {
    if k == 0 {
      assert t[0..] == t;
      NoMatchFixed(m, t);
    } else {
      assert t[0..] == t;
      var d := if m(t).Some? then m(t).value else 1;
      assert d <= k;
      ShiftedBounds(m, t, k, d);
      ScanKeepsSuffix(m, t[d..], k - d);
      assert t[d..][k - d..] == t[k..];
      if m(t).None? {
        EndsWithCons(t[0], Scan(m, t[1..]), t[k..]);
      }
    }
  }

  /** ScanKeepsSuffix's conditions carry over to the text after its first d characters. */
  lemma ShiftedBounds(m: Matcher, t: string, k: nat, d: nat)
    requires 0 < d <= k <= |t|
    requires forall j :: 0 <= j < k && m(t[j..]).Some? ==> j + m(t[j..]).value <= k
    requires forall j :: k <= j < |t| ==> m(t[j..]).None?
    ensures forall j :: 0 <= j < k - d && m(t[d..][j..]).Some? ==> j + m(t[d..][j..]).value <= k - d
    ensures forall j :: k - d <= j < |t[d..]| ==> m(t[d..][j..]).None?
  {
    forall j | 0 <= j < |t[d..]|
      ensures t[d..][j..] == t[d + j..]
    {
    }
  }

  /** Inside a closing tag only its first character is a `<`. */
  lemma LtOnlyOpensCloser(rule: Rule, c: string, i: nat)
    requires IsElementRule(rule) && (c == CloseTags(rule).0 || c == CloseTags(rule).1)
    requires 1 <= i < |c|
    ensures Lower(c[i]) != '<'
  {
  }

  /** The characters of the text covered by a closing tag after its first are not `<`. */
  lemma CloserInteriorNoLt(rule: Rule, t: string, p: nat, c: string)
    requires IsElementRule(rule) && (c == CloseTags(rule).0 || c == CloseTags(rule).1)
    requires p <= |t| && StartsCI(t[p..], c)
    ensures forall i :: p < i < p + |c| ==> t[i] != '<'
  {
    forall i | p < i < p + |c|
      ensures t[i] != '<'
    {
      assert t[p..][i - p] == t[i];
      LtOnlyOpensCloser(rule, c, i - p);
    }
  }

  /** An element match ends with one of the rule's closing tags. */
  lemma ElementCloser(u: string, opener: string, a: string, b: string) returns (q: nat, c: string)
    requires opener != [] && a != [] && b != [] && ElementMatch(u, opener, a, b).Some?
    ensures (c == a || c == b) && q + |c| == ElementMatch(u, opener, a, b).value
    ensures q <= |u| && StartsCI(u[q..], c)
  {
    q := FirstCloser(u, a, b, |opener|).value;
    c := if StartsCI(u[q..], a) then a else b;
  }

  lemma ElementRuleCloser(rule: Rule, u: string) returns (q: nat, c: string)
    requires IsElementRule(rule) && MatchLen(rule, u).Some?
    ensures (c == CloseTags(rule).0 || c == CloseTags(rule).1) && q + |c| == MatchLen(rule, u).value
    ensures q <= |u| && StartsCI(u[q..], c)
  {
    match rule
    case ScriptElement => q, c := ElementCloser(u, "<script", "</script>", "</script>");
    case IframeElement => q, c := ElementCloser(u, "<iframe", "</iframe>", "</iframe>");
    case StyleElement => q, c := ElementCloser(u, "<style", "</style>", "</style>");
    case ObjectOrEmbed =>
      if ElementMatch(u, "<object", "</object>", "</embed>").Some? {
        q, c := ElementCloser(u, "<object", "</object>", "</embed>");
      } else {
        q, c := ElementCloser(u, "<embed", "</object>", "</embed>");
      }
  }

  /** The closing tag that ends an element match at j, as a position of t. */
  lemma ElementRuleCloserAt(rule: Rule, t: string, j: nat) returns (p: nat, c: string)
    requires IsElementRule(rule) && j <= |t| && MatchLen(rule, t[j..]).Some?
    ensures (c == CloseTags(rule).0 || c == CloseTags(rule).1) && p + |c| == j + MatchLen(rule, t[j..]).value
    ensures j <= p <= |t| && StartsCI(t[p..], c)
  {
    var q;
    q, c := ElementRuleCloser(rule, t[j..]);
    p := j + q;
    SuffixOfSuffix(t, j, q);
  }

  /** A match that starts before a `<` with no closer after it ends at or before that `<`. */
  lemma MatchStopsBefore(rule: Rule, t: string, k: nat, j: nat)
    requires IsElementRule(rule) && j < k < |t| && t[k] == '<'
    requires forall p :: k <= p <= |t| ==> !CloserAt(t, p, CloseTags(rule).0, CloseTags(rule).1)
    requires MatchLen(rule, t[j..]).Some?
    ensures j + MatchLen(rule, t[j..]).value <= k
  {
    var p, c := ElementRuleCloserAt(rule, t, j);
    assert CloserAt(t, p, CloseTags(rule).0, CloseTags(rule).1);
    assert p < k;
    CloserInteriorNoLt(rule, t, p, c);
  }

  /** An element opener that no closing tag follows is left in place: the text
      from the opener on survives the pass as the end of its output. */
  lemma OpenerWithoutCloserKept(rule: Rule, t: string, k: nat)
    requires IsElementRule(rule) && k < |t| && t[k] == '<'
    requires forall p :: k <= p <= |t| ==> !CloserAt(t, p, CloseTags(rule).0, CloseTags(rule).1)
    ensures EndsWith(Apply(rule, t), t[k..])
  {
    var m := Pattern(rule);
    forall j | k <= j < |t|
      ensures m(t[j..]).None?
    {
      CloserAfter(rule, t, j);
    }
    forall j | 0 <= j < k && m(t[j..]).Some?
      ensures j + m(t[j..]).value <= k
    {
      MatchStopsBefore(rule, t, k, j);
    }
    ScanKeepsSuffix(m, t, k);
  }

  /** The object/embed pass pairs its openers and closers freely: `<object>` is
      closed by `</embed>`. */
  lemma ObjectClosedByEmbed(t: string)
    requires t == "<object></embed>"
    ensures MatchLen(ObjectOrEmbed, t).Some? && MatchLen(ObjectOrEmbed, t).value == |t|
  {
    var a, b := "</object>", "</embed>";
    ObjectOpens(t);
    EmbedClosesAt(t);
    ClosedBySecond(t, a, b, 7);
    ElementMatchEnds(t, "<object", a, b);
    ObjectTriedFirst(t);
  }

  /** The object/embed pass tries the `<object` alternative first. */
  lemma ObjectTriedFirst(t: string)
    ensures var m := ElementMatch(t, "<object", "</object>", "</embed>");
            m.Some? ==> MatchLen(ObjectOrEmbed, t) == m
  {
  }

  /** When only the second closer occurs, the nearest closer is its first occurrence. */
  lemma ClosedBySecond(t: string, closeA: string, closeB: string, from: nat)
    requires from <= |t| && FindCI(t, closeA, from).None? && FindCI(t, closeB, from).Some?
    ensures FirstCloser(t, closeA, closeB, from) == FindCI(t, closeB, from)
  {
  }

  /** An element match ends at the end of the nearest closer. */
  lemma ElementMatchEnds(t: string, opener: string, closeA: string, closeB: string)
    requires opener != [] && closeA != [] && closeB != []
    requires StartsCI(t, opener) && BoundaryAt(t, |opener|)
    requires FirstCloser(t, closeA, closeB, |opener|).Some?
    ensures var q := FirstCloser(t, closeA, closeB, |opener|).value;
            ElementMatch(t, opener, closeA, closeB).Some? &&
            ElementMatch(t, opener, closeA, closeB).value ==
              q + (if StartsCI(t[q..], closeA) then |closeA| else |closeB|)
  {
  }

  lemma ObjectOpens(t: string)
    requires t == "<object></embed>"
    ensures StartsCI(t, "<object") && BoundaryAt(t, 7)
  {
  }

  /** In `<object></embed>` the only closer after the opener is `</embed>` at 8. */
  lemma EmbedClosesAt(t: string)
    requires t == "<object></embed>"
    ensures FindCI(t, "</object>", 7).None?
    ensures FindCI(t, "</embed>", 7).Some? && FindCI(t, "</embed>", 7).value == 8
    ensures !StartsCI(t[8..], "</object>")
  {
    var a, b := "</object>", "</embed>";
    assert !StartsCI(t[7..], a) && !StartsCI(t[7..], b) by { assert t[7..][0] == '>'; }
    assert StartsCI(t[8..], b);
    assert FindCI(t, a, 8).None? by { assert t[8..][2] != a[2]; }
  }

  // ---------------------------------------------------------------------------
  // Handler passes take the whitespace before `on...=` with them.

  /** A run that reaches a character outside the class stops exactly there. */
  lemma {:induction false} RunAtEnds(t: string, i: nat, k: nat, cls: CharClass)
    requires i <= k <= |t| && AllIn(t, i, k, cls)
    requires k < |t| ==> !InClass(t[k], cls)
    ensures RunAt(t, i, cls) == k - i
    decreases k - i
  {
    if i < k {
      RunAtEnds(t, i + 1, k, cls);
    }
  }

  /** Whitespace directly before an event handler is deleted with it: when a handler
      body starts after k whitespace characters, the match at the start of the
      text covers the whitespace and ends where the body ends. */
  lemma HandlerTakesLeadingSpace(quoted: bool, t: string, k: nat)
    requires k <= |t| && forall i :: 0 <= i < k ==> IsSpace(t[i])
    requires HandlerBody(quoted, t, k).Some?
    ensures HandlerMatch(quoted, t) == HandlerBody(quoted, t, k)
  {
    OnIsNotSpace(t, k);
    RunAtEnds(t, 0, k, Space);
  }

  lemma OnIsNotSpace(t: string, w: nat)
    requires OnAt(t, w)
    ensures !InClass(t[w], Space)
  {
  }

  // ---------------------------------------------------------------------------
  // Text without trigger characters is a fixed point.

  /** At the start of t stands `<`, or, ignoring case, `on`, `javascript:` or `data:`. */
  predicate TriggerAt(t: string) {
    (t != [] && t[0] == '<') || StartsCI(t, "on") || StartsCI(t, "javascript:") || StartsCI(t, "data:")
  }

  predicate Inert(t: string) {
    forall k :: 0 <= k < |t| ==> !TriggerAt(t[k..])
  }

  lemma UrlAttrNeedsTrigger(t: string, value: string)
    requires UrlAttrMatch(t, value).Some?
    requires value == "javascript:" || value == "data:text/html"
    ensures exists k :: 0 <= k < |t| && TriggerAt(t[k..])
  {
    UrlAttrEndsWithValue(t, value);
    var n := UrlAttrMatch(t, value).value;
    var k := n - |value|;
    var u := t[k..];
    assert StartsCI(u, value);
    if value == "data:text/html" {
      DataPrefix(u, value);
    }
    assert TriggerAt(u);
  }

  lemma HandlerNeedsTrigger(quoted: bool, t: string)
    requires HandlerMatch(quoted, t).Some?
    ensures exists k :: 0 <= k < |t| && TriggerAt(t[k..])
  {
    OnIsTrigger(t, RunAt(t, 0, Space));
  }

  lemma OnIsTrigger(t: string, w: nat)
    requires OnAt(t, w)
    ensures TriggerAt(t[w..])
  {
    assert t[w..][0] == t[w] && t[w..][1] == t[w + 1];
  }

  lemma DataPrefix(u: string, value: string)
    requires value == "data:text/html" || value == "data:application/javascript"
    requires StartsCI(u, value)
    ensures StartsCI(u, "data:")
  {
    assert forall i :: 0 <= i < 5 ==> value[i] == "data:"[i];
  }

  /** Every pattern needs a trigger somewhere in the text it matches. */
  lemma MatchNeedsTrigger(rule: Rule, t: string)
    requires MatchLen(rule, t).Some?
    ensures exists k :: 0 <= k < |t| && TriggerAt(t[k..])
  {
    match rule
    case QuotedHandler => HandlerNeedsTrigger(true, t);
    case UnquotedHandler => HandlerNeedsTrigger(false, t);
    case JavascriptScheme =>
      assert t[0..] == t;
    case DataHtml =>
      DataPrefix(t, "data:text/html");
      assert t[0..] == t;
    case DataJavascript =>
      DataPrefix(t, "data:application/javascript");
      assert t[0..] == t;
    case JavascriptUrlAttr => UrlAttrNeedsTrigger(t, "javascript:");
    case DataHtmlUrlAttr => UrlAttrNeedsTrigger(t, "data:text/html");
    case _ =>
      assert t[0] == '<';
      assert t[0..] == t;
  }

  lemma InertHasNoMatch(rule: Rule, t: string)
    requires Inert(t)
    ensures NoMatch(Pattern(rule), t)
  {
    forall k | 0 <= k < |t|
      ensures MatchLen(rule, t[k..]).None?
    {
      if MatchLen(rule, t[k..]).Some? {
        MatchNeedsTrigger(rule, t[k..]);
      }
    }
  }

  lemma {:induction false} ApplyAllInert(rules: seq<Rule>, t: string)
    requires Inert(t)
    ensures ApplyAll(rules, t) == t
    decreases |rules|
  {
    if rules != [] {
      InertHasNoMatch(rules[0], t);
      NoMatchFixed(Pattern(rules[0]), t);
      ApplyAllInert(rules[1..], t);
    }
  }

  /** Text with no `<` and none of `on`, `javascript:`, `data:` (in any case) comes back unchanged. */
  lemma SanitizeInert(html: string)
    requires Inert(html)
    ensures Sanitize(html) == html
  {
    ApplyAllInert(Rules(), html);
  }

  // ---------------------------------------------------------------------------
  // Each rule fires only on text holding its key character.

  /** A character every match of the rule contains. */
  function KeyChars(rule: Rule): set<char> {
    match rule
    case QuotedHandler => {'='}
    case UnquotedHandler => {'='}
    case JavascriptUrlAttr => {'='}
    case DataHtmlUrlAttr => {'='}
    case JavascriptScheme => {'j', 'J'}
    case DataHtml => {'d', 'D'}
    case DataJavascript => {'d', 'D'}
    case _ => {'<'}
  }

  lemma LowerKey(c: char, k: char)
    requires 'a' <= k <= 'z' && Lower(c) == k
    ensures c == k || c == (k as int - 'a' as int + 'A' as int) as char
  {
  }

  lemma MatchNeedsKey(rule: Rule, t: string)
    requires MatchLen(rule, t).Some?
    ensures exists i :: 0 <= i < |t| && t[i] in KeyChars(rule)
  {
    match rule
    case QuotedHandler => EqualsBeforeValue(true, t);
    case UnquotedHandler => EqualsBeforeValue(false, t);
    case JavascriptUrlAttr => UrlAttrHasEquals(t, "javascript:");
    case DataHtmlUrlAttr => UrlAttrHasEquals(t, "data:text/html");
    case JavascriptScheme => LowerKey(t[0], 'j');
    case DataHtml => LowerKey(t[0], 'd');
    case DataJavascript => LowerKey(t[0], 'd');
    case _ => assert t[0] == '<';
  }

  lemma EqualsBeforeValue(quoted: bool, t: string)
    requires HandlerMatch(quoted, t).Some?
    ensures exists i :: 0 <= i < |t| && t[i] == '='
  {
    var w := RunAt(t, 0, Space);
    var a, e :| HandlerHead(t, w, a, e, HandlerValueStart(t, w).value);
  }

  lemma UrlAttrHasEquals(t: string, value: string)
    requires UrlAttrMatch(t, value).Some?
    ensures exists i :: 0 <= i < |t| && t[i] == '='
  {
    var w := RunAt(t, 0, Space);
    var u := t[w..];
    var name := if AssignMatch(u, "href", value).Some? then "href" else "src";
    AssignHasEquals(u, name, value);
    var i :| 0 <= i < |u| && u[i] == '=';
    assert t[w + i] == u[i];
  }

  lemma AssignHasEquals(u: string, name: string, value: string)
    requires AssignMatch(u, name, value).Some?
    ensures exists i :: 0 <= i < |u| && u[i] == '='
  {
    var e := |name| + RunAt(u, |name|, Space);
    assert u[e] == '=';
  }

  /** A rule leaves alone any text lacking its key character. */
  lemma KeyAbsentFixed(rule: Rule, t: string)
    requires forall c :: c in KeyChars(rule) ==> c !in t
    ensures Apply(rule, t) == t
  {
    forall k | 0 <= k < |t|
      ensures MatchLen(rule, t[k..]).None?
    {
      if MatchLen(rule, t[k..]).Some? {
        MatchNeedsKey(rule, t[k..]);
      }
    }
    NoMatchFixed(Pattern(rule), t);
  }

  lemma {:induction false} ApplyAllKeyAbsent(rules: seq<Rule>, t: string)
    requires forall i, c :: 0 <= i < |rules| && c in KeyChars(rules[i]) ==> c !in t
    ensures ApplyAll(rules, t) == t
    decreases |rules|
  {
    if rules != [] {
      KeyAbsentFixed(rules[0], t);
      ApplyAllKeyAbsent(rules[1..], t);
    }
  }

  lemma {:induction false} ApplyAllSplit(rules: seq<Rule>, k: nat, t: string)
    requires k <= |rules|
    ensures ApplyAll(rules, t) == ApplyAll(rules[k..], ApplyAll(rules[..k], t))
    decreases k
  {
    if k == 0 {
      assert rules[0..] == rules;
    } else {
      SplitShift(rules, k);
      ApplyAllStep(rules, t);
      ApplyAllStep(rules[..k], t);
      ApplyAllSplit(rules[1..], k - 1, Apply(rules[0], t));
    }
  }

  lemma SplitShift(rules: seq<Rule>, k: nat)
    requires 0 < k <= |rules|
    ensures rules[1..][k - 1..] == rules[k..] && rules[..k][1..] == rules[1..][..k - 1]
    ensures rules[..k][0] == rules[0]
  {
  }

  lemma ApplyAllStep(rules: seq<Rule>, t: string)
    requires rules != []
    ensures ApplyAll(rules, t) == ApplyAll(rules[1..], Apply(rules[0], t))
  {
  }

  // ---------------------------------------------------------------------------
  // No absence and no idempotence: deleting can assemble a new occurrence.

  /** The `javascript:` pass deletes the inner occurrence of `javajavascript:script:`
      and the halves left around it join into a new `javascript:`, which survives;
      sanitizing a second time removes it, so sanitizeHtml is not idempotent. */
  lemma ResidualJavascript(w: string)
    requires Spells(w, "javajavascript:script:")
    ensures Sanitize(w) == "javascript:"
    ensures Sanitize(Sanitize(w)) == ""
  {
    SanitizeWitness(w);
    SanitizeJavascript(Sanitize(w));
  }

  lemma SanitizeWitness(w: string)
    requires Spells(w, "javajavascript:script:")
    ensures Sanitize(w) == "javascript:"
  {
    assert '<' !in w && '=' !in w && 'd' !in w && 'D' !in w;
    SanitizeOnlyJavascript(w);
    SplitWitness(w);
    JavascriptPassOnWitness(w);
  }

  /** `javascript:` holds none of the key characters of the other passes. */
  lemma NoKeysInJavascript(js: string)
    requires js == "javascript:"
    ensures '<' !in js && '=' !in js && 'd' !in js && 'D' !in js
  {
    assert Spells(js, "javascript:");
  }

  /** Text with no `<`, `=` or `d`/`D` is touched only by the `javascript:` pass. */
  lemma SanitizeOnlyJavascript(t: string)
    requires '<' !in t && '=' !in t && 'd' !in t && 'D' !in t
    ensures Sanitize(t) == Apply(JavascriptScheme, t)
  {
    SanitizeThroughJavascriptPass(t);
    JavascriptPassAddsNoKeys(t);
    LaterRulesKeep(Apply(JavascriptScheme, t));
  }

  /** The `javascript:` pass only deletes, so it brings in no key character. */
  lemma JavascriptPassAddsNoKeys(t: string)
    requires '<' !in t && '=' !in t && 'd' !in t && 'D' !in t
    ensures var r := Apply(JavascriptScheme, t);
            '<' !in r && '=' !in r && 'd' !in r && 'D' !in r
  {
    var r := Apply(JavascriptScheme, t);
    ScanDeletes(Pattern(JavascriptScheme), t);
    SubsequenceChars(r, t);
  }

  lemma SanitizeJavascript(js: string)
    requires js == "javascript:"
    ensures Sanitize(js) == ""
  {
    NoKeysInJavascript(js);
    SanitizeThroughJavascriptPass(js);
    JavascriptPassDropsAll(js);
    LaterRulesKeep("");
  }

  /** Text with no `<` or `=` passes the first three rules unchanged. */
  lemma SanitizeThroughJavascriptPass(t: string)
    requires '<' !in t && '=' !in t
    ensures Sanitize(t) == ApplyAll(Rules()[4..], Apply(JavascriptScheme, t))
  {
    ApplyAllSplit(Rules(), 3, t);
    FirstThreeRulesFixed(t);
    FourthRuleIsJavascript(t);
  }

  lemma FirstThreeRulesFixed(t: string)
    requires '<' !in t && '=' !in t
    ensures ApplyAll(Rules()[..3], t) == t
  {
    var first := [ScriptElement, QuotedHandler, UnquotedHandler];
    assert Rules()[..3] == first;
    assert forall i, c :: 0 <= i < |first| && c in KeyChars(first[i]) ==> c !in t;
    ApplyAllKeyAbsent(first, t);
  }

  lemma FourthRuleIsJavascript(t: string)
    ensures ApplyAll(Rules()[3..], t) == ApplyAll(Rules()[4..], Apply(JavascriptScheme, t))
  {
    var rest := Rules()[3..];
    assert rest[0] == JavascriptScheme && rest[1..] == Rules()[4..];
    ApplyAllStep(rest, t);
  }

  /** The rules after the `javascript:` pass keep text with no `<`, `=`, `d` or `D`. */
  lemma LaterRulesKeep(t: string)
    requires '<' !in t && '=' !in t && 'd' !in t && 'D' !in t
    ensures ApplyAll(Rules()[4..], t) == t
  {
    ApplyAllKeyAbsent(Rules()[4..], t);
  }

  lemma JavascriptPassDropsAll(js: string)
    requires js == "javascript:"
    ensures Apply(JavascriptScheme, js) == ""
  {
    StartsItself(js);
    assert Pattern(JavascriptScheme)(js) == Some(|js|);
    WholeMatchDeleted(Pattern(JavascriptScheme), js);
  }

  lemma StartsItself(t: string)
    ensures StartsCI(t, t)
  {
  }

  /** A pass whose pattern matches the whole text leaves nothing. */
  lemma WholeMatchDeleted(m: Matcher, t: string)
    requires Consumes(m) && m(t) == Some(|t|)
    ensures Scan(m, t) == ""
  {
    assert t[|t|..] == [];
  }

  /** The split point of the witness: no match starts in its first four characters. */
  lemma JavascriptPassOnWitness(w: string)
    requires |w| >= 4 && w[..4] == "java" && w[4..] == "javascript:script:"
    ensures Apply(JavascriptScheme, w) == "javascript:"
  {
    var m := Pattern(JavascriptScheme);
    var a, b := w[..4], w[4..];
    assert w == a + b;
    WitnessHeadUnmatched(a, b);
    assert forall k :: 0 <= k < |a| ==> m((a + b)[k..]).None?;
    ScanKeepsPrefix(m, a, b);
    JavascriptPassOnTail(b);
    assert Scan(m, b) == "script:";
    RejoinedJavascript(a, "script:", "javascript:");
  }

  lemma SplitWitness(w: string)
    requires Spells(w, "javajavascript:script:")
    ensures |w| >= 4 && w[..4] == "java" && w[4..] == "javascript:script:"
  {
    var a, b := "java", "javascript:script:";
    forall i | 0 <= i < |a| ensures w[..4][i] == a[i] { }
    forall i | 0 <= i < |b| ensures w[4..][i] == b[i] { }
  }

  lemma RejoinedJavascript(a: string, s: string, js: string)
    requires a == "java" && s == "script:" && js == "javascript:"
    ensures a + s == js
  {
    forall i | 0 <= i < |js|
      ensures (a + s)[i] == js[i]
    {
      if i < 4 { assert (a + s)[i] == a[i]; } else { assert (a + s)[i] == s[i - 4]; }
    }
  }

  lemma WitnessHeadUnmatched(a: string, b: string)
    requires a == "java" && b == "javascript:script:"
    ensures forall k :: 0 <= k < |a| ==> MatchLen(JavascriptScheme, (a + b)[k..]).None?
  {
    var js := "javascript:";
    forall k | 0 <= k < |a|
      ensures MatchLen(JavascriptScheme, (a + b)[k..]).None?
    {
      if k == 0 {
        assert (a + b)[4] == b[0];
        assert Lower((a + b)[4]) != Lower(js[4]);
      } else {
        assert (a + b)[k..][0] == a[k];
        assert Lower(a[k]) != Lower(js[0]);
      }
    }
  }

  lemma JavascriptPassOnTail(b: string)
    requires b == "javascript:script:"
    ensures Apply(JavascriptScheme, b) == "script:"
  {
    assert MatchLen(JavascriptScheme, b) == Some(11);
    assert b[11..] == "script:";
    KeyAbsentFixed(JavascriptScheme, "script:");
  }
}
