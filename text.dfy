/** Character classes, searches and trimming shared by the sanitizer, the LaTeX
    scanner and the word count. Each one has the meaning JavaScript gives it in a
    regular expression without the `u` flag. */
module Text {

  datatype Option<T> = None | Some(value: T)

  /** The first of two alternatives that matches, as a regex alternation tries them. */
  function OrElse(a: Option<nat>, b: Option<nat>): Option<nat> {
    if a.Some? then a else b
  }

  /** Sequence facts stated once, so that long proofs can cite them cheaply. */
  lemma Associative(a: string, b: string, c: string)
    ensures a + (b + c) == a + b + c
  {
  }

  lemma AppendNothing(a: string)
    ensures a + [] == a
  {
  }

  /** `\s`, which is also the set of characters String.prototype.trim removes
      (WhiteSpace and LineTerminator of ECMAScript). */
  predicate IsSpace(c: char) {
    c == '\t' || c == '\n' || c == '\U{0B}' || c == '\U{0C}' || c == '\r' || c == ' ' ||
    c == '\U{A0}' || c == '\U{1680}' || ('\U{2000}' <= c <= '\U{200A}') ||
    c == '\U{2028}' || c == '\U{2029}' || c == '\U{202F}' || c == '\U{205F}' ||
    c == '\U{3000}' || c == '\U{FEFF}'
  }

  /** `\w`: ASCII letters, digits and the underscore. */
  predicate IsWordChar(c: char) {
    ('a' <= c <= 'z') || ('A' <= c <= 'Z') || ('0' <= c <= '9') || c == '_'
  }

  predicate IsQuote(c: char) {
    c == '"' || c == '\''
  }

  /** ASCII case folding; for the ASCII patterns used here it is exactly what the `i` flag does. */
  function Lower(c: char): char {
    if 'A' <= c <= 'Z' then (c as int - 'A' as int + 'a' as int) as char else c
  }

  /** t begins with lit, ASCII letters compared without regard to case. */
  predicate StartsCI(t: string, lit: string) {
    |lit| <= |t| && forall i :: 0 <= i < |lit| ==> Lower(t[i]) == Lower(lit[i])
  }

  /** t holds exactly the characters of lit. Equal to `t == lit`; examples are
      stated this way so that the verifier reasons about them step by step
      instead of evaluating every function on a constant. */
  predicate Spells(t: string, lit: string) {
    |t| == |lit| && forall i :: 0 <= i < |lit| ==> t[i] == lit[i]
  }

  /** The character classes the patterns repeat with `*` or `+`. */
  datatype CharClass =
    | Space          // \s
    | Word           // \w
    | NotQuote       // [^"']
    | Bare           // [^>\s]

  predicate InClass(c: char, cls: CharClass) {
    match cls
    case Space => IsSpace(c)
    case Word => IsWordChar(c)
    case NotQuote => !IsQuote(c)
    case Bare => c != '>' && !IsSpace(c)
  }

  /** Length of the longest prefix of t drawn from cls: what a greedy `cls*` consumes. */
  function Run(t: string, cls: CharClass): (n: nat)
    ensures n <= |t|
    ensures forall i :: 0 <= i < n ==> InClass(t[i], cls)
    ensures n < |t| ==> !InClass(t[n], cls)
    decreases |t|
  {
    if t != [] && InClass(t[0], cls) then 1 + Run(t[1..], cls) else 0
  }

  /** The first position at or after `from` where lit occurs exactly. */
  function Find(t: string, lit: string, from: nat): (r: Option<nat>)
    requires from <= |t|
    ensures r.Some? ==> from <= r.value && r.value + |lit| <= |t| && lit <= t[r.value..]
    ensures r.Some? ==> forall q :: from <= q < r.value ==> !(lit <= t[q..])
    ensures r.None? ==> forall q :: from <= q <= |t| ==> !(lit <= t[q..])
    decreases |t| - from
  {
    if lit <= t[from..] then Some(from)
    else if from == |t| then None
    else Find(t, lit, from + 1)
  }

  /** The first position at or after `from` where lit occurs, ignoring ASCII case. */
  function FindCI(t: string, lit: string, from: nat): (r: Option<nat>)
    requires from <= |t|
    ensures r.Some? ==> from <= r.value && r.value + |lit| <= |t| && StartsCI(t[r.value..], lit)
    ensures r.Some? ==> forall q :: from <= q < r.value ==> !StartsCI(t[q..], lit)
    ensures r.None? ==> forall q :: from <= q <= |t| ==> !StartsCI(t[q..], lit)
    decreases |t| - from
  {
    if StartsCI(t[from..], lit) then Some(from)
    else if from == |t| then None
    else FindCI(t, lit, from + 1)
  }

  /** Length of the trailing run of whitespace. */
  function TrailingSpace(s: string): (n: nat)
    ensures n <= |s|
    ensures forall i :: |s| - n <= i < |s| ==> IsSpace(s[i])
    ensures n < |s| ==> !IsSpace(s[|s| - n - 1])
    decreases |s|
  {
    if s != [] && IsSpace(s[|s| - 1]) then 1 + TrailingSpace(s[..|s| - 1]) else 0
  }

  /** String.prototype.trim: the slice of s left once leading and trailing
      whitespace are removed. */
  function Trim(s: string): (r: string)
    ensures r == [] || (!IsSpace(r[0]) && !IsSpace(r[|r| - 1]))
    ensures Run(s, Space) + |r| <= |s| && r == s[Run(s, Space)..Run(s, Space) + |r|]
    ensures forall i :: 0 <= i < Run(s, Space) ==> IsSpace(s[i])
    ensures forall i :: Run(s, Space) + |r| <= i < |s| ==> IsSpace(s[i])
  {
    var w := Run(s, Space);
    TrimEnds(s[w..]);
    TrimTail(s, w);
    s[w..][..|s[w..]| - TrailingSpace(s[w..])]
  }

  /** Dropping the trailing whitespace of a string that does not start with
      whitespace leaves a string that neither starts nor ends with it. */
  lemma TrimEnds(u: string)
    requires u == [] || !IsSpace(u[0])
    ensures var r := u[..|u| - TrailingSpace(u)];
            r == [] || (!IsSpace(r[0]) && !IsSpace(r[|r| - 1]))
  {
    var r := u[..|u| - TrailingSpace(u)];
    assert r != [] ==> r[0] == u[0];
  }

  /** What follows the trimmed text inside s is whitespace. */
  lemma TrimTail(s: string, w: nat)
    requires w <= |s|
    ensures var u := s[w..];
            forall i :: w + |u| - TrailingSpace(u) <= i < |s| ==> IsSpace(s[i])
  {
    var u := s[w..];
    assert forall i :: w <= i < |s| ==> s[i] == u[i - w];
  }

  /** a can be obtained from b by deleting characters. */
  predicate IsSubsequence(a: string, b: string)
    decreases |b|
  {
    a == [] || (b != [] && ((a[0] == b[0] && IsSubsequence(a[1..], b[1..])) || IsSubsequence(a, b[1..])))
  }

  lemma {:induction false} SubsequenceReflexive(a: string)
    ensures IsSubsequence(a, a)
    decreases |a|
  {
    if a != [] {
      SubsequenceReflexive(a[1..]);
    }
  }

  lemma {:induction false} SubsequenceShorter(a: string, b: string)
    requires IsSubsequence(a, b)
    ensures |a| <= |b|
    decreases |b|
  {
    if a != [] {
      if a[0] == b[0] && IsSubsequence(a[1..], b[1..]) {
        SubsequenceShorter(a[1..], b[1..]);
      } else {
        SubsequenceShorter(a, b[1..]);
      }
    }
  }

  lemma {:induction false} SubsequenceTransitive(a: string, b: string, c: string)
    requires IsSubsequence(a, b) && IsSubsequence(b, c)
    ensures IsSubsequence(a, c)
    decreases |c|
  {
    if a == [] {
    } else if IsSubsequence(b, c[1..]) {
      SubsequenceTransitive(a, b, c[1..]);
    } else {
      assert b[0] == c[0] && IsSubsequence(b[1..], c[1..]);
      if a[0] == b[0] && IsSubsequence(a[1..], b[1..]) {
        SubsequenceTransitive(a[1..], b[1..], c[1..]);
      } else {
        SubsequenceTransitive(a, b[1..], c[1..]);
      }
    }
  }

  /** Deleting characters introduces none. */
  lemma {:induction false} SubsequenceChars(a: string, b: string)
    requires IsSubsequence(a, b)
    ensures forall c :: c in a ==> c in b
    decreases |b|
  {
    if a != [] {
      if a[0] == b[0] && IsSubsequence(a[1..], b[1..]) {
        SubsequenceChars(a[1..], b[1..]);
        assert forall c :: c in a ==> c == a[0] || c in a[1..];
      } else {
        SubsequenceChars(a, b[1..]);
      }
      assert forall c :: c in b[1..] ==> c in b;
    }
  }

  /** A subsequence of a suffix of b is a subsequence of b. */
  lemma {:induction false} SubsequenceOfSuffix(a: string, b: string, k: nat)
    requires k <= |b| && IsSubsequence(a, b[k..])
    ensures IsSubsequence(a, b)
    decreases k
  {
    if k == 0 {
      assert b[0..] == b;
    } else {
      assert b[1..][k - 1..] == b[k..];
      SubsequenceOfSuffix(a, b[1..], k - 1);
    }
  }
}
