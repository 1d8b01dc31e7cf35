/** The word count shown under the editor: the text is trimmed, and a non-empty
    remainder is split on runs of whitespace and its pieces are counted. */
module Words {
  import opened Text

  /** Non-empty, starting and ending with a character outside `\s`: what trim leaves. */
  predicate Trimmed(s: string) {
    s != [] && !IsSpace(s[0]) && !IsSpace(s[|s| - 1])
  }

  /** The first whitespace character at or after `from`, if any. */
  function FirstSpace(s: string, from: nat): (r: Option<nat>)
    requires from <= |s|
    ensures r.Some? ==> from <= r.value < |s| && IsSpace(s[r.value])
    ensures r.Some? ==> forall i :: from <= i < r.value ==> !IsSpace(s[i])
    ensures r.None? ==> forall i :: from <= i < |s| ==> !IsSpace(s[i])
    decreases |s| - from
  {
    if from == |s| then None
    else if IsSpace(s[from]) then Some(from)
    else FirstSpace(s, from + 1)
  }

  /** `s.split(/\s+/)`: the leftmost maximal run of whitespace separates the first
      piece from the split of what follows the run. */
  function Split(s: string): (r: seq<string>)
    ensures |r| >= 1
    ensures forall k, j :: 0 <= k < |r| && 0 <= j < |r[k]| ==> !IsSpace(r[k][j])
    ensures Trimmed(s) ==> forall k :: 0 <= k < |r| ==> r[k] != []
    decreases |s|
  {
    match FirstSpace(s, 0)
    case None => [s]
    case Some(i) =>
      var m := i + Run(s[i..], Space);
      assert Trimmed(s) ==> i > 0 && m < |s| && Trimmed(s[m..]);
      [s[..i]] + Split(s[m..])
  }

  /** `markdownText.trim() ? markdownText.trim().split(/\s+/).length : 0`. */
  function WordCount(text: string): nat {
    var t := Trim(text);
    if t == [] then 0 else |Split(t)|
  }

  // ---------------------------------------------------------------------------
  // The reference count: positions where a word begins.

  /** A word begins at i: a character outside `\s` at the start or after whitespace. */
  predicate IsStart(s: string, i: nat)
    requires i < |s|
  {
    !IsSpace(s[i]) && (i == 0 || IsSpace(s[i - 1]))
  }

  /** Number of word beginnings at or after `from`: the maximal runs of non-whitespace. */
  function CountStarts(s: string, from: nat): nat
    requires from <= |s|
    decreases |s| - from
  {
    if from == |s| then 0
    else (if IsStart(s, from) then 1 else 0) + CountStarts(s, from + 1)
  }

  /** Word beginnings do not depend on text before a whitespace boundary. */
  lemma {:induction false} StartsAfterBoundary(s: string, m: nat, k: nat)
    requires m <= k <= |s|
    requires m == 0 || IsSpace(s[m - 1])
    ensures CountStarts(s, k) == CountStarts(s[m..], k - m)
    decreases |s| - k
  {
    if k < |s| {
      StartsAfterBoundary(s, m, k + 1);
      assert s[m..][k - m] == s[k];
      assert k > m ==> s[m..][k - m - 1] == s[k - 1];
      assert IsStart(s, k) == IsStart(s[m..], k - m);
    }
  }

  /** A stretch without word beginnings adds nothing to the count. */
  lemma {:induction false} NoStartsBetween(s: string, a: nat, b: nat)
    requires a <= b <= |s|
    requires forall i :: a <= i < b ==> !IsStart(s, i)
    ensures CountStarts(s, a) == CountStarts(s, b)
    decreases b - a
  {
    if a < b {
      NoStartsBetween(s, a + 1, b);
    }
  }

  /** Trailing whitespace holds no word beginning. */
  lemma {:induction false} StartsBeforeTrailingSpace(u: string, n: nat, k: nat)
    requires k <= n <= |u|
    requires forall i :: n <= i < |u| ==> IsSpace(u[i])
    ensures CountStarts(u, k) == CountStarts(u[..n], k)
    decreases n - k
  {
    if k == n {
      NoStartsBetween(u, n, |u|);
    } else {
      StartsBeforeTrailingSpace(u, n, k + 1);
      assert u[..n][k] == u[k];
      assert k > 0 ==> u[..n][k - 1] == u[k - 1];
      assert IsStart(u, k) == IsStart(u[..n], k);
    }
  }

  /** On trimmed text the split has one piece per word. */
  lemma {:induction false} SplitCountsStarts(s: string)
    requires Trimmed(s)
    ensures |Split(s)| == CountStarts(s, 0)
    decreases |s|
  {
    match FirstSpace(s, 0)
    case None =>
      OneWordCounted(s);
    case Some(i) =>
      var m := i + Run(s[i..], Space);
      FirstWordCounted(s, i, m);
      assert Split(s) == [s[..i]] + Split(s[m..]);
      SplitCountsStarts(s[m..]);
  }

  /** Trimmed text without whitespace is one word. */
  lemma OneWordCounted(s: string)
    requires Trimmed(s) && FirstSpace(s, 0).None?
    ensures CountStarts(s, 0) == 1
  {
    assert forall i :: 1 <= i < |s| ==> !IsStart(s, i);
    NoStartsBetween(s, 1, |s|);
  }

  /** The first word of trimmed text and the whitespace after it count one word
      beginning; the rest is counted from the next word on. */
  lemma FirstWordCounted(s: string, i: nat, m: nat)
    requires Trimmed(s) && FirstSpace(s, 0) == Some(i) && m == i + Run(s[i..], Space)
    ensures m < |s| && Trimmed(s[m..])
    ensures CountStarts(s, 0) == 1 + CountStarts(s[m..], 0)
  {
    assert forall j :: i <= j < m ==> s[j] == s[i..][j - i];
    assert m < |s| && Trimmed(s[m..]);
    assert forall j :: 1 <= j < m ==> !IsStart(s, j);
    NoStartsBetween(s, 1, m);
    StartsAfterBoundary(s, m, m);
  }

  /** The word count is the number of maximal runs of non-whitespace characters. */
  lemma WordCountIsRuns(text: string)
    ensures WordCount(text) == CountStarts(text, 0)
  {
    var a := Run(text, Space);
    var t := Trim(text);
    NoStartsBetween(text, 0, a);
    StartsAfterBoundary(text, a, a);
    var u := text[a..];
    assert u[..|t|] == t;
    StartsBeforeTrailingSpace(u, |t|, 0);
    if t == [] {
      NoStartsBetween(t, 0, 0);
    } else {
      SplitCountsStarts(t);
    }
  }

  /** The count is zero exactly when the text is all whitespace. */
  lemma WordCountZeroIff(text: string)
    ensures WordCount(text) == 0 <==> forall i :: 0 <= i < |text| ==> IsSpace(text[i])
  {
    var a := Run(text, Space);
    var t := Trim(text);
    if t == [] {
      assert forall i :: 0 <= i < |text| ==> IsSpace(text[i]);
    } else {
      assert !IsSpace(text[a]);
    }
  }

  /** Runs of several spaces separate words like a single one. */
  lemma WordCountExample(s: string)
    requires Spells(s, "a b  c")
    ensures WordCount(s) == 3
  {
    WordCountIsRuns(s);
    assert IsStart(s, 0) && IsStart(s, 2) && IsStart(s, 5);
    assert !IsStart(s, 1) && !IsStart(s, 3) && !IsStart(s, 4);
    assert CountStarts(s, 5) == 1;
    assert CountStarts(s, 4) == 1;
    assert CountStarts(s, 3) == 1;
    assert CountStarts(s, 2) == 2;
    assert CountStarts(s, 1) == 2;
    assert CountStarts(s, 0) == 3;
  }
}
