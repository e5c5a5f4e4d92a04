/** Cleaning the argument of a `url(...)` declaration: surrounding
    whitespace, then one quote character at each end, then whitespace
    again (index.js:41-49). */
module UrlValue {

  /** The characters that ECMAScript's `String.prototype.trim` removes:
      WhiteSpace (tab, vertical tab, form feed, space, no-break space, the
      byte order mark and the other space separators) and LineTerminator. */
  predicate IsWhitespace(c: char) {
    c == '\t' || c == '\n' || c == '\U{000B}' || c == '\U{000C}' || c == '\r' ||
    c == ' ' || c == '\U{00A0}' || c == '\U{1680}' ||
    ('\U{2000}' <= c <= '\U{200A}') ||
    c == '\U{2028}' || c == '\U{2029}' || c == '\U{202F}' || c == '\U{205F}' ||
    c == '\U{3000}' || c == '\U{FEFF}'
  }

  predicate IsQuote(c: char) {
    c == '\'' || c == '"'
  }

  predicate AllWhitespace(s: string) {
    forall m :: 0 <= m < |s| ==> IsWhitespace(s[m])
  }

  /** No whitespace at either end. */
  predicate IsTrimmed(s: string) {
    s == [] || (!IsWhitespace(s[0]) && !IsWhitespace(s[|s| - 1]))
  }

  /** `r` occurs in `s` starting at offset `d`. */
  predicate IsInfixAt(r: string, s: string, d: nat) {
    d + |r| <= |s| && forall m :: 0 <= m < |r| ==> s[d + m] == r[m]
  }

  /** The index of the first non-whitespace character at or after `i`
      (`|s|` when there is none). */
  function SkipWhitespace(s: string, i: nat): (k: nat)
    requires i <= |s|
    ensures i <= k <= |s|
    ensures k < |s| ==> !IsWhitespace(s[k])
    decreases |s| - i
  {
    if i < |s| && IsWhitespace(s[i]) then SkipWhitespace(s, i + 1) else i
  }

  /** Walking back from `j` towards `lo`, the end of the last
      non-whitespace character (`lo` when there is none). */
  function SkipWhitespaceBack(s: string, lo: nat, j: nat): (k: nat)
    requires lo <= j <= |s|
    ensures lo <= k <= j
    ensures k > lo ==> !IsWhitespace(s[k - 1])
  {
    if j > lo && IsWhitespace(s[j - 1]) then SkipWhitespaceBack(s, lo, j - 1) else j
  }

  /** Only whitespace is skipped going forward. */
  lemma {:induction false} SkippedForward(s: string, i: nat)
    requires i <= |s|
    ensures AllWhitespace(s[i..SkipWhitespace(s, i)])
    decreases |s| - i
  {
    if i < |s| && IsWhitespace(s[i]) {
      SkippedForward(s, i + 1);
      assert s[i..SkipWhitespace(s, i)] == [s[i]] + s[i + 1..SkipWhitespace(s, i + 1)];
    }
  }

  /** Only whitespace is skipped going backward. */
  lemma {:induction false} SkippedBackward(s: string, lo: nat, j: nat)
    requires lo <= j <= |s|
    ensures AllWhitespace(s[SkipWhitespaceBack(s, lo, j)..j])
    decreases j
  {
    if j > lo && IsWhitespace(s[j - 1]) {
      SkippedBackward(s, lo, j - 1);
      assert s[SkipWhitespaceBack(s, lo, j)..j] == s[SkipWhitespaceBack(s, lo, j - 1)..j - 1] + [s[j - 1]];
    }
  }

  /** `String.prototype.trim`: what is left once the whitespace at both
      ends is gone (TrimIsInfix says where it sits in `s`). */
  function Trim(s: string): string {
    var a := SkipWhitespace(s, 0);
    s[a..SkipWhitespaceBack(s, a, |s|)]
  }

  /** `value.slice(begin, end)` where `begin` skips one leading quote and
      `end` drops one trailing quote, each end tested on its own; a slice
      whose begin passes its end is empty. */
  function StripQuotes(t: string): string {
    var b := if |t| > 0 && IsQuote(t[0]) then 1 else 0;
    var e := if |t| > 0 && IsQuote(t[|t| - 1]) then |t| - 1 else |t|;
    if b <= e then t[b..e] else ""
  }

  /** `trimUrlValue` (index.js:41-49). */
  function TrimUrlValue(value: string): string {
    Trim(StripQuotes(Trim(value)))
  }

  /** Neither end of a trimmed string is whitespace. */
  lemma TrimTrimmed(s: string)
    ensures IsTrimmed(Trim(s))
  {
    var a := SkipWhitespace(s, 0);
    var b := SkipWhitespaceBack(s, a, |s|);
    assert Trim(s) == s[a..b];
  }

  /** The cleaned value has no whitespace at either end, whatever quotes
      were removed. */
  lemma TrimUrlValueTrimmed(value: string)
    ensures IsTrimmed(TrimUrlValue(value))
  {
    TrimTrimmed(StripQuotes(Trim(value)));
  }

  /** A piece of a piece of `t` is a piece of `t`. */
  lemma InfixTransitive(r: string, s: string, t: string, d1: nat, d2: nat)
    requires IsInfixAt(s, t, d1) && IsInfixAt(r, s, d2)
    ensures IsInfixAt(r, t, d1 + d2)
  {
    forall m | 0 <= m < |r|
      ensures t[d1 + d2 + m] == r[m]
    {
      assert r[m] == s[d2 + m];
    }
  }

  /** Trimming removes exactly the whitespace padding around an already
      trimmed string. */
  lemma TrimPadded(w1: string, t: string, w2: string)
    requires AllWhitespace(w1) && AllWhitespace(w2) && IsTrimmed(t)
    ensures Trim(w1 + t + w2) == t
  {
    var s := w1 + t + w2;
    var n := |w1| + |t|;
    assert forall x :: 0 <= x < |w1| ==> s[x] == w1[x];
    assert forall x :: n <= x < |s| ==> s[x] == w2[x - n];
    if t == [] {
      SkipWhitespaceStops(s, 0, |s|);
    } else {
      assert s[|w1|] == t[0] && s[n - 1] == t[|t| - 1];
      SkipWhitespaceStops(s, 0, |w1|);
      SkipWhitespaceBackStops(s, |w1|, |s|, n);
      assert s[|w1|..n] == t;
    }
  }

  /** Skipping forward from `i` stops at `m` when only whitespace lies
      between them and `m` is not whitespace. */
  lemma {:induction false} SkipWhitespaceStops(s: string, i: nat, m: nat)
    requires i <= m <= |s|
    requires forall x :: i <= x < m ==> IsWhitespace(s[x])
    requires m < |s| ==> !IsWhitespace(s[m])
    ensures SkipWhitespace(s, i) == m
    decreases m - i
  {
    if i < m {
      SkipWhitespaceStops(s, i + 1, m);
    }
  }

  /** Skipping backward from `j` stops at `m` when only whitespace lies
      between them and the character before `m` is not whitespace. */
  lemma {:induction false} SkipWhitespaceBackStops(s: string, lo: nat, j: nat, m: nat)
    requires lo <= m <= j <= |s|
    requires forall x :: m <= x < j ==> IsWhitespace(s[x])
    requires m > lo ==> !IsWhitespace(s[m - 1])
    ensures SkipWhitespaceBack(s, lo, j) == m
    decreases j - m
  {
    if m < j {
      SkipWhitespaceBackStops(s, lo, j - 1, m);
    }
  }

  /** A trimmed value between two quote characters, padded with whitespace,
      comes back as it was; the two quotes need not be the same character. */
  lemma TrimUrlValueQuoted(w1: string, q1: char, x: string, q2: char, w2: string)
    requires AllWhitespace(w1) && AllWhitespace(w2)
    requires IsQuote(q1) && IsQuote(q2)
    requires IsTrimmed(x)
    ensures TrimUrlValue(w1 + [q1] + x + [q2] + w2) == x
  {
    var t := [q1] + x + [q2];
    assert w1 + [q1] + x + [q2] + w2 == w1 + t + w2;
    TrimPadded(w1, t, w2);
    assert StripQuotes(t) == x;
    TrimPadded([], x, []);
    assert [] + x + [] == x;
  }

  /** A trimmed value that neither starts nor ends with a quote, padded with
      whitespace, comes back as it was. */
  lemma TrimUrlValueBare(w1: string, x: string, w2: string)
    requires AllWhitespace(w1) && AllWhitespace(w2)
    requires IsTrimmed(x)
    requires x == [] || (!IsQuote(x[0]) && !IsQuote(x[|x| - 1]))
    ensures TrimUrlValue(w1 + x + w2) == x
  {
    TrimPadded(w1, x, w2);
    assert StripQuotes(x) == x;
    TrimPadded([], x, []);
    assert [] + x + [] == x;
  }

  /** A single quote character, with any padding, becomes the empty string:
      the slice would have to begin after its own end. */
  lemma TrimUrlValueLoneQuote(w1: string, q: char, w2: string)
    requires AllWhitespace(w1) && AllWhitespace(w2)
    requires IsQuote(q)
    ensures TrimUrlValue(w1 + [q] + w2) == ""
  {
    TrimPadded(w1, [q], w2);
    assert StripQuotes([q]) == "";
  }

  /** Trimming keeps a contiguous piece of `s`: the part from the first to
      the last non-whitespace character. */
  lemma TrimIsInfix(s: string) returns (d: nat)
    ensures IsInfixAt(Trim(s), s, d)
    ensures d == SkipWhitespace(s, 0)
  {
    d := SkipWhitespace(s, 0);
  }

  /** Everything trimming drops, before and after what it keeps (which
      starts at the offset TrimIsInfix gives), is whitespace. */
  lemma TrimDropsWhitespace(s: string)
    ensures AllWhitespace(s[..SkipWhitespace(s, 0)])
    ensures AllWhitespace(s[SkipWhitespace(s, 0) + |Trim(s)|..])
  {
    var d := SkipWhitespace(s, 0);
    SkippedForward(s, 0);
    SkippedBackward(s, d, |s|);
    var e := SkipWhitespaceBack(s, d, |s|);
    assert d + |Trim(s)| == e;
    assert s[..d] == s[0..d] && s[e..] == s[e..|s|];
  }

  /** Stripping removes at most one character from each end, each of them
      a quote, and removes something exactly when an end is a quote. */
  lemma StripQuotesIsInfix(t: string) returns (d: nat)
    ensures IsInfixAt(StripQuotes(t), t, d)
    ensures d <= 1 && |t| - 1 <= d + |StripQuotes(t)|
    ensures d == 1 ==> IsQuote(t[0])
    ensures d + |StripQuotes(t)| < |t| ==> IsQuote(t[|t| - 1])
    ensures |t| >= 2 ==> (d == 1 <==> IsQuote(t[0])) && (d + |StripQuotes(t)| < |t| <==> IsQuote(t[|t| - 1]))
    ensures StripQuotes(t) == t <==> t == [] || (!IsQuote(t[0]) && !IsQuote(t[|t| - 1]))
  {
    var u := StripQuotes(t);
    d := if |t| > 0 && IsQuote(t[0]) && |t| >= 2 then 1 else 0;
    if t != [] && (IsQuote(t[0]) || IsQuote(t[|t| - 1])) {
      assert |u| < |t|;
    }
  }

  /** The cleaned value is a contiguous piece of the original argument. */
  lemma TrimUrlValueIsInfix(value: string) returns (d: nat)
    ensures IsInfixAt(TrimUrlValue(value), value, d)
  {
    var d1 := SkipWhitespace(value, 0);
    assert IsInfixAt(Trim(value), value, d1) by {
      var _ := TrimIsInfix(value);
    }
    var d2 := StripQuotesIsInfix(Trim(value));
    var d3 := SkipWhitespace(StripQuotes(Trim(value)), 0);
    assert IsInfixAt(TrimUrlValue(value), StripQuotes(Trim(value)), d3) by {
      var _ := TrimIsInfix(StripQuotes(Trim(value)));
    }
    InfixTransitive(StripQuotes(Trim(value)), Trim(value), value, d1, d2);
    InfixTransitive(TrimUrlValue(value), StripQuotes(Trim(value)), value, d1 + d2, d3);
    d := d1 + d2 + d3;
  }
}
