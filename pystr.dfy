/**
  The few Python `str` operations the relay relies on, over `seq<char>`:
  `str.strip()` with no argument and `str.split(sep, 1)` with a
  one-character separator.
 */
module PyStr {
  import opened Wrappers

  /** Python's `str.isspace` set, which is what `str.strip()` removes. */
  predicate IsWhitespace(c: char) {
    || ('\t' <= c <= '\r')                 // U+0009 .. U+000D
    || ('\U{001C}' <= c <= '\U{001F}')     // file, group, record, unit separators
    || c == ' '
    || c == '\U{0085}'
    || c == '\U{00A0}'
    || c == '\U{1680}'
    || ('\U{2000}' <= c <= '\U{200A}')
    || c == '\U{2028}'
    || c == '\U{2029}'
    || c == '\U{202F}'
    || c == '\U{205F}'
    || c == '\U{3000}'
  }

  predicate AllWhitespace(s: string) {
    forall k :: 0 <= k < |s| ==> IsWhitespace(s[k])
  }

  /** Neither end of `s` is whitespace: what `strip()` leaves behind. */
  predicate Trimmed(s: string) {
    s == [] || (!IsWhitespace(s[0]) && !IsWhitespace(s[|s| - 1]))
  }

  /** `s.lstrip()`: drops the leading whitespace of `s`. */
  function TrimStart(s: string): string
  {
    if s == [] || !IsWhitespace(s[0]) then s else TrimStart(s[1..])
  }

  /** `s.rstrip()`: drops the trailing whitespace of `s`. */
  function TrimEnd(s: string): string
  {
    if s == [] || !IsWhitespace(s[|s| - 1]) then s else TrimEnd(s[..|s| - 1])
  }

  /** `s.strip()`. */
  function Strip(s: string): string
  {
    TrimEnd(TrimStart(s))
  }

  /** Every string splits into a whitespace run and a rest that does not start with whitespace. */
  lemma {:induction false} LeadingRun(s: string) returns (i: nat)
    ensures i <= |s| && AllWhitespace(s[..i])
    ensures i == |s| || !IsWhitespace(s[i])
  {
    if s == [] || !IsWhitespace(s[0]) {
      i := 0;
    } else {
      var k := LeadingRun(s[1..]);
      i := k + 1;
      assert s[..i] == [s[0]] + s[1..][..k];
    }
  }

  /** Every string splits into a rest that does not end with whitespace and a whitespace run. */
  lemma {:induction false} TrailingRun(s: string) returns (j: nat)
    ensures j <= |s| && AllWhitespace(s[j..])
    ensures j == 0 || !IsWhitespace(s[j - 1])
  {
    if s == [] || !IsWhitespace(s[|s| - 1]) {
      j := |s|;
    } else {
      j := TrailingRun(s[..|s| - 1]);
      assert s[j..] == s[..|s| - 1][j..] + [s[|s| - 1]];
    }
  }

  /** `lstrip()` stops at the first character that is not whitespace. */
  lemma {:induction false} TrimStartAt(s: string, i: nat)
    requires i <= |s| && AllWhitespace(s[..i])
    requires i == |s| || !IsWhitespace(s[i])
    ensures TrimStart(s) == s[i..]
  {
    if i > 0 {
      assert s[0] == s[..i][0];
      assert s[1..][..i - 1] == s[1..i];
      TrimStartAt(s[1..], i - 1);
    }
  }

  /** `rstrip()` stops at the last character that is not whitespace. */
  lemma {:induction false} TrimEndAt(s: string, j: nat)
    requires j <= |s| && AllWhitespace(s[j..])
    requires j == 0 || !IsWhitespace(s[j - 1])
    ensures TrimEnd(s) == s[..j]
  {
    if j < |s| {
      assert s[|s| - 1] == s[j..][|s| - 1 - j];
      var t := s[..|s| - 1];
      assert t[j..] == s[j..|s| - 1];
      TrimEndAt(t, j);
    }
  }

  /** Where `Strip(s)` sits inside `s`: only whitespace lies around it, and none is left at its ends. */
  lemma {:induction false} StripSpan(s: string) returns (i: nat, j: nat)
    ensures i <= j <= |s| && Strip(s) == s[i..j]
    ensures AllWhitespace(s[..i]) && AllWhitespace(s[j..])
    ensures Trimmed(Strip(s))
  {
    i := LeadingRun(s);
    TrimStartAt(s, i);
    var t := s[i..];
    var k := TrailingRun(t);
    TrimEndAt(t, k);
    j := i + k;
    assert t[k..] == s[j..] && t[..k] == s[i..j];
    if k > 0 {
      assert s[i] == t[0];
    }
  }

  /** `StripSpan`'s last fact without its witnesses, for use inside functions. */
  lemma StripTrimmed(s: string)
    ensures Trimmed(Strip(s))
  {
    var i, j := StripSpan(s);
  }

  /** A concatenation of whitespace runs is a whitespace run. */
  lemma {:induction false} AllWhitespaceConcat(a: string, b: string)
    requires AllWhitespace(a) && AllWhitespace(b)
    ensures AllWhitespace(a + b)
  {
  }

  /**
    The independent characterisation of `strip()`: any infix of `s` with
    only whitespace around it and no whitespace at its ends is `Strip(s)`.
   */
  lemma {:induction false} StripUnique(s: string, i: nat, j: nat)
    requires i <= j <= |s|
    requires AllWhitespace(s[..i]) && AllWhitespace(s[j..])
    requires Trimmed(s[i..j])
    ensures Strip(s) == s[i..j]
  {
    if i < j {
      assert s[i] == s[i..j][0] && s[j - 1] == s[i..j][j - i - 1];
      TrimStartAt(s, i);
      var t := s[i..];
      assert t[j - i..] == s[j..] && t[j - i - 1] == s[j - 1];
      TrimEndAt(t, j - i);
      assert t[..j - i] == s[i..j];
    } else {
      assert s[..|s|] == s[..i] + s[j..];
      AllWhitespaceConcat(s[..i], s[j..]);
      TrimStartAt(s, |s|);
    }
  }

  /** Stripping twice is stripping once. */
  lemma {:induction false} StripIdempotent(s: string)
    ensures Strip(Strip(s)) == Strip(s)
  {
    var a, b := StripSpan(s);
    var r := Strip(s);
    assert r[..0] == [] && r[|r|..] == [] && r[0..|r|] == r;
    StripUnique(r, 0, |r|);
  }

  /** Padding `s` with whitespace moves a whitespace-bounded infix of `s` by `|w|`. */
  lemma {:induction false} PaddedSpan(w: string, s: string, w': string, a: nat, b: nat)
    requires AllWhitespace(w) && AllWhitespace(w')
    requires a <= b <= |s| && AllWhitespace(s[..a]) && AllWhitespace(s[b..])
    ensures AllWhitespace((w + s + w')[..|w| + a]) && AllWhitespace((w + s + w')[|w| + b..])
    ensures (w + s + w')[|w| + a..|w| + b] == s[a..b]
  {
    var p := w + s + w';
    assert p[..|w| + a] == w + s[..a] by {
      assert p[..|w| + a] == (w + s)[..|w| + a];
    }
    assert p[|w| + b..] == s[b..] + w' by {
      assert (w + s)[|w| + b..] == s[b..];
    }
    assert p[|w| + a..|w| + b] == (w + s)[|w| + a..|w| + b];
    AllWhitespaceConcat(w, s[..a]);
    AllWhitespaceConcat(s[b..], w');
  }

  /** Whitespace around a string does not change what `strip()` returns. */
  lemma {:induction false} StripPadded(w: string, s: string, w': string)
    requires AllWhitespace(w) && AllWhitespace(w')
    ensures Strip(w + s + w') == Strip(s)
  {
    var a, b := StripSpan(s);
    PaddedSpan(w, s, w', a, b);
    StripUnique(w + s + w', |w| + a, |w| + b);
  }

  /** `strip()` removes only whitespace, so a non-whitespace character survives it exactly when present. */
  lemma StripKeepsNonWhitespace(s: string, c: char)
    requires !IsWhitespace(c)
    ensures c in Strip(s) <==> c in s
  {
    var i, j := StripSpan(s);
    assert s == s[..i] + s[i..j] + s[j..];
    assert c !in s[..i];
    assert c !in s[j..];
  }

  /** Leading whitespace before `a` does not change the strip of what follows up to `i`. */
  lemma StripAfterLeading(raw: string, a: nat, i: nat)
    requires a <= i <= |raw| && AllWhitespace(raw[..a])
    ensures Strip(raw[a..i]) == Strip(raw[..i])
  {
    assert raw[..i] == raw[..a] + raw[a..i] + [];
    StripPadded(raw[..a], raw[a..i], []);
  }

  /** Trailing whitespace after `b` does not change the strip of what precedes it from `i`. */
  lemma StripBeforeTrailing(raw: string, i: nat, b: nat)
    requires i <= b <= |raw| && AllWhitespace(raw[b..])
    ensures Strip(raw[i..b]) == Strip(raw[i..])
  {
    assert raw[i..] == [] + raw[i..b] + raw[b..];
    StripPadded([], raw[i..b], raw[b..]);
  }

  /** A string with no whitespace at its ends is its own strip, and only such a string is. */
  lemma StripFixedPoint(s: string)
    ensures Strip(s) == s <==> Trimmed(s)
  {
    if Trimmed(s) {
      assert s[..0] == [] && s[|s|..] == [] && s[0..|s|] == s;
      StripUnique(s, 0, |s|);
    } else {
      StripTrimmed(s);
    }
  }

  /** A trimmed string with one space after it, or before it, strips back to itself. */
  lemma StripOneSpace(s: string)
    requires Trimmed(s)
    ensures Strip(s + " ") == s && Strip(" " + s) == s
  {
    var p, q := s + " ", " " + s;
    assert p[..0] == [] && p[|s|..] == " " && p[0..|s|] == s;
    StripUnique(p, 0, |s|);
    assert q[..1] == " " && q[|q|..] == [] && q[1..|q|] == s;
    StripUnique(q, 1, |q|);
  }

  /** The search behind `s.split(c, 1)`: the first index of `c`, if any. */
  function FindChar(s: string, c: char): (r: Option<nat>)
    ensures r.None? <==> c !in s
    ensures r.Some? ==> r.value < |s| && s[r.value] == c && c !in s[..r.value]
  {
    if s == [] then None
    else if s[0] == c then Some(0)
    else
      match FindChar(s[1..], c)
      case None => None
      case Some(k) =>
        assert s[..k + 1] == [s[0]] + s[1..][..k];
        Some(k + 1)
  }

  /** `s.split(sep, 1)`: `[s]` when `sep` is absent, else the parts around its first occurrence. */
  function SplitOnce(s: string, sep: char): (parts: seq<string>)
    ensures 1 <= |parts| <= 2
    ensures |parts| == 1 <==> sep !in s
    ensures sep !in parts[0]
    ensures Join(parts, sep) == s
  {
    match FindChar(s, sep)
    case None => [s]
    case Some(i) =>
      assert s == s[..i] + [sep] + s[i + 1..];
      [s[..i], s[i + 1..]]
  }

  /** `sep.join(parts)`: the inverse of splitting. */
  function Join(parts: seq<string>, sep: char): string
  {
    if parts == [] then []
    else if |parts| == 1 then parts[0]
    else parts[0] + [sep] + Join(parts[1..], sep)
  }

  /** Splitting at the first separator is the only split whose first part is separator-free. */
  lemma SplitOnceAt(s: string, sep: char, i: nat)
    requires i < |s| && s[i] == sep && sep !in s[..i]
    ensures SplitOnce(s, sep) == [s[..i], s[i + 1..]]
  {
  }
}
