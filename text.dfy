/** Python string primitives the core relies on: `str.isspace` (which is also what
    `\s` matches in a `str` regex), ASCII `\d`, `str.lower`, `str.strip`,
    `str.startswith`, the `in` substring test, `str.replace` for one character,
    and decimal rendering and parsing of natural numbers. */
module Text {

  /** `str.isspace()` and the regex class `\s`: the characters CPython classifies as whitespace. */
  predicate IsSpace(c: char) {
    || c == ' '
    || ('\t' <= c <= '\r')
    || ('\U{1C}' <= c <= '\U{1F}')
    || c == '\U{85}' || c == '\U{A0}' || c == '\U{1680}'
    || ('\U{2000}' <= c <= '\U{200A}')
    || c == '\U{2028}' || c == '\U{2029}' || c == '\U{202F}' || c == '\U{205F}' || c == '\U{3000}'
  }

  /** The regex class `\d`, restricted to ASCII digits. */
  predicate IsDigit(c: char) {
    '0' <= c <= '9'
  }

  predicate IsUpper(c: char) {
    'A' <= c <= 'Z'
  }

  function DigitChar(d: nat): (c: char)
    requires d < 10
    ensures IsDigit(c) && DigitValue(c) == d
  {
    ('0' as int + d) as char
  }

  function DigitValue(c: char): nat {
    if IsDigit(c) then (c as int - '0' as int) else 0
  }

  predicate AllDigits(s: string) {
    forall i :: 0 <= i < |s| ==> IsDigit(s[i])
  }

  function LowerChar(c: char): char {
    if IsUpper(c) then (c as int + 32) as char else c
  }

  /** `str.lower()` on the ASCII letters. */
  function Lower(s: string): (r: string)
    ensures |r| == |s|
    ensures forall i :: 0 <= i < |s| ==> r[i] == LowerChar(s[i])
  {
    seq(|s|, i requires 0 <= i < |s| => LowerChar(s[i]))
  }

  /** `t` occurs in `s` starting at index `p`. */
  predicate StartsAt(s: string, p: nat, t: string) {
    p + |t| <= |s| && s[p..p + |t|] == t
  }

  /** `^` in multi-line mode: the start of the text or just after a newline. */
  predicate LineStart(s: string, i: nat) {
    i == 0 || (i <= |s| && s[i - 1] == '\n')
  }

  /** `$` in multi-line mode: the end of the text or just before a newline. */
  predicate LineEnd(s: string, i: nat) {
    i == |s| || (i < |s| && s[i] == '\n')
  }

  /** Python's `t in s`, by scanning left to right. */
  function Contains(s: string, t: string): (r: bool)
    ensures r <==> exists i: nat :: i <= |s| && StartsAt(s, i, t)
    decreases |s|
  {
    if |s| < |t| then false
    else if s[..|t|] == t then
      assert StartsAt(s, 0, t);
      true
    else if s == [] then false
    else
      var rest := Contains(s[1..], t);
      assert forall i: nat :: i + 1 <= |s| && StartsAt(s, i + 1, t) ==> StartsAt(s[1..], i, t) by {
        forall i: nat | i + 1 <= |s| && StartsAt(s, i + 1, t) ensures StartsAt(s[1..], i, t) {
          assert s[1..][i..i + |t|] == s[i + 1..i + 1 + |t|];
        }
      }
      assert forall i: nat :: StartsAt(s[1..], i, t) ==> StartsAt(s, i + 1, t) by {
        forall i: nat | StartsAt(s[1..], i, t) ensures StartsAt(s, i + 1, t) {
          assert s[1..][i..i + |t|] == s[i + 1..i + 1 + |t|];
        }
      }
      assert forall i: nat :: StartsAt(s, i, t) && i > 0 ==> StartsAt(s[1..], i - 1, t);
      rest
  }

  /** A needle holding a character that the haystack lacks never occurs in it. */
  lemma MissingCharNeverContained(s: string, t: string, j: nat)
    requires j < |t|
    requires forall i :: 0 <= i < |s| ==> s[i] != t[j]
    ensures !Contains(s, t)
  {
    forall i: nat | i <= |s|
      ensures !StartsAt(s, i, t)
    {
      if i + |t| <= |s| {
        assert s[i..i + |t|][j] == s[i + j];
      }
    }
  }

  /** Length of the longest run of whitespace starting at `p`. */
  function SpaceRun(s: string, p: nat): (n: nat)
    requires p <= |s|
    ensures p + n <= |s|
    ensures forall i :: p <= i < p + n ==> IsSpace(s[i])
    ensures p + n == |s| || !IsSpace(s[p + n])
    decreases |s| - p
  {
    if p < |s| && IsSpace(s[p]) then 1 + SpaceRun(s, p + 1) else 0
  }

  /** The run is exactly the `w` whitespace characters at `p`. */
  lemma {:induction false} SpaceRunIs(s: string, p: nat, w: nat)
    requires p + w <= |s|
    requires forall i :: p <= i < p + w ==> IsSpace(s[i])
    requires p + w == |s| || !IsSpace(s[p + w])
    ensures SpaceRun(s, p) == w
    decreases w
  {
    if w > 0 {
      SpaceRunIs(s, p + 1, w - 1);
    }
  }

  /** One whitespace character followed by another character. */
  lemma SpaceRunOne(s: string, p: nat)
    requires p + 1 < |s| && IsSpace(s[p]) && !IsSpace(s[p + 1])
    ensures SpaceRun(s, p) == 1
  {
    SpaceRunIs(s, p, 1);
  }

  /** A run starting before a non-whitespace character at `b - 1` ends before it. */
  lemma SpaceRunBefore(s: string, p: nat, b: nat)
    requires p < b <= |s| && !IsSpace(s[b - 1])
    ensures p + SpaceRun(s, p) < b
  {
  }

  /** Number of whitespace characters at the front of `s`. */
  function LeadingSpaces(s: string): (n: nat)
    ensures n <= |s|
    ensures forall i :: 0 <= i < n ==> IsSpace(s[i])
    ensures n == |s| || !IsSpace(s[n])
  {
    SpaceRun(s, 0)
  }

  /** Number of whitespace characters at the back of `s`. */
  function TrailingSpaces(s: string): (n: nat)
    ensures n <= |s|
    ensures forall i :: |s| - n <= i < |s| ==> IsSpace(s[i])
    ensures n == |s| || !IsSpace(s[|s| - n - 1])
  {
    if s != [] && IsSpace(s[|s| - 1]) then 1 + TrailingSpaces(s[..|s| - 1]) else 0
  }

  /** `str.strip()`: the longest middle part that neither starts nor ends with whitespace;
      only whitespace is removed from either end. */
  function Strip(s: string): (r: string)
    ensures r == [] || (!IsSpace(r[0]) && !IsSpace(r[|r| - 1]))
    ensures exists a: nat, b: nat ::
              && a <= b <= |s| && r == s[a..b]
              && (forall i :: 0 <= i < a ==> IsSpace(s[i]))
              && (forall i :: b <= i < |s| ==> IsSpace(s[i]))
  {
    var a := LeadingSpaces(s);
    if a == |s| then
      assert s[a..a] == [];
      []
    else
      var b := |s| - TrailingSpaces(s[a..]);
      assert s[a..][..b - a] == s[a..b];
      s[a..b]
  }

  /** `strip()` keeps only characters of the text it is given: a property every character
      of the text has, every character of the result has. */
  lemma StripKeeps(g: string, P: char -> bool)
    requires forall k :: 0 <= k < |g| ==> P(g[k])
    ensures forall k :: 0 <= k < |Strip(g)| ==> P(Strip(g)[k])
  {
    var n := Strip(g);
    var a: nat, b: nat :| a <= b <= |g| && n == g[a..b];
    assert forall k :: 0 <= k < |n| ==> n[k] == g[a + k];
  }

  /** A property every character of `s[a..b]` has, stated over the slice. */
  lemma SliceKeeps(s: string, a: nat, b: nat, P: char -> bool)
    requires a <= b <= |s|
    requires forall k :: a <= k < b ==> P(s[k])
    ensures forall k :: 0 <= k < |s[a..b]| ==> P(s[a..b][k])
  {
    assert forall k :: 0 <= k < b - a ==> s[a..b][k] == s[a + k];
  }

  /** Text that neither starts nor ends with whitespace is left as it is by `strip()`. */
  lemma StripUnchanged(s: string)
    requires s == [] || (!IsSpace(s[0]) && !IsSpace(s[|s| - 1]))
    ensures Strip(s) == s
  {
    if s != [] {
      assert LeadingSpaces(s) == 0;
      assert s[0..] == s;
      assert TrailingSpaces(s) == 0;
      assert s[0..|s|] == s;
    }
  }

  /** Text that begins and ends with a digit has nothing to strip. */
  lemma StripDigitEnds(s: string)
    requires s != [] && IsDigit(s[0]) && IsDigit(s[|s| - 1])
    ensures Strip(s) == s
  {
    StripUnchanged(s);
  }

  /** Text made of whitespace only is stripped to nothing. */
  lemma StripAllSpaces(s: string)
    requires forall i :: 0 <= i < |s| ==> IsSpace(s[i])
    ensures Strip(s) == []
  {
  }

  /** `s.replace(from, to)` for single characters. */
  function ReplaceChar(s: string, from: char, to: char): (r: string)
    ensures |r| == |s|
    ensures forall i :: 0 <= i < |s| ==> r[i] == if s[i] == from then to else s[i]
  {
    seq(|s|, i requires 0 <= i < |s| => if s[i] == from then to else s[i])
  }

  /** `str(n)` for a natural number. */
  function NatToString(n: nat): (r: string)
    ensures |r| >= 1 && AllDigits(r)
    decreases n
  {
    if n < 10 then [DigitChar(n)] else NatToString(n / 10) + [DigitChar(n % 10)]
  }

  /** A number below 100 as two digits, with a leading zero. */
  function Pad2(n: nat): (r: string)
    requires n < 100
    ensures |r| == 2 && AllDigits(r)
  {
    [DigitChar(n / 10), DigitChar(n % 10)]
  }

  lemma DigitsValueOfPair(a: char, b: char)
    ensures DigitsValue([a, b]) == DigitValue(a) * 10 + DigitValue(b)
  {
    assert [a, b][..1] == [a];
    assert [a][..0] == [];
    assert DigitsValue([a]) == DigitValue(a);
    assert DigitsValue([a, b]) == DigitsValue([a]) * 10 + DigitValue(b);
  }

  /** Two padded digits read back as the number. */
  lemma Pad2Digits(n: nat)
    requires n < 100
    ensures DigitsValue(Pad2(n)) == n
  {
    DigitsValueOfPair(DigitChar(n / 10), DigitChar(n % 10));
  }

  /** `s.replace(c, '')`: every occurrence of `c` removed. */
  function RemoveChar(s: string, c: char): (r: string)
    ensures c !in r
    ensures |r| <= |s|
  {
    if s == [] then []
    else RemoveChar(s[..|s| - 1], c) + (if s[|s| - 1] == c then [] else [s[|s| - 1]])
  }

  /** Removing a character distributes over concatenation. */
  lemma {:induction false} RemoveCharAppend(a: string, b: string, c: char)
    ensures RemoveChar(a + b, c) == RemoveChar(a, c) + RemoveChar(b, c)
    decreases |b|
  {
    if b == [] {
      assert a + b == a;
    } else {
      var n := |b| - 1;
      assert (a + b)[..|a + b| - 1] == a + b[..n];
      RemoveCharAppend(a, b[..n], c);
    }
  }

  /** A text without `c` is left as it is. */
  lemma {:induction false} RemoveAbsentChar(s: string, c: char)
    requires c !in s
    ensures RemoveChar(s, c) == s
  {
    if s != [] {
      RemoveAbsentChar(s[..|s| - 1], c);
    }
  }

  /** `int(s)` for a string of ASCII digits (an empty string reads as 0). */
  function DigitsValue(s: string): nat
  {
    if s == [] then 0 else DigitsValue(s[..|s| - 1]) * 10 + DigitValue(s[|s| - 1])
  }

  /** Rendering a number in decimal and reading it back gives the number. */
  lemma {:induction false} NatToStringRoundTrip(n: nat)
    ensures DigitsValue(NatToString(n)) == n
    decreases n
  {
    var r := NatToString(n);
    if n >= 10 {
      NatToStringRoundTrip(n / 10);
      assert r[..|r| - 1] == NatToString(n / 10);
    }
  }

  /** Reading a digit string is a left fold, so it splits at any point. */
  lemma {:induction false} DigitsValueAppend(a: string, b: string)
    ensures DigitsValue(a + b) == DigitsValue(a) * Pow10(|b|) + DigitsValue(b)
    decreases |b|
  {
    if b == [] {
      assert a + b == a;
    } else {
      var b' := b[..|b| - 1];
      var d := DigitValue(b[|b| - 1]);
      assert (a + b)[..|a + b| - 1] == a + b';
      assert (a + b)[|a + b| - 1] == b[|b| - 1];
      DigitsValueAppend(a, b');
      var x, p, y := DigitsValue(a), Pow10(|b'|), DigitsValue(b');
      calc {
        DigitsValue(a + b);
        DigitsValue(a + b') * 10 + d;
        (x * p + y) * 10 + d;
        { MulAddDistributes(x, p, y); }
        x * (p * 10) + (y * 10 + d);
        x * Pow10(|b|) + DigitsValue(b);
      }
    }
  }

  lemma MulAddDistributes(x: nat, p: nat, y: nat)
    ensures (x * p + y) * 10 == x * (p * 10) + y * 10
  {
  }

  function Pow10(k: nat): (r: nat)
    ensures r >= 1
  {
    if k == 0 then 1 else 10 * Pow10(k - 1)
  }
}
