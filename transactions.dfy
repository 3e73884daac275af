/** The transaction lines of a statement (main.py:253-264): the multi-line pattern
    `^(\d{2}/\d{2}/\d{2})\s+.*?\s+(-?[\d,]+\.\d{2})$`, applied with `findall`, and the
    list of `{date, value}` entries built from what it captures. The functions follow
    the regex engine's order of attempts: the first `\s+` gives characters back one at
    a time, the lazy `.*?` grows one character at a time within a line, the second
    `\s+` gives characters back one at a time, and `-?` is tried with the sign first. */
module Transactions {
  import opened Wrappers
  import opened Text
  import opened Amount
  import opened Scan

  /** `\d{2}/\d{2}/\d{2}` at `i`. */
  predicate IsDateAt(s: string, i: nat) {
    && i + 8 <= |s|
    && IsDigit(s[i]) && IsDigit(s[i + 1]) && s[i + 2] == '/'
    && IsDigit(s[i + 3]) && IsDigit(s[i + 4]) && s[i + 5] == '/'
    && IsDigit(s[i + 6]) && IsDigit(s[i + 7])
  }

  /** `(-?[\d,]+\.\d{2})$` at `r`, with the sign tried first; where the value ends. */
  function ValueAt(s: string, r: nat): (e: Option<nat>)
    requires r <= |s|
    ensures e.Some? ==> r + 4 <= e.value <= |s|
  {
    var signed := if r < |s| && s[r] == '-' then AmountAt(s, r + 1) else None;
    if signed.Some? && LineEnd(s, signed.value) then signed
    else
      var unsigned := AmountAt(s, r);
      if unsigned.Some? && LineEnd(s, unsigned.value) then unsigned else None
  }

  /** The value tried at every position of the text. */
  function ValueAttempts(s: string): (r: seq<Option<nat>>)
    ensures |r| == |s| + 1
    ensures forall j :: 0 <= j <= |s| ==> r[j] == ValueAt(s, j)
  {
    seq(|s| + 1, j requires 0 <= j <= |s| => ValueAt(s, j))
  }

  /** `\s+` from `q` then the value, the run holding `w` characters and giving them back
      one at a time; where the value starts and ends. */
  function SecondGap(s: string, q: nat, w: nat): (r: Option<(nat, nat)>)
    requires q + w <= |s|
    ensures r.Some? ==> q < r.value.0 && r.value.0 + 4 <= r.value.1 <= |s|
  {
    match Backtrack(ValueAttempts(s), q, w)
    case None => None
    case Some(j) => Some((j, ValueAttempts(s)[j].value))
  }

  /** The second `\s+` and the value, tried at every position of the text. */
  function GapAttempts(s: string): (r: seq<Option<(nat, nat)>>)
    ensures |r| == |s| + 1
    ensures forall t :: 0 <= t <= |s| ==> r[t] == SecondGap(s, t, SpaceRun(s, t))
  {
    seq(|s| + 1, t requires 0 <= t <= |s| => SecondGap(s, t, SpaceRun(s, t)))
  }

  /** `.*?\s+` and the value from `p`: the lazy part tries the rest first and grows by one
      character, never across a newline. */
  function LazyTail(s: string, p: nat): (r: Option<(nat, nat)>)
    requires p <= |s|
    ensures r.Some? ==> p < r.value.0 && r.value.0 + 4 <= r.value.1 <= |s|
  {
    match LazyFrom(GapAttempts(s), s, p)
    case None => None
    case Some(t) => GapAttempts(s)[t]
  }

  /** The lazy part and all that follows it, tried at every position of the text. */
  function LazyAttempts(s: string): (r: seq<Option<(nat, nat)>>)
    ensures |r| == |s| + 1
    ensures forall p :: 0 <= p <= |s| ==> r[p] == LazyTail(s, p)
  {
    seq(|s| + 1, p requires 0 <= p <= |s| => LazyTail(s, p))
  }

  /** The first `\s+` from `d` and all that follows it, the run holding `w` characters
      and giving them back one at a time. */
  function FirstGap(s: string, d: nat, w: nat): (r: Option<(nat, nat)>)
    requires d + w <= |s|
    ensures r.Some? ==> d < r.value.0 && r.value.0 + 4 <= r.value.1 <= |s|
  {
    match Backtrack(LazyAttempts(s), d, w)
    case None => None
    case Some(p) => LazyAttempts(s)[p]
  }

  /** A match: where it starts (the date is the 8 characters there), where the value
      starts and where the match ends. */
  datatype TxMatch = TxMatch(start: nat, valueStart: nat, end: nat)

  /** The pattern at `i`. */
  function TxMatchAt(s: string, i: nat): (r: Option<TxMatch>)
    requires i <= |s|
    ensures r.Some? ==> r.value.start == i && i + 8 < r.value.valueStart && r.value.valueStart + 4 <= r.value.end <= |s|
  {
    if LineStart(s, i) && IsDateAt(s, i) then
      var g := FirstGap(s, i + 8, SpaceRun(s, i + 8));
      if g.Some? then Some(TxMatch(i, g.value.0, g.value.1)) else None
    else None
  }

  /** The attempt at every start position of the text, in order. */
  function Attempts(s: string): (r: seq<Option<TxMatch>>)
    ensures |r| == |s| + 1
    ensures forall j :: 0 <= j <= |s| ==> r[j] == TxMatchAt(s, j)
  {
    seq(|s| + 1, j requires 0 <= j <= |s| => TxMatchAt(s, j))
  }

  /** Where a match ends. */
  function MatchEnd(m: TxMatch): nat {
    m.end
  }

  /** `findall` from `pos`: where the matches it reports start. */
  function FindAll(s: string, pos: nat): (r: seq<nat>)
    requires pos <= |s|
    ensures forall k :: 0 <= k < |r| ==> pos <= r[k] <= |s| && TxMatchAt(s, r[k]).Some?
  {
    AllFrom(Attempts(s), MatchEnd, pos)
  }

  /** One entry of `transactions_list`; the value is in cents. */
  datatype Transaction = Transaction(date: string, value: int)

  /** The text a match captures as its value: an amount, possibly with a leading `-`. */
  predicate IsValueText(t: string) {
    IsAmount(t) || (|t| > 0 && t[0] == '-' && IsAmount(t[1..]))
  }

  /** The two groups the match at `i` captures: its date and its value text. */
  function GroupsAt(s: string, i: nat): (g: (string, string))
    requires i <= |s| && TxMatchAt(s, i).Some?
    ensures IsValueText(g.1)
  {
    MatchValueShape(s, i);
    var m := TxMatchAt(s, i).value;
    (s[i..i + 8], s[m.valueStart..m.end])
  }

  /** What `findall` returns: the groups of each match, in the order the matches are found. */
  function Matches(s: string): (r: seq<(string, string)>)
    ensures |r| == |FindAll(s, 0)|
    ensures forall k :: 0 <= k < |r| ==> r[k] == GroupsAt(s, FindAll(s, 0)[k]) && IsValueText(r[k].1)
  {
    var starts := FindAll(s, 0);
    seq(|starts|, k requires 0 <= k < |starts| => GroupsAt(s, starts[k]))
  }

  /** The entry appended for one match: its date, and `float(value_str.replace(',', ''))`. */
  function Entry(g: (string, string)): Transaction
    requires IsValueText(g.1)
  {
    Transaction(g.0, SignedCents(g.1))
  }

  /** The entry built from the match at `i`. */
  function TransactionOf(s: string, i: nat): Transaction
    requires i <= |s| && TxMatchAt(s, i).Some?
  {
    Entry(GroupsAt(s, i))
  }

  /** `structured_data["transactions"]`: one entry per match, in order. */
  function Transactions(s: string): (r: seq<Transaction>)
    ensures |r| == |FindAll(s, 0)|
    ensures forall k :: 0 <= k < |r| ==> r[k] == TransactionOf(s, FindAll(s, 0)[k])
  {
    var m := Matches(s);
    seq(|m|, k requires 0 <= k < |m| => Entry(m[k]))
  }

  // ---- The captured value has the shape `float` is given ----

  lemma ValueShape(s: string, r: nat)
    requires r <= |s| && ValueAt(s, r).Some?
    ensures IsValueText(s[r..ValueAt(s, r).value])
  {
    var e := ValueAt(s, r).value;
    var t := s[r..e];
    if r < |s| && s[r] == '-' && AmountAt(s, r + 1) == Some(e) {
      AmountAtShape(s, r + 1);
      assert t[1..] == s[r + 1..e];
    } else {
      AmountAtShape(s, r);
    }
  }

  lemma SecondGapShape(s: string, q: nat, w: nat)
    requires q + w <= |s| && SecondGap(s, q, w).Some?
    ensures IsValueText(s[SecondGap(s, q, w).value.0..SecondGap(s, q, w).value.1])
  {
    ValueShape(s, Backtrack(ValueAttempts(s), q, w).value);
  }

  lemma LazyTailShape(s: string, p: nat)
    requires p <= |s| && LazyTail(s, p).Some?
    ensures IsValueText(s[LazyTail(s, p).value.0..LazyTail(s, p).value.1])
  {
    var t := LazyFrom(GapAttempts(s), s, p).value;
    SecondGapShape(s, t, SpaceRun(s, t));
  }

  lemma FirstGapShape(s: string, d: nat, w: nat)
    requires d + w <= |s| && FirstGap(s, d, w).Some?
    ensures IsValueText(s[FirstGap(s, d, w).value.0..FirstGap(s, d, w).value.1])
  {
    LazyTailShape(s, Backtrack(LazyAttempts(s), d, w).value);
  }

  /** What a match captures has a date of the form `dd/dd/dd` and a value `float` accepts. */
  lemma MatchValueShape(s: string, i: nat)
    requires i <= |s| && TxMatchAt(s, i).Some?
    ensures IsDateAt(s, i)
    ensures IsValueText(s[TxMatchAt(s, i).value.valueStart..TxMatchAt(s, i).value.end])
  {
    FirstGapShape(s, i + 8, SpaceRun(s, i + 8));
  }

  // ---- What `findall` reports ----

  /** The matches come left to right and do not overlap: each starts at or after the end
      of the one before. */
  lemma FindAllOrdered(s: string, pos: nat)
    requires pos <= |s|
    ensures forall k :: 0 <= k < |FindAll(s, pos)| - 1 ==>
      TxMatchAt(s, FindAll(s, pos)[k]).value.end <= FindAll(s, pos)[k + 1]
  {
    AllFromOrdered(Attempts(s), MatchEnd, pos);
  }

  /** Position `j` lies within the match at `i`. */
  predicate Inside(s: string, i: nat, j: nat) {
    i <= |s| && TxMatchAt(s, i).Some? && i <= j < TxMatchAt(s, i).value.end
  }

  /** No match is skipped: every start from `pos` on where the pattern matches is the start
      of a reported match or lies inside one. */
  lemma FindAllComplete(s: string, pos: nat, j: nat)
    requires pos <= j <= |s| && TxMatchAt(s, j).Some?
    ensures exists k :: 0 <= k < |FindAll(s, pos)| && Inside(s, FindAll(s, pos)[k], j)
  {
    var attempts := Attempts(s);
    AllFromComplete(attempts, MatchEnd, pos, j);
    var r := FindAll(s, pos);
    var k :| 0 <= k < |r| && r[k] < |attempts| && attempts[r[k]].Some? && r[k] <= j < MatchEnd(attempts[r[k]].value);
    assert Inside(s, r[k], j);
  }

  /** Without a `/` in the text there is no date, so no transaction. */
  lemma NoDateNoTransactions(s: string)
    requires '/' !in s
    ensures Transactions(s) == []
  {
  }

  // ---- Reading a well-formed transaction line ----

  /** The characters between `q` and a space at `b` on the same line hold no value that
      ends the line: an amount starting there stops at or before `b`, and no newline
      follows it. */
  lemma NoAmountBefore(s: string, q: nat, b: nat)
    requires q <= b < |s| && s[b] == ' '
    requires forall i :: q <= i < b ==> s[i] != '\n'
    ensures AmountAt(s, q).None? || !LineEnd(s, AmountAt(s, q).value)
  {
    var e := RunEnd(s, q);
    if AmountAt(s, q).Some? {
      assert e + 3 <= b;
    }
  }

  lemma NoValueBefore(s: string, q: nat, b: nat)
    requires q < b < |s| && s[b] == ' '
    requires forall i :: q <= i < b ==> s[i] != '\n'
    ensures ValueAt(s, q).None?
  {
    NoAmountBefore(s, q, b);
    if s[q] == '-' {
      NoAmountBefore(s, q + 1, b);
    }
  }

  /** The second `\s+` finds no value when every place it gives back lies before the space at `b`. */
  lemma SecondGapBefore(s: string, q: nat, w: nat, b: nat)
    requires q + w < b < |s| && s[b] == ' '
    requires forall i :: q < i < b ==> s[i] != '\n'
    ensures SecondGap(s, q, w).None?
  {
    var attempts := ValueAttempts(s);
    forall j | q < j <= q + w
      ensures attempts[j].None?
    {
      NoValueBefore(s, j, b);
    }
  }

  /** The lazy part grows, one character at a time, over a stretch of the line that holds
      no value, up to the space at `b`. */
  lemma LazyTailSkips(s: string, p: nat, b: nat)
    requires p <= b < |s| && s[b] == ' '
    requires 0 < b && !IsSpace(s[b - 1])
    requires forall i :: p <= i < b ==> s[i] != '\n'
    ensures LazyFrom(GapAttempts(s), s, p) == LazyFrom(GapAttempts(s), s, b)
  {
    var attempts := GapAttempts(s);
    forall j | p <= j < b
      ensures attempts[j].None?
    {
      SpaceRunBefore(s, j, b);
      SecondGapBefore(s, j, SpaceRun(s, j), b);
    }
    LazyFromSkips(attempts, s, p, b);
  }

  /** A value with its sign, written at `r` and ending the line, is read whole. */
  lemma SignedValueAtEnd(s: string, r: nat, amount: string)
    requires IsAmount(amount)
    requires r + 1 + |amount| <= |s| && s[r] == '-' && s[r + 1..r + 1 + |amount|] == amount
    requires LineEnd(s, r + 1 + |amount|)
    ensures ValueAt(s, r) == Some(r + 1 + |amount|)
  {
    AmountPrefixAt(s, r + 1, amount);
  }

  /** A value without a sign, written at `r` and ending the line, is read whole. */
  lemma UnsignedValueAtEnd(s: string, r: nat, amount: string)
    requires IsAmount(amount)
    requires r + |amount| <= |s| && s[r..r + |amount|] == amount
    requires LineEnd(s, r + |amount|)
    ensures ValueAt(s, r) == Some(r + |amount|)
  {
    assert s[r] == amount[0];
    AmountPrefixAt(s, r, amount);
  }

  /** A value, with or without its sign, written at `r` and ending the line, is read whole. */
  lemma ValueAtEnd(s: string, r: nat, value: string)
    requires IsValueText(value)
    requires r + |value| <= |s| && s[r..r + |value|] == value
    requires LineEnd(s, r + |value|)
    ensures ValueAt(s, r) == Some(r + |value|)
  {
    assert s[r] == value[0];
    if value[0] == '-' {
      assert s[r + 1..r + |value|] == value[1..];
      SignedValueAtEnd(s, r, value[1..]);
    } else {
      UnsignedValueAtEnd(s, r, value);
    }
  }

  /** A number of cents as a statement prints it in a transaction line. */
  function RenderValue(c: int): (t: string)
    ensures IsValueText(t)
  {
    if c < 0 then
      var t := "-" + RenderCents(-c);
      assert t[1..] == RenderCents(-c);
      t
    else RenderCents(c)
  }

  /** Reading a rendered value gives back its cents, sign included. */
  lemma RenderValueRoundTrip(c: int)
    ensures SignedCents(RenderValue(c)) == c
  {
    if c < 0 {
      NegativeValueRoundTrip(-c);
    } else {
      var t := RenderCents(c);
      assert IsAmountChar(t[0]);
      RenderCentsRoundTrip(c);
    }
  }

  lemma NegativeValueRoundTrip(n: nat)
    requires n > 0
    ensures SignedCents(RenderValue(-(n as int))) == -(n as int)
  {
    var t := RenderValue(-(n as int));
    assert t[0] == '-' && t[1..] == RenderCents(n);
    RenderCentsRoundTrip(n);
  }

  /** A date as the pattern captures it. */
  predicate IsDate(d: string) {
    |d| == 8 && IsDateAt(d, 0)
  }

  /** A description the lazy part reads over: not empty, no whitespace at either end and
      no newline. */
  predicate IsDescription(d: string) {
    && |d| > 0 && !IsSpace(d[0]) && !IsSpace(d[|d| - 1])
    && forall i :: 0 <= i < |d| ==> d[i] != '\n'
  }

  /** Where the parts of a transaction line sit in the text: the line starts at `i`, the
      value at `v`, after the description and one space, and the value ends at `e`. */
  lemma LineLayout(pre: string, date: string, desc: string, value: string, rest: string, s: string, i: nat, v: nat, e: nat)
    requires s == pre + date + " " + desc + " " + value + rest
    requires IsDate(date) && IsDescription(desc) && IsValueText(value)
    requires pre == [] || pre[|pre| - 1] == '\n'
    requires rest == [] || rest[0] == '\n'
    requires i == |pre| && v == i + 10 + |desc| && e == v + |value|
    ensures e <= |s| && LineStart(s, i) && IsDateAt(s, i) && s[i..i + 8] == date
    ensures IsSpace(s[i + 8]) && !IsSpace(s[i + 9])
    ensures forall k :: i + 9 <= k < v - 1 ==> s[k] != '\n'
    ensures !IsSpace(s[v - 2]) && s[v - 1] == ' ' && !IsSpace(s[v])
    ensures s[v..e] == value && LineEnd(s, e)
  {
    if pre != [] {
      assert s[i - 1] == pre[i - 1];
    }
    assert forall k :: i <= k < i + 8 ==> s[k] == date[k - i];
    assert s[i..i + 8] == date;
    assert forall k :: i + 9 <= k < v - 1 ==> s[k] == desc[k - i - 9];
    assert s[v] == value[0];
    assert s[v..e] == value;
    if rest != [] {
      assert s[e] == rest[0];
    }
  }

  /** The second `\s+` at `b`: one space, then a value running from `b + 1` to `e`. */
  lemma GapAttemptAt(s: string, b: nat, e: nat)
    requires b + 1 < |s| && IsSpace(s[b]) && !IsSpace(s[b + 1])
    requires ValueAt(s, b + 1) == Some(e)
    ensures GapAttempts(s)[b] == Some((b + 1, e))
  {
    SpaceRunOne(s, b);
  }

  /** The lazy part from `p` reads up to the space at `b`, where the value follows. */
  lemma LazyTailTo(s: string, p: nat, b: nat, e: nat)
    requires p <= b < |s| && 0 < b && s[b] == ' ' && !IsSpace(s[b - 1])
    requires forall i :: p <= i < b ==> s[i] != '\n'
    requires GapAttempts(s)[b] == Some((b + 1, e))
    ensures LazyTail(s, p) == Some((b + 1, e))
  {
    LazyTailSkips(s, p, b);
  }

  /** A line with no value of its own: after the date and one space, a description
      without whitespace runs to the newline at `b`. The lazy part stops there, the second
      `\s+` takes the newline, and the amount opening the next line is read as the value. */
  lemma ValueFromNextLine(s: string, i: nat, b: nat, e: nat, value: string)
    requires IsValueText(value) && i + 9 < b && e == b + 1 + |value| && e <= |s|
    requires LineStart(s, i) && IsDateAt(s, i) && s[i + 8] == ' '
    requires forall k :: i + 9 <= k < b ==> !IsSpace(s[k])
    requires s[b] == '\n' && s[b + 1..e] == value && LineEnd(s, e)
    ensures TxMatchAt(s, i) == Some(TxMatch(i, b + 1, e))
  {
    var v := b + 1;
    GapBeforeValue(s, b, v, e, value);
    MatchThroughNewline(s, i, b, e);
  }

  /** The match at `i` when the lazy part can read up to the newline at `b` and the rest
      of the pattern matches from there. */
  lemma MatchThroughNewline(s: string, i: nat, b: nat, e: nat)
    requires LineStart(s, i) && IsDateAt(s, i) && i + 9 < b < |s| && s[i + 8] == ' '
    requires forall k :: i + 9 <= k < b ==> !IsSpace(s[k])
    requires s[b] == '\n' && GapAttempts(s)[b] == Some((b + 1, e))
    ensures TxMatchAt(s, i) == Some(TxMatch(i, b + 1, e))
  {
    forall p | p == i + 9
      ensures LazyTail(s, p) == Some((b + 1, e))
    {
      LazyTailToNewline(s, p, b, e);
    }
    TxMatchAtLine(s, i, b, e);
  }

  /** One whitespace character followed by a value that ends its line: the second `\s+`
      and the value match from the whitespace. */
  lemma GapBeforeValue(s: string, b: nat, v: nat, e: nat, value: string)
    requires IsValueText(value) && v == b + 1 && e == v + |value| && e <= |s|
    requires IsSpace(s[b]) && s[v..e] == value && LineEnd(s, e)
    ensures GapAttempts(s)[b] == Some((b + 1, e))
  {
    ValueAtEnd(s, v, value);
    assert s[v] == value[0];
    GapAttemptAt(s, b, e);
  }

  /** The lazy part from `p`, over characters none of which is whitespace, reads up to the
      newline at `b` when the rest of the pattern matches there. */
  lemma LazyTailToNewline(s: string, p: nat, b: nat, e: nat)
    requires p <= b < |s| && s[b] == '\n'
    requires forall k :: p <= k < b ==> !IsSpace(s[k])
    requires GapAttempts(s)[b] == Some((b + 1, e))
    ensures LazyTail(s, p) == Some((b + 1, e))
  {
    var attempts := GapAttempts(s);
    forall j | p <= j < b
      ensures attempts[j].None?
    {
      assert SpaceRun(s, j) == 0;
    }
    LazyFromSkips(attempts, s, p, b);
  }

  /** `01/02/03 desc` followed by a line holding only `5.00`: one match, whose value is
      the next line's amount. */
  lemma ValueFromNextLineExample()
    ensures TxMatchAt("01/02/03 desc\n5.00", 0) == Some(TxMatch(0, 14, 18))
  {
    var s := "01/02/03 desc\n5.00";
    assert s[14..18] == "5.00";
    ValueFromNextLine(s, 0, 13, 18, "5.00");
  }

  /** A date and one space at a line start `i`, with the rest of the pattern matching from
      `i + 9`: the match at `i`. */
  lemma TxMatchAtLine(s: string, i: nat, b: nat, e: nat)
    requires LineStart(s, i) && IsDateAt(s, i) && i + 9 < |s| && IsSpace(s[i + 8]) && !IsSpace(s[i + 9])
    requires i + 9 <= b && LazyTail(s, i + 9) == Some((b + 1, e))
    ensures TxMatchAt(s, i) == Some(TxMatch(i, b + 1, e))
  {
    SpaceRunOne(s, i + 8);
    FirstGapOne(s, i + 8);
    var g := FirstGap(s, i + 8, SpaceRun(s, i + 8));
    assert g == Some((b + 1, e));
    assert LineStart(s, i) && IsDateAt(s, i);
    assert TxMatchAt(s, i) == Some(TxMatch(i, g.value.0, g.value.1));
    assert g.value.0 == b + 1 && g.value.1 == e;
    assert TxMatch(i, g.value.0, g.value.1) == TxMatch(i, b + 1, e);
  }

  /** A first `\s+` of one character hands over to the lazy part right after it. */
  lemma FirstGapOne(s: string, d: nat)
    requires d < |s|
    ensures FirstGap(s, d, 1) == LazyTail(s, d + 1)
  {
  }

  /** A well-formed line at a line start `i`, laid out as a date, one space, a stretch of
      the line up to the space before `v`, and a value from `v` to `e` ending the line: the
      first `\s+` takes the one space after the date, the lazy part reads up to the space
      before the value, the second `\s+` takes that space, and the value runs to the end
      of the line. */
  lemma LineAt(s: string, i: nat, v: nat, e: nat, value: string)
    requires IsValueText(value) && i + 10 <= v && e == v + |value| && e <= |s|
    requires LineStart(s, i) && IsDateAt(s, i)
    requires IsSpace(s[i + 8]) && !IsSpace(s[i + 9])
    requires forall k :: i + 9 <= k < v - 1 ==> s[k] != '\n'
    requires !IsSpace(s[v - 2]) && s[v - 1] == ' ' && !IsSpace(s[v])
    requires s[v..e] == value && LineEnd(s, e)
    ensures TxMatchAt(s, i) == Some(TxMatch(i, v, e))
  {
    var b := v - 1;
    assert !IsSpace(s[b - 1]) && forall k :: i + 9 <= k < b ==> s[k] != '\n';
    GapBeforeValue(s, b, v, e, value);
    MatchThroughSpace(s, i, b, e);
  }

  /** The match at `i` when the lazy part can read up to the space at `b` and the rest of
      the pattern matches from there. */
  lemma MatchThroughSpace(s: string, i: nat, b: nat, e: nat)
    requires LineStart(s, i) && IsDateAt(s, i) && i + 9 < b < |s|
    requires IsSpace(s[i + 8]) && !IsSpace(s[i + 9])
    requires forall k :: i + 9 <= k < b ==> s[k] != '\n'
    requires !IsSpace(s[b - 1]) && s[b] == ' '
    requires GapAttempts(s)[b] == Some((b + 1, e))
    ensures TxMatchAt(s, i) == Some(TxMatch(i, b + 1, e))
  {
    forall p | p == i + 9
      ensures LazyTail(s, p) == Some((b + 1, e))
    {
      LazyTailTo(s, p, b, e);
    }
    TxMatchAtLine(s, i, b, e);
  }

  /** The match at `i`, capturing `date` and `value`, is the first one `findall` reports
      from `i`, and the entry built from it holds that date and value. */
  lemma MatchReported(s: string, i: nat, v: nat, e: nat, date: string, value: string)
    requires i + 8 <= v <= e <= |s| && TxMatchAt(s, i) == Some(TxMatch(i, v, e))
    requires IsValueText(value) && s[i..i + 8] == date && s[v..e] == value
    ensures FindAll(s, i) == [i] + FindAll(s, e)
    ensures TransactionOf(s, i) == Transaction(date, SignedCents(value))
  {
    FindAllAt(s, i, e);
    TransactionAtLine(s, i, v, e, date, value);
  }

  /** A match at `i` is the first one `findall` reports from `i`. */
  lemma FindAllAt(s: string, i: nat, e: nat)
    requires i <= |s| && TxMatchAt(s, i).Some? && TxMatchAt(s, i).value.end == e
    ensures FindAll(s, i) == [i] + FindAll(s, e)
  {
    AllFromAt(Attempts(s), MatchEnd, i);
  }

  /** `findall` passes over positions where nothing matches. */
  lemma FindAllSkip(s: string, pos: nat, b: nat)
    requires pos <= b <= |s|
    requires forall j :: pos <= j < b ==> TxMatchAt(s, j).None?
    ensures FindAll(s, pos) == FindAll(s, b)
  {
    AllFromSkip(Attempts(s), MatchEnd, pos, b);
  }

  /** The entry built from a match at `i`, given the date and value it captures. */
  lemma TransactionAtLine(s: string, i: nat, v: nat, e: nat, date: string, value: string)
    requires i + 8 <= v <= e <= |s| && TxMatchAt(s, i) == Some(TxMatch(i, v, e))
    requires IsValueText(value) && s[i..i + 8] == date && s[v..e] == value
    ensures TransactionOf(s, i) == Transaction(date, SignedCents(value))
  {
    assert GroupsAt(s, i) == (date, value);
  }

  /** Nothing matches at a newline: a match starts with a digit of its date. */
  lemma NoMatchAtNewline(s: string, j: nat)
    requires j < |s| && s[j] == '\n'
    ensures TxMatchAt(s, j).None?
  {
    assert !IsDateAt(s, j);
  }

  /** A well-formed line at a line start `i` (see `LineAt`), capturing `date` and `value`:
      `findall` from `i` reports its match first and goes on after the value, the entry
      built from it holds the line's date and value, and when nothing matches before `i`
      it is the first entry of `transactions_list`. */
  lemma LineReadAt(s: string, i: nat, v: nat, e: nat, date: string, value: string)
    requires IsValueText(value) && i + 10 <= v && e == v + |value| && e <= |s|
    requires LineStart(s, i) && IsDateAt(s, i) && s[i..i + 8] == date
    requires IsSpace(s[i + 8]) && !IsSpace(s[i + 9])
    requires forall k :: i + 9 <= k < v - 1 ==> s[k] != '\n'
    requires !IsSpace(s[v - 2]) && s[v - 1] == ' ' && !IsSpace(s[v])
    requires s[v..e] == value && LineEnd(s, e)
    ensures TxMatchAt(s, i) == Some(TxMatch(i, v, e))
    ensures FindAll(s, i) == [i] + FindAll(s, e)
    ensures TransactionOf(s, i) == Transaction(date, SignedCents(value))
    ensures (forall j :: 0 <= j < i ==> TxMatchAt(s, j).None?) ==>
      |Transactions(s)| > 0 && Transactions(s)[0] == Transaction(date, SignedCents(value))
  {
    LineAt(s, i, v, e, value);
    MatchReported(s, i, v, e, date, value);
    if forall j :: 0 <= j < i ==> TxMatchAt(s, j).None? {
      FindAllSkip(s, 0, i);
    }
  }

  /** A well-formed line `date desc value` starting at `i == |pre|`, after a newline or at
      the start of the text, and ending the line: the match at `i` ends after the value at
      `e`, `findall` from `i` reports it first and then goes on from `e`, and the entry built
      from it holds the line's date and value. When no match starts inside `pre`, it is the
      first entry of `transactions_list`. */
  lemma ReadsTransactionLine(pre: string, date: string, desc: string, value: string, rest: string, s: string, i: nat, v: nat, e: nat)
    requires s == pre + date + " " + desc + " " + value + rest
    requires IsDate(date) && IsDescription(desc) && IsValueText(value)
    requires pre == [] || pre[|pre| - 1] == '\n'
    requires rest == [] || rest[0] == '\n'
    requires i == |pre| && v == i + 10 + |desc| && e == v + |value|
    ensures TxMatchAt(s, i) == Some(TxMatch(i, v, e))
    ensures FindAll(s, i) == [i] + FindAll(s, e)
    ensures TransactionOf(s, i) == Transaction(date, SignedCents(value))
    ensures (forall j :: 0 <= j < i ==> TxMatchAt(s, j).None?) ==>
      |Transactions(s)| > 0 && Transactions(s)[0] == Transaction(date, SignedCents(value))
  {
    LineLayout(pre, date, desc, value, rest, s, i, v, e);
    LineReadAt(s, i, v, e, date, value);
  }

  /** Nothing matches at the very end of the text. */
  lemma FindAllAtEnd(s: string)
    ensures FindAll(s, |s|) == []
  {
    assert Attempts(s)[|s|].None?;
  }

  // ---- Reading a list of transaction lines ----

  /** A transaction line as a statement prints it: a date, a description and a value
      (an amount, possibly signed; `RenderValue` prints one from cents). */
  datatype Line = Line(date: string, desc: string, value: string)

  predicate IsLine(l: Line) {
    IsDate(l.date) && IsDescription(l.desc) && IsValueText(l.value)
  }

  /** The text of one line: the date, one space, the description, one space, the value. */
  function LineText(l: Line): string {
    l.date + " " + l.desc + " " + l.value
  }

  /** Lines one after another, separated by newlines. */
  function LinesText(ls: seq<Line>): string
    decreases |ls|
  {
    if |ls| == 0 then ""
    else if |ls| == 1 then LineText(ls[0])
    else LineText(ls[0]) + "\n" + LinesText(ls[1..])
  }

  /** The entry a line stands for: its date, and its value in cents. */
  function LineEntry(l: Line): Transaction
    requires IsLine(l)
  {
    Transaction(l.date, SignedCents(l.value))
  }

  /** The entries the lines stand for, in order. */
  function Expected(ls: seq<Line>): (r: seq<Transaction>)
    requires forall k :: 0 <= k < |ls| ==> IsLine(ls[k])
    ensures |r| == |ls|
    ensures forall k :: 0 <= k < |ls| ==> r[k] == LineEntry(ls[k])
  {
    seq(|ls|, k requires 0 <= k < |ls| => LineEntry(ls[k]))
  }

  /** Where the parts of a line `date desc value` sit when it is found at a line start `i`
      and ends the line at `e`. */
  lemma LineShape(s: string, i: nat, date: string, desc: string, value: string, v: nat, e: nat)
    requires IsDate(date) && IsDescription(desc) && IsValueText(value)
    requires v == i + 10 + |desc| && e == v + |value| && e <= |s|
    requires LineStart(s, i) && s[i..e] == date + " " + desc + " " + value && LineEnd(s, e)
    ensures IsDateAt(s, i) && s[i..i + 8] == date
    ensures IsSpace(s[i + 8]) && !IsSpace(s[i + 9])
    ensures forall k :: i + 9 <= k < v - 1 ==> s[k] != '\n'
    ensures !IsSpace(s[v - 2]) && s[v - 1] == ' ' && !IsSpace(s[v])
    ensures s[v..e] == value
  {
    var t := date + " " + desc + " " + value;
    assert forall k :: i <= k < e ==> s[k] == t[k - i];
    assert s[i..i + 8] == t[..8] == date;
    assert forall k :: i + 9 <= k < v - 1 ==> s[k] == desc[k - i - 9];
    assert s[v] == value[0];
    assert s[v..e] == t[v - i..] == value;
  }

  /** The last line of a block, at a line start `i`: its match, and the entry read from it. */
  lemma LastLineAt(s: string, i: nat, e: nat, l: Line)
    requires IsLine(l) && LineStart(s, i) && StartsAt(s, i, LineText(l))
    requires e == i + |LineText(l)| && LineEnd(s, e)
    ensures e <= |s| && TxMatchAt(s, i).Some?
    ensures FindAll(s, i) == [i] + FindAll(s, e)
    ensures TransactionOf(s, i) == LineEntry(l)
  {
    var v := i + 10 + |l.desc|;
    LineShape(s, i, l.date, l.desc, l.value, v, e);
    LineReadAt(s, i, v, e, l.date, l.value);
  }

  /** A match at `i` ending at a newline: `findall` goes on from the next line start. */
  lemma NextAfterNewline(s: string, i: nat, e: nat, n: nat)
    requires i < e < |s| && s[e] == '\n' && n == e + 1 && FindAll(s, i) == [i] + FindAll(s, e)
    ensures FindAll(s, i) == [i] + FindAll(s, n)
  {
    NoMatchAtNewline(s, e);
    FindAllSkip(s, e, n);
  }

  /** A line of a block followed by another, at a line start `i`: its match, the entry read
      from it, and `findall` going on at the next line start. */
  lemma LineBeforeNext(s: string, i: nat, n: nat, l: Line)
    requires IsLine(l) && LineStart(s, i) && StartsAt(s, i, LineText(l))
    requires i + |LineText(l)| < |s| && s[i + |LineText(l)|] == '\n' && n == i + |LineText(l)| + 1
    ensures TxMatchAt(s, i).Some?
    ensures FindAll(s, i) == [i] + FindAll(s, n)
    ensures TransactionOf(s, i) == LineEntry(l)
  {
    var v := i + 10 + |l.desc|;
    var e := i + |LineText(l)|;
    LineShape(s, i, l.date, l.desc, l.value, v, e);
    LineReadAt(s, i, v, e, l.date, l.value);
    NextAfterNewline(s, i, e, n);
  }

  /** Text `a`, a newline and text `b` found at `i`: each piece where it falls. */
  lemma StartsAtPieces(s: string, i: nat, a: string, b: string)
    requires StartsAt(s, i, a + "\n" + b)
    ensures StartsAt(s, i, a) && i + |a| < |s| && s[i + |a|] == '\n'
    ensures StartsAt(s, i + |a| + 1, b)
  {
    var t := a + "\n" + b;
    assert s[i..i + |a|] == t[..|a|] == a;
    assert s[i + |a|] == t[|a|];
    assert s[i + |a| + 1..i + |t|] == t[|a| + 1..] == b;
  }

  /** The lines `ls` one after another from `i`, each but the last followed by a newline. */
  predicate LinesAt(s: string, i: nat, ls: seq<Line>)
    decreases |ls|
  {
    && |ls| > 0
    && StartsAt(s, i, LineText(ls[0]))
    && (|ls| == 1 || (
      && i + |LineText(ls[0])| < |s|
      && s[i + |LineText(ls[0])|] == '\n'
      && LinesAt(s, i + |LineText(ls[0])| + 1, ls[1..])))
  }

  /** The text of a block of lines, found at `i`, lays the lines out one after another. */
  lemma {:induction false} LinesTextAt(s: string, i: nat, ls: seq<Line>)
    requires |ls| > 0 && StartsAt(s, i, LinesText(ls))
    ensures LinesAt(s, i, ls)
    decreases |ls|
  {
    if |ls| > 1 {
      var L := LineText(ls[0]);
      StartsAtPieces(s, i, L, LinesText(ls[1..]));
      LinesTextAt(s, i + |L| + 1, ls[1..]);
    }
  }

  /** A block of two or more lines at `i`: its first line, the newline that ends it, the
      rest of the block from the next line start, and where the block ends. */
  lemma LinesAtStep(s: string, i: nat, n: nat, ls: seq<Line>)
    requires |ls| > 1 && LinesAt(s, i, ls) && n == i + |LineText(ls[0])| + 1
    ensures StartsAt(s, i, LineText(ls[0])) && i + |LineText(ls[0])| < |s|
    ensures s[i + |LineText(ls[0])|] == '\n'
    ensures LineStart(s, n) && LinesAt(s, n, ls[1..])
    ensures i + |LinesText(ls)| == n + |LinesText(ls[1..])|
  {
  }

  /** A block of well-formed lines starting at a line start `i` and ending a line: `findall`
      reports one match per line, in order, each read as its line's entry, and then goes on
      after the block. */
  lemma {:induction false} FindAllLines(s: string, i: nat, ls: seq<Line>, end: nat)
    requires |ls| > 0 && forall k :: 0 <= k < |ls| ==> IsLine(ls[k])
    requires LineStart(s, i) && LinesAt(s, i, ls) && end == i + |LinesText(ls)| && LineEnd(s, end)
    ensures |FindAll(s, i)| >= |ls|
    ensures FindAll(s, i)[|ls|..] == FindAll(s, end)
    ensures forall k :: 0 <= k < |ls| ==> TransactionOf(s, FindAll(s, i)[k]) == Expected(ls)[k]
    decreases |ls|
  {
    if |ls| == 1 {
      LastLineAt(s, i, end, ls[0]);
      assert FindAll(s, i)[1..] == FindAll(s, end);
    } else {
      var L := LineText(ls[0]);
      var tail := ls[1..];
      var n := i + |L| + 1;
      LinesAtStep(s, i, n, ls);
      LineBeforeNext(s, i, n, ls[0]);
      assert forall k :: 0 <= k < |tail| ==> IsLine(tail[k]);
      FindAllLines(s, n, tail, end);
      LinesStep(s, i, n, ls, tail, end);
    }
  }

  /** The step of `FindAllLines`: the first line's match, then those of the other lines. */
  lemma LinesStep(s: string, i: nat, n: nat, ls: seq<Line>, tail: seq<Line>, end: nat)
    requires |ls| > 1 && forall k :: 0 <= k < |ls| ==> IsLine(ls[k])
    requires tail == ls[1..] && forall k :: 0 <= k < |tail| ==> IsLine(tail[k])
    requires i < n <= end <= |s| && TxMatchAt(s, i).Some?
    requires FindAll(s, i) == [i] + FindAll(s, n)
    requires TransactionOf(s, i) == Expected(ls)[0]
    requires |FindAll(s, n)| >= |tail| && FindAll(s, n)[|tail|..] == FindAll(s, end)
    requires forall k :: 0 <= k < |tail| ==> TransactionOf(s, FindAll(s, n)[k]) == Expected(tail)[k]
    ensures |FindAll(s, i)| >= |ls|
    ensures FindAll(s, i)[|ls|..] == FindAll(s, end)
    ensures forall k :: 0 <= k < |ls| ==> TransactionOf(s, FindAll(s, i)[k]) == Expected(ls)[k]
  {
    PrependShift(FindAll(s, i), i, FindAll(s, n), |tail|, |ls|);
    ExpectedShift(ls, tail);
  }

  /** The entries of the lines after the first are the entries of the rest of the lines. */
  lemma ExpectedShift(ls: seq<Line>, tail: seq<Line>)
    requires |ls| > 0 && forall k :: 0 <= k < |ls| ==> IsLine(ls[k])
    requires tail == ls[1..] && forall k :: 0 <= k < |tail| ==> IsLine(tail[k])
    ensures forall k :: 0 < k < |ls| ==> Expected(ls)[k] == Expected(tail)[k - 1]
  {
    forall k | 0 < k < |ls|
      ensures Expected(ls)[k] == Expected(tail)[k - 1]
    {
      assert tail[k - 1] == ls[k];
    }
  }

  /** A sequence `[x] + rest`: its elements after the first are those of `rest`, shifted by one. */
  lemma PrependShift(all: seq<nat>, x: nat, rest: seq<nat>, m: nat, m1: nat)
    requires all == [x] + rest && m <= |rest| && m1 == m + 1
    ensures |all| == |rest| + 1 && all[0] == x && all[m1..] == rest[m..]
    ensures forall k :: 0 < k < |all| ==> all[k] == rest[k - 1]
  {
  }

  /** A block of well-formed lines from a line start `i` to the end of a line at `end`, with
      no match starting before or after it, gives exactly one entry per line, in order. */
  lemma LinesReadAt(s: string, i: nat, ls: seq<Line>, end: nat)
    requires |ls| > 0 && forall k :: 0 <= k < |ls| ==> IsLine(ls[k])
    requires LineStart(s, i) && LinesAt(s, i, ls) && end == i + |LinesText(ls)| && LineEnd(s, end)
    requires forall j :: 0 <= j < i ==> TxMatchAt(s, j).None?
    requires forall j :: end <= j <= |s| ==> TxMatchAt(s, j).None?
    ensures Transactions(s) == Expected(ls)
  {
    FindAllLines(s, i, ls, end);
    FindAllSkip(s, 0, i);
    FindAllSkip(s, end, |s|);
    FindAllAtEnd(s);
    EntriesAre(s, ls);
  }

  /** `transactions_list` is `Expected(ls)` once `findall` reports exactly one match per
      line, each read as its line's entry. */
  lemma EntriesAre(s: string, ls: seq<Line>)
    requires forall k :: 0 <= k < |ls| ==> IsLine(ls[k])
    requires |FindAll(s, 0)| == |ls|
    requires forall k :: 0 <= k < |ls| ==> TransactionOf(s, FindAll(s, 0)[k]) == Expected(ls)[k]
    ensures Transactions(s) == Expected(ls)
  {
  }

  /** A statement text holding a block of well-formed transaction lines, with no match
      starting before or after the block, gives exactly one entry per line, in order. */
  lemma ReadsLines(pre: string, ls: seq<Line>, post: string, s: string)
    requires forall k :: 0 <= k < |ls| ==> IsLine(ls[k])
    requires pre == [] || pre[|pre| - 1] == '\n'
    requires post == [] || post[0] == '\n'
    requires s == pre + LinesText(ls) + post
    requires forall j :: 0 <= j < |pre| ==> TxMatchAt(s, j).None?
    requires forall j :: |pre| + |LinesText(ls)| <= j <= |s| ==> TxMatchAt(s, j).None?
    ensures Transactions(s) == Expected(ls)
  {
    if |ls| == 0 {
      FindAllSkip(s, 0, |s|);
      FindAllAtEnd(s);
    } else {
      var i := |pre|;
      var end := |pre| + |LinesText(ls)|;
      BlockLayout(pre, LinesText(ls), post, s, i, end);
      LinesTextAt(s, i, ls);
      LinesReadAt(s, i, ls, end);
    }
  }

  /** Where a block of text sits between a text ending a line and one starting a line. */
  lemma BlockLayout(pre: string, t: string, post: string, s: string, i: nat, end: nat)
    requires pre == [] || pre[|pre| - 1] == '\n'
    requires post == [] || post[0] == '\n'
    requires s == pre + t + post && i == |pre| && end == i + |t|
    ensures LineStart(s, i) && StartsAt(s, i, t) && LineEnd(s, end)
  {
    assert s[i..end] == t;
    if pre != [] {
      assert s[i - 1] == pre[i - 1];
    }
    if post != [] {
      assert s[end] == post[0];
    }
  }
}
