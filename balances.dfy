/** `find_value` (main.py:227-233) and the summary patterns it is given (main.py:237-249).
    Each pattern is a label, possibly with alternatives, a gap, and the amount
    `([\d,]+\.\d{2})`; `re.search` takes the match that starts leftmost. */
module Balances {
  import opened Wrappers
  import opened Text
  import opened Amount
  import opened Scan

  /** What separates a label from its amount. */
  datatype Gap =
    | ToDollar               // `.*? \$`: as few characters of the same line as possible, then ` $`
    | Spaces(marker: string) // `\s+` and then the literal `marker`

  /** Label alternatives, tried in order, then the gap and the amount. */
  datatype Pattern = Pattern(labels: seq<string>, gap: Gap)

  const BeginningBalance := Pattern(["Beginning balance on "], ToDollar)
  const DepositsAdditions := Pattern(["Deposits and other additions", "Deposits and other credits"], Spaces(""))
  const CardSubtractions := Pattern(["ATM and debit card subtractions"], Spaces("-"))
  const OtherSubtractions := Pattern(["Other subtractions"], Spaces("-"))
  const WithdrawalsDebits := Pattern(["Withdrawals and other debits"], Spaces("-"))
  const ServiceFees := Pattern(["Service fees"], Spaces("-"))
  const EndingBalance := Pattern(["Ending balance on "], ToDollar)
  const TotalDeposits := Pattern(["Total deposits and other additions", "Total deposits and other credits"], Spaces("$"))
  const TotalCardSubtractions := Pattern(["Total ATM and debit card subtractions"], Spaces("-$"))
  const TotalOtherSubtractions := Pattern(["Total other subtractions", "Total withdrawals and other debits"], Spaces("-$"))

  /** `.*? \$` followed by an amount, the lazy part having taken `k` characters after `p`:
      it grows one character at a time, never across a newline. The result is where the
      amount starts. */
  function LazyDollar(s: string, p: nat, k: nat): (r: Option<nat>)
    requires p + k <= |s|
    ensures r.Some? ==> p + k + 2 <= r.value <= |s|
    decreases |s| - (p + k)
  {
    var t := p + k;
    if StartsAt(s, t, " $") && AmountAt(s, t + 2).Some? then Some(t + 2)
    else if t < |s| && s[t] != '\n' then LazyDollar(s, p, k + 1)
    else None
  }

  /** `\s+` then `marker` then an amount, the greedy run having `w` whitespace characters
      and giving them back one at a time. */
  function SpacesBack(s: string, p: nat, w: nat, marker: string): (r: Option<nat>)
    requires p + w <= |s|
    ensures r.Some? ==> p < r.value <= |s|
    decreases w
  {
    if w == 0 then None
    else if StartsAt(s, p + w, marker) && AmountAt(s, p + w + |marker|).Some? then Some(p + w + |marker|)
    else SpacesBack(s, p, w - 1, marker)
  }

  /** The gap starting at `p`, then the amount; the result is where the amount starts. */
  function GapAt(gap: Gap, s: string, p: nat): (r: Option<nat>)
    requires p <= |s|
    ensures r.Some? ==> p < r.value <= |s|
  {
    match gap
    case ToDollar => LazyDollar(s, p, 0)
    case Spaces(marker) => SpacesBack(s, p, SpaceRun(s, p), marker)
  }

  /** The pattern at `i`, trying the label alternatives from the `j`-th on. */
  function MatchLabels(pat: Pattern, s: string, i: nat, j: nat): (r: Option<nat>)
    requires i <= |s|
    ensures r.Some? ==> i < r.value <= |s|
    decreases |pat.labels| - j
  {
    if j >= |pat.labels| then None
    else
      var lab := pat.labels[j];
      if StartsAt(s, i, lab) then
        match GapAt(pat.gap, s, i + |lab|)
        case Some(q) => Some(q)
        case None => MatchLabels(pat, s, i, j + 1)
      else MatchLabels(pat, s, i, j + 1)
  }

  /** The pattern matched at `i`: where its amount starts. */
  function MatchAt(pat: Pattern, s: string, i: nat): (r: Option<nat>)
    requires i <= |s|
    ensures r.Some? ==> i < r.value <= |s|
  {
    MatchLabels(pat, s, i, 0)
  }

  /** A match: where it starts and where its amount starts. */
  datatype Hit = Hit(start: nat, amountStart: nat)

  /** The attempt at every start position of the text, in order. */
  function Attempts(pat: Pattern, s: string): (r: seq<Option<nat>>)
    ensures |r| == |s| + 1
    ensures forall j :: 0 <= j <= |s| ==> r[j] == MatchAt(pat, s, j)
  {
    seq(|s| + 1, j requires 0 <= j <= |s| => MatchAt(pat, s, j))
  }

  /** `re.search` from `i` on: the match that starts leftmost. */
  function Search(pat: Pattern, s: string, i: nat): (r: Option<Hit>)
    requires i <= |s|
    ensures r.None? ==> forall j :: i <= j <= |s| ==> MatchAt(pat, s, j).None?
    ensures r.Some? ==>
      && i <= r.value.start <= |s|
      && MatchAt(pat, s, r.value.start) == Some(r.value.amountStart)
      && forall j :: i <= j < r.value.start ==> MatchAt(pat, s, j).None?
  {
    match FirstFrom(Attempts(pat, s), i)
    case None => None
    case Some(j) => Some(Hit(j, MatchAt(pat, s, j).value))
  }

  /** `find_value(pattern, text, negative)` in cents: the first match's amount with its
      commas removed, negated when asked; 0 when nothing matches. */
  function FindValue(pat: Pattern, s: string, negative: bool): (r: int)
    ensures Search(pat, s, 0).None? ==> r == 0
    ensures Search(pat, s, 0).Some? ==>
      && AmountAt(s, Search(pat, s, 0).value.amountStart).Some?
      && r == (if negative then -1 else 1) * AmountValue(s, Search(pat, s, 0).value.amountStart)
    ensures negative ==> r <= 0
    ensures !negative ==> r >= 0
  {
    match Search(pat, s, 0)
    case None => 0
    case Some(hit) =>
      MatchAtAmount(pat, s, hit.start);
      var v := AmountValue(s, hit.amountStart);
      if negative then -(v as int) else v
  }

  /** `other_withdrawals`: the "Other subtractions" value, or, when that is 0 (no match or
      an amount of zero, both falsy), the "Withdrawals and other debits" value. */
  function OtherWithdrawals(s: string): (r: int)
    ensures r <= 0
    ensures FindValue(OtherSubtractions, s, true) != 0 ==> r == FindValue(OtherSubtractions, s, true)
    ensures FindValue(OtherSubtractions, s, true) == 0 ==> r == FindValue(WithdrawalsDebits, s, true)
  {
    var first := FindValue(OtherSubtractions, s, true);
    if first != 0 then first else FindValue(WithdrawalsDebits, s, true)
  }

  /** Where a match puts its amount, the amount fragment does match. */
  lemma MatchAtAmount(pat: Pattern, s: string, i: nat)
    requires i <= |s| && MatchAt(pat, s, i).Some?
    ensures AmountAt(s, MatchAt(pat, s, i).value).Some?
  {
    MatchLabelsAmount(pat, s, i, 0);
  }

  lemma {:induction false} MatchLabelsAmount(pat: Pattern, s: string, i: nat, j: nat)
    requires i <= |s| && MatchLabels(pat, s, i, j).Some?
    ensures AmountAt(s, MatchLabels(pat, s, i, j).value).Some?
    decreases |pat.labels| - j
  {
    var lab := pat.labels[j];
    if StartsAt(s, i, lab) && GapAt(pat.gap, s, i + |lab|).Some? {
      GapAmount(pat.gap, s, i + |lab|);
    } else {
      MatchLabelsAmount(pat, s, i, j + 1);
    }
  }

  lemma GapAmount(gap: Gap, s: string, p: nat)
    requires p <= |s| && GapAt(gap, s, p).Some?
    ensures AmountAt(s, GapAt(gap, s, p).value).Some?
  {
    match gap
    case ToDollar => LazyDollarAmount(s, p, 0);
    case Spaces(marker) => SpacesBackAmount(s, p, SpaceRun(s, p), marker);
  }

  lemma {:induction false} LazyDollarAmount(s: string, p: nat, k: nat)
    requires p + k <= |s| && LazyDollar(s, p, k).Some?
    ensures AmountAt(s, LazyDollar(s, p, k).value).Some?
    decreases |s| - (p + k)
  {
    var t := p + k;
    if !(StartsAt(s, t, " $") && AmountAt(s, t + 2).Some?) {
      LazyDollarAmount(s, p, k + 1);
    }
  }

  lemma {:induction false} SpacesBackAmount(s: string, p: nat, w: nat, marker: string)
    requires p + w <= |s| && SpacesBack(s, p, w, marker).Some?
    ensures AmountAt(s, SpacesBack(s, p, w, marker).value).Some?
    decreases w
  {
    if !(StartsAt(s, p + w, marker) && AmountAt(s, p + w + |marker|).Some?) {
      SpacesBackAmount(s, p, w - 1, marker);
    }
  }

  // ---- What the patterns promise ----

  /** A label none of whose alternatives occurs in the text leaves the value at 0. */
  lemma NoLabelGivesZero(pat: Pattern, s: string, negative: bool)
    requires forall l :: 0 <= l < |pat.labels| ==> !Contains(s, pat.labels[l])
    ensures FindValue(pat, s, negative) == 0
  {
    forall j | 0 <= j <= |s|
      ensures MatchAt(pat, s, j).None?
    {
      forall l | 0 <= l < |pat.labels|
        ensures !StartsAt(s, j, pat.labels[l])
      {
        assert !Contains(s, pat.labels[l]);
      }
      NoLabelNoMatch(pat, s, j, 0);
    }
  }

  /** No alternative from the `j`-th on starting at `i`: no match at `i`. */
  lemma {:induction false} NoLabelNoMatch(pat: Pattern, s: string, i: nat, j: nat)
    requires i <= |s|
    requires forall l :: j <= l < |pat.labels| ==> !StartsAt(s, i, pat.labels[l])
    ensures MatchLabels(pat, s, i, j).None?
    decreases |pat.labels| - j
  {
    if j < |pat.labels| {
      NoLabelNoMatch(pat, s, i, j + 1);
    }
  }

  /** When "Other subtractions" does not occur, `other_withdrawals` is the
      "Withdrawals and other debits" value. */
  lemma OtherWithdrawalsFallback(s: string)
    requires !Contains(s, OtherSubtractions.labels[0])
    ensures OtherWithdrawals(s) == FindValue(WithdrawalsDebits, s, true)
  {
    NoLabelGivesZero(OtherSubtractions, s, true);
  }

  /** No alternative of the label starts anywhere in `pre`, label `k` follows it with one
      space, the marker and an amount, and no earlier alternative starts there: the value
      read is that amount, negated when asked. */
  lemma ReadsSpacedAmount(pat: Pattern, k: nat, pre: string, amount: string, rest: string, negative: bool, s: string)
    requires pat.gap.Spaces? && (pat.gap.marker == [] || !IsSpace(pat.gap.marker[0]))
    requires k < |pat.labels| && IsAmount(amount)
    requires s == pre + pat.labels[k] + " " + pat.gap.marker + amount + rest
    requires forall j, l :: 0 <= j < |pre| && 0 <= l < |pat.labels| ==> !StartsAt(s, j, pat.labels[l])
    requires forall l :: 0 <= l < k ==> !StartsAt(s, |pre|, pat.labels[l])
    ensures FindValue(pat, s, negative) == if negative then -(Cents(amount) as int) else Cents(amount)
  {
    var i := |pre|;
    var p := i + |pat.labels[k]|;
    var q := p + 1 + |pat.gap.marker|;
    SpacedLayout(pre, pat.labels[k], pat.gap.marker, amount, rest, s, i, p, q);
    SpacedGap(pat.gap, s, p, q, amount);
    FirstLabelAt(pat, s, i, k, p, q);
    NoMatchBefore(pat, s, i);
    ValueAt(pat, s, i, q, amount, negative);
  }

  /** One space, the marker and an amount: the whitespace run is that one space. */
  lemma SpacedGap(gap: Gap, s: string, p: nat, q: nat, amount: string)
    requires gap.Spaces? && IsAmount(amount) && q == p + 1 + |gap.marker| && q + |amount| <= |s|
    requires IsSpace(s[p]) && StartsAt(s, p + 1, gap.marker)
    requires !IsSpace(s[p + 1])
    requires s[q..q + |amount|] == amount
    ensures GapAt(gap, s, p) == Some(q)
  {
    SpaceRunOne(s, p);
    AmountPrefixAt(s, q, amount);
  }

  lemma SpacedLayout(pre: string, lab: string, marker: string, amount: string, rest: string, s: string, i: nat, p: nat, q: nat)
    requires s == pre + lab + " " + marker + amount + rest && IsAmount(amount)
    requires marker == [] || !IsSpace(marker[0])
    requires i == |pre| && p == i + |lab| && q == p + 1 + |marker|
    ensures StartsAt(s, i, lab)
    ensures s[p] == ' ' && IsSpace(s[p])
    ensures StartsAt(s, p + 1, marker)
    ensures q + |amount| <= |s| && s[q..q + |amount|] == amount
    ensures !IsSpace(s[p + 1])
  {
    assert s[i..p] == lab;
    assert s[p + 1..p + 1 + |marker|] == marker;
    assert s[q..q + |amount|] == amount;
    if marker == [] {
      assert s[p + 1] == amount[0] && IsAmountChar(amount[0]);
    } else {
      assert s[p + 1] == marker[0];
    }
  }

  /** The `k`-th label matches at `i` with its gap, and the earlier ones do not start there. */
  lemma {:induction false} FirstLabelAt(pat: Pattern, s: string, i: nat, k: nat, p: nat, q: nat)
    requires i <= |s| && k < |pat.labels|
    requires forall l :: 0 <= l < k ==> !StartsAt(s, i, pat.labels[l])
    requires StartsAt(s, i, pat.labels[k])
    requires p == i + |pat.labels[k]| && GapAt(pat.gap, s, p) == Some(q)
    ensures MatchAt(pat, s, i) == Some(q)
  {
    LabelsFrom(pat, s, i, 0, k, q);
  }

  lemma {:induction false} LabelsFrom(pat: Pattern, s: string, i: nat, j: nat, k: nat, q: nat)
    requires i <= |s| && j <= k < |pat.labels|
    requires forall l :: j <= l < k ==> !StartsAt(s, i, pat.labels[l])
    requires StartsAt(s, i, pat.labels[k]) && GapAt(pat.gap, s, i + |pat.labels[k]|) == Some(q)
    ensures MatchLabels(pat, s, i, j) == Some(q)
    decreases k - j
  {
    if j < k {
      LabelsFrom(pat, s, i, j + 1, k, q);
    }
  }

  /** No alternative of the label starts anywhere in `pre`, label `k` follows it, then text
      on the same line without `$`, then ` $` and an amount, and no earlier alternative starts
      there: the lazy gap stops at the first ` $`, and the value read is that amount. */
  lemma ReadsDollarAmount(pat: Pattern, k: nat, pre: string, middle: string, amount: string, rest: string, negative: bool, s: string)
    requires pat.gap.ToDollar? && k < |pat.labels| && IsAmount(amount)
    requires '$' !in middle && '\n' !in middle
    requires s == pre + pat.labels[k] + middle + " $" + amount + rest
    requires forall j, l :: 0 <= j < |pre| && 0 <= l < |pat.labels| ==> !StartsAt(s, j, pat.labels[l])
    requires forall l :: 0 <= l < k ==> !StartsAt(s, |pre|, pat.labels[l])
    ensures FindValue(pat, s, negative) == if negative then -(Cents(amount) as int) else Cents(amount)
  {
    var i := |pre|;
    var p := i + |pat.labels[k]|;
    var q := p + |middle| + 2;
    DollarLayout(pre, pat.labels[k], middle, amount, rest, s, i, p, q);
    DollarGap(s, p, |middle|, amount);
    FirstLabelAt(pat, s, i, k, p, q);
    NoMatchBefore(pat, s, i);
    ValueAt(pat, s, i, q, amount, negative);
  }

  /** The lazy gap from `p` over `n` characters of one line without `$`, up to ` $` and an
      amount. */
  lemma DollarGap(s: string, p: nat, n: nat, amount: string)
    requires IsAmount(amount) && p + n + 2 + |amount| <= |s|
    requires forall i :: p <= i < p + n ==> s[i] != '\n' && s[i] != '$'
    requires StartsAt(s, p + n, " $") && s[p + n] == ' '
    requires s[p + n + 2..p + n + 2 + |amount|] == amount
    ensures GapAt(ToDollar, s, p) == Some(p + n + 2)
  {
    var t := p + n;
    forall i | p < i <= t
      ensures s[i] != '$'
    {
      if i == t {
        assert s[i] == ' ';
      }
    }
    LazySkips(s, p, 0, n);
    AmountPrefixAt(s, t + 2, amount);
  }

  /** No alternative of the label starting before `i`: no match before `i`. */
  lemma NoMatchBefore(pat: Pattern, s: string, i: nat)
    requires i <= |s|
    requires forall j, l :: 0 <= j < i && 0 <= l < |pat.labels| ==> !StartsAt(s, j, pat.labels[l])
    ensures forall j :: 0 <= j < i ==> MatchAt(pat, s, j).None?
  {
    forall j | 0 <= j < i
      ensures MatchAt(pat, s, j).None?
    {
      NoLabelNoMatch(pat, s, j, 0);
    }
  }

  /** The first match at `i` reads the amount found where its amount starts. */
  lemma ValueAt(pat: Pattern, s: string, i: nat, q: nat, amount: string, negative: bool)
    requires IsAmount(amount) && q + |amount| <= |s| && s[q..q + |amount|] == amount
    requires i <= |s| && MatchAt(pat, s, i) == Some(q)
    requires forall j :: 0 <= j < i ==> MatchAt(pat, s, j).None?
    ensures FindValue(pat, s, negative) == if negative then -(Cents(amount) as int) else Cents(amount)
  {
    SearchAt(pat, s, i, q);
    AmountValuePrefix(s, q, amount);
  }

  /** A match at `i`, with none before it, is the one `re.search` finds. */
  lemma SearchAt(pat: Pattern, s: string, i: nat, q: nat)
    requires i <= |s| && MatchAt(pat, s, i) == Some(q)
    requires forall j :: 0 <= j < i ==> MatchAt(pat, s, j).None?
    ensures Search(pat, s, 0) == Some(Hit(i, q))
  {
  }

  lemma DollarLayout(pre: string, lab: string, middle: string, amount: string, rest: string, s: string, i: nat, p: nat, q: nat)
    requires s == pre + lab + middle + " $" + amount + rest
    requires '$' !in middle && '\n' !in middle
    requires i == |pre| && p == i + |lab| && q == p + |middle| + 2
    ensures StartsAt(s, i, lab)
    ensures forall j :: p <= j < p + |middle| ==> s[j] != '\n' && s[j] != '$'
    ensures q <= |s| && s[q - 2] == ' ' && StartsAt(s, q - 2, " $")
    ensures q + |amount| <= |s| && s[q..q + |amount|] == amount
  {
    var t := p + |middle|;
    assert s[i..p] == lab;
    forall j | p <= j < t
      ensures s[j] != '\n' && s[j] != '$'
    {
      assert s[j] == middle[j - p];
    }
    assert s[t..t + 2] == " $";
    assert s[q..q + |amount|] == amount;
  }

  /** Positions on the same line where ` $` does not start are passed over by the lazy gap. */
  lemma {:induction false} LazySkips(s: string, p: nat, k: nat, n: nat)
    requires k <= n && p + n + 1 < |s|
    requires forall i :: p + k <= i < p + n ==> s[i] != '\n'
    requires forall i :: p + k < i <= p + n ==> s[i] != '$'
    ensures LazyDollar(s, p, k) == LazyDollar(s, p, n)
    decreases n - k
  {
    if k < n {
      assert !StartsAt(s, p + k, " $") by {
        assert s[p + k..p + k + 2][1] == s[p + k + 1];
      }
      LazySkips(s, p, k + 1, n);
    }
  }
}
