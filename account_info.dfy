/** The two identity fields of the structured statement: the account number that
    `extract_account_number` captures (main.py:185-204) and the account holder read
    at the top of `structure_extract_in_json` (main.py:218-224). Both are regular
    expression searches; the functions below follow the regex engine's order of
    attempts (leftmost start, alternatives in order, greedy repetitions giving back
    one character at a time). */
module AccountInfo {
  import opened Wrappers
  import opened Text
  import opened Scan

  // ---- Account number: `Account (?:number:|#)\s*([\d\s]+)` ----

  const NumberLabel := "Account number:"
  const HashLabel := "Account #"

  /** `[\d\s]`. */
  predicate IsDigitOrSpace(c: char) {
    IsDigit(c) || IsSpace(c)
  }

  /** End of the longest run of `[\d\s]` starting at `p`. */
  function DigitSpaceEnd(s: string, p: nat): (e: nat)
    requires p <= |s|
    ensures p <= e <= |s|
    ensures forall i :: p <= i < e ==> IsDigitOrSpace(s[i])
    ensures e == |s| || !IsDigitOrSpace(s[e])
    decreases |s| - p
  {
    if p < |s| && IsDigitOrSpace(s[p]) then DigitSpaceEnd(s, p + 1) else p
  }

  /** `\s*([\d\s]+)` from `p`, the `\s*` holding `w` whitespace characters and giving them
      back one at a time until `[\d\s]+` can take at least one; the group's span. */
  function NumberTail(s: string, p: nat, w: nat): (r: Option<(nat, nat)>)
    requires p + w <= |s|
    ensures r.Some? ==> p <= r.value.0 < r.value.1 <= |s|
    decreases w
  {
    var e := DigitSpaceEnd(s, p + w);
    if e > p + w then Some((p + w, e))
    else if w == 0 then None
    else NumberTail(s, p, w - 1)
  }

  /** The pattern at `i`, the alternative `number:` tried before `#`. */
  function NumberAt(s: string, i: nat): (r: Option<(nat, nat)>)
    requires i <= |s|
    ensures r.Some? ==> i < r.value.0 < r.value.1 <= |s|
  {
    var first :=
      if StartsAt(s, i, NumberLabel) then
        NumberTail(s, i + |NumberLabel|, SpaceRun(s, i + |NumberLabel|))
      else None;
    if first.Some? then first
    else if StartsAt(s, i, HashLabel) then
      NumberTail(s, i + |HashLabel|, SpaceRun(s, i + |HashLabel|))
    else None
  }

  /** The attempt at every start position of the text, in order. */
  function NumberAttempts(s: string): (r: seq<Option<(nat, nat)>>)
    ensures |r| == |s| + 1
    ensures forall j :: 0 <= j <= |s| ==> r[j] == NumberAt(s, j)
  {
    seq(|s| + 1, j requires 0 <= j <= |s| => NumberAt(s, j))
  }

  /** `re.search` from `i` on: the first start where the pattern matches. */
  function SearchNumber(s: string, i: nat): (r: Option<nat>)
    requires i <= |s|
    ensures r.None? ==> forall j :: i <= j <= |s| ==> NumberAt(s, j).None?
    ensures r.Some? ==>
      && i <= r.value <= |s|
      && NumberAt(s, r.value).Some?
      && forall j :: i <= j < r.value ==> NumberAt(s, j).None?
  {
    FirstFrom(NumberAttempts(s), i)
  }

  /** `extract_account_number`: the captured group with surrounding whitespace removed,
      or `None` when the pattern does not match. */
  function ExtractAccountNumber(s: string): (r: Option<string>)
    ensures r.None? <==> SearchNumber(s, 0).None?
  {
    match SearchNumber(s, 0)
    case None => None
    case Some(start) =>
      var span := NumberAt(s, start).value;
      Some(Strip(s[span.0..span.1]))
  }

  /** A label whose next character can start `\s*[\d\s]+`. */
  predicate Anchored(s: string, i: nat, lab: string) {
    StartsAt(s, i, lab) && i + |lab| < |s| && IsDigitOrSpace(s[i + |lab|])
  }

  /** The capture, by what follows the label: the whole `[\d\s]` run when the whitespace is
      followed by a digit; otherwise only the last whitespace character, which the group
      needs to be non-empty; nothing when the label is followed by neither. */
  lemma {:induction false} NumberTailShape(s: string, p: nat)
    requires p <= |s|
    ensures var w := SpaceRun(s, p);
      NumberTail(s, p, w) ==
        if p + w < |s| && IsDigit(s[p + w]) then Some((p + w, DigitSpaceEnd(s, p + w)))
        else if w > 0 then Some((p + w - 1, p + w))
        else None
  {
    var w := SpaceRun(s, p);
    if !(p + w < |s| && IsDigit(s[p + w])) && w > 0 {
      assert DigitSpaceEnd(s, p + w) == p + w;
      assert DigitSpaceEnd(s, p + w - 1) == DigitSpaceEnd(s, p + w);
    }
  }

  /** The pattern matches at `i` exactly when one of the labels starts there and is followed
      by a digit or a whitespace character. */
  lemma NumberAtIff(s: string, i: nat)
    requires i <= |s|
    ensures NumberAt(s, i).Some? <==> Anchored(s, i, NumberLabel) || Anchored(s, i, HashLabel)
  {
    if StartsAt(s, i, NumberLabel) {
      NumberTailShape(s, i + |NumberLabel|);
    }
    if StartsAt(s, i, HashLabel) {
      NumberTailShape(s, i + |HashLabel|);
    }
  }

  /** `None` exactly when no label in the text is followed by a digit or whitespace. */
  lemma NoNumberIff(s: string)
    ensures ExtractAccountNumber(s).None? <==>
      forall i :: 0 <= i <= |s| ==> !Anchored(s, i, NumberLabel) && !Anchored(s, i, HashLabel)
  {
    forall i | 0 <= i <= |s| {
      NumberAtIff(s, i);
    }
  }

  /** What is returned is made of digits and whitespace, and begins and ends with a digit
      unless it is empty. */
  lemma ExtractedNumberShape(s: string)
    requires ExtractAccountNumber(s).Some?
    ensures var n := ExtractAccountNumber(s).value;
      && (forall k :: 0 <= k < |n| ==> IsDigitOrSpace(n[k]))
      && (n == [] || (IsDigit(n[0]) && IsDigit(n[|n| - 1])))
  {
    var j := SearchNumber(s, 0).value;
    var span := NumberAt(s, j).value;
    GroupIsDigitsAndSpaces(s, j);
    StrippedRun(s[span.0..span.1]);
  }

  /** Stripping text made of digits and whitespace leaves digits and whitespace, with a
      digit at each end. */
  lemma StrippedRun(g: string)
    requires forall k :: 0 <= k < |g| ==> IsDigitOrSpace(g[k])
    ensures var n := Strip(g);
      && (forall k :: 0 <= k < |n| ==> IsDigitOrSpace(n[k]))
      && (n == [] || (IsDigit(n[0]) && IsDigit(n[|n| - 1])))
  {
    StripKeeps(g, IsDigitOrSpace);
  }

  /** The group of a match is a run of `[\d\s]`. */
  lemma GroupIsDigitsAndSpaces(s: string, j: nat)
    requires j <= |s| && NumberAt(s, j).Some?
    ensures forall k :: NumberAt(s, j).value.0 <= k < NumberAt(s, j).value.1 ==> IsDigitOrSpace(s[k])
  {
    if StartsAt(s, j, NumberLabel) && NumberAt(s, j) == NumberTail(s, j + |NumberLabel|, SpaceRun(s, j + |NumberLabel|)) {
      NumberTailShape(s, j + |NumberLabel|);
    } else {
      NumberTailShape(s, j + |HashLabel|);
    }
  }

  /** No label followed by a digit or whitespace anywhere in `pre`, then a label, whitespace
      and a number made of digits and inner spaces: that number is given back. */
  lemma ReadsAccountNumber(pre: string, lab: string, spaces: string, number: string, rest: string, s: string)
    requires lab == NumberLabel || lab == HashLabel
    requires forall k :: 0 <= k < |spaces| ==> IsSpace(spaces[k])
    requires number != [] && IsDigit(number[0]) && IsDigit(number[|number| - 1])
    requires forall k :: 0 <= k < |number| ==> IsDigitOrSpace(number[k])
    requires rest == [] || !IsDigitOrSpace(rest[0])
    requires s == pre + lab + spaces + number + rest
    requires forall j :: 0 <= j < |pre| ==> !Anchored(s, j, NumberLabel) && !Anchored(s, j, HashLabel)
    ensures ExtractAccountNumber(s) == Some(number)
  {
    NumberLayoutMatch(pre, lab, spaces, number, rest, s);
    StripDigitEnds(number);
  }

  /** The group is the number, kept with its surrounding whitespace stripped. */
  lemma NumberLayoutMatch(pre: string, lab: string, spaces: string, number: string, rest: string, s: string)
    requires lab == NumberLabel || lab == HashLabel
    requires forall k :: 0 <= k < |spaces| ==> IsSpace(spaces[k])
    requires number != [] && IsDigit(number[0])
    requires forall k :: 0 <= k < |number| ==> IsDigitOrSpace(number[k])
    requires rest == [] || !IsDigitOrSpace(rest[0])
    requires s == pre + lab + spaces + number + rest
    requires forall j :: 0 <= j < |pre| ==> !Anchored(s, j, NumberLabel) && !Anchored(s, j, HashLabel)
    ensures ExtractAccountNumber(s) == Some(Strip(number))
  {
    var i := |pre|;
    var q := i + |lab| + |spaces|;
    var e := q + |number|;
    LabelLayout(pre, lab, spaces, number, rest, s, i, q, e);
    NumberAtLabel(lab, s, i, q, e);
    NoNumberBefore(s, i);
    ExtractAt(s, i, q, e);
  }

  /** No label followed by a digit or whitespace anywhere in `pre`, then a label followed by
      whitespace and then something that is neither a digit nor whitespace: reported as
      found, with an empty number, since the group keeps the last whitespace character and
      `strip()` removes it. */
  lemma EmptyNumberAfterSpaces(pre: string, lab: string, spaces: string, rest: string, s: string)
    requires lab == NumberLabel || lab == HashLabel
    requires spaces != [] && forall k :: 0 <= k < |spaces| ==> IsSpace(spaces[k])
    requires rest == [] || !IsDigitOrSpace(rest[0])
    requires s == pre + lab + spaces + rest
    requires forall j :: 0 <= j < |pre| ==> !Anchored(s, j, NumberLabel) && !Anchored(s, j, HashLabel)
    ensures ExtractAccountNumber(s) == Some([])
  {
    var q := |pre| + |lab| + |spaces|;
    LastSpaceGroup(pre, lab, spaces, rest, s, q);
    assert s[q - 1..q][0] == s[q - 1];
    StripAllSpaces(s[q - 1..q]);
  }

  /** The group is the last whitespace character before the end of the run. */
  lemma LastSpaceGroup(pre: string, lab: string, spaces: string, rest: string, s: string, q: nat)
    requires lab == NumberLabel || lab == HashLabel
    requires spaces != [] && forall k :: 0 <= k < |spaces| ==> IsSpace(spaces[k])
    requires rest == [] || !IsDigitOrSpace(rest[0])
    requires s == pre + lab + spaces + rest && q == |pre| + |lab| + |spaces|
    requires forall j :: 0 <= j < |pre| ==> !Anchored(s, j, NumberLabel) && !Anchored(s, j, HashLabel)
    ensures 0 < q <= |s| && ExtractAccountNumber(s) == Some(Strip(s[q - 1..q]))
    ensures IsSpace(s[q - 1])
  {
    var i := |pre|;
    assert s == pre + lab + spaces + [] + rest;
    LabelLayout(pre, lab, spaces, [], rest, s, i, q, q);
    SpacesAtLabel(lab, s, i, q);
    NoNumberBefore(s, i);
    ExtractAt(s, i, q - 1, q);
  }

  /** The match at `i` when the whitespace after the label is followed by a digit. */
  lemma NumberAtLabel(lab: string, s: string, i: nat, q: nat, e: nat)
    requires lab == NumberLabel || lab == HashLabel
    requires StartsAt(s, i, lab) && i + |lab| <= q < e <= |s|
    requires forall k :: i + |lab| <= k < q ==> IsSpace(s[k])
    requires IsDigit(s[q])
    requires forall k :: q <= k < e ==> IsDigitOrSpace(s[k])
    requires e == |s| || !IsDigitOrSpace(s[e])
    ensures NumberAt(s, i) == Some((q, e))
  {
    var p := i + |lab|;
    SpaceRunIs(s, p, q - p);
    assert SpaceRun(s, p) == q - p && p + (q - p) == q;
    DigitSpaceEndAt(s, q, e);
    NumberTailShape(s, p);
    assert NumberTail(s, p, q - p) == Some((q, e));
    LabelAt(lab, s, i);
  }

  /** The match at `i` when the whitespace after the label is followed by neither a digit
      nor whitespace. */
  lemma SpacesAtLabel(lab: string, s: string, i: nat, q: nat)
    requires lab == NumberLabel || lab == HashLabel
    requires StartsAt(s, i, lab) && i + |lab| < q <= |s|
    requires forall k :: i + |lab| <= k < q ==> IsSpace(s[k])
    requires q == |s| || !IsDigitOrSpace(s[q])
    ensures NumberAt(s, i) == Some((q - 1, q))
  {
    var p := i + |lab|;
    SpaceRunIs(s, p, q - p);
    assert SpaceRun(s, p) == q - p && p + (q - p) == q;
    NumberTailShape(s, p);
    assert NumberTail(s, p, q - p) == Some((q - 1, q));
    LabelAt(lab, s, i);
  }

  /** No label followed by a digit or whitespace before `i`: no match before `i`. */
  lemma NoNumberBefore(s: string, i: nat)
    requires i <= |s|
    requires forall j :: 0 <= j < i ==> !Anchored(s, j, NumberLabel) && !Anchored(s, j, HashLabel)
    ensures forall j :: 0 <= j < i ==> NumberAt(s, j).None?
  {
    forall j | 0 <= j < i {
      NumberAtIff(s, j);
    }
  }

  /** A match at `i`, with none before it, is the one returned. */
  lemma ExtractAt(s: string, i: nat, q: nat, e: nat)
    requires i <= |s| && q <= e <= |s| && NumberAt(s, i) == Some((q, e))
    requires forall j :: 0 <= j < i ==> NumberAt(s, j).None?
    ensures ExtractAccountNumber(s) == Some(Strip(s[q..e]))
  {
    assert SearchNumber(s, 0) == Some(i);
  }

  lemma LabelLayout(pre: string, lab: string, spaces: string, number: string, rest: string, s: string, i: nat, q: nat, e: nat)
    requires s == pre + lab + spaces + number + rest
    requires forall k :: 0 <= k < |spaces| ==> IsSpace(spaces[k])
    requires forall k :: 0 <= k < |number| ==> IsDigitOrSpace(number[k])
    requires rest == [] || !IsDigitOrSpace(rest[0])
    requires i == |pre| && q == i + |lab| + |spaces| && e == q + |number|
    ensures StartsAt(s, i, lab) && e <= |s|
    ensures forall k :: i + |lab| <= k < q ==> IsSpace(s[k])
    ensures forall k :: q <= k < e ==> IsDigitOrSpace(s[k])
    ensures number != [] ==> s[q] == number[0]
    ensures e == |s| || !IsDigitOrSpace(s[e])
    ensures s[q..e] == number
  {
    assert s[i..i + |lab|] == lab;
    assert forall k :: i + |lab| <= k < q ==> s[k] == spaces[k - i - |lab|];
    assert forall k :: q <= k < e ==> s[k] == number[k - q];
    assert s[q..e] == number;
    if rest != [] {
      assert s[e] == rest[0];
    }
  }

  /** The label at `i` decides the match there. */
  lemma LabelAt(lab: string, s: string, i: nat)
    requires lab == NumberLabel || lab == HashLabel
    requires StartsAt(s, i, lab)
    ensures NumberAt(s, i) == NumberTail(s, i + |lab|, SpaceRun(s, i + |lab|))
  {
    LabelsDiffer();
    if lab == HashLabel {
      assert s[i..i + 9][8] == '#';
      if i + 15 <= |s| {
        assert s[i..i + 15][8] == s[i..i + 9][8];
      }
    } else {
      assert s[i..i + 15][8] == 'n';
      assert s[i..i + 9][8] == s[i..i + 15][8];
    }
  }

  /** The two labels part at their ninth character. */
  lemma LabelsDiffer()
    ensures |NumberLabel| == 15 && |HashLabel| == 9
    ensures NumberLabel[8] == 'n' && HashLabel[8] == '#'
  {
  }

  /** The whitespace run from `p` has exactly `w` characters. */
  lemma {:induction false} DigitSpaceEndAt(s: string, p: nat, e: nat)
    requires p <= e <= |s|
    requires forall i :: p <= i < e ==> IsDigitOrSpace(s[i])
    requires e == |s| || !IsDigitOrSpace(s[e])
    ensures DigitSpaceEnd(s, p) == e
    decreases e - p
  {
    if p < e {
      DigitSpaceEndAt(s, p + 1, e);
    }
  }

  // ---- Account holder: `^([A-Z\s]+)\nAccount summary`, multi-line ----

  const SummaryHeading := "\nAccount summary"
  const NameNotFound := "Name not found"

  /** `[A-Z\s]`. */
  predicate IsUpperOrSpace(c: char) {
    IsUpper(c) || IsSpace(c)
  }

  /** End of the longest run of `[A-Z\s]` starting at `p`; the run may cross newlines. */
  function UpperSpaceEnd(s: string, p: nat): (e: nat)
    requires p <= |s|
    ensures p <= e <= |s|
    ensures forall i :: p <= i < e ==> IsUpperOrSpace(s[i])
    ensures e == |s| || !IsUpperOrSpace(s[e])
    decreases |s| - p
  {
    if p < |s| && IsUpperOrSpace(s[p]) then UpperSpaceEnd(s, p + 1) else p
  }

  /** `([A-Z\s]+)\nAccount summary` from `i`, the group holding `n` characters and giving
      them back one at a time; where the group ends. */
  function HolderTail(s: string, i: nat, n: nat): (r: Option<nat>)
    requires i + n <= |s|
    ensures r.Some? ==> i < r.value <= i + n && StartsAt(s, r.value, SummaryHeading)
    ensures r.Some? ==> forall e :: r.value < e <= i + n ==> !StartsAt(s, e, SummaryHeading)
    decreases n
  {
    if n == 0 then None
    else if StartsAt(s, i + n, SummaryHeading) then Some(i + n)
    else HolderTail(s, i, n - 1)
  }

  /** The pattern at `i`: where its group ends. */
  function HolderAt(s: string, i: nat): (r: Option<nat>)
    requires i <= |s|
    ensures r.Some? ==> i < r.value <= |s|
  {
    if LineStart(s, i) then HolderTail(s, i, UpperSpaceEnd(s, i) - i) else None
  }

  /** The attempt at every start position of the text, in order. */
  function HolderAttempts(s: string): (r: seq<Option<nat>>)
    ensures |r| == |s| + 1
    ensures forall j :: 0 <= j <= |s| ==> r[j] == HolderAt(s, j)
  {
    seq(|s| + 1, j requires 0 <= j <= |s| => HolderAt(s, j))
  }

  /** `re.search` from `i` on: the first start where the pattern matches. */
  function SearchHolder(s: string, i: nat): (r: Option<nat>)
    requires i <= |s|
    ensures r.None? ==> forall j :: i <= j <= |s| ==> HolderAt(s, j).None?
    ensures r.Some? ==>
      && i <= r.value <= |s|
      && HolderAt(s, r.value).Some?
      && forall j :: i <= j < r.value ==> HolderAt(s, j).None?
  {
    FirstFrom(HolderAttempts(s), i)
  }

  /** `structured_data["account_holder"]`: the group with surrounding whitespace removed,
      or "Name not found". */
  function AccountHolder(s: string): (r: string)
    ensures SearchHolder(s, 0).None? <==> r == NameNotFound
  {
    match SearchHolder(s, 0)
    case None => NameNotFound
    case Some(start) =>
      var g := Strip(s[start..HolderAt(s, start).value]);
      assert g != NameNotFound by { StrippedUpper(s[start..HolderAt(s, start).value]); }
      g
  }

  /** A name as the holder pattern can report it: capitals and whitespace, with a capital
      at each end unless it is empty. */
  predicate IsName(n: string) {
    && (forall k :: 0 <= k < |n| ==> IsUpperOrSpace(n[k]))
    && (n == [] || (IsUpper(n[0]) && IsUpper(n[|n| - 1])))
  }

  /** Stripping text made of capitals and whitespace leaves a name; a name is never
      "Name not found", which has small letters. */
  lemma StrippedUpper(g: string)
    requires forall k :: 0 <= k < |g| ==> IsUpperOrSpace(g[k])
    ensures IsName(Strip(g)) && Strip(g) != NameNotFound
  {
    var n := Strip(g);
    StripKeeps(g, IsUpperOrSpace);
    if |n| == |NameNotFound| {
      assert NameNotFound[|NameNotFound| - 1] == 'd';
    }
  }

  /** A found holder is made of capitals and whitespace and begins and ends with a capital. */
  lemma HolderShape(s: string)
    requires AccountHolder(s) != NameNotFound
    ensures IsName(AccountHolder(s))
  {
    var start := SearchHolder(s, 0).value;
    var e := HolderAt(s, start).value;
    HolderGroup(s, start);
    SliceKeeps(s, start, e, IsUpperOrSpace);
    StrippedUpper(s[start..e]);
  }

  /** The group of a match is a run of `[A-Z\s]`. */
  lemma HolderGroup(s: string, i: nat)
    requires i <= |s| && HolderAt(s, i).Some?
    ensures forall k :: i <= k < HolderAt(s, i).value ==> IsUpperOrSpace(s[k])
  {
  }

  /** Without the heading anywhere in the text, the holder is "Name not found". */
  lemma NoHeadingNoHolder(s: string)
    requires !Contains(s, SummaryHeading)
    ensures AccountHolder(s) == NameNotFound
  {
    forall j | 0 <= j <= |s|
      ensures HolderAt(s, j).None?
    {
      if LineStart(s, j) {
        NoHeadingTail(s, j, UpperSpaceEnd(s, j) - j);
      }
    }
  }

  lemma {:induction false} NoHeadingTail(s: string, i: nat, n: nat)
    requires i + n <= |s| && !Contains(s, SummaryHeading)
    ensures HolderTail(s, i, n).None?
    decreases n
  {
    if n > 0 {
      assert !StartsAt(s, i + n, SummaryHeading);
      NoHeadingTail(s, i, n - 1);
    }
  }

  /** A statement whose holder line starts a line, after a `pre` where the holder pattern
      does not match: the holder's name in capitals and whitespace, then "Account summary"
      on the next line. It yields that name with surrounding whitespace removed. */
  lemma ReadsHolder(pre: string, name: string, rest: string, s: string)
    requires name != [] && forall k :: 0 <= k < |name| ==> IsUpperOrSpace(name[k])
    requires pre == [] || pre[|pre| - 1] == '\n'
    requires s == pre + name + SummaryHeading + rest
    requires forall j :: 0 <= j < |pre| ==> HolderAt(s, j).None?
    ensures AccountHolder(s) == Strip(name)
  {
    var i := |pre|;
    var n := i + |name|;
    HeadingLayout(pre, name, rest, s, i, n);
    HolderAtName(s, i, n);
    HolderFirstAt(s, i, n, name);
  }

  /** A group of whitespace only is found and strips to the empty name: in
      `"\n\nAccount summary"` the group gives back to the first newline. */
  lemma WhitespaceHolderIsEmpty()
    ensures AccountHolder("\n\nAccount summary") == ""
  {
    var s := "\n\nAccount summary";
    assert s == [] + "\n" + SummaryHeading + [];
    ReadsHolder([], "\n", [], s);
    assert Strip("\n") == "";
  }

  /** A match at `i` with its group ending at `n`, and none before it: the holder is the
      text in between, stripped. */
  lemma HolderFirstAt(s: string, i: nat, n: nat, name: string)
    requires i <= n <= |s| && HolderAt(s, i) == Some(n) && s[i..n] == name
    requires forall j :: 0 <= j < i ==> HolderAt(s, j).None?
    ensures AccountHolder(s) == Strip(name)
  {
    assert SearchHolder(s, 0) == Some(i);
  }

  /** Capitals and whitespace from a line start `i` to `n`, then the heading: the holder
      pattern matches at `i`, its group ending at `n`. */
  lemma HolderAtName(s: string, i: nat, n: nat)
    requires i < n && n + 16 <= |s| && LineStart(s, i)
    requires forall k :: i <= k < n ==> IsUpperOrSpace(s[k])
    requires StartsAt(s, n, SummaryHeading) && s[n] == '\n' && s[n + 1] == 'A' && s[n + 2] == 'c'
    requires SummaryHeading[0] == '\n'
    ensures HolderAt(s, i) == Some(n)
  {
    UpperSpaceEndAt(s, i, n + 2);
    assert !StartsAt(s, n + 2, SummaryHeading) by {
      assert s[n + 2] != SummaryHeading[0];
    }
    assert !StartsAt(s, n + 1, SummaryHeading) by {
      assert s[n + 1] != SummaryHeading[0];
    }
    assert HolderTail(s, i, n - i) == Some(n);
    assert HolderTail(s, i, n - i + 1) == Some(n);
    assert HolderTail(s, i, n - i + 2) == Some(n);
  }

  lemma HeadingLayout(pre: string, name: string, rest: string, s: string, i: nat, n: nat)
    requires s == pre + name + SummaryHeading + rest
    requires pre == [] || pre[|pre| - 1] == '\n'
    requires i == |pre| && n == i + |name|
    ensures n + 16 <= |s| && LineStart(s, i)
    ensures forall k :: i <= k < n ==> s[k] == name[k - i]
    ensures s[i..n] == name
    ensures StartsAt(s, n, SummaryHeading)
    ensures s[n] == '\n' && s[n + 1] == 'A' && s[n + 2] == 'c'
    ensures SummaryHeading[0] == '\n'
  {
    HeadingLetters();
    if pre != [] {
      assert s[i - 1] == pre[i - 1];
    }
    assert s[i..n] == name;
    assert s[n..n + 16] == SummaryHeading;
  }

  /** The heading's length and first three characters. */
  lemma HeadingLetters()
    ensures |SummaryHeading| == 16
    ensures SummaryHeading[0] == '\n' && SummaryHeading[1] == 'A' && SummaryHeading[2] == 'c'
  {
  }

  lemma {:induction false} UpperSpaceEndAt(s: string, p: nat, e: nat)
    requires p <= e <= |s|
    requires forall i :: p <= i < e ==> IsUpperOrSpace(s[i])
    requires e == |s| || !IsUpperOrSpace(s[e])
    ensures UpperSpaceEnd(s, p) == e
    decreases e - p
  {
    if p < e {
      UpperSpaceEndAt(s, p + 1, e);
    }
  }
}
