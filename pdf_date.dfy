/** PDF timestamp normalisation: `format_pdf_date` (main.py:98-114).
    `datetime.strptime(text, "%Y%m%d%H%M%S")` is modelled the way CPython's
    `_strptime` runs it: each directive becomes a regex fragment whose alternatives
    are tried in order; the first match found by backtracking is taken; it must then
    cover the whole text, and the fields must form a real date and time. */
module PdfDate {
  import opened Wrappers
  import opened Text

  /** One character class `[lo-hi]` of a regex fragment. */
  datatype CharRange = CharRange(lo: char, hi: char)

  /** One alternative of a fragment: a fixed-length run of character classes. */
  type Alternative = seq<CharRange>

  const AnyDigit := CharRange('0', '9')

  /** `%Y`: `\d\d\d\d`. */
  const YearAlternatives: seq<Alternative> := [[AnyDigit, AnyDigit, AnyDigit, AnyDigit]]
  /** `%m`: `1[0-2]|0[1-9]|[1-9]`. */
  const MonthAlternatives: seq<Alternative> :=
    [[CharRange('1', '1'), CharRange('0', '2')], [CharRange('0', '0'), CharRange('1', '9')], [CharRange('1', '9')]]
  /** `%d`: `3[0-1]|[1-2]\d|0[1-9]|[1-9]| [1-9]`. */
  const DayAlternatives: seq<Alternative> :=
    [[CharRange('3', '3'), CharRange('0', '1')], [CharRange('1', '2'), AnyDigit],
     [CharRange('0', '0'), CharRange('1', '9')], [CharRange('1', '9')],
     [CharRange(' ', ' '), CharRange('1', '9')]]
  /** `%H`: `2[0-3]|[0-1]\d|\d`. */
  const HourAlternatives: seq<Alternative> :=
    [[CharRange('2', '2'), CharRange('0', '3')], [CharRange('0', '1'), AnyDigit], [AnyDigit]]
  /** `%M`: `[0-5]\d|\d`. */
  const MinuteAlternatives: seq<Alternative> := [[CharRange('0', '5'), AnyDigit], [AnyDigit]]
  /** `%S`: `6[0-1]|[0-5]\d|\d`. */
  const SecondAlternatives: seq<Alternative> :=
    [[CharRange('6', '6'), CharRange('0', '1')], [CharRange('0', '5'), AnyDigit], [AnyDigit]]

  /** The format `%Y%m%d%H%M%S`, one fragment per directive. */
  const CompactFormat: seq<seq<Alternative>> :=
    [YearAlternatives, MonthAlternatives, DayAlternatives, HourAlternatives, MinuteAlternatives, SecondAlternatives]

  predicate Fits(alt: Alternative, s: string, pos: nat) {
    pos + |alt| <= |s| && forall i :: 0 <= i < |alt| ==> alt[i].lo <= s[pos + i] <= alt[i].hi
  }

  /** The text captured for each directive, and where the match ended. */
  datatype Captures = Captures(groups: seq<string>, end: nat)

  /** The first match of `fields` at `pos` in backtracking order, trying the first
      fragment's alternatives from the `k`-th on. The pattern has no end anchor, so
      the first complete traversal is the match. */
  function FirstMatch(fields: seq<seq<Alternative>>, k: nat, s: string, pos: nat): (r: Option<Captures>)
    requires pos <= |s|
    ensures r.Some? ==> |r.value.groups| == |fields| && pos <= r.value.end <= |s|
    decreases |fields|, if fields == [] then 0 else |fields[0]| - k
  {
    if fields == [] then Some(Captures([], pos))
    else if k >= |fields[0]| then None
    else
      var alt := fields[0][k];
      if Fits(alt, s, pos) then
        match FirstMatch(fields[1..], 0, s, pos + |alt|)
        case Some(rest) => Some(Captures([s[pos..pos + |alt|]] + rest.groups, rest.end))
        case None => FirstMatch(fields, k + 1, s, pos)
      else FirstMatch(fields, k + 1, s, pos)
  }

  datatype DateTime = DateTime(year: int, month: int, day: int, hour: int, minute: int, second: int)

  predicate IsLeapYear(y: int) {
    y % 4 == 0 && (y % 100 != 0 || y % 400 == 0)
  }

  function DaysInMonth(y: int, m: int): int
    requires 1 <= m <= 12
  {
    if m == 2 then (if IsLeapYear(y) then 29 else 28)
    else if m in {4, 6, 9, 11} then 30
    else 31
  }

  /** The ranges `datetime` accepts (years 1 to 9999, no leap seconds). */
  predicate IsValidDateTime(dt: DateTime) {
    && 1 <= dt.year <= 9999
    && 1 <= dt.month <= 12
    && 1 <= dt.day <= DaysInMonth(dt.year, dt.month)
    && 0 <= dt.hour <= 23
    && 0 <= dt.minute <= 59
    && 0 <= dt.second <= 59
  }

  /** `int(group)`; only the day fragment can capture a leading space, which `int` skips. */
  function FieldValue(g: string): nat {
    if |g| > 0 && g[0] == ' ' then DigitsValue(g[1..]) else DigitsValue(g)
  }

  /** `datetime.strptime(t, "%Y%m%d%H%M%S")`, with `None` for every `ValueError`. */
  function StrpTime(t: string): (r: Option<DateTime>)
    ensures r.Some? ==> IsValidDateTime(r.value)
  {
    match FirstMatch(CompactFormat, 0, t, 0)
    case None => None
    case Some(c) =>
      if c.end != |t| then None
      else
        var g := c.groups;
        var dt := DateTime(FieldValue(g[0]), FieldValue(g[1]), FieldValue(g[2]),
                           FieldValue(g[3]), FieldValue(g[4]), FieldValue(g[5]));
        if IsValidDateTime(dt) then Some(dt) else None
  }

  function Pad4(n: nat): (r: string)
    requires n < 10000
    ensures |r| == 4 && AllDigits(r)
  {
    Pad2(n / 100) + Pad2(n % 100)
  }

  /** `strftime("%Y-%m-%d %H:%M:%S")`. */
  function Render(dt: DateTime): (r: string)
    requires IsValidDateTime(dt)
    ensures |r| == 19 && '\'' !in r
  {
    Pad4(dt.year) + "-" + Pad2(dt.month) + "-" + Pad2(dt.day) + " " +
    Pad2(dt.hour) + ":" + Pad2(dt.minute) + ":" + Pad2(dt.second)
  }

  /** The fourteen-digit form `YYYYMMDDHHMMSS` that PDF dates carry after `D:`. */
  function Compact(dt: DateTime): (r: string)
    requires IsValidDateTime(dt)
    ensures |r| == 14 && AllDigits(r)
  {
    Pad4(dt.year) + Pad2(dt.month) + Pad2(dt.day) + Pad2(dt.hour) + Pad2(dt.minute) + Pad2(dt.second)
  }

  /** The input with a leading `D:` removed. */
  function DropPrefix(pdfDate: string): (s: string)
    ensures |s| <= |pdfDate|
  {
    if StartsAt(pdfDate, 0, "D:") then pdfDate[2..] else pdfDate
  }

  /** `pdf_date[:14]`. */
  function Head(s: string): string {
    if |s| <= 14 then s else s[..14]
  }

  /** `pdf_date[14:]` (empty when the text is 14 characters or shorter). */
  function Tail(s: string): string {
    if |s| <= 14 then [] else s[14..]
  }

  /** `format_pdf_date`: a parsable timestamp becomes `YYYY-MM-DD HH:MM:SS` followed by
      the rest of the text with every `'` turned into `:`; anything else comes back
      as given, minus the `D:` prefix. It never fails. */
  function FormatPdfDate(pdfDate: string): (r: string)
    ensures StrpTime(Head(DropPrefix(pdfDate))).None? ==> r == DropPrefix(pdfDate)
    ensures StrpTime(Head(DropPrefix(pdfDate))).Some? ==>
      && |r| >= 19
      && r[..19] == Render(StrpTime(Head(DropPrefix(pdfDate))).value)
      && r[19..] == ReplaceChar(Tail(DropPrefix(pdfDate)), '\'', ':')
      && '\'' !in r
  {
    var s := DropPrefix(pdfDate);
    match StrpTime(Head(s))
    case None => s
    case Some(dt) =>
      var timezone := Tail(s);
      var r := Render(dt) + ReplaceChar(timezone, '\'', ':');
      assert r[..19] == Render(dt);
      assert r[19..] == ReplaceChar(timezone, '\'', ':');
      r
  }

  /** An unparsable date never grows: it is the input with at most the prefix removed. */
  lemma UnparsableDateUnchanged(pdfDate: string)
    requires StrpTime(Head(DropPrefix(pdfDate))).None?
    ensures FormatPdfDate(pdfDate) == DropPrefix(pdfDate)
    ensures |FormatPdfDate(pdfDate)| <= |pdfDate|
    ensures !StartsAt(pdfDate, 0, "D:") ==> FormatPdfDate(pdfDate) == pdfDate
  {
  }

  // ---- The round trip: a fourteen-digit timestamp parses to the date it encodes ----

  /** Taking the `j`-th alternative: the earlier ones do not fit, it fits, and the rest matches. */
  lemma {:induction false} PickAlternative(fields: seq<seq<Alternative>>, k: nat, j: nat, s: string, pos: nat, rest: Captures)
    requires pos <= |s| && fields != [] && k <= j < |fields[0]|
    requires forall i :: k <= i < j ==> !Fits(fields[0][i], s, pos)
    requires Fits(fields[0][j], s, pos)
    requires FirstMatch(fields[1..], 0, s, pos + |fields[0][j]|) == Some(rest)
    ensures FirstMatch(fields, k, s, pos) == Some(Captures([s[pos..pos + |fields[0][j]|]] + rest.groups, rest.end))
    decreases j - k
  {
    if k < j {
      PickAlternative(fields, k + 1, j, s, pos, rest);
    }
  }

  lemma Pad2Value(n: nat)
    requires n < 100
    ensures FieldValue(Pad2(n)) == n
  {
    Pad2Digits(n);
  }

  lemma Pad4Value(n: nat)
    requires n < 10000
    ensures FieldValue(Pad4(n)) == n
  {
    var hi, lo := Pad2(n / 100), Pad2(n % 100);
    DigitsValueAppend(hi, lo);
    Pad2Value(n / 100);
    Pad2Value(n % 100);
    assert Pow10(2) == 100;
  }

  /** The seconds fragment at `pos` takes two characters `[0-5]\d`. */
  lemma SecondsAt(s: string, pos: nat)
    requires pos + 2 <= |s| && '0' <= s[pos] <= '5' && IsDigit(s[pos + 1])
    ensures FirstMatch(CompactFormat[5..], 0, s, pos) == Some(Captures([s[pos..pos + 2]], pos + 2))
  {
    var fields := CompactFormat[5..];
    assert fields[0] == SecondAlternatives && fields[1..] == [];
    assert !Fits(fields[0][0], s, pos) by { assert fields[0][0][0] == CharRange('6', '6'); }
    assert Fits(fields[0][1], s, pos);
    assert |fields[0][1]| == 2;
    assert FirstMatch(fields[1..], 0, s, pos + 2) == Some(Captures([], pos + 2));
    PickAlternative(fields, 0, 1, s, pos, Captures([], pos + 2));
    assert [s[pos..pos + 2]] + [] == [s[pos..pos + 2]];
  }

  /** The minutes fragment at `pos` takes two characters `[0-5]\d`. */
  lemma MinutesAt(s: string, pos: nat, rest: Captures)
    requires pos + 2 <= |s| && '0' <= s[pos] <= '5' && IsDigit(s[pos + 1])
    requires FirstMatch(CompactFormat[5..], 0, s, pos + 2) == Some(rest)
    ensures FirstMatch(CompactFormat[4..], 0, s, pos) == Some(Captures([s[pos..pos + 2]] + rest.groups, rest.end))
  {
    var fields := CompactFormat[4..];
    assert fields[0] == MinuteAlternatives && fields[1..] == CompactFormat[5..];
    assert Fits(fields[0][0], s, pos);
    PickAlternative(fields, 0, 0, s, pos, rest);
  }

  /** The hours fragment at `pos` takes two characters `2[0-3]` or `[0-1]\d`. */
  lemma HoursAt(s: string, pos: nat, rest: Captures)
    requires pos + 2 <= |s|
    requires (s[pos] == '2' && '0' <= s[pos + 1] <= '3') || ('0' <= s[pos] <= '1' && IsDigit(s[pos + 1]))
    requires FirstMatch(CompactFormat[4..], 0, s, pos + 2) == Some(rest)
    ensures FirstMatch(CompactFormat[3..], 0, s, pos) == Some(Captures([s[pos..pos + 2]] + rest.groups, rest.end))
  {
    var fields := CompactFormat[3..];
    assert fields[0] == HourAlternatives && fields[1..] == CompactFormat[4..];
    if s[pos] == '2' {
      assert Fits(fields[0][0], s, pos);
      PickAlternative(fields, 0, 0, s, pos, rest);
    } else {
      assert !Fits(fields[0][0], s, pos) by { assert fields[0][0][0] == CharRange('2', '2'); }
      assert Fits(fields[0][1], s, pos);
      PickAlternative(fields, 0, 1, s, pos, rest);
    }
  }

  /** The day fragment at `pos` takes two characters `3[0-1]`, `[1-2]\d` or `0[1-9]`. */
  lemma DaysAt(s: string, pos: nat, rest: Captures)
    requires pos + 2 <= |s|
    requires || (s[pos] == '3' && '0' <= s[pos + 1] <= '1')
             || ('1' <= s[pos] <= '2' && IsDigit(s[pos + 1]))
             || (s[pos] == '0' && '1' <= s[pos + 1] <= '9')
    requires FirstMatch(CompactFormat[3..], 0, s, pos + 2) == Some(rest)
    ensures FirstMatch(CompactFormat[2..], 0, s, pos) == Some(Captures([s[pos..pos + 2]] + rest.groups, rest.end))
  {
    var fields := CompactFormat[2..];
    assert fields[0] == DayAlternatives && fields[1..] == CompactFormat[3..];
    if s[pos] == '3' {
      assert Fits(fields[0][0], s, pos);
      PickAlternative(fields, 0, 0, s, pos, rest);
    } else if s[pos] != '0' {
      assert !Fits(fields[0][0], s, pos) by { assert fields[0][0][0] == CharRange('3', '3'); }
      assert Fits(fields[0][1], s, pos);
      PickAlternative(fields, 0, 1, s, pos, rest);
    } else {
      assert !Fits(fields[0][0], s, pos) by { assert fields[0][0][0] == CharRange('3', '3'); }
      assert !Fits(fields[0][1], s, pos) by { assert fields[0][1][0] == CharRange('1', '2'); }
      assert Fits(fields[0][2], s, pos);
      PickAlternative(fields, 0, 2, s, pos, rest);
    }
  }

  /** The month fragment at `pos` takes two characters `1[0-2]` or `0[1-9]`. */
  lemma MonthsAt(s: string, pos: nat, rest: Captures)
    requires pos + 2 <= |s|
    requires (s[pos] == '1' && '0' <= s[pos + 1] <= '2') || (s[pos] == '0' && '1' <= s[pos + 1] <= '9')
    requires FirstMatch(CompactFormat[2..], 0, s, pos + 2) == Some(rest)
    ensures FirstMatch(CompactFormat[1..], 0, s, pos) == Some(Captures([s[pos..pos + 2]] + rest.groups, rest.end))
  {
    var fields := CompactFormat[1..];
    assert fields[0] == MonthAlternatives && fields[1..] == CompactFormat[2..];
    if s[pos] == '1' {
      assert Fits(fields[0][0], s, pos);
      PickAlternative(fields, 0, 0, s, pos, rest);
    } else {
      assert !Fits(fields[0][0], s, pos) by { assert fields[0][0][0] == CharRange('1', '1'); }
      assert Fits(fields[0][1], s, pos);
      PickAlternative(fields, 0, 1, s, pos, rest);
    }
  }

  /** A month digit from 2 to 9 fits neither two-character alternative, so `[1-9]` takes it alone. */
  lemma MonthOneDigitAt(s: string, pos: nat, rest: Captures)
    requires pos + 1 <= |s| && '2' <= s[pos] <= '9'
    requires FirstMatch(CompactFormat[2..], 0, s, pos + 1) == Some(rest)
    ensures FirstMatch(CompactFormat[1..], 0, s, pos) == Some(Captures([s[pos..pos + 1]] + rest.groups, rest.end))
  {
    var fields := CompactFormat[1..];
    assert fields[0] == MonthAlternatives && fields[1..] == CompactFormat[2..];
    assert !Fits(fields[0][0], s, pos) by { assert fields[0][0][0] == CharRange('1', '1'); }
    assert !Fits(fields[0][1], s, pos) by { assert fields[0][1][0] == CharRange('0', '0'); }
    assert Fits(fields[0][2], s, pos);
    PickAlternative(fields, 0, 2, s, pos, rest);
  }

  /** The year fragment takes the first four digits. */
  lemma YearAt(s: string, rest: Captures)
    requires 4 <= |s| && IsDigit(s[0]) && IsDigit(s[1]) && IsDigit(s[2]) && IsDigit(s[3])
    requires FirstMatch(CompactFormat[1..], 0, s, 4) == Some(rest)
    ensures FirstMatch(CompactFormat, 0, s, 0) == Some(Captures([s[0..4]] + rest.groups, rest.end))
  {
    var fields := CompactFormat;
    assert fields[0] == YearAlternatives;
    assert Fits(fields[0][0], s, 0);
    PickAlternative(fields, 0, 0, s, 0, rest);
  }

  /** Where each field sits in the fourteen-digit form. */
  lemma CompactLayout(dt: DateTime)
    requires IsValidDateTime(dt)
    ensures var s := Compact(dt);
      && s[0..4] == Pad4(dt.year) && s[4..6] == Pad2(dt.month) && s[6..8] == Pad2(dt.day)
      && s[8..10] == Pad2(dt.hour) && s[10..12] == Pad2(dt.minute) && s[12..14] == Pad2(dt.second)
  {
    var a, b, c := Pad4(dt.year), Pad2(dt.month), Pad2(dt.day);
    var d, e, f := Pad2(dt.hour), Pad2(dt.minute), Pad2(dt.second);
    var s := Compact(dt);
    assert s == a + b + c + d + e + f;
    assert s[0..4] == a by { forall i | 0 <= i < 4 ensures s[i] == a[i] { } }
    assert s[4..6] == b by { assert s[4] == b[0] && s[5] == b[1]; }
    assert s[6..8] == c by { assert s[6] == c[0] && s[7] == c[1]; }
    assert s[8..10] == d by { assert s[8] == d[0] && s[9] == d[1]; }
    assert s[10..12] == e by { assert s[10] == e[0] && s[11] == e[1]; }
    assert s[12..14] == f by { assert s[12] == f[0] && s[13] == f[1]; }
  }

  /** The two characters of a two-digit field. */
  lemma DigitPair(s: string, pos: nat, n: nat)
    requires n < 100 && pos + 2 <= |s| && s[pos..pos + 2] == Pad2(n)
    ensures s[pos] == DigitChar(n / 10) && s[pos + 1] == DigitChar(n % 10)
  {
    assert s[pos] == s[pos..pos + 2][0];
    assert s[pos + 1] == s[pos..pos + 2][1];
  }

  /** A match covering the whole text whose captures read as a valid date is what `strptime` returns. */
  lemma StrpTimeOfMatch(t: string, g: seq<string>, dt: DateTime)
    requires FirstMatch(CompactFormat, 0, t, 0) == Some(Captures(g, |t|))
    requires |g| == 6 && IsValidDateTime(dt)
    requires FieldValue(g[0]) == dt.year && FieldValue(g[1]) == dt.month && FieldValue(g[2]) == dt.day
    requires FieldValue(g[3]) == dt.hour && FieldValue(g[4]) == dt.minute && FieldValue(g[5]) == dt.second
    ensures StrpTime(t) == Some(dt)
  {
  }

  /** The characters of a two-digit day from 01 to 31. */
  predicate DayChars(s: string, pos: nat) {
    && pos + 2 <= |s|
    && (|| (s[pos] == '3' && '0' <= s[pos + 1] <= '1')
        || ('1' <= s[pos] <= '2' && IsDigit(s[pos + 1]))
        || (s[pos] == '0' && '1' <= s[pos + 1] <= '9'))
  }

  /** The characters of a two-digit hour from 00 to 23. */
  predicate HourChars(s: string, pos: nat) {
    && pos + 2 <= |s|
    && ((s[pos] == '2' && '0' <= s[pos + 1] <= '3') || ('0' <= s[pos] <= '1' && IsDigit(s[pos + 1])))
  }

  /** The characters of a two-digit minute or second from 00 to 59. */
  predicate SixtyChars(s: string, pos: nat) {
    pos + 2 <= |s| && '0' <= s[pos] <= '5' && IsDigit(s[pos + 1])
  }

  /** Day, hour, minute and second, two characters each, match the last four fragments. */
  lemma DayTimeFields(s: string, pos: nat)
    requires pos + 8 <= |s|
    requires DayChars(s, pos) && HourChars(s, pos + 2) && SixtyChars(s, pos + 4) && SixtyChars(s, pos + 6)
    ensures FirstMatch(CompactFormat[2..], 0, s, pos) ==
      Some(Captures([s[pos..pos + 2], s[pos + 2..pos + 4], s[pos + 4..pos + 6], s[pos + 6..pos + 8]], pos + 8))
  {
    SecondsAt(s, pos + 6);
    var c5 := Captures([s[pos + 6..pos + 8]], pos + 8);
    MinutesAt(s, pos + 4, c5);
    var c4 := Captures([s[pos + 4..pos + 6]] + c5.groups, pos + 8);
    HoursAt(s, pos + 2, c4);
    var c3 := Captures([s[pos + 2..pos + 4]] + c4.groups, pos + 8);
    DaysAt(s, pos, c3);
    assert [s[pos..pos + 2]] + c3.groups == [s[pos..pos + 2], s[pos + 2..pos + 4], s[pos + 4..pos + 6], s[pos + 6..pos + 8]];
  }

  /** The padded day, hour, minute and second of a valid date have the characters the fragments take. */
  lemma PaddedDayTime(s: string, pos: nat, dt: DateTime)
    requires IsValidDateTime(dt) && pos + 8 <= |s|
    requires s[pos..pos + 2] == Pad2(dt.day) && s[pos + 2..pos + 4] == Pad2(dt.hour)
    requires s[pos + 4..pos + 6] == Pad2(dt.minute) && s[pos + 6..pos + 8] == Pad2(dt.second)
    ensures DayChars(s, pos) && HourChars(s, pos + 2) && SixtyChars(s, pos + 4) && SixtyChars(s, pos + 6)
  {
    DigitPair(s, pos, dt.day);
    DigitPair(s, pos + 2, dt.hour);
    DigitPair(s, pos + 4, dt.minute);
    DigitPair(s, pos + 6, dt.second);
  }

  /** The backtracking match of the format against the fourteen-digit form takes two
      characters per field after the four-digit year. */
  lemma CompactMatch(dt: DateTime)
    requires IsValidDateTime(dt)
    ensures FirstMatch(CompactFormat, 0, Compact(dt), 0) ==
      Some(Captures([Pad4(dt.year), Pad2(dt.month), Pad2(dt.day), Pad2(dt.hour), Pad2(dt.minute), Pad2(dt.second)], 14))
  {
    var s := Compact(dt);
    CompactLayout(dt);
    PaddedDayTime(s, 6, dt);
    DayTimeFields(s, 6);
    var c2 := Captures([s[6..8], s[8..10], s[10..12], s[12..14]], 14);
    DigitPair(s, 4, dt.month);
    MonthsAt(s, 4, c2);
    var c1 := Captures([s[4..6]] + c2.groups, 14);
    assert IsDigit(s[0]) && IsDigit(s[1]) && IsDigit(s[2]) && IsDigit(s[3]);
    YearAt(s, c1);
    assert [s[0..4]] + c1.groups == [Pad4(dt.year), Pad2(dt.month), Pad2(dt.day), Pad2(dt.hour), Pad2(dt.minute), Pad2(dt.second)];
  }

  /** Parsing the fourteen-digit form of a valid date and time gives it back. */
  lemma {:induction false} StrpTimeCompact(dt: DateTime)
    requires IsValidDateTime(dt)
    ensures StrpTime(Compact(dt)) == Some(dt)
  {
    var g := [Pad4(dt.year), Pad2(dt.month), Pad2(dt.day), Pad2(dt.hour), Pad2(dt.minute), Pad2(dt.second)];
    CompactMatch(dt);
    Pad4Value(dt.year);
    Pad2Value(dt.month);
    Pad2Value(dt.day);
    Pad2Value(dt.hour);
    Pad2Value(dt.minute);
    Pad2Value(dt.second);
    StrpTimeOfMatch(Compact(dt), g, dt);
  }

  /** Formatting text without the prefix whose first fourteen characters parse. */
  lemma FormatParsed(s: string, dt: DateTime)
    requires !StartsAt(s, 0, "D:")
    requires StrpTime(Head(s)) == Some(dt)
    ensures FormatPdfDate(s) == Render(dt) + ReplaceChar(Tail(s), '\'', ':')
    ensures FormatPdfDate("D:" + s) == FormatPdfDate(s)
  {
    assert ("D:" + s)[..2] == "D:";
    assert ("D:" + s)[2..] == s;
  }

  /** A PDF date `D:YYYYMMDDHHMMSS` followed by any zone text is rendered as
      `YYYY-MM-DD HH:MM:SS` followed by that text with `'` turned into `:`;
      with no zone text nothing is appended. */
  lemma {:induction false} FormatCanonicalDate(dt: DateTime, zone: string)
    requires IsValidDateTime(dt)
    ensures FormatPdfDate("D:" + (Compact(dt) + zone)) == Render(dt) + ReplaceChar(zone, '\'', ':')
    ensures FormatPdfDate(Compact(dt) + zone) == Render(dt) + ReplaceChar(zone, '\'', ':')
  {
    var c := Compact(dt);
    StrpTimeCompact(dt);
    var s := c + zone;
    assert !StartsAt(s, 0, "D:") by { assert s[0] == c[0]; assert IsDigit(s[0]); }
    assert Head(s) == c by { assert s[..14] == c; }
    assert Tail(s) == zone by {
      if |s| > 14 { assert s[14..] == zone; } else { assert zone == []; }
    }
    FormatParsed(s, dt);
  }

  /** Exactly fourteen digits after the prefix: nothing is appended. */
  lemma FormatBareDate(dt: DateTime)
    requires IsValidDateTime(dt)
    ensures FormatPdfDate("D:" + Compact(dt)) == Render(dt)
  {
    FormatCanonicalDate(dt, []);
    assert Compact(dt) + [] == Compact(dt);
    assert ReplaceChar([], '\'', ':') == [];
    assert Render(dt) + [] == Render(dt);
  }

  /** The documented example: `D:20250731144353-05'00` becomes `2025-07-31 14:43:53-05:00`. */
  lemma DocumentedExample(input: string)
    requires input == "D:20250731144353-05'00"
    ensures FormatPdfDate(input) == "2025-07-31 14:43:53-05:00"
  {
    var dt :| dt == DateTime(2025, 7, 31, 14, 43, 53);
    var zone :| zone == "-05'00";
    ExamplePieces(input, dt, zone);
    FormatCanonicalDate(dt, zone);
  }

  lemma ExamplePieces(input: string, dt: DateTime, zone: string)
    requires input == "D:20250731144353-05'00"
    requires dt == DateTime(2025, 7, 31, 14, 43, 53) && zone == "-05'00"
    ensures IsValidDateTime(dt)
    ensures input == "D:" + (Compact(dt) + zone)
    ensures Render(dt) + ReplaceChar(zone, '\'', ':') == "2025-07-31 14:43:53-05:00"
  {
    ExampleCompact(dt);
    ExampleRender(dt);
    assert ReplaceChar(zone, '\'', ':') == "-05:00";
  }

  lemma ExampleCompact(dt: DateTime)
    requires dt == DateTime(2025, 7, 31, 14, 43, 53)
    ensures IsValidDateTime(dt) && Compact(dt) == "20250731144353"
  {
    ExampleFields();
  }

  lemma ExampleRender(dt: DateTime)
    requires dt == DateTime(2025, 7, 31, 14, 43, 53)
    ensures IsValidDateTime(dt) && Render(dt) == "2025-07-31 14:43:53"
  {
    ExampleFields();
  }

  lemma ExampleFields()
    ensures Pad4(2025) == "2025" && Pad2(7) == "07" && Pad2(31) == "31"
    ensures Pad2(14) == "14" && Pad2(43) == "43" && Pad2(53) == "53"
  {
    assert Pad2(20) == "20" && Pad2(25) == "25";
  }

  /** The thirteen-character form with a one-digit month `YYYYMDDHHMMSS`. */
  function ShortMonth(dt: DateTime): (r: string)
    requires IsValidDateTime(dt) && dt.month <= 9
    ensures |r| == 13
  {
    Pad4(dt.year) + [DigitChar(dt.month)] + Pad2(dt.day) + Pad2(dt.hour) + Pad2(dt.minute) + Pad2(dt.second)
  }

  lemma ShortMonthLayout(dt: DateTime)
    requires IsValidDateTime(dt) && dt.month <= 9
    ensures var s := ShortMonth(dt);
      && s[0..4] == Pad4(dt.year) && s[4..5] == [DigitChar(dt.month)] && s[5..7] == Pad2(dt.day)
      && s[7..9] == Pad2(dt.hour) && s[9..11] == Pad2(dt.minute) && s[11..13] == Pad2(dt.second)
  {
    var a, b, c := Pad4(dt.year), [DigitChar(dt.month)], Pad2(dt.day);
    var d, e, f := Pad2(dt.hour), Pad2(dt.minute), Pad2(dt.second);
    var s := ShortMonth(dt);
    assert s == a + b + c + d + e + f;
    assert s[0..4] == a by { forall i | 0 <= i < 4 ensures s[i] == a[i] { } }
    assert s[4..5] == b by { assert s[4] == b[0]; }
    assert s[5..7] == c by { assert s[5] == c[0] && s[6] == c[1]; }
    assert s[7..9] == d by { assert s[7] == d[0] && s[8] == d[1]; }
    assert s[9..11] == e by { assert s[9] == e[0] && s[10] == e[1]; }
    assert s[11..13] == f by { assert s[11] == f[0] && s[12] == f[1]; }
  }

  lemma ShortMonthMatch(dt: DateTime)
    requires IsValidDateTime(dt) && 2 <= dt.month <= 9
    ensures FirstMatch(CompactFormat, 0, ShortMonth(dt), 0) ==
      Some(Captures([Pad4(dt.year), [DigitChar(dt.month)], Pad2(dt.day), Pad2(dt.hour), Pad2(dt.minute), Pad2(dt.second)], 13))
  {
    var s := ShortMonth(dt);
    ShortMonthLayout(dt);
    PaddedDayTime(s, 5, dt);
    DayTimeFields(s, 5);
    var c2 := Captures([s[5..7], s[7..9], s[9..11], s[11..13]], 13);
    assert s[4] == s[4..5][0];
    MonthOneDigitAt(s, 4, c2);
    var c1 := Captures([s[4..5]] + c2.groups, 13);
    assert IsDigit(s[0]) && IsDigit(s[1]) && IsDigit(s[2]) && IsDigit(s[3]);
    YearAt(s, c1);
    assert [s[0..4]] + c1.groups == [Pad4(dt.year), [DigitChar(dt.month)], Pad2(dt.day), Pad2(dt.hour), Pad2(dt.minute), Pad2(dt.second)];
  }

  /** `strptime` also takes one-digit fields: with a month from 2 to 9 written as one digit,
      the month fragment falls back to `[1-9]` and the thirteen characters still parse. */
  lemma {:induction false} StrpTimeShortMonth(dt: DateTime)
    requires IsValidDateTime(dt) && 2 <= dt.month <= 9
    ensures StrpTime(ShortMonth(dt)) == Some(dt)
  {
    var g := [Pad4(dt.year), [DigitChar(dt.month)], Pad2(dt.day), Pad2(dt.hour), Pad2(dt.minute), Pad2(dt.second)];
    ShortMonthMatch(dt);
    Pad4Value(dt.year);
    OneDigitValue(dt.month);
    Pad2Value(dt.day);
    Pad2Value(dt.hour);
    Pad2Value(dt.minute);
    Pad2Value(dt.second);
    StrpTimeOfMatch(ShortMonth(dt), g, dt);
  }

  lemma OneDigitValue(d: nat)
    requires d < 10
    ensures FieldValue([DigitChar(d)]) == d
  {
    var g := [DigitChar(d)];
    assert g[0] != ' ';
    assert g[..0] == [];
    assert DigitsValue(g) == DigitsValue([]) * 10 + DigitValue(g[0]);
  }

  /** `D:2025731144353` (a one-digit month) is rendered as July 31. */
  lemma OneDigitMonthExample(input: string)
    requires input == "D:2025731144353"
    ensures FormatPdfDate(input) == "2025-07-31 14:43:53"
  {
    var dt :| dt == DateTime(2025, 7, 31, 14, 43, 53);
    var t := OneDigitMonthPieces(input, dt);
    StrpTimeShortMonth(dt);
    FormatParsed(t, dt);
  }

  lemma OneDigitMonthPieces(input: string, dt: DateTime) returns (t: string)
    requires input == "D:2025731144353"
    requires dt == DateTime(2025, 7, 31, 14, 43, 53)
    ensures IsValidDateTime(dt) && t == ShortMonth(dt)
    ensures input == "D:" + t && !StartsAt(t, 0, "D:") && Head(t) == t
    ensures Render(dt) + ReplaceChar(Tail(t), '\'', ':') == "2025-07-31 14:43:53"
  {
    t := ShortMonth(dt);
    ExampleShortMonth(dt);
    ExampleRender(dt);
    assert t[0] == '2';
    assert Tail(t) == [];
    assert ReplaceChar([], '\'', ':') == [];
    assert Render(dt) + [] == Render(dt);
  }

  lemma ExampleShortMonth(dt: DateTime)
    requires dt == DateTime(2025, 7, 31, 14, 43, 53)
    ensures IsValidDateTime(dt) && ShortMonth(dt) == "2025731144353"
  {
    ExampleFields();
    assert [DigitChar(7)] == "7";
  }
}
