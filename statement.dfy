/** `structure_extract_in_json` and the page loop of `extract_bank_statement`: the text of
    a statement is read field by field into one record, and the text itself is the
    pages' texts joined in order. */
module Statement {
  import opened Wrappers
  import opened Text
  import opened Balances
  import opened AccountInfo
  import opened Amount
  import Transactions

  /** `structured_data["account_summary"]`; amounts in cents. */
  datatype AccountSummary = AccountSummary(
    accountNumber: Option<string>,
    initialBalance: int,
    depositsAdditions: int,
    cardWithdrawals: int,
    otherWithdrawals: int,
    serviceFees: int,
    finalBalance: int)

  /** `structured_data["total_transactions"]`; amounts in cents. */
  datatype TotalTransactions = TotalTransactions(
    totalDepositsAdditions: int,
    totalCardWithdrawals: int,
    totalOtherWithdrawals: int)

  /** The dictionary `structure_extract_in_json` returns. */
  datatype StructuredData = StructuredData(
    accountHolder: string,
    accountSummary: AccountSummary,
    totalTransactions: TotalTransactions,
    transactions: seq<Transactions.Transaction>)

  /** The record read from a text in which nothing is found. */
  const NothingFound := StructuredData(
    NameNotFound,
    AccountSummary(None, 0, 0, 0, 0, 0, 0),
    TotalTransactions(0, 0, 0),
    [])

  /** The `account_summary` entry: balances and additions are never negative, and the
      withdrawals and fees, read with `negative=True`, never positive. */
  function Summary(s: string): (r: AccountSummary)
    ensures r.initialBalance >= 0 && r.depositsAdditions >= 0 && r.finalBalance >= 0
    ensures r.cardWithdrawals <= 0 && r.otherWithdrawals <= 0 && r.serviceFees <= 0
    ensures r.accountNumber.None? <==> SearchNumber(s, 0).None?
  {
    AccountSummary(
      ExtractAccountNumber(s),
      FindValue(BeginningBalance, s, false),
      FindValue(DepositsAdditions, s, false),
      FindValue(CardSubtractions, s, true),
      OtherWithdrawals(s),
      FindValue(ServiceFees, s, true),
      FindValue(EndingBalance, s, false))
  }

  /** The `total_transactions` entry, with the same signs. */
  function Totals(s: string): (r: TotalTransactions)
    ensures r.totalDepositsAdditions >= 0
    ensures r.totalCardWithdrawals <= 0 && r.totalOtherWithdrawals <= 0
  {
    TotalTransactions(
      FindValue(TotalDeposits, s, false),
      FindValue(TotalCardSubtractions, s, true),
      FindValue(TotalOtherSubtractions, s, true))
  }

  /** What `structure_extract_in_json(s)` returns. */
  function Structure(s: string): StructuredData {
    StructuredData(AccountHolder(s), Summary(s), Totals(s), Transactions.Transactions(s))
  }

  /** `structure_extract_in_json`: fills the record entry by entry, then reads the
      transactions. */
  method StructureExtractInJson(fullText: string) returns (r: StructuredData)
    ensures r == Structure(fullText)
  {
    var holder := AccountHolder(fullText);
    var summary := Summary(fullText);
    var totals := Totals(fullText);
    var transactionsList := ReadTransactions(fullText);
    r := StructuredData(holder, summary, totals, transactionsList);
  }

  /** The loop building `transactions_list`: one entry per pair of groups `findall`
      returns, in order. */
  method ReadTransactions(fullText: string) returns (transactionsList: seq<Transactions.Transaction>)
    ensures transactionsList == Transactions.Transactions(fullText)
  {
    var matches := Transactions.Matches(fullText);
    transactionsList := [];
    var k := 0;
    while k < |matches|
      invariant 0 <= k <= |matches|
      invariant |transactionsList| == k
      invariant forall j :: 0 <= j < k ==> transactionsList[j] == Transactions.Entry(matches[j])
    {
      var (date, valueStr) := matches[k];
      var value := SignedCents(valueStr);
      var next := transactionsList + [Transactions.Transaction(date, value)];
      forall j | 0 <= j < k + 1
        ensures next[j] == Transactions.Entry(matches[j])
      {
        if j < k {
          assert next[j] == transactionsList[j];
        }
      }
      transactionsList := next;
      k := k + 1;
    }
    var all := Transactions.Transactions(fullText);
    assert |all| == |matches|;
    forall j | 0 <= j < |all|
      ensures transactionsList[j] == all[j]
    {
    }
  }

  // ---- What is read from a text that holds none of the anchors ----

  /** The patterns `find_value` is called with, in the order of the record's fields. */
  const Patterns: seq<Pattern> := [
    BeginningBalance, DepositsAdditions, CardSubtractions, OtherSubtractions,
    WithdrawalsDebits, ServiceFees, EndingBalance,
    TotalDeposits, TotalCardSubtractions, TotalOtherSubtractions]

  /** No alternative of any `find_value` pattern occurs in the text. */
  predicate NoLabels(s: string) {
    forall i, l :: 0 <= i < |Patterns| && 0 <= l < |Patterns[i].labels| ==>
      !Contains(s, Patterns[i].labels[l])
  }

  /** A text holding no label, neither account-number label, not the holder heading and
      no `/` (so no date) gives every default: "Name not found", no account number, every
      amount 0 and no transaction. */
  lemma NoAnchorsGivesDefaults(s: string)
    requires NoLabels(s)
    requires !Contains(s, NumberLabel) && !Contains(s, HashLabel)
    requires !Contains(s, SummaryHeading) && '/' !in s
    ensures Structure(s) == NothingFound
  {
    NoHeadingNoHolder(s);
    NoNumberIff(s);
    NoLabelsSummary(s);
    NoLabelsTotals(s);
    Transactions.NoDateNoTransactions(s);
  }

  lemma NoLabelsSummary(s: string)
    requires NoLabels(s)
    ensures FindValue(BeginningBalance, s, false) == 0
    ensures FindValue(DepositsAdditions, s, false) == 0
    ensures FindValue(CardSubtractions, s, true) == 0
    ensures OtherWithdrawals(s) == 0
    ensures FindValue(ServiceFees, s, true) == 0
    ensures FindValue(EndingBalance, s, false) == 0
  {
    NoLabelGivesZero(Patterns[0], s, false);
    NoLabelGivesZero(Patterns[1], s, false);
    NoLabelGivesZero(Patterns[2], s, true);
    NoLabelGivesZero(Patterns[3], s, true);
    NoLabelGivesZero(Patterns[4], s, true);
    NoLabelGivesZero(Patterns[5], s, true);
    NoLabelGivesZero(Patterns[6], s, false);
  }

  lemma NoLabelsTotals(s: string)
    requires NoLabels(s)
    ensures Totals(s) == TotalTransactions(0, 0, 0)
  {
    NoLabelGivesZero(Patterns[7], s, false);
    NoLabelGivesZero(Patterns[8], s, true);
    NoLabelGivesZero(Patterns[9], s, true);
  }

  /** The empty text gives every default. */
  lemma EmptyTextGivesDefaults()
    ensures Structure("") == NothingFound
  {
    forall i, l | 0 <= i < |Patterns| && 0 <= l < |Patterns[i].labels|
      ensures !Contains("", Patterns[i].labels[l])
    {
      assert |Patterns[i].labels[l]| > 0;
    }
    NoAnchorsGivesDefaults("");
  }

  // ---- `extract_bank_statement`: the pages' texts joined ----

  /** `full_text` after the page loop: each page's text in order, a page without text
      (`extract_text()` giving `None`) contributing "". */
  function JoinPages(pages: seq<Option<string>>): string {
    if pages == [] then ""
    else JoinPages(pages[..|pages| - 1]) + pages[|pages| - 1].GetOr("")
  }

  /** Joining is compatible with splitting the pages anywhere. */
  lemma {:induction false} JoinPagesAppend(a: seq<Option<string>>, b: seq<Option<string>>)
    ensures JoinPages(a + b) == JoinPages(a) + JoinPages(b)
    decreases |b|
  {
    if b == [] {
      assert a + b == a;
    } else {
      var c := b[..|b| - 1];
      assert (a + b)[..|a + b| - 1] == a + c;
      JoinPagesAppend(a, c);
    }
  }

  /** A page without text changes nothing, wherever it is. */
  lemma PageWithoutText(a: seq<Option<string>>, b: seq<Option<string>>)
    ensures JoinPages(a + [None] + b) == JoinPages(a + b)
  {
    JoinPagesAppend(a + [None], b);
    JoinPagesAppend(a, [None]);
    JoinPagesAppend(a, b);
    var none: seq<Option<string>> := [None];
    assert JoinPages(none) == "" by {
      assert none[..0] == [];
    }
  }

  /** Every page's text appears whole in the joined text, after the pages before it. */
  lemma PageTextInPlace(pages: seq<Option<string>>, i: nat)
    requires i < |pages| && pages[i].Some?
    ensures StartsAt(JoinPages(pages), |JoinPages(pages[..i])|, pages[i].value)
  {
    var t := pages[i].value;
    assert pages == pages[..i] + ([pages[i]] + pages[i + 1..]);
    JoinPagesAppend(pages[..i], [pages[i]] + pages[i + 1..]);
    JoinPagesAppend([pages[i]], pages[i + 1..]);
    assert JoinPages([pages[i]]) == t by {
      assert [pages[i]][..0] == [];
    }
    var pre := JoinPages(pages[..i]);
    var all := JoinPages(pages);
    assert all == pre + (t + JoinPages(pages[i + 1..]));
    assert all[|pre|..|pre| + |t|] == t;
  }

  /** Pages none of which has text give the empty text. */
  lemma {:induction false} NoTextNoPages(pages: seq<Option<string>>)
    requires forall i :: 0 <= i < |pages| ==> pages[i].None?
    ensures JoinPages(pages) == ""
    decreases |pages|
  {
    if pages != [] {
      NoTextNoPages(pages[..|pages| - 1]);
    }
  }

  /** The message of the dictionary returned when the PDF cannot be processed. */
  const ErrorPrefix := "Error processing PDF: "

  /** `extract_bank_statement`: `pdf` is what opening the file yields, its pages' texts or
      the message of the exception raised; the pages' texts are joined in order and the
      result read with `structure_extract_in_json`. */
  method ExtractBankStatement(pdf: Result<seq<Option<string>>, string>)
    returns (r: Result<StructuredData, string>)
    ensures pdf.Failure? ==> r == Failure(ErrorPrefix + pdf.error)
    ensures pdf.Success? ==> r == Success(Structure(JoinPages(pdf.value)))
  {
    if pdf.Failure? {
      return Failure(ErrorPrefix + pdf.error);
    }
    var pages := pdf.value;
    var fullText := "";
    var i := 0;
    while i < |pages|
      invariant 0 <= i <= |pages|
      invariant fullText == JoinPages(pages[..i])
    {
      assert pages[..i + 1][..i] == pages[..i];
      fullText := fullText + pages[i].GetOr("");
      i := i + 1;
    }
    assert pages[..|pages|] == pages;
    var result := StructureExtractInJson(fullText);
    r := Success(result);
  }

  /** A document whose pages hold no text at all reads as nothing found. */
  lemma BlankDocumentGivesDefaults(pages: seq<Option<string>>)
    requires forall i :: 0 <= i < |pages| ==> pages[i].None?
    ensures Structure(JoinPages(pages)) == NothingFound
  {
    NoTextNoPages(pages);
    EmptyTextGivesDefaults();
  }
}
