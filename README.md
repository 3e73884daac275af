# Document-fraud heuristics for bank-statement PDFs, in Dafny

This project models the forensic heuristics of `main.py`, the PDF analysis service. The
service inspects an uploaded bank statement in five ways:

- **Metadata edit signals** (`extract_metadata`). The document is flagged as edited when
  its modification date is recorded and differs from its creation date. It is also flagged
  when the producer or creator names one of five editing tools.
- **PDF timestamp normalisation** (`format_pdf_date`). A `D:YYYYMMDDHHMMSS...` timestamp
  becomes `YYYY-MM-DD HH:MM:SS` followed by its zone, with `'` turned into `:`. Any other
  text comes back with its `D:` prefix removed.
- **Font provenance scan** (the character loop of `parse_pdf_low_level`). It collects the
  fonts used and the glyph drawn in each font outside the bank's whitelist, and it detects
  active objects. It also writes the human-readable note.
- **The verdict** of the `/analyze-pdf` endpoint, combining all of the above.
- **Statement extraction** (`extract_account_number`, `structure_extract_in_json` with its
  `find_value`, and the page loop of `extract_bank_statement`). The text of a Bank of
  America statement is read into the holder's name, an account summary, the totals and the
  list of dated transactions.

Each fixed regular expression is modelled by a hand-written matcher that follows Python's
`re` semantics:

- the leftmost match wins, and alternatives are tried in order;
- greedy runs give characters back one at a time;
- lazy `.*?` grows one character at a time and never crosses a newline;
- `\s` is Python's whitespace set, newline included;
- `^` and `$` follow multi-line mode;
- `findall` resumes at the end of each match.

The generic search strategies (first match, backtracking, lazy growth and `findall`) live
in module `Scan` and are proved once. Every pattern then instantiates them.

Amounts are kept as integer cents. Python `None` is `Option.None`. An exception caught
by the source and turned into an error dictionary is `Result.Failure`.

The imperative parts of the source keep their form:
- the page and character loop of `parse_pdf_low_level` (`FontScan.ParsePdfLowLevel`);
- the loop appending to `transactions_list` (`Statement.ReadTransactions`);
- the page-text concatenation of `extract_bank_statement` (`Statement.ExtractBankStatement`).

Each of these is a method with loop invariants, proved against a specification function.
Everything else is pure functions and lemmas.

Modules, one per file:

| module | file |
|---|---|
| `Wrappers` | wrappers.dfy |
| `Text` (Python `str` helpers) | text.dfy |
| `Metadata` | metadata.dfy |
| `PdfDate` | pdf_date.dfy |
| `FontScan` | font_scan.dfy |
| `Verdict` | verdict.dfy |
| `Scan` | scan.dfy |
| `Amount` | amount.dfy |
| `AccountInfo` (account number and holder) | account_info.dfy |
| `Balances` (`find_value` and its patterns) | balances.dfy |
| `Transactions` (the transaction pattern and `findall`) | transactions.dfy |
| `Statement` | statement.dfy |

## Model

| member | source | states |
|---|---|---|
| Metadata.Get | main.py:70-74 | an absent key reads as "Unknown"; a present key gives its value, `None` included |
| Metadata.AnyToolIn | main.py:78-79 | true exactly when some tool name, lower-cased, occurs in the text |
| Metadata.ExtractMetadata | main.py:66-95 | succeeds exactly when producer and creator are both strings; otherwise the error text is "Error running ExifTool: " followed by Python's `TypeError` message for that operand pair; echoes the five properties with "Unknown" defaults; `edited_by_dates` holds exactly when the modification date differs from the creation date and is not "Unknown"; `edited_by_software` holds exactly when some lower-cased tool name occurs in the lower-cased `producer + creator` |
| Metadata.EqualDatesNeverEdited | main.py:70-77 | equal creation and modification dates never raise the date signal |
| Metadata.MissingToolKeysNeverEdited | main.py:72-79 | with neither producer nor creator present, extraction succeeds and the software signal is false |
| Metadata.ProducerNamingToolIsEdited | main.py:72-79 | a producer containing a tool name, in any letter case, raises the software signal whatever the creator is |
| Metadata.AcrobatExample | main.py:66-95 | differing dates and an "Adobe Acrobat" producer raise both signals |
| PdfDate.FirstMatch | main.py:107 | a match of the `%Y%m%d%H%M%S` regex captures one group per directive and ends within the text |
| PdfDate.StrpTime | main.py:107 | a parsed timestamp is a valid date and time (month 1-12, day within the month, hour < 24, minute and second < 60) |
| PdfDate.DropPrefix | main.py:103-105 | the result is never longer than the input |
| PdfDate.FormatPdfDate | main.py:98-114 | an unparsable head gives the input without `D:`; a parsable one gives the rendered date followed by the remainder with `'` replaced by `:` |
| PdfDate.UnparsableDateUnchanged | main.py:103-114 | on an unparsable date the result is the input minus `D:`, never longer than the input, and the input itself when there was no `D:` |
| PdfDate.PickAlternative | main.py:107 | the regex takes the first alternative of a directive that fits and continues after it |
| PdfDate.Pad2Value | main.py:107-108 | reading a two-digit field back gives the number written |
| PdfDate.Pad4Value | main.py:107-108 | reading a four-digit year back gives the year written |
| PdfDate.CompactMatch | main.py:107 | the fourteen-digit form of a valid date matches the regex with the six fields as groups |
| PdfDate.StrpTimeCompact | main.py:107 | parsing the fourteen-digit form of a valid date gives that date back |
| PdfDate.FormatParsed | main.py:103-111 | a parsable head is rendered and the tail appended with `'` turned into `:`; a `D:` prefix changes nothing |
| PdfDate.FormatCanonicalDate | main.py:103-111 | `D:` + fourteen digits + zone, with or without `D:`, becomes `YYYY-MM-DD HH:MM:SS` + zone with `'` turned into `:` |
| PdfDate.FormatBareDate | main.py:109-111 | a timestamp of exactly fourteen characters gets no suffix |
| PdfDate.DocumentedExample | main.py:100 | `D:20250731144353-05'00` becomes `2025-07-31 14:43:53-05:00` |
| PdfDate.ShortMonthMatch | main.py:107 | a one-digit month from 2 to 9 is matched as strptime matches it, with the six fields as groups |
| PdfDate.StrpTimeShortMonth | main.py:107 | the thirteen-character form with a one-digit month from 2 to 9 parses to the same date |
| PdfDate.OneDigitMonthExample | main.py:107-111 | `D:2025731144353` becomes `2025-07-31 14:43:53` |
| FontScan.RegionOf | main.py:129-142 | a region carries the page number, the character's font, the box `(x0, top, x1, bottom)`, the text, the width and the height, each missing field read as its default (0 or the empty text) |
| FontScan.HasSuspiciousObjects | main.py:145-149 | true exactly when some page has an xobject of type `/JavaScript` or `/OpenAction` |
| FontScan.NoteReportsRegionCount | main.py:159-163 | right after the font count and " fonts detected; " comes "Found N occurrences...", whose N reads back as the region count |
| FontScan.ParsePdfLowLevel | main.py:117-164 | the fonts seen, the regions of non-whitelisted glyphs in page and character order, the object flag, the revisions and the note are those of the specification functions |
| FontScan.CharStep | main.py:125-142 | one character adds its font to the set and, when foreign, appends its region |
| FontScan.PageStep | main.py:123-142 | one page adds its fonts and appends its regions, numbered from 1 |
| FontScan.FontsUsedExactly | main.py:121-127 | a font is in `fonts_used` exactly when some character on some page uses it |
| FontScan.PageFontsExactly | main.py:125-127 | a font is among a page's fonts exactly when a character of the page uses it |
| FontScan.RegionPagesOrdered | main.py:123-142 | region pages lie in 1..page count and never decrease |
| FontScan.PageRegionsOnPage | main.py:123-136 | every region of a page carries that page's number |
| FontScan.PageRegionsAreForeignGlyphs | main.py:125-142 | the regions of a page are exactly the regions of its non-whitelisted characters |
| FontScan.RegionsAreForeignGlyphs | main.py:123-142 | a region is listed exactly when it belongs to a non-whitelisted character of some page |
| FontScan.PageRegionCount | main.py:151 | a page contributes as many regions as it has non-whitelisted characters |
| FontScan.RegionsEmptyIff | main.py:128 | no region exactly when every character's font is whitelisted |
| FontScan.SingleForeignGlyph | main.py:128-142 | a single foreign glyph on one page gives exactly one region, on page 1 |
| FontScan.NoteFlagIff | main.py:162 | the note ends "Suspicious objects found." exactly when the flag is set, and "No suspicious objects." otherwise |
| FontScan.NoteStartsWithFontCount | main.py:160 | the note begins with the decimal font count, which reads back as that count, followed by " fonts detected; ..." |
| Verdict.AnyManipulation | main.py:355 | true exactly when some image result reports `possible_manipulation`; an error map counts as false |
| Verdict.FontList | main.py:361 | of the two font-list keys, `fontes_used` (not a key of the analysis map) or an error map gives the empty list; `fonts_used` on an analysis gives its fonts |
| Verdict.Assess | main.py:352-362 | copies the two metadata flags, summarises images and objects, and says "Possible edit detected" exactly when a flag, an image or a font mismatch under the given key holds |
| Verdict.Aggregate | main.py:352-362 | the endpoint's verdict as written, with the key `fontes_used` |
| Verdict.AggregateIntended | main.py:352-362 | the verdict with the key `fonts_used` that `parse_pdf_low_level` produces |
| Verdict.WhitelistDistinct | main.py:20-27 | the six whitelisted fonts are pairwise distinct |
| Verdict.AlwaysPossibleEdit | main.py:357-362 | as written, the summary is "Possible edit detected" for every input |
| Verdict.WhitelistMultiset | main.py:361 | `sorted(whitelist) == sorted(list(fonts))` exactly when the font set equals the whitelist's set |
| Verdict.IntendedNoEditsIff | main.py:357-362 | with the intended key, "No obvious edits detected." exactly when no flag, no image and the fonts used are exactly the whitelist |
| Verdict.ErrorImageIsAbsentSignal | main.py:355 | an image whose analysis failed changes nothing in the verdict |
| Verdict.LowLevelErrorFlagsEdit | main.py:356-361 | a failed low-level scan gives no object signal but a "Possible edit detected" summary |
| Text.Contains | main.py:79 | Python's `t in s`: true exactly when `t` occurs at some position |
| Text.Strip | main.py:202 | `strip()` gives a middle slice of the text that neither starts nor ends with whitespace, with only whitespace cut from either end |
| Scan.FirstFrom | main.py:199 | `re.search`: the leftmost position from which the pattern matches, `None` when none does |
| Scan.Backtrack | main.py:253 | a greedy run gives back characters one at a time and stops at the longest extent that lets the rest match |
| Scan.NextNewline | main.py:253 | the first newline at or after a position, or the end of the text |
| Scan.LazyFrom | main.py:253 | a lazy `.*?` stops at the first extent that lets the rest match, never crossing a newline |
| Scan.LazyFromWithinLine | main.py:253 | the lazy `.*?` ends no later than the next newline, and it fails exactly when no extent up to that newline lets the rest match |
| Scan.LazyFromSkips | main.py:253 | extents where the rest cannot match are passed over |
| Scan.AllFrom | main.py:254 | `findall` reports only positions where the pattern matches, from the start position on |
| Scan.AllFromOrdered | main.py:254 | each reported match starts at or after the end of the one before |
| Scan.AllFromComplete | main.py:254 | every position where the pattern matches is reported or lies inside a reported match |
| Amount.AmountAt | main.py:237-249 | the amount fragment `[\d,]+\.\d{2}` spans at least four characters |
| Amount.AmountAtExactly | main.py:237-249 | the fragment matches from `q` to `e` exactly when the text between has the amount's shape |
| Amount.CommaIgnored | main.py:230-231 | a comma in the whole part changes neither the shape nor the value read |
| Amount.RenderCentsRoundTrip | main.py:230-231 | reading an amount printed from a number of cents gives that number back |
| Amount.AmountValuePrefix | main.py:230-231 | an amount at a position is matched over its own characters and read as its own value |
| Balances.MatchAt | main.py:237-249 | a match of a summary pattern ends within the text |
| Balances.Search | main.py:228 | the leftmost match of the pattern, with where its amount starts |
| Balances.FindValue | main.py:227-233 | 0 when nothing matches; on a match, the value of the amount at the leftmost match, negated when `negative` is set; never negative without `negative`, never positive with it |
| Balances.MatchAtAmount | main.py:237-249 | where a match puts its amount, the amount fragment matches |
| Balances.NoLabelGivesZero | main.py:228-233 | a pattern none of whose labels occurs in the text gives 0 |
| Balances.OtherWithdrawals | main.py:240 | never positive; the "Other subtractions" value when non-zero, else the "Withdrawals and other debits" value |
| Balances.OtherWithdrawalsFallback | main.py:240 | without "Other subtractions" in the text, the value is the "Withdrawals and other debits" one |
| Balances.ReadsSpacedAmount | main.py:238-241 | after a text in which no label occurs, a label, a space, the marker and an amount give that amount, negated when asked, provided no earlier label of the pattern also starts there |
| Balances.ReadsDollarAmount | main.py:237-242 | after a text in which no label occurs, a label, text without `$` on the same line, ` $` and an amount give that amount |
| AccountInfo.NumberAt | main.py:198 | a match at a position spans a group within the text |
| AccountInfo.SearchNumber | main.py:199 | the leftmost position where the account pattern matches |
| AccountInfo.ExtractAccountNumber | main.py:185-204 | `None` exactly when the pattern matches nowhere |
| AccountInfo.NumberAtIff | main.py:198 | the pattern matches at a position exactly when a label there is followed by a digit or whitespace |
| AccountInfo.NoNumberIff | main.py:199-204 | `None` exactly when no label in the text is followed by a digit or whitespace |
| AccountInfo.ExtractedNumberShape | main.py:198-202 | a returned number is made of digits and whitespace and begins and ends with a digit unless empty |
| AccountInfo.ReadsAccountNumber | main.py:198-203 | after a text holding no account label, a label, whitespace and a number with inner spaces give back that number |
| AccountInfo.EmptyNumberAfterSpaces | main.py:198-202 | after a text holding no account label, a label, whitespace, then neither digit nor whitespace gives `Some("")` |
| AccountInfo.SearchHolder | main.py:219 | the leftmost line start where the holder pattern matches |
| AccountInfo.AccountHolder | main.py:219-224 | "Name not found" exactly when the holder pattern matches nowhere |
| AccountInfo.HolderShape | main.py:219-222 | a found holder is capitals and whitespace and begins and ends with a capital unless empty; a group of whitespace only strips to the empty name |
| AccountInfo.WhitespaceHolderIsEmpty | main.py:219-222 | in `"\n\nAccount summary"` the group gives back to the first newline and the holder is the empty name |
| AccountInfo.NoHeadingNoHolder | main.py:219-224 | without "\nAccount summary" in the text, the holder is "Name not found" |
| AccountInfo.ReadsHolder | main.py:219-222 | after whole lines where the holder pattern matches nowhere, a name in capitals followed by "\nAccount summary" gives the stripped name |
| Transactions.TxMatchAt | main.py:253 | a match of the transaction pattern at `i` puts its value after the date and ends within the text |
| Transactions.FindAll | main.py:254 | every reported start is one where the transaction pattern matches |
| Transactions.GroupsAt | main.py:253 | the captured value has the shape `float` is given |
| Transactions.Matches | main.py:254 | one pair of groups per match: the k-th pair is the date and value captured by the k-th match `findall` reports, each value of the shape `-?[\d,]+\.\d{2}` |
| Transactions.Transactions | main.py:253-266 | one entry per match, in order: the match's date and its value in cents |
| Transactions.MatchValueShape | main.py:253 | a match captures a `dd/dd/dd` date and a value of the amount's shape |
| Transactions.FindAllOrdered | main.py:254 | matches come in text order and do not overlap |
| Transactions.FindAllComplete | main.py:254 | no match is skipped: every matching position is reported or inside a reported match |
| Transactions.ValueAtEnd | main.py:253 | a value, signed or not, that ends the line is read whole |
| Transactions.RenderValueRoundTrip | main.py:259 | reading a printed value gives back its cents, sign included |
| Transactions.ReadsTransactionLine | main.py:253-264 | a line "date description value" after whole lines is matched, `findall` resumes after it, and its entry holds the date and value; with no match before it, it is the first transaction |
| Transactions.FindAllLines | main.py:254-264 | over a block of n well-formed lines, `findall` reports n matches, whose entries are the lines' dates and values in order, then resumes after the block |
| Transactions.ReadsLines | main.py:253-266 | a text whose only matches lie in a block of well-formed lines `L1\n...\nLn` gives exactly n transactions, the k-th holding line k's date and value |
| Transactions.ValueFromNextLine | main.py:253 | a line whose description, free of whitespace, runs to the newline without a value is matched, and its value is the amount opening the next line |
| Transactions.ValueFromNextLineExample | main.py:253 | `01/02/03 desc\n5.00` is one match, valued 5.00 |
| Statement.Summary | main.py:235-243 | balances and additions are never negative; withdrawals and fees never positive; the account number is `None` exactly when its pattern matches nowhere |
| Statement.Totals | main.py:245-250 | the deposits total is never negative and the withdrawal totals never positive |
| Statement.ReadTransactions | main.py:253-266 | the loop builds exactly one entry per match, in order |
| Statement.StructureExtractInJson | main.py:207-267 | the record built entry by entry is the specification `Structure` of the text |
| Statement.NoAnchorsGivesDefaults | main.py:218-267 | a text holding no label, no account label, no heading and no `/` gives "Name not found", no account number, all amounts 0 and no transaction |
| Statement.EmptyTextGivesDefaults | main.py:207-267 | the empty text gives every default |
| Statement.JoinPagesAppend | main.py:286-287 | joining the pages distributes over splitting them anywhere |
| Statement.PageWithoutText | main.py:287 | a page whose `extract_text()` is `None` adds nothing, wherever it is |
| Statement.PageTextInPlace | main.py:286-287 | each page's text appears whole in the joined text, right after the pages before it |
| Statement.NoTextNoPages | main.py:286-287 | pages without text join to the empty text |
| Statement.ExtractBankStatement | main.py:270-293 | an unopenable PDF gives "Error processing PDF: " + the message; otherwise the result is `Structure` of the pages' texts joined in order |
| Statement.BlankDocumentGivesDefaults | main.py:284-290 | a document whose pages hold no text reads as nothing found |

## Left out

- `analyze_image` (main.py:30-63) is not modelled. It decodes and re-encodes images with
  OpenCV and computes a floating-point deviation. It also uses `np`, `cv2` and `tempfile`,
  which the file never imports, so as written every call ends in its `except` branch and
  returns an error map. The verdict takes the image results as given data (`ImageResult`),
  error maps included.
- `highlight_suspicious_fonts` (main.py:169-182) is not modelled: it draws annotations with
  PyMuPDF and writes a file. A failed low-level scan returns an error map without
  `suspicious_regions`; the endpoint passes `None` to this function, which raises, and the
  request ends in HTTP 500 (main.py:381-382). `Verdict.LowLevelErrorFlagsEdit` describes the
  verdict that would follow if the request went on; the exception itself is not modelled.
- The endpoint plumbing (main.py:296-351 and 363-387) is not modelled; the verdict it builds
  at main.py:352-362 is `Verdict.Assess`. Left out are upload reading, the `temp.pdf` file,
  HTTP 400/500 mapping and PyMuPDF metadata and image extraction. Nor is the `format_pdf_date`
  call on a missing date (main.py:316-317), where `None.startswith` raises `AttributeError`
  (not `ValueError`) and the request fails.
- Verdict.Assess: takes the edition signal of a metadata extraction that succeeded. When
  `Metadata.ExtractMetadata` fails (producer or creator `None`), it returns the
  "Error running ExifTool: ..." map, which has no `analysis_editions` key. main.py:353
  then raises `KeyError` before any verdict is built, and the request ends in HTTP 500
  (main.py:381-382). That exception is not modelled, so neither `Verdict.Assess` nor
  `Verdict.Aggregate` / `Verdict.AggregateIntended` says anything about that path.
- FontScan.RegionOf: the `text` field of a region stands for the value stored under the key
  `FontScan.TextKey`, "(x0, top, x1, bottom) - coordinates in PDFtext". At main.py:138-139 the
  comment-like string after `"bbox": bbox,` has no comma before `"text"`, so Python joins the two
  literals into one key. The map sent back to the client (main.py:157, 377) has no `"text"` key.
  The model does not represent dictionaries by key, so this key is recorded only as a constant.
- PdfDate.FormatPdfDate: years 1-999 are rendered zero-padded to four digits (`0999-...`). That is
  `strftime("%Y")` on CPython 3.12.5 / 3.13 and later. Older interpreters on Linux print such a
  year without padding (`999-...`), and the source runs on any Python from 3.10 (it uses
  `str | None`, main.py:185). The model follows the padded rendering.
- Reading the PDF is not modelled. Characters, xobject types, the revision count and the
  page texts are inputs. Opening the file either yields the pages' texts or the
  exception's message (`ExtractBankStatement`'s `Result` input); an exception raised by
  `extract_text()` part-way is folded into that failure.
- The `except` branch of `parse_pdf_low_level` (main.py:165-166) is not part of
  `FontScan.ParsePdfLowLevel`, which starts from pages already read. The verdict receives
  the error map as `LowLevelError`. `fonts_used` is `list(fonts)`, whose order Python leaves
  unspecified; the model keeps the set.
- Floating point is not modelled: amounts are integer cents, and `-0.0` (a negated zero
  amount) is 0.
- `\d` and `[A-Z]` are ASCII. Python's `\d` also matches other Unicode decimal digits, and
  `float` would accept them; those are not modelled.
- `strptime` is modelled through its regular expression for `%Y%m%d%H%M%S` and its range
  checks, over ASCII digits. Locale handling and the other directives are left out.
- JSON: `structure_extract_in_json` returns a dictionary despite its name and annotation;
  the model returns the record and leaves serialisation out.
- AccountInfo.ExtractAccountNumber: a label followed by whitespace and then neither a digit
  nor whitespace is reported as `Some("")`, not `None`. This follows the code: the group
  `[\d\s]+` takes back the last whitespace character. `AccountInfo.EmptyNumberAfterSpaces`
  states it.
- Transactions.TxMatchAt: the second `\s+` can take a newline. A line that ends without a
  value then takes its value from the amount opening the following line, whatever its
  description (`01/02/03 desc\n5.00` is one match valued 5.00,
  `Transactions.ValueFromNextLineExample`; `Transactions.ValueFromNextLine` states it for
  any description without whitespace). With an empty description the first `\s+` can
  cross a newline as well. The model follows the code. `Transactions.ReadsTransactionLine`
  and `Transactions.ReadsLines` state the result only for well-formed lines: a date, one
  space, a one-line description that neither starts nor ends with whitespace, one space
  and a value.
- Text.Lower lowers ASCII letters only. Python's `lower()` also lowers other letters, and
  two of them lower to ASCII: `İ` (to `i` followed by U+0307) and the Kelvin sign (to `k`).
  Neither can complete one of the five tool names (no tool name contains `k`, and the
  U+0307 after the `i` breaks any name continuing past it), so the software signal is
  unaffected.

## Findings

| source | as written | input that shows it | evidently intended | confidence | as-written member | corrected member |
|---|---|---|---|---|---|---|
| main.py:361 | the font check reads `low_level_analysis.get("fontes_used", [])`, a key `parse_pdf_low_level` never produces (it emits `fonts_used`, main.py:156), so the list is always empty and never equals the six-font whitelist; the summary is "Possible edit detected" for every document | any document, e.g. one with unchanged dates, no editing tool, no image and only whitelisted fonts | compare against `low_level_analysis.get("fonts_used", [])`, so a document using exactly the whitelisted fonts with no other signal is "No obvious edits detected." | not executed | Verdict.AlwaysPossibleEdit | Verdict.IntendedNoEditsIff |
