/** The font provenance scan of `parse_pdf_low_level` (main.py:117-166): every
    character of every page is checked against the fonts the genuine statements
    are typeset with; each character in another font becomes a suspicious region. */
module FontScan {
  import opened Wrappers
  import opened Text

  /** `DEFAULT_FONTS_BANK_OF_AMERICAN` (main.py:20-27). */
  const Whitelist: seq<string> := [
    "AAAAAH+ConnectionsIta_CZEX0AC0",
    "AAAAAB+ITC_Franklin_Gothic_Book_CZEX0080",
    "AAAAAD+HigherStandards_CZEX0660",
    "AAAAAL+ConnectionsBold_CZEX0AA0",
    "AAAAAJ+Connections_Medium_CZEX0A80",
    "AAAAAF+Connections_CZEX0A60"
  ]

  /** One entry of `page.chars`; a key the record lacks is `None`. */
  datatype CharRecord = CharRecord(
    fontname: Option<string>,
    x0: Option<real>, top: Option<real>, x1: Option<real>, bottom: Option<real>,
    text: Option<string>, width: Option<real>, height: Option<real>)

  /** `(x0, top, x1, bottom)` in PDF coordinates. */
  datatype BBox = BBox(x0: real, top: real, x1: real, bottom: real)

  /** The key the glyph's text is stored under in a region map. The source writes the
      string `'''(x0, top, x1, bottom) - coordinates in PDF'''` right before `"text"` with
      no comma between them, and Python joins adjacent string literals into this one key
      (main.py:138-139). There is no `"text"` key. */
  const TextKey := "(x0, top, x1, bottom) - coordinates in PDFtext"

  /** One entry of `suspicious_regions`; `text` is the value stored under `TextKey`. */
  datatype Region = Region(page: nat, fontname: string, bbox: BBox, text: string, width: real, height: real)

  /** The dictionary `parse_pdf_low_level` returns when pdfplumber opens the file. */
  datatype LowLevelAnalysis = LowLevelAnalysis(
    revisions: nat,
    fontCount: nat,
    fontsUsed: set<string>,
    suspiciousRegions: seq<Region>,
    suspiciousObjects: bool,
    note: string)

  /** `char.get("fontname", "unknown")`. */
  function FontName(c: CharRecord): string {
    c.fontname.GetOr("unknown")
  }

  predicate IsForeign(c: CharRecord) {
    FontName(c) !in Whitelist
  }

  /** The region recorded for a character on page `pageNum`; absent numbers read as 0, absent text as "". */
  function RegionOf(c: CharRecord, pageNum: nat): (r: Region)
    ensures r.page == pageNum && r.fontname == FontName(c)
    ensures r.bbox == BBox(c.x0.GetOr(0.0), c.top.GetOr(0.0), c.x1.GetOr(0.0), c.bottom.GetOr(0.0))
    ensures r.text == c.text.GetOr("") && r.width == c.width.GetOr(0.0) && r.height == c.height.GetOr(0.0)
  {
    Region(pageNum, FontName(c),
           BBox(c.x0.GetOr(0.0), c.top.GetOr(0.0), c.x1.GetOr(0.0), c.bottom.GetOr(0.0)),
           c.text.GetOr(""), c.width.GetOr(0.0), c.height.GetOr(0.0))
  }

  // ---- What the loops accumulate, stated as folds over prefixes ----

  /** The fonts of the characters of one page. */
  function PageFonts(chars: seq<CharRecord>): set<string> {
    if chars == [] then {}
    else PageFonts(chars[..|chars| - 1]) + {FontName(chars[|chars| - 1])}
  }

  /** `fonts`: the font of every character on every page. */
  function FontsUsed(pages: seq<seq<CharRecord>>): set<string> {
    if pages == [] then {}
    else FontsUsed(pages[..|pages| - 1]) + PageFonts(pages[|pages| - 1])
  }

  /** The regions one page (numbered `pageNum`) contributes, in character order. */
  function PageRegions(chars: seq<CharRecord>, pageNum: nat): seq<Region> {
    if chars == [] then []
    else
      var c := chars[|chars| - 1];
      PageRegions(chars[..|chars| - 1], pageNum) + (if IsForeign(c) then [RegionOf(c, pageNum)] else [])
  }

  /** `suspicious_regions`: page by page, pages numbered from 1. */
  function SuspiciousRegions(pages: seq<seq<CharRecord>>): seq<Region> {
    if pages == [] then []
    else SuspiciousRegions(pages[..|pages| - 1]) + PageRegions(pages[|pages| - 1], |pages|)
  }

  /** One step of the inner loop: the next character of a page. */
  lemma CharStep(chars: seq<CharRecord>, j: nat, pageNum: nat)
    requires j < |chars|
    ensures PageFonts(chars[..j + 1]) == PageFonts(chars[..j]) + {FontName(chars[j])}
    ensures PageRegions(chars[..j + 1], pageNum) ==
      PageRegions(chars[..j], pageNum) + (if IsForeign(chars[j]) then [RegionOf(chars[j], pageNum)] else [])
  {
    assert chars[..j + 1][..j] == chars[..j];
  }

  /** One step of the outer loop: the next page. */
  lemma PageStep(pages: seq<seq<CharRecord>>, p: nat)
    requires p < |pages|
    ensures FontsUsed(pages[..p + 1]) == FontsUsed(pages[..p]) + PageFonts(pages[p])
    ensures SuspiciousRegions(pages[..p + 1]) == SuspiciousRegions(pages[..p]) + PageRegions(pages[p], p + 1)
  {
    assert pages[..p + 1][..p] == pages[..p];
  }

  /** `obj.get("type") in ["/JavaScript", "/OpenAction"]`. */
  predicate IsActiveType(t: Option<string>) {
    t == Some("/JavaScript") || t == Some("/OpenAction")
  }

  /** `suspicious_objects`: the type of some xobject, on some page, is an active one. */
  function HasSuspiciousObjects(objectTypes: seq<seq<Option<string>>>): (r: bool)
    ensures r <==> exists p, k :: 0 <= p < |objectTypes| && 0 <= k < |objectTypes[p]| && IsActiveType(objectTypes[p][k])
  {
    if objectTypes == [] then false
    else
      var page := objectTypes[0];
      var rest := objectTypes[1..];
      assert forall p :: 0 < p < |objectTypes| ==> objectTypes[p] == rest[p - 1];
      (exists k :: 0 <= k < |page| && IsActiveType(page[k])) || HasSuspiciousObjects(rest)
  }

  const FontsSentence := " fonts detected; multiple fonts may indicate manipulation."
  const FoundSentence := " occurrences of suspicious fonts at specific positions."
  const FlaggedClause := "Suspicious objects found."
  const CleanClause := "No suspicious objects."

  /** The second sentence of the note. */
  function FoundText(regionCount: nat): string {
    "Found " + NatToString(regionCount) + FoundSentence
  }

  /** The closing clause of the note. */
  function Closing(flagged: bool): string {
    if flagged then FlaggedClause else CleanClause
  }

  /** The `note` f-string: the three sentences run together without separators. */
  function Note(fontCount: nat, regionCount: nat, flagged: bool): (r: string)
    ensures |r| > |NatToString(fontCount)| + |Closing(flagged)|
  {
    NatToString(fontCount) + ((FontsSentence + FoundText(regionCount)) + Closing(flagged))
  }

  /** `parse_pdf_low_level` once pdfplumber has read the file: `pages` holds `page.chars`
      for each page, `objectTypes` the `type` of each xobject on each page. */
  method ParsePdfLowLevel(pages: seq<seq<CharRecord>>, objectTypes: seq<seq<Option<string>>>, revisions: nat)
    returns (r: LowLevelAnalysis)
    ensures r.revisions == revisions
    ensures r.fontsUsed == FontsUsed(pages) && r.fontCount == |r.fontsUsed|
    ensures r.suspiciousRegions == SuspiciousRegions(pages)
    ensures r.suspiciousObjects == HasSuspiciousObjects(objectTypes)
    ensures r.note == Note(r.fontCount, |r.suspiciousRegions|, |r.suspiciousRegions| > 0 || r.suspiciousObjects)
  {
    var fonts: set<string> := {};
    var regions: seq<Region> := [];
    var p := 0;
    while p < |pages|
      invariant 0 <= p <= |pages|
      invariant fonts == FontsUsed(pages[..p])
      invariant regions == SuspiciousRegions(pages[..p])
    {
      var chars := pages[p];
      var pageNum := p + 1;
      var j := 0;
      while j < |chars|
        invariant 0 <= j <= |chars|
        invariant fonts == FontsUsed(pages[..p]) + PageFonts(chars[..j])
        invariant regions == SuspiciousRegions(pages[..p]) + PageRegions(chars[..j], pageNum)
      {
        var c := chars[j];
        var font := FontName(c);
        CharStep(chars, j, pageNum);
        fonts := fonts + {font};
        if font !in Whitelist {
          regions := regions + [RegionOf(c, pageNum)];
        }
        j := j + 1;
      }
      assert chars[..j] == chars;
      PageStep(pages, p);
      p := p + 1;
    }
    assert pages[..p] == pages;
    var suspiciousObjects := HasSuspiciousObjects(objectTypes);
    var flagged := |regions| > 0 || suspiciousObjects;
    r := LowLevelAnalysis(revisions, |fonts|, fonts, regions, suspiciousObjects,
                          Note(|fonts|, |regions|, flagged));
  }

  // ---- What the scan promises ----

  /** `fonts_used` holds exactly the fonts some character is typeset in. */
  lemma {:induction false} FontsUsedExactly(pages: seq<seq<CharRecord>>)
    ensures forall f :: f in FontsUsed(pages) <==>
      exists p, i :: 0 <= p < |pages| && 0 <= i < |pages[p]| && FontName(pages[p][i]) == f
  {
    if pages != [] {
      var init := pages[..|pages| - 1];
      FontsUsedExactly(init);
      PageFontsExactly(pages[|pages| - 1]);
      assert forall p :: 0 <= p < |init| ==> init[p] == pages[p];
    }
  }

  lemma {:induction false} PageFontsExactly(chars: seq<CharRecord>)
    ensures forall f :: f in PageFonts(chars) <==> exists i :: 0 <= i < |chars| && FontName(chars[i]) == f
  {
    if chars != [] {
      var init := chars[..|chars| - 1];
      PageFontsExactly(init);
      assert forall i :: 0 <= i < |init| ==> init[i] == chars[i];
    }
  }

  /** Regions come page by page: page numbers run from 1 to the page count, never decreasing. */
  lemma {:induction false} RegionPagesOrdered(pages: seq<seq<CharRecord>>)
    ensures forall k :: 0 <= k < |SuspiciousRegions(pages)| ==> 1 <= SuspiciousRegions(pages)[k].page <= |pages|
    ensures forall k, l :: 0 <= k < l < |SuspiciousRegions(pages)| ==>
      SuspiciousRegions(pages)[k].page <= SuspiciousRegions(pages)[l].page
  {
    if pages != [] {
      var front := SuspiciousRegions(pages[..|pages| - 1]);
      var last := PageRegions(pages[|pages| - 1], |pages|);
      RegionPagesOrdered(pages[..|pages| - 1]);
      assert SuspiciousRegions(pages) == front + last;
      PageRegionsOnPage(pages[|pages| - 1], |pages|);
      var r := front + last;
      forall k | 0 <= k < |r|
        ensures 1 <= r[k].page <= |pages|
      {
        if k < |front| {
          assert r[k] == front[k];
          assert 1 <= front[k].page <= |pages| - 1;
        } else {
          assert r[k] == last[k - |front|];
          assert last[k - |front|].page == |pages|;
        }
      }
      forall k, l | 0 <= k < l < |r|
        ensures r[k].page <= r[l].page
      {
        if l < |front| {
          assert r[k] == front[k] && r[l] == front[l];
        } else if k < |front| {
          assert r[k] == front[k] && r[l] == last[l - |front|];
        } else {
          assert r[k] == last[k - |front|] && r[l] == last[l - |front|];
        }
      }
    }
  }

  lemma {:induction false} PageRegionsOnPage(chars: seq<CharRecord>, pageNum: nat)
    ensures forall k :: 0 <= k < |PageRegions(chars, pageNum)| ==> PageRegions(chars, pageNum)[k].page == pageNum
  {
    if chars != [] {
      PageRegionsOnPage(chars[..|chars| - 1], pageNum);
    }
  }

  // ---- What the scan promises ----

  /** A page's regions are exactly its characters in a foreign font, in order. */
  lemma {:induction false} PageRegionsAreForeignGlyphs(chars: seq<CharRecord>, pageNum: nat)
    ensures forall g :: g in PageRegions(chars, pageNum) <==>
      exists i :: 0 <= i < |chars| && IsForeign(chars[i]) && g == RegionOf(chars[i], pageNum)
  {
    if chars != [] {
      var init := chars[..|chars| - 1];
      PageRegionsAreForeignGlyphs(init, pageNum);
      assert forall i :: 0 <= i < |init| ==> init[i] == chars[i];
    }
  }

  /** Every suspicious region is a character in a foreign font, recorded with its own
      1-based page number and its coordinates, and every such character has its region. */
  lemma {:induction false} RegionsAreForeignGlyphs(pages: seq<seq<CharRecord>>)
    ensures forall g :: g in SuspiciousRegions(pages) <==>
      exists p, i :: 0 <= p < |pages| && 0 <= i < |pages[p]| && IsForeign(pages[p][i]) && g == RegionOf(pages[p][i], p + 1)
  {
    if pages != [] {
      var init := pages[..|pages| - 1];
      RegionsAreForeignGlyphs(init);
      PageRegionsAreForeignGlyphs(pages[|pages| - 1], |pages|);
      assert forall p :: 0 <= p < |init| ==> init[p] == pages[p];
    }
  }

  /** The number of characters in a foreign font, counted by index. */
  function ForeignIndices(chars: seq<CharRecord>): set<nat> {
    set i: nat | i < |chars| && IsForeign(chars[i])
  }

  function ForeignCount(chars: seq<CharRecord>): nat {
    |ForeignIndices(chars)|
  }

  lemma ForeignCountStep(chars: seq<CharRecord>)
    requires chars != []
    ensures ForeignCount(chars) == ForeignCount(chars[..|chars| - 1]) + (if IsForeign(chars[|chars| - 1]) then 1 else 0)
  {
    var n := |chars| - 1;
    var init := chars[..n];
    var before := ForeignIndices(init);
    var after := ForeignIndices(chars);
    forall i: nat
      ensures i in after <==> i in before || (i == n && IsForeign(chars[n]))
    {
      if i < n {
        assert init[i] == chars[i];
      }
    }
    if IsForeign(chars[n]) {
      assert after == before + {n};
    } else {
      assert after == before;
    }
  }

  /** One region per foreign character: none is merged or dropped. */
  lemma {:induction false} PageRegionCount(chars: seq<CharRecord>, pageNum: nat)
    ensures |PageRegions(chars, pageNum)| == ForeignCount(chars)
  {
    if chars == [] {
      assert ForeignIndices(chars) == {};
    } else {
      PageRegionCount(chars[..|chars| - 1], pageNum);
      ForeignCountStep(chars);
    }
  }

  /** Characters only in whitelisted fonts, or no characters at all, leave no regions,
      and a single character in another font leaves one. */
  lemma RegionsEmptyIff(pages: seq<seq<CharRecord>>)
    ensures SuspiciousRegions(pages) == [] <==>
      forall p, i :: 0 <= p < |pages| && 0 <= i < |pages[p]| ==> FontName(pages[p][i]) in Whitelist
  {
    RegionsAreForeignGlyphs(pages);
    if exists p, i :: 0 <= p < |pages| && 0 <= i < |pages[p]| && IsForeign(pages[p][i]) {
      var p, i :| 0 <= p < |pages| && 0 <= i < |pages[p]| && IsForeign(pages[p][i]);
      assert RegionOf(pages[p][i], p + 1) in SuspiciousRegions(pages);
    }
    if SuspiciousRegions(pages) != [] {
      assert SuspiciousRegions(pages)[0] in SuspiciousRegions(pages);
    }
  }

  /** A page that is all whitelisted fonts except one glyph yields exactly that glyph's region. */
  lemma {:induction false} SingleForeignGlyph(chars: seq<CharRecord>, j: nat)
    requires j < |chars| && IsForeign(chars[j])
    requires forall i :: 0 <= i < |chars| && i != j ==> !IsForeign(chars[i])
    ensures SuspiciousRegions([chars]) == [RegionOf(chars[j], 1)]
  {
    PageRegionCount(chars, 1);
    assert ForeignIndices(chars) == {j};
    PageRegionsAreForeignGlyphs(chars, 1);
    var rs := PageRegions(chars, 1);
    assert rs[0] in rs;
    assert SuspiciousRegions([chars]) == SuspiciousRegions([chars][..0]) + rs;
    assert [chars][..0] == [];
  }

  /** The note's closing clause reports suspicious objects exactly when regions were
      found or an active xobject type was seen. */
  lemma NoteFlagIff(fontCount: nat, regionCount: nat, flagged: bool)
    ensures var note := Note(fontCount, regionCount, flagged);
      && (flagged <==> note[|note| - |FlaggedClause|..] == FlaggedClause)
      && (!flagged <==> note[|note| - |CleanClause|..] == CleanClause)
  {
    var note := Note(fontCount, regionCount, flagged);
    var clause := Closing(flagged);
    var front := NatToString(fontCount) + (FontsSentence + FoundText(regionCount));
    assert note == front + clause;
    assert note[|note| - |clause|..] == clause;
    assert FlaggedClause[|FlaggedClause| - 2] == 'd' && CleanClause[|CleanClause| - 2] == 's';
    if flagged {
      SuffixExcludes(note, FlaggedClause, CleanClause);
    } else {
      SuffixExcludes(note, CleanClause, FlaggedClause);
    }
  }

  /** A text ending in `a` does not end in `b` when their next-to-last characters differ. */
  lemma SuffixExcludes(note: string, a: string, b: string)
    requires 2 <= |a| <= |note| && 2 <= |b| <= |note| && a[|a| - 2] != b[|b| - 2]
    requires note[|note| - |a|..] == a
    ensures note[|note| - |b|..] != b
  {
    assert note[|note| - |a|..][|a| - 2] == note[|note| - 2];
    assert note[|note| - |b|..][|b| - 2] == note[|note| - 2];
  }

  /** The note starts with the number of fonts, as decimal digits that read back as that
      number, followed by the first sentence. */
  lemma NoteStartsWithFontCount(fontCount: nat, regionCount: nat, flagged: bool)
    ensures Note(fontCount, regionCount, flagged)[..|NatToString(fontCount)|] == NatToString(fontCount)
    ensures DigitsValue(Note(fontCount, regionCount, flagged)[..|NatToString(fontCount)|]) == fontCount
    ensures Note(fontCount, regionCount, flagged)[|NatToString(fontCount)|..|NatToString(fontCount)| + |FontsSentence|]
      == FontsSentence
  {
    NoteHead(NatToString(fontCount), FontsSentence, FoundText(regionCount), Closing(flagged));
    NatToStringRoundTrip(fontCount);
  }

  /** The second sentence follows the first and reports the number of regions, as decimal
      digits that read back as that number. */
  lemma NoteReportsRegionCount(fontCount: nat, regionCount: nat, flagged: bool)
    ensures Note(fontCount, regionCount, flagged)[|NatToString(fontCount)| + |FontsSentence|..
      |NatToString(fontCount)| + |FontsSentence| + |FoundText(regionCount)|] == FoundText(regionCount)
    ensures FoundText(regionCount)[..6] == "Found "
    ensures FoundText(regionCount)[6..6 + |NatToString(regionCount)|] == NatToString(regionCount)
    ensures DigitsValue(FoundText(regionCount)[6..6 + |NatToString(regionCount)|]) == regionCount
    ensures FoundText(regionCount)[6 + |NatToString(regionCount)|..] == FoundSentence
  {
    NotePieces(NatToString(fontCount), FontsSentence, FoundText(regionCount), Closing(flagged));
    FoundTextReadsCount(regionCount);
  }

  /** The second sentence: "Found ", the count's digits, which read back as the count, and the rest. */
  lemma FoundTextReadsCount(regionCount: nat)
    ensures FoundText(regionCount)[..6] == "Found "
    ensures FoundText(regionCount)[6..6 + |NatToString(regionCount)|] == NatToString(regionCount)
    ensures DigitsValue(FoundText(regionCount)[6..6 + |NatToString(regionCount)|]) == regionCount
    ensures FoundText(regionCount)[6 + |NatToString(regionCount)|..] == FoundSentence
  {
    FoundPieces(NatToString(regionCount));
    NatToStringRoundTrip(regionCount);
  }

  /** Where the count sits in the second sentence. */
  lemma FoundPieces(digits: string)
    ensures ("Found " + digits + FoundSentence)[..6] == "Found "
    ensures ("Found " + digits + FoundSentence)[6..6 + |digits|] == digits
    ensures ("Found " + digits + FoundSentence)[6 + |digits|..] == FoundSentence
  {
    var t := "Found " + digits + FoundSentence;
    assert forall i :: 0 <= i < |digits| ==> t[6 + i] == digits[i];
    assert forall i :: 0 <= i < |FoundSentence| ==> t[6 + |digits| + i] == FoundSentence[i];
  }

  /** Where the middle piece of a note sits. */
  lemma NotePieces(a: string, b: string, c: string, d: string)
    ensures (a + ((b + c) + d))[|a| + |b|..|a| + |b| + |c|] == c
  {
    var n := a + ((b + c) + d);
    assert forall i :: 0 <= i < |c| ==> n[|a| + |b| + i] == c[i];
  }

  /** Where the first two pieces of a note sit. */
  lemma NoteHead(a: string, b: string, c: string, d: string)
    ensures (a + ((b + c) + d))[..|a|] == a
    ensures (a + ((b + c) + d))[|a|..|a| + |b|] == b
  {
    var n := a + ((b + c) + d);
    assert forall i :: 0 <= i < |b| ==> n[|a| + i] == b[i];
  }
}
