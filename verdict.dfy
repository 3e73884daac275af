/** The verdict the `/analyze-pdf` endpoint assembles (main.py:352-362) from the
    metadata signals, the per-image results and the low-level scan. */
module Verdict {
  import opened Wrappers
  import Metadata
  import FontScan

  const PossibleEdit := "Possible edit detected"
  const NoEdits := "No obvious edits detected."

  /** The key the verdict reads the font list from, as written (main.py:361). */
  const WrittenFontKey := "fontes_used"
  /** The key `parse_pdf_low_level` stores the font list under (main.py:156). */
  const FontKey := "fonts_used"

  /** The two keys the verdict may read the font list from: the one written and the one
      intended. The analysis map's other keys hold other values and are not font lists. */
  predicate IsFontKey(key: string) {
    key == FontKey || key == WrittenFontKey
  }

  /** What `analyze_image` returns: an error-level-analysis result, or an error map
      (which has no `possible_manipulation` key). */
  datatype ImageResult = Ela(possibleManipulation: bool) | ImageError(message: string)

  /** One entry of `image_analysis`. */
  datatype ImageEntry = ImageEntry(page: nat, imageIndex: nat, analysis: ImageResult)

  /** What `parse_pdf_low_level` returns: its analysis, or an error map. */
  datatype LowLevelResult = Analysis(analysis: FontScan.LowLevelAnalysis) | LowLevelError(message: string)

  /** The `possible_edits` dictionary. */
  datatype Verdict = Verdict(
    editedByDates: bool,
    editedBySoftware: bool,
    imageAnalysisSummary: bool,
    lowLevelAnalysisSummary: bool,
    summary: string)

  /** `img["analysis"].get("possible_manipulation", False)`. */
  predicate Flags(result: ImageResult) {
    result.Ela? && result.possibleManipulation
  }

  /** `any(... for img in image_analysis)`. */
  function AnyManipulation(images: seq<ImageEntry>): (r: bool)
    ensures r <==> exists i :: 0 <= i < |images| && Flags(images[i].analysis)
  {
    if images == [] then false
    else
      assert forall i :: 0 < i < |images| ==> images[i] == images[1..][i - 1];
      Flags(images[0].analysis) || AnyManipulation(images[1..])
  }

  /** `low_level_analysis.get(key, [])` for a font-list key, as a multiset since only
      the sorted list is compared. The analysis map carries its font list under `FontKey`. */
  function FontList(low: LowLevelResult, key: string): (r: multiset<string>)
    requires IsFontKey(key)
    ensures key != FontKey ==> r == multiset{}
    ensures low.LowLevelError? ==> r == multiset{}
    ensures low.Analysis? && key == FontKey ==> r == multiset(low.analysis.fontsUsed)
  {
    if low.Analysis? && key == FontKey then multiset(low.analysis.fontsUsed) else multiset{}
  }

  /** `low_level_analysis.get("suspicious_objects", False)`. */
  function SuspiciousObjects(low: LowLevelResult): bool {
    low.Analysis? && low.analysis.suspiciousObjects
  }

  /** `sorted(DEFAULT_FONTS_BANK_OF_AMERICAN) != sorted(low_level_analysis.get(key, []))`. */
  predicate FontsDeviate(low: LowLevelResult, key: string)
    requires IsFontKey(key)
  {
    multiset(FontScan.Whitelist) != FontList(low, key)
  }

  /** The verdict, reading the font list from `fontKey`. */
  function Assess(signal: Metadata.EditionSignal, images: seq<ImageEntry>, low: LowLevelResult, fontKey: string): (r: Verdict)
    requires IsFontKey(fontKey)
    ensures r.editedByDates == signal.editedByDates && r.editedBySoftware == signal.editedBySoftware
    ensures r.imageAnalysisSummary <==> exists i :: 0 <= i < |images| && Flags(images[i].analysis)
    ensures r.lowLevelAnalysisSummary <==> low.Analysis? && low.analysis.suspiciousObjects
    ensures r.summary == PossibleEdit || r.summary == NoEdits
    ensures r.summary == PossibleEdit <==>
      || signal.editedByDates
      || signal.editedBySoftware
      || (exists i :: 0 <= i < |images| && Flags(images[i].analysis))
      || multiset(FontScan.Whitelist) != FontList(low, fontKey)
  {
    var anyImage := AnyManipulation(images);
    var edited := signal.editedByDates || signal.editedBySoftware || anyImage || FontsDeviate(low, fontKey);
    Verdict(signal.editedByDates, signal.editedBySoftware, anyImage, SuspiciousObjects(low),
            if edited then PossibleEdit else NoEdits)
  }

  /** The verdict as written: the font list is read from `"fontes_used"`. */
  function Aggregate(signal: Metadata.EditionSignal, images: seq<ImageEntry>, low: LowLevelResult): (r: Verdict)
    ensures r.imageAnalysisSummary == AnyManipulation(images)
    ensures r.lowLevelAnalysisSummary == SuspiciousObjects(low)
  {
    Assess(signal, images, low, WrittenFontKey)
  }

  /** The verdict as evidently intended: the font list is read from `"fonts_used"`. */
  function AggregateIntended(signal: Metadata.EditionSignal, images: seq<ImageEntry>, low: LowLevelResult): (r: Verdict)
    ensures r.imageAnalysisSummary == AnyManipulation(images)
    ensures r.lowLevelAnalysisSummary == SuspiciousObjects(low)
  {
    Assess(signal, images, low, FontKey)
  }

  /** The whitelist has six different names. */
  lemma WhitelistDistinct()
    ensures |multiset(FontScan.Whitelist)| == 6
    ensures forall i, j :: 0 <= i < j < |FontScan.Whitelist| ==> FontScan.Whitelist[i] != FontScan.Whitelist[j]
  {
    var w := FontScan.Whitelist;
    assert |w[0]| == 30 && |w[1]| == 40 && |w[2]| == 31 && |w[3]| == 31 && |w[4]| == 34 && |w[5]| == 27;
    forall i, j | 0 <= i < j < |w|
      ensures w[i] != w[j]
    {
      if i == 2 && j == 3 {
        assert w[2][29] == '6' && w[3][29] == 'A';
      } else {
        assert |w[i]| != |w[j]|;
      }
    }
  }

  /** As written, the summary is always "Possible edit detected": the key `"fontes_used"`
      is never present, so the six-name whitelist is compared with an empty list. */
  lemma AlwaysPossibleEdit(signal: Metadata.EditionSignal, images: seq<ImageEntry>, low: LowLevelResult)
    ensures Aggregate(signal, images, low).summary == PossibleEdit
  {
    WhitelistDistinct();
    assert FontList(low, WrittenFontKey) == multiset{};
  }

  /** The multiset of a set of fonts equals the whitelist's exactly when the set is the whitelist's names. */
  lemma WhitelistMultiset(fonts: set<string>)
    ensures multiset(fonts) == multiset(FontScan.Whitelist) <==> fonts == set f | f in FontScan.Whitelist
  {
    WhitelistDistinct();
    SetMatchesDistinct(fonts, FontScan.Whitelist);
  }

  /** A set has the same elements, with the same multiplicities, as a sequence without
      repeats exactly when it holds that sequence's elements. */
  lemma SetMatchesDistinct<T>(fonts: set<T>, w: seq<T>)
    requires forall a, b :: 0 <= a < b < |w| ==> w[a] != w[b]
    ensures multiset(fonts) == multiset(w) <==> fonts == set f | f in w
  {
    var names := set f | f in w;
    if fonts == names {
      forall f
        ensures multiset(fonts)[f] == multiset(w)[f]
      {
        if f in w {
          var i :| 0 <= i < |w| && w[i] == f;
          OccursOnce(w, i);
        }
      }
    }
    if multiset(fonts) == multiset(w) {
      forall f
        ensures f in fonts <==> f in names
      {
        assert f in fonts <==> f in multiset(fonts);
        assert f in w <==> f in multiset(w);
      }
    }
  }

  /** In a sequence without repeats, each element occurs once. */
  lemma {:induction false} OccursOnce<T>(w: seq<T>, i: nat)
    requires i < |w|
    requires forall a, b :: 0 <= a < b < |w| ==> w[a] != w[b]
    ensures multiset(w)[w[i]] == 1
  {
    var n := |w| - 1;
    var init := w[..n];
    assert w == init + [w[n]];
    assert forall k :: 0 <= k < n ==> init[k] == w[k];
    if i == n {
      assert w[i] !in init;
    } else {
      OccursOnce(init, i);
      assert w[i] != w[n];
    }
  }

  /** With the intended key, no edit is reported exactly when neither metadata signal is
      set, no image is flagged, and the scan found precisely the whitelisted fonts. */
  lemma IntendedNoEditsIff(signal: Metadata.EditionSignal, images: seq<ImageEntry>, low: LowLevelResult)
    ensures AggregateIntended(signal, images, low).summary == NoEdits <==>
      && !signal.editedByDates
      && !signal.editedBySoftware
      && (forall i :: 0 <= i < |images| ==> !Flags(images[i].analysis))
      && low.Analysis?
      && low.analysis.fontsUsed == set f | f in FontScan.Whitelist
  {
    WhitelistDistinct();
    assert FontsDeviate(low, FontKey) <==> multiset(FontScan.Whitelist) != FontList(low, FontKey);
    if low.Analysis? {
      WhitelistMultiset(low.analysis.fontsUsed);
    }
  }

  /** An image whose analysis failed adds no signal: the verdict is that of the other images. */
  lemma ErrorImageIsAbsentSignal(signal: Metadata.EditionSignal, images: seq<ImageEntry>, entry: ImageEntry,
                                 low: LowLevelResult, fontKey: string)
    requires entry.analysis.ImageError? && IsFontKey(fontKey)
    ensures Assess(signal, images + [entry], low, fontKey) == Assess(signal, images, low, fontKey)
  {
    var all := images + [entry];
    assert forall i :: 0 <= i < |images| ==> all[i] == images[i];
    assert AnyManipulation(all) == AnyManipulation(images);
  }

  /** A failed low-level scan reports no suspicious objects, and even with the intended key
      it yields "Possible edit detected", since its font list is empty. */
  lemma LowLevelErrorFlagsEdit(signal: Metadata.EditionSignal, images: seq<ImageEntry>, message: string)
    ensures !AggregateIntended(signal, images, LowLevelError(message)).lowLevelAnalysisSummary
    ensures AggregateIntended(signal, images, LowLevelError(message)).summary == PossibleEdit
  {
    WhitelistDistinct();
  }
}
