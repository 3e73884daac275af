/** Metadata skew detection: `extract_metadata` (main.py:66-95). The document
    properties come from the PDF library as a dictionary whose values are strings
    or Python `None`; absent keys read as "Unknown". */
module Metadata {
  import opened Wrappers
  import opened Text

  /** The document-properties dictionary; `None` stands for a Python `None` value. */
  type Properties = map<string, Option<string>>

  const Unknown := "Unknown"

  /** The editing tools whose names mark a document as edited (main.py:78). */
  const EditSoftwares: seq<string> := ["Acrobat", "Photoshop", "Word", "GIMP", "Illustrator"]

  /** The properties echoed back in the report. */
  datatype MetadataSnapshot = MetadataSnapshot(
    creationDate: Option<string>,
    modificationDate: Option<string>,
    producer: Option<string>,
    creator: Option<string>,
    author: Option<string>)

  datatype EditionSignal = EditionSignal(editedByDates: bool, editedBySoftware: bool)

  datatype MetadataReport = MetadataReport(metadata: MetadataSnapshot, analysisEditions: EditionSignal)

  /** `metadata.get(key, 'Unknown')`. */
  function Get(m: Properties, key: string): (v: Option<string>)
    ensures key !in m ==> v == Some(Unknown)
    ensures key in m ==> v == m[key]
  {
    if key in m then m[key] else Some(Unknown)
  }

  /** Some tool name, lower-cased, occurs in `text`. */
  function AnyToolIn(tools: seq<string>, text: string): (r: bool)
    ensures r <==> exists k :: 0 <= k < |tools| && Contains(text, Lower(tools[k]))
  {
    if tools == [] then false
    else Contains(text, Lower(tools[0])) || AnyToolIn(tools[1..], text)
  }

  /** The message of the `TypeError` raised by `producer + creator` when one of them is `None`. */
  function ConcatErrorMessage(producer: Option<string>, creator: Option<string>): string
    requires producer.None? || creator.None?
  {
    if producer.Some? then "can only concatenate str (not \"NoneType\") to str"
    else if creator.Some? then "unsupported operand type(s) for +: 'NoneType' and 'str'"
    else "unsupported operand type(s) for +: 'NoneType' and 'NoneType'"
  }

  /** `extract_metadata`: the date and software edit signals, or the error dictionary
      when concatenating producer and creator raises. */
  function ExtractMetadata(m: Properties): (r: Result<MetadataReport, string>)
    ensures r.Success? <==> Get(m, "producer").Some? && Get(m, "creator").Some?
    ensures r.Failure? ==>
      r.error == "Error running ExifTool: " + ConcatErrorMessage(Get(m, "producer"), Get(m, "creator"))
    ensures r.Success? ==> r.value.metadata == MetadataSnapshot(
      Get(m, "creationDate"), Get(m, "modDate"), Get(m, "producer"), Get(m, "creator"), Get(m, "author"))
    ensures r.Success? ==>
      (r.value.analysisEditions.editedByDates <==>
        Get(m, "modDate") != Get(m, "creationDate") && Get(m, "modDate") != Some(Unknown))
    ensures r.Success? ==>
      (r.value.analysisEditions.editedBySoftware <==>
        exists k :: 0 <= k < |EditSoftwares| &&
          Contains(Lower(Get(m, "producer").value + Get(m, "creator").value), Lower(EditSoftwares[k])))
  {
    var creationDate := Get(m, "creationDate");
    var modDate := Get(m, "modDate");
    var producer := Get(m, "producer");
    var creator := Get(m, "creator");
    var author := Get(m, "author");
    if producer.None? || creator.None? then
      Failure("Error running ExifTool: " + ConcatErrorMessage(producer, creator))
    else
      var editedByDates := modDate != creationDate && modDate != Some(Unknown);
      var editedBySoftware := AnyToolIn(EditSoftwares, Lower(producer.value + creator.value));
      Success(MetadataReport(
        MetadataSnapshot(creationDate, modDate, producer, creator, author),
        EditionSignal(editedByDates, editedBySoftware)))
  }

  /** Equal creation and modification dates never count as a date edit. */
  lemma EqualDatesNeverEdited(m: Properties)
    requires Get(m, "creationDate") == Get(m, "modDate")
    requires ExtractMetadata(m).Success?
    ensures !ExtractMetadata(m).value.analysisEditions.editedByDates
  {
  }

  /** With neither producer nor creator recorded, the defaults "Unknown" name no editing tool. */
  lemma {:induction false} MissingToolKeysNeverEdited(m: Properties)
    requires "producer" !in m && "creator" !in m
    ensures ExtractMetadata(m).Success?
    ensures !ExtractMetadata(m).value.analysisEditions.editedBySoftware
  {
    NoToolInUnknowns(Lower(Unknown + Unknown));
    assert Get(m, "producer").value + Get(m, "creator").value == Unknown + Unknown;
  }

  /** None of the tool names occurs in "unknownunknown". */
  lemma NoToolInUnknowns(text: string)
    requires text == Lower(Unknown + Unknown)
    ensures forall k :: 0 <= k < |EditSoftwares| ==> !Contains(text, Lower(EditSoftwares[k]))
  {
    UnknownLetters();
    MissingCharNeverContained(text, Lower(EditSoftwares[0]), 0);
    MissingCharNeverContained(text, Lower(EditSoftwares[1]), 0);
    MissingCharNeverContained(text, Lower(EditSoftwares[2]), 2);
    MissingCharNeverContained(text, Lower(EditSoftwares[3]), 0);
    MissingCharNeverContained(text, Lower(EditSoftwares[4]), 0);
    forall k | 0 <= k < |EditSoftwares|
      ensures !Contains(text, Lower(EditSoftwares[k]))
    {
      assert k == 0 || k == 1 || k == 2 || k == 3 || k == 4;
    }
  }

  /** The letters of the lower-cased default pair, and the letters the tool names need. */
  lemma UnknownLetters()
    ensures forall i :: 0 <= i < |Lower(Unknown + Unknown)| ==>
      Lower(Unknown + Unknown)[i] in {'u', 'n', 'k', 'o', 'w'}
    ensures Lower(EditSoftwares[0])[0] == 'a' && Lower(EditSoftwares[1])[0] == 'p'
    ensures |Lower(EditSoftwares[2])| > 2 && Lower(EditSoftwares[2])[2] == 'r'
    ensures Lower(EditSoftwares[3])[0] == 'g' && Lower(EditSoftwares[4])[0] == 'i'
  {
    var u := Unknown + Unknown;
    assert forall i :: 0 <= i < |u| ==> u[i] in {'U', 'u', 'n', 'k', 'o', 'w'};
  }

  /** A producer naming an editing tool, in any letter case, flags the document
      whatever the creator says. */
  lemma ProducerNamingToolIsEdited(m: Properties, k: nat, i: nat)
    requires k < |EditSoftwares|
    requires Get(m, "producer").Some? && Get(m, "creator").Some?
    requires StartsAt(Lower(Get(m, "producer").value), i, Lower(EditSoftwares[k]))
    ensures ExtractMetadata(m).value.analysisEditions.editedBySoftware
  {
    var p, c := Get(m, "producer").value, Get(m, "creator").value;
    var t := Lower(EditSoftwares[k]);
    assert Lower(p + c)[i..i + |t|] == Lower(p)[i..i + |t|];
    assert StartsAt(Lower(p + c), i, t);
  }

  /** The combined example: dates that differ and an Acrobat producer raise both signals. */
  lemma AcrobatExample()
    ensures var m: Properties := map[
              "creationDate" := Some("D:20240101000000"),
              "modDate" := Some("D:20240102000000"),
              "producer" := Some("Adobe Acrobat")];
            var r := ExtractMetadata(m);
            r.Success? && r.value.analysisEditions.editedByDates && r.value.analysisEditions.editedBySoftware
  {
    var m: Properties := map[
      "creationDate" := Some("D:20240101000000"),
      "modDate" := Some("D:20240102000000"),
      "producer" := Some("Adobe Acrobat")];
    assert Get(m, "producer").value == "Adobe Acrobat";
    assert Lower("Adobe Acrobat")[6..13] == "acrobat";
    ProducerNamingToolIsEdited(m, 0, 6);
    assert "D:20240101000000"[9] != "D:20240102000000"[9];
  }
}
