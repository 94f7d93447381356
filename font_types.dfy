/** The record the application receives for each font the model reports. */
module FontTypes {
  import opened Wrappers

  /**
   * One detected font. `confidence` is a JavaScript number, taken as an exact
   * real; the model is asked for a value from 0.0 to 1.0 but nothing enforces it.
   */
  datatype DetectedFont = DetectedFont(
    fontName: string,
    description: string,
    fontFamilySuggestion: string,
    confidence: real,
    reasoning: string,
    detectedText: string)

  /** The value of one field of a record, as a JSON value would carry it. */
  datatype FieldValue = Text(text: string) | Number(number: real)

  /** The names of the record's fields, in declaration order. */
  const FieldNames: seq<string> :=
    ["fontName", "description", "fontFamilySuggestion", "confidence", "reasoning", "detectedText"]

  /** The field of `font` called `name`, if the record has one. */
  function FieldOf(font: DetectedFont, name: string): Option<FieldValue>
  {
    if name == "fontName" then Some(Text(font.fontName))
    else if name == "description" then Some(Text(font.description))
    else if name == "fontFamilySuggestion" then Some(Text(font.fontFamilySuggestion))
    else if name == "confidence" then Some(Number(font.confidence))
    else if name == "reasoning" then Some(Text(font.reasoning))
    else if name == "detectedText" then Some(Text(font.detectedText))
    else None
  }

  /** Each listed name selects a field, no other name does, and no name is listed twice. */
  lemma FieldNamesAreTheFields(font: DetectedFont, name: string)
    ensures FieldOf(font, name).Some? <==> name in FieldNames
    ensures |FieldNames| == 6
    ensures forall i, j :: 0 <= i < j < |FieldNames| ==> FieldNames[i] != FieldNames[j]
  {
  }

  /** Two records that agree on every named field are the same record. */
  lemma FieldsDetermineRecord(f: DetectedFont, g: DetectedFont)
    requires forall name :: name in FieldNames ==> FieldOf(f, name) == FieldOf(g, name)
    ensures f == g
  {
    assert FieldOf(f, "fontName") == FieldOf(g, "fontName");
    assert FieldOf(f, "description") == FieldOf(g, "description");
    assert FieldOf(f, "fontFamilySuggestion") == FieldOf(g, "fontFamilySuggestion");
    assert FieldOf(f, "confidence") == FieldOf(g, "confidence");
    assert FieldOf(f, "reasoning") == FieldOf(g, "reasoning");
    assert FieldOf(f, "detectedText") == FieldOf(g, "detectedText");
  }
}
