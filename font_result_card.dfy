/**
 * What a result card derives from one detected font: the CSS class of the
 * sample (from the style description), the confidence meter (a rounded
 * percentage in one of three colour bands), the sample text with its
 * placeholder, and the Google Fonts search link for the suggested family.
 */
module FontResultCard {
  import opened Wrappers
  import opened Js
  import opened FontTypes
  import opened UriComponent

  // ---------------------------------------------------------------------------
  // The sample's font class
  // ---------------------------------------------------------------------------

  const SerifClass: string := "font-serif"
  const MonoClass: string := "font-mono"
  const SansClass: string := "font-sans"

  /** `getFontFamilyClass`: serif if the text mentions "serif" in any letter case, else mono if "mono", else sans. */
  function FontFamilyClass(suggestion: string): (r: string)
    ensures r == SerifClass || r == MonoClass || r == SansClass
  {
    var lower := ToLowerCase(suggestion);
    if Includes(lower, "serif") then SerifClass
    else if Includes(lower, "mono") then MonoClass
    else SansClass
  }

  /** Each class, stated as the condition under which it is chosen. */
  lemma FontFamilyClassCases(s: string)
    ensures FontFamilyClass(s) == SerifClass <==> Includes(ToLowerCase(s), "serif")
    ensures FontFamilyClass(s) == MonoClass <==> !Includes(ToLowerCase(s), "serif") && Includes(ToLowerCase(s), "mono")
    ensures FontFamilyClass(s) == SansClass <==> !Includes(ToLowerCase(s), "serif") && !Includes(ToLowerCase(s), "mono")
  {
  }

  /** "serif" wins over "mono" when the text mentions both. */
  lemma SerifBeforeMono(s: string)
    requires Includes(ToLowerCase(s), "serif") && Includes(ToLowerCase(s), "mono")
    ensures FontFamilyClass(s) == SerifClass
  {
  }

  /** "sans-serif" contains "serif", so a sans-serif description gets the serif class. */
  lemma SansSerifGetsSerifClass()
    ensures FontFamilyClass("Bold Sans-Serif") == SerifClass
  {
    var lower := ToLowerCase("Bold Sans-Serif");
    assert lower[10..15] == "serif";
    assert OccursAt(lower, "serif", 10);
  }

  lemma LowerCharIdempotent(c: char)
    ensures LowerChar(LowerChar(c)) == LowerChar(c)
  {
  }

  /** Upper-case letters in the text never change the class. */
  lemma FontFamilyClassIgnoresLetterCase(s: string, t: string)
    requires |s| == |t| && forall i :: 0 <= i < |s| ==> LowerChar(s[i]) == LowerChar(t[i])
    ensures FontFamilyClass(s) == FontFamilyClass(t)
  {
    assert ToLowerCase(s) == ToLowerCase(t);
  }

  lemma FontFamilyClassOfLowerCase(s: string)
    ensures FontFamilyClass(ToLowerCase(s)) == FontFamilyClass(s)
  {
    forall i | 0 <= i < |s|
      ensures LowerChar(ToLowerCase(s)[i]) == LowerChar(s[i])
    {
      LowerCharIdempotent(s[i]);
    }
    FontFamilyClassIgnoresLetterCase(ToLowerCase(s), s);
  }

  // ---------------------------------------------------------------------------
  // The confidence meter
  // ---------------------------------------------------------------------------

  /** `Math.round(value * 100)`: the nearest integer, halves rounded up. */
  function Percentage(value: real): (p: int)
    ensures p as real - 0.5 <= value * 100.0 < p as real + 0.5
  {
    (value * 100.0 + 0.5).Floor
  }

  /** Rounding is to the nearest integer, so exact hundredths are kept. */
  lemma PercentageOfHundredths(k: int)
    ensures Percentage(k as real / 100.0) == k
  {
  }

  lemma PercentageMonotonic(v: real, w: real)
    requires v <= w
    ensures Percentage(v) <= Percentage(w)
  {
  }

  const GreenBar: string := "bg-green-500"
  const YellowBar: string := "bg-yellow-500"
  const RedBar: string := "bg-red-500"

  /** `getBarColor`. */
  function BarColor(percentage: int): (c: string)
    ensures c == GreenBar || c == YellowBar || c == RedBar
  {
    if percentage >= 85 then GreenBar
    else if percentage >= 60 then YellowBar
    else RedBar
  }

  /** The position of a colour in the order red, yellow, green. */
  function BandRank(color: string): nat {
    if color == GreenBar then 2 else if color == YellowBar then 1 else 0
  }

  lemma ColourBands(p: int)
    ensures BarColor(p) == GreenBar <==> 85 <= p
    ensures BarColor(p) == YellowBar <==> 60 <= p < 85
    ensures BarColor(p) == RedBar <==> p < 60
  {
  }

  /** A higher percentage never gets a lower band. */
  lemma ColourBandsMonotonic(p: int, q: int)
    requires p <= q
    ensures BandRank(BarColor(p)) <= BandRank(BarColor(q))
  {
  }

  /** The meter: the bar's colour class, its CSS width and its tooltip. */
  datatype Meter = Meter(color: string, width: string, title: string)

  function ConfidenceMeter(value: real): (m: Meter)
    ensures m.color == BarColor(Percentage(value))
  {
    var percentage := Percentage(value);
    Meter(BarColor(percentage), IntToDecimal(percentage) + "%", "Confidence: " + IntToDecimal(percentage) + "%")
  }

  /** The width and the tooltip show the same percentage, which reads back from either. */
  lemma MeterShowsOnePercentage(value: real)
    ensures var m := ConfidenceMeter(value);
      && m.title == "Confidence: " + m.width
      && |m.width| > 1 && m.width[|m.width| - 1] == '%'
      && ParseInt(m.width[..|m.width| - 1]) == Some(Percentage(value))
  {
    var digits := IntToDecimal(Percentage(value));
    IntToDecimalRoundTrip(Percentage(value));
    NatToDecimalDigits(if Percentage(value) < 0 then -Percentage(value) else Percentage(value));
    assert (digits + "%")[..|digits|] == digits;
  }

  // ---------------------------------------------------------------------------
  // Sample text and link
  // ---------------------------------------------------------------------------

  const PlaceholderSample: string := "Aa Bb Cc"

  /** `detectedText || "Aa Bb Cc"`: only the empty string is falsy. */
  function SampleText(detectedText: string): (r: string)
    ensures r != ""
    ensures detectedText != "" ==> r == detectedText
  {
    if detectedText == "" then PlaceholderSample else detectedText
  }

  const GoogleFontsQueryPrefix: string := "https://fonts.google.com/?query="

  function GoogleFontsUrl(suggestion: string): (url: string)
    ensures |url| >= |GoogleFontsQueryPrefix| && url[..|GoogleFontsQueryPrefix|] == GoogleFontsQueryPrefix
  {
    GoogleFontsQueryPrefix + EncodeUriComponent(suggestion)
  }

  /**
   * The query is the suggestion percent-encoded: it decodes back to the
   * suggestion, and it holds no character that could end the query value.
   */
  lemma GoogleFontsQueryDecodes(suggestion: string)
    ensures var query := GoogleFontsUrl(suggestion)[|GoogleFontsQueryPrefix|..];
      && DecodeUriComponent(query) == Some(suggestion)
      && (forall i :: 0 <= i < |query| ==> IsUnescaped(query[i]) || query[i] == '%')
  {
    var query := GoogleFontsUrl(suggestion)[|GoogleFontsQueryPrefix|..];
    assert query == EncodeUriComponent(suggestion);
    DecodeEncodeRoundTrip(suggestion);
    EncodedCharactersAreSafe(suggestion);
  }

  /** Different suggestions give different links. */
  lemma GoogleFontsUrlInjective(s: string, t: string)
    requires GoogleFontsUrl(s) == GoogleFontsUrl(t)
    ensures s == t
  {
    GoogleFontsQueryDecodes(s);
    GoogleFontsQueryDecodes(t);
  }

  // ---------------------------------------------------------------------------
  // The card
  // ---------------------------------------------------------------------------

  /** The values the card displays, apart from markup. */
  datatype Card = Card(
    heading: string,
    description: string,
    sample: string,
    sampleTitle: string,
    sampleClass: string,
    meter: Meter,
    linkHref: string,
    linkText: string,
    reasoning: string)

  function RenderCard(font: DetectedFont): (card: Card)
    ensures card.heading == font.fontName && card.description == font.description
    ensures card.sampleTitle == font.detectedText && card.reasoning == font.reasoning
    ensures card.linkText == font.fontFamilySuggestion
    ensures card.sample == SampleText(font.detectedText)
    ensures card.sampleClass == FontFamilyClass(font.description)
    ensures card.meter == ConfidenceMeter(font.confidence)
    ensures card.linkHref == GoogleFontsUrl(font.fontFamilySuggestion)
  {
    Card(font.fontName, font.description, SampleText(font.detectedText), font.detectedText,
      FontFamilyClass(font.description), ConfidenceMeter(font.confidence),
      GoogleFontsUrl(font.fontFamilySuggestion), font.fontFamilySuggestion, font.reasoning)
  }

  /**
   * The sample's class is the classifier applied to the description: serif
   * when it mentions "serif" in any letter case, mono when it mentions "mono"
   * but not "serif", sans otherwise; the suggested family plays no part.
   */
  lemma SampleClassFollowsDescription(font: DetectedFont)
    ensures var d := ToLowerCase(font.description);
      && (RenderCard(font).sampleClass == SerifClass <==> Includes(d, "serif"))
      && (RenderCard(font).sampleClass == MonoClass <==> !Includes(d, "serif") && Includes(d, "mono"))
      && (RenderCard(font).sampleClass == SansClass <==> !Includes(d, "serif") && !Includes(d, "mono"))
  {
    FontFamilyClassCases(font.description);
  }

  /**
   * The meter is drawn from the font's confidence: its width reads back as the
   * rounded percentage and its colour is that percentage's band.
   */
  lemma MeterFollowsConfidence(font: DetectedFont)
    ensures var p := Percentage(font.confidence);
      var m := RenderCard(font).meter;
      && |m.width| > 1 && ParseInt(m.width[..|m.width| - 1]) == Some(p)
      && (m.color == GreenBar <==> p >= 85)
      && (m.color == YellowBar <==> 60 <= p < 85)
      && (m.color == RedBar <==> p < 60)
  {
    MeterShowsOnePercentage(font.confidence);
    ColourBands(Percentage(font.confidence));
  }

  /** The sample shows the detected text, or the placeholder when there is none, while its tooltip keeps the text. */
  lemma SamplePlaceholder(font: DetectedFont)
    ensures font.detectedText == "" ==> RenderCard(font).sample == PlaceholderSample && RenderCard(font).sampleTitle == ""
    ensures font.detectedText != "" ==> RenderCard(font).sample == font.detectedText
  {
  }

  /** The link searches for the suggested family, which the search page reads back unchanged. */
  lemma CardLinkSearchesSuggestion(font: DetectedFont)
    ensures var href := RenderCard(font).linkHref;
      href[..|GoogleFontsQueryPrefix|] == GoogleFontsQueryPrefix
      && DecodeUriComponent(href[|GoogleFontsQueryPrefix|..]) == Some(font.fontFamilySuggestion)
  {
    GoogleFontsQueryDecodes(font.fontFamilySuggestion);
  }
}
