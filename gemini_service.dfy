/**
 * The font-detection client: the credential check made when the module loads,
 * the structured-output schema sent with every request, the request itself,
 * and what is made of the model's reply. The SDK call and `JSON.parse` are
 * parameters: `generate` receives the API key and the request, `parse` reads
 * the reply text (`None` when it throws).
 */
module GeminiService {
  import opened Wrappers
  import opened Js
  import opened FontTypes

  // ---------------------------------------------------------------------------
  // Configuration
  // ---------------------------------------------------------------------------

  /** The options object the SDK client is constructed with. */
  datatype ClientOptions = ClientOptions(apiKey: string)

  /**
   * The options of a client that exists: the module only gets as far as
   * constructing the client once the key has passed the check in `LoadConfig`.
   */
  type Config = c: ClientOptions | c.apiKey != "" witness ClientOptions("API key")

  const ApiKeyVariable: string := "API_KEY"
  const ApiKeyMissingMessage: string := "API_KEY environment variable not set"

  /**
   * The check made when the module is loaded: an unset or empty `API_KEY` is
   * falsy and makes the module throw before any request can be made.
   */
  function LoadConfig(env: map<string, string>): (r: Result<Config, Thrown>)
    ensures r.Success? <==> ApiKeyVariable in env && env[ApiKeyVariable] != ""
    ensures r.Success? ==> r.value.apiKey == env[ApiKeyVariable]
    ensures r.Failure? ==> r.error == ErrorObject(ApiKeyMissingMessage)
  {
    if ApiKeyVariable !in env || env[ApiKeyVariable] == "" then Failure(ErrorObject(ApiKeyMissingMessage))
    else Success(ClientOptions(env[ApiKeyVariable]))
  }

  // ---------------------------------------------------------------------------
  // The response schema
  // ---------------------------------------------------------------------------

  /** The members of the SDK's `Type` enumeration that the schema uses. */
  datatype SchemaType = ARRAY | OBJECT | STRING | NUMBER

  datatype PropertySchema = PropertySchema(kind: SchemaType, description: string)

  datatype ObjectSchema = ObjectSchema(
    kind: SchemaType,
    properties: seq<(string, PropertySchema)>,
    required: seq<string>)

  datatype ResponseSchema = ResponseSchema(kind: SchemaType, items: ObjectSchema)

  /** `fontDetectionSchema`: an array of objects with six required properties. */
  const FontDetectionSchema: ResponseSchema :=
    ResponseSchema(ARRAY, ObjectSchema(OBJECT,
      [ ("detectedText", PropertySchema(STRING,
          "The actual text snippet from the image that is identified as using this font.")),
        ("fontName", PropertySchema(STRING, "The most likely name of the detected font.")),
        ("description", PropertySchema(STRING,
          "A brief description of the font's style (e.g., 'Bold sans-serif', 'Playful script').")),
        ("fontFamilySuggestion", PropertySchema(STRING,
          "A suggestion for a similar, freely available font family (e.g., from Google Fonts) like 'Roboto', 'Lato', 'Montserrat', etc.")),
        ("confidence", PropertySchema(NUMBER,
          "A confidence score from 0.0 to 1.0 indicating the likelihood of the match.")),
        ("reasoning", PropertySchema(STRING,
          "A brief explanation for why this font was chosen, based on visual characteristics."))
      ],
      ["detectedText", "fontName", "description", "fontFamilySuggestion", "confidence", "reasoning"]))

  /** The required list names exactly the record's six fields, each once. */
  lemma RequiredFieldsAreTheRecordFields()
    ensures var required := FontDetectionSchema.items.required;
      && |required| == |FieldNames|
      && (forall name :: name in required <==> name in FieldNames)
      && (forall i, j :: 0 <= i < j < |required| ==> required[i] != required[j])
  {
    var required := FontDetectionSchema.items.required;
    forall name
      ensures name in required <==> name in FieldNames
    {
      if name in FieldNames {
        var k :| 0 <= k < |FieldNames| && FieldNames[k] == name;
        assert name in required;
      }
    }
  }

  /**
   * The top level is an array of objects; every property is required, every
   * required name is a property, `confidence` is a NUMBER and the rest are
   * STRINGs, and each property's type is that of the record field it names.
   */
  lemma SchemaShape(font: DetectedFont)
    ensures FontDetectionSchema.kind == ARRAY && FontDetectionSchema.items.kind == OBJECT
    ensures var props := FontDetectionSchema.items.properties;
      && |props| == |FontDetectionSchema.items.required|
      && (forall i :: 0 <= i < |props| ==> props[i].0 == FontDetectionSchema.items.required[i])
      && (forall i :: 0 <= i < |props| ==>
            props[i].1.kind == (if props[i].0 == "confidence" then NUMBER else STRING))
      && (forall i :: 0 <= i < |props| ==>
            FieldOf(font, props[i].0).Some?
            && (props[i].1.kind == NUMBER <==> FieldOf(font, props[i].0).value.Number?)
            && (props[i].1.kind == STRING <==> FieldOf(font, props[i].0).value.Text?))
  {
  }

  // ---------------------------------------------------------------------------
  // The request
  // ---------------------------------------------------------------------------

  /** A part of the request's contents. `data` is `None` when the caller passed `undefined`. */
  datatype Part = InlineData(mimeType: string, data: Option<string>) | TextPart(text: string)

  datatype GenerationConfig = GenerationConfig(responseMimeType: string, responseSchema: ResponseSchema)

  datatype Request = Request(model: string, parts: seq<Part>, config: GenerationConfig)

  const ModelName: string := "gemini-2.5-flash"

  const Prompt: string :=
    "\n"
    + "        You are a font detection expert. Analyze the provided image, which is likely a YouTube thumbnail.\n"
    + "        Identify all distinct fonts visible in the image.\n"
    + "        For each font you identify, you MUST also extract the exact text snippet from the image that uses this font.\n"
    + "        Provide the font's likely name, a style description, a similar free font suggestion, a confidence score, your reasoning, and the detected text itself.\n"
    + "        Respond only with the JSON object defined in the schema. If no text or fonts are found, return an empty array.\n"
    + "    "

  /** The request: the image part, then the prompt, asking for JSON that follows the schema. */
  function BuildRequest(base64: Option<string>, mimeType: string): (r: Request)
    ensures |r.parts| == 2
    ensures r.parts[0] == InlineData(mimeType, base64)
    ensures r.parts[1] == TextPart(Prompt)
    ensures r.model == ModelName
    ensures r.config == GenerationConfig("application/json", FontDetectionSchema)
  {
    Request(ModelName, [InlineData(mimeType, base64), TextPart(Prompt)],
      GenerationConfig("application/json", FontDetectionSchema))
  }

  // ---------------------------------------------------------------------------
  // The reply
  // ---------------------------------------------------------------------------

  /**
   * What the SDK call gives back: a response whose `text` may be undefined
   * (`None`), or a rejection with whatever was thrown.
   */
  datatype GenerateOutcome = Generated(text: Option<string>) | GenerateRejected(cause: Thrown)

  /** The SDK call, given the API key and the request. */
  type Generate = (string, Request) -> GenerateOutcome

  /** `JSON.parse` followed by the cast to a list of records; `None` when it throws. */
  type Parse = string -> Option<seq<DetectedFont>>

  const AnalysisFailedMessage: string := "AI analysis failed. The model could not process the request."

  /** The single error every failure inside the client is turned into. */
  const AnalysisFailed: Thrown := ErrorObject(AnalysisFailedMessage)

  /** The reply text trimmed; blank means no fonts, anything else is parsed. */
  function InterpretResponseText(text: string, parse: Parse): (r: Result<seq<DetectedFont>, Thrown>)
    ensures r.Failure? ==> r.error == AnalysisFailed
  {
    var jsonText := Trim(text);
    if jsonText == "" then Success([])
    else match parse(jsonText)
      case None => Failure(AnalysisFailed)
      case Some(fonts) => Success(fonts)
  }

  /** `analyzeImageForFonts`: one request, and the interpretation of its reply. */
  function AnalyzeImageForFonts(config: Config, base64: Option<string>, mimeType: string,
                                generate: Generate, parse: Parse): (r: Result<seq<DetectedFont>, Thrown>)
    ensures r.Failure? ==> r.error == AnalysisFailed
    ensures r.Success? ==>
      match generate(config.apiKey, BuildRequest(base64, mimeType))
      case Generated(Some(text)) =>
        if IsBlank(text) then r.value == [] else parse(Trim(text)) == Some(r.value)
      case _ => false
    ensures match generate(config.apiKey, BuildRequest(base64, mimeType))
      case Generated(Some(text)) => r == InterpretResponseText(text, parse)
      case _ => r == Failure(AnalysisFailed)
  {
    match generate(config.apiKey, BuildRequest(base64, mimeType))
    case GenerateRejected(_) => Failure(AnalysisFailed)
    case Generated(None) => Failure(AnalysisFailed)
    case Generated(Some(text)) => InterpretResponseText(text, parse)
  }

  // ---------------------------------------------------------------------------
  // Properties
  // ---------------------------------------------------------------------------

  /** A blank reply is an empty list and a success, and the parser is never consulted. */
  lemma BlankReplyIsNoFonts(text: string, parse: Parse, otherParse: Parse)
    requires AllWhiteSpace(text)
    ensures InterpretResponseText(text, parse) == Success([])
    ensures InterpretResponseText(text, parse) == InterpretResponseText(text, otherParse)
  {
    BlankIffAllWhiteSpace(text);
  }

  /** Whitespace around the reply never changes the result. */
  lemma SurroundingWhiteSpaceIgnored(w1: string, text: string, w2: string, parse: Parse)
    requires AllWhiteSpace(w1) && AllWhiteSpace(w2)
    ensures InterpretResponseText(w1 + text + w2, parse) == InterpretResponseText(text, parse)
  {
    TrimIgnoresSurroundingWhiteSpace(w1, text, w2);
  }

  /**
   * A reply that is not blank gives exactly the parsed list: no record is added,
   * dropped or changed, and no confidence is clamped to [0, 1].
   */
  lemma ParsedListReturnedUnchanged(text: string, parse: Parse, fonts: seq<DetectedFont>)
    requires !AllWhiteSpace(text) && parse(Trim(text)) == Some(fonts)
    ensures InterpretResponseText(text, parse) == Success(fonts)
  {
    BlankIffAllWhiteSpace(text);
  }

  /**
   * Whatever went wrong, and whatever was thrown, the caller sees the same
   * error: the SDK's own message is not passed on.
   */
  lemma FailureCauseNotPropagated(config: Config, base64: Option<string>, mimeType: string,
                                  generate: Generate, parse: Parse, cause: Thrown)
    requires generate(config.apiKey, BuildRequest(base64, mimeType)) == GenerateRejected(cause)
    ensures AnalyzeImageForFonts(config, base64, mimeType, generate, parse) == Failure(ErrorObject(AnalysisFailedMessage))
  {
  }

  /** A reply without text (`response.text` undefined) fails with the same error, as `trim` throws. */
  lemma MissingTextFails(config: Config, base64: Option<string>, mimeType: string,
                         generate: Generate, parse: Parse)
    requires generate(config.apiKey, BuildRequest(base64, mimeType)) == Generated(None)
    ensures AnalyzeImageForFonts(config, base64, mimeType, generate, parse) == Failure(AnalysisFailed)
  {
  }

  /** A reply the parser rejects fails with the same error. */
  lemma UnparsableReplyFails(text: string, parse: Parse)
    requires !AllWhiteSpace(text) && parse(Trim(text)) == None
    ensures InterpretResponseText(text, parse) == Failure(AnalysisFailed)
  {
    BlankIffAllWhiteSpace(text);
  }
}
