/**
 * The page's own state and its handlers: fetching the image to analyse, the
 * analysis run with its loading, error, result and image fields, and the two
 * ways of starting one, a YouTube link or an uploaded file. The browser's
 * `fetch`, the SDK call and `JSON.parse` are parameters.
 */
module App {
  import opened Wrappers
  import opened Js
  import opened FontTypes
  import opened GeminiService
  import opened InputValidation

  // ---------------------------------------------------------------------------
  // Fetching the image
  // ---------------------------------------------------------------------------

  /** Reading the response body as a blob and then as a data URL. */
  datatype BodyRead = BodyLoaded(dataUrl: string, blobType: string) | BodyFailed(cause: Thrown)

  /** What `fetch(url)` gives: a rejection, or a response with its status and its body. */
  datatype FetchOutcome = FetchRejected(cause: Thrown) | Responded(status: nat, body: BodyRead)
  {
    /** `response.ok`: the status is in the range 200-299. */
    predicate Ok()
      requires Responded?
    {
      200 <= status <= 299
    }
  }

  type Fetch = string -> FetchOutcome

  /** The image as it is handed to the client; `base64` is `None` when the data URL has no comma. */
  datatype ImageData = ImageData(base64: Option<string>, mimeType: string)

  const FetchFailedPrefix: string := "Failed to fetch image. Status: "

  /** `getBase64FromUrl`: the status check, then the data URL cut at its commas. */
  function ReadImage(response: FetchOutcome): (r: Result<ImageData, Thrown>)
    ensures r.Success? <==> response.Responded? && response.Ok() && response.body.BodyLoaded?
    ensures r.Success? ==> r.value.mimeType == response.body.blobType
    ensures response.FetchRejected? ==> r == Failure(response.cause)
    ensures response.Responded? && !response.Ok() ==>
      r == Failure(ErrorObject(FetchFailedPrefix + IntToDecimal(response.status)))
    ensures response.Responded? && response.Ok() && response.body.BodyFailed? ==>
      r == Failure(response.body.cause)
  {
    match response
    case FetchRejected(cause) => Failure(cause)
    case Responded(status, body) =>
      if !response.Ok() then Failure(ErrorObject(FetchFailedPrefix + IntToDecimal(status)))
      else match body
        case BodyFailed(cause) => Failure(cause)
        case BodyLoaded(dataUrl, blobType) => Success(ImageData(SplitSecondField(dataUrl, ','), blobType))
  }

  const UnknownErrorMessage: string := "An unknown error occurred during analysis."

  /** What the page shows for a thrown value. */
  function ErrorMessage(thrown: Thrown): (m: string)
    ensures thrown.ErrorObject? ==> m == thrown.message
    ensures thrown.NonError? ==> m == UnknownErrorMessage
  {
    match thrown
    case ErrorObject(message) => message
    case NonError => UnknownErrorMessage
  }

  /** The result of the `try` block of `analyseImage` for `imgUrl`. */
  function AnalysisOutcome(config: Config, imgUrl: string, fetch: Fetch, generate: Generate, parse: Parse)
    : (r: Result<seq<DetectedFont>, Thrown>)
    ensures ReadImage(fetch(imgUrl)).Failure? ==> r == Failure(ReadImage(fetch(imgUrl)).error)
    ensures ReadImage(fetch(imgUrl)).Success? ==> r.Success? || r.error == AnalysisFailed
    ensures ReadImage(fetch(imgUrl)).Success? ==>
      var image := ReadImage(fetch(imgUrl)).value;
      r == AnalyzeImageForFonts(config, image.base64, image.mimeType, generate, parse)
  {
    match ReadImage(fetch(imgUrl))
    case Failure(e) => Failure(e)
    case Success(image) => AnalyzeImageForFonts(config, image.base64, image.mimeType, generate, parse)
  }

  // ---------------------------------------------------------------------------
  // Properties of an analysis run
  // ---------------------------------------------------------------------------

  /** When the image cannot be fetched, the model is never asked: any two clients agree. */
  lemma FetchFailureSkipsInference(config: Config, imgUrl: string, fetch: Fetch,
                                   generate: Generate, parse: Parse, generate2: Generate, parse2: Parse)
    requires ReadImage(fetch(imgUrl)).Failure?
    ensures AnalysisOutcome(config, imgUrl, fetch, generate, parse) == AnalysisOutcome(config, imgUrl, fetch, generate2, parse2)
  {
  }

  /** A response that is not ok fails with a message from which its status can be read back. */
  lemma StatusInFetchError(status: nat, body: BodyRead)
    requires !(200 <= status <= 299)
    ensures ReadImage(Responded(status, body)).Failure?
    ensures var message := ErrorMessage(ReadImage(Responded(status, body)).error);
      |message| > |FetchFailedPrefix| && message[..|FetchFailedPrefix|] == FetchFailedPrefix
      && ParseInt(message[|FetchFailedPrefix|..]) == Some(status)
  {
    var digits := IntToDecimal(status);
    NatToDecimalDigits(status);
    IntToDecimalRoundTrip(status);
    var message := FetchFailedPrefix + digits;
    assert message[..|FetchFailedPrefix|] == FetchFailedPrefix;
    assert message[|FetchFailedPrefix|..] == digits;
  }

  /**
   * The data sent to the model is the data URL's payload: what follows the
   * header `data:<type>;base64` and its comma, up to any further comma.
   */
  lemma DataUrlPayload(status: nat, header: string, payload: string, blobType: string)
    requires 200 <= status <= 299 && ',' !in header && ',' !in payload
    ensures ReadImage(Responded(status, BodyLoaded(header + "," + payload, blobType)))
      == Success(ImageData(Some(payload), blobType))
  {
    SplitSecondFieldOf(header, ',', payload, "");
    assert header + "," + payload == header + [','] + payload;
  }

  /** A data URL without any comma still reaches the model, with no data (`undefined`). */
  lemma DataUrlWithoutComma(status: nat, dataUrl: string, blobType: string)
    requires 200 <= status <= 299 && ',' !in dataUrl
    ensures ReadImage(Responded(status, BodyLoaded(dataUrl, blobType))) == Success(ImageData(None, blobType))
  {
    SplitSecondFieldWithoutSeparator(dataUrl, ',');
  }

  /**
   * Once the image has been read, the only error message the page can show is
   * the client's fixed one.
   */
  lemma InferenceFailureMessage(config: Config, imgUrl: string, fetch: Fetch, generate: Generate, parse: Parse)
    requires ReadImage(fetch(imgUrl)).Success?
    requires AnalysisOutcome(config, imgUrl, fetch, generate, parse).Failure?
    ensures ErrorMessage(AnalysisOutcome(config, imgUrl, fetch, generate, parse).error) == AnalysisFailedMessage
  {
  }

  /**
   * The success path: an ok response whose data URL is `header,payload` sends
   * the payload with the blob's type to the model, and a reply that is blank or
   * parses to `fonts` makes `fonts` the outcome.
   */
  lemma FetchedImageReachesModel(config: Config, imgUrl: string, fetch: Fetch, generate: Generate, parse: Parse,
                                 status: nat, header: string, payload: string, blobType: string,
                                 text: string, fonts: seq<DetectedFont>)
    requires fetch(imgUrl) == Responded(status, BodyLoaded(header + "," + payload, blobType))
    requires 200 <= status <= 299 && ',' !in header && ',' !in payload
    requires generate(config.apiKey, BuildRequest(Some(payload), blobType)) == Generated(Some(text))
    requires (AllWhiteSpace(text) && fonts == []) || (!AllWhiteSpace(text) && parse(Trim(text)) == Some(fonts))
    ensures AnalysisOutcome(config, imgUrl, fetch, generate, parse) == Success(fonts)
  {
    DataUrlPayload(status, header, payload, blobType);
    if AllWhiteSpace(text) {
      BlankReplyIsNoFonts(text, parse, parse);
    } else {
      ParsedListReturnedUnchanged(text, parse, fonts);
    }
  }

  // ---------------------------------------------------------------------------
  // The page state
  // ---------------------------------------------------------------------------

  class FontDetectorApp {
    /** The client configuration, fixed once the service module has loaded. */
    const config: Config
    var isLoading: bool
    var error: Option<string>
    var detectedFonts: seq<DetectedFont>
    var imageUrl: Option<string>

    /** Results are only ever kept together with the image they came from. */
    ghost predicate Valid()
      reads this
    {
      imageUrl.None? ==> detectedFonts == []
    }

    /** The page only exists once the client module has loaded, so its key is not empty. */
    constructor(config: Config)
      ensures this.config == config
      ensures !isLoading && error == None && detectedFonts == [] && imageUrl == None
      ensures Valid()
    {
      this.config := config;
      isLoading := false;
      error := None;
      detectedFonts := [];
      imageUrl := None;
    }

    /** The state while `imgUrl` is being analysed. */
    ghost predicate Running(imgUrl: string)
      reads this
    {
      isLoading && error == None && detectedFonts == [] && imageUrl == Some(imgUrl)
    }

    /**
     * The state once the analysis of `imgUrl` has ended with `outcome`: not
     * loading; on success the fonts beside the image and no error, on failure
     * the error's message, no image and no fonts.
     */
    ghost predicate Settled(imgUrl: string, outcome: Result<seq<DetectedFont>, Thrown>)
      reads this
    {
      !isLoading
      && match outcome
         case Success(fonts) => error == None && detectedFonts == fonts && imageUrl == Some(imgUrl)
         case Failure(e) => error == Some(ErrorMessage(e)) && detectedFonts == [] && imageUrl == None
    }

    /**
     * Once a run on such an image has settled, the page shows exactly the
     * model's fonts beside the image, with no error and no spinner.
     */
    lemma SettledOnFetchedImage(imgUrl: string, fetch: Fetch, generate: Generate, parse: Parse,
                                status: nat, header: string, payload: string, blobType: string,
                                text: string, fonts: seq<DetectedFont>)
      requires Settled(imgUrl, AnalysisOutcome(config, imgUrl, fetch, generate, parse))
      requires fetch(imgUrl) == Responded(status, BodyLoaded(header + "," + payload, blobType))
      requires 200 <= status <= 299 && ',' !in header && ',' !in payload
      requires generate(config.apiKey, BuildRequest(Some(payload), blobType)) == Generated(Some(text))
      requires (AllWhiteSpace(text) && fonts == []) || (!AllWhiteSpace(text) && parse(Trim(text)) == Some(fonts))
      ensures !isLoading && error == None && detectedFonts == fonts && imageUrl == Some(imgUrl)
    {
      FetchedImageReachesModel(config, imgUrl, fetch, generate, parse, status, header, payload, blobType, text, fonts);
    }

    /** The four resets made before anything is fetched. */
    method StartAnalysis(imgUrl: string)
      modifies this
      ensures Running(imgUrl) && Valid()
    {
      isLoading := true;
      error := None;
      detectedFonts := [];
      imageUrl := Some(imgUrl);
    }

    /** `analyseImage`: start, fetch and analyse, record the fonts or the error, stop loading. */
    method AnalyseImage(imgUrl: string, fetch: Fetch, generate: Generate, parse: Parse)
      modifies this
      ensures Settled(imgUrl, AnalysisOutcome(config, imgUrl, fetch, generate, parse))
      ensures Valid()
    {
      StartAnalysis(imgUrl);
      var outcome := AnalysisOutcome(config, imgUrl, fetch, generate, parse);
      match outcome {
        case Success(fonts) =>
          detectedFonts := fonts;
        case Failure(e) =>
          error := Some(ErrorMessage(e));
          imageUrl := None;
      }
      isLoading := false;
    }

    /**
     * `handleUrlSubmit`, for a link the form lets through: a link with a video
     * ID analyses its thumbnail; any other link only sets the error, leaving
     * the fonts and image of an earlier run on the page.
     */
    method HandleUrlSubmit(url: string, fetch: Fetch, generate: Generate, parse: Parse)
      requires !IsBlank(url) && Valid()
      modifies this
      ensures Valid()
      ensures ExtractVideoId(url).Some? ==>
        var thumbnail := ThumbnailUrl(ExtractVideoId(url).value);
        Settled(thumbnail, AnalysisOutcome(config, thumbnail, fetch, generate, parse))
      ensures ExtractVideoId(url).None? ==>
        && error == Some(InvalidUrlMessage)
        && isLoading == old(isLoading) && detectedFonts == old(detectedFonts) && imageUrl == old(imageUrl)
    {
      var videoId := ExtractVideoId(url);
      if videoId.Some? {
        AnalyseImage(ThumbnailUrl(videoId.value), fetch, generate, parse);
      } else {
        error := Some(InvalidUrlMessage);
      }
    }

    /**
     * `handleImageUpload` for a file with media type `fileType` whose data URL
     * reads as `fileData` (`None` when the read never completes): another type
     * only sets the error; an image is analysed from its data URL.
     */
    method HandleImageUpload(fileType: string, fileData: Option<string>, fetch: Fetch, generate: Generate, parse: Parse)
      requires Valid()
      modifies this
      ensures Valid()
      ensures !IsImageType(fileType) ==>
        && error == Some(InvalidFileTypeMessage)
        && isLoading == old(isLoading) && detectedFonts == old(detectedFonts) && imageUrl == old(imageUrl)
      ensures IsImageType(fileType) && fileData.None? ==>
        isLoading == old(isLoading) && error == old(error)
        && detectedFonts == old(detectedFonts) && imageUrl == old(imageUrl)
      ensures IsImageType(fileType) && fileData.Some? ==>
        Settled(fileData.value, AnalysisOutcome(config, fileData.value, fetch, generate, parse))
    {
      if !IsImageType(fileType) {
        error := Some(InvalidFileTypeMessage);
        return;
      }
      if fileData.Some? {
        AnalyseImage(fileData.value, fetch, generate, parse);
      }
    }
  }
}
