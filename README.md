# Thumbnail font detector, modelled in Dafny

The application is a single page. The user gives it a YouTube link or uploads an image. The page fetches the image and sends it to a Gemini model, together with a prompt and a JSON response schema. It then shows one card for each font the model reports. This project models the logic behind that page and proves what each part promises:

- **Link checks.** The page pulls the video ID out of a YouTube link with a regular expression and builds the thumbnail address from it. Uploaded files must have an `image/` media type.
- **Image reading.** The page fetches the image, checks the response status and takes the base64 payload out of the data URL.
- **Font-detection client.** This covers the `API_KEY` check made when the module loads, the response schema, the request, and how the reply is read. The reply is trimmed; a blank reply means no fonts; anything else is parsed. Every failure becomes one fixed error.
- **Page state.** The page keeps four fields: `isLoading`, `error`, `detectedFonts` and `imageUrl`. The model shows how starting an analysis, finishing one and the two validation errors change them.
- **Result card.** The card picks the sample's font class from the style description. It draws a confidence meter from a rounded percentage in one of three colour bands. It shows the sample text, with a placeholder when there is none, and links to a Google Fonts search for the suggested family.

Files:

- `wrappers.dfy` and `js.dfy`: the JavaScript built-ins the code relies on. These are `trim` with the ECMAScript whitespace set, `toLowerCase`, `includes`, `startsWith`, `split(',')[1]`, and how a template literal renders an integer.
- `uri.dfy`: `encodeURIComponent`, with a decoder as its partner for the round trip.
- `font_types.dfy`: the `DetectedFont` record.
- `gemini_service.dfy`: the client.
- `input_validation.dfy`: the link matcher, the regular expression as a reference definition, the thumbnail address and the upload guard.
- `app.dfy`: the page state, a class whose methods update its fields.
- `font_result_card.dfy`: the card.

The regex `(?:https?://)?(?:www\.)?(?:youtube\.com/(?:watch\?v=|embed/)|youtu\.be/)([\w-]{11})` is modelled as a hand-written matcher. It finds the first index where one of the three markers is followed by eleven ID characters. `RegexMatch` is a separate, literal reading of the pattern. `InputValidation.ExtractVideoIdIsLeftmostRegexMatch` proves that the two agree: the matcher finds an ID exactly when the pattern matches somewhere, and it returns what the leftmost match captures. The proof rests on two facts. Every marker starts with `y`, and no character of the optional `https://`, `http://` or `www.` is a `y`.

Four behaviours of the code are worth stating:

- `split(',')[1]` takes the text between the first and the second comma, not everything after the first one.
- A data URL without a comma reaches the model with no data.
- There is no error specific to credentials: every failure of the client carries the same message.
- The parsed reply is cast, not validated against the schema.

## Model

| member | source | states |
|---|---|---|
| Js.Trim | services/geminiService.ts:74 | The result has no whitespace at either end and sits in the input with only whitespace around it |
| Js.TrimIgnoresSurroundingWhiteSpace | services/geminiService.ts:74 | Whitespace added on either side of a string never changes what `trim` returns |
| Js.TrimIdempotent | services/geminiService.ts:74 | Trimming twice is trimming once |
| Js.BlankIffAllWhiteSpace | services/geminiService.ts:76 | The trimmed text is empty exactly when the text is all whitespace |
| Js.IndexOf | App.tsx:30 | The first occurrence of the character, or none exactly when it does not occur |
| Js.SplitSecondFieldOf | App.tsx:30 | `split(',')[1]` of `a,b` or of `a,b,c` is `b` when `a` and `b` contain no comma |
| Js.SplitSecondFieldWithoutSeparator | App.tsx:30 | Without a comma, `split(',')[1]` is undefined |
| Js.IntToDecimalRoundTrip | App.tsx:23 | The decimal rendering of an integer reads back as that integer |
| Js.IntToDecimalInjective | App.tsx:23 | Different integers render differently |
| UriComponent.DecodeEncodeRoundTrip | components/FontResultCard.tsx:36 | Decoding the percent-encoding of any string gives the string back |
| UriComponent.EncodedCharactersAreSafe | components/FontResultCard.tsx:36 | The encoding contains only unreserved characters and `%` |
| UriComponent.UnescapedStringUnchanged | components/FontResultCard.tsx:36 | A string made only of unreserved characters is left as it is |
| FontTypes.FieldNamesAreTheFields | types.ts:6-13 | Exactly the six listed names select a field of the record, and none is listed twice |
| FontTypes.FieldsDetermineRecord | types.ts:6-13 | Two records that agree on the six fields are equal |
| GeminiService.LoadConfig | services/geminiService.ts:4-8 | Loading succeeds exactly when `API_KEY` is set and not empty, keeps its value as the key, and otherwise throws the fixed message; the `Config` it returns, the only kind the client and the page accept, has a non-empty key |
| GeminiService.RequiredFieldsAreTheRecordFields | services/geminiService.ts:40 | The schema's required list names exactly the six fields of `DetectedFont`, each once |
| GeminiService.SchemaShape | services/geminiService.ts:10-42 | ARRAY of OBJECT; every property is required; `confidence` is NUMBER and the other five are STRING, each matching the record field's type |
| GeminiService.BuildRequest | services/geminiService.ts:45-72 | Two parts: the image with the given media type and data unchanged, then the prompt; the model is `gemini-2.5-flash` and the reply must be JSON following the schema |
| GeminiService.InterpretResponseText | services/geminiService.ts:74-85 | Any failure of reading the reply is the fixed analysis error |
| GeminiService.AnalyzeImageForFonts | services/geminiService.ts:64-86 | A reply with text gives exactly what reading that text gives (blank is `[]`, parsed is the list, unparsable is the fixed error); a rejection or a reply without text gives the fixed error |
| GeminiService.BlankReplyIsNoFonts | services/geminiService.ts:74-78 | A whitespace-only reply is an empty list, whatever the parser would do |
| GeminiService.SurroundingWhiteSpaceIgnored | services/geminiService.ts:74-80 | Whitespace around the reply never changes the result |
| GeminiService.ParsedListReturnedUnchanged | services/geminiService.ts:80-81 | A non-blank reply gives exactly the parsed list, with no record or confidence altered |
| GeminiService.FailureCauseNotPropagated | services/geminiService.ts:83-85 | Whatever the SDK call throws, the caller sees only the fixed message |
| GeminiService.MissingTextFails | services/geminiService.ts:74-85 | A reply without text fails with the fixed error |
| GeminiService.UnparsableReplyFails | services/geminiService.ts:80-85 | A non-blank reply the parser rejects fails with the fixed error |
| InputValidation.FindVideoIdFirst | App.tsx:58-59 | The search finds nothing exactly when no index from the start on has an ID; otherwise it returns the ID at the first index from there that has one |
| InputValidation.ExtractVideoId | App.tsx:58-61 | A result is eleven characters from `[A-Za-z0-9_-]` |
| InputValidation.ExtractVideoIdIsLeftmostRegexMatch | App.tsx:58-59 | No ID exactly when the pattern matches nowhere; otherwise a leftmost match exists and the ID is what it captures |
| InputValidation.MarkersExclusive | App.tsx:58 | At most one of the three markers occurs at an index |
| InputValidation.LeadingTextIgnored | App.tsx:58-59 | Text before the link in which no match starts never changes the ID (no start anchor) |
| InputValidation.LeadingTextWithoutYIgnored | App.tsx:58-59 | In particular, leading text without a lower-case `y` never changes the ID |
| InputValidation.TrailingTextIgnored | App.tsx:58-59 | Text after a link that has an ID, such as `&t=42s`, never changes it (no end anchor) |
| InputValidation.NoIdWithoutLowerCaseY | App.tsx:58 | A link with no lower-case `y` has no ID, so the match is case-sensitive |
| InputValidation.AcceptedForm | App.tsx:58-61 | Watch, embed and short markers, with or without scheme and `www.`, followed by an ID and anything else, give that ID; a longer run of ID characters gives its first eleven |
| InputValidation.EveryFormGivesTheId | App.tsx:58-62 | All eighteen forms of one video give its ID, hence one thumbnail address |
| InputValidation.ThumbnailUrlInjective | App.tsx:62 | The thumbnail address determines the video ID |
| InputValidation.ShortLinkExample | App.tsx:58-62 | `https://youtu.be/dQw4w9WgXcQ` gives `dQw4w9WgXcQ` and its `maxresdefault.jpg` address |
| InputValidation.UpperCaseHostRejected | App.tsx:58 | `https://YOUTU.BE/...` has no ID |
| InputValidation.ImageTypeExamples | App.tsx:70 | Any `image/...` type passes; empty, `image`, `IMAGE/PNG`, `application/pdf` and `text/image/png` do not |
| App.ReadImage | App.tsx:20-35 | A rejected fetch fails with its cause; a status outside 200-299 fails with `Failed to fetch image. Status: <status>`; a body that fails to read fails with the reader's cause; success exactly for an ok response whose body reads, keeping the blob's type |
| App.ErrorMessage | App.tsx:50 | An `Error` shows its message; any other thrown value shows the unknown-error text |
| App.AnalysisOutcome | App.tsx:44-46 | A failure to read the image is the outcome unchanged; after a read, the outcome is what the client gives for the image's data and type, so it succeeds or is the client's fixed error |
| App.FetchFailureSkipsInference | App.tsx:45-46 | When the image cannot be read, the outcome does not depend on the model or the parser |
| App.StatusInFetchError | App.tsx:22-23 | The message of a non-ok response starts with the fixed prefix and the status reads back from the rest |
| App.DataUrlPayload | App.tsx:29-31 | The data sent is the payload after the data URL's comma, and the type is the blob's |
| App.DataUrlWithoutComma | App.tsx:30 | A data URL without a comma is sent with no data |
| App.FetchedImageReachesModel | App.tsx:20-47 | An ok response whose data URL is `header,payload`, answered with a blank reply or one that parses to a list, has that list (empty for a blank reply) as the outcome; the model is sent the payload and the blob's type |
| App.InferenceFailureMessage | App.tsx:46-50 | Once the image has been read, the only error the page can show is the client's fixed message |
| App.FontDetectorApp.constructor | App.tsx:14-18 | Not loading, no error, no fonts, no image |
| App.FontDetectorApp.SettledOnFetchedImage | App.tsx:38-54 | After a run on such an image, the page is not loading, shows no error, shows exactly the model's fonts and keeps the image |
| App.FontDetectorApp.StartAnalysis | App.tsx:39-42 | Loading, error cleared, fonts emptied, image set to the given address |
| App.FontDetectorApp.AnalyseImage | App.tsx:38-55 | Afterwards not loading; on success the fonts beside the kept image and no error; on failure the message, no image and no fonts |
| App.FontDetectorApp.HandleUrlSubmit | App.tsx:57-67 | A link with an ID analyses its thumbnail; any other link sets only the invalid-link error, leaving loading, fonts and image as they were; the link is not blank, as UrlInputForm.tsx:15-16 guarantees |
| App.FontDetectorApp.HandleImageUpload | App.tsx:69-80 | A non-image type sets only the invalid-file error; an image whose read never completes changes nothing; otherwise its data URL is analysed |
| FontResultCard.FontFamilyClass | components/FontResultCard.tsx:8-13 | One of the three classes |
| FontResultCard.FontFamilyClassCases | components/FontResultCard.tsx:9-12 | Serif exactly when the lower-cased text contains "serif"; mono exactly when it contains "mono" but not "serif"; sans exactly when it contains neither |
| FontResultCard.SerifBeforeMono | components/FontResultCard.tsx:10-11 | Text containing both gets the serif class |
| FontResultCard.SansSerifGetsSerifClass | components/FontResultCard.tsx:9-10 | "Bold Sans-Serif" gets `font-serif` |
| FontResultCard.FontFamilyClassIgnoresLetterCase | components/FontResultCard.tsx:9 | Texts that lower-case alike get the same class |
| FontResultCard.FontFamilyClassOfLowerCase | components/FontResultCard.tsx:9 | Lower-casing the text first changes nothing |
| FontResultCard.Percentage | components/FontResultCard.tsx:16 | The integer nearest to value × 100, halves rounded up |
| FontResultCard.PercentageOfHundredths | components/FontResultCard.tsx:16 | An exact k/100 gives k |
| FontResultCard.PercentageMonotonic | components/FontResultCard.tsx:16 | A higher confidence never gives a lower percentage |
| FontResultCard.BarColor | components/FontResultCard.tsx:17-21 | One of the three colours |
| FontResultCard.ColourBands | components/FontResultCard.tsx:18-20 | Green exactly from 85, yellow exactly from 60 to below 85, red exactly below 60 |
| FontResultCard.ColourBandsMonotonic | components/FontResultCard.tsx:17-21 | A higher percentage never gets a lower band |
| FontResultCard.ConfidenceMeter | components/FontResultCard.tsx:15-31 | The colour is the band of the rounded percentage |
| FontResultCard.MeterShowsOnePercentage | components/FontResultCard.tsx:26-28 | The tooltip is `Confidence: ` plus the width, and the width is the percentage followed by `%` |
| FontResultCard.SampleText | components/FontResultCard.tsx:46 | Never empty; a non-empty detected text is shown as it is |
| FontResultCard.GoogleFontsUrl | components/FontResultCard.tsx:36 | Starts with the Google Fonts query prefix |
| FontResultCard.GoogleFontsQueryDecodes | components/FontResultCard.tsx:36 | The query decodes back to the suggestion and contains only unreserved characters and `%` |
| FontResultCard.GoogleFontsUrlInjective | components/FontResultCard.tsx:36 | Different suggestions give different links |
| FontResultCard.RenderCard | components/FontResultCard.tsx:35-70 | The card shows the font name, the description, the sample text with the detected text as tooltip, the classifier's class for the description, the meter for the confidence, the Google Fonts link and text for the suggestion, and the reasoning |
| FontResultCard.SampleClassFollowsDescription | components/FontResultCard.tsx:37 | The sample's class is serif exactly when the lower-cased description contains "serif", mono exactly when it contains "mono" but not "serif", sans otherwise |
| FontResultCard.MeterFollowsConfidence | components/FontResultCard.tsx:52 | The meter's width reads back as the confidence's rounded percentage and its colour is that percentage's band |
| FontResultCard.SamplePlaceholder | components/FontResultCard.tsx:45-46 | An empty detected text shows `Aa Bb Cc` with an empty tooltip; otherwise the text is shown |
| FontResultCard.CardLinkSearchesSuggestion | components/FontResultCard.tsx:36 | The link is the query prefix followed by a query that decodes to the suggested family |

## Left out

- **Browser I/O reaches the model only as parameters:**
  - `fetch`, `response.blob()` and the `FileReader` that reads data URLs are the `Fetch` parameter and the `fileData` argument.
  - `console.error` is not modelled.
  - A `FileReader` error during upload has no handler in the code, so it is modelled as a read that never completes.
- **The Gemini SDK call and `JSON.parse` are uninterpreted parameters:**
  - The parser returns a list of records or fails.
  - A JSON value of another shape, which the code would cast without checking, cannot be represented.
- **Base64 encoding** is done by the browser and is not modelled.
- **Concurrency:** the await points and the order of overlapping analyses are not modelled. `AnalyseImage` runs as one step, so the loading state between its start and its end shows only in `StartAnalysis`. Stale results from a superseded run are not modelled either.
- **Numbers:** `confidence` and `value * 100` are exact reals, not IEEE doubles.
- **Large numbers:** a number large enough for JavaScript to print in exponent form renders differently from `IntToDecimal`.
- **Letter case:** `Js.ToLowerCase` lower-cases only ASCII letters. Other scripts' case mappings are not modelled.
- **`encodeURIComponent`** of a string holding a lone surrogate throws `URIError`. Dafny strings contain only Unicode scalar values, so that case cannot arise.
- **Markup and styling:** all JSX markup and styling is left out, along with the conditions that choose which blocks of App.tsx:82-155 are shown.
- **Other components:** the tab switch (`InputType`, components/InputTabs.tsx), components/Icons.tsx, components/Loader.tsx and components/ImageUploadForm.tsx are markup and are left out. So is the markup of components/UrlInputForm.tsx; only its non-blank guard is kept, as the precondition of `HandleUrlSubmit`.
- **Build configuration:** vite.config.ts is not part of this model.
