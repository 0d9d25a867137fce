# Pet breed identifier: the server-side core

breed-identifier is a Next.js application. A visitor uploads a photo of a pet. The
`POST /api/identify` route checks the upload and sends it, as a base64 data
URL, to a vision model behind OpenRouter. It then turns the model's text reply
into a record with `animal`, `breed`, `confidence` and `description`. This
project models that server-side path in Dafny and proves what each step
promises:

- `IdentifyRoute` models the route in `src/app/api/identify/route.ts`. It
  checks the request in a fixed order (a file is present, its type is an image
  type, it is at most 10 MB), calls the identifier, and answers 200, 400 or
  500.
- `PetIdentifier` models `identifyPet`, `callOpenRouterAPI` and
  `bufferToBase64` in `src/lib/petIdentifier.ts`:
  - the data URL, together with a parser that reads it back;
  - the missing-key check;
  - the errors the upstream call can raise;
  - the way `identifyPet` classifies any error into one of three messages.
- `ReplyParser` models `parseAIResponse`. The JSON path takes the reply's four
  fields, or a default for each missing or falsy one. The text path searches
  the reply for four labelled fields with case-insensitive regular
  expressions.
- `LabelMatch` models the regular-expression engine for the shape
  `/label[:\s]+(capture)/i`. It has two halves:
  - a declarative description of what a match is and which match
    `String.prototype.match` reports (the leftmost one, with the greedy
    separator loop and the greedy capture);
  - an executable matcher, proved to find exactly that match and to find
    nothing only when no match exists.
- `Base64` models the padded base64 encoding of section 4 of RFC 4648, which
  `Buffer.toString("base64")` produces, with a decoder proved to be its
  inverse.
- `Text` and `Json` hold the string operations the source relies on
  (`trim`, `includes`, `startsWith`, `toLowerCase`, the `\s` class,
  number-to-string, `parseFloat` on a decimal numeral) and JSON values with
  JavaScript truthiness.

The network, the environment variable and `JSON.parse` are parameters:
- `send` stands for the HTTP request to OpenRouter.
- `apiKey` stands for `process.env.OPENROUTER_API_KEY`.
- `decode` stands for `JSON.parse` (None when it throws).

The result types `AIPetIdentification` (src/lib/petIdentifier.ts:18) and
`PetResult` (src/app/page.tsx:8) declare `animal` as "cat" | "dog" | "unknown". The code
does not enforce this on the JSON path: whatever truthy value the reply holds
is passed through, and the prompt itself allows "human". The model follows
the code. `JsonAnimalNotChecked` states this, and `FallbackAnimalClosed`
proves that the closed set holds on the text path only.

## Model

| member | source | states |
|---|---|---|
| IdentifyRoute.Post | src/app/api/identify/route.ts:4-47 | The status is 200, 400 or 500. 200 exactly when the form was read, the `image` field is a file whose type starts with "image/" and whose size is at most 10485760 bytes, and the identifier succeeds; the body is then the identification. 400 exactly when the form was read and the field is absent or the file fails a check; its error is one of the three fixed messages. Every 500 is the single generic error. |
| IdentifyRoute.NoImageFirst | src/app/api/identify/route.ts:9-14 | A missing or empty `image` field is answered 400 "No image file provided" before anything else is looked at. |
| IdentifyRoute.TypeBeforeSize | src/app/api/identify/route.ts:16-22 | A file whose type does not start with "image/" gets the type error, whatever its size. |
| IdentifyRoute.OversizedPdf | src/app/api/identify/route.ts:16-30 | An oversized "application/pdf" upload is refused for its type, not its size. |
| IdentifyRoute.SizeLimit | src/app/api/identify/route.ts:24-30 | An image of more than 10 * 1024 * 1024 bytes gets the size error. |
| IdentifyRoute.SizeLimitInclusive | src/app/api/identify/route.ts:24-30 | An image of exactly 10485760 bytes is not refused: the bound is inclusive. |
| IdentifyRoute.FailuresLookAlike | src/app/api/identify/route.ts:40-46 | The identifier's own message never reaches the client: two identifiers that always fail give the same response, and it is never 200. |
| IdentifyRoute.MissingKeyServed | src/app/api/identify/route.ts:37-46 | With no API key, no upload is answered 200, and a 500 carries the route's generic message, not the configuration one. |
| IdentifyRoute.PlainTextReplyServed | src/app/api/identify/route.ts:37-39 | An accepted image whose reply (the first choice of any 2xx response, whatever the body text) is not JSON is answered 200 with the text-path record, whose `animal` is "cat", "dog" or "unknown". |
| PetIdentifier.DataUrl | src/lib/petIdentifier.ts:25-27 | The data URL starts with "data:" and is 13 characters longer than the media type plus 4 characters for every started group of 3 bytes. |
| PetIdentifier.DataUrlRoundTrip | src/lib/petIdentifier.ts:25-27 | Parsing the data URL gives back the media type (whatever characters it holds) and the bytes. |
| PetIdentifier.EncodingHasNoComma | src/lib/petIdentifier.ts:26 | A base64 payload holds no ',', so the last ',' of the URL is the one before the payload. |
| PetIdentifier.ParseDataUrlParts | src/lib/petIdentifier.ts:26 | For a payload without ',', the parser splits "data:" + type + ";base64," + payload back into the type and the decoded payload. |
| PetIdentifier.ApiErrorMessage | src/lib/petIdentifier.ts:122-125 | The error for a non-2xx response starts with "OpenRouter API error" and ends with the response body. |
| PetIdentifier.CallOpenRouter | src/lib/petIdentifier.ts:61-134 | A missing or empty key fails with the configuration error, and nothing is sent. The call succeeds exactly when the key is present and the response is 2xx with at least one choice; the result is then the first choice's content. |
| PetIdentifier.Classify | src/lib/petIdentifier.ts:156-173 | The configuration message exactly when the error message contains "API key". The connection message exactly when it does not but contains "OpenRouter API error". The generic message exactly when it contains neither. |
| PetIdentifier.IdentifyPet | src/lib/petIdentifier.ts:136-174 | Every failure is one of the three classified messages. A missing key always gives the configuration message. Success holds exactly when the key is present and the response is 2xx with a choice, and the result is then the parsed first choice. A thrown upstream error (a rejected request, or a 2xx body that is not JSON) fails with the classification of its own message. |
| PetIdentifier.MissingKeyMentionsKey | src/lib/petIdentifier.ts:62-66 | The missing-key error contains "API key", which is what makes `identifyPet` report it as a configuration problem. |
| PetIdentifier.NoResponseIsGeneric | src/lib/petIdentifier.ts:129-131 | "No response from OpenRouter API" is classified as the generic failure: it contains neither "API key" nor "OpenRouter API error". |
| PetIdentifier.ApiErrorClassification | src/lib/petIdentifier.ts:122-125 | A non-2xx response is a connection failure unless its body contains "API key", in which case it is a configuration failure. The status digits and the header cannot form "API key". |
| PetIdentifier.KeyNotInHeader | src/lib/petIdentifier.ts:124 | Prefixing a body with a header that has no 'k' and no 'A' among its last four characters neither creates nor hides an occurrence of "API key". |
| PetIdentifier.HttpErrorOutcome | src/lib/petIdentifier.ts:122-125 | `identifyPet` after a non-2xx response fails with the configuration message when the body mentions "API key", and with the connection message otherwise. |
| PetIdentifier.NoChoicesOutcome | src/lib/petIdentifier.ts:129-131 | `identifyPet` after a 2xx response with no choices fails with the generic message. |
| ReplyParser.FromJson | src/lib/petIdentifier.ts:33-39 | Every field of the result is truthy. A field whose member in the reply is present and truthy is that member, unchanged, whatever the other fields hold; otherwise it is that field's default. |
| ReplyParser.JsonFieldsKept | src/lib/petIdentifier.ts:34-39 | A reply object whose four fields are all truthy is returned unchanged, whatever the fields' types. |
| ReplyParser.JsonFalsyDefaults | src/lib/petIdentifier.ts:35-38 | Each missing or falsy field gets its default: "unknown", "Unknown", 0.5, "No description available". |
| ReplyParser.JsonZeroConfidence | src/lib/petIdentifier.ts:37 | A confidence of exactly 0 becomes 0.5. |
| ReplyParser.JsonAnimalNotChecked | src/lib/petIdentifier.ts:35 | The JSON path passes an `animal` of "human" through, although "human" is not one of the three animals. |
| ReplyParser.JsonNonObjectDefaults | src/lib/petIdentifier.ts:33-39 | A reply that parses to a number, string, boolean or array gets every default. |
| ReplyParser.DefaultConfidencesDiffer | src/lib/petIdentifier.ts:37-52 | A confidence missing from a JSON reply defaults to 0.5, but one missing from a text reply defaults to 0.7. |
| ReplyParser.FallbackAnimal | src/lib/petIdentifier.ts:42-50 | The text-path `animal` is always "cat", "dog" or "unknown". It is "unknown" when nothing matches, and otherwise the alternative the first match spells, in any case. |
| ReplyParser.FallbackAnimalOfMatch | src/lib/petIdentifier.ts:42-50 | When the first match's capture spells an animal, ignoring case, that animal is the result. |
| ReplyParser.FallbackAnimalClosed | src/lib/petIdentifier.ts:40-50 | When the reply is not JSON, or is the JSON `null`, `animal` is a string from the closed set. |
| ReplyParser.FallbackBreed | src/lib/petIdentifier.ts:43-51 | The text-path `breed` is never empty, holds no line break or comma, and has no surrounding white space. It is the trimmed capture of the first match, or "Unknown Breed" when there is no match or the capture trims to nothing. |
| ReplyParser.FallbackDescription | src/lib/petIdentifier.ts:45-55 | The text-path `description` is never empty, holds no line break, and has no surrounding white space. It is the trimmed capture of the first match (the separators may cross line breaks), or the default sentence when there is no match or the capture trims to nothing. |
| ReplyParser.FallbackConfidence | src/lib/petIdentifier.ts:44-52 | The text-path confidence is never negative. It is 0.7 when nothing matches, and otherwise the value of the first match's decimal numeral, including 0. |
| ReplyParser.TrimmedCaptureOr | src/lib/petIdentifier.ts:51-55 | `match?.[1]?.trim() \|\| fallback`: the trimmed capture of the first match, or the fallback when there is none or it is empty; the result keeps the capture's stop characters out. |
| ReplyParser.LowerOfCapture | src/lib/petIdentifier.ts:49 | Lower-casing the text an animal match captured gives the alternative it matched. |
| ReplyParser.QuotedLabelsGiveDefaults | src/lib/petIdentifier.ts:42-56 | Text in which every label is directly followed by something other than ':' or white space (quoted JSON keys, say) gets every text-path default. |
| ReplyParser.AnimalLine | src/lib/petIdentifier.ts:42-50 | A reply starting "Animal: DOG" gives the animal "dog". |
| ReplyParser.BreedLine | src/lib/petIdentifier.ts:43-51 | A reply starting "Breed:  Pug , small" gives the breed "Pug": the capture stops at the comma and is trimmed. |
| ReplyParser.ConfidenceLine | src/lib/petIdentifier.ts:44-52 | A reply starting "Confidence: 85" and a line break gives the confidence 85 (not 0.85). |
| ReplyParser.DescriptionText | src/lib/petIdentifier.ts:45-55 | In "Description:\n\nA pug." the separators span the blank line, and the description is "A pug.". |
| LabelMatch.FindCorrect | src/lib/petIdentifier.ts:42-45 | The matcher's answer is the match `String.prototype.match` reports: the leftmost, then with the longest separator run, then with the longest capture. It finds nothing only when the pattern matches nowhere. |
| LabelMatch.FindIsFirstMatch | src/lib/petIdentifier.ts:42-45 | Any match preferred over all others is the one the matcher returns. |
| LabelMatch.MatchAtCorrect | src/lib/petIdentifier.ts:42-45 | The attempt at one position succeeds exactly when a match starts there, and returns the preferred one among them. |
| LabelMatch.TrySeparatorsCorrect | src/lib/petIdentifier.ts:42-45 | The greedy `[:\s]+` loop gives back separators one at a time: it stops at the last position after which the capture succeeds, and no later position lets it succeed. |
| LabelMatch.LastHitCorrect | src/lib/petIdentifier.ts:42-45 | A greedy loop that gives back one step at a time stops at the last step after which the rest of the pattern succeeds, or fails when it succeeds after none. |
| LabelMatch.DecimalCaptureUpTo | src/lib/petIdentifier.ts:44 | A run of digits followed by neither a digit nor '.' is a decimal capture, and no decimal capture there is longer. |
| LabelMatch.NoneOfCaptureUpTo | src/lib/petIdentifier.ts:43-45 | A run of allowed characters ended by a stop character is a capture, and no capture there is longer. |
| LabelMatch.CaptureEndCorrect | src/lib/petIdentifier.ts:42-45 | The engine's capture at a position is a capture of the group there and is the longest; the engine fails only when no capture exists. |
| LabelMatch.WordsCaptureCorrect | src/lib/petIdentifier.ts:42 | `(cat\|dog\|unknown)` tried left to right, ignoring case, captures the only alternative that matches. |
| LabelMatch.DecimalCaptureCorrect | src/lib/petIdentifier.ts:44 | `\d+(?:\.\d+)?` takes all the digits and a fraction only when a digit follows the point: the longest decimal numeral. |
| LabelMatch.NoneOfCaptureCorrect | src/lib/petIdentifier.ts:43-45 | `[^\n,]+` and `[^\n]+` take the longest nonempty run of allowed characters. |
| LabelMatch.UnseparatedLabelsNoMatch | src/lib/petIdentifier.ts:42-45 | When every occurrence of the label is followed by neither ':' nor white space, the pattern matches nowhere. |
| LabelMatch.MissingLetterNoMatch | src/lib/petIdentifier.ts:42-45 | Text without some letter of the label, in either case, has no match. |
| ReplyParser.NoLetterANoAnimal | src/lib/petIdentifier.ts:42-50 | A reply without the letter 'a' in either case has no animal label, so its text-path `animal` is "unknown". |
| LabelMatch.FirstMatchAt | src/lib/petIdentifier.ts:42-45 | A match at the first possible position, with all separators taken and the longest capture, is the reported one. |
| Base64.EncodeTestVectors | src/lib/petIdentifier.ts:26 | The encoding agrees with the test vectors of section 10 of RFC 4648 ("", "f" … "foobar"). |
| Base64.EncodeLength | src/lib/petIdentifier.ts:26 | The encoding has 4 characters for every started group of 3 bytes. |
| Base64.EncodeAlphabet | src/lib/petIdentifier.ts:26 | The encoding holds only alphabet characters and '='. |
| Base64.DecodeEncode | src/lib/petIdentifier.ts:26 | Decoding the encoding gives back the bytes. |
| Base64.EncodeInjective | src/lib/petIdentifier.ts:26 | Different byte strings have different encodings. |
| Text.Trim | src/lib/petIdentifier.ts:51-54 | `trim()` returns a piece of the input padded only by white space on both sides, and has no white space at either end. |
| Text.Includes | src/lib/petIdentifier.ts:161-165 | `includes` holds exactly when the text occurs at some position. |
| Text.ShowNat | src/lib/petIdentifier.ts:124 | The status rendered in the error text is a nonempty run of digits without a leading zero, whose value is the status. |
| Text.DecimalValueOfDigits | src/lib/petIdentifier.ts:52 | `parseFloat` of a run of digits is its integer value. |
| Text.DecimalValueOfFraction | src/lib/petIdentifier.ts:52 | `parseFloat` of digits, '.', digits is the whole part's value plus the fraction digits' value divided by 10 to the number of fraction digits. |
| Text.DecimalValueExample | src/lib/petIdentifier.ts:52 | `parseFloat("0.85")`, as a reply's "confidence: 0.85" gives it, is exactly 0.85. |

## Left out

- The HTTP request itself (`fetch`, its headers, the model name, `max_tokens`, `temperature`) is the parameter `send`. Only what the code reads from its outcome is modelled: a thrown error, the status, the body text, and the content of each choice.
- The prompt text (src/lib/petIdentifier.ts:68-88) is not modelled: it only shapes what the model replies, which is an input here.
- `JSON.parse` is the parameter `decode`; the JSON grammar is not modelled. `response.json()` failing on a 2xx body is the `Thrown` outcome.
- A `content` that is not a string, and a choice without a `message`, are not modelled: each choice is its content string.
- Text.DecimalValue: `parseFloat` yields an IEEE double. The model keeps the exact rational value of the numeral, so rounding is not modelled.
- Strings are sequences of Unicode scalar values (`char`). JavaScript strings are sequences of UTF-16 code units, so two things are not modelled: lone surrogates, and the fact that a character outside the Basic Multilingual Plane (an emoji, say) counts as two code units in JavaScript but as one `char` here. Case folding (`/i`, `toLowerCase`) is modelled for ASCII letters only. The `\s` class and `trim()` use the full JavaScript white-space set.
- `console.error` logging, the `GET` handler of the route, and the client pages and components are not part of this model.
- Reading the form and the file bytes (`request.formData()`, `file.arrayBuffer()`) is the request value. A body that is not a readable form is `Unreadable`, which the handler answers with 500.
- `identifyPet` maps a thrown value that is not an `Error` straight to the generic message. Every upstream failure in the model is an `Error` with a message, so that branch is not modelled separately.
