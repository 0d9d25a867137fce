/** The server-side steps of `identifyPet` (src/lib/petIdentifier.ts): the
    upload becomes a data URL, the configured API key is checked, the vision
    model is asked, its reply is parsed, and every failure on the way is
    turned into one of three user-facing messages. The HTTP exchange with the
    model is not modelled: its outcome is a parameter. */
module PetIdentifier {
  import opened Wrappers
  import opened Text
  import opened Json
  import opened Base64
  import opened ReplyParser

  // ----- bufferToBase64 -----

  const DataPrefix := "data:"
  const Base64Marker := ";base64,"

  /** `bufferToBase64(buffer, mimeType)`: a data URL (RFC 2397) whose payload
      is the padded base64 encoding of the bytes, 4 characters for every
      started group of 3 bytes. */
  function DataUrl(buffer: seq<byte>, mimeType: string): (r: string)
    ensures |r| == |mimeType| + 13 + 4 * ((|buffer| + 2) / 3)
    ensures StartsWith(r, DataPrefix)
  {
    EncodeLength(buffer);
    DataPrefix + mimeType + Base64Marker + Encode(buffer)
  }

  /** Reads a base64 data URL back: the media type and the bytes. The payload
      is what follows the last ',', and the text between "data:" and it must
      end with ";base64". */
  function ParseDataUrl(url: string): Option<(string, seq<byte>)> {
    if !StartsWith(url, DataPrefix) then None
    else match LastIndexOf(url, ',')
      case None => None
      case Some(k) =>
        if k < |DataPrefix| then None
        else
          var header := url[|DataPrefix|..k];
          if !EndsWith(header, ";base64") then None
          else match Decode(url[k + 1..])
            case None => None
            case Some(bytes) => Some((header[..|header| - 7], bytes))
  }

  /** A base64 payload holds no ','. */
  lemma EncodingHasNoComma(bs: seq<byte>)
    ensures ',' !in Encode(bs)
  {
    var e := Encode(bs);
    EncodeAlphabet(bs);
    forall i | 0 <= i < |e| ensures e[i] != ',' {
      assert IsSymbol(e[i]) || e[i] == '=';
    }
  }

  /** Where the pieces of `a + b + (c + [sep]) + p` sit, for any element
      type: the split that the data URL parser undoes. */
  lemma FourPieces<T>(a: seq<T>, b: seq<T>, c: seq<T>, sep: T, p: seq<T>)
    ensures var u := a + b + (c + [sep]) + p;
            && u == a + (b + c) + [sep] + p
            && u[..|a|] == a
            && u[|a|..|a| + |b| + |c|] == b + c
            && u[|a| + |b| + |c| + 1..] == p
    ensures (b + c)[..|b|] == b && (b + c)[|b|..] == c
  {
  }

  /** The parts of a data URL whose payload holds no ','. */
  lemma ParseDataUrlParts(mimeType: string, payload: string)
    requires ',' !in payload
    ensures var url := DataPrefix + mimeType + Base64Marker + payload;
            ParseDataUrl(url) ==
              match Decode(payload)
              case None => None
              case Some(bytes) => Some((mimeType, bytes))
  {
    var marker := ";base64";
    assert Base64Marker == marker + [','];
    FourPieces(DataPrefix, mimeType, marker, ',', payload);
    LastIndexOfBefore(DataPrefix + (mimeType + marker), ',', payload);
  }

  /** The data URL loses nothing: both the media type (whatever characters
      it holds) and the bytes can be read back from it. */
  lemma DataUrlRoundTrip(buffer: seq<byte>, mimeType: string)
    ensures ParseDataUrl(DataUrl(buffer, mimeType)) == Some((mimeType, buffer))
  {
    EncodingHasNoComma(buffer);
    ParseDataUrlParts(mimeType, Encode(buffer));
    DecodeEncode(buffer);
  }

  // ----- callOpenRouterAPI -----

  /** What the classifier looks for first. */
  const KeyPhrase := "API key"
  const MissingKeyError := "OpenRouter " + KeyPhrase + " not configured. Please set OPENROUTER_API_KEY environment variable."
  const NoResponseError := "No response from OpenRouter API"
  const ApiErrorHeader := "OpenRouter API error: "

  /** The error thrown for a response whose status is not 2xx. */
  function ApiErrorMessage(status: nat, body: string): (r: string)
    ensures StartsWith(r, "OpenRouter API error")
    ensures EndsWith(r, body)
  {
    var r := ApiErrorHeader + ShowNat(status) + " - " + body;
    assert r[..20] == "OpenRouter API error";
    assert r[|r| - |body|..] == body;
    r
  }

  /** What the request to the model's endpoint came to. `Thrown` is a
      rejected `fetch` or a 2xx body that is not JSON, with the error's
      message; `Responded` is an HTTP response with its status, its body as
      text (read when the status is not 2xx) and the `content` of each of its
      `choices` (read when it is). */
  datatype Upstream =
    | Thrown(message: string)
    | Responded(status: nat, body: string, choices: seq<string>)

  /** `response.ok` */
  predicate IsOk(status: nat) {
    200 <= status <= 299
  }

  /** `!OPENROUTER_API_KEY`: the variable is unset or empty. */
  predicate KeyMissing(apiKey: Option<string>) {
    apiKey.None? || apiKey.value == ""
  }

  /** `callOpenRouterAPI(imageUrl)` with the key read from the environment
      and `send` standing for the request: the first choice's content, or the
      message of the error it throws. Nothing is sent without a key. */
  function CallOpenRouter(apiKey: Option<string>, imageUrl: string, send: string -> Upstream): (r: Result<string, string>)
    ensures KeyMissing(apiKey) ==> r == Failure(MissingKeyError)
    ensures r.Success? <==>
              && !KeyMissing(apiKey)
              && send(imageUrl).Responded? && IsOk(send(imageUrl).status)
              && |send(imageUrl).choices| > 0
    ensures r.Success? ==> r.value == send(imageUrl).choices[0]
  {
    if KeyMissing(apiKey) then Failure(MissingKeyError)
    else match send(imageUrl)
      case Thrown(message) => Failure(message)
      case Responded(status, body, choices) =>
        if !IsOk(status) then Failure(ApiErrorMessage(status, body))
        else if |choices| == 0 then Failure(NoResponseError)
        else Success(choices[0])
  }

  // ----- identifyPet -----

  const ConfigurationMessage := "OpenRouter API key not configured. Please check your environment variables."
  const ConnectionMessage := "Failed to connect to OpenRouter API. Please try again later."
  const GenericMessage := "Failed to identify pet breed. Please try again."

  /** The `catch` of `identifyPet`: the message of any error is tested for
      "API key" first, then for "OpenRouter API error"; everything else gets
      the generic message. */
  function Classify(message: string): (r: string)
    ensures r == ConfigurationMessage <==> Contains(message, "API key")
    ensures r == ConnectionMessage <==>
              !Contains(message, "API key") && Contains(message, "OpenRouter API error")
    ensures r == GenericMessage <==>
              !Contains(message, "API key") && !Contains(message, "OpenRouter API error")
  {
    if Includes(message, "API key") then ConfigurationMessage
    else if Includes(message, "OpenRouter API error") then ConnectionMessage
    else GenericMessage
  }

  /** `identifyPet(image, mimeType)`: the parsed reply of the model, or one of
      three messages. `decode` stands for `JSON.parse` as the reply parser
      takes it. A missing key always ends in the configuration message,
      whatever `send` would have done. */
  function IdentifyPet(image: seq<byte>, mimeType: string, apiKey: Option<string>,
                       send: string -> Upstream, decode: string -> Option<Json>): (r: Result<Identification, string>)
    ensures r.Failure? ==> r.error in {ConfigurationMessage, ConnectionMessage, GenericMessage}
    ensures KeyMissing(apiKey) ==> r == Failure(ConfigurationMessage)
    ensures var answer := send(DataUrl(image, mimeType));
            r.Success? <==>
              !KeyMissing(apiKey) && answer.Responded? && IsOk(answer.status) && |answer.choices| > 0
    ensures var answer := send(DataUrl(image, mimeType));
            r.Success? ==> r.value == ParseReply(answer.choices[0], decode(answer.choices[0]))
    ensures var answer := send(DataUrl(image, mimeType));
            !KeyMissing(apiKey) && answer.Thrown? ==> r == Failure(Classify(answer.message))
  {
    MissingKeyMentionsKey();
    match CallOpenRouter(apiKey, DataUrl(image, mimeType), send)
    case Failure(message) => Failure(Classify(message))
    case Success(content) => Success(ParseReply(content, decode(content)))
  }

  // ----- What the classification makes of each error -----

  lemma MissingKeyMentionsKey()
    ensures Contains(MissingKeyError, "API key")
  {
    var before := "OpenRouter ";
    assert MissingKeyError[|before|..|before| + |KeyPhrase|] == KeyPhrase;
    assert PieceAt(MissingKeyError, KeyPhrase, |before|);
  }

  /** `s` cannot hold `t` when no position that could hold `t[j]` does. */
  lemma NotContainsAt(s: string, t: string, j: nat)
    requires j < |t|
    requires forall i :: j <= i && i + |t| - j <= |s| ==> s[i] != t[j]
    ensures !Contains(s, t)
  {
    forall i | 0 <= i ensures !PieceAt(s, t, i) {
      if i + |t| <= |s| {
        assert s[i..i + |t|][j] == s[i + j];
      }
    }
  }

  /** No upstream failure other than a missing key mentions an API key by
      itself: "No response from OpenRouter API" is neither a configuration
      nor a connection problem. */
  lemma NoResponseIsGeneric()
    ensures Classify(NoResponseError) == GenericMessage
  {
    var s := NoResponseError;
    forall i | 4 <= i && i + 3 <= |s| ensures s[i] != 'k' {
    }
    NotContainsAt(s, "API key", 4);
    forall i | 0 <= i && i + 20 <= |s| ensures s[i] != 'O' {
    }
    NotContainsAt(s, "OpenRouter API error", 0);
  }

  /** An occurrence of "API key" cannot start inside a header without a 'k'
      whose last four characters are not 'A'. */
  lemma KeyNotInHeader(h: string, body: string)
    requires 'k' !in h
    requires forall i :: 0 <= i < |h| && |h| <= i + 4 ==> h[i] != 'A'
    ensures Contains(h + body, "API key") <==> Contains(body, "API key")
  {
    var s := h + body;
    forall i | 0 <= i < |h| ensures !PieceAt(s, "API key", i) {
      if i + 7 > |s| {
      } else if i + 4 < |h| {
        assert s[i..i + 7][4] == h[i + 4] && h[i + 4] in h;
        assert "API key"[4] == 'k';
      } else {
        assert s[i..i + 7][0] == h[i];
        assert "API key"[0] == 'A';
      }
    }
    if Contains(s, "API key") {
      var i :| PieceAt(s, "API key", i);
      assert s[i..i + 7] == body[i - |h|..i - |h| + 7];
      assert PieceAt(body, "API key", i - |h|);
    }
    if Contains(body, "API key") {
      ContainsInSuffix(h, body, "API key");
    }
  }

  /** A non-2xx response is a connection problem, unless its body mentions
      "API key" (a rejected key, say), which makes it a configuration one. */
  lemma ApiErrorClassification(status: nat, body: string)
    ensures Classify(ApiErrorMessage(status, body)) ==
              if Contains(body, "API key") then ConfigurationMessage else ConnectionMessage
  {
    var digits := ShowNat(status);
    var h := ApiErrorHeader + digits + " - ";
    assert ApiErrorMessage(status, body) == h + body;
    forall i | 0 <= i < |h| ensures h[i] != 'k' {
      if i < |ApiErrorHeader| {
        assert h[i] == ApiErrorHeader[i];
      } else if i < |ApiErrorHeader| + |digits| {
        assert h[i] == digits[i - |ApiErrorHeader|];
        assert IsDigit(digits[i - |ApiErrorHeader|]);
      }
    }
    forall i | 0 <= i < |h| && |h| <= i + 4 ensures h[i] != 'A' {
      if i == |h| - 4 {
        assert h[i] == digits[|digits| - 1];
        assert IsDigit(digits[|digits| - 1]);
      }
    }
    KeyNotInHeader(h, body);
    assert PieceAt(ApiErrorMessage(status, body), "OpenRouter API error", 0);
  }

  /** The outcome for a request that got a response with a non-2xx status. */
  lemma HttpErrorOutcome(image: seq<byte>, mimeType: string, apiKey: Option<string>,
                         send: string -> Upstream, decode: string -> Option<Json>)
    requires !KeyMissing(apiKey)
    requires send(DataUrl(image, mimeType)).Responded? && !IsOk(send(DataUrl(image, mimeType)).status)
    ensures var body := send(DataUrl(image, mimeType)).body;
            IdentifyPet(image, mimeType, apiKey, send, decode) ==
              Failure(if Contains(body, "API key") then ConfigurationMessage else ConnectionMessage)
  {
    var answer := send(DataUrl(image, mimeType));
    ApiErrorClassification(answer.status, answer.body);
  }

  /** The outcome for a 2xx response without choices. */
  lemma NoChoicesOutcome(image: seq<byte>, mimeType: string, apiKey: Option<string>,
                         send: string -> Upstream, decode: string -> Option<Json>)
    requires !KeyMissing(apiKey)
    requires var answer := send(DataUrl(image, mimeType));
             answer.Responded? && IsOk(answer.status) && answer.choices == []
    ensures IdentifyPet(image, mimeType, apiKey, send, decode) == Failure(GenericMessage)
  {
    NoResponseIsGeneric();
  }
}
