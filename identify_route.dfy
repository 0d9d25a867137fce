/** The `POST` handler of src/app/api/identify/route.ts: it reads the
    multipart form, checks the `image` field in a fixed order (present, an
    image type, at most 10 MB), hands the file to the identifier, and answers
    with its result or with a fixed error. */
module IdentifyRoute {
  import opened Wrappers
  import opened Text
  import opened Json
  import opened Base64
  import opened ReplyParser
  import opened PetIdentifier

  /** An uploaded file: its declared type and its bytes (`file.size` is
      their count). */
  datatype Upload = Upload(mimeType: string, bytes: seq<byte>)

  /** What `formData.get("image")` returns when the field is there. */
  datatype FormValue =
    | FileValue(file: Upload)
    | TextValue(text: string)

  /** The request as the handler sees it: a body that is not a readable
      form (`request.formData()` throws), or a form and its `image` field. */
  datatype Request =
    | Unreadable
    | Form(image: Option<FormValue>)

  datatype Body =
    | ErrorBody(error: string)
    | PetBody(result: Identification)

  datatype Response = Response(status: nat, body: Body)

  const MaxSize: nat := 10 * 1024 * 1024
  const ImageTypePrefix := "image/"

  const NoImageMessage := "No image file provided"
  const InvalidTypeMessage := "Invalid file type. Please upload an image."
  const TooLargeMessage := "File too large. Please upload an image smaller than 10MB."
  const ServerErrorMessage := "Failed to identify pet breed. Please try again."

  /** The reply of the `catch` branch. */
  const ServerError := Response(500, ErrorBody(ServerErrorMessage))

  /** `!file`: the field is missing or is the empty string. */
  predicate Absent(image: Option<FormValue>) {
    image.None? || image.value == TextValue("")
  }

  /** A file that passes the type and size checks. */
  predicate Acceptable(u: Upload) {
    StartsWith(u.mimeType, ImageTypePrefix) && |u.bytes| <= MaxSize
  }

  /** `POST(request)`, where `identify` stands for `identifyPet` (its failure
      is a thrown error). A text field in place of a file has no `type`, so
      reading `type.startsWith` throws and the handler answers 500. */
  function Post(request: Request, identify: (seq<byte>, string) -> Result<Identification, string>): (r: Response)
    ensures r.status == 200 || r.status == 400 || r.status == 500
    ensures r.status == 200 <==>
              && request.Form? && request.image.Some? && request.image.value.FileValue?
              && Acceptable(request.image.value.file)
              && identify(request.image.value.file.bytes, request.image.value.file.mimeType).Success?
    ensures r.status == 200 ==>
              var u := request.image.value.file;
              r.body == PetBody(identify(u.bytes, u.mimeType).value)
    ensures r.status == 400 <==>
              && request.Form?
              && (|| Absent(request.image)
                  || (request.image.value.FileValue? && !Acceptable(request.image.value.file)))
    ensures r.status == 400 ==>
              r.body.ErrorBody? && r.body.error in {NoImageMessage, InvalidTypeMessage, TooLargeMessage}
    ensures r.status == 500 ==> r == ServerError
  {
    match request
    case Unreadable => ServerError
    case Form(image) =>
      if Absent(image) then Response(400, ErrorBody(NoImageMessage))
      else match image.value
        case TextValue(_) => ServerError
        case FileValue(u) =>
          if !StartsWith(u.mimeType, ImageTypePrefix) then Response(400, ErrorBody(InvalidTypeMessage))
          else if |u.bytes| > MaxSize then Response(400, ErrorBody(TooLargeMessage))
          else match identify(u.bytes, u.mimeType)
            case Success(result) => Response(200, PetBody(result))
            case Failure(_) => ServerError
  }

  // ----- The order of the checks -----

  /** A missing field is reported before anything else is looked at. */
  lemma NoImageFirst(image: Option<FormValue>, identify: (seq<byte>, string) -> Result<Identification, string>)
    requires Absent(image)
    ensures Post(Form(image), identify) == Response(400, ErrorBody(NoImageMessage))
  {
  }

  /** A file whose type does not start with "image/" is refused for its type,
      whatever its size. */
  lemma TypeBeforeSize(u: Upload, identify: (seq<byte>, string) -> Result<Identification, string>)
    requires !StartsWith(u.mimeType, ImageTypePrefix)
    ensures Post(Form(Some(FileValue(u))), identify) == Response(400, ErrorBody(InvalidTypeMessage))
  {
  }

  /** An oversized PDF gets the type error, not the size error. */
  lemma OversizedPdf(bytes: seq<byte>, identify: (seq<byte>, string) -> Result<Identification, string>)
    requires |bytes| > MaxSize
    ensures Post(Form(Some(FileValue(Upload("application/pdf", bytes)))), identify).body
            == ErrorBody(InvalidTypeMessage)
  {
    assert "application/pdf"[..6] != ImageTypePrefix by {
      assert "application/pdf"[0] != ImageTypePrefix[0];
    }
  }

  /** An image of more than 10485760 bytes is refused for its size. */
  lemma SizeLimit(u: Upload, identify: (seq<byte>, string) -> Result<Identification, string>)
    requires StartsWith(u.mimeType, ImageTypePrefix) && |u.bytes| > 10485760
    ensures Post(Form(Some(FileValue(u))), identify) == Response(400, ErrorBody(TooLargeMessage))
  {
  }

  /** An image of exactly 10485760 bytes is accepted: the bound is inclusive,
      and the identifier decides the answer. */
  lemma SizeLimitInclusive(u: Upload, identify: (seq<byte>, string) -> Result<Identification, string>)
    requires StartsWith(u.mimeType, ImageTypePrefix) && |u.bytes| == 10485760
    ensures Post(Form(Some(FileValue(u))), identify).status != 400
  {
  }

  /** The identifier's message never reaches the client: any two identifiers
      that both fail give the same answer. */
  lemma FailuresLookAlike(request: Request,
                          f: (seq<byte>, string) -> Result<Identification, string>,
                          g: (seq<byte>, string) -> Result<Identification, string>)
    requires forall b, m :: f(b, m).Failure? && g(b, m).Failure?
    ensures Post(request, f) == Post(request, g)
    ensures Post(request, f).status != 200
  {
  }

  // ----- The route and the identifier together -----

  /** The route over the identifier of src/lib/petIdentifier.ts, with the
      environment's key, the request to the model and `JSON.parse`. */
  function Serve(request: Request, apiKey: Option<string>,
                 send: string -> Upstream, decode: string -> Option<Json>): Response
  {
    Post(request, (bytes, mimeType) => IdentifyPet(bytes, mimeType, apiKey, send, decode))
  }

  /** Without a key no upload succeeds, and the classified configuration
      message is replaced by the route's generic one. */
  lemma MissingKeyServed(request: Request, apiKey: Option<string>,
                         send: string -> Upstream, decode: string -> Option<Json>)
    requires KeyMissing(apiKey)
    ensures Serve(request, apiKey, send, decode).status != 200
    ensures Serve(request, apiKey, send, decode).status == 500 ==>
              Serve(request, apiKey, send, decode).body == ErrorBody(ServerErrorMessage)
  {
    var identify := (bytes, mimeType) => IdentifyPet(bytes, mimeType, apiKey, send, decode);
    FailuresLookAlike(request, identify, identify);
  }

  /** An accepted image whose reply is not JSON is answered with an animal
      from the closed set. */
  lemma PlainTextReplyServed(u: Upload, apiKey: Option<string>, content: string,
                             send: string -> Upstream, decode: string -> Option<Json>)
    requires Acceptable(u) && !KeyMissing(apiKey)
    requires var a := send(DataUrl(u.bytes, u.mimeType));
             a.Responded? && IsOk(a.status) && |a.choices| > 0 && a.choices[0] == content
    requires decode(content) == None
    ensures var r := Serve(Form(Some(FileValue(u))), apiKey, send, decode);
            r.status == 200 && r.body.result == Fallback(content)
            && r.body.result.animal.JString? && r.body.result.animal.s in Animals
  {
  }
}
