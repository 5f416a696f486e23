/**
 * The `POST /upload` handler: the checks on the uploaded file and the API key,
 * then the call to the language-model API, the parse of its reply and the
 * database insert, each of the last three taken as a given outcome.
 */
module Upload {
  import opened Wrappers
  import opened PyStr
  import Base64
  import Response

  /** The size ceiling, 5 MiB. */
  const MaxBytes: int := 5 * 1024 * 1024

  /** What `await file.read()` gave: the bytes, or the text of the exception it raised. */
  datatype ReadOutcome = ReadBytes(data: seq<Base64.Byte>) | ReadFailed(reason: string)

  /** The uploaded file part: its declared content type (None when the part has no header) and its body. */
  datatype UploadFile = UploadFile(contentType: Option<string>, read: ReadOutcome)

  /**
   * How a request fails: an `HTTPException`, which the framework answers with
   * its status and `{"detail": ...}`, or an uncaught exception, which it
   * answers with status 500 and the text "Internal Server Error".
   */
  datatype Failure = HttpError(status: int, detail: string) | Unhandled(exception: Response.PyException)

  /** The HTTP status a failure is answered with. */
  function Status(f: Failure): int {
    match f
    case HttpError(status, _) => status
    case Unhandled(_) => 500
  }

  /** `str()` of the "too large" `HTTPException`, which renders as "status: detail". */
  const TooLargeText: string := "400: Image too large (max 5MB)"

  /**
   * The checks of `upload_image` in order, each one stopping the request. The
   * "too large" `HTTPException` is raised inside the `try` around the read,
   * so the `except Exception` there turns it into a 500 that quotes it.
   * On success the result is the base64 text sent on to the API.
   */
  function Validate(file: Option<UploadFile>, apiKey: Option<string>): Result<string, Failure> {
    if file.None? then Failure(HttpError(400, "No file uploaded"))
    else if file.value.contentType.None? then Failure(Unhandled(Response.AttributeError))
    else if !StartsWith(file.value.contentType.value, "image/jpeg") then
      Failure(HttpError(400, "Only JPEG images are supported"))
    else if file.value.read.ReadFailed? then
      Failure(HttpError(500, "Error reading file: " + file.value.read.reason))
    else if |file.value.read.data| > MaxBytes then
      Failure(HttpError(500, "Error reading file: " + TooLargeText))
    else
      var b64 := Base64.Encode(file.value.read.data);
      if !StartsWith(b64, Base64.JpegPrefix) then Failure(HttpError(400, "Invalid JPEG format"))
      else if apiKey.None? || apiKey.value == "" then Failure(HttpError(500, "API key not configured"))
      else Success(b64)
  }

  /** The checks run in order; each failing one decides the outcome, whatever follows it. */
  lemma ChecksInOrder(file: Option<UploadFile>, apiKey: Option<string>)
    ensures file.None? ==> Validate(file, apiKey) == Failure(HttpError(400, "No file uploaded"))
    ensures file.Some? && file.value.contentType.Some? && !StartsWith(file.value.contentType.value, "image/jpeg") ==>
      Validate(file, apiKey) == Failure(HttpError(400, "Only JPEG images are supported"))
    ensures (file.Some? && file.value.contentType.Some? && StartsWith(file.value.contentType.value, "image/jpeg")
             && file.value.read.ReadBytes? && |file.value.read.data| > MaxBytes) ==>
      Validate(file, apiKey) == Failure(HttpError(500, "Error reading file: 400: Image too large (max 5MB)"))
  {
    assert "Error reading file: " + TooLargeText == "Error reading file: 400: Image too large (max 5MB)";
  }

  /** The file passes every content check: declared JPEG, read, within 5 MiB, and starting FF D8 FF. */
  predicate AcceptableFile(file: Option<UploadFile>) {
    && file.Some?
    && file.value.contentType.Some?
    && StartsWith(file.value.contentType.value, "image/jpeg")
    && file.value.read.ReadBytes?
    && |file.value.read.data| <= MaxBytes
    && Base64.StartsWithJpegMarker(file.value.read.data)
  }

  /** The API key is configured: present and not empty. */
  predicate KeyConfigured(apiKey: Option<string>) {
    apiKey.Some? && apiKey.value != ""
  }

  /**
   * Validation accepts exactly an acceptable file with a configured key, and
   * what it hands on is the base64 text of the file's bytes, which decodes
   * back to those bytes.
   */
  lemma ValidateAcceptsIff(file: Option<UploadFile>, apiKey: Option<string>)
    ensures Validate(file, apiKey).Success? <==> AcceptableFile(file) && KeyConfigured(apiKey)
    ensures Validate(file, apiKey).Success? ==>
      && Validate(file, apiKey).value == Base64.Encode(file.value.read.data)
      && Base64.Decode(Validate(file, apiKey).value) == Some(file.value.read.data)
  {
    if AcceptableFile(file) || (file.Some? && file.value.read.ReadBytes? && |file.value.read.data| <= MaxBytes) {
      var data := file.value.read.data;
      Base64.JpegPrefixIff(data);
      Base64.DecodeEncode(data);
    }
  }

  /** A JPEG of exactly 5 MiB passes the size check. */
  lemma ExactLimitAccepted(contentType: string, data: seq<Base64.Byte>, apiKey: Option<string>)
    requires StartsWith(contentType, "image/jpeg")
    requires |data| == MaxBytes && Base64.StartsWithJpegMarker(data)
    requires KeyConfigured(apiKey)
    ensures Validate(Some(UploadFile(Some(contentType), ReadBytes(data))), apiKey) == Success(Base64.Encode(data))
  {
    ValidateAcceptsIff(Some(UploadFile(Some(contentType), ReadBytes(data))), apiKey);
  }

  /**
   * A file that passes the content checks fails only on a missing or empty key,
   * with a 500; a file that fails them fails the same way whatever the key is.
   */
  lemma KeyCheckedLast(file: Option<UploadFile>, apiKey: Option<string>, otherKey: Option<string>)
    ensures AcceptableFile(file) && !KeyConfigured(apiKey) ==>
      Validate(file, apiKey) == Failure(HttpError(500, "API key not configured"))
    ensures !AcceptableFile(file) ==> Validate(file, apiKey).Failure? && Validate(file, apiKey) == Validate(file, otherKey)
  {
    ValidateAcceptsIff(file, apiKey);
    if file.Some? && file.value.read.ReadBytes? {
      Base64.JpegPrefixIff(file.value.read.data);
    }
  }

  /** What the API call gave: the decoded JSON body, or the text of the exception left after the retries. */
  datatype ApiOutcome = Replied(body: Response.Json) | CallFailed(diagnostic: string)

  /**
   * What the database insert gave: stored; failed on the open connection with
   * the error text; or failed in `sqlite3.connect` itself, so that the
   * `finally` then closes a connection that was never bound.
   */
  datatype StoreOutcome = Stored | StoreFailed(reason: string) | ConnectFailed

  /**
   * The whole handler. `callApi` stands for the retried POST to the API with
   * the base64 text, and `insert` for the insert of the question and answer.
   */
  function UploadImage(
    file: Option<UploadFile>, apiKey: Option<string>,
    callApi: string -> ApiOutcome, insert: Response.QnA -> StoreOutcome
  ): Result<Response.QnA, Failure>
  {
    match Validate(file, apiKey)
    case Failure(f) => Failure(f)
    case Success(b64) =>
      match callApi(b64)
      case CallFailed(diagnostic) => Failure(HttpError(500, "Perplexity API error: " + diagnostic))
      case Replied(body) =>
        match Response.ContentOf(body)
        case Failure(e) => Failure(Unhandled(e))
        case Success(content) =>
          var qa := Response.ParseQnA(content);
          match insert(qa)
          case StoreFailed(reason) => Failure(HttpError(500, "Database error: " + reason))
          case ConnectFailed => Failure(Unhandled(Response.UnboundLocalError))
          case Stored => Success(qa)
  }

  /** A rejected upload is answered before the API or the database is used. */
  lemma RejectedBeforeApi(
    file: Option<UploadFile>, apiKey: Option<string>,
    callApi: string -> ApiOutcome, insert: Response.QnA -> StoreOutcome
  )
    requires !(AcceptableFile(file) && KeyConfigured(apiKey))
    ensures Validate(file, apiKey).Failure?
    ensures UploadImage(file, apiKey, callApi, insert) == Failure(Validate(file, apiKey).error)
  {
    ValidateAcceptsIff(file, apiKey);
  }

  /**
   * An answered upload was an acceptable JPEG with a configured key; the API
   * got its base64 text, its reply had a content string, the answer returned
   * is the parse of that content, and the same pair was inserted.
   */
  lemma AnsweredUpload(
    file: Option<UploadFile>, apiKey: Option<string>,
    callApi: string -> ApiOutcome, insert: Response.QnA -> StoreOutcome
  )
    requires UploadImage(file, apiKey, callApi, insert).Success?
    ensures AcceptableFile(file) && KeyConfigured(apiKey)
    ensures callApi(Base64.Encode(file.value.read.data)).Replied?
    ensures Response.ContentOf(callApi(Base64.Encode(file.value.read.data)).body).Success?
    ensures UploadImage(file, apiKey, callApi, insert).value ==
      Response.ParseQnA(Response.ContentOf(callApi(Base64.Encode(file.value.read.data)).body).value)
    ensures insert(UploadImage(file, apiKey, callApi, insert).value) == Stored
  {
    ValidateAcceptsIff(file, apiKey);
  }

  /** The file is refused by one of the three checks that answer 400. */
  predicate RefusedAsBadRequest(file: Option<UploadFile>) {
    || file.None?
    || (file.value.contentType.Some? && !StartsWith(file.value.contentType.value, "image/jpeg"))
    || (&& file.value.contentType.Some?
        && file.value.read.ReadBytes?
        && |file.value.read.data| <= MaxBytes
        && !Base64.StartsWithJpegMarker(file.value.read.data))
  }

  /**
   * Every failure is answered with 400 or 500, and 400 exactly when the file
   * is missing, is not declared JPEG, or is a readable file of at most 5 MiB
   * whose bytes do not start FF D8 FF; an oversized file is never a 400.
   */
  lemma FailureStatus(
    file: Option<UploadFile>, apiKey: Option<string>,
    callApi: string -> ApiOutcome, insert: Response.QnA -> StoreOutcome
  )
    requires UploadImage(file, apiKey, callApi, insert).Failure?
    ensures Status(UploadImage(file, apiKey, callApi, insert).error) in {400, 500}
    ensures Status(UploadImage(file, apiKey, callApi, insert).error) == 400 <==> RefusedAsBadRequest(file)
  {
    if Validate(file, apiKey).Failure? {
      ValidateFailureStatus(file, apiKey);
    } else {
      ValidateAcceptsIff(file, apiKey);
      assert !RefusedAsBadRequest(file);
    }
  }

  /** The statuses of the validation failures alone. */
  lemma ValidateFailureStatus(file: Option<UploadFile>, apiKey: Option<string>)
    requires Validate(file, apiKey).Failure?
    ensures Status(Validate(file, apiKey).error) in {400, 500}
    ensures Status(Validate(file, apiKey).error) == 400 <==> RefusedAsBadRequest(file)
  {
    if file.Some? && file.value.read.ReadBytes? {
      Base64.JpegPrefixIff(file.value.read.data);
    }
  }

  /**
   * Once the reply has been parsed, the insert alone decides the outcome: the
   * pair when stored, a 500 quoting the database error when the insert on an
   * open connection failed, and an uncaught `UnboundLocalError`, whose 500
   * carries no detail, when the connection could not be opened.
   */
  lemma StoreDecides(
    file: Option<UploadFile>, apiKey: Option<string>,
    callApi: string -> ApiOutcome, insert: Response.QnA -> StoreOutcome
  )
    requires Validate(file, apiKey).Success?
    requires callApi(Validate(file, apiKey).value).Replied?
    requires Response.ContentOf(callApi(Validate(file, apiKey).value).body).Success?
    ensures
      var qa := Response.ParseQnA(Response.ContentOf(callApi(Validate(file, apiKey).value).body).value);
      && (insert(qa).Stored? ==> UploadImage(file, apiKey, callApi, insert) == Success(qa))
      && (insert(qa).StoreFailed? ==>
            UploadImage(file, apiKey, callApi, insert) == Failure(HttpError(500, "Database error: " + insert(qa).reason)))
      && (insert(qa).ConnectFailed? ==>
            UploadImage(file, apiKey, callApi, insert) == Failure(Unhandled(Response.UnboundLocalError)))
  {
  }
}
