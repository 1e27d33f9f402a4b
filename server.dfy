/** The request handler of the reservation server: the reservation
    submission, which validates a payload and appends it to the reservation
    log, and the static file server with its content types. */
module Server {
  import opened Options
  import opened JsText
  import opened Validation
  import opened Paths

  const ApiPath: string := "/api/reservations"
  const JsonType: string := "application/json; charset=utf-8"
  const OctetStream: string := "application/octet-stream"
  const SuccessMessage: string :=
    "Reservation request submitted successfully. We will confirm availability within one business day."
  const SubmitFailure: string := "Server error while processing reservation request."

  /** The content type of each known extension. */
  const MimeTypes: map<string, string> := map[
    ".css" := "text/css; charset=utf-8",
    ".html" := "text/html; charset=utf-8",
    ".js" := "application/javascript; charset=utf-8",
    ".json" := "application/json; charset=utf-8",
    ".svg" := "image/svg+xml",
    ".png" := "image/png",
    ".jpg" := "image/jpeg",
    ".jpeg" := "image/jpeg"
  ]

  /** What reading a file gives: its bytes, no such file (`ENOENT`), or any
      other failure. */
  datatype ReadResult = Contents(data: seq<bv8>) | NoEntry | ReadFailed

  /** How the request body arrived: in full, or not at all (the stream
      failed or the body grew past 1,000,000 characters). */
  datatype BodyRead = Received(text: string) | BodyFailed

  /** A request: its method (`verb`), its URL's pathname, that pathname after
      `decodeURIComponent`, its `content-type` header ("" when absent) and
      its body. */
  datatype Request = Request(
    verb: string, pathname: string, decodedPath: string,
    contentType: string, body: BodyRead)

  /** A response body: one of the JSON objects the server sends, the bytes
      of a file, or nothing. */
  datatype ResponseBody =
    | ErrorJson(error: string)
    | ErrorsJson(error: string, errors: seq<string>)
    | MessageJson(message: string)
    | FileBody(data: seq<bv8>)
    | NoBody

  datatype Response = Response(status: int, contentType: string, body: ResponseBody)

  /** `sendJson(response, status, payload)` */
  function SendJson(status: int, body: ResponseBody): Response {
    Response(status, JsonType, body)
  }

  /** One line of the reservation log. */
  datatype LogRecord = LogRecord(createdAt: string, reservation: Payload)

  // ---------------------------------------------------------------------
  // Static files

  /** The content type served for a file: the one of its lower-cased
      extension, or `application/octet-stream`. */
  function ContentTypeFor(path: string): string {
    var extension := ToLowerAscii(ExtName(path));
    if extension in MimeTypes then MimeTypes[extension] else OctetStream
  }

  /** A file `stem + ext` is served with the type of its extension, in any
      letter case, and with `application/octet-stream` for any other
      extension. */
  lemma ContentTypeOfFile(dir: string, stem: string, ext: string)
    requires stem != [] && '/' !in stem
    requires ext != [] && ext[0] == '.' && '.' !in ext[1..] && '/' !in ext[1..]
    requires stem + ext != ".."
    ensures ContentTypeFor(dir + "/" + stem + ext)
      == if ToLowerAscii(ext) in MimeTypes then MimeTypes[ToLowerAscii(ext)] else OctetStream
  {
    ExtNameOfFile(dir, stem, ext);
  }

  /** The content type does not depend on the letter case of the
      extension. */
  lemma ExtensionCaseIgnored(dir: string, stem: string, ext: string, ext': string)
    requires stem != [] && '/' !in stem
    requires ext != [] && ext[0] == '.' && '.' !in ext[1..] && '/' !in ext[1..]
    requires ext' != [] && ext'[0] == '.' && '.' !in ext'[1..] && '/' !in ext'[1..]
    requires stem + ext != ".." && stem + ext' != ".."
    requires SameUpToAsciiCase(ext, ext')
    ensures ContentTypeFor(dir + "/" + stem + ext) == ContentTypeFor(dir + "/" + stem + ext')
  {
    ContentTypeOfFile(dir, stem, ext);
    ContentTypeOfFile(dir, stem, ext');
    LowerAsciiFolds(ext, ext');
  }

  /** `INDEX.HTML` is served as HTML too. */
  lemma UpperCaseHtml(dir: string)
    ensures ContentTypeFor(dir + "/" + "INDEX" + ".HTML") == "text/html; charset=utf-8"
  {
    ContentTypeOfFile(dir, "INDEX", ".HTML");
    assert ToLowerAscii(".HTML") == ".html";
    HtmlEntry();
  }

  /** A served content type is one of the table's or the default. */
  lemma ContentTypeKnown(path: string)
    ensures ContentTypeFor(path) == OctetStream || ContentTypeFor(path) in MimeTypes.Values
  {
  }

  /** The response to a GET or HEAD for anything but the reservation API:
      400 for a path outside the root, 404 for a missing file, 500 when the
      file cannot be read, otherwise 200 with the file's content type and,
      for GET only, its bytes. */
  function ServeStatic(root: string, req: Request, readFile: string -> ReadResult): Response
    requires IsAbsolute(root)
  {
    match GetSafeFilePath(root, req.decodedPath)
    case None => SendJson(400, ErrorJson("Invalid path."))
    case Some(target) =>
      match readFile(target)
      case NoEntry => SendJson(404, ErrorJson("Not found."))
      case ReadFailed => SendJson(500, ErrorJson("Could not read file."))
      case Contents(data) =>
        Response(200, ContentTypeFor(target), if req.verb == "HEAD" then NoBody else FileBody(data))
  }

  predicate IsApiSubmit(req: Request) {
    req.verb == "POST" && req.pathname == ApiPath
  }

  /** The response to any request other than a reservation submission:
      405 for methods other than GET and HEAD, otherwise the static file. */
  function StaticResponse(root: string, req: Request, readFile: string -> ReadResult): Response
    requires IsAbsolute(root)
  {
    if req.verb != "GET" && req.verb != "HEAD" then SendJson(405, ErrorJson("Method not allowed."))
    else ServeStatic(root, req, readFile)
  }

  // ---------------------------------------------------------------------
  // Reservation submission

  /** The payload of a submission, `None` when reading or parsing the body
      throws. A JSON body (by its content type) goes to `parseJson`, an
      empty one as `{}`; any other body is read as a form. */
  function SubmittedPayload(req: Request, parseJson: string -> Option<Payload>,
                            parseForm: string -> Payload): Option<Payload>
  {
    match req.body
    case BodyFailed => None
    case Received(raw) =>
      if Includes(req.contentType, "application/json") then
        parseJson(if raw == [] then "{}" else raw)
      else
        Some(parseForm(raw))
  }

  /** How a submission ends: it could not be read, it was invalid (with the
      messages of the validator), or it was valid. */
  datatype Outcome = Unreadable | Invalid(errors: seq<string>) | Valid(payload: Payload)

  function SubmitOutcome(req: Request, today: int, parseJson: string -> Option<Payload>,
                         parseForm: string -> Payload): Outcome
  {
    match SubmittedPayload(req, parseJson, parseForm)
    case None => Unreadable
    case Some(payload) =>
      var errors := Messages(ValidationErrors(payload, today));
      if errors != [] then Invalid(errors) else Valid(payload)
  }

  /** The response that ends a submission. */
  function SubmitResponse(outcome: Outcome): Response {
    match outcome
    case Unreadable => SendJson(500, ErrorJson(SubmitFailure))
    case Invalid(errors) => SendJson(400, ErrorsJson(if errors == [] then "" else errors[0], errors))
    case Valid(_) => SendJson(201, MessageJson(SuccessMessage))
  }

  /** The log after a submission: one more record, holding the payload as
      it was received, when the submission was valid and the append
      succeeded; otherwise unchanged. */
  function LogAfter(log: seq<LogRecord>, outcome: Outcome, now: string, appended: bool): seq<LogRecord> {
    if outcome.Valid? && appended then log + [LogRecord(now, outcome.payload)] else log
  }

  /** The reservation server: its root directory, the body parsers it
      relies on, and the reservation log it appends to. */
  class ReservationServer {
    const root: string
    const parseJson: string -> Option<Payload>
    const parseForm: string -> Payload
    var log: seq<LogRecord>

    constructor(root: string, parseJson: string -> Option<Payload>,
                parseForm: string -> Payload, log: seq<LogRecord>)
      requires IsAbsolute(root)
      ensures this.root == root && this.parseJson == parseJson && this.parseForm == parseForm
      ensures this.log == log
    {
      this.root := root;
      this.parseJson := parseJson;
      this.parseForm := parseForm;
      this.log := log;
    }

    /** `handleReservationSubmit`, on the calendar day `today` at the time
      `now`; `appendSucceeds` says whether the log file accepted the new
      line. The response does not wait for the append. */
    method HandleReservationSubmit(req: Request, today: int, now: string, appendSucceeds: bool)
      returns (resp: Response)
      modifies this
      ensures resp == SubmitResponse(SubmitOutcome(req, today, parseJson, parseForm))
      ensures log == LogAfter(old(log), SubmitOutcome(req, today, parseJson, parseForm), now, appendSucceeds)
    {
      ghost var outcome := SubmitOutcome(req, today, parseJson, parseForm);
      var payload := SubmittedPayload(req, parseJson, parseForm);
      if payload.None? {
        assert outcome == Unreadable;
        return SendJson(500, ErrorJson(SubmitFailure));
      }
      var errors := ValidateReservation(payload.value, today);
      if |errors| > 0 {
        assert outcome == Invalid(errors);
        return SendJson(400, ErrorsJson(errors[0], errors));
      }
      assert outcome == Outcome.Valid(payload.value);
      var record := LogRecord(now, payload.value);
      if appendSucceeds {
        log := log + [record];
      }
      resp := SendJson(201, MessageJson(SuccessMessage));
    }

    /** The request handler: reservation submissions go to
      HandleReservationSubmit, everything else to the static files read
      through `readFile`. */
    method HandleRequest(req: Request, today: int, now: string, appendSucceeds: bool,
                         readFile: string -> ReadResult)
      returns (resp: Response)
      requires IsAbsolute(root)
      modifies this
      ensures IsApiSubmit(req) ==>
        && resp == SubmitResponse(SubmitOutcome(req, today, parseJson, parseForm))
        && log == LogAfter(old(log), SubmitOutcome(req, today, parseJson, parseForm), now, appendSucceeds)
      ensures !IsApiSubmit(req) ==> resp == StaticResponse(root, req, readFile) && log == old(log)
    {
      if IsApiSubmit(req) {
        resp := HandleReservationSubmit(req, today, now, appendSucceeds);
        return;
      }
      resp := StaticResponse(root, req, readFile);
    }
  }

  // ---------------------------------------------------------------------
  // What the handler promises

  /** A submission ends in 500 exactly when its body cannot be read or
      parsed, in 400 exactly when the validator reports errors (the first
      one as `error`, all of them as `errors`), and in 201 otherwise; every
      answer is JSON. */
  lemma SubmissionResponses(req: Request, today: int, parseJson: string -> Option<Payload>,
                            parseForm: string -> Payload)
    ensures var payload := SubmittedPayload(req, parseJson, parseForm);
      var resp := SubmitResponse(SubmitOutcome(req, today, parseJson, parseForm));
      && resp.contentType == JsonType
      && (resp.status == 500 <==> payload.None?)
      && (resp.status == 400 <==> payload.Some? && ValidationErrors(payload.value, today) != [])
      && (resp.status == 201 <==> payload.Some? && ValidationErrors(payload.value, today) == [])
      && (resp.status == 400 ==>
            var errors := Messages(ValidationErrors(payload.value, today));
            resp.body == ErrorsJson(errors[0], errors))
  {
    var payload := SubmittedPayload(req, parseJson, parseForm);
    var errs := if payload.Some? then ValidationErrors(payload.value, today) else [];
    OutcomeResponse(payload, errs, SubmitOutcome(req, today, parseJson, parseForm));
  }

  /** The response to the outcome of a payload that was read (or not) and
      drew the errors `errs`. */
  lemma OutcomeResponse(payload: Option<Payload>, errs: seq<ValidationError>, outcome: Outcome)
    requires outcome == match payload
      case None => Unreadable
      case Some(p) => if Messages(errs) != [] then Invalid(Messages(errs)) else Valid(p)
    ensures var resp := SubmitResponse(outcome);
      && resp.contentType == JsonType
      && (resp.status == 500 <==> payload.None?)
      && (resp.status == 400 <==> payload.Some? && errs != [])
      && (resp.status == 201 <==> payload.Some? && errs == [])
      && (resp.status == 400 ==> resp.body == ErrorsJson(Messages(errs)[0], Messages(errs)))
  {
  }

  /** Only an accepted submission touches the log: a rejected one leaves it
      as it was, and an accepted one whose append succeeds adds exactly one
      record, holding the payload as received. */
  lemma SubmissionLog(req: Request, today: int, parseJson: string -> Option<Payload>,
                      parseForm: string -> Payload, log: seq<LogRecord>, now: string, appended: bool)
    ensures var outcome := SubmitOutcome(req, today, parseJson, parseForm);
      var after := LogAfter(log, outcome, now, appended);
      && (SubmitResponse(outcome).status != 201 ==> after == log)
      && (SubmitResponse(outcome).status == 201 && appended ==>
            var payload := SubmittedPayload(req, parseJson, parseForm);
            payload.Some? && after == log + [LogRecord(now, payload.value)])
      && (SubmitResponse(outcome).status == 201 && !appended ==> after == log)
  {
  }

  /** An empty JSON body is parsed as `{}`. */
  lemma EmptyJsonBody(req: Request, parseJson: string -> Option<Payload>, parseForm: string -> Payload)
    requires Includes(req.contentType, "application/json") && req.body == Received([])
    ensures SubmittedPayload(req, parseJson, parseForm) == parseJson("{}")
  {
  }

  /** A form body that arrives is always read, so it is answered with 201
      or 400, never 500. */
  lemma FormBodyAnswered(req: Request, today: int, parseJson: string -> Option<Payload>,
                         parseForm: string -> Payload)
    requires !Includes(req.contentType, "application/json") && req.body.Received?
    ensures SubmitResponse(SubmitOutcome(req, today, parseJson, parseForm)).status in {201, 400}
  {
  }

  /** Methods other than GET and HEAD are refused with 405, POST included
      on every path but the reservation API. */
  lemma MethodNotAllowed(root: string, req: Request, readFile: string -> ReadResult)
    requires IsAbsolute(root)
    requires req.verb != "GET" && req.verb != "HEAD"
    ensures StaticResponse(root, req, readFile) == SendJson(405, ErrorJson("Method not allowed."))
  {
  }

  /** HEAD is answered as GET is, with the same status and content type,
      but without the file's bytes. */
  lemma HeadLikeGet(root: string, req: Request, readFile: string -> ReadResult)
    requires IsAbsolute(root)
    ensures var get := StaticResponse(root, req.(verb := "GET"), readFile);
      var head := StaticResponse(root, req.(verb := "HEAD"), readFile);
      && head.status == get.status && head.contentType == get.contentType
      && (get.status == 200 ==> get.body.FileBody? && head.body == NoBody)
      && (get.status != 200 ==> head.body == get.body)
  {
  }

  /** The statuses of the static file server, and what each says about the
      requested path. */
  lemma StaticStatuses(root: string, req: Request, readFile: string -> ReadResult)
    requires IsAbsolute(root)
    ensures var resp := StaticResponse(root, req, readFile);
      var target := GetSafeFilePath(root, req.decodedPath);
      var getOrHead := req.verb == "GET" || req.verb == "HEAD";
      && resp.status in {200, 400, 404, 405, 500}
      && (resp.status == 405 <==> !getOrHead)
      && (resp.status == 400 <==> getOrHead && target.None?)
      && (resp.status == 404 <==> getOrHead && target.Some? && readFile(target.value) == NoEntry)
      && (resp.status == 200 <==> getOrHead && target.Some? && readFile(target.value).Contents?)
      && (resp.status == 200 ==>
            resp.contentType == ContentTypeFor(target.value) && StartsWith(target.value, root))
  {
    SafeFilePath(root, req.decodedPath);
  }

  /** `index.html` is served as HTML, in any directory. */
  lemma IndexIsHtml(rootNames: seq<string>)
    requires AllNames(rootNames)
    ensures ContentTypeFor(PathOf(rootNames + ["index.html"], false)) == "text/html; charset=utf-8"
  {
    var dir := if rootNames == [] then "" else PathOf(rootNames, false);
    IndexPath(rootNames);
    ContentTypeOfFile(dir, "index", ".html");
    HtmlEntry();
  }

  /** The path of `index.html` in a directory, as directory, stem and
      extension. */
  lemma IndexPath(rootNames: seq<string>)
    requires AllNames(rootNames)
    ensures var dir := if rootNames == [] then "" else PathOf(rootNames, false);
      PathOf(rootNames + ["index.html"], false) == dir + "/" + "index" + ".html"
  {
    if rootNames != [] {
      AppendUnder(rootNames, ["index.html"]);
    } else {
      assert rootNames + ["index.html"] == ["index.html"];
    }
  }

  /** The table's entry for `.html`, already in lower case. */
  lemma HtmlEntry()
    ensures ToLowerAscii(".html") == ".html"
    ensures ".html" in MimeTypes && MimeTypes[".html"] == "text/html; charset=utf-8"
  {
  }

  /** `/` is answered with the root directory's `index.html`, as HTML. */
  lemma IndexServed(rootNames: seq<string>, req: Request, readFile: string -> ReadResult, data: seq<bv8>)
    requires AllNames(rootNames)
    requires req.verb == "GET" && req.decodedPath == "/"
    requires readFile(PathOf(rootNames + ["index.html"], false)) == Contents(data)
    ensures StaticResponse(PathOf(rootNames, false), req, readFile)
      == Response(200, "text/html; charset=utf-8", FileBody(data))
  {
    IndexForSlash(rootNames);
    IndexIsHtml(rootNames);
  }

  /** A request that climbs out of the root directory, such as `/..%2F`
      whose pathname decodes to `/../`, is answered 400. */
  lemma ParentPathRefused(rootNames: seq<string>, req: Request, readFile: string -> ReadResult)
    requires rootNames != [] && AllNames(rootNames)
    requires req.verb == "GET" && req.decodedPath == "/../"
    ensures StaticResponse(PathOf(rootNames, false), req, readFile)
      == SendJson(400, ErrorJson("Invalid path."))
  {
    ParentDirRefused(rootNames);
  }
}
