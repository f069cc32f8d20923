/** The document-translation web service: the MIME type for an upload, the
    cache of translator instances, the status-and-error mapping of the
    translate, status, download and text endpoints, and the status poll of
    the DeepL translator. Every exchange with the translation service is an
    input: what it answered, or how the request failed. */
module TranslationApi {
  import opened Wrappers
  import opened Text

  // ---------------------------------------------------------------------
  // MIME types

  const OctetStream := "application/octet-stream"

  /** `filename.lower().split('.')[-1]`. */
  function LastDotPart(filename: string): string {
    var parts := Split(Lower(filename), '.');
    parts[|parts| - 1]
  }

  /** `_get_mime_type`. */
  function MimeType(filename: string): string {
    var ext := LastDotPart(filename);
    if ext == "pdf" then "application/pdf"
    else if ext == "docx" then "application/vnd.openxmlformats-officedocument.wordprocessingml.document"
    else if ext == "pptx" then "application/vnd.openxmlformats-officedocument.presentationml.presentation"
    else if ext == "txt" then "text/plain"
    else OctetStream
  }

  /** The part after the last dot is the lower-cased extension, whatever the
      name before it. */
  lemma LastDotPartOf(stem: string, ext: string)
    requires '.' !in ext
    ensures LastDotPart(stem + "." + ext) == Lower(ext)
  {
    var parts := Split(Lower(stem), '.');
    SplitJoin(Lower(stem), '.');
    assert '.' !in Lower(ext) by {
      forall k | 0 <= k < |ext| ensures Lower(ext)[k] != '.' {
        assert ext[k] in ext;
      }
    }
    JoinAppend(parts, Lower(ext), ".");
    assert Lower(stem + "." + ext) == Lower(stem) + "." + Lower(ext);
    JoinSplit(parts + [Lower(ext)], '.');
  }

  /** A name without a dot is looked up whole, lower-cased. */
  lemma DotlessLookedUpWhole(filename: string)
    requires '.' !in filename
    ensures LastDotPart(filename) == Lower(filename)
  {
    assert '.' !in Lower(filename) by {
      forall k | 0 <= k < |filename| ensures Lower(filename)[k] != '.' {
        assert filename[k] in filename;
      }
    }
    SplitNoSeparator(Lower(filename), '.');
  }

  /** A known extension, in any case, gives its type, and any other extension
      an octet stream. */
  lemma MimeTypes(stem: string, ext: string)
    requires '.' !in ext
    ensures Lower(ext) == "pdf" ==> MimeType(stem + "." + ext) == "application/pdf"
    ensures Lower(ext) == "txt" ==> MimeType(stem + "." + ext) == "text/plain"
    ensures Lower(ext) !in {"pdf", "docx", "pptx", "txt"} ==> MimeType(stem + "." + ext) == OctetStream
  {
    LastDotPartOf(stem, ext);
  }

  // ---------------------------------------------------------------------
  // Translator instances

  datatype TranslatorType = DeepL | Google

  /** A translator as the service sees it: its kind and whether its
      configuration was complete when it was created. */
  datatype Translator = Translator(kind: TranslatorType, available: bool)

  /** The configuration a new instance reads: the DeepL key; the Google
      client library, key and project, and whether building the Google
      credentials from them raises (an error other than `ImportError`, which
      the constructor does not catch). */
  datatype Environment = Environment(
    deeplKey: Option<string>,
    googleLibrary: bool,
    googleKey: Option<string>,
    googleProject: Option<string>,
    googleClientRaises: bool)

  predicate Configured(s: Option<string>) {
    s.Some? && s.value != []
  }

  /** `GoogleTranslator.is_available`: the library loaded, key and project set. */
  predicate GoogleReady(env: Environment) {
    env.googleLibrary && Configured(env.googleKey) && Configured(env.googleProject)
  }

  /** A new instance of a kind under an environment, or none when its
      constructor raises: the DeepL constructor never does, the Google one
      does exactly when it is ready and the client set-up raises. */
  function Create(t: TranslatorType, env: Environment): (r: Option<Translator>)
    ensures r.Some? ==> r.value.kind == t
    ensures t == DeepL ==> r.Some? && (r.value.available <==> Configured(env.deeplKey))
    ensures t == Google ==> (r.None? <==> GoogleReady(env) && env.googleClientRaises)
    ensures t == Google && r.Some? ==> (r.value.available <==> GoogleReady(env))
  {
    match t
    case DeepL => Some(Translator(DeepL, Configured(env.deeplKey)))
    case Google =>
      if GoogleReady(env) && env.googleClientRaises then None
      else Some(Translator(Google, GoogleReady(env)))
  }

  /** Why `get_translator` gives no instance: its constructor raised, or the
      instance is not available (`ValueError`). */
  datatype FactoryError = ConstructorRaised(kind: TranslatorType) | Unavailable(kind: TranslatorType)

  /** `TranslatorFactory`: one instance per kind, made on first request. */
  class TranslatorFactory {
    var instances: map<TranslatorType, Translator>

    /** Each stored instance is of the kind it is stored under. */
    predicate Valid()
      reads this
    {
      forall k :: k in instances ==> instances[k].kind == k
    }

    constructor ()
      ensures instances == map[] && Valid()
    {
      instances := map[];
    }

    /** get_translator: the cached instance, or a new one stored first; a
        constructor that raises stores nothing, and an unavailable instance
        raises `ValueError` and stays cached. */
    method GetTranslator(t: TranslatorType, env: Environment) returns (r: Result<Translator, FactoryError>)
      requires Valid()
      modifies this
      ensures Valid()
      ensures t in old(instances) ==> instances == old(instances)
      ensures t !in old(instances) && Create(t, env).None? ==>
        instances == old(instances) && r == Err(ConstructorRaised(t))
      ensures t !in old(instances) && Create(t, env).Some? ==>
        instances == old(instances)[t := Create(t, env).value]
      ensures r.Ok? <==> t in instances && instances[t].available
      ensures r.Ok? ==> r.value == instances[t] && r.value.kind == t
      ensures t in instances && !instances[t].available ==> r == Err(Unavailable(t))
    {
      if t !in instances {
        var created := Create(t, env);
        if created.None? {
          return Err(ConstructorRaised(t));
        }
        instances := instances[t := created.value];
      }
      var translator := instances[t];
      if !translator.available {
        return Err(Unavailable(t));
      }
      r := Ok(translator);
    }
  }

  // ---------------------------------------------------------------------
  // Endpoint outcomes

  /** A JSON object as far as the endpoints read it. */
  datatype Json = Json(fields: map<string, string>)

  /** An answer of the translation service: its status, its body when that
      parses as JSON, and its raw content. */
  datatype Reply = Reply(status: int, body: Option<Json>, content: seq<bv8>)

  /** One request to the translation service. */
  datatype Exchange = Answered(reply: Reply) | ReadTimeout | RequestFailed

  /** `dict.get(key, default)`. */
  function Get(j: Json, key: string, default: string): string {
    if key in j.fields then j.fields[key] else default
  }

  /** An HTTP error the service returns: with a `{code, message}` detail, or
      with the text of the exception that caused it, which is not modelled. */
  datatype HttpError = Coded(status: int, code: string, message: string) | Uncoded(status: int) {
    function Status(): int {
      match this
      case Coded(s, _, _) => s
      case Uncoded(s) => s
    }
  }

  const MaxFileSize: nat := 30 * 1024 * 1024

  /** What a successful upload returns. */
  datatype DocumentHandle = DocumentHandle(documentId: string, documentKey: string)

  const InternalError := Coded(500, "INTERNAL_ERROR", "An unexpected error occurred")

  /** /api/translate: the size check, the key check, then the upload. A body
      that does not parse or lacks either field raises inside the handler and
      is reported as an internal error. */
  function TranslateDocument(size: nat, apiKey: Option<string>, upload: Exchange): Result<DocumentHandle, HttpError> {
    if size > MaxFileSize then Err(Coded(413, "FILE_TOO_LARGE", "File size exceeds limit of 30.0MB"))
    else if !Configured(apiKey) then Err(Coded(500, "API_KEY_MISSING", "DeepL API key not configured"))
    else match upload
      case ReadTimeout => Err(Coded(504, "TIMEOUT", "Translation service request timed out"))
      case RequestFailed => Err(Coded(502, "REQUEST_FAILED", "Failed to connect to translation service"))
      case Answered(reply) =>
        if reply.body.None? then Err(InternalError)
        else if reply.status != 200 then
          Err(Coded(reply.status, "DEEPL_API_ERROR", Get(reply.body.value, "message", "Translation service error")))
        else if "document_id" !in reply.body.value.fields || "document_key" !in reply.body.value.fields then Err(InternalError)
        else Ok(DocumentHandle(reply.body.value.fields["document_id"], reply.body.value.fields["document_key"]))
  }

  /** A file over 30 MiB is refused with 413 whatever the service would
      answer, so the upload is never made; a missing key likewise gives 500. */
  lemma TooLargeBeforeUpload(size: nat, apiKey: Option<string>, u1: Exchange, u2: Exchange)
    ensures size > MaxFileSize ==>
      TranslateDocument(size, apiKey, u1) == TranslateDocument(size, apiKey, u2)
      && TranslateDocument(size, apiKey, u1) == Err(Coded(413, "FILE_TOO_LARGE", "File size exceeds limit of 30.0MB"))
    ensures size <= MaxFileSize && !Configured(apiKey) ==>
      TranslateDocument(size, apiKey, u1) == TranslateDocument(size, apiKey, u2)
      && TranslateDocument(size, apiKey, u1).error.code == "API_KEY_MISSING"
  {
  }

  /** An upstream refusal keeps its status code under DEEPL_API_ERROR, and a
      success returns exactly the two fields of the upstream answer. */
  lemma TranslateDocumentShapes(size: nat, apiKey: Option<string>, reply: Reply)
    requires size <= MaxFileSize && Configured(apiKey) && reply.body.Some?
    ensures reply.status != 200 ==>
      TranslateDocument(size, apiKey, Answered(reply)).Err?
      && TranslateDocument(size, apiKey, Answered(reply)).error.Status() == reply.status
      && TranslateDocument(size, apiKey, Answered(reply)).error.code == "DEEPL_API_ERROR"
    ensures TranslateDocument(size, apiKey, Answered(reply)).Ok? ==>
      var h := TranslateDocument(size, apiKey, Answered(reply)).value;
      reply.status == 200 && reply.body.value.fields["document_id"] == h.documentId
      && reply.body.value.fields["document_key"] == h.documentKey
  {
  }

  /** /api/translate/{id}/status: every failure, an upstream refusal
      included, is caught and reported as 500. */
  function CheckStatus(poll: Exchange): Result<Json, HttpError> {
    match poll
    case Answered(reply) =>
      if reply.status != 200 || reply.body.None? then Err(Uncoded(500)) else Ok(reply.body.value)
    case _ => Err(Uncoded(500))
  }

  lemma CheckStatusFailures(poll: Exchange)
    ensures CheckStatus(poll).Err? ==> CheckStatus(poll).error == Uncoded(500)
    ensures CheckStatus(poll).Ok? <==> poll.Answered? && poll.reply.status == 200 && poll.reply.body.Some?
  {
  }

  const LimitPhrase := "Character limit reached"
  const LimitReached := Coded(429, "CHARACTER_LIMIT_REACHED", "Monthly character limit reached. Please contact administrator.")

  /** The refusal of the download and text endpoints: the character limit is
      429; any other refusal, and a body that does not parse, are caught by
      the generic handler and become 500. */
  function Refusal(reply: Reply): HttpError {
    if reply.body.Some? && Contains(Get(reply.body.value, "message", ""), LimitPhrase) then LimitReached
    else Uncoded(500)
  }

  /** /api/translate/{id}/download. */
  function DownloadDocument(download: Exchange): Result<seq<bv8>, HttpError> {
    match download
    case Answered(reply) => if reply.status == 200 then Ok(reply.content) else Err(Refusal(reply))
    case _ => Err(Uncoded(500))
  }

  /** /api/translate/text: a missing key, like every failure but the
      character limit, ends as 500. */
  function TranslateText(apiKey: Option<string>, request: Exchange): Result<Json, HttpError> {
    if !Configured(apiKey) then Err(Uncoded(500))
    else match request
      case Answered(reply) =>
        if reply.status != 200 then Err(Refusal(reply))
        else if reply.body.None? then Err(Uncoded(500))
        else Ok(reply.body.value)
      case _ => Err(Uncoded(500))
  }

  /** The download and text endpoints fail with 429 exactly when the service
      refused with the character-limit message, and otherwise only with 500. */
  lemma LimitOr500(apiKey: Option<string>, e: Exchange)
    ensures DownloadDocument(e).Err? ==>
      (DownloadDocument(e).error == LimitReached <==>
        e.Answered? && e.reply.status != 200 && e.reply.body.Some? && Contains(Get(e.reply.body.value, "message", ""), LimitPhrase))
    ensures DownloadDocument(e).Err? && DownloadDocument(e).error != LimitReached ==> DownloadDocument(e).error == Uncoded(500)
    ensures TranslateText(apiKey, e).Err? && TranslateText(apiKey, e).error != LimitReached ==> TranslateText(apiKey, e).error == Uncoded(500)
    ensures Configured(apiKey) && e.Answered? && e.reply.status != 200 ==> TranslateText(apiKey, e) == DownloadDocument(e).PropagateFailure()
  {
  }

  // ---------------------------------------------------------------------
  // The status poll of the DeepL translator

  /** The `message` of a status answer: no such key, JSON `null`, or a text. */
  datatype PollMessage = NoMessage | NullMessage | Message(text: string)

  /** One exchange of the poll. A JSON answer gives its `status` (a value
      that is not a string compares unequal to every status, as an unknown
      text does) and its `message`. A body that is not JSON or has no
      `status` key makes the lookup raise, and a request that fails raises
      `httpx.HTTPError`; `detail` is the text of the exception raised. The
      status code is never looked at. */
  datatype PollAnswer =
    | StatusAnswer(status: string, message: PollMessage)
    | Unreadable(detail: string)
    | RequestFailed(detail: string)

  /** Where the poll stands after the answers given: done after so many polls,
      failed with the message of the `ValueError` the translator raises, or
      still waiting. */
  datatype PollResult = Done(polls: nat) | Failed(message: string) | Waiting

  predicate IsDone(a: PollAnswer) {
    a.StatusAnswer? && a.status == "done"
  }

  /** An answer that ends the loop: "done", "error", or one that raises. */
  predicate Decisive(a: PollAnswer) {
    !a.StatusAnswer? || a.status == "done" || a.status == "error"
  }

  /** `f"{error_msg}"` of `.get("message", "Unknown error")`: JSON `null` is
      Python's None, which formats as "None". */
  function MessageText(m: PollMessage): string {
    match m
    case NoMessage => "Unknown error"
    case NullMessage => "None"
    case Message(t) => t
  }

  /** The message of the `ValueError` a failing answer ends the call with:
      an "error" status raises "Translation failed: ...", which the generic
      handler rewraps as "Translation error: ..."; a failed lookup goes
      straight to that handler; a failed request to the HTTP-error handler. */
  function PollFailure(a: PollAnswer): string {
    match a
    case StatusAnswer(_, m) => "Translation error: Translation failed: " + MessageText(m)
    case Unreadable(d) => "Translation error: " + d
    case RequestFailed(d) => "HTTP error during translation: " + d
  }

  /** The poll's outcome over a sequence of answers. */
  function PollOutcome(answers: seq<PollAnswer>): PollResult
    decreases |answers|
  {
    if answers == [] then Waiting
    else if IsDone(answers[0]) then Done(1)
    else if Decisive(answers[0]) then Failed(PollFailure(answers[0]))
    else match PollOutcome(answers[1..])
      case Done(n) => Done(n + 1)
      case other => other
  }

  /** The status loop of `translate_document`: poll until an answer is "done"
      or "error", or reading one raises. */
  method Poll(answers: seq<PollAnswer>) returns (r: PollResult)
    ensures r == PollOutcome(answers)
  {
    var i := 0;
    while i < |answers|
      invariant 0 <= i <= |answers|
      invariant forall k :: 0 <= k < i ==> !Decisive(answers[k])
      invariant PollOutcome(answers) == Shifted(PollOutcome(answers[i..]), i)
    {
      match answers[i]
      case Unreadable(_) =>
        return Failed(PollFailure(answers[i]));
      case RequestFailed(_) =>
        return Failed(PollFailure(answers[i]));
      case StatusAnswer(status, _) =>
        if status == "done" {
          return Done(i + 1);
        } else if status == "error" {
          return Failed(PollFailure(answers[i]));
        }
      assert answers[i..][1..] == answers[i + 1..];
      i := i + 1;
    }
    return Waiting;
  }

  /** A later outcome seen from `n` answers earlier. */
  function Shifted(r: PollResult, n: nat): PollResult {
    match r
    case Done(k) => Done(k + n)
    case other => other
  }

  /** The poll ends only at its first decisive answer: "done" (then it
      downloads), or "error", an unreadable answer or a failed request (then
      it raises with that answer's message); with no such answer it is still
      waiting, however many answers there were. */
  lemma {:induction false} PollMeaning(answers: seq<PollAnswer>)
    ensures PollOutcome(answers).Done? ==>
      var n := PollOutcome(answers).polls;
      1 <= n <= |answers| && IsDone(answers[n - 1])
      && forall k :: 0 <= k < n - 1 ==> !Decisive(answers[k])
    ensures PollOutcome(answers).Failed? ==>
      exists n :: 0 <= n < |answers| && Decisive(answers[n]) && !IsDone(answers[n])
        && PollOutcome(answers).message == PollFailure(answers[n])
        && forall k :: 0 <= k < n ==> !Decisive(answers[k])
    ensures PollOutcome(answers) == Waiting <==> forall k :: 0 <= k < |answers| ==> !Decisive(answers[k])
    decreases |answers|
  {
    if answers != [] && !Decisive(answers[0]) {
      var tl := answers[1..];
      PollMeaning(tl);
      assert forall k :: 0 <= k < |tl| ==> tl[k] == answers[k + 1];
      if PollOutcome(tl).Failed? {
        var n :| 0 <= n < |tl| && Decisive(tl[n]) && !IsDone(tl[n])
          && PollOutcome(tl).message == PollFailure(tl[n])
          && forall k :: 0 <= k < n ==> !Decisive(tl[k]);
        assert answers[n + 1] == tl[n];
        assert forall k :: 0 <= k < n + 1 ==> !Decisive(answers[k]) by {
          forall k | 0 <= k < n + 1 ensures !Decisive(answers[k]) {
            if k > 0 { assert answers[k] == tl[k - 1]; }
          }
        }
      }
      if PollOutcome(tl) == Waiting {
        assert forall k :: 0 <= k < |answers| ==> !Decisive(answers[k]) by {
          forall k | 0 <= k < |answers| ensures !Decisive(answers[k]) {
            if k > 0 { assert answers[k] == tl[k - 1]; }
          }
        }
      }
      if PollOutcome(answers) == Waiting {
        assert PollOutcome(tl) == Waiting;
      }
    }
  }
}
