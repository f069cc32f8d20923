/** The document-translation page: the file check, the job that uploads a
    document, polls its status and downloads the result, and which controls
    are enabled. The three servers' answers are inputs; the status answers are
    given for every attempt, of which the job asks at most thirty. Timers are
    left to the caller: the reset to idle after a finished job is its own
    step. */
module App {
  import opened Wrappers
  import opened Text

  datatype Status = Idle | Uploading | Translating | Downloading | Completed | Error

  /** A picked file: its size in bytes, its MIME type and its name. */
  datatype File = File(size: nat, mimeType: string, name: string)

  const MaxSize: nat := 30 * 1024 * 1024
  const MaxRetries: nat := 30

  const PdfType := "application/pdf"
  const DocxType := "application/vnd.openxmlformats-officedocument.wordprocessingml.document"
  const PptxType := "application/vnd.openxmlformats-officedocument.presentationml.presentation"

  const TooLargeText := "File is too large. Maximum size is 30MB."
  const UnsupportedText := "Unsupported file type. Only PDF, DOCX, and PPTX files are supported."

  /** validateFile: the size is checked before the type. */
  function ValidateFile(f: File): (r: Option<string>)
    ensures f.size > MaxSize ==> r == Some(TooLargeText)
    ensures f.size <= MaxSize && f.mimeType !in [PdfType, DocxType, PptxType] ==> r == Some(UnsupportedText)
    ensures r.None? <==> f.size <= MaxSize && f.mimeType in [PdfType, DocxType, PptxType]
  {
    if f.size > MaxSize then Some(TooLargeText)
    else if f.mimeType !in [PdfType, DocxType, PptxType] then Some(UnsupportedText)
    else None
  }

  /** The file, language and text inputs are disabled while a job runs. */
  predicate InputsDisabled(s: Status) {
    s != Idle && s != Completed && s != Error
  }

  /** The translate button also needs a picked file. */
  predicate ButtonDisabled(file: Option<File>, s: Status) {
    file.None? || InputsDisabled(s)
  }

  lemma ControlsWhileRunning(file: Option<File>, s: Status)
    ensures InputsDisabled(s) <==> s in {Uploading, Translating, Downloading}
    ensures !ButtonDisabled(file, s) <==> file.Some? && s in {Idle, Completed, Error}
  {
  }

  /** A message shown to the user: a locale key looked up by `t`, or text. */
  datatype Message = Key(key: string) | Raw(text: string)

  /** The `detail` member of an error body: missing, a string, or an object
      with a `message` member (the empty string when missing). */
  datatype Detail = NoDetail | DetailText(s: string) | DetailObject(message: string)

  /** A response body: not JSON (with the parser's error text), or JSON with
      the members the page reads. */
  datatype Body = Unparsable(error: string) | Json(detail: Detail, status: Option<string>, message: Option<string>)

  /** What `fetch` yields: a rejection (an error's name and message), or a
      response with its `ok` flag, status code, body and blob size. */
  datatype Response = Rejected(name: string, message: string) | Reply(ok: bool, code: nat, body: Body, blobSize: nat)

  /** The message of a thrown error; an abort maps to the upload timeout. */
  function Thrown(name: string, message: string): (m: Message)
    ensures name == "AbortError" <==> m == Key("error.uploadTimeout")
    ensures name != "AbortError" ==> m == Raw(message)
  {
    if name == "AbortError" then Key("error.uploadTimeout") else Raw(message)
  }

  /** `detail?.message || detail`, as the message of `new Error(...)`; none
      when it is falsy. */
  function DetailMessage(d: Detail): (r: Option<Message>)
    ensures r.None? <==> d == NoDetail || d == DetailText("")
    ensures d.DetailText? && d.s != [] ==> r == Some(Raw(d.s))
    ensures d.DetailObject? ==> r == Some(Raw(if d.message != [] then d.message else "[object Object]"))
  {
    match d
    case NoDetail => None
    case DetailText(s) => if s == [] then None else Some(Raw(s))
    case DetailObject(m) => if m != [] then Some(Raw(m)) else Some(Raw("[object Object]"))
  }

  /** The error of a failed status or download response: the parse error, or
      the detail, or the fallback text. */
  function FailedReply(body: Body, fallback: string): (m: Message)
    ensures body.Unparsable? ==> m == Raw(body.error)
    ensures body.Json? ==> m == (if DetailMessage(body.detail).Some? then DetailMessage(body.detail).value else Raw(fallback))
  {
    match body
    case Unparsable(e) => Raw(e)
    case Json(d, _, _) => DetailMessage(d).GetOr(Raw(fallback))
  }

  /** The upload: the error it ends the job with, or none when the job goes on. */
  function UploadStep(r: Response): (e: Option<Message>)
    ensures r.Rejected? ==> e == Some(Thrown(r.name, r.message))
    ensures r.Reply? && !r.ok && r.body.Unparsable? && r.code == 413 ==> e == Some(Key("error.fileTooLarge"))
    ensures r.Reply? && !r.ok && r.body.Unparsable? && r.code != 413 ==>
      e == Some(Raw("Upload failed (" + NatToString(r.code) + ")"))
    ensures r.Reply? && !r.ok && r.body.Json? ==> e == Some(FailedReply(r.body, "Upload failed"))
    ensures r.Reply? && r.ok && r.body.Unparsable? ==> e == Some(Raw(r.body.error))
    ensures e.None? <==> r.Reply? && r.ok && r.body.Json?
  {
    match r
    case Rejected(name, message) => Some(Thrown(name, message))
    case Reply(ok, code, body, _) =>
      if !ok then
        match body
        case Unparsable(_) =>
          Some(if code == 413 then Key("error.fileTooLarge") else Raw("Upload failed (" + NatToString(code) + ")"))
        case Json(d, _, _) => Some(DetailMessage(d).GetOr(Raw("Upload failed")))
      else if body.Unparsable? then Some(Raw(body.error))
      else None
  }

  /** What one status answer does to the loop. */
  datatype Step = Continue | Done | Throw(message: Message)

  function StatusStep(r: Response): (s: Step)
    ensures s == Done <==> r.Reply? && r.ok && r.body.Json? && r.body.status == Some("done")
    ensures r.Reply? && r.ok && r.body.Json? && r.body.status == Some("error") ==>
      s == Throw(if r.body.message.Some? && r.body.message.value != [] then Raw(r.body.message.value)
                 else Raw("Translation failed"))
    ensures s == Continue <==>
      r.Reply? && r.ok && r.body.Json? && r.body.status != Some("done") && r.body.status != Some("error")
    ensures r.Rejected? ==> s == Throw(Thrown(r.name, r.message))
    ensures r.Reply? && !r.ok ==> s == Throw(FailedReply(r.body, "Status check failed"))
    ensures r.Reply? && r.ok && r.body.Unparsable? ==> s == Throw(Raw(r.body.error))
  {
    match r
    case Rejected(name, message) => Throw(Thrown(name, message))
    case Reply(ok, _, body, _) =>
      if !ok then Throw(FailedReply(body, "Status check failed"))
      else
        match body
        case Unparsable(e) => Throw(Raw(e))
        case Json(_, status, message) =>
          if status == Some("done") then Done
          else if status == Some("error") then
            Throw(if message.Some? && message.value != [] then Raw(message.value) else Raw("Translation failed"))
          else Continue
  }

  /** How the polling ends: done or failed after some requests, or out of
      attempts. */
  datatype PollEnd = PolledDone(requests: nat) | PollFailed(requests: nat, message: Message) | PollTimedOut

  /** The polling from attempt k on. */
  function PollFrom(replies: nat -> Response, k: nat): PollEnd
    decreases MaxRetries - k
  {
    if k >= MaxRetries then PollTimedOut
    else
      match StatusStep(replies(k))
      case Continue => PollFrom(replies, k + 1)
      case Done => PolledDone(k + 1)
      case Throw(m) => PollFailed(k + 1, m)
  }

  /** The polling stops at the first answer that is not `Continue`, after that
      many requests, and times out only when all thirty continue. */
  lemma {:induction false} PollBounds(replies: nat -> Response, k: nat)
    requires k <= MaxRetries
    ensures PollFrom(replies, k).PolledDone? ==>
      (var n := PollFrom(replies, k).requests;
       k < n <= MaxRetries && StatusStep(replies(n - 1)) == Done
       && forall j :: k <= j < n - 1 ==> StatusStep(replies(j)) == Continue)
    ensures PollFrom(replies, k).PollFailed? ==>
      (var n := PollFrom(replies, k).requests;
       k < n <= MaxRetries && StatusStep(replies(n - 1)) == Throw(PollFrom(replies, k).message)
       && forall j :: k <= j < n - 1 ==> StatusStep(replies(j)) == Continue)
    ensures PollFrom(replies, k) == PollTimedOut <==> forall j :: k <= j < MaxRetries ==> StatusStep(replies(j)) == Continue
    decreases MaxRetries - k
  {
    if k < MaxRetries && StatusStep(replies(k)) == Continue {
      PollBounds(replies, k + 1);
    }
  }

  /** The download: the error it ends the job with, or none when the file is
      saved. An empty file is an error. */
  function DownloadStep(r: Response): (e: Option<Message>)
    ensures r.Reply? && r.ok && r.blobSize == 0 ==> e == Some(Key("error.emptyFile"))
    ensures r.Rejected? ==> e == Some(Thrown(r.name, r.message))
    ensures r.Reply? && !r.ok ==> e == Some(FailedReply(r.body, "Download failed"))
    ensures e.None? <==> r.Reply? && r.ok && r.blobSize > 0
  {
    match r
    case Rejected(name, message) => Some(Thrown(name, message))
    case Reply(ok, _, body, size) =>
      if !ok then Some(FailedReply(body, "Download failed"))
      else if size == 0 then Some(Key("error.emptyFile"))
      else None
  }

  /** A request the page sends. */
  datatype Request = UploadRequest(fileName: string, targetLang: string) | StatusRequest | DownloadRequest

  function StatusRequests(n: nat): (r: seq<Request>)
    ensures |r| == n && forall i :: 0 <= i < n ==> r[i] == StatusRequest
  {
    if n == 0 then [] else StatusRequests(n - 1) + [StatusRequest]
  }

  /** The number of status requests in a log. */
  function Polls(rs: seq<Request>): nat {
    if rs == [] then 0 else Polls(rs[..|rs| - 1]) + (if rs[|rs| - 1] == StatusRequest then 1 else 0)
  }

  lemma {:induction false} PollsAppend(a: seq<Request>, b: seq<Request>)
    ensures Polls(a + b) == Polls(a) + Polls(b)
    decreases |b|
  {
    if b == [] {
      assert a + b == a;
    } else {
      assert a + b == (a + b[..|b| - 1]) + [b[|b| - 1]];
      assert (a + b)[..|a + b| - 1] == a + b[..|b| - 1];
      PollsAppend(a, b[..|b| - 1]);
    }
  }

  lemma {:induction false} PollsOfStatusRequests(n: nat)
    ensures Polls(StatusRequests(n)) == n
  {
    if n > 0 {
      var p := StatusRequests(n - 1);
      assert StatusRequests(n) == p + [StatusRequest];
      assert (p + [StatusRequest])[..n - 1] == p;
      PollsOfStatusRequests(n - 1);
    }
  }

  /** The number of status requests a polling sent. */
  function PollRequests(e: PollEnd): nat {
    match e
    case PolledDone(n) => n
    case PollFailed(n, _) => n
    case PollTimedOut => MaxRetries
  }

  /** The download request that follows a finished polling. */
  function DownloadRequests(e: PollEnd): seq<Request> {
    if e.PolledDone? then [DownloadRequest] else []
  }

  /** The log of one upload followed by n status requests, and by the
      download, holds n status requests. */
  lemma PollsOfLog(file: string, target: string, n: nat)
    ensures Polls([UploadRequest(file, target)] + StatusRequests(n)) == n
    ensures Polls([UploadRequest(file, target)] + StatusRequests(n) + [DownloadRequest]) == n
  {
    var up := [UploadRequest(file, target)];
    assert Polls(up) == 0 by {
      assert up[..0] == [];
    }
    assert Polls([DownloadRequest]) == 0 by {
      assert [DownloadRequest][..0] == [];
    }
    PollsAppend(up, StatusRequests(n));
    PollsOfStatusRequests(n);
    PollsAppend(up + StatusRequests(n), [DownloadRequest]);
  }

  /** One run of handleTranslate: the statuses it sets in order, the requests
      it sends, the message it leaves, and whether it saved the result. */
  datatype Run = Run(statuses: seq<Status>, requests: seq<Request>, message: Message, saved: bool)

  function Job(f: File, target: string, upload: Response, replies: nat -> Response, download: Response): Run {
    if f.size > MaxSize then Run([Error], [], Key("error.fileTooLarge"), false)
    else
      match UploadStep(upload)
      case Some(m) => Run([Uploading, Error], [UploadRequest(f.name, target)], m, false)
      case None =>
        var rest := AfterUpload(PollFrom(replies, 0), download);
        Run([Uploading] + rest.statuses, [UploadRequest(f.name, target)] + rest.requests, rest.message, rest.saved)
  }

  /** The run once the upload succeeded, given how the polling ended. */
  function AfterUpload(e: PollEnd, download: Response): (r: Run)
    ensures |r.statuses| >= 2 && r.statuses[0] == Translating
    ensures r.requests == StatusRequests(PollRequests(e)) + DownloadRequests(e)
    ensures e.PollFailed? ==> r.statuses == [Translating, Error] && r.message == e.message && !r.saved
    ensures e == PollTimedOut ==> r.statuses == [Translating, Error] && r.message == Key("error.timeout") && !r.saved
    ensures e.PolledDone? ==> r.statuses[1] == Downloading
    ensures e.PolledDone? && DownloadStep(download).Some? ==>
      r.statuses == [Translating, Downloading, Error] && r.message == DownloadStep(download).value && !r.saved
    ensures e.PolledDone? && DownloadStep(download).None? ==>
      r.statuses == [Translating, Downloading, Completed] && r.saved
  {
    var rs := StatusRequests(PollRequests(e));
    match e
    case PollFailed(_, m) => Run([Translating, Error], rs, m, false)
    case PollTimedOut => Run([Translating, Error], rs, Key("error.timeout"), false)
    case PolledDone(_) =>
      match DownloadStep(download)
      case Some(m) => Run([Translating, Downloading, Error], rs + [DownloadRequest], m, false)
      case None => Run([Translating, Downloading, Completed], rs + [DownloadRequest], Raw(""), true)
  }

  /** After the upload: at most thirty status requests, then the download
      when the polling finished; the result is saved exactly when the job
      completes, after downloading; every other run ends in error. */
  lemma AfterUploadShape(file: string, target: string, e: PollEnd, download: Response)
    requires PollRequests(e) <= MaxRetries
    ensures var r := AfterUpload(e, download);
      Polls([UploadRequest(file, target)] + r.requests) == PollRequests(e)
      && (r.saved <==> r.statuses[|r.statuses| - 1] == Completed)
      && (r.saved ==> r.statuses == [Translating, Downloading, Completed] && DownloadRequest in r.requests)
      && (!r.saved ==> r.statuses[|r.statuses| - 1] == Error && Completed !in r.statuses)
      && (e.PolledDone? && download.Reply? && download.ok && download.blobSize == 0 ==> r.message == Key("error.emptyFile") && !r.saved)
      && (e == PollTimedOut ==> r.message == Key("error.timeout"))
      && (e.PollFailed? ==> r.message == e.message && r.statuses == [Translating, Error])
      && (e.PolledDone? ==> r.statuses[1] == Downloading && r.requests[|r.requests| - 1] == DownloadRequest)
  {
    var r := AfterUpload(e, download);
    PollsOfLog(file, target, PollRequests(e));
    var up := [UploadRequest(file, target)];
    if e.PolledDone? {
      assert up + r.requests == up + StatusRequests(PollRequests(e)) + [DownloadRequest];
    }
  }

  /** The properties of a run: a file over the limit is refused before any
      request; at most thirty status requests are sent; the result is saved
      exactly when the job completes, after downloading; every other run ends
      in error. */
  lemma JobShape(f: File, target: string, upload: Response, replies: nat -> Response, download: Response)
    ensures var j := Job(f, target, upload, replies, download);
      |j.statuses| > 0
      && (f.size > MaxSize ==> j.requests == [] && j.statuses == [Error] && j.message == Key("error.fileTooLarge"))
      && Polls(j.requests) <= MaxRetries
      && (j.saved <==> j.statuses[|j.statuses| - 1] == Completed)
      && (j.saved ==> j.statuses == [Uploading, Translating, Downloading, Completed] && DownloadRequest in j.requests)
      && (!j.saved ==> j.statuses[|j.statuses| - 1] == Error && Completed !in j.statuses)
  {
    var j := Job(f, target, upload, replies, download);
    var up := [UploadRequest(f.name, target)];
    var u := UploadStep(upload);
    if f.size > MaxSize {
      assert j == Run([Error], [], Key("error.fileTooLarge"), false);
    } else if u.Some? {
      assert j == Run([Uploading, Error], up, u.value, false);
      assert Polls(up) == 0 by {
        assert up[..0] == [];
      }
    } else {
      PollBounds(replies, 0);
      var r := AfterUpload(PollFrom(replies, 0), download);
      assert j == Run([Uploading] + r.statuses, up + r.requests, r.message, r.saved);
      UploadedShape(f.name, target, PollFrom(replies, 0), download);
    }
  }

  /** The run of an accepted upload, the upload status put in front. */
  lemma UploadedShape(file: string, target: string, e: PollEnd, download: Response)
    requires PollRequests(e) <= MaxRetries
    ensures var r := AfterUpload(e, download);
      var j := Run([Uploading] + r.statuses, [UploadRequest(file, target)] + r.requests, r.message, r.saved);
      |j.statuses| > 0
      && Polls(j.requests) <= MaxRetries
      && (j.saved <==> j.statuses[|j.statuses| - 1] == Completed)
      && (j.saved ==> j.statuses == [Uploading, Translating, Downloading, Completed] && DownloadRequest in j.requests)
      && (!j.saved ==> j.statuses[|j.statuses| - 1] == Error && Completed !in j.statuses)
  {
    var r := AfterUpload(e, download);
    AfterUploadShape(file, target, e, download);
    var ss := [Uploading] + r.statuses;
    assert ss[|ss| - 1] == r.statuses[|r.statuses| - 1];
    assert Completed in ss <==> Completed in r.statuses;
  }

  /** Thirty answers that neither finish nor fail time the job out after
      thirty requests; an abort of the upload gives the upload-timeout
      message, after the upload alone; an empty download gives the
      empty-file message. */
  lemma JobFailures(f: File, target: string, upload: Response, replies: nat -> Response, download: Response)
    requires f.size <= MaxSize
    ensures var j := Job(f, target, upload, replies, download);
      (upload.Rejected? && upload.name == "AbortError" ==> j.message == Key("error.uploadTimeout") && j.requests == [UploadRequest(f.name, target)])
      && (UploadStep(upload).None? && (forall k :: 0 <= k < MaxRetries ==> StatusStep(replies(k)) == Continue) ==>
            j.message == Key("error.timeout") && Polls(j.requests) == MaxRetries)
      && (UploadStep(upload).None? && PollFrom(replies, 0).PolledDone? && download.Reply? && download.ok && download.blobSize == 0 ==>
            j.message == Key("error.emptyFile") && !j.saved)
  {
    PollBounds(replies, 0);
    if UploadStep(upload).None? {
      AfterUploadShape(f.name, target, PollFrom(replies, 0), download);
    }
  }

  /** Attempt k of the polling, given what its answer does. */
  lemma PollFromAt(replies: nat -> Response, k: nat, step: Step)
    requires k < MaxRetries && step == StatusStep(replies(k))
    ensures step.Throw? ==> PollFrom(replies, k) == PollFailed(k + 1, step.message)
    ensures step.Done? ==> PollFrom(replies, k) == PolledDone(k + 1)
    ensures step.Continue? ==> PollFrom(replies, k) == PollFrom(replies, k + 1)
  {
  }

  /** Answers that continue from attempt k up to attempt n leave the polling
      where attempt n does. */
  lemma {:induction false} PollFromSkips(replies: nat -> Response, k: nat, n: nat)
    requires k <= n <= MaxRetries
    requires forall j :: k <= j < n ==> StatusStep(replies(j)) == Continue
    ensures PollFrom(replies, k) == PollFrom(replies, n)
    decreases n - k
  {
    if k < n {
      PollFromSkips(replies, k + 1, n);
    }
  }

  /** When the job's first decisive status answer is an "error" from the
      server, the page shows the server's message, or "Translation failed"
      when it gives none, after n + 1 status requests and no download. */
  lemma ServerFailureShown(f: File, target: string, upload: Response, replies: nat -> Response, download: Response, n: nat)
    requires f.size <= MaxSize && UploadStep(upload).None?
    requires n < MaxRetries && forall j :: 0 <= j < n ==> StatusStep(replies(j)) == Continue
    requires replies(n).Reply? && replies(n).ok && replies(n).body.Json? && replies(n).body.status == Some("error")
    ensures var j := Job(f, target, upload, replies, download);
      var m := replies(n).body.message;
      j.statuses == [Uploading, Translating, Error] && !j.saved
      && j.requests == [UploadRequest(f.name, target)] + StatusRequests(n + 1)
      && j.message == (if m.Some? && m.value != [] then Raw(m.value) else Raw("Translation failed"))
  {
    PollFromSkips(replies, 0, n);
    var r := AfterUpload(PollFrom(replies, 0), download);
    assert r.requests == StatusRequests(n + 1) + [];
  }

  /** The page's state. `requests` is the log of requests sent and `saved` the
      names of the files handed to the browser. */
  class Page {
    var status: Status
    var errorMessage: Message
    var selectedFile: Option<File>
    var targetLanguage: string
    var requests: seq<Request>
    var saved: seq<string>

    constructor ()
      ensures status == Idle && errorMessage == Raw("") && selectedFile == None && targetLanguage == "EN"
      ensures requests == [] && saved == []
    {
      status := Idle;
      errorMessage := Raw("");
      selectedFile := None;
      targetLanguage := "EN";
      requests := [];
      saved := [];
    }

    /** The catch block. */
    method Fail(m: Message)
      modifies this
      ensures status == Error && errorMessage == m
      ensures selectedFile == old(selectedFile) && targetLanguage == old(targetLanguage)
      ensures requests == old(requests) && saved == old(saved)
    {
      status := Error;
      errorMessage := m;
    }

    /** handleTranslate: nothing without a picked file; otherwise the run
      `Job` describes, ending in its last status. A completed run saves
      `translated_<name>` and clears the picked file. */
    method HandleTranslate(upload: Response, replies: nat -> Response, download: Response)
      modifies this
      ensures old(selectedFile).None? ==>
        status == old(status) && errorMessage == old(errorMessage) && selectedFile == None
        && requests == old(requests) && saved == old(saved)
      ensures targetLanguage == old(targetLanguage)
      ensures old(selectedFile).Some? ==>
        (var j := Job(old(selectedFile).value, old(targetLanguage), upload, replies, download);
         status == j.statuses[|j.statuses| - 1] && errorMessage == j.message
         && requests == old(requests) + j.requests
         && (j.saved ==> selectedFile == None && saved == old(saved) + ["translated_" + old(selectedFile).value.name])
         && (!j.saved ==> selectedFile == old(selectedFile) && saved == old(saved)))
    {
      if selectedFile.None? {
        return;
      }
      RunJob(selectedFile.value, upload, replies, download);
    }

    /** The run of `Job` on the picked file `f` and the chosen language. */
    method RunJob(f: File, upload: Response, replies: nat -> Response, download: Response)
      modifies this
      ensures var j := Job(f, old(targetLanguage), upload, replies, download);
        status == j.statuses[|j.statuses| - 1] && errorMessage == j.message
        && requests == old(requests) + j.requests && targetLanguage == old(targetLanguage)
        && (j.saved ==> selectedFile == None && saved == old(saved) + ["translated_" + f.name])
        && (!j.saved ==> selectedFile == old(selectedFile) && saved == old(saved))
    {
      var target := targetLanguage;
      ghost var j := Job(f, target, upload, replies, download);
      if f.size > MaxSize {
        Fail(Key("error.fileTooLarge"));
        assert j == Run([Error], [], Key("error.fileTooLarge"), false);
        return;
      }
      var up := [UploadRequest(f.name, target)];
      var uploaded := Upload(f, upload);
      if !uploaded {
        assert j == Run([Uploading, Error], up, UploadStep(upload).value, false);
        return;
      }
      Translate(f, replies, download);
      ghost var r := AfterUpload(PollFrom(replies, 0), download);
      assert j == Run([Uploading] + r.statuses, up + r.requests, r.message, r.saved);
      assert j.statuses[|j.statuses| - 1] == r.statuses[|r.statuses| - 1];
      assert requests == old(requests) + up + r.requests;
      assert old(requests) + up + r.requests == old(requests) + j.requests;
    }

    /** The job once the upload succeeded: the polling, then its outcome. */
    method Translate(f: File, replies: nat -> Response, download: Response)
      modifies this
      ensures var r := AfterUpload(PollFrom(replies, 0), download);
        status == r.statuses[|r.statuses| - 1] && errorMessage == (if r.saved then old(errorMessage) else r.message)
        && requests == old(requests) + r.requests
        && (r.saved ==> selectedFile == None && saved == old(saved) + ["translated_" + f.name])
        && (!r.saved ==> selectedFile == old(selectedFile) && saved == old(saved))
        && targetLanguage == old(targetLanguage)
    {
      status := Translating;
      var e := PollStatus(replies);
      Finish(f, e, download);
      assert requests == old(requests) + StatusRequests(PollRequests(e)) + DownloadRequests(e);
    }

    /** The upload: the status becomes uploading and the message is cleared,
        the request is sent, and a failed upload ends the job in error. */
    method Upload(f: File, upload: Response) returns (uploaded: bool)
      modifies this
      ensures uploaded <==> UploadStep(upload).None?
      ensures requests == old(requests) + [UploadRequest(f.name, old(targetLanguage))]
      ensures uploaded ==> status == Uploading && errorMessage == Raw("")
      ensures !uploaded ==> status == Error && errorMessage == UploadStep(upload).value
      ensures selectedFile == old(selectedFile) && targetLanguage == old(targetLanguage) && saved == old(saved)
    {
      status := Uploading;
      errorMessage := Raw("");
      requests := requests + [UploadRequest(f.name, targetLanguage)];
      var uploadError := UploadStep(upload);
      if uploadError.Some? {
        Fail(uploadError.value);
        return false;
      }
      return true;
    }

    /** The job after the polling ended: the download, the save, or the error. */
    method Finish(f: File, e: PollEnd, download: Response)
      modifies this
      ensures var r := AfterUpload(e, download);
        status == r.statuses[|r.statuses| - 1] && errorMessage == (if r.saved then old(errorMessage) else r.message)
        && requests == old(requests) + DownloadRequests(e)
        && (r.saved ==> selectedFile == None && saved == old(saved) + ["translated_" + f.name])
        && (!r.saved ==> selectedFile == old(selectedFile) && saved == old(saved))
        && targetLanguage == old(targetLanguage)
    {
      if !e.PolledDone? {
        Fail(if e.PollFailed? then e.message else Key("error.timeout"));
        return;
      }
      status := Downloading;
      requests := requests + [DownloadRequest];
      var downloadError := DownloadStep(download);
      if downloadError.Some? {
        Fail(downloadError.value);
        return;
      }
      saved := saved + ["translated_" + f.name];
      status := Completed;
      selectedFile := None;
    }

    /** The polling loop: at most thirty status requests, stopping at the
        first answer that finishes or fails the job. */
    method PollStatus(replies: nat -> Response) returns (e: PollEnd)
      modifies this
      ensures e == PollFrom(replies, 0)
      ensures requests == old(requests) + StatusRequests(PollRequests(e))
      ensures status == old(status) && errorMessage == old(errorMessage) && selectedFile == old(selectedFile)
      ensures targetLanguage == old(targetLanguage) && saved == old(saved)
    {
      var retryCount := 0;
      while retryCount < MaxRetries
        invariant 0 <= retryCount <= MaxRetries
        invariant requests == old(requests) + StatusRequests(retryCount)
        invariant PollFrom(replies, retryCount) == PollFrom(replies, 0)
        invariant status == old(status) && errorMessage == old(errorMessage) && selectedFile == old(selectedFile)
        invariant targetLanguage == old(targetLanguage) && saved == old(saved)
      {
        requests := requests + [StatusRequest];
        assert StatusRequests(retryCount + 1) == StatusRequests(retryCount) + [StatusRequest];
        var step := StatusStep(replies(retryCount));
        PollFromAt(replies, retryCount, step);
        if step.Throw? {
          return PollFailed(retryCount + 1, step.message);
        } else if step.Done? {
          return PolledDone(retryCount + 1);
        }
        retryCount := retryCount + 1;
      }
      e := PollTimedOut;
    }

    /** The timer two seconds after a completed job. */
    method ResetToIdle()
      modifies this
      ensures status == Idle && errorMessage == old(errorMessage) && selectedFile == old(selectedFile)
      ensures targetLanguage == old(targetLanguage) && requests == old(requests) && saved == old(saved)
    {
      status := Idle;
    }
  }
}
