/**
 * The store of uploaded files and the two handlers that touch it, UploadHandler and
 * DownloadHandler, as functions from the store and a request to a response (and, for an
 * upload, the new store). A file name is an opaque key; the file system's outcomes that the
 * code cannot predict (an open or a copy failing) are parameters.
 */
module Handlers {
  import opened Wrappers
  import opened Http

  /** The upload directory: each file's bytes and its modification time. */
  datatype Store = Store(files: map<string, Blob>, mtimes: map<string, int>) {
    /** Every stored file has a modification time and nothing else has one. */
    predicate Valid()
    {
      files.Keys == mtimes.Keys
    }
  }

  /** What io.Copy did: copied everything, or failed after writing some bytes. */
  datatype CopyOutcome = Copied | CopyFailed(written: nat, err: string)

  /** How os.OpenFile and io.Copy turn out for an upload. */
  datatype UploadIo = UploadIo(openErr: Option<string>, copy: CopyOutcome)

  /** How os.Open (of a file that exists) and io.Copy turn out for a download. */
  datatype DownloadIo = DownloadIo(openErr: Option<string>, copy: CopyOutcome)

  const UploadOk := "File uploaded successfully.\n"
  const NoFilename := "Filename not provided\n"

  /** The bytes io.Copy moved out of a source holding content. */
  function Transferred(content: Blob, c: CopyOutcome): (w: Blob)
    ensures w <= content
    ensures c.Copied? ==> w == content
    ensures c.CopyFailed? ==> |w| == if c.written < |content| then c.written else |content|
  {
    match c
    case Copied => content
    case CopyFailed(k, _) => content[..if k < |content| then k else |content|]
  }

  /** filepath.Join("./uploads", name) for a name without separators or dot segments. */
  function StoredPath(name: string): string
  {
    "uploads/" + name
  }

  /** The text of the error os.Open returns for a file that does not exist. */
  function NotFound(name: string): string
  {
    "open " + StoredPath(name) + ": no such file or directory"
  }

  /** The name an upload is stored under: the "filename" field unless it is empty, else the client's file name. */
  function Destination(r: Request, part: FilePart): string
  {
    var field := FormValue(r, "filename");
    if field != "" then field else part.clientName
  }

  /** UploadHandler: the response and the store after it, the time of the write being now. */
  function Upload(s: Store, r: Request, now: int, io: UploadIo): (Response, Store)
  {
    if r.verb != MethodPost then (MethodNotAllowed(), s)
    else match r.file
      case Err(e) => (Failure(StatusBadRequest, e), s)
      case Ok(part) =>
        var name := Destination(r, part);
        if io.openErr.Some? then (Failure(StatusInternalServerError, io.openErr.value), s)
        else
          var s' := Store(s.files[name := Transferred(part.content, io.copy)], s.mtimes[name := now]);
          match io.copy
          case Copied => (Response(map[], StatusAndText(StatusOK, UploadOk)), s')
          case CopyFailed(_, e) => (Failure(StatusInternalServerError, e), s')
  }

  /** The headers a download sets before it copies the file. */
  function Attachment(name: string): map<string, string>
  {
    map["Content-Disposition" := "attachment; filename=\"" + name + "\"",
        "Content-Type" := "application/octet-stream"]
  }

  /** DownloadHandler: the response; a download never changes the store. */
  function Download(s: Store, r: Request, io: DownloadIo): Response
  {
    if r.verb != MethodGet then MethodNotAllowed()
    else
      var name := FormValue(r, "filename");
      if name == "" then Response(map[], StatusAndText(StatusBadRequest, NoFilename))
      else if name !in s.files then Failure(StatusBadRequest, NotFound(name))
      else if io.openErr.Some? then Failure(StatusBadRequest, io.openErr.value)
      else match io.copy
        case Copied => Response(Attachment(name), Chunk(s.files[name]))
        case CopyFailed(_, e) =>
          Response(Attachment(name), Chunk(Transferred(s.files[name], io.copy)) + [Status(StatusInternalServerError), Text("Error: " + e)])
  }

  /** A request that is not a POST gets 405 and changes nothing. */
  lemma UploadMethodGuard(s: Store, r: Request, now: int, io: UploadIo)
    requires r.verb != MethodPost
    ensures Upload(s, r, now, io) == (MethodNotAllowed(), s)
  {
  }

  /** Without a usable "file" part the answer is 400 with the error text and the store is untouched. */
  lemma UploadNeedsFile(s: Store, r: Request, now: int, io: UploadIo)
    requires r.verb == MethodPost && r.file.Err?
    ensures Upload(s, r, now, io) == (Failure(StatusBadRequest, r.file.error), s)
    ensures Upload(s, r, now, io).0.writes == [Status(StatusBadRequest), Text("Error: " + r.file.error)]
  {
  }

  /**
   * An upload changes at most one entry: the "filename" field when it is not empty, else the
   * client's file name. Once that file is opened, it holds a prefix of the uploaded bytes and
   * nothing of what it held before (truncation), and its time is now; when the copy completes
   * it holds exactly the uploaded bytes and the answer is 200.
   */
  lemma UploadWrites(s: Store, r: Request, now: int, io: UploadIo)
    requires r.verb == MethodPost && r.file.Ok? && io.openErr.None?
    ensures var field := FormValue(r, "filename");
      var name, (resp, s') := (if field != "" then field else r.file.value.clientName), Upload(s, r, now, io);
      && s'.files.Keys == s.files.Keys + {name}
      && s'.mtimes.Keys == s.mtimes.Keys + {name}
      && (forall n :: n in s.files && n != name ==> s'.files[n] == s.files[n])
      && (forall n :: n in s.mtimes && n != name ==> s'.mtimes[n] == s.mtimes[n])
      && s'.files[name] <= r.file.value.content
      && s'.mtimes[name] == now
      && (io.copy.Copied? ==> s'.files[name] == r.file.value.content && resp.writes == StatusAndText(StatusOK, UploadOk))
      && (io.copy.CopyFailed? ==> Statuses(resp.writes) == [StatusInternalServerError])
  {
    var part := r.file.value;
    var name := Destination(r, part);
    var s' := Store(s.files[name := Transferred(part.content, io.copy)], s.mtimes[name := now]);
    assert Upload(s, r, now, io).1 == s';
  }

  /** An upload that fails before the destination is opened leaves the store as it was. */
  lemma UploadFailsCleanly(s: Store, r: Request, now: int, io: UploadIo)
    requires r.verb != MethodPost || r.file.Err? || io.openErr.Some?
    ensures Upload(s, r, now, io).1 == s
  {
  }

  /** No upload breaks the pairing of files and modification times. */
  lemma UploadKeepsValid(s: Store, r: Request, now: int, io: UploadIo)
    requires s.Valid()
    ensures Upload(s, r, now, io).1.Valid()
  {
  }

  /**
   * Two complete uploads to the same name leave only the second content: the store is the
   * one a single upload of the second request would give, whatever the first one wrote.
   */
  lemma LastUploadWins(s: Store, r1: Request, t1: int, r2: Request, t2: int)
    requires r1.verb == MethodPost && r1.file.Ok? && r2.verb == MethodPost && r2.file.Ok?
    requires Destination(r1, r1.file.value) == Destination(r2, r2.file.value)
    ensures var ok := UploadIo(None, Copied);
      && Upload(Upload(s, r1, t1, ok).1, r2, t2, ok).1 == Upload(s, r2, t2, ok).1
      && Upload(s, r2, t2, ok).1.files[Destination(r2, r2.file.value)] == r2.file.value.content
  {
    var name := Destination(r2, r2.file.value);
    var ok := UploadIo(None, Copied);
    var s1 := Upload(s, r1, t1, ok).1;
    assert s1.files[name := r2.file.value.content] == s.files[name := r2.file.value.content];
    assert s1.mtimes[name := t2] == s.mtimes[name := t2];
  }

  /**
   * When the file system fails an upload that got past the method and file checks: a failed
   * open answers 500 with its error and leaves the store as it was; a copy that fails after
   * the open answers 500 with the copy's error, and the file keeps the bytes written before the
   * failure, the earlier content being gone already.
   */
  lemma UploadIoFailures(s: Store, r: Request, now: int, io: UploadIo)
    requires r.verb == MethodPost && r.file.Ok?
    ensures io.openErr.Some? ==> Upload(s, r, now, io) == (Failure(StatusInternalServerError, io.openErr.value), s)
    ensures io.openErr.None? && io.copy.CopyFailed? ==>
      var name, content, (resp, s') := Destination(r, r.file.value), r.file.value.content, Upload(s, r, now, io);
      && resp == Failure(StatusInternalServerError, io.copy.err)
      && resp.writes == [Status(StatusInternalServerError), Text("Error: " + io.copy.err)]
      && s'.files[name] == content[..if io.copy.written < |content| then io.copy.written else |content|]
      && s'.mtimes[name] == now
  {
  }

  /** An empty "filename" gets 400 "Filename not provided", before the store is consulted. */
  lemma DownloadNeedsName(s: Store, r: Request, io: DownloadIo)
    requires r.verb == MethodGet && FormValue(r, "filename") == ""
    ensures Download(s, r, io) == Response(map[], StatusAndText(StatusBadRequest, NoFilename))
  {
  }

  /** A request that is not a GET gets 405. */
  lemma DownloadMethodGuard(s: Store, r: Request, io: DownloadIo)
    requires r.verb != MethodGet
    ensures Download(s, r, io) == MethodNotAllowed()
  {
  }

  /** A name that is not stored gets 400 with the open error, whatever the I/O would have done. */
  lemma DownloadMissing(s: Store, r: Request, io: DownloadIo)
    requires r.verb == MethodGet && FormValue(r, "filename") != "" && FormValue(r, "filename") !in s.files
    ensures Download(s, r, io) == Failure(StatusBadRequest, NotFound(FormValue(r, "filename")))
    ensures Statuses(Download(s, r, io).writes) == [StatusBadRequest]
  {
  }

  /**
   * A stored name is served as an attachment under that name, and the body is exactly the
   * stored bytes with the implicit status 200.
   */
  lemma DownloadServes(s: Store, r: Request)
    requires r.verb == MethodGet && FormValue(r, "filename") in s.files && FormValue(r, "filename") != ""
    ensures var resp, name := Download(s, r, DownloadIo(None, Copied)), FormValue(r, "filename");
      && resp.headers["Content-Disposition"] == "attachment; filename=\"" + name + "\""
      && resp.headers["Content-Type"] == "application/octet-stream"
      && (forall k :: 0 <= k < |resp.writes| ==> resp.writes[k].Bytes?)
      && Payload(resp.writes) == s.files[name]
      && Statuses(resp.writes) == []
  {
  }

  /**
   * When the file system fails the download of a stored name: a failed open answers 400 with
   * its error; a copy that fails after the headers are set sends the attachment headers and
   * the bytes copied so far, then WriteHeader(500) and the copy's error.
   */
  lemma DownloadIoFailures(s: Store, r: Request, io: DownloadIo)
    requires r.verb == MethodGet && FormValue(r, "filename") != "" && FormValue(r, "filename") in s.files
    ensures io.openErr.Some? ==> Download(s, r, io) == Failure(StatusBadRequest, io.openErr.value)
    ensures io.openErr.None? && io.copy.CopyFailed? ==>
      var resp, name := Download(s, r, io), FormValue(r, "filename");
      var content, n := s.files[name], |resp.writes|;
      && resp.headers == Attachment(name)
      && n >= 2
      && resp.writes[n - 2..] == [Status(StatusInternalServerError), Text("Error: " + io.copy.err)]
      && (forall k :: 0 <= k < n - 2 ==> resp.writes[k].Bytes?)
      && Payload(resp.writes) == content[..if io.copy.written < |content| then io.copy.written else |content|]
      && Statuses(resp.writes) == [StatusInternalServerError]
  {
    if io.openErr.None? && io.copy.CopyFailed? {
      var name := FormValue(r, "filename");
      var sent := Chunk(Transferred(s.files[name], io.copy));
      var tail := Failure(StatusInternalServerError, io.copy.err).writes;
      assert Download(s, r, io).writes == sent + tail;
      PayloadAppend(sent, tail);
      StatusesAppend(sent, tail);
    }
  }

  /**
   * Upload then download: a file uploaded under a name (other than "") and then downloaded by
   * that name comes back byte for byte as an attachment, after a 200 for the upload.
   */
  lemma UploadThenDownload(s: Store, up: Request, now: int, get: Request)
    requires up.verb == MethodPost && up.file.Ok?
    requires get.verb == MethodGet && FormValue(get, "filename") == Destination(up, up.file.value) != ""
    ensures var (resp1, s1) := Upload(s, up, now, UploadIo(None, Copied));
      var resp2 := Download(s1, get, DownloadIo(None, Copied));
      && resp1.writes == StatusAndText(StatusOK, UploadOk)
      && resp2.headers == Attachment(Destination(up, up.file.value))
      && (forall k :: 0 <= k < |resp2.writes| ==> resp2.writes[k].Bytes?)
      && Payload(resp2.writes) == up.file.value.content
      && Statuses(resp2.writes) == []
  {
  }

  /** A download with an empty "filename" never returns file bytes, whatever the store holds. */
  lemma EmptyNameNotRetrievable(s: Store, get: Request, io: DownloadIo)
    requires get.verb == MethodGet && FormValue(get, "filename") == ""
    ensures Payload(Download(s, get, io).writes) == []
  {
  }
}
