/**
 * The running vault: the upload directory as a mutable store, the three handlers as methods
 * that read or change it, the Basic-auth wrapper, and the routes main registers.
 */
module Server {
  import opened Wrappers
  import opened Http
  import opened Auth
  import opened Handlers
  import opened Catalog

  /** Everything one request depends on besides the store: clock, I/O outcomes and time formatting. */
  datatype Env = Env(now: int, upload: UploadIo, download: DownloadIo, walk: WalkEnv, formatTime: int -> string)

  /** The two handlers main wraps in BasicAuthMiddleware. */
  datatype Endpoint = UploadEndpoint | DownloadEndpoint

  datatype Route = ListRoute | ProtectedRoute(endpoint: Endpoint)

  /** http.ServeMux with main's patterns: "/upload" and "/download" match exactly, "/" matches every other path. */
  function Dispatch(path: string): Route
  {
    if path == "/upload" then ProtectedRoute(UploadEndpoint)
    else if path == "/download" then ProtectedRoute(DownloadEndpoint)
    else ListRoute
  }

  /** The handler an endpoint names, over the store, with the request's I/O outcomes taken from env. */
  function Inner(ep: Endpoint, env: Env): (Store, Request) -> (Response, Store)
  {
    match ep
    case UploadEndpoint => (s: Store, r: Request) => Upload(s, r, env.now, env.upload)
    case DownloadEndpoint => (s: Store, r: Request) => (Download(s, r, env.download), s)
  }

  /**
   * On "/upload" and "/download" the credential check comes before the handler's method
   * check: without valid credentials any method gets 401 (a GET to "/upload" included), and
   * only with them does a wrong method get 405.
   */
  lemma AuthBeforeMethodGuard(path: string, username: string, password: string, env: Env, s: Store, r: Request)
    requires path == "/upload" || path == "/download"
    ensures Dispatch(path).ProtectedRoute?
    ensures !Authorized(r.auth, username, password) ==>
      Gate(Inner(Dispatch(path).endpoint, env), username, password)(s, r) == (Unauthorized(), s)
    ensures Authorized(r.auth, username, password) && r.verb != (if path == "/upload" then MethodPost else MethodGet) ==>
      Gate(Inner(Dispatch(path).endpoint, env), username, password)(s, r) == (MethodNotAllowed(), s)
  {
  }

  /** Every path other than the two protected ones reaches the listing, which needs no credentials. */
  lemma ListingIsOpen(path: string)
    requires path != "/upload" && path != "/download"
    ensures Dispatch(path) == ListRoute
  {
  }

  class Vault {
    const username: string
    const password: string
    var files: map<string, Blob>
    var mtimes: map<string, int>

    ghost predicate Valid()
      reads this
    {
      files.Keys == mtimes.Keys
    }

    function Snapshot(): Store
      reads this
    {
      Store(files, mtimes)
    }

    /**
     * main's start-up: the credentials read from the environment, and the upload directory as
     * found, or created empty when it did not exist.
     */
    constructor (username: string, password: string, existing: Option<Store>)
      requires existing.Some? ==> existing.value.Valid()
      ensures Valid()
      ensures this.username == username && this.password == password
      ensures Snapshot() == if existing.Some? then existing.value else Store(map[], map[])
    {
      this.username := username;
      this.password := password;
      match existing
      case Some(s) =>
        files := s.files;
        mtimes := s.mtimes;
      case None =>
        files := map[];
        mtimes := map[];
    }

    /** UploadHandler: guard, file part, destination name, open with truncation, copy. */
    method UploadHandler(req: Request, now: int, io: UploadIo) returns (resp: Response)
      requires Valid()
      modifies this
      ensures Valid()
      ensures (resp, Snapshot()) == Upload(old(Snapshot()), req, now, io)
    {
      if req.verb != MethodPost {
        resp := MethodNotAllowed();
        return;
      }
      if req.file.Err? {
        resp := Failure(StatusBadRequest, req.file.error);
        return;
      }
      var part := req.file.value;
      var name := FormValue(req, "filename");
      if name == "" {
        name := part.clientName;
      }
      if io.openErr.Some? {
        resp := Failure(StatusInternalServerError, io.openErr.value);
        return;
      }
      // os.OpenFile with O_CREATE and O_TRUNC: from here on the file exists and is empty.
      files := files[name := []];
      mtimes := mtimes[name := now];
      // io.Copy writes the part into it, all of it or up to the failure.
      files := files[name := Transferred(part.content, io.copy)];
      assert files == old(files)[name := Transferred(part.content, io.copy)];
      if io.copy.CopyFailed? {
        resp := Failure(StatusInternalServerError, io.copy.err);
        return;
      }
      resp := Response(map[], StatusAndText(StatusOK, UploadOk));
    }

    /** DownloadHandler: guard, name, open, attachment headers, copy; it only reads the store. */
    method DownloadHandler(req: Request, io: DownloadIo) returns (resp: Response)
      ensures resp == Download(Snapshot(), req, io)
    {
      if req.verb != MethodGet {
        resp := MethodNotAllowed();
        return;
      }
      var name := FormValue(req, "filename");
      if name == "" {
        resp := Response(map[], StatusAndText(StatusBadRequest, NoFilename));
        return;
      }
      if name !in files {
        resp := Failure(StatusBadRequest, NotFound(name));
        return;
      }
      if io.openErr.Some? {
        resp := Failure(StatusBadRequest, io.openErr.value);
        return;
      }
      var headers := map[];
      headers := headers["Content-Disposition" := "attachment; filename=\"" + name + "\""];
      headers := headers["Content-Type" := "application/octet-stream"];
      var sent := Transferred(files[name], io.copy);
      var writes := Chunk(sent);
      if io.copy.CopyFailed? {
        writes := writes + [Status(StatusInternalServerError), Text("Error: " + io.copy.err)];
      }
      resp := Response(headers, writes);
    }

    /**
     * filepath.Walk over the upload directory with ListFiles' callback. The root comes first;
     * if its Lstat or ReadDir failed, Walk hands that error to the callback, which drops it,
     * and stops. Then every stored file is visited (here in an arbitrary order) until the
     * callback returns an error.
     */
    method Walk(env: WalkEnv) returns (infos: seq<FileInfo>, err: Option<string>)
      requires Valid()
      ensures Enumerated(Snapshot(), env, infos, err)
    {
      infos, err := [], None;
      var root := match env.rootErr
        case Some(e) => Failed(UploadDir, e)
        case None => Visited(UploadDir, FileInfo("uploads", 0, 0));
      var step := OnVisit(root);
      assert step == Skip;
      if env.rootErr.Some? {
        return;
      }
      var pending := files.Keys;
      while pending != {}
        invariant pending <= files.Keys
        invariant Names(infos) == files.Keys - pending
        invariant forall k :: 0 <= k < |infos| ==> infos[k].name in files && infos[k] == InfoOf(Snapshot(), infos[k].name)
        invariant forall k :: 0 <= k < |infos| ==> infos[k].name !in env.lstatErr
        invariant forall k, l :: 0 <= k < l < |infos| ==> infos[k].name != infos[l].name
        decreases pending
      {
        var name :| name in pending;
        ChildIsNotRoot(name);
        var visit := if name in env.lstatErr then Failed(StoredPath(name), env.lstatErr[name])
                     else Visited(StoredPath(name), InfoOf(Snapshot(), name));
        step := OnVisit(visit);
        if step.Stop? {
          err := Some(step.err);
          assert name in files && name in env.lstatErr && err.value == env.lstatErr[name];
          return;
        }
        assert name !in Names(infos);
        NamesAppend(infos, step.info);
        infos := infos + [step.info];
        pending := pending - {name};
      }
    }

    /**
     * ListFiles: for a GET, the walk's entries sorted most recent first and written as the
     * listing; the store is only read. The ghost results name what the walk found, in the
     * order found and in the order listed, and the error it returned.
     */
    method ListFiles(req: Request, env: WalkEnv, formatTime: int -> string)
      returns (resp: Response, ghost found: seq<FileInfo>, ghost entries: seq<FileInfo>, ghost walkErr: Option<string>)
      requires Valid()
      ensures req.verb != MethodGet ==> resp == MethodNotAllowed()
      ensures req.verb == MethodGet ==>
        && Enumerated(Snapshot(), env, found, walkErr)
        && multiset(entries) == multiset(found)
        && SortedByRecency(entries)
        && resp == Listing(entries, walkErr, formatTime)
    {
      if req.verb != MethodGet {
        resp := MethodNotAllowed();
        found, entries, walkErr := [], [], None;
        return;
      }
      var infos, err := Walk(env);
      var a := new FileInfo[|infos|](k requires 0 <= k < |infos| => infos[k]);
      assert a[..] == infos;
      SortByRecency(a);
      resp := WriteListing(a, err, formatTime);
      found, entries, walkErr := infos, a[..], err;
    }

    /** BasicAuthMiddleware around one of the two protected handlers. */
    method BasicAuthMiddleware(ep: Endpoint, req: Request, env: Env) returns (resp: Response)
      requires Valid()
      modifies this
      ensures Valid()
      ensures (resp, Snapshot()) == Gate(Inner(ep, env), username, password)(old(Snapshot()), req)
    {
      if !Authorized(req.auth, username, password) {
        resp := Unauthorized();
        return;
      }
      match ep
      case UploadEndpoint =>
        resp := UploadHandler(req, env.now, env.upload);
      case DownloadEndpoint =>
        resp := DownloadHandler(req, env.download);
    }

    /**
     * One request to the server as main wires it: "/upload" and "/download" behind the
     * credential check, every other path to the open listing, which leaves the store as it was.
     */
    method Serve(path: string, req: Request, env: Env) returns (resp: Response)
      requires Valid()
      modifies this
      ensures Valid()
      ensures Dispatch(path).ProtectedRoute? ==>
        (resp, Snapshot()) == Gate(Inner(Dispatch(path).endpoint, env), username, password)(old(Snapshot()), req)
      ensures Dispatch(path) == ListRoute ==> Snapshot() == old(Snapshot())
      ensures Dispatch(path) == ListRoute && req.verb != MethodGet ==> resp == MethodNotAllowed()
      ensures Dispatch(path) == ListRoute && req.verb == MethodGet ==>
        |resp.writes| >= 2 && resp.writes[..2] == [Text(Heading), Text(ListOpen)] && Statuses(resp.writes) != [StatusUnauthorized]
    {
      match Dispatch(path)
      case ListRoute =>
        ghost var found, entries, walkErr;
        resp, found, entries, walkErr := ListFiles(req, env.walk, env.formatTime);
        if req.verb == MethodGet {
          ListingLayout(entries, walkErr, env.formatTime);
          ListingStatuses(entries, walkErr, env.formatTime);
        }
      case ProtectedRoute(ep) =>
        resp := BasicAuthMiddleware(ep, req, env);
    }
  }
}
