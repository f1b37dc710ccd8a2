# File Vault Lite, modelled in Dafny

File Vault Lite is a small HTTP file vault written in Go (`main.go`). It has three routes:

- `/` lists the files in its upload directory, most recently modified first. This route is open to everyone.
- `/upload` stores a multipart-uploaded file under a chosen name or the client's file name. It overwrites any file of that name.
- `/download` returns a stored file as an attachment.

The last two routes sit behind a single HTTP Basic credential pair.

This project models the decision logic of that program and proves what it promises:

- **Upload directory.** An abstract `Store` holds each file name's bytes and each file's modification time. A file name is an opaque key.
- **Requests.** A request is a value: its method, the Basic credentials it decoded, its form and query fields, and the `file` part or its error.
- **Responses.** A response is the map of headers set on the writer plus the sequence of writer calls in the order the handler makes them (`WriteHeader(code)`, text writes, raw bytes). The writes one `io.Copy` makes are kept as a single raw-bytes write: `io.Copy` may split them over several `Write` calls (or one `ReadFrom`), and only their concatenation reaches the body.
- **Outside outcomes.** Whatever the code cannot predict is a parameter: a failing open, a failing copy, a failing `Lstat`, the clock, and the time formatter.

Modules:

- `Http` (`http.dfy`): request, response and writer-call values.
- `SizeFormat` (`size_format.dfy`): `humanReadableSize`. It picks the unit, models `float64(i)`, and models `%.2f` exactly. Go's `strconv` rounds the exact binary value half to even at the second decimal for a fixed-precision `'f'` format; the model does the same. The lemmas show that the text is a two-decimal numeral, a space and a unit, and that the numeral reads back as the value.
- `Auth` (`auth.dfy`): `BasicAuthMiddleware` as the higher-order `Gate` on handlers.
- `Handlers` (`handlers.dfy`): `UploadHandler` and `DownloadHandler` as functions of the store. It also holds the round-trip, overwrite, truncation, frame and error-case lemmas.
- `Catalog` (`catalog.dfy`): the `filepath.Walk` callback of `ListFiles`, the recency sort (an in-place insertion sort on an array), and the rendered HTML.
- `Server` (`server.dfy`): class `Vault`. Its fields are the mutable store. Its handler methods change the store step by step and are proved equal to the `Handlers` functions. `Walk` and `ListFiles` work imperatively, and `Serve` is the route wiring of `main`.

Three behaviours of the code are easy to misread; the model follows the code:

- **Directory errors.** The Walk callback returns early for the root path before it looks at the error. A failure to stat or read the upload directory itself is therefore dropped: the listing is empty and ends in `</ul>` with no error. Only a failing `Lstat` of an entry yields the `Error:` tail.
- **Negative sizes.** `humanReadableSize` takes any int64. Negative counts print in bytes with their sign.
- **The 1024.00 boundary.** A value can print as `1024.00` in KB or MB (1048575 bytes give `1024.00 KB`), because the unit is chosen before rounding.

## Model

| member | source | states |
|---|---|---|
| SizeFormat.UnitOf | main.go:23-36 | GB iff i >= 1024^3; MB iff 1024^2 <= i < 1024^3; KB iff 1024 <= i < 1024^2; B iff i < 1024, negative counts included |
| SizeFormat.RoundHalfEven | main.go:38 | the result is within half a unit of n/d, and a tie goes to the even neighbour (how %.2f rounds an exact value) |
| SizeFormat.Gap | main.go:26 | the spacing g of float64 values around n: a power of two with n < 2^53·g, and g > 1 only when n >= 2^52·g, so it is the binade's spacing |
| SizeFormat.ToFloat64 | main.go:26 | float64(n) is a multiple of the gap within half a gap of n, an even multiple when n lies halfway (round half to even), and equals n below 2^53 |
| SizeFormat.TieToEvenExample | main.go:26 | 2^53 + 1, halfway between the float64 values 2^53 and 2^53 + 2, converts to 2^53, the even one |
| SizeFormat.GapOfInt64 | main.go:24-26 | for every int64 magnitude the float gap is at most 2048 |
| SizeFormat.Decimal | main.go:38 | the integer part is a non-empty string of decimal digits with no leading zero |
| SizeFormat.DecimalRoundTrip | main.go:38 | reading the printed integer part back gives the number printed |
| SizeFormat.Fixed2RoundTrip | main.go:38 | a printed [-]d+.dd numeral reads back as the signed count of hundredths it came from |
| SizeFormat.SizeText | main.go:19-39 | the text is a two-decimal numeral, exactly one space, then the unit label, and the numeral reads back as the signed value in hundredths |
| SizeFormat.SizeRounding | main.go:23-38 | the printed value is within half a hundredth of float64(i) divided by the unit's scale, and float64(i) is within half a gap of i |
| SizeFormat.SizeInUnitRange | main.go:23-36 | KB, MB and GB print a value of at least 1.00; KB and MB print at most 1024.00; non-negative byte counts print at most 1023.00 |
| SizeFormat.SizeExamplesBytes | main.go:33-38 | 512 prints "512.00 B" and -5 prints "-5.00 B" |
| SizeFormat.SizeExamplesKilo | main.go:30-38 | 1024 prints "1.00 KB"; 1152 (1.125 KB, a tie) prints "1.12 KB" |
| SizeFormat.SizeExampleBoundary | main.go:27-38 | 1048575 stays in KB and prints "1024.00 KB" |
| Http.Chunk | main.go:168 | the writes io.Copy makes are raw bytes only, carry exactly the source's bytes and set no status; an empty source writes nothing |
| Http.StatusAndText | main.go:44-45 | WriteHeader then one text write: that one status and no raw bytes |
| Http.MethodNotAllowed | main.go:43-47 | the wrong-method answer sets only status 405 and writes no raw bytes |
| Http.Failure | main.go:110-113 | an error answer is WriteHeader(code) then "Error: " + the error text |
| Auth.GateDelegates | main.go:88-96 | with the configured user and password the wrapped handler's response and state pass through unchanged |
| Auth.GateRejects | main.go:89-95 | with no credentials, a wrong user or a wrong password the answer is 401 with WWW-Authenticate: Basic realm="Restricted" and body "Unauthorized", the state is unchanged, and the outcome is the same whichever handler is wrapped (it is not run) |
| Handlers.Transferred | main.go:131 | the bytes copied are a prefix of the upload, all of it on success, and as many as were written before a failure |
| Handlers.UploadMethodGuard | main.go:102-106 | a non-POST upload gets 405 "Method not allowed" and the store is unchanged |
| Handlers.UploadNeedsFile | main.go:108-114 | a missing or unparsable "file" part gets 400 with "Error: " + its error text and the store is unchanged |
| Handlers.UploadWrites | main.go:117-139 | once opened, only one entry changes, named by the "filename" field when non-empty and else by the client's file name: it holds a prefix of the upload and none of its old bytes, with time now; after a full copy it holds exactly the upload and the answer is 200 "File uploaded successfully."; a failed copy answers 500 |
| Handlers.UploadFailsCleanly | main.go:102-128 | a wrong method, a bad file part or a failed open leaves the store exactly as it was |
| Handlers.UploadIoFailures | main.go:123-136 | a failed open answers 500 with "Error: " + its error and leaves the store as it was; a failed copy answers 500 with "Error: " + the copy's error, and the file keeps only the bytes written before the failure, with time now |
| Handlers.UploadKeepsValid | main.go:123-131 | every upload keeps each stored file paired with a modification time |
| Handlers.LastUploadWins | main.go:123-131 | two complete uploads to one name give the same store as the second upload alone: no versioning |
| Handlers.DownloadMethodGuard | main.go:144-148 | a non-GET download gets 405 "Method not allowed" |
| Handlers.DownloadNeedsName | main.go:150-155 | an empty "filename" gets 400 "Filename not provided" |
| Handlers.DownloadMissing | main.go:156-163 | a name not in the store gets 400 with the not-found error text of os.Open, whatever the I/O outcome |
| Handlers.DownloadServes | main.go:166-168 | a stored name is served with Content-Disposition: attachment; filename="name" and Content-Type: application/octet-stream, with a body of raw bytes only, exactly the stored bytes, and no explicit status |
| Handlers.DownloadIoFailures | main.go:158-172 | for a stored name, a failed open answers 400 with "Error: " + its error; a failed copy sends the attachment headers and the raw bytes copied so far, then WriteHeader(500) and "Error: " + the copy's error, and no other status |
| Handlers.UploadThenDownload | main.go:117-168 | after uploading under a non-empty name, downloading that name returns a body of raw bytes only, exactly the uploaded bytes, as an attachment, and the upload answered 200 |
| Handlers.EmptyNameNotRetrievable | main.go:150-155 | a download with an empty "filename" never returns file bytes, whatever the store holds |
| Catalog.OnVisit | main.go:53-62 | the callback skips exactly the root path, even when it carries an error; it stops on an error anywhere else and collects every other entry |
| Catalog.ChildIsNotRoot | main.go:54 | the path of a stored file never equals the root path, so no stored file is skipped |
| Catalog.NamesAppend | main.go:60 | appending an entry adds exactly its name to the names collected |
| Catalog.EnumeratedWithoutFailures | main.go:53-62 | if no stored file fails Lstat, the walk reports no error and, with a readable root, collects every stored file exactly once |
| Catalog.SortByRecency | main.go:64-72 | the array ends up ordered by modification time, latest first, and is a permutation of what it held |
| Catalog.ItemWrites | main.go:74-76 | the loop writes one item per entry |
| Catalog.ItemWritesAt | main.go:74-76 | the k-th write of the loop is the item of the k-th entry |
| Catalog.ItemWritesText | main.go:74-76 | the item loop sets no status and writes no raw bytes |
| Catalog.WriteListing | main.go:74-83 | the writes for the sorted array are the heading and "<ul>" (written at main.go:51-52, before the walk, which writes nothing), one item per element in array order, then "</ul>" or the walk's error: exactly the listing of the array's contents |
| Catalog.ListingLayout | main.go:51-83 | the listing is the heading, "<ul>", the items in entry order, then "</ul>", or after a walk error a 500 and "Error: " + error in place of "</ul>", after the partial list |
| Catalog.ListingStatuses | main.go:78-83 | the only status call in a listing is the 500 after a walk error |
| Catalog.NewerListedFirst | main.go:64-76 | in a recency-sorted listing a file modified later is written before one modified earlier |
| Server.AuthBeforeMethodGuard | main.go:190-192 | on /upload and /download an unauthenticated request of any method gets 401 (a GET to /upload included), and only an authenticated one with the wrong method gets 405 |
| Server.ListingIsOpen | main.go:190 | every path other than /upload and /download reaches the listing, with no credential check |
| Server.Vault.constructor | main.go:178-187 | the vault keeps the configured credentials and starts from the existing upload directory, or from an empty one |
| Server.Vault.UploadHandler | main.go:101-140 | opening with truncation and then copying gives exactly the response and the new store of Handlers.Upload |
| Server.Vault.DownloadHandler | main.go:143-174 | reading the store gives exactly Handlers.Download's response and changes nothing |
| Server.Vault.Walk | main.go:53-62 | the walk collects distinct stored files, drops root errors, lists everything when nothing fails, and reports only a stored file's Lstat error |
| Server.Vault.ListFiles | main.go:42-84 | a non-GET gets 405; a GET renders the walk's entries, permuted into recency order, with the walk's error, and leaves the store unchanged |
| Server.Vault.BasicAuthMiddleware | main.go:87-98 | the outcome on the store is Gate applied to the wrapped handler |
| Server.Vault.Serve | main.go:189-192 | /upload and /download run behind the gate; any other path lists without changing the store: a non-GET gets 405, and a GET starts with the heading and "<ul>" and never answers 401 |

## Left out

- Real file-system I/O, `filepath.Walk` traversal of subdirectories and `os.Mkdir` are not modelled. The store is flat, and failures of open, copy and Lstat are parameters. A download of a name that is not stored answers with the not-found text of os.Open; other reasons os.Open can give for such a name (a name too long, a directory that cannot be searched) are not modelled, though they get the same 400.
- `filepath.Join` cleaning is not modelled. A name is an opaque key, so distinct strings that alias on disk ("a/../b" and "b", "." or "" against the directory itself) are distinct keys here. Path traversal outside the directory is not captured.
- Server.Vault.Walk: visits the stored files in an arbitrary order, whereas Go visits them in lexical order. This order decides which entries precede a failing Lstat and how entries with equal times are ordered before the sort (which is unstable anyway).
- Modification times are integers, and formatting with the "2006-01-02 15:04:05" layout in the local zone is a parameter `formatTime`.
- `net/http` ignores a WriteHeader call made after body bytes, which affects main.go:79 and main.go:170. The model records the calls in order and does not say which status the client sees.
- Multipart parsing and the 1000 MiB memory limit are not modelled (the parse error surfaces only through `FormFile`, as the request's `file` field). Basic-auth header decoding, environment variables, logging, the listener on :8080 and ServeMux's redirects of non-canonical paths are not modelled either.
- Concurrency between requests is handled by the host server, and a download racing an upload is not modelled. Each request runs to completion on the store.
- Server.Vault.Serve: for the listing route it states only the store frame, the method guard and the opening writes. The full listing contract is that of Server.Vault.ListFiles, which Serve calls.
