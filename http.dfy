/**
 * The values a handler of the vault sees and produces: the parts of an HTTP request it
 * consults and the sequence of calls it makes on the response writer.
 */
module Http {
  import opened Wrappers

  newtype byte = x: int | 0 <= x < 256

  /** The bytes of one file; a file on disk holds fewer than 2^63 bytes, as its size is an int64. */
  type Blob = b: seq<byte> | |b| < 0x8000_0000_0000_0000

  const MethodGet := "GET"
  const MethodPost := "POST"

  const StatusOK := 200
  const StatusBadRequest := 400
  const StatusUnauthorized := 401
  const StatusMethodNotAllowed := 405
  const StatusInternalServerError := 500

  /** A user name and password decoded from an Authorization: Basic header. */
  datatype Credentials = Credentials(user: string, pass: string)

  /** The multipart part named "file": the file name the client sent and the bytes of the part. */
  datatype FilePart = FilePart(clientName: string, content: Blob)

  /**
   * A request as the handlers inspect it: the method, what r.BasicAuth() decoded (None when the
   * header is absent or malformed), the first value of every query or form field (what
   * r.FormValue consults), and what r.FormFile("file") returns, the part or its error text.
   */
  datatype Request = Request(
    verb: string,
    auth: Option<Credentials>,
    form: map<string, string>,
    file: Result<FilePart, string>)

  /** r.FormValue(key): the field's first value, or "" when the field is absent. */
  function FormValue(r: Request, key: string): string
  {
    if key in r.form then r.form[key] else ""
  }

  /** One call on the response writer: WriteHeader(code), a formatted text write, or raw bytes. */
  datatype Write = Status(code: int) | Text(text: string) | Bytes(bytes: seq<byte>)

  /** The headers set on the writer and its calls, in the order the handler made them. */
  datatype Response = Response(headers: map<string, string>, writes: seq<Write>)

  /** The raw bytes of a response body, in order. */
  function Payload(ws: seq<Write>): seq<byte>
  {
    if ws == [] then [] else (if ws[0].Bytes? then ws[0].bytes else []) + Payload(ws[1..])
  }

  /** The codes passed to WriteHeader, in order; an empty sequence means the implicit 200. */
  function Statuses(ws: seq<Write>): seq<int>
  {
    if ws == [] then [] else (if ws[0].Status? then [ws[0].code] else []) + Statuses(ws[1..])
  }

  /** The status calls of two runs of writes, one after the other. */
  lemma {:induction false} StatusesAppend(a: seq<Write>, b: seq<Write>)
    ensures Statuses(a + b) == Statuses(a) + Statuses(b)
    decreases |a|
  {
    if a != [] {
      assert (a + b)[1..] == a[1..] + b;
      StatusesAppend(a[1..], b);
    } else {
      assert a + b == b;
    }
  }

  /** The raw bytes of two runs of writes, one after the other. */
  lemma {:induction false} PayloadAppend(a: seq<Write>, b: seq<Write>)
    ensures Payload(a + b) == Payload(a) + Payload(b)
    decreases |a|
  {
    if a != [] {
      assert (a + b)[1..] == a[1..] + b;
      PayloadAppend(a[1..], b);
    } else {
      assert a + b == b;
    }
  }

  /**
   * The writes io.Copy makes for a source holding b: raw bytes only, carrying exactly b, and
   * no status. io.Copy may hand b to the writer in several Write calls (or one ReadFrom); the
   * model keeps them as one Bytes write, since only their concatenation reaches the body.
   */
  function Chunk(b: seq<byte>): (ws: seq<Write>)
    ensures Payload(ws) == b
    ensures Statuses(ws) == []
    ensures forall k :: 0 <= k < |ws| ==> ws[k].Bytes?
    ensures b == [] ==> ws == []
  {
    if b == [] then [] else [Bytes(b)]
  }

  /** WriteHeader(code) followed by one text write: that status, and no raw bytes. */
  function StatusAndText(code: int, text: string): (ws: seq<Write>)
    ensures Statuses(ws) == [code] && Payload(ws) == []
  {
    var ws := [Status(code), Text(text)];
    assert ws[1..] == [Text(text)] && ws[1..][1..] == [];
    assert Statuses(ws[1..][1..]) == [] && Payload(ws[1..][1..]) == [];
    assert Statuses(ws[1..]) == [] + Statuses(ws[1..][1..]);
    assert Payload(ws[1..]) == [] + Payload(ws[1..][1..]);
    assert Statuses(ws) == [code] + Statuses(ws[1..]);
    assert Payload(ws) == [] + Payload(ws[1..]);
    ws
  }

  /** The answer every handler gives to a request with the wrong method. */
  function MethodNotAllowed(): (r: Response)
    ensures Statuses(r.writes) == [StatusMethodNotAllowed] && Payload(r.writes) == []
  {
    Response(map[], StatusAndText(StatusMethodNotAllowed, "Method not allowed\n"))
  }

  /** WriteHeader(code) followed by fmt.Fprintf(w, "Error: %v", err). */
  function Failure(code: int, err: string): (r: Response)
    ensures Statuses(r.writes) == [code] && Payload(r.writes) == []
    ensures r.writes == [Status(code), Text("Error: " + err)]
  {
    Response(map[], StatusAndText(code, "Error: " + err))
  }
}
