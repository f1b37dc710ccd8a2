/**
 * BasicAuthMiddleware: a handler is wrapped so that it runs only for a request whose Basic
 * credentials equal the configured pair; every other request gets the same 401 challenge.
 */
module Auth {
  import opened Wrappers
  import opened Http

  const Challenge := "Basic realm=\"Restricted\""

  /** The check of the middleware: credentials present, and user and password equal to the configured ones. */
  predicate Authorized(auth: Option<Credentials>, username: string, password: string)
  {
    auth.Some? && auth.value.user == username && auth.value.pass == password
  }

  /**
   * The one answer to a request without valid credentials. Header.Set stores the key in its
   * canonical form "Www-Authenticate"; header names are case-insensitive on the wire, so the
   * model keeps the spelling of the source.
   */
  function Unauthorized(): Response
  {
    Response(map["WWW-Authenticate" := Challenge], StatusAndText(StatusUnauthorized, "Unauthorized\n"))
  }

  /** BasicAuthMiddleware(handler, username, password) on a handler over a state S. */
  function Gate<S>(inner: (S, Request) -> (Response, S), username: string, password: string): (S, Request) -> (Response, S)
  {
    (s: S, r: Request) => if Authorized(r.auth, username, password) then inner(s, r) else (Unauthorized(), s)
  }

  /** With the configured credentials the wrapped handler's outcome is passed through unchanged. */
  lemma GateDelegates<S>(inner: (S, Request) -> (Response, S), username: string, password: string, s: S, r: Request)
    requires r.auth == Some(Credentials(username, password))
    ensures Gate(inner, username, password)(s, r) == inner(s, r)
  {
  }

  /**
   * Without credentials, or with a wrong user or password, the answer is the 401 challenge
   * and the state is unchanged; the outcome is the same whichever handler is wrapped, so the
   * handler is not run.
   */
  lemma GateRejects<S>(inner: (S, Request) -> (Response, S), other: (S, Request) -> (Response, S),
                       username: string, password: string, s: S, r: Request)
    requires r.auth.None? || r.auth.value.user != username || r.auth.value.pass != password
    ensures Gate(inner, username, password)(s, r) == (Unauthorized(), s)
    ensures Gate(inner, username, password)(s, r) == Gate(other, username, password)(s, r)
    ensures Unauthorized().headers["WWW-Authenticate"] == "Basic realm=\"Restricted\""
    ensures Statuses(Unauthorized().writes) == [StatusUnauthorized]
  {
    assert !Authorized(r.auth, username, password);
  }
}
