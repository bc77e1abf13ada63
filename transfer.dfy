/**
 * `transfer_page`: how a page is requested from the server. Without
 * credentials there is one plain GET; with credentials a GET with HTTP
 * Basic authentication, and, only when that answers with a status other
 * than 200, one more GET with HTTP Digest authentication.
 *
 * The server (the `requests` session and the network behind it) is a
 * function from a request to its reply: a response, or the exception the
 * session raises.
 */
module Transfer {
  import opened Base

  /** The `(username, password)` pair of the command line; `(None, None)` when none was given. */
  type UsernamePassword = (Option<string>, Option<string>)

  const NO_CREDENTIALS: UsernamePassword := (None, None)

  /** Seconds the session waits for the server, on every request. */
  const TIMEOUT := 10

  datatype Auth =
    | NoAuth
    | BasicAuth(username: Option<string>, password: Option<string>)
    | DigestAuth(username: Option<string>, password: Option<string>)

  /** A `session.get(url, allow_redirects=..., timeout=..., stream=..., auth=...)` call. */
  datatype Request = Get(url: string, allowRedirects: bool, timeout: int, stream: bool, auth: Auth)

  /**
   * What the server sends back: the status, the `content-length` header if
   * any, the bytes of the body that arrive, and, when reading the body
   * breaks off after those bytes, the class name of the exception raised.
   */
  datatype Response = Response(status: int, contentLength: Option<string>, body: seq<byte>, brokenBy: Option<string>)

  datatype Reply = Responded(response: Response) | Failed(error: Exception)

  /** The requests sent, in order, and the reply `transfer_page` hands back (or raises). */
  datatype Transfer = Transfer(requests: seq<Request>, reply: Reply)

  function Fetch(targetUrl: string, auth: Auth): Request {
    Get(targetUrl, true, TIMEOUT, true, auth)
  }

  /** Every request goes to the target URL, follows redirects, times out after 10 seconds and streams the body. */
  predicate FixedOptions(r: Request, targetUrl: string) {
    r.url == targetUrl && r.allowRedirects && r.timeout == TIMEOUT && r.stream
  }

  /**
   * `transfer_page(target_session, target_url, username_password)`, with
   * its fetch policy. At most two requests, all for the URL with the same
   * options, and the reply handed back is the server's reply to the last
   * one. Anonymous: exactly one unauthenticated GET. With credentials: a
   * Basic GET first, and a second, Digest, GET exactly when the Basic GET
   * got a response whose status is not 200 (a Basic GET that raises is not
   * retried, and neither is one answered with 200).
   */
  function TransferPage(server: Request -> Reply, targetUrl: string, usernamePassword: UsernamePassword): (t: Transfer)
    ensures 1 <= |t.requests| <= 2
    ensures forall i :: 0 <= i < |t.requests| ==> FixedOptions(t.requests[i], targetUrl)
    ensures t.reply == server(t.requests[|t.requests| - 1])
    ensures usernamePassword == NO_CREDENTIALS ==> |t.requests| == 1 && t.requests[0].auth == NoAuth
    ensures usernamePassword != NO_CREDENTIALS ==>
      && t.requests[0].auth == BasicAuth(usernamePassword.0, usernamePassword.1)
      && (|t.requests| == 2 <==>
            server(t.requests[0]).Responded? && server(t.requests[0]).response.status != HTTP_OK)
      && (|t.requests| == 2 ==> t.requests[1].auth == DigestAuth(usernamePassword.0, usernamePassword.1))
  {
    if usernamePassword != NO_CREDENTIALS then
      var (username, password) := usernamePassword;
      var basic := Fetch(targetUrl, BasicAuth(username, password));
      var reply := server(basic);
      if reply.Responded? && reply.response.status != HTTP_OK then
        var digest := Fetch(targetUrl, DigestAuth(username, password));
        Transfer([basic, digest], server(digest))
      else
        Transfer([basic], reply)
    else
      var plain := Fetch(targetUrl, NoAuth);
      Transfer([plain], server(plain))
  }
}
