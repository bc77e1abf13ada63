/**
 * `get_hash_from_url`: fetch one URL and feed its body to a digest. The
 * hash algorithm itself is not modelled: a digester is the list of bytes fed
 * to it so far, and the hex digest is a function of the algorithm name and
 * those bytes. A progress bar is its counter.
 */
module DigestReader {
  import opened Base
  import opened Text
  import opened CamelCase
  import opened Chunking
  import opened Transfer

  /** `iter_content(chunk_size=4096)` */
  const CHUNK_SIZE := 4096

  /** A `hashlib` digester: what has been fed to it, in order. */
  class Digester {
    const name: string
    var fed: seq<byte>

    constructor (name: string)
      ensures this.name == name && fed == []
    {
      this.name := name;
      fed := [];
    }

    /** `digester.update(data)` */
    method Update(data: seq<byte>)
      modifies this
      ensures fed == old(fed) + data
    {
      fed := fed + data;
    }
  }

  /** A `tqdm` bar: its total and its counter. */
  class ProgressBar {
    const total: int
    var n: int

    constructor (total: int)
      ensures this.total == total && n == 0
    {
      this.total := total;
      n := 0;
    }

    /** `t.update(k)` */
    method Update(k: int)
      modifies this
      ensures n == old(n) + k
    {
      n := n + k;
    }
  }

  /** `get_failure_message(target_url, message)` */
  function FailureMessage(targetUrl: string, message: string): string {
    "\r" + targetUrl + " download failed [" + message + "]"
  }

  const STATUS_PREFIX := "download failed [response was "

  /** The message of the exception raised for a response whose status is not 200. */
  function StatusMessage(status: int): string {
    STATUS_PREFIX + IntToString(status) + "]"
  }

  /** The status can be read back from the message: it sits between the prefix and the closing bracket. */
  lemma StatusInMessage(status: int)
    ensures var m := StatusMessage(status);
      && |m| > |STATUS_PREFIX|
      && m[..|STATUS_PREFIX|] == STATUS_PREFIX
      && m[|m| - 1] == ']'
      && ParseInt(m[|STATUS_PREFIX|..|m| - 1]) == Some(status)
  {
    var m := StatusMessage(status);
    assert m[|STATUS_PREFIX|..|m| - 1] == IntToString(status);
    IntRoundTrip(status);
  }

  /**
   * What a response with status 200 leads to, as a reference for the
   * method below.
   * Without a `content-length` header the whole body is read at once and an
   * error while reading it propagates unchanged; with one, the header is
   * parsed and the body is read in pieces, and every error in that branch
   * (a header that is not a number, a body that breaks off) becomes a
   * `DownloadFailedException` naming the URL and the error.
   */
  function StreamOutcome(targetUrl: string, response: Response, digest: string,
                         hexdigest: (string, seq<byte>) -> string): Result<(string, string)>
  {
    match response.contentLength
    case None =>
      if response.brokenBy.Some? then Err(Raised(response.brokenBy.value))
      else Ok((hexdigest(digest, response.body), digest))
    case Some(header) =>
      if ParseInt(header).None? then
        Err(DownloadFailed(FailureMessage(targetUrl, HumanizeIdentifier("ValueError"))))
      else if response.brokenBy.Some? then
        Err(DownloadFailed(FailureMessage(targetUrl, HumanizeIdentifier(response.brokenBy.value))))
      else Ok((hexdigest(digest, response.body), digest))
  }

  /**
   * `get_hash_from_url(target_url, target_session, verbose, count, digest,
   * username_password, debug)`. Returns the outcome (the hex digest and the
   * algorithm name, or the exception raised), the bytes fed to the
   * digester, and the final count of the progress bar when one was shown.
   *
   * An unknown algorithm fails before anything is fetched. In debug mode
   * nothing is fetched and the digester is fed the UTF-8 bytes of
   * `moduleUrl`, the module-level `url` of the main loop (not `targetUrl`).
   * Otherwise: errors of the transfer propagate; a status other than 200
   * raises `DownloadFailedException` with the status in its message; and
   * whenever the body is read, exactly its bytes reach the digester,
   * whether in one update or in pieces of 4096, with the progress bar
   * counting every one of them.
   */
  method GetHashFromUrl(targetUrl: string, server: Request -> Reply, verbose: int, digest: string,
                        algorithms: set<string>, usernamePassword: UsernamePassword, debug: bool,
                        moduleUrl: string, hexdigest: (string, seq<byte>) -> string)
    returns (r: Result<(string, string)>, fed: seq<byte>, progress: Option<int>)
    ensures r.Ok? ==> r.value == (hexdigest(digest, fed), digest)
    ensures progress.Some? ==> progress.value == |fed| && verbose > 0
    ensures digest !in algorithms ==> r == Err(Raised("AttributeError")) && fed == [] && progress == None
    ensures digest in algorithms && debug ==> r.Ok? && fed == Utf8(moduleUrl) && progress == None
    ensures digest in algorithms && !debug ==>
      var reply := TransferPage(server, targetUrl, usernamePassword).reply;
      && (reply.Failed? ==> r == Err(reply.error) && fed == [])
      && (reply.Responded? && reply.response.status != HTTP_OK ==>
            r == Err(DownloadFailed(StatusMessage(reply.response.status))) && fed == [])
      && (reply.Responded? && reply.response.status == HTTP_OK ==>
            && r == StreamOutcome(targetUrl, reply.response, digest, hexdigest)
            && (r.Ok? ==> fed == reply.response.body)
            && (reply.response.contentLength.Some? && ParseInt(reply.response.contentLength.value).Some? ==>
                  fed == reply.response.body && (progress.Some? <==> verbose > 0)))
  {
    var showProgress := verbose > 0;
    progress := None;
    if digest !in algorithms {
      return Err(Raised("AttributeError")), [], None;
    }
    var digester := new Digester(digest);

    if !debug {
      var reply := TransferPage(server, targetUrl, usernamePassword).reply;
      if reply.Failed? {
        return Err(reply.error), [], None;
      }
      var response := reply.response;
      var totalDataLength := response.contentLength;
      if response.status != HTTP_OK {
        return Err(DownloadFailed(StatusMessage(response.status))), [], None;
      } else if totalDataLength.None? {
        if response.brokenBy.Some? {
          return Err(Raised(response.brokenBy.value)), [], None;
        }
        digester.Update(response.body);
        assert digester.fed == response.body;
      } else {
        var length := ParseInt(totalDataLength.value);
        if length.None? {
          return Err(DownloadFailed(FailureMessage(targetUrl, HumanizeIdentifier("ValueError")))), [], None;
        }
        var bar: ProgressBar? := null;
        if showProgress {
          bar := new ProgressBar(length.value);
        }
        var pieces := ChunksOf(response.body, CHUNK_SIZE);
        var i := 0;
        while i < |pieces|
          invariant 0 <= i <= |pieces|
          invariant digester.fed == Flatten(pieces[..i])
          invariant bar != null ==> bar.n == |digester.fed|
        {
          var data := pieces[i];
          if showProgress {
            bar.Update(|data|);
          }
          digester.Update(data);
          FlattenAppend(pieces[..i], [data]);
          assert pieces[..i + 1] == pieces[..i] + [data];
          i := i + 1;
        }
        assert pieces[..i] == pieces;
        ChunksReassemble(response.body, CHUNK_SIZE);
        assert digester.fed == response.body;
        if bar != null {
          progress := Some(bar.n);
        }
        if response.brokenBy.Some? {
          var message := HumanizeIdentifier(response.brokenBy.value);
          return Err(DownloadFailed(FailureMessage(targetUrl, message))), digester.fed, progress;
        }
      }
    } else {
      digester.Update(Utf8(moduleUrl));
    }
    return Ok((hexdigest(digest, digester.fed), digester.name)), digester.fed, progress;
  }
}
