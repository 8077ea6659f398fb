/**
 * The HTTP side of the broken-link check, reduced to what the check can
 * observe: the HEAD requests it sends and the status codes (or failures)
 * that come back. Connection set-up, TLS and the wire protocol are not
 * modelled; the server is an arbitrary response function.
 */
module Http {
  import opened Wrappers
  import opened Uris

  datatype Credentials = Credentials(username: string, password: string)

  /**
   * One HEAD request as the check builds it: the connection's host, port
   * and TLS flag, the request target, and the Basic-auth credentials if any.
   */
  datatype Request = Request(host: string, port: int, tls: bool, target: Uri, credentials: Option<Credentials>)

  /**
   * What a request yields: the numeric status code of the response, or a
   * failure (connection refused, DNS, TLS, timeout) that the Ruby code does
   * not catch and that therefore propagates out of the check.
   */
  datatype Reply = Answered(code: int) | Failed

  /**
   * The network as seen from one check: every request sent is appended to
   * `log`, and the answer to the k-th request (counting from 0) is
   * `respond(k, request)`, so a server may answer the same URI differently
   * at different times.
   */
  class Network {
    const respond: (nat, Request) -> Reply
    var log: seq<Request>

    constructor (respond: (nat, Request) -> Reply)
      ensures this.respond == respond && log == []
    {
      this.respond := respond;
      log := [];
    }

    /** Sends one HEAD request and returns the server's reply. */
    method Head(request: Request) returns (reply: Reply)
      modifies this
      ensures log == old(log) + [request]
      ensures reply == respond(|old(log)|, request)
    {
      reply := respond(|log|, request);
      log := log + [request];
    }
  }
}
