/**
 * The broken-link check: drop links a browser would not follow, resolve the
 * rest against the crawl scope, look up each URI's HTTP status through a
 * per-instance cache, and warn about every link whose status is outside
 * 200..399.
 *
 * The pure functions below are the specification; the class BrokenLinks
 * holds the cache and runs the check step by step, and its methods are
 * proved to agree with the functions.
 */
module BrokenLinks {
  import opened Wrappers
  import opened Checks
  import opened Uris
  import opened Decimal
  import opened Http

  // ---------------------------------------------------------------- filtering

  predicate StartsWith(s: string, prefix: string)
  {
    |prefix| <= |s| && s[..|prefix|] == prefix
  }

  /** Targets a browser does not follow: phone numbers, mail addresses, same-page fragments. */
  predicate Unfollowable(href: string)
  {
    StartsWith(href, "tel:") || StartsWith(href, "mailto:") || StartsWith(href, "#")
  }

  /** The hrefs that survive `reject!`, in their original order. */
  function Followable(hrefs: seq<string>): (r: seq<string>)
    ensures |r| <= |hrefs|
    decreases |hrefs|
  {
    if hrefs == [] then []
    else (if Unfollowable(hrefs[0]) then [] else [hrefs[0]]) + Followable(hrefs[1..])
  }

  /** `map!` with URI.join: each kept href resolved against the scope, position by position. */
  function Resolve(scope: string, join: (string, string) -> Uri, links: seq<string>): (r: seq<Uri>)
    ensures |r| == |links|
    ensures forall i :: 0 <= i < |links| ==> r[i] == join(scope, links[i])
  {
    seq(|links|, i requires 0 <= i < |links| => join(scope, links[i]))
  }

  // ----------------------------------------------------------- classification

  predicate Broken(status: int)
  {
    status < 200 || status >= 400
  }

  /** The warning text: fixed prefix, the URI's text, " (HTTP ", the decimal status, ")". */
  function Message(uri: Uri, status: int): (r: string)
    ensures StartsWith(r, "Broken link: " + uri.text + " (HTTP ")
    ensures r[|r| - 1] == ')'
  {
    "Broken link: " + uri.text + " (HTTP " + IntToString(status) + ")"
  }

  /** The findings one resolved link contributes. */
  function Classify(uri: Uri, status: int): (r: seq<Finding>)
    ensures |r| <= 1
    ensures r != [] <==> Broken(status)
    ensures r != [] ==> r[0].kind == Warning && r[0].message == Message(uri, status)
  {
    if Broken(status) then [Finding(Warning, Message(uri, status))] else []
  }

  /** Reference report: the findings of every link in order, given the final status of each URI. */
  function Report(uris: seq<Uri>, status: map<Uri, int>): seq<Finding>
    requires forall u :: u in uris ==> u in status
    decreases |uris|
  {
    if uris == [] then [] else Classify(uris[0], status[uris[0]]) + Report(uris[1..], status)
  }

  // ------------------------------------------------------ request construction

  /**
   * The HEAD request for `uri`: TLS exactly for the "https" scheme, and
   * Basic-auth credentials exactly when both username and password are set
   * and the host occurs somewhere in the scope string.
   */
  function RequestFor(args: Arguments, uri: Uri): (r: Request)
    ensures r.host == uri.host && r.port == uri.port && r.target == uri
    ensures r.tls <==> uri.scheme == "https"
    ensures r.credentials.Some? <==>
              args.username.Some? && args.password.Some? && IsSubstring(uri.host, args.scope)
    ensures r.credentials.Some? ==>
              r.credentials.value == Credentials(args.username.value, args.password.value)
  {
    IncludesIsSubstring(args.scope, uri.host);
    var credentials :=
      if args.username.Some? && args.password.Some? && Includes(args.scope, uri.host)
      then Some(Credentials(args.username.value, args.password.value))
      else None;
    Request(uri.host, uri.port, uri.scheme == "https", uri, credentials)
  }

  // ------------------------------------------------------------ specification

  /** The state one status lookup leaves behind: its reply, the cache and the request log. */
  datatype Step = Step(reply: Reply, cache: map<Uri, int>, log: seq<Request>)

  /** One status lookup: a hit answers from the cache; a miss sends one request and caches its code. */
  function Lookup(args: Arguments, respond: (nat, Request) -> Reply,
                  cache: map<Uri, int>, log: seq<Request>, uri: Uri): (r: Step)
    ensures Extends(cache, r.cache)
    ensures r.reply.Answered? ==> uri in r.cache && r.cache[uri] == r.reply.code
    ensures uri in cache ==> r.reply == Answered(cache[uri]) && r.log == log
    ensures uri !in cache ==> r.log == log + [RequestFor(args, uri)]
  {
    if uri in cache then Step(Answered(cache[uri]), cache, log)
    else
      var request := RequestFor(args, uri);
      var reply := respond(|log|, request);
      Step(reply, if reply.Answered? then cache[uri := reply.code] else cache, log + [request])
  }

  /** The result of a check: its findings, or the URI whose request raised. */
  datatype Outcome = Completed(findings: seq<Finding>) | Aborted(at: Uri)

  datatype Run = Run(outcome: Outcome, cache: map<Uri, int>, log: seq<Request>)

  /** The check's loop over resolved links, with `acc` the findings so far. */
  function Walk(args: Arguments, respond: (nat, Request) -> Reply,
                cache: map<Uri, int>, log: seq<Request>, uris: seq<Uri>, acc: seq<Finding>): (r: Run)
    decreases |uris|
  {
    if uris == [] then Run(Completed(acc), cache, log)
    else
      var step := Lookup(args, respond, cache, log, uris[0]);
      match step.reply
      case Failed => Run(Aborted(uris[0]), step.cache, step.log)
      case Answered(code) =>
        Walk(args, respond, step.cache, step.log, uris[1..], acc + Classify(uris[0], code))
  }

  /** One step of the loop: the first link's lookup decides whether the walk stops or goes on. */
  lemma WalkUnfold(args: Arguments, respond: (nat, Request) -> Reply,
                   cache: map<Uri, int>, log: seq<Request>, uris: seq<Uri>, acc: seq<Finding>)
    requires uris != []
    ensures var step := Lookup(args, respond, cache, log, uris[0]);
      Walk(args, respond, cache, log, uris, acc)
        == match step.reply
           case Failed => Run(Aborted(uris[0]), step.cache, step.log)
           case Answered(code) =>
             Walk(args, respond, step.cache, step.log, uris[1..], acc + Classify(uris[0], code))
  {
  }

  /** `b` keeps every entry of `a` with the same value. */
  predicate Extends(a: map<Uri, int>, b: map<Uri, int>)
  {
    forall u :: u in a ==> u in b && b[u] == a[u]
  }

  // -------------------------------------------------------------- the check

  class BrokenLinks {
    const arguments: Arguments
    var cache: map<Uri, int>

    /** A new check starts with an empty status cache. */
    constructor (arguments: Arguments)
      ensures this.arguments == arguments && cache == map[]
    {
      this.arguments := arguments;
      cache := map[];
    }

    /**
     * Checks one page, given as the href values of its anchors in document
     * order. `join` is URI.join; `net` carries the HEAD requests.
     */
    method Check(page: seq<string>, join: (string, string) -> Uri, net: Network) returns (r: Outcome)
      modifies this, net
      ensures Run(r, cache, net.log)
           == Walk(arguments, net.respond, old(cache), old(net.log),
                   Resolve(arguments.scope, join, Followable(page)), [])
      ensures Extends(old(cache), cache)
    {
      var urls := Followable(page);
      var uris := Resolve(arguments.scope, join, urls);
      var results: seq<Finding> := [];
      var i := 0;
      while i < |uris|
        invariant 0 <= i <= |uris|
        invariant Walk(arguments, net.respond, cache, net.log, uris[i..], results)
               == Walk(arguments, net.respond, old(cache), old(net.log), uris, [])
        invariant Extends(old(cache), cache)
      {
        assert uris[i..][1..] == uris[i + 1..];
        ghost var before, sent := cache, net.log;
        var status := Status(uris[i], net);
        assert Lookup(arguments, net.respond, before, sent, uris[i]) == Step(status, cache, net.log);
        WalkUnfold(arguments, net.respond, before, sent, uris[i..], results);
        if status.Failed? {
          return Aborted(uris[i]);
        }
        if status.code < 200 || status.code >= 400 {
          results := results + [Finding(Warning, Message(uris[i], status.code))];
        } else {
          assert results + Classify(uris[i], status.code) == results;
        }
        i := i + 1;
      }
      return Completed(results);
    }

    /**
     * The status of `uri`: from the cache on a hit, with no request; on a
     * miss, from exactly one HEAD request, whose code is then cached.
     */
    method Status(uri: Uri, net: Network) returns (r: Reply)
      modifies this, net
      ensures uri in old(cache) ==>
                r == Answered(old(cache)[uri]) && cache == old(cache) && net.log == old(net.log)
      ensures uri !in old(cache) ==>
                && net.log == old(net.log) + [RequestFor(arguments, uri)]
                && r == net.respond(|old(net.log)|, RequestFor(arguments, uri))
                && cache == (if r.Answered? then old(cache)[uri := r.code] else old(cache))
    {
      if uri in cache {
        return Answered(cache[uri]);
      }
      var request := RequestFor(arguments, uri);
      r := net.Head(request);
      if r.Answered? {
        cache := cache[uri := r.code];
      }
    }
  }
}
