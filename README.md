# Broken-link check, modelled in Dafny

This project models the broken-link check of the awacs site crawler
(`src/checks/BrokenLinks.rb`). The crawler calls this check on every page
it fetches. The check does the following:

- It takes the `href` values of the page's anchors.
- It drops `tel:`, `mailto:` and same-page `#` targets.
- It resolves every other target against the crawl scope with `URI.join`.
- It looks up each resolved URI's HTTP status through a cache that belongs
  to the check instance. On a cache miss it sends one HEAD request. That
  request uses TLS for `https`, and it carries Basic-auth credentials when a
  username and a password are configured and the scope string contains the
  URI's host.
- It returns one WARNING `Broken link: <uri> (HTTP <status>)` for every link
  whose status is below 200 or at least 400, in page order.

Layout:

- `checks.dfy` (module `Checks`) declares what the absent base class `Check`
  provides: the finding kinds, the finding record and the run arguments
  (`scope`, optional `username`, optional `password`). Check.rb is not part
  of this model.
- `uris.dfy` (module `Uris`) holds the URI record and `String#include?`,
  with its reference definition.
- `decimal.dfy` (module `Decimal`) holds `Integer#to_s`, with its inverse.
- `http.dfy` (module `Http`) holds the HEAD request, the reply and the
  `Network` object. `Network` logs every request it is sent and answers each
  one through an arbitrary response function.
- `broken_links.dfy` (module `BrokenLinks`) holds the specification
  functions and the class `BrokenLinks`:
  - `BrokenLinks` has the `cache` field, `Check` and `Status`.
  - `Check`'s loop is proved to compute exactly `Walk`, the specification
    of the whole check.
  - `Status` states its hit case and its miss case outright.
- `broken_links_properties.dfy` (module `BrokenLinksProperties`) holds the
  lemmas about the specification.

Abstracted collaborators:

- HTML parsing: a page is given as the sequence of its href strings.
- `URI.join`: passed to `Check` as an arbitrary total function
  `join(scope, href)`.
- The server: `Network.respond(k, request)` gives the reply to the k-th
  request. A reply is either a status code or `Failed`. `Failed` stands for
  an exception from `http.start` or `http.request`. The Ruby code does not
  catch that exception, so the model propagates it: `Check` returns
  `Aborted(uri)`. Cache entries written earlier in the same call stay, as in
  Ruby.

Points where the code behaves differently from what one might expect; the model follows the code:

- Credentials are attached when the scope *string contains* the host, not
  when the hosts are equal. `CredentialsReachOtherHost` shows that the host
  `ample.com` receives the credentials under the scope
  `https://example.com/news`.
- A failed request is not turned into a sentinel status. It propagates out
  of the check.
- A malformed href is not skipped. In Ruby, `URI.join` raises on it. The
  model treats `join` as total, so this case is not modelled (see
  "## Left out").

## Model

| member | source | states |
|---|---|---|
| `BrokenLinks.BrokenLinks.constructor` | src/checks/BrokenLinks.rb:8-11 | a new check keeps the run arguments and starts with an empty status cache |
| `BrokenLinks.BrokenLinks.Check` | src/checks/BrokenLinks.rb:13-29 | the outcome, the new cache and the requests sent are exactly `Walk` over the resolved followable hrefs, starting from the old cache; the cache only grows |
| `BrokenLinks.BrokenLinks.Status` | src/checks/BrokenLinks.rb:33-47 | hit: returns the cached code, sends nothing, leaves the cache unchanged; miss: sends exactly the request `RequestFor` builds, returns the server's reply, caches the code under the resolved URI only when there was an answer, and changes no other entry |
| `BrokenLinks.Followable` | src/checks/BrokenLinks.rb:19 | filtering never yields more hrefs than the page has (which ones survive is `FollowableMembers`) |
| `BrokenLinks.Resolve` | src/checks/BrokenLinks.rb:22 | one URI per kept href, in the same order, each the result of `URI.join(scope, href)` |
| `BrokenLinks.Message` | src/checks/BrokenLinks.rb:26 | the warning text starts with "Broken link: ", the URI text and " (HTTP ", and ends with ")" |
| `BrokenLinks.Lookup` | src/checks/BrokenLinks.rb:33-46 | one status lookup never removes or changes a cache entry; an answered lookup leaves the URI cached with the answered code; a hit replies with the cached code and sends nothing; a miss sends exactly the `RequestFor` request |
| `BrokenLinks.Walk` | src/checks/BrokenLinks.rb:24-27 | the specification of the check's loop over resolved links; it has no contract of its own, and the `Walk...` lemmas below state its properties |
| `BrokenLinks.Classify` | src/checks/BrokenLinks.rb:26 | a link yields a finding exactly when its status is below 200 or at least 400; that finding is a single WARNING with the message for that URI and status; otherwise it yields nothing |
| `BrokenLinks.RequestFor` | src/checks/BrokenLinks.rb:36-42 | the connection goes to the URI's host and port; TLS exactly when the scheme is "https"; credentials present exactly when username and password are both set and the host is a substring of the scope; when present they are that username and password |
| `Http.Network.constructor` | src/checks/BrokenLinks.rb:36-38 | a network starts with no request sent and answers through the given response function |
| `Http.Network.Head` | src/checks/BrokenLinks.rb:38-43 | a request is appended to the log, and its reply is the server's answer to the request at that position |
| `Uris.Includes` | src/checks/BrokenLinks.rb:40 | `include?`: true only when the host is no longer than the scope, and always for an empty host (both directions are `IncludesIsSubstring`) |
| `Uris.IncludesIsSubstring` | src/checks/BrokenLinks.rb:40 | the `include?` scan is true exactly when the host occurs contiguously somewhere in the scope |
| `Decimal.IntToString` | src/checks/BrokenLinks.rb:26 | `to_s` of a status is non-empty and starts with "-" exactly when the status is negative |
| `Decimal.NatToDecimalRoundTrip` | src/checks/BrokenLinks.rb:26 | the decimal text of a status is a non-empty digit string without leading zero that reads back as the status |
| `Decimal.IntToStringInjective` | src/checks/BrokenLinks.rb:26 | different status codes are written differently, negatives included |
| `BrokenLinksProperties.FollowableMembers` | src/checks/BrokenLinks.rb:19 | an href survives filtering exactly when it is on the page and starts with none of tel:, mailto:, #; filtering never adds hrefs |
| `BrokenLinksProperties.FollowableConcat` | src/checks/BrokenLinks.rb:19 | filtering works element by element and keeps order: it distributes over concatenation |
| `BrokenLinksProperties.DroppedHrefIsInert` | src/checks/BrokenLinks.rb:19-22 | inserting a tel:, mailto: or # href anywhere leaves the links that are resolved, looked up and reported unchanged, so it never yields a finding or a request |
| `BrokenLinksProperties.FollowableKeepsOthers` | src/checks/BrokenLinks.rb:19 | hrefs that are all followable pass through unchanged, duplicates included |
| `BrokenLinksProperties.MessageFormat` | src/checks/BrokenLinks.rb:26 | the message is "Broken link: ", the URI text, " (HTTP ", the decimal status, ")"; for a non-negative status the middle part reads back as the status |
| `BrokenLinksProperties.MessageDeterminesStatus` | src/checks/BrokenLinks.rb:26 | for one URI, equal messages mean equal statuses |
| `BrokenLinksProperties.ReportConcat` | src/checks/BrokenLinks.rb:24-27 | the report of consecutive links is the concatenation of their reports: page order is kept and duplicate links are not merged |
| `BrokenLinksProperties.ReportFindings` | src/checks/BrokenLinks.rb:24-28 | at most one finding per link, and each finding is a WARNING about a page link whose status is broken, worded with that status |
| `BrokenLinksProperties.ReportEmpty` | src/checks/BrokenLinks.rb:24-27 | a page has no findings exactly when every link's status lies in 200..399 |
| `BrokenLinksProperties.WalkExtends` | src/checks/BrokenLinks.rb:34-44 | a check never removes or overwrites a cache entry; it only appends requests, at most one per link |
| `BrokenLinksProperties.WalkKeys` | src/checks/BrokenLinks.rb:22-25 | after a completed check the cache keys are the old keys plus exactly the resolved URIs of the page; raw hrefs never become keys |
| `BrokenLinksProperties.WalkFindings` | src/checks/BrokenLinks.rb:24-28 | a completed check returns exactly the reference report: one finding per broken occurrence, in page order, each with the status now cached for its URI |
| `BrokenLinksProperties.WalkAborted` | src/checks/BrokenLinks.rb:38-46 | a check that aborts stopped at a page link whose request, the last one sent, failed; that link stays uncached |
| `BrokenLinksProperties.WalkRequestTargets` | src/checks/BrokenLinks.rb:34-42 | requests are only appended, and every request sent is for a resolved page link that was not cached when the check began |
| `BrokenLinksProperties.WalkRequestsBuilt` | src/checks/BrokenLinks.rb:36-42 | every request sent is exactly the `RequestFor` request for its target |
| `BrokenLinksProperties.WalkRequestsDistinct` | src/checks/BrokenLinks.rb:34-44 | no URI is requested twice in one check |
| `BrokenLinksProperties.WalkRequestsCover` | src/checks/BrokenLinks.rb:43-44 | every URI that became a cache key was requested in that check |
| `BrokenLinksProperties.WalkAllCached` | src/checks/BrokenLinks.rb:34 | a page whose links are all cached is checked with no request and no cache change, using the cached statuses |
| `BrokenLinksProperties.RevisitSendsNothing` | src/checks/BrokenLinks.rb:34 | once a page has been checked, a later page using only its URIs sends nothing and reports the statuses recorded the first time |
| `BrokenLinksProperties.CredentialsReachOtherHost` | src/checks/BrokenLinks.rb:40 | substring containment gives credentials to host "ample.com" under scope "https://example.com/news" |
| `BrokenLinksProperties.EndToEndScenario` | src/checks/BrokenLinks.rb:13-29 | a page with /ok (200), /broken (404), #top and a mailto link under https://example.com gives exactly one warning, "Broken link: https://example.com/broken (HTTP 404)", and sends two requests |

## Left out

- HTML parsing with Nokogiri (lines 14-15): the page is given as its href values in document order. Malformed markup is the parser's concern.
- The internals of `URI.join` (reference resolution per section 5.2 of RFC 3986): `join` is an arbitrary total function. The `URI::InvalidURIError` it raises on a malformed href is not modelled.
- URI equality as a Hash key is modelled as equality of the URI record (scheme, host, port, text).
- A resolved URI that has no host or is not `http`/`https` (for example `javascript:void(0)` or `ftp://host/f`): in Ruby, `Net::HTTP::Head.new uri` (line 39) raises `ArgumentError` for it, inside `Net::HTTPGenericRequest#initialize`, which is not part of this model. So the Ruby check always aborts on such a link. The model lets `respond` answer such a request with `Failed`, which aborts the check as in Ruby, but it does not force `Failed`: a `respond` that answers with a code is also admitted.
- Net::HTTP connection set-up, TLS negotiation and the HEAD round-trip: the server is the function `Network.respond`. Every exception they can raise is the single reply `Failed`.
- How `.code.to_i` parses the response's code string: the reply carries the integer code directly.
- The base class Check.rb is not part of this model. `Checks.Kind.Error` is declared for other checks and is never produced here.
- `src/IO/usage_instructions.rb`: it only prints fixed help text.
- Concurrency, the crawler, the CLI parser and the output formatters: none of them are among the modelled files.
