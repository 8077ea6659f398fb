/**
 * What the broken-link check guarantees, stated over its specification
 * (Followable, Report, Walk), which BrokenLinks.Check is proved to follow.
 */
module BrokenLinksProperties {
  import opened Wrappers
  import opened Checks
  import opened Uris
  import opened Decimal
  import opened Http
  import opened BrokenLinks

  // ---------------------------------------------------------------- filtering

  /** Filtering works element by element, so it distributes over concatenation. */
  lemma {:induction false} FollowableConcat(a: seq<string>, b: seq<string>)
    ensures Followable(a + b) == Followable(a) + Followable(b)
    decreases |a|
  {
    if a == [] {
      assert a + b == b;
    } else {
      assert (a + b)[0] == a[0] && (a + b)[1..] == a[1..] + b;
      FollowableConcat(a[1..], b);
    }
  }

  /** Exactly the followable hrefs survive filtering, and never more of them than there were. */
  lemma {:induction false} FollowableMembers(hrefs: seq<string>)
    ensures |Followable(hrefs)| <= |hrefs|
    ensures forall h :: h in Followable(hrefs) <==> h in hrefs && !Unfollowable(h)
    decreases |hrefs|
  {
    if hrefs != [] {
      FollowableMembers(hrefs[1..]);
      assert forall h :: h in hrefs <==> h == hrefs[0] || h in hrefs[1..];
    }
  }

  /**
   * A tel:, mailto: or fragment href anywhere on the page changes nothing:
   * the links that are resolved, looked up and reported are the same as
   * without it.
   */
  lemma DroppedHrefIsInert(a: seq<string>, h: string, b: seq<string>)
    requires Unfollowable(h)
    ensures Followable(a + [h] + b) == Followable(a + b)
  {
    calc {
      Followable(a + [h] + b);
      { FollowableConcat(a + [h], b); }
      Followable(a + [h]) + Followable(b);
      { FollowableConcat(a, [h]); assert [h][1..] == []; }
      Followable(a) + Followable(b);
      { FollowableConcat(a, b); }
      Followable(a + b);
    }
  }

  /** Hrefs that are all followable are passed on unchanged, in order and with duplicates. */
  lemma {:induction false} FollowableKeepsOthers(hrefs: seq<string>)
    requires forall i :: 0 <= i < |hrefs| ==> !Unfollowable(hrefs[i])
    ensures Followable(hrefs) == hrefs
    decreases |hrefs|
  {
    if hrefs != [] {
      FollowableKeepsOthers(hrefs[1..]);
    }
  }

  // ----------------------------------------------------------------- messages

  /** The warning text is the fixed prefix, the URI's text, " (HTTP ", the decimal status, ")". */
  lemma MessageFormat(uri: Uri, status: int)
    ensures var m := Message(uri, status);
      var p := "Broken link: " + uri.text + " (HTTP ";
      && StartsWith(m, p) && m[|m| - 1] == ')'
      && m[|p|..|m| - 1] == IntToString(status)
      && (status >= 0 ==> IsDigits(IntToString(status)) && DecimalValue(IntToString(status)) == status)
  {
    if status >= 0 {
      NatToDecimalRoundTrip(status);
    }
  }

  /** For a given URI the message determines the status code. */
  lemma MessageDeterminesStatus(uri: Uri, s1: int, s2: int)
    requires Message(uri, s1) == Message(uri, s2)
    ensures s1 == s2
  {
    MessageFormat(uri, s1);
    MessageFormat(uri, s2);
    IntToStringInjective(s1, s2);
  }

  // ------------------------------------------------------------------- report

  /** The report of consecutive links is the concatenation of their reports: order kept, duplicates not merged. */
  lemma {:induction false} ReportConcat(a: seq<Uri>, b: seq<Uri>, status: map<Uri, int>)
    requires forall u :: u in a + b ==> u in status
    ensures Report(a + b, status) == Report(a, status) + Report(b, status)
    decreases |a|
  {
    if a == [] {
      assert a + b == b;
    } else {
      assert (a + b)[0] == a[0] && (a + b)[1..] == a[1..] + b;
      assert Report(a + b, status) == Classify(a[0], status[a[0]]) + Report(a[1..] + b, status);
      ReportConcat(a[1..], b, status);
      assert Report(a, status) == Classify(a[0], status[a[0]]) + Report(a[1..], status);
    }
  }

  /**
   * At most one finding per link, and every finding is a WARNING about a
   * link of the page whose status is broken, worded with that status.
   */
  lemma {:induction false} ReportFindings(uris: seq<Uri>, status: map<Uri, int>)
    requires forall u :: u in uris ==> u in status
    ensures |Report(uris, status)| <= |uris|
    ensures forall f :: f in Report(uris, status) ==>
              f.kind == Warning &&
              exists u :: u in uris && Broken(status[u]) && f.message == Message(u, status[u])
    decreases |uris|
  {
    if uris != [] {
      ReportFindings(uris[1..], status);
      forall f | f in Report(uris, status)
        ensures f.kind == Warning &&
                exists u :: u in uris && Broken(status[u]) && f.message == Message(u, status[u])
      {
        if f in Classify(uris[0], status[uris[0]]) {
          assert uris[0] in uris;
        } else {
          assert f in Report(uris[1..], status);
          var u :| u in uris[1..] && Broken(status[u]) && f.message == Message(u, status[u]);
          assert u in uris;
        }
      }
    }
  }

  /** There are no findings exactly when every link's status is in 200..399. */
  lemma {:induction false} ReportEmpty(uris: seq<Uri>, status: map<Uri, int>)
    requires forall u :: u in uris ==> u in status
    ensures Report(uris, status) == [] <==> forall u :: u in uris ==> !Broken(status[u])
    decreases |uris|
  {
    if uris != [] {
      ReportEmpty(uris[1..], status);
      assert forall u :: u in uris ==> u == uris[0] || u in uris[1..];
    }
  }

  // --------------------------------------------------------------- the loop

  /** The cache only grows, with unchanged values, and requests are only ever appended. */
  lemma {:induction false} WalkExtends(args: Arguments, respond: (nat, Request) -> Reply,
                                       cache: map<Uri, int>, log: seq<Request>,
                                       uris: seq<Uri>, acc: seq<Finding>)
    ensures var r := Walk(args, respond, cache, log, uris, acc);
      && Extends(cache, r.cache)
      && |log| <= |r.log| <= |log| + |uris| && r.log[..|log|] == log
    decreases |uris|
  {
    if uris != [] {
      var step := Lookup(args, respond, cache, log, uris[0]);
      if step.reply.Answered? {
        WalkExtends(args, respond, step.cache, step.log, uris[1..], acc + Classify(uris[0], step.reply.code));
        var r := Walk(args, respond, cache, log, uris, acc);
        assert r.log[..|step.log|][..|log|] == r.log[..|log|];
      }
    }
  }

  /**
   * A completed check has looked up every link: the cache keys afterwards
   * are the keys before plus exactly the page's resolved URIs.
   */
  lemma {:induction false} WalkKeys(args: Arguments, respond: (nat, Request) -> Reply,
                                    cache: map<Uri, int>, log: seq<Request>,
                                    uris: seq<Uri>, acc: seq<Finding>)
    requires Walk(args, respond, cache, log, uris, acc).outcome.Completed?
    ensures Walk(args, respond, cache, log, uris, acc).cache.Keys == cache.Keys + (set u | u in uris)
    decreases |uris|
  {
    if uris != [] {
      var u := uris[0];
      var step := Lookup(args, respond, cache, log, u);
      var rest := uris[1..];
      WalkUnfold(args, respond, cache, log, uris, acc);
      WalkKeys(args, respond, step.cache, step.log, rest, acc + Classify(u, step.reply.code));
      assert step.cache.Keys == cache.Keys + {u};
      assert uris == [u] + rest;
      assert (set v | v in uris) == {u} + (set v | v in rest);
    }
  }

  /**
   * The findings of a completed check are exactly the reference report
   * computed from the final cache: one per broken occurrence, in page order.
   */
  lemma {:induction false} WalkFindings(args: Arguments, respond: (nat, Request) -> Reply,
                                        cache: map<Uri, int>, log: seq<Request>,
                                        uris: seq<Uri>, acc: seq<Finding>)
    requires Walk(args, respond, cache, log, uris, acc).outcome.Completed?
    ensures var r := Walk(args, respond, cache, log, uris, acc);
      && (forall u :: u in uris ==> u in r.cache)
      && r.outcome.findings == acc + Report(uris, r.cache)
    decreases |uris|
  {
    if uris == [] {
      assert acc + [] == acc;
    } else {
      var u := uris[0];
      var step := Lookup(args, respond, cache, log, u);
      var code := step.reply.code;
      var rest := uris[1..];
      var c := Classify(u, code);
      var r := Walk(args, respond, cache, log, uris, acc);
      assert r == Walk(args, respond, step.cache, step.log, rest, acc + c);
      assert u in step.cache && step.cache[u] == code;
      WalkFindings(args, respond, step.cache, step.log, rest, acc + c);
      WalkExtends(args, respond, step.cache, step.log, rest, acc + c);
      assert u in r.cache && r.cache[u] == code;
      assert forall v :: v in uris ==> v == u || v in rest;
      assert Report(uris, r.cache) == c + Report(rest, r.cache);
      AppendAssociates(acc, c, Report(rest, r.cache));
    }
  }

  lemma AppendAssociates<T>(a: seq<T>, b: seq<T>, c: seq<T>)
    ensures a + b + c == a + (b + c)
  {
  }

  /** A check that aborts stops at a link of the page whose (last) request failed and left it uncached. */
  lemma {:induction false} WalkAborted(args: Arguments, respond: (nat, Request) -> Reply,
                                       cache: map<Uri, int>, log: seq<Request>,
                                       uris: seq<Uri>, acc: seq<Finding>)
    requires Walk(args, respond, cache, log, uris, acc).outcome.Aborted?
    ensures var r := Walk(args, respond, cache, log, uris, acc);
      && r.outcome.at in uris && r.outcome.at !in r.cache && |r.log| > |log|
      && r.log[|r.log| - 1] == RequestFor(args, r.outcome.at)
      && respond(|r.log| - 1, r.log[|r.log| - 1]) == Failed
    decreases |uris|
  {
    var u := uris[0];
    var step := Lookup(args, respond, cache, log, u);
    var r := Walk(args, respond, cache, log, uris, acc);
    WalkUnfold(args, respond, cache, log, uris, acc);
    if step.reply.Answered? {
      var rest := uris[1..];
      var acc' := acc + Classify(u, step.reply.code);
      assert r == Walk(args, respond, step.cache, step.log, rest, acc');
      WalkAborted(args, respond, step.cache, step.log, rest, acc');
      assert r.outcome.at in rest;
    } else {
      assert u !in cache;
      assert r == Run(Aborted(u), cache, log + [RequestFor(args, u)]);
    }
  }

  /** Every request a check sends is for a link of the page that was not cached when the check began. */
  lemma {:induction false} WalkRequestTargets(args: Arguments, respond: (nat, Request) -> Reply,
                                              cache: map<Uri, int>, log: seq<Request>,
                                              uris: seq<Uri>, acc: seq<Finding>)
    ensures var r := Walk(args, respond, cache, log, uris, acc);
      && |log| <= |r.log| && r.log[..|log|] == log
      && forall j :: |log| <= j < |r.log| ==> r.log[j].target in uris && r.log[j].target !in cache
    decreases |uris|
  {
    var r := Walk(args, respond, cache, log, uris, acc);
    if uris == [] {
      assert r.log == log && log[..|log|] == log;
    } else {
      var u := uris[0];
      var step := Lookup(args, respond, cache, log, u);
      if step.reply.Answered? {
        var rest := uris[1..];
        var acc' := acc + Classify(u, step.reply.code);
        assert r == Walk(args, respond, step.cache, step.log, rest, acc');
        WalkRequestTargets(args, respond, step.cache, step.log, rest, acc');
        assert uris == [u] + rest;
        if u in cache {
          assert step.cache == cache && step.log == log;
        } else {
          RequestTargetsMiss(cache, log, u, step.cache, step.log, rest, r.log);
        }
      } else {
        assert r.log == log + [RequestFor(args, u)];
        assert r.log[..|log|] == log;
      }
    }
  }

  /** The miss case of WalkRequestTargets, stated over plain values. */
  lemma RequestTargetsMiss(cache: map<Uri, int>, log: seq<Request>, u: Uri,
                           cache': map<Uri, int>, log': seq<Request>, rest: seq<Uri>, final: seq<Request>)
    requires u !in cache && cache'.Keys == cache.Keys + {u}
    requires |log'| == |log| + 1 && log'[..|log|] == log && log'[|log|].target == u
    requires |log'| <= |final| && final[..|log'|] == log'
    requires forall j :: |log'| <= j < |final| ==> final[j].target in rest && final[j].target !in cache'
    ensures |log| <= |final| && final[..|log|] == log
    ensures forall j :: |log| <= j < |final| ==> final[j].target in [u] + rest && final[j].target !in cache
  {
    assert final[..|log|] == final[..|log'|][..|log|];
    assert final[|log|] == log'[|log|];
  }

  /** Every request a check sends is the request RequestFor builds for its target. */
  lemma {:induction false} WalkRequestsBuilt(args: Arguments, respond: (nat, Request) -> Reply,
                                             cache: map<Uri, int>, log: seq<Request>,
                                             uris: seq<Uri>, acc: seq<Finding>)
    ensures var r := Walk(args, respond, cache, log, uris, acc);
      && |log| <= |r.log|
      && forall j :: |log| <= j < |r.log| ==> r.log[j] == RequestFor(args, r.log[j].target)
    decreases |uris|
  {
    if uris != [] {
      var u := uris[0];
      var step := Lookup(args, respond, cache, log, u);
      var r := Walk(args, respond, cache, log, uris, acc);
      if step.reply.Answered? {
        var acc' := acc + Classify(u, step.reply.code);
        assert r == Walk(args, respond, step.cache, step.log, uris[1..], acc');
        WalkRequestsBuilt(args, respond, step.cache, step.log, uris[1..], acc');
        if u !in cache {
          WalkExtends(args, respond, step.cache, step.log, uris[1..], acc');
          RequestsBuiltMiss(args, log, u, step.log, r.log);
        }
      } else {
        assert r.log == log + [RequestFor(args, u)];
      }
    }
  }

  /** The miss case of WalkRequestsBuilt, stated over plain values. */
  lemma RequestsBuiltMiss(args: Arguments, log: seq<Request>, u: Uri, log': seq<Request>, final: seq<Request>)
    requires log' == log + [RequestFor(args, u)]
    requires |log'| <= |final| && final[..|log'|] == log'
    requires forall j :: |log'| <= j < |final| ==> final[j] == RequestFor(args, final[j].target)
    ensures forall j :: |log| <= j < |final| ==> final[j] == RequestFor(args, final[j].target)
  {
    assert final[|log|] == log'[|log|];
  }

  /** No URI is requested twice within one check. */
  lemma {:induction false} WalkRequestsDistinct(args: Arguments, respond: (nat, Request) -> Reply,
                                                cache: map<Uri, int>, log: seq<Request>,
                                                uris: seq<Uri>, acc: seq<Finding>)
    ensures var r := Walk(args, respond, cache, log, uris, acc);
      forall j, k :: |log| <= j < k < |r.log| ==> r.log[j].target != r.log[k].target
    decreases |uris|
  {
    if uris != [] {
      var u := uris[0];
      var step := Lookup(args, respond, cache, log, u);
      var r := Walk(args, respond, cache, log, uris, acc);
      if step.reply.Answered? {
        var rest := uris[1..];
        var acc' := acc + Classify(u, step.reply.code);
        assert r == Walk(args, respond, step.cache, step.log, rest, acc');
        WalkRequestsDistinct(args, respond, step.cache, step.log, rest, acc');
        if u !in cache {
          WalkRequestTargets(args, respond, step.cache, step.log, rest, acc');
          RequestsDistinctMiss(cache, log, u, step.reply.code, step.cache, step.log, r.log);
        }
      }
    }
  }

  /** The miss case of WalkRequestsDistinct, stated over plain values. */
  lemma RequestsDistinctMiss(cache: map<Uri, int>, log: seq<Request>, u: Uri, code: int,
                             cache': map<Uri, int>, log': seq<Request>, final: seq<Request>)
    requires cache' == cache[u := code]
    requires |log'| == |log| + 1 && log'[|log|].target == u
    requires |log'| <= |final| && final[..|log'|] == log'
    requires forall k :: |log'| <= k < |final| ==> final[k].target !in cache'
    requires forall j, k :: |log'| <= j < k < |final| ==> final[j].target != final[k].target
    ensures forall j, k :: |log| <= j < k < |final| ==> final[j].target != final[k].target
  {
    assert final[|log|] == log'[|log|];
    assert forall k :: |log'| <= k < |final| ==> final[k].target != u;
  }

  /** Every URI that a check adds to the cache was requested by that check. */
  lemma {:induction false} WalkRequestsCover(args: Arguments, respond: (nat, Request) -> Reply,
                                             cache: map<Uri, int>, log: seq<Request>,
                                             uris: seq<Uri>, acc: seq<Finding>)
    ensures var r := Walk(args, respond, cache, log, uris, acc);
      forall u :: u in r.cache && u !in cache ==>
        exists j :: |log| <= j < |r.log| && r.log[j].target == u
    decreases |uris|
  {
    if uris != [] {
      var u := uris[0];
      var step := Lookup(args, respond, cache, log, u);
      var r := Walk(args, respond, cache, log, uris, acc);
      if step.reply.Answered? {
        var rest := uris[1..];
        var acc' := acc + Classify(u, step.reply.code);
        assert r == Walk(args, respond, step.cache, step.log, rest, acc');
        WalkRequestsCover(args, respond, step.cache, step.log, rest, acc');
        if u !in cache {
          WalkExtends(args, respond, step.cache, step.log, rest, acc');
          RequestsCoverMiss(cache, log, u, step.reply.code, step.cache, step.log, r.cache, r.log);
        }
      }
    }
  }

  /** The miss case of WalkRequestsCover, stated over plain values. */
  lemma RequestsCoverMiss(cache: map<Uri, int>, log: seq<Request>, u: Uri, code: int,
                          cache': map<Uri, int>, log': seq<Request>,
                          finalCache: map<Uri, int>, final: seq<Request>)
    requires cache' == cache[u := code]
    requires |log'| == |log| + 1 && log'[|log|].target == u
    requires |log'| <= |final| && final[..|log'|] == log'
    requires forall v :: v in finalCache && v !in cache' ==>
      exists j :: |log'| <= j < |final| && final[j].target == v
    ensures forall v :: v in finalCache && v !in cache ==>
      exists j :: |log| <= j < |final| && final[j].target == v
  {
    assert final[|log|] == log'[|log|];
    forall v | v in finalCache && v !in cache
      ensures exists j :: |log| <= j < |final| && final[j].target == v
    {
      if v == u {
        assert final[|log|].target == v;
      } else {
        assert v !in cache';
      }
    }
  }

  /** A page whose links are all cached is checked without any request and without changing the cache. */
  lemma {:induction false} WalkAllCached(args: Arguments, respond: (nat, Request) -> Reply,
                                         cache: map<Uri, int>, log: seq<Request>,
                                         uris: seq<Uri>, acc: seq<Finding>)
    requires forall u :: u in uris ==> u in cache
    ensures Walk(args, respond, cache, log, uris, acc) == Run(Completed(acc + Report(uris, cache)), cache, log)
    decreases |uris|
  {
    if uris != [] {
      var c := Classify(uris[0], cache[uris[0]]);
      assert Lookup(args, respond, cache, log, uris[0]) == Step(Answered(cache[uris[0]]), cache, log);
      assert Walk(args, respond, cache, log, uris, acc) == Walk(args, respond, cache, log, uris[1..], acc + c);
      WalkAllCached(args, respond, cache, log, uris[1..], acc + c);
      assert Report(uris, cache) == c + Report(uris[1..], cache);
      AppendAssociates(acc, c, Report(uris[1..], cache));
    } else {
      assert acc + [] == acc;
    }
  }

  /**
   * Two pages reaching the same URI through one check instance: once the
   * first page has been checked, a second page whose links all appeared on
   * the first sends no request, and reports each link with the status the
   * first check recorded.
   */
  lemma RevisitSendsNothing(args: Arguments, respond: (nat, Request) -> Reply,
                            cache: map<Uri, int>, log: seq<Request>,
                            first: seq<Uri>, second: seq<Uri>)
    requires Walk(args, respond, cache, log, first, []).outcome.Completed?
    requires forall u :: u in second ==> u in first
    ensures var r1 := Walk(args, respond, cache, log, first, []);
      && (forall u :: u in second ==> u in r1.cache)
      && Walk(args, respond, r1.cache, r1.log, second, [])
           == Run(Completed(Report(second, r1.cache)), r1.cache, r1.log)
  {
    var r1 := Walk(args, respond, cache, log, first, []);
    WalkFindings(args, respond, cache, log, first, []);
    WalkAllCached(args, respond, r1.cache, r1.log, second, []);
  }

  // ------------------------------------------------------ request construction

  /**
   * Because the credential test is substring containment on the scope
   * string, a host other than the scope's own can receive the credentials:
   * "ample.com" occurs inside "https://example.com/news".
   */
  lemma CredentialsReachOtherHost()
    ensures var args := Arguments("https://example.com/news", Some("user"), Some("secret"));
      RequestFor(args, Uri("https", "ample.com", 443, "https://ample.com/")).credentials
        == Some(Credentials("user", "secret"))
  {
    assert OccursAt("https://example.com/news", "ample.com", 10);
  }

  // ---------------------------------------------------------------- scenario

  /** The scenario page keeps exactly its two path links. */
  lemma ScenarioLinks()
    ensures Followable(["/ok", "/broken", "#top", "mailto:x@y.com"]) == ["/ok", "/broken"]
  {
    assert ["/ok", "/broken", "#top", "mailto:x@y.com"] == ["/ok", "/broken"] + ["#top", "mailto:x@y.com"];
    FollowableConcat(["/ok", "/broken"], ["#top", "mailto:x@y.com"]);
    ScenarioKeptLinks();
    ScenarioDroppedLinks();
  }

  lemma ScenarioKeptLinks()
    ensures Followable(["/ok", "/broken"]) == ["/ok", "/broken"]
  {
    assert !Unfollowable("/ok") by {
      assert "/ok"[..1] == "/";
    }
    assert !Unfollowable("/broken") by {
      assert "/broken"[..1] == "/" && "/broken"[..4] == "/bro" && "/broken"[..7] == "/broken";
    }
    FollowableKeepsOthers(["/ok", "/broken"]);
  }

  lemma ScenarioDroppedLinks()
    ensures Followable(["#top", "mailto:x@y.com"]) == []
  {
    var dropped := ["#top", "mailto:x@y.com"];
    assert StartsWith(dropped[0], "#");
    assert StartsWith(dropped[1], "mailto:");
    assert dropped[1..] == ["mailto:x@y.com"] && dropped[1..][1..] == [];
  }

  /** The scenario's warning text. */
  lemma ScenarioMessage()
    ensures Message(Uri("https", "example.com", 443, "https://example.com/broken"), 404)
         == "Broken link: https://example.com/broken (HTTP 404)"
  {
    ScenarioStatusText();
    var prefix := "Broken link: " + "https://example.com/broken";
    assert prefix == "Broken link: https://example.com/broken";
    assert prefix + " (HTTP " + "404" + ")" == "Broken link: https://example.com/broken (HTTP 404)";
  }

  /** 404 is written "404". */
  lemma ScenarioStatusText()
    ensures IntToString(404) == "404"
  {
    assert NatToDecimal(4) == "4";
    assert NatToDecimal(40) == "40";
  }

  /** URI.join for the scenario: the scope text followed by the absolute path. */
  function ScenarioJoin(scope: string, href: string): Uri
  {
    Uri("https", "example.com", 443, scope + href)
  }

  /** The scenario's server: 404 for /broken, 200 for everything else. */
  function ScenarioServer(k: nat, req: Request): Reply
  {
    if req.target.text == "https://example.com/broken" then Answered(404) else Answered(200)
  }

  /**
   * A page with links "/ok", "/broken", "#top" and "mailto:x@y.com" under
   * scope "https://example.com", against a server that answers 404 for
   * /broken and 200 otherwise: exactly one warning and two requests; the
   * fragment and mail links are never requested.
   */
  lemma EndToEndScenario()
    ensures
      var r := Walk(Arguments("https://example.com", None, None), ScenarioServer, map[], [],
                    Resolve("https://example.com", ScenarioJoin, Followable(["/ok", "/broken", "#top", "mailto:x@y.com"])), []);
      && r.outcome == Completed([Finding(Warning, "Broken link: https://example.com/broken (HTTP 404)")])
      && |r.log| == 2
  {
    ScenarioLinks();
    ScenarioUris();
    ScenarioWalk();
  }

  /** The scenario's two links, looked up in order from an empty cache. */
  lemma ScenarioWalk()
    ensures
      var r := Walk(Arguments("https://example.com", None, None), ScenarioServer, map[], [],
                    [Uri("https", "example.com", 443, "https://example.com/ok"),
                     Uri("https", "example.com", 443, "https://example.com/broken")], []);
      && r.outcome == Completed([Finding(Warning, "Broken link: https://example.com/broken (HTTP 404)")])
      && |r.log| == 2
  {
    var args := Arguments("https://example.com", None, None);
    var ok := Uri("https", "example.com", 443, "https://example.com/ok");
    var broken := Uri("https", "example.com", 443, "https://example.com/broken");
    assert ok != broken by { assert |ok.text| != |broken.text|; }
    var c1: map<Uri, int> := map[ok := 200];
    var l1 := [RequestFor(args, ok)];
    assert Lookup(args, ScenarioServer, map[], [], ok) == Step(Answered(200), c1, l1) by {
      assert |ok.text| != |"https://example.com/broken"|;
    }
    var c2 := c1[broken := 404];
    var l2 := l1 + [RequestFor(args, broken)];
    assert Lookup(args, ScenarioServer, c1, l1, broken) == Step(Answered(404), c2, l2);
    assert Classify(ok, 200) == [];
    ScenarioMessage();
    var warning := Finding(Warning, "Broken link: https://example.com/broken (HTTP 404)");
    assert Classify(broken, 404) == [warning];
    calc {
      Walk(args, ScenarioServer, map[], [], [ok, broken], []);
      { assert [ok, broken][1..] == [broken]; }
      Walk(args, ScenarioServer, c1, l1, [broken], [] + []);
      { assert [broken][1..] == []; }
      Walk(args, ScenarioServer, c2, l2, [], [] + [] + [warning]);
      { assert [] + [] + [warning] == [warning]; }
      Run(Completed([warning]), c2, l2);
    }
  }

  /** The scenario's two kept links resolve to two different absolute URIs. */
  lemma ScenarioUris()
    ensures Resolve("https://example.com", ScenarioJoin, ["/ok", "/broken"])
         == [Uri("https", "example.com", 443, "https://example.com/ok"),
             Uri("https", "example.com", 443, "https://example.com/broken")]
  {
    var links := ["/ok", "/broken"];
    var r := Resolve("https://example.com", ScenarioJoin, links);
    assert |r| == 2 && links[0] == "/ok" && links[1] == "/broken";
    assert r[0] == ScenarioJoin("https://example.com", "/ok");
    assert ScenarioJoin("https://example.com", "/ok") == Uri("https", "example.com", 443, "https://example.com/ok");
    assert r[1] == ScenarioJoin("https://example.com", "/broken");
    assert ScenarioJoin("https://example.com", "/broken") == Uri("https", "example.com", 443, "https://example.com/broken");
  }
}
