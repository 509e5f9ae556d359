/** A refresh makes its request through the entry point, which strips the prefix once more. What
    follows when that gives another uri. */
module ProxyStripping {
  import opened TextTools
  import opened CacheControl
  import opened Redirects
  import opened ProxyCache
  import opened ProxyFreshness

  /** When the request that a refresh makes looks the same key up. */
  lemma StripAgainIff(prefix: string, u: string)
    requires u != "" && u[0] == '/'
    ensures Strip(prefix, u) == u <==>
            !Contains(u, prefix) || prefix == "" || (prefix == "/" && (|u| == 1 || u[1] != '/'))
  {
  }

  lemma StripShortens(prefix: string, u: string)
    requires u != "" && u[0] == '/' && Strip(prefix, u) != u
    ensures |Strip(prefix, u)| < |u|
  {
    hide FindFrom;
  }

  /** Neither `u` nor what further stripping makes of it has the key `k`. */
  predicate Away(prefix: string, k: string, u: string)
    requires u != "" && u[0] == '/'
    decreases |u|
  {
    && Key(u) != k
    && (Strip(prefix, u) != u ==>
          (StripShortens(prefix, u); Away(prefix, k, Strip(prefix, u))))
  }

  predicate EndsInIndex(u: string) {
    |u| >= 6 && u[|u| - 6..] == "/index"
  }

  /** A uri that does not end in `/index` shares its key with no shorter one. */
  lemma {:induction false} ShorterIsAway(prefix: string, u: string, v: string)
    requires u != "" && v != "" && v[0] == '/' && |v| < |u| && !EndsInIndex(u)
    ensures Away(prefix, Key(u), v)
    decreases |v|
  {
    if Key(v) == v + "index" && Key(u) == u {
      assert (v + "index")[|v| - 1..] == "/index";
    }
    if Strip(prefix, v) != v {
      StripShortens(prefix, v);
      ShorterIsAway(prefix, u, Strip(prefix, v));
    }
  }

  /** Two states agree on what is stored under `k`. */
  predicate SameAt(k: string, a: State, b: State) {
    && (k in a.cache <==> k in b.cache) && (k in a.cache ==> a.cache[k] == b.cache[k])
    && (k in a.files <==> k in b.files) && (k in a.files ==> a.files[k] == b.files[k])
  }

  lemma {:induction false} FetchSameAt(p: Proxy, u: string, t: Target, st: State, k: string)
    requires u != "" && Key(u) != k
    ensures SameAt(k, st, FetchFrom(p, u, t, st).st)
    decreases |st.replies|
  {
    hide NextTarget, Key, PolicyOf, PageOf;
    if st.replies != [] && st.replies[0].Reply? && st.replies[0].code == 302 {
      var st1 := st.(asked := st.asked + [t], replies := st.replies[1..]);
      FetchSameAt(p, u, NextTarget(st.replies[0].headers, t), st1, k);
    }
  }

  lemma ServeSameAt(p: Proxy, path: string, st: State, k: string)
    requires path != k
    ensures SameAt(k, st, Serve(p, path, st).st)
  {
  }

  lemma SettleSameAt(p: Proxy, path: string, a: Answer, k: string)
    requires path != k
    ensures SameAt(k, a.st, Settle(p, path, a).st)
  {
  }

  /** A request leaves alone what is stored under a key that is none of those it leads to. */
  lemma {:induction false} RequestSameAt(p: Proxy, uri: string, st: State, k: string)
    requires Away(p.prefix, k, Strip(p.prefix, uri))
    ensures SameAt(k, st, HandleRequest(p, uri, st).st)
    decreases |st.cache|, 2
  {
    hide Strip, Away, HandleCache, FetchFrom, Key;
    var u := Strip(p.prefix, uri);
    CacheSameAt(p, u, st, k);
    if HandleCache(p, u, st).Absent? {
      AwayHere(p.prefix, k, u);
      FetchSameAt(p, u, FirstTarget(p, u), HandleCache(p, u, st).st, k);
    }
  }

  lemma AwayHere(prefix: string, k: string, u: string)
    requires u != "" && u[0] == '/' && Away(prefix, k, u)
    ensures Key(u) != k && Away(prefix, k, Strip(prefix, u))
  {
  }

  lemma {:induction false} CacheSameAt(p: Proxy, u: string, st: State, k: string)
    requires u != "" && u[0] == '/' && Away(p.prefix, k, u)
    ensures SameAt(k, st, HandleCache(p, u, st).st)
    decreases |st.cache|, 1
  {
    hide Strip, Away, Key, UpdateCache, Serve, Expired;
    var path, st1 := Key(u), st.(tick := st.tick + 1);
    AwayHere(p.prefix, k, u);
    ServeSameAt(p, path, st1, k);
    if path in st.cache {
      UpdateSameAt(p, u, st1, k);
      ServeSameAt(p, path, UpdateCache(p, u, path, st1).st, k);
    }
  }

  lemma {:induction false} UpdateSameAt(p: Proxy, u: string, st: State, k: string)
    requires u != "" && u[0] == '/' && Key(u) in st.cache && Away(p.prefix, k, u)
    ensures SameAt(k, st, UpdateCache(p, u, Key(u), st).st)
    decreases |st.cache|, 0
  {
    hide Strip, Away, Key, HandleRequest, Settle;
    EraseShrinks(st.cache, Key(u));
    AwayHere(p.prefix, k, u);
    var st1 := st.(cache := st.cache - {Key(u)});
    RequestSameAt(p, u, st1, k);
    SettleSameAt(p, Key(u), HandleRequest(p, u, st1), k);
  }

  /** The answer to the request that the refresh of `u` makes. */
  function RefreshAnswer(p: Proxy, u: string, st: State): Answer
    requires u != ""
  {
    HandleRequest(p, u, st.(tick := st.tick + 1, cache := st.cache - {Key(u)}))
  }

  /** A refresh whose request leads elsewhere: an expired page that comes from the cache all the same
      has its old body, and its entry is fresh only if the answer from elsewhere was a 304 that
      renews it. */
  lemma RefreshedElsewhere(p: Proxy, u: string, st: State, now: int)
    requires u != "" && u[0] == '/' && Key(u) in st.cache && HandleCache(p, u, st).Hit?
    requires Expired(p.clock(st.tick), st.cache[Key(u)].expiration)
    requires Away(p.prefix, Key(u), Strip(p.prefix, u))
    ensures Key(u) in st.files && HandleCache(p, u, st).page.body == st.files[Key(u)].body
    ensures var a := RefreshAnswer(p, u, st);
            && a.status == Ok
            && (FreshAt(HandleCache(p, u, st).st, Key(u), now) <==>
                && Contains(StatusLine(a.page), "304")
                && var ren := RenewalOf(p, HeaderPart(a.page), a.st.tick);
                && ren.Renewal? && LaterThan(ren.expire, now))
  {
    hide Strip, Away, Key, HandleRequest, Contains, RenewalOf, Expired;
    var path, st1 := Key(u), st.(tick := st.tick + 1);
    var st2 := st1.(cache := st1.cache - {path});
    EraseShrinks(st.cache, path);
    RequestSameAt(p, u, st2, path);
    assert UpdateCache(p, u, path, st1) == Settle(p, path, HandleRequest(p, u, st2));
    ServeTouchesLittle(p, path, UpdateCache(p, u, path, st1).st);
  }

  /** A page that has not expired, and whose status line is the plain one. */
  predicate PlainPage(p: Proxy, k: string, st: State) {
    && k in st.cache && k in st.files && !Expired(p.clock(st.tick), st.cache[k].expiration)
    && st.files[k].lines != [] && st.files[k].lines[0] == OK_LINE
  }

  lemma PlainPageStays(p: Proxy, k: string, st: State, path: string)
    requires PlainPage(p, k, st) && path != k
    ensures PlainPage(p, k, st.(cache := st.cache - {path}))
  {
    hide Expired, OK_LINE;
  }

  lemma PlainPageServed(p: Proxy, uri: string, st: State)
    requires PlainPage(p, Key(Strip(p.prefix, uri)), st)
    ensures var a := HandleRequest(p, uri, st);
            && a.status == Ok && StatusLine(a.page) == OK_LINE
            && a.st.cache == st.cache && a.st.files == st.files
            && a.st.replies == st.replies && a.st.asked == st.asked
  {
    var u := Strip(p.prefix, uri);
    var k, st1 := Key(u), st.(tick := st.tick + 1);
    hide Strip, Key, Contains, OK_LINE, ServeLines;
    OkLine();
    assert HandleCache(p, u, st) == Serve(p, k, st1);
    FirstLineServed(p, k, st.files[k].lines, st1.cache, st1.tick);
    ServeTouchesLittle(p, k, st1);
    ServeAsks(p, k, st1);
  }

  lemma PlainAnswerRefreshes(p: Proxy, path: string, a: Answer)
    requires a.status == Ok && StatusLine(a.page) == OK_LINE
    ensures Settle(p, path, a) == Refreshed(a.st)
  {
    OkLine();
    hide Contains, StatusLine, OK_LINE;
  }

  lemma ServedWithoutEntry(p: Proxy, path: string, st: State, now: int)
    requires path !in st.cache && path in st.files
    ensures var r := Serve(p, path, st);
            && r.Hit? && r.page.body == st.files[path].body && !FreshAt(r.st, path, now)
            && r.st.replies == st.replies && r.st.asked == st.asked
  {
    ServeTouchesLittle(p, path, st);
    ServeAsks(p, path, st);
  }

  lemma ExpiredSteps(p: Proxy, u: string, st: State)
    requires u != "" && Key(u) in st.cache && Expired(p.clock(st.tick), st.cache[Key(u)].expiration)
    ensures var r := Settle(p, Key(u), RefreshAnswer(p, u, st));
            r.Refreshed? ==> HandleCache(p, u, st) == Serve(p, Key(u), r.st)
  {
    EraseShrinks(st.cache, Key(u));
    hide Key, Settle, Serve, HandleRequest, Expired;
    var st1 := st.(tick := st.tick + 1);
    assert UpdateCache(p, u, Key(u), st1) == Settle(p, Key(u), RefreshAnswer(p, u, st));
  }

  /** A page found elsewhere, unexpired: it makes the refresh a success without asking the origin,
      and the expired page is served as it was, with no fresh entry. */
  lemma RefreshedByAnotherPage(p: Proxy, u: string, st: State, now: int)
    requires u != "" && u[0] == '/' && Key(u) in st.cache && Key(u) in st.files
    requires Expired(p.clock(st.tick), st.cache[Key(u)].expiration)
    requires Key(Strip(p.prefix, u)) != Key(u)
    requires PlainPage(p, Key(Strip(p.prefix, u)), st.(tick := st.tick + 1))
    ensures var r := HandleCache(p, u, st);
            && r.Hit? && r.page.body == st.files[Key(u)].body && !FreshAt(r.st, Key(u), now)
            && r.st.replies == st.replies && r.st.asked == st.asked
  {
    hide Strip, Key, HandleRequest, HandleCache, Expired, Settle, Serve, FreshAt, PlainPage, OK_LINE, StatusLine;
    var path, st2 := Key(u), st.(tick := st.tick + 1, cache := st.cache - {Key(u)});
    PlainPageStays(p, Key(Strip(p.prefix, u)), st.(tick := st.tick + 1), path);
    PlainPageServed(p, u, st2);
    var a := RefreshAnswer(p, u, st);
    PlainAnswerRefreshes(p, path, a);
    ExpiredSteps(p, u, st);
    ServedWithoutEntry(p, path, a.st, now);
  }

  lemma {:induction false} FirstLineServed(p: Proxy, path: string, lines: seq<string>, cache: map<string, Entry>, tick: nat)
    requires lines != [] && !Contains(lines[0], "Date:") && !Contains(lines[0], "Cache-Control")
    ensures ServeLines(p, path, lines, cache, tick).lines[0] == lines[0]
    decreases |lines|
  {
    hide Contains;
    if |lines| == 1 {
      assert lines[..0] == [];
    } else {
      FirstLineServed(p, path, lines[..|lines| - 1], cache, tick);
    }
  }
}
