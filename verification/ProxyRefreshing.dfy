/** When a refresh succeeds, what it asks of the origin, and what happens when it fails. */
module ProxyRefreshing {
  import opened TextTools
  import opened CacheControl
  import opened Redirects
  import opened ProxyCache
  import opened ProxyStoring
  import opened ProxyFreshness

  // ----- The outcome of a fetch -----

  /** What a fetch comes to, by the first reply after its redirects. */
  lemma {:induction false} FetchOutcome(p: Proxy, u: string, t: Target, st: State)
    requires u != ""
    ensures var a, rs := FetchFrom(p, u, t, st), AfterRedirects(st.replies);
            if rs == [] || rs[0].NoReply? then a.status == Failed && a.st.cache == st.cache && a.st.files == st.files
            else
              var r := rs[0];
              if AnyUnreadable(r.code, r.headers) then
                a.status == Thrown && a.st.cache == st.cache && a.st.files == st.files
              else if !r.clean then a.status == Failed && a.st.cache == st.cache && a.st.files == st.files
              else
                && a.status == Ok && a.page == PageOf(r)
                && var pol := PolicyOf(p, r.code, r.headers, st.tick);
                && pol.Policy? && a.st.tick == pol.tick
                && if AnyGives(r.code, r.headers) then
                     && a.st.cache == st.cache[Key(u) := Entry(pol.expire, pol.e_tag)]
                     && a.st.files == st.files[Key(u) := PageOf(r)]
                   else a.st.cache == st.cache && a.st.files == st.files
    decreases |st.replies|
  {
    hide PolicyOf, AnyUnreadable, AnyGives, NextTarget, PageOf, Key;
    if st.replies != [] && st.replies[0].Reply? {
      var r := st.replies[0];
      if r.code == 302 {
        FetchOutcome(p, u, NextTarget(r.headers, t), st.(asked := st.asked + [t], replies := st.replies[1..]));
      } else {
        StoredIff(p, r.code, r.headers, st.tick);
      }
    }
  }

  // ----- The header lines of a 304 -----

  /** A line without cache control, or with a max-age that can be read. */
  predicate Good(l: string) {
    Contains(l, "Cache-Control") ==> Contains(l, "max-age") && Lifetime(l).Some?
  }

  predicate AllGood(lines: seq<string>) {
    forall i :: 0 <= i < |lines| ==> Good(lines[i])
  }

  /** The first line that is not good. */
  predicate FirstBad(lines: seq<string>, i: int) {
    0 <= i < |lines| && !Good(lines[i]) && forall j :: 0 <= j < i ==> Good(lines[j])
  }

  /** The number that cannot be read comes before any cache control without a max-age. */
  ghost predicate BadNumberFirst(lines: seq<string>) {
    exists i :: FirstBad(lines, i) && Contains(lines[i], "max-age")
  }

  lemma RenewalGoesOn(p: Proxy, r: Renewal, l: string)
    requires r.Renewal?
    ensures RenewalLine(p, r, l).Renewal? <==> Good(l)
    ensures RenewalLine(p, r, l).RenewalThrows? <==> !Good(l) && Contains(l, "max-age")
    ensures Good(l) ==>
              var life := if Contains(l, "Cache-Control") then Lifetime(l).value else 0;
              && RenewalLine(p, r, l).expire == (if life > 0 then At(p.clock(r.tick) + life) else r.expire)
              && RenewalLine(p, r, l).tick == r.tick + if Contains(l, "Cache-Control") then 1 else 0
  {
    hide Contains, Lifetime, AfterColon;
  }

  lemma LastLine(lines: seq<string>)
    requires lines != []
    ensures var n, before := |lines| - 1, lines[..|lines| - 1];
            && (AllGood(lines) <==> AllGood(before) && Good(lines[n]))
            && (AllGood(before) && !Good(lines[n]) ==> FirstBad(lines, n))
            && (forall i :: FirstBad(before, i) ==> FirstBad(lines, i))
            && (forall i :: FirstBad(lines, i) && i < n ==> FirstBad(before, i))
            && (AllGood(before) <==> forall i :: !FirstBad(before, i))
  {
    hide Good;
    var before := lines[..|lines| - 1];
    if !AllGood(before) {
      FirstBadExists(before);
    }
  }

  lemma {:induction false} FirstBadExists(lines: seq<string>)
    requires !AllGood(lines)
    ensures exists i :: FirstBad(lines, i)
    decreases |lines|
  {
    hide Good;
    var before := lines[..|lines| - 1];
    if AllGood(before) {
      assert FirstBad(lines, |lines| - 1);
    } else {
      FirstBadExists(before);
      var i :| FirstBad(before, i);
      assert FirstBad(lines, i);
    }
  }

  lemma BadGrows(lines: seq<string>)
    requires lines != []
    ensures var n, before := |lines| - 1, lines[..|lines| - 1];
            && (!AllGood(before) ==> (BadNumberFirst(lines) <==> BadNumberFirst(before)))
            && (AllGood(before) ==> (BadNumberFirst(lines) <==> !Good(lines[n]) && Contains(lines[n], "max-age")))
  {
    LastLine(lines);
    hide Good, Contains;
    var before := lines[..|lines| - 1];
    if !AllGood(before) {
      FirstBadExists(before);
    }
  }

  /** The header loop of a refresh goes through exactly when all lines are good; it throws exactly when
      the first bad one has a number that cannot be read, and refuses otherwise. */
  lemma {:induction false} RenewalIff(p: Proxy, lines: seq<string>, tick: nat)
    ensures RenewalOf(p, lines, tick).Renewal? <==> AllGood(lines)
    ensures RenewalOf(p, lines, tick).RenewalThrows? <==> BadNumberFirst(lines)
    decreases |lines|
  {
    if lines != [] {
      var before, l := lines[..|lines| - 1], lines[|lines| - 1];
      RenewalIff(p, before, tick);
      LastLine(lines);
      BadGrows(lines);
      if RenewalOf(p, before, tick).Renewal? {
        RenewalGoesOn(p, RenewalOf(p, before, tick), l);
      }
      hide RenewalLine, AllGood, Good, BadNumberFirst, FirstBad, Contains;
    }
  }

  predicate Renewing(l: string) {
    Contains(l, "Cache-Control") && Contains(l, "max-age") && Lifetime(l).Some? && Lifetime(l).value > 0
  }

  predicate LastRenewing(lines: seq<string>, i: int) {
    0 <= i < |lines| && Renewing(lines[i]) && forall j :: i < j < |lines| ==> !Renewing(lines[j])
  }

  function LineReadings(lines: seq<string>): nat {
    if lines == [] then 0
    else LineReadings(lines[..|lines| - 1]) + if Contains(lines[|lines| - 1], "Cache-Control") then 1 else 0
  }

  lemma {:induction false} RenewalReadings(p: Proxy, lines: seq<string>, tick: nat)
    requires AllGood(lines)
    ensures RenewalOf(p, lines, tick).Renewal? && RenewalOf(p, lines, tick).tick == tick + LineReadings(lines)
    decreases |lines|
  {
    RenewalIff(p, lines, tick);
    if lines != [] {
      var before := lines[..|lines| - 1];
      LastLine(lines);
      RenewalReadings(p, before, tick);
      RenewalGoesOn(p, RenewalOf(p, before, tick), lines[|lines| - 1]);
      hide RenewalLine, AllGood, Good, FirstBad, Contains;
    }
  }

  lemma RenewalStepExpires(p: Proxy, lines: seq<string>, tick: nat)
    requires lines != [] && AllGood(lines)
    ensures var n, before := |lines| - 1, lines[..|lines| - 1];
            && AllGood(before) && RenewalOf(p, lines, tick).Renewal? && RenewalOf(p, before, tick).Renewal?
            && (Renewing(lines[n]) ==> Contains(lines[n], "max-age"))
            && RenewalOf(p, lines, tick).expire ==
               if Renewing(lines[n]) then At(p.clock(tick + LineReadings(before)) + Lifetime(lines[n]).value)
               else RenewalOf(p, before, tick).expire
  {
    var before := lines[..|lines| - 1];
    LastLine(lines);
    RenewalReadings(p, before, tick);
    RenewalGoesOn(p, RenewalOf(p, before, tick), lines[|lines| - 1]);
    hide RenewalLine, AllGood, FirstBad, Contains, LineReadings, Lifetime;
  }

  lemma RenewingHasAge(l: string)
    requires Renewing(l)
    ensures Contains(l, "max-age")
  {
  }

  /** The last line with a positive lifetime sets the expiration of a 304: the clock when it is read,
      and the lifetime. */
  lemma {:induction false} RenewedAtClock(p: Proxy, lines: seq<string>, tick: nat, i: nat)
    requires AllGood(lines) && LastRenewing(lines, i)
    ensures i < |lines| && Contains(lines[i], "max-age") && RenewalOf(p, lines, tick).Renewal?
    ensures RenewalOf(p, lines, tick).expire == At(p.clock(tick + LineReadings(lines[..i])) + Lifetime(lines[i]).value)
    decreases |lines|
  {
    hide RenewalOf, AllGood, Contains, LineReadings, Lifetime, Renewing;
    RenewingHasAge(lines[i]);
    RenewalStepExpires(p, lines, tick);
    if i < |lines| - 1 {
      assert lines[..|lines| - 1][..i] == lines[..i];
      RenewedAtClock(p, lines[..|lines| - 1], tick, i);
    }
  }

  /** Without such a line the expiration is unset. */
  lemma {:induction false} NotRenewed(p: Proxy, lines: seq<string>, tick: nat)
    requires AllGood(lines) && forall i :: 0 <= i < |lines| ==> !Renewing(lines[i])
    ensures RenewalOf(p, lines, tick).Renewal? && RenewalOf(p, lines, tick).expire == NotADateTime
    decreases |lines|
  {
    if lines != [] {
      RenewalStepExpires(p, lines, tick);
      NotRenewed(p, lines[..|lines| - 1], tick);
      hide RenewalOf, AllGood, Contains, LineReadings, Lifetime, Renewing;
    }
  }

  // ----- The outcome of a refresh -----

  /** The answer came in whole and its headers can be read. */
  predicate Arrives(rs: seq<Reply>) {
    rs != [] && rs[0].Reply? && rs[0].clean && !AnyUnreadable(rs[0].code, rs[0].headers)
  }

  lemma SettledAs(p: Proxy, path: string, a: Answer)
    requires a.status == Ok && a.page.lines != []
    ensures var status, lines := a.page.lines[0], a.page.lines[1..];
            && (Settle(p, path, a).Refreshed? <==>
                if Contains(status, "304") then AllGood(lines) else Contains(status, "200"))
            && (Settle(p, path, a).RefreshBroken? <==> Contains(status, "304") && BadNumberFirst(lines))
            && (Settle(p, path, a).RefreshBroken? ==> Settle(p, path, a).status == Thrown)
  {
    RenewalIff(p, a.page.lines[1..], a.st.tick);
    hide Contains, RenewalOf, AllGood, BadNumberFirst;
  }

  /** A refresh succeeds if and only if the last reply comes in whole and says 304, each of its lines
      with cache control giving a max-age that can be read, or says 200 and not 304. It throws if and
      only if a number cannot be read, and fails in all other cases. */
  lemma RefreshOutcome(p: Proxy, u: string, st: State)
    requires u != "" && Strip(p.prefix, u) == u && Key(u) in st.cache
    ensures var o, rs := UpdateCache(p, u, Key(u), st), AfterRedirects(st.replies);
            && (o.Refreshed? <==>
                && Arrives(rs)
                && if Contains(rs[0].status, "304") then AllGood(HeaderLines(rs[0].headers))
                   else Contains(rs[0].status, "200"))
            && (o.RefreshBroken? <==>
                && rs != [] && rs[0].Reply?
                && (AnyUnreadable(rs[0].code, rs[0].headers) ||
                    (rs[0].clean && Contains(rs[0].status, "304") && BadNumberFirst(HeaderLines(rs[0].headers)))))
            && (o.RefreshBroken? ==> o.status == Thrown)
  {
    var st1 := st.(cache := st.cache - {Key(u)});
    RefreshFetches(p, u, st);
    FetchOutcome(p, u, FirstTarget(p, u), st1);
    var a := Fetch(p, u, st1);
    if a.status == Ok {
      var r := AfterRedirects(st.replies)[0];
      assert a.page.lines[0] == r.status && a.page.lines[1..] == HeaderLines(r.headers);
      SettledAs(p, Key(u), a);
    }
    hide Fetch, FetchFrom, UpdateCache, Contains, AllGood, BadNumberFirst, HeaderLines, AnyUnreadable, AfterRedirects, Key,
      PageOf, PolicyOf, Strip, RenewalOf;
  }

  // ----- What a refresh asks -----

  function LaterReplies(rs: seq<Reply>): seq<Reply> {
    if rs == [] then rs else rs[1..]
  }

  lemma {:induction false} FetchTakes(p: Proxy, u: string, t: Target, st: State)
    requires u != ""
    ensures FetchFrom(p, u, t, st).st.replies == LaterReplies(AfterRedirects(st.replies))
    decreases |st.replies|
  {
    if st.replies != [] && st.replies[0].Reply? && st.replies[0].code == 302 {
      FetchTakes(p, u, NextTarget(st.replies[0].headers, t), st.(asked := st.asked + [t], replies := st.replies[1..]));
    }
  }

  /** What leads to a hit. */
  lemma HitSteps(p: Proxy, u: string, st: State)
    requires u != "" && HandleCache(p, u, st).Hit?
    ensures Key(u) in st.cache
    ensures var st1 := st.(tick := st.tick + 1);
            if Expired(p.clock(st.tick), st.cache[Key(u)].expiration) then
              && UpdateCache(p, u, Key(u), st1).Refreshed?
              && HandleCache(p, u, st) == Serve(p, Key(u), UpdateCache(p, u, Key(u), st1).st)
            else HandleCache(p, u, st) == Serve(p, Key(u), st1)
  {
    hide UpdateCache, Serve;
  }

  lemma RefreshAsks(p: Proxy, u: string, st: State)
    requires u != "" && Strip(p.prefix, u) == u && Key(u) in st.cache
    ensures UpdateCache(p, u, Key(u), st).st.asked == st.asked + Chain(FirstTarget(p, u), st.replies)
    ensures UpdateCache(p, u, Key(u), st).st.replies == LaterReplies(AfterRedirects(st.replies))
  {
    var st1 := st.(cache := st.cache - {Key(u)});
    RefreshFetches(p, u, st);
    FetchFollows(p, u, FirstTarget(p, u), st1);
    FetchTakes(p, u, FirstTarget(p, u), st1);
    SettleAsks(p, Key(u), Fetch(p, u, st1));
    hide FetchFrom, UpdateCache, Settle, Chain, AfterRedirects, Strip;
  }

  /** A refresh that leads to a hit asks for the page at the targets that its redirects give, and
      takes their replies and one more; a page that has not expired is served without asking. */
  lemma AskedByRefresh(p: Proxy, u: string, st: State)
    requires u != "" && Strip(p.prefix, u) == u && HandleCache(p, u, st).Hit?
    ensures Key(u) in st.cache
    ensures var st' := HandleCache(p, u, st).st;
            if Expired(p.clock(st.tick), st.cache[Key(u)].expiration)
            then
              && st'.asked == st.asked + Chain(FirstTarget(p, u), st.replies)
              && st'.replies == LaterReplies(AfterRedirects(st.replies))
            else st'.asked == st.asked && st'.replies == st.replies
  {
    hide *;
    var path, st1 := Key(u), st.(tick := st.tick + 1);
    HitSteps(p, u, st);
    if Expired(p.clock(st.tick), st.cache[path].expiration) {
      RefreshAsks(p, u, st1);
      ServeAsks(p, path, UpdateCache(p, u, path, st1).st);
    } else {
      ServeAsks(p, path, st1);
    }
  }

  lemma SettleAsks(p: Proxy, path: string, a: Answer)
    ensures Settle(p, path, a).st.asked == a.st.asked && Settle(p, path, a).st.replies == a.st.replies
  {
  }

  // ----- A refresh that fails -----

  /** After a refresh that fails the request is made as if nothing had been cached: the answer is that
      of a further fetch, and the origin is asked once more. */
  lemma FailedRefreshAsksAgain(p: Proxy, uri: string, st: State)
    requires var u := Strip(p.prefix, uri);
             && Strip(p.prefix, u) == u && Key(u) in st.cache
             && Expired(p.clock(st.tick), st.cache[Key(u)].expiration)
             && UpdateCache(p, u, Key(u), st.(tick := st.tick + 1)).NotRefreshed?
    ensures var u := Strip(p.prefix, uri);
            var st' := UpdateCache(p, u, Key(u), st.(tick := st.tick + 1)).st;
            && HandleRequest(p, uri, st) == Fetch(p, u, st')
            && st'.replies == LaterReplies(AfterRedirects(st.replies))
            && HandleRequest(p, uri, st).st.asked ==
               (st.asked + Chain(FirstTarget(p, u), st.replies)) + Chain(FirstTarget(p, u), st'.replies)
  {
    var u, st1 := Strip(p.prefix, uri), st.(tick := st.tick + 1);
    var st' := UpdateCache(p, u, Key(u), st1).st;
    FailedIsAbsent(p, u, st);
    RefreshAsks(p, u, st1);
    FetchFollows(p, u, FirstTarget(p, u), st');
    hide HandleCache, UpdateCache, FetchFrom, Key, Strip, Chain, AfterRedirects;
  }

  lemma FailedIsAbsent(p: Proxy, u: string, st: State)
    requires u != "" && Key(u) in st.cache && Expired(p.clock(st.tick), st.cache[Key(u)].expiration)
    requires UpdateCache(p, u, Key(u), st.(tick := st.tick + 1)).NotRefreshed?
    ensures HandleCache(p, u, st) == Absent(UpdateCache(p, u, Key(u), st.(tick := st.tick + 1)).st)
  {
    hide UpdateCache;
  }

  // ----- The lookup -----

  /** A page is served without a request before its expiration, and refreshed from that second on, or
      when it has none. */
  lemma LookupIs(p: Proxy, u: string, st: State)
    requires u != "" && Key(u) in st.cache
    ensures var until, st1 := st.cache[Key(u)].expiration, st.(tick := st.tick + 1);
            && (until.At? && p.clock(st.tick) < until.t ==> HandleCache(p, u, st) == Serve(p, Key(u), st1))
            && (until.NotADateTime? || p.clock(st.tick) >= until.t ==>
                  HandleCache(p, u, st) ==
                  match UpdateCache(p, u, Key(u), st1)
                  case Refreshed(st2) => Serve(p, Key(u), st2)
                  case NotRefreshed(st2) => Absent(st2)
                  case RefreshBroken(status, st2) => Broken(status, st2))
  {
    hide UpdateCache, Serve;
  }

  const NOT_FOUND_LINE := "HTTP/1.1 404 Not Found\r"

  lemma NotFoundLine()
    ensures !Contains(NOT_FOUND_LINE, "200") && !Contains(NOT_FOUND_LINE, "304")
  {
    HasNot(NOT_FOUND_LINE, "200");
    HasNot(NOT_FOUND_LINE, "304");
  }

  /** An input: an expired page for which the origin answers 404, twice. The second answer is passed on,
      nothing of the old page is served, and the page is no longer cached. */
  lemma NotFoundIsPassedOn(p: Proxy, uri: string, st: State, first: string, second: string, rest: seq<Reply>)
    requires var u := Strip(p.prefix, uri);
             && Strip(p.prefix, u) == u && Key(u) in st.cache
             && Expired(p.clock(st.tick), st.cache[Key(u)].expiration)
    requires st.replies == [Reply(404, NOT_FOUND_LINE, [], first, true), Reply(404, NOT_FOUND_LINE, [], second, true)] + rest
    ensures var a, u := HandleRequest(p, uri, st), Strip(p.prefix, uri);
            && a.status == Ok && a.page == Page([NOT_FOUND_LINE], second) && a.st.replies == rest
            && Key(u) !in a.st.cache && a.st.files == st.files
            && a.st.asked == st.asked + [FirstTarget(p, u), FirstTarget(p, u)]
  {
    var u, st1 := Strip(p.prefix, uri), st.(tick := st.tick + 1);
    var st' := UpdateCache(p, u, Key(u), st1).st;
    var st2 := st1.(cache := st1.cache - {Key(u)});
    NotFoundLine();
    NotFoundFetch(p, u, FirstTarget(p, u), st2, first);
    RefreshFetches(p, u, st1);
    hide Contains, NOT_FOUND_LINE, HandleCache, UpdateCache, FetchFrom, Key, Strip, Expired;
    assert UpdateCache(p, u, Key(u), st1) == NotRefreshed(Fetch(p, u, st2).st);
    FailedIsAbsent(p, u, st);
    assert st'.replies == st.replies[1..];
    NotFoundFetch(p, u, FirstTarget(p, u), st', second);
  }

  lemma NotFoundFetch(p: Proxy, u: string, t: Target, st: State, body: string)
    requires u != "" && st.replies != [] && st.replies[0] == Reply(404, NOT_FOUND_LINE, [], body, true)
    ensures FetchFrom(p, u, t, st) ==
            Answer(Ok, Page([NOT_FOUND_LINE], body), st.(asked := st.asked + [t], replies := st.replies[1..]))
  {
    assert PolicyOf(p, 404, [], st.tick) == Policy(false, NotADateTime, "", st.tick);
    assert PageOf(st.replies[0]) == Page([NOT_FOUND_LINE], body) by { assert [NOT_FOUND_LINE] + [] == [NOT_FOUND_LINE]; }
    hide NOT_FOUND_LINE;
  }
}
