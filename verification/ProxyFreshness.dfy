/** When a page served from the cache is fresh, and when the code serves a stale one. */
module ProxyFreshness {
  import opened TextTools
  import opened CacheControl
  import opened Redirects
  import opened ProxyCache

  ghost predicate Monotone(p: Proxy) {
    forall i: nat, j: nat :: i <= j ==> p.clock(i) <= p.clock(j)
  }

  /** The entry that the page was served under expires later than the time `now`. */
  predicate FreshAt(st: State, path: string, now: int) {
    path in st.cache && st.cache[path].expiration.At? && now < st.cache[path].expiration.t
  }

  function AfterRedirects(rs: seq<Reply>): seq<Reply> {
    if rs != [] && rs[0].Reply? && rs[0].code == 302 then AfterRedirects(rs[1..]) else rs
  }

  /** The targets that a request going to `t` is sent to by these replies, one after the other. */
  function Chain(t: Target, rs: seq<Reply>): (ts: seq<Target>)
    ensures ts != []
    decreases |rs|
  {
    if rs != [] && rs[0].Reply? && rs[0].code == 302 then [t] + Chain(NextTarget(rs[0].headers, t), rs[1..])
    else [t]
  }

  /** A fetch follows the redirects, each from the target it was sent to before, and then does
      with the reply at the last target what it does with a first one. */
  lemma {:induction false} FetchFollows(p: Proxy, u: string, t: Target, st: State)
    requires u != ""
    ensures var ts := Chain(t, st.replies);
            var last := ts[|ts| - 1];
            && FetchFrom(p, u, t, st).st.asked == st.asked + ts
            && FetchFrom(p, u, t, st) ==
               FetchFrom(p, u, last, st.(asked := st.asked + ts[..|ts| - 1], replies := AfterRedirects(st.replies)))
    decreases |st.replies|
  {
    var ts := Chain(t, st.replies);
    if st.replies != [] && st.replies[0].Reply? && st.replies[0].code == 302 {
      var next := NextTarget(st.replies[0].headers, t);
      var more := Chain(next, st.replies[1..]);
      FetchFollows(p, u, next, st.(asked := st.asked + [t], replies := st.replies[1..]));
      TargetsInTurn(st.asked, t, more);
      hide PolicyOf, ParseLocation;
    } else {
      assert ts[..0] == [] && st.asked + [] == st.asked;
      assert st.(asked := st.asked + ts[..0], replies := AfterRedirects(st.replies)) == st;
    }
  }

  lemma TargetsInTurn(asked: seq<Target>, t: Target, more: seq<Target>)
    requires more != []
    ensures (asked + [t]) + more == asked + ([t] + more)
    ensures (asked + [t]) + more[..|more| - 1] == asked + ([t] + more)[..|[t] + more| - 1]
    ensures ([t] + more)[|[t] + more| - 1] == more[|more| - 1]
  {
  }

  lemma {:induction false} AfterRedirectsHead(rs: seq<Reply>)
    ensures var a := AfterRedirects(rs); a != [] && a[0].Reply? ==> a[0].code != 302
  {
    if rs != [] && rs[0].Reply? && rs[0].code == 302 {
      AfterRedirectsHead(rs[1..]);
    }
  }

  lemma {:induction false} PolicyIsLater(p: Proxy, code: nat, hs: seq<Header>, tick: nat)
    requires Monotone(p)
    ensures var r := PolicyOf(p, code, hs, tick); r.Policy? && r.expire.At? ==> p.clock(tick) < r.expire.t
    decreases |hs|
  {
    if hs != [] {
      PolicyIsLater(p, code, hs[..|hs| - 1], tick);
    }
  }

  lemma {:induction false} RenewalIsLater(p: Proxy, lines: seq<string>, tick: nat)
    requires Monotone(p)
    ensures var r := RenewalOf(p, lines, tick); r.Renewal? && r.expire.At? ==> p.clock(tick) < r.expire.t
    decreases |lines|
  {
    if lines != [] {
      RenewalIsLater(p, lines[..|lines| - 1], tick);
    }
  }

  /** What the last reply says: a 304 renews if it carries a positive lifetime, anything else
      if it is one that gets stored. */
  predicate Renews(p: Proxy, r: Reply, tick: nat)
    requires r.Reply?
  {
    var pol := PolicyOf(p, r.code, r.headers, tick);
    pol.Policy? &&
    if Contains(r.status, "304") then
      var ren := RenewalOf(p, HeaderLines(r.headers), pol.tick);
      ren.Renewal? && ren.expire.At?
    else pol.make
  }

  /** A refresh whose own request looks the same key up goes to the origin. */
  lemma RefreshFetches(p: Proxy, u: string, st: State)
    requires u != "" && Strip(p.prefix, u) == u && Key(u) in st.cache
    ensures UpdateCache(p, u, Key(u), st) == Settle(p, Key(u), Fetch(p, u, st.(cache := st.cache - {Key(u)})))
  {
    EraseShrinks(st.cache, Key(u));
    var st1 := st.(cache := st.cache - {Key(u)});
    assert Key(u) !in st1.cache;
    assert HandleCache(p, u, st1) == Absent(st1);
  }

  /** A successful refresh: the reply it took, and what it did with the cache and the files. */
  lemma RefreshedBy(p: Proxy, u: string, st: State)
    requires u != "" && Strip(p.prefix, u) == u && Key(u) in st.cache
    requires UpdateCache(p, u, Key(u), st).Refreshed?
    ensures var rs := AfterRedirects(st.replies);
            rs != [] && rs[0].Reply? && rs[0].clean && rs[0].code != 302
    ensures var r := AfterRedirects(st.replies)[0];
            var pol := PolicyOf(p, r.code, r.headers, st.tick);
            var st2 := UpdateCache(p, u, Key(u), st).st;
            && pol.Policy?
            && st2.files == (if pol.make then st.files[Key(u) := PageOf(r)] else st.files)
            && (if Contains(r.status, "304")
                then var ren := RenewalOf(p, HeaderLines(r.headers), pol.tick);
                     ren.Renewal? && Key(u) in st2.cache && st2.cache[Key(u)] == Entry(ren.expire, ren.e_tag)
                else if pol.make then Key(u) in st2.cache && st2.cache[Key(u)] == Entry(pol.expire, pol.e_tag)
                else Key(u) !in st2.cache)
  {
    var st1 := st.(cache := st.cache - {Key(u)});
    RefreshFetches(p, u, st);
    FetchFollows(p, u, FirstTarget(p, u), st1);
    AfterRedirectsHead(st.replies);
    var r := AfterRedirects(st.replies)[0];
    assert PageOf(r).lines[1..] == HeaderLines(r.headers);
  }

  /** The expiration that the last reply sets; none if it does not renew the page. */
  function RenewedUntil(p: Proxy, r: Reply, tick: nat): Time
    requires r.Reply?
  {
    var pol := PolicyOf(p, r.code, r.headers, tick);
    if pol.Throws? then NotADateTime
    else if Contains(r.status, "304") then
      var ren := RenewalOf(p, HeaderLines(r.headers), pol.tick);
      if ren.Renewal? then ren.expire else NotADateTime
    else if pol.make then pol.expire else NotADateTime
  }

  predicate LaterThan(e: Time, now: int) {
    e.At? && now < e.t
  }

  lemma RefreshIsFreshIff(p: Proxy, u: string, st: State, now: int)
    requires u != "" && Strip(p.prefix, u) == u && Key(u) in st.cache
    requires UpdateCache(p, u, Key(u), st).Refreshed?
    ensures var rs := AfterRedirects(st.replies);
            && rs != [] && rs[0].Reply?
            && (FreshAt(UpdateCache(p, u, Key(u), st).st, Key(u), now) <==>
                LaterThan(RenewedUntil(p, rs[0], st.tick), now))
            && (Key(u) !in UpdateCache(p, u, Key(u), st).st.cache ==> RenewedUntil(p, rs[0], st.tick).NotADateTime?)
  {
    RefreshedBy(p, u, st);
  }

  /** After a page came from the cache, its entry is fresh at a given time if and only if it had not
      expired at the lookup and expires later, or the expiration that the reply of the refresh set is
      later. Otherwise the code serves the page all the same. */
  lemma {:induction false} HitIsFreshIff(p: Proxy, u: string, st: State, now: int)
    requires u != "" && Strip(p.prefix, u) == u && HandleCache(p, u, st).Hit?
    ensures Key(u) in st.cache
    ensures var until := st.cache[Key(u)].expiration;
            var rs := AfterRedirects(st.replies);
            if Expired(p.clock(st.tick), until) then
              && rs != [] && rs[0].Reply?
              && (FreshAt(HandleCache(p, u, st).st, Key(u), now) <==>
                  LaterThan(RenewedUntil(p, rs[0], st.tick + 1), now))
            else FreshAt(HandleCache(p, u, st).st, Key(u), now) <==> now < until.t
  {
    var path := Key(u);
    var st1 := st.(tick := st.tick + 1);
    if Expired(p.clock(st.tick), st.cache[path].expiration) {
      RefreshIsFreshIff(p, u, st1, now);
      ServeTouchesLittle(p, path, UpdateCache(p, u, path, st1).st);
    } else {
      ServeTouchesLittle(p, path, st1);
    }
  }

  /** On a clock that does not run backwards, what a reply sets is later than any reading before it
      exactly when the reply renews the page. */
  lemma RenewsIsLater(p: Proxy, r: Reply, earlier: nat, tick: nat)
    requires Monotone(p) && r.Reply? && earlier <= tick
    ensures LaterThan(RenewedUntil(p, r, tick), p.clock(earlier)) <==> Renews(p, r, tick)
  {
    var pol := PolicyOf(p, r.code, r.headers, tick);
    PolicyIsLater(p, r.code, r.headers, tick);
    if pol.Policy? {
      RenewalIsLater(p, HeaderLines(r.headers), pol.tick);
      assert p.clock(earlier) <= p.clock(tick) <= p.clock(pol.tick);
    }
  }

  /** Fresh at the lookup: the page had not expired, or the reply of the refresh renews it. */
  lemma {:induction false} LookupIsFreshIff(p: Proxy, u: string, st: State)
    requires Monotone(p) && u != "" && Strip(p.prefix, u) == u && HandleCache(p, u, st).Hit?
    ensures Key(u) in st.cache
    ensures var expired := Expired(p.clock(st.tick), st.cache[Key(u)].expiration);
            var rs := AfterRedirects(st.replies);
            && (expired ==> rs != [] && rs[0].Reply?)
            && (FreshAt(HandleCache(p, u, st).st, Key(u), p.clock(st.tick)) <==>
                !expired || Renews(p, rs[0], st.tick + 1))
  {
    HitIsFreshIff(p, u, st, p.clock(st.tick));
    if Expired(p.clock(st.tick), st.cache[Key(u)].expiration) {
      RenewsIsLater(p, AfterRedirects(st.replies)[0], st.tick, st.tick + 1);
    }
  }

  lemma ServeTouchesLittle(p: Proxy, path: string, st: State)
    requires Serve(p, path, st).Hit?
    ensures var st' := Serve(p, path, st).st;
            && st'.files == st.files
            && (if path in st.cache then st'.cache == st.cache
                else st'.cache == st.cache || st'.cache == st.cache[path := UNSET])
  {
  }

  /** Which content a hit serves: the one of the last reply exactly when that reply was
      stored, and otherwise the file as it was. */
  lemma HitServes(p: Proxy, u: string, st: State)
    requires u != "" && Strip(p.prefix, u) == u && HandleCache(p, u, st).Hit?
    ensures Key(u) in st.cache
    ensures var body := HandleCache(p, u, st).page.body;
            var rs := AfterRedirects(st.replies);
            if Expired(p.clock(st.tick), st.cache[Key(u)].expiration) then
              && rs != [] && rs[0].Reply?
              && var pol := PolicyOf(p, rs[0].code, rs[0].headers, st.tick + 1);
              && pol.Policy?
              && (if pol.make then body == rs[0].body else Key(u) in st.files && body == st.files[Key(u)].body)
            else Key(u) in st.files && body == st.files[Key(u)].body
  {
    var st1 := st.(tick := st.tick + 1);
    if Expired(p.clock(st.tick), st.cache[Key(u)].expiration) {
      RefreshedBy(p, u, st1);
    }
  }

  /** A line that gives a lifetime. */
  ghost predicate GivesLifetime(l: string) {
    && Contains(l, "Cache-Control") && !Contains(l, "Date:")
    && exists d :: d in Directives(AfterColon(l)) && Contains(d, MAX_AGE)
  }

  /** The lifetime that a served page advertises is the one it has left: the time of serving
      plus the advertised max-age is the recorded expiration. */
  lemma {:induction false} AdvertisedIsWhatIsLeft(p: Proxy, path: string, l: string, cache: map<string, Entry>,
                                                  tick: nat)
    requires path in cache && cache[path].expiration.At?
    requires GivesLifetime(l)
    requires var left := cache[path].expiration.t - p.clock(tick); -0x8000_0000 <= left < 0x8000_0000
    ensures Advertises(ServeLine(p, path, l, cache, tick).line, cache[path].expiration.t - p.clock(tick))
  {
    ServedLineAdvertises(AfterColon(l), cache[path].expiration.t - p.clock(tick));
  }

  /** Line `i` of a served page comes from line `i` of the stored one, at some reading of the clock. */
  lemma {:induction false} LineServed(p: Proxy, path: string, lines: seq<string>, cache: map<string, Entry>,
                                      tick: nat, i: nat) returns (t: nat)
    requires i < |lines| && path in cache
    ensures var r := ServeLines(p, path, lines, cache, tick);
            && tick <= t <= r.tick && r.cache == cache
            && r.lines[i] == ServeLine(p, path, lines[i], cache, t).line
    decreases |lines|
  {
    var before := ServeLines(p, path, lines[..|lines| - 1], cache, tick);
    if i == |lines| - 1 {
      t := before.tick;
    } else {
      t := LineServed(p, path, lines[..|lines| - 1], cache, tick, i);
    }
  }

  /** At one of these readings of the clock, `l` advertises what is left until `expiration`. */
  ghost predicate AdvertisesRest(p: Proxy, l: string, expiration: int, first: nat, last: nat) {
    exists t: nat :: first <= t <= last && Advertises(l, expiration - p.clock(t))
  }

  /** What is served of a stored page: as many lines, in order, the body as it was; lines without
      a date or cache control are unchanged, and one with a lifetime advertises what is left. */
  lemma {:induction false} PageServed(p: Proxy, path: string, st: State, i: nat)
    requires path in st.files && path in st.cache && st.cache[path].expiration.At?
    requires i < |st.files[path].lines|
    requires forall t :: st.tick <= t <= ServeLines(p, path, st.files[path].lines, st.cache, st.tick).tick ==>
               -0x8000_0000 <= st.cache[path].expiration.t - p.clock(t) < 0x8000_0000
    ensures Serve(p, path, st).Hit?
    ensures var page, l := Serve(p, path, st).page, st.files[path].lines[i];
            var last := Serve(p, path, st).st.tick;
            && page.body == st.files[path].body && |page.lines| == |st.files[path].lines|
            && (!Contains(l, "Date:") && !Contains(l, "Cache-Control") ==> page.lines[i] == l)
            && (GivesLifetime(l) ==> AdvertisesRest(p, page.lines[i], st.cache[path].expiration.t, st.tick, last))
  {
    var lines, cache := st.files[path].lines, st.cache;
    var t := LineServed(p, path, lines, cache, st.tick, i);
    if GivesLifetime(lines[i]) {
      AdvertisedIsWhatIsLeft(p, path, lines[i], cache, t);
    }
  }

  // ----- A stale page -----

  lemma ServeAsks(p: Proxy, path: string, st: State)
    ensures Serve(p, path, st).st.asked == st.asked && Serve(p, path, st).st.replies == st.replies
  {
  }

  /** An expired page for which the origin sends a new one that is not to be stored: the request
      is answered with the old body, and no entry with an expiration is left. */
  lemma StaleServed(p: Proxy, u: string, st: State)
    requires u != "" && Strip(p.prefix, u) == u && Key(u) in st.cache && Key(u) in st.files
    requires Expired(p.clock(st.tick), st.cache[Key(u)].expiration)
    requires st.replies != [] && st.replies[0].Reply? && st.replies[0].code != 302 && st.replies[0].clean
    requires Contains(st.replies[0].status, "200") && !Contains(st.replies[0].status, "304")
    requires var pol := PolicyOf(p, st.replies[0].code, st.replies[0].headers, st.tick + 1); pol.Policy? && !pol.make
    ensures HandleCache(p, u, st).Hit?
    ensures HandleCache(p, u, st).page.body == st.files[Key(u)].body
    ensures !FreshAt(HandleCache(p, u, st).st, Key(u), p.clock(st.tick))
  {
    var st1 := st.(tick := st.tick + 1);
    RefreshFetches(p, u, st1);
    assert UpdateCache(p, u, Key(u), st1).Refreshed?;
    RefreshedBy(p, u, st1);
    ServeTouchesLittle(p, Key(u), UpdateCache(p, u, Key(u), st1).st);
  }

  const OK_LINE := "HTTP/1.1 200 OK\r"

  lemma OkLine()
    ensures Contains(OK_LINE, "200") && !Contains(OK_LINE, "304")
    ensures !Contains(OK_LINE, "Date:") && !Contains(OK_LINE, "Cache-Control")
  {
    assert OK_LINE[9..12] == "200";
    Has(OK_LINE, "200", 9);
    HasNot(OK_LINE, "304");
    HasNot(OK_LINE, "Date:");
    HasNot(OK_LINE, "Cache-Control");
  }

  /** An input: any new page sent with the plain status line and no Cache-Control header. */
  lemma PlainOkIsStale(p: Proxy, u: string, st: State, body: string)
    requires u != "" && Strip(p.prefix, u) == u && Key(u) in st.cache && Key(u) in st.files
    requires Expired(p.clock(st.tick), st.cache[Key(u)].expiration)
    requires st.replies != [] && st.replies[0] == Reply(200, OK_LINE, [], body, true)
    ensures HandleCache(p, u, st).Hit? && HandleCache(p, u, st).page.body == st.files[Key(u)].body
  {
    OkLine();
    assert PolicyOf(p, 200, [], st.tick + 1) == Policy(false, NotADateTime, "", st.tick + 1);
    StaleServed(p, u, st);
  }
}
