/** Runs on which the proxy does not do what one expects: stale pages, and tags that are lost. */
module ProxyDepartures {
  import opened TextTools
  import opened CacheControl
  import opened Redirects
  import opened ProxyCache
  import opened ProxyFreshness
  import opened ProxyRefreshing
  import opened ProxyStripping

  /** A page that may be stored for some seconds. */
  function StoredReply(life: nat, body: string): Reply {
    Reply(200, OK_LINE, [Header("Cache-Control", AgeText(life) + ",public")], body, true)
  }

  lemma StoringIsAllowed(life: nat, body: string)
    ensures AllowsStoring(200, StoredReply(life, body).headers[0])
  {
    var value := StoredReply(life, body).headers[0].value;
    assert 'n' !in Decimal(life);
    assert 'n' !in value;
    HasNot(value, "no-store");
    HasNot(value, "no-cache");
  }

  lemma OneHeader(p: Proxy, code: nat, h: Header, tick: nat)
    ensures PolicyOf(p, code, [h], tick) == TakeHeader(p, code, Policy(false, NotADateTime, "", tick), h)
  {
    assert [h][..0] == [];
    hide TakeHeader;
    assert PolicyOf(p, code, [], tick) == Policy(false, NotADateTime, "", tick);
  }

  lemma StoredPolicy(p: Proxy, life: nat, body: string, tick: nat)
    requires 0 < life < 0x8000_0000
    ensures PolicyOf(p, 200, StoredReply(life, body).headers, tick) == Policy(true, At(p.clock(tick) + life), "", tick + 1)
  {
    LifetimeInFront(life, ",public");
    StoringIsAllowed(life, body);
    OneHeader(p, 200, StoredReply(life, body).headers[0], tick);
    hide PolicyOf, AllowsStoring, AgeText, Lifetime, Contains;
  }

  /** A request for a page that is not cached, answered with one to be stored. */
  lemma FirstRequest(p: Proxy, uri: string, st: State, life: nat, body: string)
    requires 0 < life < 0x8000_0000 && st.replies != [] && st.replies[0] == StoredReply(life, body)
    requires Key(Strip(p.prefix, uri)) !in st.cache
    ensures var u, page := Strip(p.prefix, uri), PageOf(StoredReply(life, body));
            HandleRequest(p, uri, st).st ==
            State(st.cache[Key(u) := Entry(At(p.clock(st.tick) + life), "")], st.files[Key(u) := page],
                  st.replies[1..], st.asked + [FirstTarget(p, u)], st.tick + 1, st.log + [Write(u, Key(u), page)])
  {
    StoredPolicy(p, life, body, st.tick);
    hide PolicyOf, PageOf, Strip, AgeText;
  }

  /** A clock that advances by one second between readings. */
  function SteadyProxy(): Proxy {
    Proxy("/p", "host", "80", (n: nat) => n, (t: int) => "", 0)
  }

  function StartState(replies: seq<Reply>): State {
    State(map[], map[], replies, [], 0, [])
  }

  lemma PlainUriStays()
    ensures Strip("/p", "/a") == "/a" && Key("/a") == "/a"
  {
    FindFacts("/a", "/p", 0);
    if Contains("/a", "/p") {
      StandsChar("/a", "/p", Find("/a", "/p").value, 1);
    }
  }

  lemma PrefixGoes(rest: string)
    requires rest != "" && rest[0] == '/'
    ensures Strip("/p", "/p" + rest) == rest
  {
    FindIs("/p" + rest, "/p", 0, 0);
  }

  lemma RunNext(p: Proxy, uris: seq<string>, uri: string, st: State)
    ensures Run(p, uris + [uri], st) == HandleRequest(p, uri, Run(p, uris, st)).st
  {
    assert (uris + [uri])[..|uris|] == uris;
  }

  // ----- A stale page, from the start -----

  /** Two requests for one page from the empty cache: the second gets the old page, although the
      origin answered its refresh with a new one. */
  lemma StaleIsReached()
    ensures var p, newer := SteadyProxy(), Reply(200, OK_LINE, [], "new", true);
            var st := Run(p, ["/a"], StartState([StoredReply(1, "old"), newer]));
            var a := HandleRequest(p, "/a", st);
            && st.replies == [newer]
            && a.status == Ok && a.page.body == "old" && a.st.replies == []
            && a.st.asked == [Target("host", "80", "/a"), Target("host", "80", "/a")]
  {
    var p, newer := SteadyProxy(), Reply(200, OK_LINE, [], "new", true);
    var start := StartState([StoredReply(1, "old"), newer]);
    PlainUriStays();
    RunNext(p, [], "/a", start);
    assert [] + ["/a"] == ["/a"];
    FirstRequest(p, "/a", start, 1, "old");
    var st := Run(p, ["/a"], start);
    hide PolicyOf, Fetch, HandleCache, UpdateCache, Run, FreshAt, StoredReply, OK_LINE;
    PlainOkIsStale(p, "/a", st, "new");
    AskedByRefresh(p, "/a", st);
  }

  // ----- A page refreshed by another one -----

  function TwoPages(life: nat, body: string, otherLife: nat, otherBody: string): State {
    StartState([StoredReply(life, body), StoredReply(otherLife, otherBody)])
  }

  /** A page asked for as `w` and, where a second stripping leads, another one. */
  lemma BothPagesStored(p: Proxy, w: string, life: nat, body: string, otherLife: nat, otherBody: string)
    requires 0 < life < 0x8000_0000 && 0 < otherLife < 0x8000_0000
    requires var u := Strip(p.prefix, w); Key(Strip(p.prefix, u)) != Key(u)
    ensures var u := Strip(p.prefix, w);
            var st := Run(p, [w, u], TwoPages(life, body, otherLife, otherBody));
            && st.replies == [] && |st.asked| == 2 && st.tick == 2
            && st.cache == map[Key(u) := Entry(At(p.clock(0) + life), "")]
                              [Key(Strip(p.prefix, u)) := Entry(At(p.clock(1) + otherLife), "")]
            && st.files == map[Key(u) := PageOf(StoredReply(life, body))]
                              [Key(Strip(p.prefix, u)) := PageOf(StoredReply(otherLife, otherBody))]
  {
    var start := TwoPages(life, body, otherLife, otherBody);
    var u := Strip(p.prefix, w);
    hide Strip, PageOf, StoredReply, HandleRequest, Key;
    RunNext(p, [], w, start);
    RunNext(p, [w], u, start);
    assert [] + [w] == [w] && [w] + [u] == [w, u];
    FirstRequest(p, w, start, life, body);
    FirstRequest(p, u, Run(p, [w], start), otherLife, otherBody);
  }

  /** When the page stored for `w` has expired and the other one has not, the refresh finds the other
      one, and the old page is served, without a request to the origin and never to be fresh again. */
  lemma StrippedTwice(p: Proxy, w: string, life: nat, body: string, otherLife: nat, otherBody: string)
    requires 0 < life < 0x8000_0000 && 0 < otherLife < 0x8000_0000
    requires var u := Strip(p.prefix, w); Key(Strip(p.prefix, u)) != Key(u)
    requires p.clock(2) >= p.clock(0) + life && p.clock(3) < p.clock(1) + otherLife
    ensures var u := Strip(p.prefix, w);
            var st := Run(p, [w, u], TwoPages(life, body, otherLife, otherBody));
            var a := HandleRequest(p, w, st);
            && a.status == Ok && a.page.body == body && a.st.asked == st.asked
            && forall now :: !FreshAt(a.st, Key(u), now)
  {
    BothPagesStored(p, w, life, body, otherLife, otherBody);
    var u := Strip(p.prefix, w);
    var st := Run(p, [w, u], TwoPages(life, body, otherLife, otherBody));
    hide Run, HandleCache, FreshAt, AgeText, Strip, OK_LINE, TwoPages, Key;
    forall now ensures !FreshAt(HandleCache(p, u, st).st, Key(u), now) {
      RefreshedByAnotherPage(p, u, st, now);
    }
    RefreshedByAnotherPage(p, u, st, 0);
  }

  const OUTER_URI := "/p/p/a"
  const INNER_URI := "/p/a"

  lemma UrisStrip()
    ensures Strip("/p", OUTER_URI) == INNER_URI
    ensures Key(Strip("/p", INNER_URI)) != Key(INNER_URI)
  {
    PrefixGoes("/a");
    PrefixGoes("/p/a");
    assert OUTER_URI == "/p" + "/p/a" && INNER_URI == "/p" + "/a";
  }

  /** An input, with `/p` as the prefix: `/p/p/a` is stored as `/p/a`, and `/p/a` as `/a`. */
  lemma StrippedTwiceIsReached()
    ensures var p := SteadyProxy();
            var st := Run(p, [OUTER_URI, INNER_URI], TwoPages(1, "old", 100, "other"));
            var a := HandleRequest(p, OUTER_URI, st);
            a.status == Ok && a.page.body == "old" && a.st.asked == st.asked
  {
    UrisStrip();
    hide Strip, Run, HandleRequest, TwoPages, OUTER_URI, INNER_URI, Key;
    StrippedTwice(SteadyProxy(), OUTER_URI, 1, "old", 100, "other");
  }

  // ----- The tag of a refresh -----

  /** Line `i` is the last one with `Etag` in it. */
  predicate LastTag(lines: seq<string>, i: int) {
    0 <= i < |lines| && Contains(lines[i], "Etag") && forall j :: i < j < |lines| ==> !Contains(lines[j], "Etag")
  }

  lemma RenewalStep(p: Proxy, lines: seq<string>, tick: nat)
    requires lines != [] && RenewalOf(p, lines, tick).Renewal?
    ensures var before, l := RenewalOf(p, lines[..|lines| - 1], tick), lines[|lines| - 1];
            before.Renewal? &&
            RenewalOf(p, lines, tick).e_tag == if Contains(l, "Etag") then AfterColon(l) else before.e_tag
  {
    hide Contains, Lifetime, AfterColon;
  }

  lemma LastTagStep(lines: seq<string>)
    requires lines != []
    ensures var n, before := |lines| - 1, lines[..|lines| - 1];
            if Contains(lines[n], "Etag") then LastTag(lines, n) && forall i :: LastTag(lines, i) ==> i == n
            else forall i :: LastTag(lines, i) <==> LastTag(before, i)
  {
    hide Contains;
  }

  /** The tag that a 304 leaves: the text after the colon of its last `Etag` line; none without one. */
  lemma {:induction false} RenewalTag(p: Proxy, lines: seq<string>, tick: nat)
    requires RenewalOf(p, lines, tick).Renewal?
    ensures forall i :: LastTag(lines, i) ==> RenewalOf(p, lines, tick).e_tag == AfterColon(lines[i])
    ensures (forall i :: !LastTag(lines, i)) ==> RenewalOf(p, lines, tick).e_tag == ""
    decreases |lines|
  {
    if lines != [] {
      hide RenewalOf, Contains, AfterColon;
      RenewalStep(p, lines, tick);
      RenewalTag(p, lines[..|lines| - 1], tick);
      LastTagStep(lines);
      assert forall i :: LastTag(lines, i) ==> 0 <= i < |lines|;
      hide LastTag;
    }
  }

  lemma TagIsLeftIff(p: Proxy, lines: seq<string>, tick: nat)
    requires RenewalOf(p, lines, tick).Renewal?
    ensures RenewalOf(p, lines, tick).e_tag != "" <==> exists i :: LastTag(lines, i) && AfterColon(lines[i]) != ""
  {
    RenewalTag(p, lines, tick);
  }

  lemma TagText(value: string, i: nat)
    requires i + 4 <= |value|
    ensures ("ETag" + ": " + value)[i + 6..i + 10] == value[i..i + 4]
  {
  }

  lemma NoTagInName(value: string, i: int)
    requires StandsAt("ETag" + ": " + value, "Etag", i)
    ensures i >= 6
  {
    var l := "ETag" + ": " + value;
    StandsChar(l, "Etag", i, 0);
    StandsChar(l, "Etag", i, 1);
    assert l[..6] == "ETag: ";
  }

  /** A tag sent under the name that a fetch reads is not one to a refresh. */
  lemma ProperTagIsNone(value: string)
    ensures Contains(HeaderLine(Header("ETag", value)), "Etag") <==> Contains(value, "Etag")
  {
    var l := HeaderLine(Header("ETag", value));
    FindFacts(l, "Etag", 0);
    FindFacts(value, "Etag", 0);
    hide FindFrom;
    if Contains(value, "Etag") {
      var i := Find(value, "Etag").value;
      TagText(value, i);
      assert StandsAt(l, "Etag", i + 6);
    }
    if Contains(l, "Etag") {
      var i := Find(l, "Etag").value;
      NoTagInName(value, i);
      TagText(value, i - 6);
      assert StandsAt(value, "Etag", i - 6);
    }
  }

  /** An input: the same header gives a fetch its tag and a refresh none. */
  lemma TagIsLost(p: Proxy, tick: nat)
    ensures PolicyOf(p, 200, [Header("ETag", "x")], tick).Policy?
    ensures PolicyOf(p, 200, [Header("ETag", "x")], tick).e_tag == "x"
    ensures RenewalOf(p, [HeaderLine(Header("ETag", "x"))], tick) == Renewal(NotADateTime, "", tick)
  {
    var h := Header("ETag", "x");
    var l := HeaderLine(h);
    ProperTagIsNone("x");
    HasNot("x", "Etag");
    HasNot(l, "Cache-Control");
    OneHeader(p, 200, h, tick);
    assert [l][..0] == [];
    hide Contains, PolicyOf;
  }

  /** After a refresh by a 304 none of whose lines has `Etag` in it, the entry has no tag. */
  lemma RefreshLosesTag(p: Proxy, u: string, st: State)
    requires u != "" && Strip(p.prefix, u) == u && Key(u) in st.cache
    requires UpdateCache(p, u, Key(u), st).Refreshed?
    requires var rs := AfterRedirects(st.replies);
             rs != [] && rs[0].Reply? && Contains(rs[0].status, "304")
             && forall i :: !LastTag(HeaderLines(rs[0].headers), i)
    ensures var st' := UpdateCache(p, u, Key(u), st).st; Key(u) in st'.cache && st'.cache[Key(u)].e_tag == ""
  {
    RefreshedBy(p, u, st);
    var r := AfterRedirects(st.replies)[0];
    hide UpdateCache, PolicyOf, RenewalOf, AfterRedirects, HeaderLines, Contains, Strip;
    RenewalTag(p, HeaderLines(r.headers), PolicyOf(p, r.code, r.headers, st.tick).tick);
  }
}
