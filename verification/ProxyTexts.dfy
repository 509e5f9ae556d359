/** Names, header lines and served lines, spelled out. */
module ProxyTexts {
  import opened TextTools
  import opened CacheControl
  import opened Redirects
  import opened ProxyCache
  import opened ProxyFreshness

  // ----- Names -----

  lemma KeyIs(uri: string)
    ensures Key(uri + "/") == uri + "/index"
    ensures uri != "" && uri[|uri| - 1] != '/' ==> Key(uri) == uri
  {
  }

  /** The first occurrence of the prefix is taken out, and the rest starts with a slash. */
  lemma StripTakesOut(prefix: string, a: string, b: string)
    requires Find((a + prefix) + b, prefix) == Some(|a|)
    ensures Strip(prefix, (a + prefix) + b) == if a + b != "" && (a + b)[0] == '/' then a + b else "/" + (a + b)
  {
    var s := (a + prefix) + b;
    assert s[..|a|] == a && s[|a| + |prefix|..] == b;
  }

  lemma StripKeeps(prefix: string, uri: string)
    requires !Contains(uri, prefix)
    ensures Strip(prefix, uri) == if uri != "" && uri[0] == '/' then uri else "/" + uri
  {
  }

  // ----- Header lines -----

  lemma {:induction false} LineOf(hs: seq<Header>, i: nat)
    requires i < |hs|
    ensures |HeaderLines(hs)| == |hs| && HeaderLines(hs)[i] == hs[i].name + (": " + hs[i].value)
    decreases |hs|
  {
    if i < |hs| - 1 {
      LineOf(hs[..|hs| - 1], i);
    } else {
      Regroup(hs[i].name, ": ", hs[i].value);
    }
  }

  /** A reply is filed as its status line, a line for each header, in order, and its body. */
  lemma PageIs(r: Reply, i: nat)
    requires r.Reply? && i < |r.headers|
    ensures var page := PageOf(r);
            && page.body == r.body && |page.lines| == |r.headers| + 1 && page.lines[0] == r.status
            && page.lines[i + 1] == r.headers[i].name + (": " + r.headers[i].value)
  {
    LineOf(r.headers, i);
  }

  /** What is taken from a header line is the value. */
  lemma AfterColonIs(name: string, value: string)
    requires ':' !in name
    ensures AfterColon(name + (": " + value)) == value
  {
    var l := name + (": " + value);
    forall j | 0 <= j < |name| ensures !StandsAt(l, ": ", j) {
      assert l[j] == name[j] && name[j] in name;
      if StandsAt(l, ": ", j) { StandsChar(l, ": ", j, 0); }
    }
    assert l[|name|..|name| + 2] == ": ";
    FindIs(l, ": ", 0, |name|);
    assert l[|name| + 2..] == value;
  }

  /** Of a line without a colon, everything but its first character. */
  lemma NoColonDropsOne(c: char, l: string)
    requires ':' !in [c] + l
    ensures AfterColon([c] + l) == l
  {
    HasNot([c] + l, ": ");
  }

  /** The stored and rewritten header line, with the name in front. */
  lemma ServedHeader(p: Proxy, path: string, name: string, value: string, cache: map<string, Entry>, tick: nat)
    requires path in cache && cache[path].expiration.At? && ':' !in name
    requires var l := name + (": " + value); Contains(l, "Cache-Control") && !Contains(l, "Date:")
    ensures ServeLine(p, path, name + (": " + value), cache, tick).line ==
            Rewritten(value, cache[path].expiration.t - p.clock(tick))
  {
    AfterColonIs(name, value);
    hide Contains, AfterColon, Rewritten;
  }

  function DateLine(p: Proxy, now: int): string {
    "Date: " + p.dateText(now) + "\r"
  }

  /** No date is a line with cache control. */
  ghost predicate PlainDates(p: Proxy) {
    forall now :: !Contains(DateLine(p, now), "Cache-Control")
  }

  /** A line with a date is replaced by the date of serving. */
  lemma DateServed(p: Proxy, path: string, l: string, cache: map<string, Entry>, tick: nat)
    requires Contains(l, "Date:") && PlainDates(p)
    ensures ServeLine(p, path, l, cache, tick).line == "Date: " + p.dateText(p.clock(tick)) + "\r"
    ensures ServeLine(p, path, l, cache, tick).cache == cache
  {
    assert !Contains(DateLine(p, p.clock(tick)), "Cache-Control");
    hide Contains;
  }

  lemma OtherServed(p: Proxy, path: string, l: string, cache: map<string, Entry>, tick: nat)
    requires !Contains(l, "Date:") && !Contains(l, "Cache-Control")
    ensures ServeLine(p, path, l, cache, tick) == ServedLine(l, cache, tick)
  {
  }

  /** Serving cache control without an entry leaves an entry without expiration or tag. */
  lemma UnsetServed(p: Proxy, path: string, l: string, cache: map<string, Entry>, tick: nat)
    requires path !in cache && Contains(l, "Cache-Control") && !Contains(l, "Date:")
    ensures ServeLine(p, path, l, cache, tick).cache == cache[path := Entry(NotADateTime, "")]
    ensures ServeLine(p, path, l, cache, tick).line == Rewritten(AfterColon(l), p.unsetAge)
  {
    hide Contains, AfterColon, Rewritten;
  }

  /** Line `i` of a served page, when it is a date: the date at some reading of the clock. */
  lemma DateOfPage(p: Proxy, path: string, st: State, i: nat) returns (t: nat)
    requires path in st.files && path in st.cache && i < |st.files[path].lines|
    requires Contains(st.files[path].lines[i], "Date:") && PlainDates(p)
    ensures Serve(p, path, st).Hit? && i < |Serve(p, path, st).page.lines|
    ensures st.tick <= t <= Serve(p, path, st).st.tick
    ensures Serve(p, path, st).page.lines[i] == "Date: " + p.dateText(p.clock(t)) + "\r"
  {
    var lines := st.files[path].lines;
    t := LineServed(p, path, lines, st.cache, st.tick, i);
    DateServed(p, path, lines[i], st.cache, t);
    hide Contains, ServeLine;
  }

  // ----- Redirects -----

  /** The first Location header says where a redirect goes. */
  lemma {:induction false} RedirectGoes(hs: seq<Header>, t: Target, i: nat)
    requires i < |hs| && hs[i].name == "Location" && forall j :: 0 <= j < i ==> hs[j].name != "Location"
    ensures NextTarget(hs, t) == ParseLocation(hs[i].value, t)
    decreases |hs|
  {
    if i > 0 {
      RedirectGoes(hs[1..], t, i - 1);
    }
  }

  /** Without one it goes where the request went. */
  lemma {:induction false} RedirectStays(hs: seq<Header>, t: Target)
    requires forall j :: 0 <= j < |hs| ==> hs[j].name != "Location"
    ensures NextTarget(hs, t) == t
  {
    if hs != [] {
      RedirectStays(hs[1..], t);
    }
  }

  /** A redirect to a full address: the origin is asked there next. */
  lemma RedirectIsAsked(p: Proxy, u: string, st: State, scheme: string, host: string, port: string, path: string)
    requires u != "" && |st.replies| >= 1 && st.replies[0].Reply? && st.replies[0].code == 302
    requires ':' !in scheme && ':' !in host && '/' !in host && port != "" && '/' !in port && path != "" && path[0] == '/'
    requires st.replies[0].headers == [Header("Location", ((scheme + "://") + (host + (":" + port))) + path)]
    ensures var asked := Fetch(p, u, st).st.asked;
            && |asked| >= |st.asked| + 2 && asked[..|st.asked|] == st.asked
            && asked[|st.asked|] == Target(p.host, p.port, u) && asked[|st.asked| + 1] == Target(host, port, path)
  {
    var t := FirstTarget(p, u);
    RedirectGoes(st.replies[0].headers, t, 0);
    LocationReads(scheme, host, port, path, t);
    FetchFollows(p, u, t, st);
    var next := NextTarget(st.replies[0].headers, t);
    var more := Chain(next, st.replies[1..]);
    ChainStarts(next, st.replies[1..]);
    hide FetchFrom, ParseLocation, NextTarget, AfterRedirects;
    assert Chain(t, st.replies) == [t] + more;
  }

  lemma ChainStarts(t: Target, rs: seq<Reply>)
    ensures Chain(t, rs)[0] == t
  {
  }
}
