/** The caching proxy as a transition function on its cache, its files and the replies
    of the origin. */
module ProxyCache {
  import opened TextTools
  import opened CacheControl
  import opened Redirects

  /** A point in time, or the value of a time that was never set. */
  datatype Time = NotADateTime | At(t: int)

  datatype Entry = Entry(expiration: Time, e_tag: string)

  const UNSET := Entry(NotADateTime, "")

  /** A response as it is stored: the status line and header lines, and the body. */
  datatype Page = Page(lines: seq<string>, body: string)

  datatype Header = Header(name: string, value: string)

  /** What one connection to a server brings. `clean` says that the body ended at the end of
      the stream and not with an error. */
  datatype Reply =
    | NoReply
    | Reply(code: nat, status: string, headers: seq<Header>, body: string, clean: bool)

  datatype Status = Ok | Failed | Thrown | Hung

  /** What a write to the file store was for. */
  datatype Write = Write(uri: string, path: string, page: Page)

  /** `replies` are the replies still to come, `asked` the targets tried so far; `tick` counts the
      readings of the clock. */
  datatype State = State(cache: map<string, Entry>, files: map<string, Page>,
                         replies: seq<Reply>, asked: seq<Target>, tick: nat, log: seq<Write>)

  /** The configured prefix and server, and what comes from the libraries: the readings of the clock,
      dates as text, and the seconds that a time that was never set is ahead of the clock. */
  datatype Proxy = Proxy(prefix: string, host: string, port: string, clock: nat -> int, dateText: int -> string, unsetAge: int)

  // ----- Names -----

  /** The request uri with the first occurrence of the prefix removed, made to start with `/`. */
  function Strip(prefix: string, uri: string): (u: string)
    ensures u != "" && u[0] == '/'
  {
    var at := Find(uri, prefix);
    var cut := if at.Some? then uri[..at.value] + uri[at.value + |prefix|..] else uri;
    if cut == "" || cut[0] != '/' then "/" + cut else cut
  }

  /** The key and file name of a uri. */
  function Key(uri: string): string
    requires uri != ""
  {
    if uri[|uri| - 1] == '/' then uri + "index" else uri
  }

  // ----- What a reply says about caching -----

  datatype Policy = Policy(make: bool, expire: Time, e_tag: string, tick: nat) | Throws(tick: nat)

  predicate AllowsStoring(code: nat, h: Header) {
    code != 304 && h.name == "Cache-Control" && !Contains(h.value, "no-store") && !Contains(h.value, "no-cache")
  }

  /** One turn of the header loop of a fetch. */
  function TakeHeader(p: Proxy, code: nat, r: Policy, h: Header): Policy
    requires r.Policy?
  {
    if AllowsStoring(code, h) then
      if !Contains(h.value, MAX_AGE) then r
      else
        var life := Lifetime(h.value);
        if life.None? then Throws(r.tick)
        else if life.value > 0 then Policy(true, At(p.clock(r.tick) + life.value), r.e_tag, r.tick + 1)
        else r.(tick := r.tick + 1)
    else if code != 304 && h.name == "ETag" then r.(e_tag := h.value)
    else r
  }

  /** The loop, for a reply that is not a redirect. */
  function PolicyOf(p: Proxy, code: nat, hs: seq<Header>, tick: nat): (r: Policy)
    ensures r.tick >= tick
    ensures r.Policy? && r.make ==> r.expire.At? && code != 304
    ensures r.Policy? && !r.make ==> r.expire.NotADateTime?
    decreases |hs|
  {
    if hs == [] then Policy(false, NotADateTime, "", tick)
    else
      var r := PolicyOf(p, code, hs[..|hs| - 1], tick);
      if r.Throws? then r else TakeHeader(p, code, r, hs[|hs| - 1])
  }

  function HeaderLine(h: Header): string {
    h.name + ": " + h.value
  }

  function HeaderLines(hs: seq<Header>): (ls: seq<string>)
    ensures |ls| == |hs|
  {
    if hs == [] then [] else HeaderLines(hs[..|hs| - 1]) + [HeaderLine(hs[|hs| - 1])]
  }

  function PageOf(r: Reply): Page
    requires r.Reply?
  {
    Page([r.status] + HeaderLines(r.headers), r.body)
  }

  datatype Renewal = Renewal(expire: Time, e_tag: string, tick: nat) | Refused(tick: nat) | RenewalThrows(tick: nat)

  /** One header line of a 304 response, after others that gave `r`. */
  function RenewalLine(p: Proxy, r: Renewal, l: string): (r': Renewal)
    requires r.Renewal?
    ensures r'.tick >= r.tick
  {
    if Contains(l, "Cache-Control") && !Contains(l, MAX_AGE) then Refused(r.tick)
    else if Contains(l, "Cache-Control") && Lifetime(l).None? then RenewalThrows(r.tick)
    else
      var timed := if !Contains(l, "Cache-Control") then r
                   else if Lifetime(l).value > 0 then r.(expire := At(p.clock(r.tick) + Lifetime(l).value), tick := r.tick + 1)
                   else r.(tick := r.tick + 1);
      if Contains(l, "Etag") then timed.(e_tag := AfterColon(l)) else timed
  }

  /** The header loop of a refresh, over the lines of a 304 response. */
  function RenewalOf(p: Proxy, lines: seq<string>, tick: nat): (r: Renewal)
    ensures r.tick >= tick
    decreases |lines|
  {
    if lines == [] then Renewal(NotADateTime, "", tick)
    else
      var r := RenewalOf(p, lines[..|lines| - 1], tick);
      if r.Renewal? then RenewalLine(p, r, lines[|lines| - 1]) else r
  }

  /** The text two characters after the first `: `; from the second character on without one. */
  function AfterColon(l: string): string {
    var at := Find(l, ": ");
    if at.Some? then l[at.value + 2..] else if l == "" then "" else l[1..]
  }

  // ----- Serving -----

  function Expired(now: int, e: Time): bool {
    e.NotADateTime? || now >= e.t
  }

  function Remaining(p: Proxy, e: Time, now: int): int {
    if e.At? then e.t - now else p.unsetAge
  }

  datatype Served = Served(lines: seq<string>, cache: map<string, Entry>, tick: nat)

  datatype ServedLine = ServedLine(line: string, cache: map<string, Entry>, tick: nat)

  /** One line of a stored page as it is served: a date is replaced, a lifetime rewritten. Looking
      up the expiration puts an unset entry in the cache where there was none. */
  function ServeLine(p: Proxy, path: string, l: string, cache: map<string, Entry>, tick: nat): (r: ServedLine)
    ensures r.tick >= tick
    ensures r.cache == cache || (path !in cache && r.cache == cache[path := UNSET])
  {
    var dated := Contains(l, "Date:");
    var line := if dated then "Date: " + p.dateText(p.clock(tick)) + "\r" else l;
    var now := if dated then tick + 1 else tick;
    if Contains(line, "Cache-Control") then
      var entry := if path in cache then cache[path] else UNSET;
      ServedLine(Rewritten(AfterColon(line), Remaining(p, entry.expiration, p.clock(now))), cache[path := entry], now + 1)
    else ServedLine(line, cache, now)
  }

  function ServeLines(p: Proxy, path: string, lines: seq<string>, cache: map<string, Entry>, tick: nat): (r: Served)
    ensures |r.lines| == |lines| && r.tick >= tick
    ensures r.cache == cache || (path !in cache && r.cache == cache[path := UNSET])
    decreases |lines|
  {
    if lines == [] then Served([], cache, tick)
    else
      var r := ServeLines(p, path, lines[..|lines| - 1], cache, tick);
      var last := ServeLine(p, path, lines[|lines| - 1], r.cache, r.tick);
      Served(r.lines + [last.line], last.cache, last.tick)
  }

  // ----- The transitions -----

  datatype Answer = Answer(status: Status, page: Page, st: State)

  const NOPAGE := Page([], "")

  function MakeCache(st: State, uri: string, page: Page, expire: Time, e_tag: string): State
    requires uri != ""
  {
    var path := Key(uri);
    st.(files := st.files[path := page], cache := st.cache[path := Entry(expire, e_tag)],
        log := st.log + [Write(uri, path, page)])
  }

  /** The target of the next request: that of the first Location header. */
  function NextTarget(headers: seq<Header>, t: Target): Target {
    if headers == [] then t
    else if headers[0].name == "Location" then ParseLocation(headers[0].value, t)
    else NextTarget(headers[1..], t)
  }

  function FirstTarget(p: Proxy, u: string): Target {
    Target(p.host, p.port, u)
  }

  function Fetch(p: Proxy, u: string, st: State): Answer
    requires u != ""
  {
    FetchFrom(p, u, FirstTarget(p, u), st)
  }

  /** The redirect loop from the target `t` on: replies are taken until one is not a redirect. */
  function FetchFrom(p: Proxy, u: string, t: Target, st: State): (r: Answer)
    requires u != ""
    decreases |st.replies|
  {
    if st.replies == [] then Answer(Failed, NOPAGE, st.(asked := st.asked + [t]))
    else
      var reply, st1 := st.replies[0], st.(asked := st.asked + [t], replies := st.replies[1..]);
      if reply.NoReply? then Answer(Failed, NOPAGE, st1)
      else if reply.code == 302 then FetchFrom(p, u, NextTarget(reply.headers, t), st1)
      else
        match PolicyOf(p, reply.code, reply.headers, st.tick)
        case Throws(tick) => Answer(Thrown, NOPAGE, st1.(tick := tick))
        case Policy(make, expire, e_tag, tick) =>
          var st2 := st1.(tick := tick);
          if !reply.clean then Answer(Failed, NOPAGE, st2)
          else if make then Answer(Ok, PageOf(reply), MakeCache(st2, u, PageOf(reply), expire, e_tag))
          else Answer(Ok, PageOf(reply), st2)
  }

  datatype Lookup = Hit(page: Page, st: State) | Absent(st: State) | Broken(status: Status, st: State)

  function Serve(p: Proxy, path: string, st: State): Lookup {
    if path !in st.files then Broken(Hung, st)
    else
      var page := st.files[path];
      var r := ServeLines(p, path, page.lines, st.cache, st.tick);
      Hit(Page(r.lines, page.body), st.(cache := r.cache, tick := r.tick))
  }

  function HandleRequest(p: Proxy, uri: string, st: State): Answer
    decreases |st.cache|, 2
  {
    var u := Strip(p.prefix, uri);
    match HandleCache(p, u, st)
    case Hit(page, st1) => Answer(Ok, page, st1)
    case Absent(st1) => Fetch(p, u, st1)
    case Broken(status, st1) => Answer(status, NOPAGE, st1)
  }

  function HandleCache(p: Proxy, u: string, st: State): Lookup
    requires u != ""
    decreases |st.cache|, 1
  {
    var path := Key(u);
    if path !in st.cache then Absent(st)
    else
      var st1 := st.(tick := st.tick + 1);
      if !Expired(p.clock(st.tick), st.cache[path].expiration) then Serve(p, path, st1)
      else
        match UpdateCache(p, u, path, st1)
        case Refreshed(st2) => Serve(p, path, st2)
        case NotRefreshed(st2) => Absent(st2)
        case RefreshBroken(status, st2) => Broken(status, st2)
  }

  datatype Refresh = Refreshed(st: State) | NotRefreshed(st: State) | RefreshBroken(status: Status, st: State)

  function StatusLine(page: Page): string {
    if page.lines == [] then "" else page.lines[0]
  }

  function HeaderPart(page: Page): seq<string> {
    if page.lines == [] then [] else page.lines[1..]
  }

  /** What a refresh does with the answer to its own request. */
  function Settle(p: Proxy, path: string, a: Answer): Refresh {
    if a.status == Failed then NotRefreshed(a.st)
    else if a.status != Ok then RefreshBroken(a.status, a.st)
    else if Contains(StatusLine(a.page), "304") then
      match RenewalOf(p, HeaderPart(a.page), a.st.tick)
      case Renewal(expire, e_tag, tick) =>
        Refreshed(a.st.(cache := a.st.cache[path := Entry(expire, e_tag)], tick := tick))
      case Refused(tick) => NotRefreshed(a.st.(tick := tick))
      case RenewalThrows(tick) => RefreshBroken(Thrown, a.st.(tick := tick))
    else if Contains(StatusLine(a.page), "200") then Refreshed(a.st)
    else NotRefreshed(a.st)
  }

  lemma EraseShrinks(m: map<string, Entry>, k: string)
    requires k in m
    ensures |m - {k}| < |m|
  {
  }

  function UpdateCache(p: Proxy, u: string, path: string, st: State): Refresh
    requires path in st.cache
    decreases |st.cache|, 0
  {
    EraseShrinks(st.cache, path);
    Settle(p, path, HandleRequest(p, u, st.(cache := st.cache - {path})))
  }

  /** The state after these requests, in turn. One that throws leaves what it had changed. */
  function Run(p: Proxy, uris: seq<string>, st: State): State {
    if uris == [] then st
    else
      var before := Run(p, uris[..|uris| - 1], st);
      HandleRequest(p, uris[|uris| - 1], before).st
  }
}
