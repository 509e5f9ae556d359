/** The proxy handler as it is written: an object that updates its cache and files. */
module ProxyHandler {
  import opened TextTools
  import opened CacheControl
  import opened Redirects
  import opened ProxyCache
  import opened ProxyStore

  class Handler {
    const proxy: Proxy
    ghost const script: seq<Reply>
    var cache_: map<string, Entry>
    var files: map<string, Page>
    var replies: seq<Reply>
    var tick: nat
    ghost var asked: seq<Target>
    ghost var log: seq<Write>

    constructor (proxy: Proxy, replies: seq<Reply>, tick: nat)
      ensures this.proxy == proxy && script == replies && Valid()
      ensures View() == State(map[], map[], replies, [], tick, [])
    {
      this.proxy, script := proxy, replies;
      cache_, files, asked, log := map[], map[], [], [];
      this.replies, this.tick := replies, tick;
    }

    ghost function View(): State
      reads this
    {
      State(cache_, files, replies, asked, tick, log)
    }

    ghost predicate Valid()
      reads this
    {
      StoreOk(script, View())
    }

    method Now() returns (now: int)
      modifies this`tick
      ensures tick == old(tick) + 1 && now == proxy.clock(old(tick))
    {
      now := proxy.clock(tick);
      tick := tick + 1;
    }

    method StoreInCache(uri: string, expiration: Time, e_tag: string, page: Page)
      requires uri != ""
      modifies this
      ensures View() == MakeCache(old(View()), uri, page, expiration, e_tag)
    {
      var path := uri;
      if path[|path| - 1] == '/' {
        path := path + "index";
      }
      files := files[path := page];
      cache_ := cache_[path := Entry(expiration, e_tag)];
      log := log + [Write(uri, path, page)];
    }

    /** The header loop of a fetch. */
    method ReadHeaders(code: nat, headers: seq<Header>) returns (policy: Policy)
      modifies this`tick
      ensures policy == PolicyOf(proxy, code, headers, old(tick)) && policy.tick == tick
    {
      policy := Policy(false, NotADateTime, "", tick);
      assert headers[..0] == [];
      for i := 0 to |headers|
        invariant PolicyOf(proxy, code, headers[..i], old(tick)) == policy && policy.tick == tick && policy.Policy?
      {
        hide PolicyOf, TakeHeader;
        PolicyNext(proxy, code, headers, i, old(tick));
        policy := ReadHeader(code, headers[i], policy);
        if policy.Throws? {
          ThrowsStay(proxy, code, headers, i + 1, old(tick));
          return;
        }
      }
      assert headers[..|headers|] == headers;
    }

    method ReadHeader(code: nat, h: Header, before: Policy) returns (policy: Policy)
      requires before.Policy? && before.tick == tick
      modifies this`tick
      ensures policy == TakeHeader(proxy, code, before, h) && policy.tick == tick
    {
      hide AllowsStoring, Contains, Lifetime;
      var make, expire, e_tag := before.make, before.expire, before.e_tag;
      if AllowsStoring(code, h) {
        if Contains(h.value, MAX_AGE) {
          var life := Lifetime(h.value);
          if life.None? {
            return Throws(tick);
          }
          var now := Now();
          if life.value > 0 {
            make := true;
            expire := At(now + life.value);
          }
        }
      } else if code != 304 && h.name == "ETag" {
        e_tag := h.value;
      }
      policy := Policy(make, expire, e_tag, tick);
    }

    /** The redirect loop. */
    method FetchPage(request_uri: string) returns (status: Status, page: Page)
      requires request_uri != "" && Valid()
      modifies this
      ensures Answer(status, page, View()) == Fetch(proxy, request_uri, old(View())) && Valid()
    {
      FetchKeeps(proxy, script, request_uri, FirstTarget(proxy, request_uri), View());
      var server_host, server_port, uri := proxy.host, proxy.port, request_uri;
      while true
        invariant FetchFrom(proxy, request_uri, Target(server_host, server_port, uri), View()) ==
                  old(Fetch(proxy, request_uri, View()))
        decreases |replies|
      {
        asked := asked + [Target(server_host, server_port, uri)];
        if replies == [] {
          return Failed, NOPAGE;
        }
        var reply := replies[0];
        replies := replies[1..];
        if reply.NoReply? {
          return Failed, NOPAGE;
        }
        if reply.code == 302 {
          var next := NextTarget(reply.headers, Target(server_host, server_port, uri));
          server_host, server_port, uri := next.host, next.port, next.uri;
          continue;
        }
        var policy := ReadHeaders(reply.code, reply.headers);
        if policy.Throws? {
          return Thrown, NOPAGE;
        }
        if !reply.clean {
          return Failed, NOPAGE;
        }
        page := PageOf(reply);
        if policy.make {
          StoreInCache(request_uri, policy.expire, policy.e_tag, page);
        }
        return Ok, page;
      }
    }

    method HandleRequest(uri: string) returns (status: Status, page: Page)
      requires Valid()
      modifies this
      ensures Answer(status, page, View()) == ProxyCache.HandleRequest(proxy, uri, old(View())) && Valid()
      decreases |cache_|, 2
    {
      RequestKeeps(proxy, script, uri, View());
      var request_uri := uri;
      var findLoc := Find(request_uri, proxy.prefix);
      if findLoc.Some? {
        request_uri := request_uri[..findLoc.value] + request_uri[findLoc.value + |proxy.prefix|..];
      }
      if request_uri == "" || request_uri[0] != '/' {
        request_uri := "/" + request_uri;
      }
      var hit;
      hit, status, page := HandleCache(request_uri);
      if hit || status != Ok {
        return;
      }
      status, page := FetchPage(request_uri);
    }

    /** `hit` is false and `status` is Ok where the code returns false. */
    method HandleCache(uri: string) returns (hit: bool, status: Status, page: Page)
      requires uri != "" && Valid()
      modifies this
      ensures Valid()
      ensures match ProxyCache.HandleCache(proxy, uri, old(View()))
              case Hit(pg, st) => hit && status == Ok && page == pg && View() == st
              case Absent(st) => !hit && status == Ok && View() == st
              case Broken(s, st) => !hit && status == s != Ok && page == NOPAGE && View() == st
      decreases |cache_|, 1
    {
      CacheKeeps(proxy, script, uri, View());
      hit, status, page := false, Ok, NOPAGE;
      var path := uri;
      if path[|path| - 1] == '/' {
        path := path + "index";
      }
      if path !in cache_ {
        return;
      }
      var now := Now();
      if Expired(now, cache_[path].expiration) {
        var updated;
        updated, status := UpdateCache(uri, path);
        if !updated {
          return;
        }
      }
      page := ServePage(path);
      hit := true;
    }

    /** Reading the file back, with its dates and lifetimes rewritten. Without the file the line
        loop would never see its end. */
    method ServePage(path: string) returns (page: Page)
      requires path in files
      modifies this`cache_, this`tick
      ensures Hit(page, View()) == Serve(proxy, path, old(View()))
    {
      var stored := files[path];
      var lines: seq<string> := [];
      for i := 0 to |stored.lines|
        invariant ServeLines(proxy, path, stored.lines[..i], old(cache_), old(tick)) == Served(lines, cache_, tick)
      {
        assert stored.lines[..i + 1][..i] == stored.lines[..i];
        var line := RewriteLine(path, stored.lines[i]);
        lines := lines + [line];
      }
      assert stored.lines[..|stored.lines|] == stored.lines;
      page := Page(lines, stored.body);
    }

    method RewriteLine(path: string, stored: string) returns (line: string)
      modifies this`cache_, this`tick
      ensures ServedLine(line, cache_, tick) == ServeLine(proxy, path, stored, old(cache_), old(tick))
    {
      line := stored;
      if Contains(line, "Date:") {
        var now := Now();
        line := "Date: " + proxy.dateText(now) + "\r";
      }
      if Contains(line, "Cache-Control") {
        var now := Now();
        if path !in cache_ {
          cache_ := cache_[path := UNSET];
        }
        var max_age := Remaining(proxy, cache_[path].expiration, now);
        line := RewriteDirectives(AfterColon(line), max_age);
      }
    }

    method UpdateCache(uri: string, path: string) returns (updated: bool, status: Status)
      requires uri != "" && path in cache_ && Valid()
      modifies this
      ensures Valid()
      ensures match ProxyCache.UpdateCache(proxy, uri, path, old(View()))
              case Refreshed(st) => updated && status == Ok && View() == st
              case NotRefreshed(st) => !updated && status == Ok && View() == st
              case RefreshBroken(s, st) => !updated && status == s != Ok && View() == st
      decreases |cache_|, 0
    {
      UpdateKeeps(proxy, script, uri, path, View());
      EraseShrinks(cache_, path);
      cache_ := cache_ - {path};
      var page;
      status, page := HandleRequest(uri);
      updated := false;
      if status == Failed {
        status := Ok;
        return;
      }
      if status != Ok {
        return;
      }
      if Contains(StatusLine(page), "304") {
        var renewal := ReadRenewal(HeaderPart(page));
        match renewal
        case Renewal(expire, e_tag, _) =>
          cache_ := cache_[path := Entry(expire, e_tag)];
          updated := true;
        case Refused(_) =>
        case RenewalThrows(_) => status := Thrown;
      } else {
        updated := Contains(StatusLine(page), "200");
      }
    }

    /** The header loop of a refresh. */
    method ReadRenewal(lines: seq<string>) returns (renewal: Renewal)
      modifies this`tick
      ensures renewal == RenewalOf(proxy, lines, old(tick)) && renewal.tick == tick
    {
      renewal := Renewal(NotADateTime, "", tick);
      for i := 0 to |lines|
        invariant RenewalOf(proxy, lines[..i], old(tick)) == renewal && renewal.tick == tick && renewal.Renewal?
      {
        assert lines[..i + 1][..i] == lines[..i];
        renewal := ReadRenewalLine(lines[i], renewal.expire, renewal.e_tag);
        if !renewal.Renewal? {
          RenewalEnds(proxy, lines, i + 1, old(tick));
          return;
        }
      }
      assert lines[..|lines|] == lines;
    }

    method ReadRenewalLine(header: string, expire: Time, e_tag: string) returns (renewal: Renewal)
      modifies this`tick
      ensures renewal == RenewalLine(proxy, Renewal(expire, e_tag, old(tick)), header) && renewal.tick == tick
    {
      hide Contains, Lifetime, AfterColon;
      var expire', e_tag' := expire, e_tag;
      if Contains(header, "Cache-Control") {
        if !Contains(header, MAX_AGE) {
          return Refused(tick);
        }
        var life := Lifetime(header);
        if life.None? {
          return RenewalThrows(tick);
        }
        var now := Now();
        if life.value > 0 {
          expire' := At(now + life.value);
        }
      }
      if Contains(header, "Etag") {
        e_tag' := AfterColon(header);
      }
      renewal := Renewal(expire', e_tag', tick);
    }
  }

  lemma PolicyNext(p: Proxy, code: nat, hs: seq<Header>, i: nat, tick: nat)
    requires i < |hs| && PolicyOf(p, code, hs[..i], tick).Policy?
    ensures PolicyOf(p, code, hs[..i + 1], tick) == TakeHeader(p, code, PolicyOf(p, code, hs[..i], tick), hs[i])
  {
    assert hs[..i + 1][..i] == hs[..i];
  }

  /** Once the header loop has thrown, the headers after that do not matter. */
  lemma {:induction false} ThrowsStay(p: Proxy, code: nat, hs: seq<Header>, n: nat, tick: nat)
    requires n <= |hs| && PolicyOf(p, code, hs[..n], tick).Throws?
    ensures PolicyOf(p, code, hs, tick) == PolicyOf(p, code, hs[..n], tick)
    decreases |hs|
  {
    if n < |hs| {
      assert hs[..|hs| - 1][..n] == hs[..n];
      ThrowsStay(p, code, hs[..|hs| - 1], n, tick);
    } else {
      assert hs[..n] == hs;
    }
  }

  lemma {:induction false} RenewalEnds(p: Proxy, lines: seq<string>, n: nat, tick: nat)
    requires n <= |lines| && !RenewalOf(p, lines[..n], tick).Renewal?
    ensures RenewalOf(p, lines, tick) == RenewalOf(p, lines[..n], tick)
    decreases |lines|
  {
    if n < |lines| {
      assert lines[..|lines| - 1][..n] == lines[..n];
      RenewalEnds(p, lines[..|lines| - 1], n, tick);
    } else {
      assert lines[..n] == lines;
    }
  }
}
