/** Where a request goes, and where a redirect sends it. */
module Redirects {
  import opened TextTools

  datatype Target = Target(host: string, port: string, uri: string)

  function HostAndPort(s: string, uri: string): Target {
    var at := Find(s, ":");
    if at.None? || at.value == |s| - 1 then Target(s, "80", uri)
    else Target(s[..at.value], s[at.value + 1..], uri)
  }

  /** The new target that a Location header gives a request that went to `t`. */
  function ParseLocation(location: string, t: Target): Target {
    var scheme := Find(location, "://");
    if scheme.Some? then
      var start := scheme.value + 3;
      var path := FindFrom(location, "/", start);
      if path.None? then HostAndPort(location[start..], "/")
      else HostAndPort(location[start..path.value], location[path.value..])
    else t.(uri := if location == "" || location[0] != '/' then "/" + location else location)
  }

  lemma NoChar(s: string, c: char, i: nat)
    requires i <= |s| && c !in s[i..]
    ensures FindFrom(s, [c], i).None?
  {
    FindFacts(s, [c], i);
    forall k | i <= k < |s| ensures s[k] != c {
      assert s[k] == s[i..][k - i] && s[i..][k - i] in s[i..];
    }
    forall j | i <= j ensures !StandsAt(s, [c], j) {
      if StandsAt(s, [c], j) { StandsChar(s, [c], j, 0); }
    }
  }

  lemma FirstChar(a: string, c: char, b: string, i: nat)
    requires i <= |a| && c !in a[i..]
    ensures FindFrom(a + ([c] + b), [c], i) == Some(|a|)
  {
    var s := a + ([c] + b);
    forall j | i <= j < |a| ensures !StandsAt(s, [c], j) {
      assert s[j] == a[i..][j - i] && a[i..][j - i] in a[i..];
      if StandsAt(s, [c], j) { StandsChar(s, [c], j, 0); }
    }
    assert s[|a|..|a| + 1] == [c];
    FindIs(s, [c], i, |a|);
  }

  lemma FirstScheme(scheme: string, rest: string)
    requires ':' !in scheme
    ensures Find(scheme + ("://" + rest), "://") == Some(|scheme|)
  {
    var s := scheme + ("://" + rest);
    forall j | 0 <= j < |scheme| ensures !StandsAt(s, "://", j) {
      assert s[j] == scheme[j] && scheme[j] in scheme;
      if StandsAt(s, "://", j) { StandsChar(s, "://", j, 0); }
    }
    assert s[|scheme|..|scheme| + 3] == "://";
    FindIs(s, "://", 0, |scheme|);
  }

  lemma HostReads(host: string, port: string, uri: string)
    requires ':' !in host
    ensures HostAndPort(host, uri) == Target(host, "80", uri)
    ensures port != "" ==> HostAndPort(host + (":" + port), uri) == Target(host, port, uri)
  {
    assert host[0..] == host;
    NoChar(host, ':', 0);
    FirstChar(host, ':', port, 0);
    var s := host + (":" + port);
    assert s[..|host|] == host && s[|host| + 1..] == port;
  }

  lemma ServerEnds(head: string, server: string, path: string)
    requires '/' !in server && (path == "" || path[0] == '/')
    ensures var s, end := (head + server) + path, FindFrom((head + server) + path, "/", |head|);
            if path == "" then end.None? && s[|head|..] == server
            else end == Some(|head| + |server|) && s[|head|..|head| + |server|] == server && s[|head| + |server|..] == path
  {
    var front := head + server;
    assert front[|head|..] == server;
    if path == "" {
      assert front + path == front;
      NoChar(front, '/', |head|);
    } else {
      assert path == ['/'] + path[1..];
      FirstChar(front, '/', path[1..], |head|);
    }
  }

  lemma ServerNoSlash(host: string, port: string)
    requires '/' !in host && '/' !in port
    ensures '/' !in host + (":" + port)
  {
  }

  /** A full address sends the request to its host, port and path; what it leaves out is port 80
      and the path `/`. */
  lemma LocationReads(scheme: string, host: string, port: string, path: string, t: Target)
    requires ':' !in scheme && ':' !in host && '/' !in host && '/' !in port
    requires path == "" || path[0] == '/'
    ensures var server := if port == "" then host else host + (":" + port);
            ParseLocation(((scheme + "://") + server) + path, t) ==
            Target(host, if port == "" then "80" else port, if path == "" then "/" else path)
  {
    var server := if port == "" then host else host + (":" + port);
    FirstScheme(scheme, server + path);
    Regroup(scheme, "://", server + path);
    Regroup(scheme + "://", server, path);
    ServerNoSlash(host, port);
    ServerEnds(scheme + "://", server, path);
    HostReads(host, port, if path == "" then "/" else path);
    hide Find, FindFrom, HostAndPort;
  }

  /** Any other text is a path on the server that was asked. */
  lemma LocationIsPath(location: string, t: Target)
    requires !Contains(location, "://")
    ensures var n := ParseLocation(location, t);
            && n.host == t.host && n.port == t.port
            && n.uri == if location != "" && location[0] == '/' then location else "/" + location
  {
  }
}
