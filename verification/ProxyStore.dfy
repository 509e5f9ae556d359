/** The cache and the file store agree over every run. */
module ProxyStore {
  import opened TextTools
  import opened CacheControl
  import opened Redirects
  import opened ProxyCache
  import opened ProxyStoring

  /** The file store after these writes. */
  function Replay(log: seq<Write>): map<string, Page> {
    if log == [] then map[] else Replay(log[..|log| - 1])[log[|log| - 1].path := log[|log| - 1].page]
  }

  /** A reply that is to be stored: it came in whole, is neither a redirect nor a 304, and a header gives
      it a lifetime. */
  predicate Storable(r: Reply) {
    && r.Reply? && r.clean && r.code != 302 && r.code != 304
    && !AnyUnreadable(r.code, r.headers) && AnyGives(r.code, r.headers)
  }

  ghost predicate WriteOk(script: seq<Reply>, w: Write) {
    w.uri != "" && w.path == Key(w.uri) && exists r :: r in script && Storable(r) && w.page == PageOf(r)
  }

  /** Every key of the cache has a file; the files are the last writes; each write was of a
      storable reply of the origin, under the name of the uri it was made for. */
  ghost predicate StoreOk(script: seq<Reply>, st: State) {
    && st.files == Replay(st.log)
    && (forall k :: k in st.cache ==> k in st.files)
    && (forall w :: w in st.log ==> WriteOk(script, w))
    && (forall r :: r in st.replies ==> r in script)
  }

  /** The page is a reply of the origin, or carries the body of one. */
  ghost predicate Genuine(script: seq<Reply>, page: Page) {
    exists r :: r in script && r.Reply? && r.body == page.body && |page.lines| == |r.headers| + 1
  }

  lemma ReplyIsGenuine(script: seq<Reply>, r: Reply)
    requires r in script && r.Reply?
    ensures Genuine(script, PageOf(r))
  {
  }

  lemma {:induction false} ReplayFinds(script: seq<Reply>, log: seq<Write>, k: string)
    requires forall w :: w in log ==> WriteOk(script, w)
    requires k in Replay(log)
    ensures exists w :: w in log && w.path == k && w.page == Replay(log)[k]
    decreases |log|
  {
    var w := log[|log| - 1];
    if w.path != k {
      ReplayFinds(script, log[..|log| - 1], k);
    }
  }

  lemma StoredIsGenuine(script: seq<Reply>, st: State, k: string)
    requires StoreOk(script, st) && k in st.files
    ensures Genuine(script, st.files[k])
  {
    ReplayFinds(script, st.log, k);
    var w :| w in st.log && w.path == k && w.page == st.files[k];
    assert WriteOk(script, w);
    var r :| r in script && Storable(r) && w.page == PageOf(r);
    ReplyIsGenuine(script, r);
  }

  lemma MakeCacheKeeps(script: seq<Reply>, st: State, uri: string, r: Reply, expire: Time, e_tag: string)
    requires StoreOk(script, st) && uri != "" && r in script && Storable(r)
    ensures StoreOk(script, MakeCache(st, uri, PageOf(r), expire, e_tag))
  {
    var w := Write(uri, Key(uri), PageOf(r));
    assert (st.log + [w])[..|st.log|] == st.log;
    assert WriteOk(script, w);
  }

  /** The answer is not a hang, it is genuine, and the store is still in order. */
  ghost predicate AnswerOk(script: seq<Reply>, a: Answer) {
    a.status != Hung && StoreOk(script, a.st) && (a.status == Ok ==> Genuine(script, a.page))
  }

  lemma {:induction false} FetchKeeps(p: Proxy, script: seq<Reply>, u: string, t: Target, st: State)
    requires StoreOk(script, st) && u != ""
    ensures AnswerOk(script, FetchFrom(p, u, t, st))
    decreases |st.replies|
  {
    if st.replies != [] {
      var reply, st1 := st.replies[0], st.(asked := st.asked + [t], replies := st.replies[1..]);
      assert reply in script;
      assert StoreOk(script, st1);
      if reply.NoReply? {
      } else if reply.code == 302 {
        FetchKeeps(p, script, u, NextTarget(reply.headers, t), st1);
      } else {
        var pol := PolicyOf(p, reply.code, reply.headers, st.tick);
        ReplyIsGenuine(script, reply);
        if pol.Policy? && reply.clean && pol.make {
          StoredIff(p, reply.code, reply.headers, st.tick);
          assert Storable(reply);
          MakeCacheKeeps(script, st1.(tick := pol.tick), u, reply, pol.expire, pol.e_tag);
        }
      }
    }
  }

  ghost predicate LookupOk(script: seq<Reply>, l: Lookup) {
    StoreOk(script, l.st) && (l.Broken? ==> l.status == Thrown) && (l.Hit? ==> Genuine(script, l.page))
  }

  lemma ServeKeeps(p: Proxy, script: seq<Reply>, path: string, st: State)
    requires StoreOk(script, st) && path in st.files
    ensures LookupOk(script, Serve(p, path, st))
  {
    StoredIsGenuine(script, st, path);
  }

  ghost predicate RefreshOk(script: seq<Reply>, path: string, r: Refresh) {
    && StoreOk(script, r.st)
    && (r.RefreshBroken? ==> r.status == Thrown)
    && (r.Refreshed? ==> path in r.st.files)
  }

  lemma {:induction false} RequestKeeps(p: Proxy, script: seq<Reply>, uri: string, st: State)
    requires StoreOk(script, st)
    ensures AnswerOk(script, HandleRequest(p, uri, st))
    ensures st.files.Keys <= HandleRequest(p, uri, st).st.files.Keys
    decreases |st.cache|, 2
  {
    var u := Strip(p.prefix, uri);
    CacheKeeps(p, script, u, st);
    var l := HandleCache(p, u, st);
    if l.Absent? {
      FetchKeeps(p, script, u, FirstTarget(p, u), l.st);
      FetchKeepsFiles(p, u, FirstTarget(p, u), l.st);
    }
  }

  lemma {:induction false} FetchKeepsFiles(p: Proxy, u: string, t: Target, st: State)
    requires u != ""
    ensures st.files.Keys <= FetchFrom(p, u, t, st).st.files.Keys
    decreases |st.replies|
  {
    if st.replies != [] && st.replies[0].Reply? && st.replies[0].code == 302 {
      FetchKeepsFiles(p, u, NextTarget(st.replies[0].headers, t),
                      st.(asked := st.asked + [t], replies := st.replies[1..]));
    }
  }

  lemma {:induction false} CacheKeeps(p: Proxy, script: seq<Reply>, u: string, st: State)
    requires StoreOk(script, st) && u != ""
    ensures LookupOk(script, HandleCache(p, u, st))
    ensures st.files.Keys <= HandleCache(p, u, st).st.files.Keys
    decreases |st.cache|, 1
  {
    var path := Key(u);
    if path in st.cache {
      var st1 := st.(tick := st.tick + 1);
      if !Expired(p.clock(st.tick), st.cache[path].expiration) {
        ServeKeeps(p, script, path, st1);
      } else {
        UpdateKeeps(p, script, u, path, st1);
        var r := UpdateCache(p, u, path, st1);
        if r.Refreshed? {
          ServeKeeps(p, script, path, r.st);
        }
      }
    }
  }

  lemma {:induction false} UpdateKeeps(p: Proxy, script: seq<Reply>, u: string, path: string, st: State)
    requires StoreOk(script, st) && path in st.cache
    ensures RefreshOk(script, path, UpdateCache(p, u, path, st))
    ensures st.files.Keys <= UpdateCache(p, u, path, st).st.files.Keys
    decreases |st.cache|, 0
  {
    hide HandleRequest, Settle, StoreOk, RefreshOk, AnswerOk;
    var st1 := st.(cache := st.cache - {path});
    EraseShrinks(st.cache, path);
    EraseKeeps(script, path, st);
    RequestKeeps(p, script, u, st1);
    SettleKeeps(p, script, path, HandleRequest(p, u, st1));
  }

  lemma EraseKeeps(script: seq<Reply>, path: string, st: State)
    requires StoreOk(script, st) && path in st.cache
    ensures StoreOk(script, st.(cache := st.cache - {path})) && path in st.files
  {
  }

  lemma SettleKeeps(p: Proxy, script: seq<Reply>, path: string, a: Answer)
    requires AnswerOk(script, a) && path in a.st.files
    ensures RefreshOk(script, path, Settle(p, path, a))
    ensures Settle(p, path, a).st.files == a.st.files
  {
    hide Contains, StatusLine, RenewalOf, Replay, WriteOk, Genuine;
  }

  /** Over every run from an empty cache: no request hangs on a missing file, whatever is
      served carries the body of a reply of the origin, and every cached key has a file whose
      content is the last storable reply written for a uri of that key. */
  lemma {:induction false} StoreTheorem(p: Proxy, script: seq<Reply>, uris: seq<string>, tick: nat)
    ensures var st := Run(p, uris, State(map[], map[], script, [], tick, []));
            && StoreOk(script, st)
            && (forall uri :: AnswerOk(script, HandleRequest(p, uri, st)))
            && (forall k :: k in st.cache ==> exists w :: w in st.log && w.path == k && w.page == st.files[k])
    decreases |uris|
  {
    var st := Run(p, uris, State(map[], map[], script, [], tick, []));
    if uris != [] {
      var before := Run(p, uris[..|uris| - 1], State(map[], map[], script, [], tick, []));
      StoreTheorem(p, script, uris[..|uris| - 1], tick);
      RequestKeeps(p, script, uris[|uris| - 1], before);
    }
    forall uri ensures AnswerOk(script, HandleRequest(p, uri, st)) {
      RequestKeeps(p, script, uri, st);
    }
    forall k | k in st.cache ensures exists w :: w in st.log && w.path == k && w.page == st.files[k] {
      ReplayFinds(script, st.log, k);
    }
  }
}
