/** Which handler a connection gives a request to. */
module Dispatch {
  import opened TextTools

  /** Without a slash the cut keeps everything. */
  function CutLast(s: string): string {
    if LastOf(s, '/').Some? then s[..LastOf(s, '/').value] else s
  }

  datatype Search = Matched(prefix: string) | Nothing | Endless

  function Longest(s: string, handlers: set<string>): Search
    decreases |s|
  {
    if s == "" then Nothing
    else if s in handlers then Matched(s)
    else if LastOf(s, '/').None? then Endless
    else Longest(CutLast(s), handlers)
  }

  /** Lines 110-115. The loop ends whenever the search does. */
  method FindPrefix(uri: string, handlers: set<string>) returns (longest_prefix: string)
    requires !Longest(uri, handlers).Endless?
    ensures Longest(uri, handlers) == if longest_prefix == "" then Nothing else Matched(longest_prefix)
  {
    longest_prefix := uri;
    while longest_prefix != ""
      invariant Longest(longest_prefix, handlers) == Longest(uri, handlers)
      decreases |longest_prefix|
    {
      if longest_prefix in handlers {
        break;
      }
      longest_prefix := CutLast(longest_prefix);
    }
  }

  // ----- The loop, turn by turn -----

  function Turns(s: string, n: nat): string {
    if n == 0 then s else CutLast(Turns(s, n - 1))
  }

  /** The loop is left after `n` turns, if not before. */
  predicate Left(s: string, handlers: set<string>, n: nat) {
    Turns(s, n) == "" || Turns(s, n) in handlers
  }

  lemma {:induction false} TurnsFirst(s: string, n: nat)
    ensures Turns(s, n + 1) == Turns(CutLast(s), n)
  {
    if n > 0 {
      TurnsFirst(s, n - 1);
    }
  }

  lemma {:induction false} TurnsStay(s: string, n: nat)
    requires LastOf(s, '/').None?
    ensures Turns(s, n) == s
  {
    if n > 0 {
      TurnsStay(s, n - 1);
    }
  }

  lemma {:induction false} SearchInTurns(s: string, handlers: set<string>) returns (n: nat)
    ensures n <= |s|
    ensures if Longest(s, handlers).Endless? then forall m :: !Left(s, handlers, m)
            else
              && Left(s, handlers, n)
              && Turns(s, n) == if Longest(s, handlers).Nothing? then "" else Longest(s, handlers).prefix
    decreases |s|
  {
    n := 0;
    if s != "" && s !in handlers {
      if LastOf(s, '/').None? {
        forall m: nat ensures !Left(s, handlers, m) {
          TurnsStay(s, m);
        }
      } else {
        var k := SearchInTurns(CutLast(s), handlers);
        TurnsFirst(s, k);
        n := k + 1;
        if Longest(s, handlers).Endless? {
          forall m: nat ensures !Left(s, handlers, m) {
            if m > 0 {
              TurnsFirst(s, m - 1);
              assert !Left(CutLast(s), handlers, m - 1);
            }
          }
        }
      }
    }
  }

  /** `q` is the uri or what stands before one of its slashes. */
  predicate Ancestor(q: string, uri: string) {
    q == uri || (|q| < |uri| && uri[..|q|] == q && uri[|q|] == '/')
  }

  lemma AncestorOfCut(q: string, s: string)
    requires s != "" && LastOf(s, '/').Some?
    ensures Ancestor(q, s) <==> q == s || Ancestor(q, CutLast(s))
  {
  }

  predicate Serves(q: string, uri: string, handlers: set<string>) {
    q != "" && q in handlers && Ancestor(q, uri)
  }

  lemma {:induction false} LongestIs(s: string, handlers: set<string>)
    ensures var r := Longest(s, handlers);
            && (r.Matched? ==> Serves(r.prefix, s, handlers) && forall q :: Serves(q, s, handlers) ==> |q| <= |r.prefix|)
            && (!r.Matched? ==> forall q :: !Serves(q, s, handlers))
            && (r.Nothing? ==> s == "" || s[0] == '/')
            && (r.Endless? ==> s != "" && s[0] != '/')
    decreases |s|
  {
    if s != "" && s !in handlers {
      if LastOf(s, '/').None? {
        forall q ensures !Serves(q, s, handlers) {
        }
      } else {
        LongestIs(CutLast(s), handlers);
        var p := LastOf(s, '/').value;
        forall q ensures Serves(q, s, handlers) <==> Serves(q, CutLast(s), handlers) {
          AncestorOfCut(q, s);
        }
        assert p > 0 ==> CutLast(s)[0] == s[0];
      }
    }
  }

  /** The longest registered prefix that ends before a slash or is the whole uri. */
  ghost predicate LongestServing(q: string, uri: string, handlers: set<string>) {
    Serves(q, uri, handlers) && forall r :: Serves(r, uri, handlers) ==> |r| <= |q|
  }

  /** The search finds exactly that prefix. */
  lemma {:induction false} DispatchIs(uri: string, handlers: set<string>, q: string)
    ensures Longest(uri, handlers) == Matched(q) <==> LongestServing(q, uri, handlers)
  {
    LongestIs(uri, handlers);
    if LongestServing(q, uri, handlers) {
      SameLength(q, Longest(uri, handlers).prefix, uri);
    }
  }

  /** The loop never ends exactly when the uri neither is empty nor starts with a slash and
      no registered prefix serves it. */
  lemma NeverEndsIff(uri: string, handlers: set<string>)
    ensures (forall n :: !Left(uri, handlers, n)) <==>
              uri != "" && uri[0] != '/' && forall q :: !Serves(q, uri, handlers)
  {
    LongestIs(uri, handlers);
    var n := SearchInTurns(uri, handlers);
    assert !Longest(uri, handlers).Endless? ==> Left(uri, handlers, n);
  }

  /** For a uri that starts with a slash the loop ends, and no prefix is left over exactly when none
      serves the uri. */
  lemma SlashUriEnds(uri: string, handlers: set<string>) returns (n: nat)
    requires uri != "" && uri[0] == '/'
    ensures n <= |uri| && Left(uri, handlers, n)
    ensures Turns(uri, n) != "" <==> exists q :: Serves(q, uri, handlers)
    ensures Turns(uri, n) != "" ==> LongestServing(Turns(uri, n), uri, handlers)
  {
    LongestIs(uri, handlers);
    n := SearchInTurns(uri, handlers);
  }

  lemma SameLength(q: string, r: string, uri: string)
    requires Ancestor(q, uri) && Ancestor(r, uri) && |q| == |r|
    ensures q == r
  {
  }

  /** Lines 116-127: a request that follows a proxied page falls back to the root handler. */
  method ChooseHandler(uri: string, referer: string, host: string, handlers: set<string>)
    returns (chosen: Option<string>)
    requires !Longest(uri, handlers).Endless?
    ensures chosen ==
            if Longest(uri, handlers).Matched? then Some(Longest(uri, handlers).prefix)
            else if referer != "" && Contains(referer, host) && "/" in handlers then Some("/")
            else None
    ensures chosen.Some? ==> chosen.value in handlers
  {
    LongestIs(uri, handlers);
    var longest_prefix := FindPrefix(uri, handlers);
    if longest_prefix == "" {
      if referer != "" && Contains(referer, host) && "/" in handlers {
        longest_prefix := "/";
      }
    }
    chosen := if longest_prefix == "" then None else Some(longest_prefix);
  }
}
