/** Which replies are stored, for how long and under which tag, by their headers. */
module ProxyStoring {
  import opened TextTools
  import opened CacheControl
  import opened ProxyCache

  /** A header whose max-age is looked at: storing is not forbidden by it. */
  predicate Lasts(code: nat, h: Header) {
    && code != 304 && h.name == "Cache-Control" && Contains(h.value, "max-age")
    && !Contains(h.value, "no-store") && !Contains(h.value, "no-cache")
  }

  /** One that gives a positive lifetime. */
  predicate Gives(code: nat, h: Header) {
    Lasts(code, h) && Lifetime(h.value).Some? && Lifetime(h.value).value > 0
  }

  /** One whose number cannot be read. */
  predicate Unreadable(code: nat, h: Header) {
    Lasts(code, h) && Lifetime(h.value).None?
  }

  predicate Tags(code: nat, h: Header) {
    code != 304 && h.name == "ETag"
  }

  /** How often the clock is read for these headers. */
  function Readings(code: nat, hs: seq<Header>): nat {
    if hs == [] then 0
    else Readings(code, hs[..|hs| - 1]) + if Lasts(code, hs[|hs| - 1]) then 1 else 0
  }

  predicate AnyUnreadable(code: nat, hs: seq<Header>) {
    exists i :: 0 <= i < |hs| && Unreadable(code, hs[i])
  }

  predicate AnyGives(code: nat, hs: seq<Header>) {
    exists i :: 0 <= i < |hs| && Gives(code, hs[i])
  }

  predicate LastGives(code: nat, hs: seq<Header>, i: int) {
    0 <= i < |hs| && Gives(code, hs[i]) && forall j :: i < j < |hs| ==> !Gives(code, hs[j])
  }

  predicate LastTags(code: nat, hs: seq<Header>, i: int) {
    0 <= i < |hs| && Tags(code, hs[i]) && forall j :: i < j < |hs| ==> !Tags(code, hs[j])
  }

  /** One header more. */
  lemma TakesHeader(p: Proxy, code: nat, r: Policy, h: Header)
    requires r.Policy?
    ensures TakeHeader(p, code, r, h) ==
            if Unreadable(code, h) then Throws(r.tick)
            else if Gives(code, h) then Policy(true, At(p.clock(r.tick) + Lifetime(h.value).value), r.e_tag, r.tick + 1)
            else if Lasts(code, h) then r.(tick := r.tick + 1)
            else if Tags(code, h) then r.(e_tag := h.value)
            else r
  {
    hide Contains, Lifetime;
  }

  lemma LastHeader(code: nat, hs: seq<Header>)
    requires hs != []
    ensures var n, before := |hs| - 1, hs[..|hs| - 1];
            && (AnyUnreadable(code, hs) <==> AnyUnreadable(code, before) || Unreadable(code, hs[n]))
            && (AnyGives(code, hs) <==> AnyGives(code, before) || Gives(code, hs[n]))
            && (if Gives(code, hs[n]) then LastGives(code, hs, n) && forall i :: LastGives(code, hs, i) ==> i == n
                else forall i :: LastGives(code, hs, i) <==> LastGives(code, before, i))
            && (if Tags(code, hs[n]) then LastTags(code, hs, n) && forall i :: LastTags(code, hs, i) ==> i == n
                else forall i :: LastTags(code, hs, i) <==> LastTags(code, before, i))
  {
    hide Unreadable, Gives, Tags;
    var n, before := |hs| - 1, hs[..|hs| - 1];
    forall i | 0 <= i < n ensures hs[i] == before[i] {
    }
  }

  /** What the header loop of a fetch finds: it throws exactly when a lifetime cannot be read; otherwise
      the page is stored exactly when a header gives a positive lifetime. */
  lemma {:induction false} StoredIff(p: Proxy, code: nat, hs: seq<Header>, tick: nat)
    ensures PolicyOf(p, code, hs, tick).Throws? <==> AnyUnreadable(code, hs)
    ensures var r := PolicyOf(p, code, hs, tick);
            !AnyUnreadable(code, hs) ==> r.Policy? && r.tick == tick + Readings(code, hs) && (r.make <==> AnyGives(code, hs))
    decreases |hs|
  {
    if hs != [] {
      StoredIff(p, code, hs[..|hs| - 1], tick);
      LastHeader(code, hs);
      var r := PolicyOf(p, code, hs[..|hs| - 1], tick);
      if r.Policy? {
        TakesHeader(p, code, r, hs[|hs| - 1]);
      }
      hide TakeHeader, AnyUnreadable, AnyGives;
    }
  }

  /** The expiration that header `i` sets: the clock when it is read, and its lifetime. */
  function SetBy(p: Proxy, code: nat, hs: seq<Header>, tick: nat, i: nat): Time
    requires i < |hs| && Gives(code, hs[i])
  {
    At(p.clock(tick + Readings(code, hs[..i])) + Lifetime(hs[i].value).value)
  }

  lemma PolicyStep(p: Proxy, code: nat, hs: seq<Header>, tick: nat)
    requires hs != [] && !AnyUnreadable(code, hs)
    ensures var n, before := |hs| - 1, hs[..|hs| - 1];
            && !AnyUnreadable(code, before)
            && PolicyOf(p, code, hs, tick).Policy? && PolicyOf(p, code, before, tick).Policy?
            && PolicyOf(p, code, hs, tick).expire ==
               if Gives(code, hs[n]) then SetBy(p, code, hs, tick, n) else PolicyOf(p, code, before, tick).expire
  {
    hide PolicyOf, TakeHeader, AnyUnreadable, AnyGives, Readings, LastTags, LastGives, Gives, Lasts, Unreadable, Tags,
      Lifetime;
    var n, before := |hs| - 1, hs[..|hs| - 1];
    LastHeader(code, hs);
    StoredIff(p, code, hs, tick);
    StoredIff(p, code, before, tick);
    StepOpens(p, code, hs, tick);
    TakesHeader(p, code, PolicyOf(p, code, before, tick), hs[n]);
  }

  lemma StepOpens(p: Proxy, code: nat, hs: seq<Header>, tick: nat)
    requires hs != [] && PolicyOf(p, code, hs[..|hs| - 1], tick).Policy?
    ensures PolicyOf(p, code, hs, tick) ==
            TakeHeader(p, code, PolicyOf(p, code, hs[..|hs| - 1], tick), hs[|hs| - 1])
  {
    hide TakeHeader;
  }

  lemma SetInFront(p: Proxy, code: nat, hs: seq<Header>, tick: nat, i: nat)
    requires i < |hs| - 1 && LastGives(code, hs, i)
    ensures LastGives(code, hs[..|hs| - 1], i) && !Gives(code, hs[|hs| - 1])
    ensures SetBy(p, code, hs, tick, i) == SetBy(p, code, hs[..|hs| - 1], tick, i)
  {
    hide Gives, Readings, Lifetime;
    assert hs[..|hs| - 1][..i] == hs[..i];
  }

  /** The last header that gives a lifetime sets the expiration. */
  lemma {:induction false} ExpiresAt(p: Proxy, code: nat, hs: seq<Header>, tick: nat, i: nat)
    requires !AnyUnreadable(code, hs) && LastGives(code, hs, i)
    ensures i < |hs| && Gives(code, hs[i])
    ensures PolicyOf(p, code, hs, tick).Policy? && PolicyOf(p, code, hs, tick).expire == SetBy(p, code, hs, tick, i)
    decreases |hs|
  {
    hide PolicyOf, AnyUnreadable, Readings, SetBy, Gives;
    PolicyStep(p, code, hs, tick);
    if i < |hs| - 1 {
      SetInFront(p, code, hs, tick, i);
      ExpiresAt(p, code, hs[..|hs| - 1], tick, i);
    }
  }

  /** Without such a header no expiration is set. */
  lemma NeverExpires(p: Proxy, code: nat, hs: seq<Header>, tick: nat)
    requires !AnyUnreadable(code, hs) && !AnyGives(code, hs)
    ensures PolicyOf(p, code, hs, tick).Policy? && PolicyOf(p, code, hs, tick).expire == NotADateTime
  {
    StoredIff(p, code, hs, tick);
  }

  /** An input: a lifetime that comes with `no-store` does not make a page stored. */
  lemma NoStoreForbids(p: Proxy, tick: nat)
    ensures var r := PolicyOf(p, 200, [Header("Cache-Control", "max-age=60,no-store")], tick); r.Policy? && !r.make
  {
    var h := Header("Cache-Control", "max-age=60,no-store");
    assert h.value[11..19] == "no-store";
    Has(h.value, "no-store", 11);
    hide Contains, Lifetime, PolicyOf;
    StoredIff(p, 200, [h], tick);
  }

  /** The last `ETag` header sets the tag; without one it is empty. */
  lemma {:induction false} TaggedWith(p: Proxy, code: nat, hs: seq<Header>, tick: nat)
    requires !AnyUnreadable(code, hs)
    ensures PolicyOf(p, code, hs, tick).Policy?
    ensures forall i :: LastTags(code, hs, i) ==> PolicyOf(p, code, hs, tick).e_tag == hs[i].value
    ensures (forall i :: !LastTags(code, hs, i)) ==> PolicyOf(p, code, hs, tick).e_tag == ""
    decreases |hs|
  {
    StoredIff(p, code, hs, tick);
    if hs != [] {
      var before := hs[..|hs| - 1];
      LastHeader(code, hs);
      TaggedWith(p, code, before, tick);
      TakesHeader(p, code, PolicyOf(p, code, before, tick), hs[|hs| - 1]);
      hide TakeHeader, AnyUnreadable, LastGives, Lasts;
    }
  }
}
