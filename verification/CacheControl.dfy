/** The Cache-Control header: the max-age that is read when a page is stored, and the
    rewriting of the header when the page is served. */
module CacheControl {
  import opened TextTools

  const MAX_AGE := "max-age"

  function HeaderName(): string { "Cache-Control: " }

  /** The lifetime that the store and refresh paths read from a text that has a max-age:
      the number after the eight characters `max-age=`, up to the next comma. None where
      the code throws. */
  function Lifetime(value: string): Option<int>
    requires Contains(value, MAX_AGE)
  {
    var start := Find(value, MAX_AGE).value;
    var end := FindFrom(value, ",", start);
    var text := if end.Some? then value[start..end.value] else value[start..];
    if |text| < 8 then None else Stoi(text[8..])
  }

  /** A page stored or refreshed with this text gets the lifetime `age`. */
  ghost predicate Advertises(text: string, age: int) {
    Contains(text, MAX_AGE) && Lifetime(text) == Some(age)
  }

  // ----- Directives -----

  predicate NoComma(s: string) { ',' !in s }

  /** The texts between commas. */
  function Directives(value: string): (ds: seq<string>)
    ensures |ds| > 0 && forall d :: d in ds ==> NoComma(d)
    decreases |value|
  {
    var end := Find(value, ",");
    if end.None? then CommaFree(value); [value]
    else
      CommaFirst(value, end.value);
      [value[..end.value]] + Directives(value[end.value + 1..])
  }

  lemma CommaFree(s: string)
    requires Find(s, ",").None?
    ensures NoComma(s)
  {
    FindFacts(s, ",", 0);
    forall i | 0 <= i < |s| ensures s[i] != ',' {
      assert !StandsAt(s, ",", i);
      assert s[i..i + 1] == [s[i]];
    }
  }

  lemma CommaFirst(s: string, e: nat)
    requires Find(s, ",") == Some(e)
    ensures e < |s| && s[e] == ',' && NoComma(s[..e])
  {
    FindFacts(s, ",", 0);
    assert s[e..e + 1] == [s[e]];
    forall i | 0 <= i < e ensures s[i] != ',' {
      assert !StandsAt(s, ",", i);
      assert s[i..i + 1] == [s[i]];
    }
  }

  function Join(ds: seq<string>): string
    requires |ds| > 0
  {
    if |ds| == 1 then ds[0] else ds[0] + "," + Join(ds[1..])
  }

  /** A directive that mentions max-age is replaced by the remaining lifetime. */
  function Renew(token: string, age: int, end: string): string {
    if Contains(token, MAX_AGE) then AgeText(age) + end else token
  }

  function AgeText(age: int): string {
    "max-age=" + IntText(age)
  }

  /** What serving makes of the directives. In last place a replaced one gets the carriage
      return that line reading left off. */
  function Renewed(ds: seq<string>, age: int): (rs: seq<string>)
    ensures |rs| == |ds|
  {
    if ds == [] then []
    else [Renew(ds[0], age, if |ds| == 1 then "\r" else "")] + Renewed(ds[1..], age)
  }

  /** `line` followed by the rewriting of what is left is the whole. */
  ghost predicate Rewriting(line: string, rest: string, age: int, whole: string) {
    line + Join(Renewed(Directives(rest), age)) == whole
  }

  lemma RenewWithComma(d: string, age: int)
    ensures Renew(d + ",", age, ",") == Renew(d, age, "") + ","
  {
    CommaIrrelevant(d);
    assert AgeText(age) + "" == AgeText(age);
  }

  lemma JoinFirst(d: string, ds: seq<string>)
    requires |ds| > 0
    ensures Join([d] + ds) == d + "," + Join(ds)
  {
  }

  lemma RewriteNext(line: string, rest: string, e: nat, age: int, whole: string)
    requires Rewriting(line, rest, age, whole) && Find(rest, ",") == Some(e)
    ensures e < |rest| && Rewriting(line + Renew(rest[..e] + ",", age, ","), rest[e + 1..], age, whole)
  {
    CommaFirst(rest, e);
    var d, ds := rest[..e], Directives(rest[e + 1..]);
    assert Directives(rest) == [d] + ds;
    assert ([d] + ds)[1..] == ds;
    JoinFirst(Renew(d, age, ""), Renewed(ds, age));
    RenewWithComma(d, age);
    Regroup(line, Renew(d, age, "") + ",", Join(Renewed(ds, age)));
  }

  lemma RewriteLast(line: string, rest: string, age: int, whole: string)
    requires Rewriting(line, rest, age, whole) && Find(rest, ",").None?
    ensures line + Renew(rest, age, "\r") == whole
  {
  }

  lemma RestOf(value: string, start: nat, end: nat)
    requires start <= |value| && FindFrom(value, ",", start) == Some(end)
    ensures start <= end < |value| && Find(value[start..], ",") == Some(end - start)
    ensures value[start..end + 1] == value[start..][..end - start] + ","
    ensures value[start..][end - start + 1..] == value[end + 1..]
  {
    FindInRest(value, start, start);
    FindFacts(value, ",", start);
  }

  /** The directive loop from `start` on, with `line` made so far. */
  function RewriteFrom(line: string, value: string, start: nat, age: int): string
    requires start <= |value|
    decreases |value| - start
  {
    match FindFrom(value, ",", start)
    case None => line + Renew(value[start..], age, "\r")
    case Some(end) =>
      RestOf(value, start, end);
      RewriteFrom(line + Renew(value[start..end + 1], age, ","), value, end + 1, age)
  }

  function Rewritten(value: string, age: int): string {
    HeaderName() + Join(Renewed(Directives(value), age))
  }

  lemma NoneInRest(value: string, start: nat)
    requires start <= |value| && FindFrom(value, ",", start).None?
    ensures Find(value[start..], ",").None?
  {
    FindInRest(value, start, start);
  }

  /** The loop rewrites each directive and leaves their number and order alone. */
  lemma {:induction false} RewriteIsRenewal(line: string, value: string, start: nat, age: int, whole: string)
    requires start <= |value| && Rewriting(line, value[start..], age, whole)
    ensures RewriteFrom(line, value, start, age) == whole
    decreases |value| - start
  {
    hide Rewriting, Renew, Find;
    match FindFrom(value, ",", start)
    case None =>
      NoneInRest(value, start);
      RewriteLast(line, value[start..], age, whole);
    case Some(end) =>
      RestOf(value, start, end);
      RewriteNext(line, value[start..], end - start, age, whole);
      RewriteIsRenewal(line + Renew(value[start..end + 1], age, ","), value, end + 1, age, whole);
  }

  lemma RewriteStarts(value: string, age: int)
    ensures RewriteFrom(HeaderName(), value, 0, age) == Rewritten(value, age)
  {
    assert value[0..] == value;
    RewriteIsRenewal(HeaderName(), value, 0, age, Rewritten(value, age));
  }

  lemma RewriteStep(line: string, value: string, start: nat, age: int)
    requires start <= |value|
    ensures var end := FindFrom(value, ",", start);
            if end.None? then RewriteFrom(line, value, start, age) == line + Renew(value[start..], age, "\r")
            else
              && start <= end.value < |value|
              && RewriteFrom(line, value, start, age) ==
                 RewriteFrom(line + Renew(value[start..end.value + 1], age, ","), value, end.value + 1, age)
  {
  }

  method RewriteDirectives(value: string, age: int) returns (line: string)
    ensures line == Rewritten(value, age)
  {
    hide *;
    var token_start := 0;
    line := HeaderName();
    RewriteStarts(value, age);
    while true
      invariant token_start <= |value|
      invariant RewriteFrom(line, value, token_start, age) == Rewritten(value, age)
      decreases |value| - token_start
    {
      RewriteStep(line, value, token_start, age);
      var token_end := FindFrom(value, ",", token_start);
      if token_end.None? {
        line := line + Renew(value[token_start..], age, "\r");
        return;
      }
      line := line + Renew(value[token_start..token_end.value + 1], age, ",");
      token_start := token_end.value + 1;
    }
  }

  lemma {:induction false} FindInRest(s: string, i: nat, j: nat)
    requires i <= j
    ensures FindFrom(s, ",", j).None? ==> i > |s| || FindFrom(s[i..], ",", j - i).None?
    ensures FindFrom(s, ",", j).Some? ==> FindFrom(s[i..], ",", j - i) == Some(FindFrom(s, ",", j).value - i)
    decreases |s| - j
  {
    if j + 1 <= |s| {
      assert s[i..][j - i..j - i + 1] == s[j..j + 1];
      if s[j..j + 1] != "," {
        FindInRest(s, i, j + 1);
      }
    }
  }

  /** A trailing comma neither hides nor makes a max-age. */
  lemma CommaIrrelevant(d: string)
    ensures Contains(d + ",", MAX_AGE) <==> Contains(d, MAX_AGE)
  {
    FindFacts(d, MAX_AGE, 0);
    FindFacts(d + ",", MAX_AGE, 0);
    forall j ensures StandsAt(d + ",", MAX_AGE, j) <==> StandsAt(d, MAX_AGE, j) {
      if j <= |d| {
        StandsBefore(d, ",", j);
      }
    }
  }

  /** `max-age` cannot reach over a comma. */
  lemma StandsBefore(d: string, rest: string, j: int)
    requires rest != "" && rest[0] == ','
    requires j <= |d|
    ensures StandsAt(d + rest, MAX_AGE, j) <==> StandsAt(d, MAX_AGE, j)
  {
    var s := d + rest;
    if StandsAt(s, MAX_AGE, j) {
      if j + 7 > |d| {
        StandsChar(s, MAX_AGE, j, |d| - j);
      } else {
        assert s[j..j + 7] == d[j..j + 7];
      }
    }
    if StandsAt(d, MAX_AGE, j) {
      assert s[j..j + 7] == d[j..j + 7];
    }
  }

  // ----- Reading back what was advertised -----

  lemma FindAfter(h: string, w: string)
    requires Contains(w, MAX_AGE)
    requires forall j :: 0 <= j < |h| ==> !StandsAt(h + w, MAX_AGE, j)
    ensures Find(h + w, MAX_AGE) == Some(|h| + Find(w, MAX_AGE).value)
  {
    var k := Find(w, MAX_AGE).value;
    FindFacts(w, MAX_AGE, 0);
    forall j | 0 <= j <= |h| + k ensures StandsAt(h + w, MAX_AGE, j) <==> j == |h| + k {
      if j >= |h| {
        ShiftStands(h, w, MAX_AGE, j - |h|);
      }
    }
    FindIs(h + w, MAX_AGE, 0, |h| + k);
  }

  lemma CommaAfter(h: string, w: string, k: nat)
    requires k <= |w|
    ensures match FindFrom(w, ",", k)
            case None => FindFrom(h + w, ",", |h| + k).None?
            case Some(e) => FindFrom(h + w, ",", |h| + k) == Some(|h| + e)
  {
    assert (h + w)[|h|..] == w;
    FindInRest(h + w, |h|, |h| + k);
  }

  /** A text before the first max-age does not change the lifetime that is read. */
  lemma LifetimeAfter(h: string, w: string)
    requires Contains(w, MAX_AGE)
    requires forall j :: 0 <= j < |h| ==> !StandsAt(h + w, MAX_AGE, j)
    ensures Contains(h + w, MAX_AGE) && Lifetime(h + w) == Lifetime(w)
  {
    var k := Find(w, MAX_AGE).value;
    FindAfter(h, w);
    CommaAfter(h, w, k);
    var e := FindFrom(w, ",", k);
    if e.Some? {
      assert (h + w)[|h| + k..|h| + e.value] == w[k..e.value];
    } else {
      assert (h + w)[|h| + k..] == w[k..];
    }
  }

  lemma ShiftStands(h: string, w: string, p: string, j: int)
    requires 0 <= j
    ensures StandsAt(h + w, p, |h| + j) <==> StandsAt(w, p, j)
  {
  }

  lemma AgeTextFacts(age: int)
    ensures |AgeText(age)| >= 8 && NoComma(AgeText(age)) && AgeText(age)[8..] == IntText(age)
    ensures AgeText(age)[..7] == MAX_AGE
  {
  }

  lemma AgeStands(age: int, rest: string)
    ensures Find(AgeText(age) + rest, MAX_AGE) == Some(0)
  {
  }

  lemma CommaAt(d: string, rest: string)
    requires NoComma(d) && rest != "" && rest[0] == ','
    ensures Find(d + rest, ",") == Some(|d|)
  {
    var s := d + rest;
    forall j | 0 <= j < |d| ensures !StandsAt(s, ",", j) {
      assert s[j] == d[j] && s[j] in d;
      if StandsAt(s, ",", j) { StandsChar(s, ",", j, 0); }
    }
    assert s[|d|..|d| + 1] == ",";
    FindIs(s, ",", 0, |d|);
  }

  lemma CommaNowhere(d: string)
    requires NoComma(d)
    ensures Find(d, ",").None?
  {
    FindFacts(d, ",", 0);
    forall j ensures !StandsAt(d, ",", j) {
      if StandsAt(d, ",", j) { StandsChar(d, ",", j, 0); }
    }
  }

  /** A renewed directive, at the front, is read as its age. */
  lemma LifetimeInFront(age: int, rest: string)
    requires -0x8000_0000 <= age < 0x8000_0000
    requires rest == "\r" || (rest != "" && rest[0] == ',')
    ensures var s := AgeText(age) + rest; Contains(s, MAX_AGE) && Lifetime(s) == Some(age)
  {
    var d := AgeText(age);
    AgeStands(age, rest);
    AgeTextFacts(age);
    if rest == "\r" {
      CommaNowhere(d + rest);
      assert (d + rest)[0..][8..] == IntText(age) + rest;
      StoiReadsBack(age, rest);
    } else {
      CommaAt(d, rest);
      assert (d + rest)[0..|d|] == d;
      assert IntText(age) + "" == IntText(age);
      StoiReadsBack(age, "");
    }
  }

  lemma JoinRenewed(ds: seq<string>, age: int)
    requires |ds| > 1
    ensures Join(Renewed(ds, age)) == Renew(ds[0], age, "") + ("," + Join(Renewed(ds[1..], age)))
  {
  }

  lemma LifetimeAfterDirective(d: string, w: string)
    requires NoComma(d) && !Contains(d, MAX_AGE) && Contains(w, MAX_AGE)
    ensures Contains(d + ("," + w), MAX_AGE) && Lifetime(d + ("," + w)) == Lifetime(w)
  {
    assert d + ("," + w) == (d + ",") + w;
    FindFacts(d, MAX_AGE, 0);
    forall j | 0 <= j < |d| + 1 ensures !StandsAt((d + ",") + w, MAX_AGE, j) {
      if j <= |d| {
        StandsBefore(d, "," + w, j);
      }
    }
    LifetimeAfter(d + ",", w);
  }

  /** Whatever the other directives, the parser of stored pages reads from the rewritten header
      the lifetime that was left: serving time plus advertised max-age is the expiration. */
  lemma {:induction false} RenewedAdvertises(ds: seq<string>, age: int)
    requires |ds| > 0 && (forall d :: d in ds ==> NoComma(d)) && exists d :: d in ds && Contains(d, MAX_AGE)
    requires -0x8000_0000 <= age < 0x8000_0000
    ensures Advertises(Join(Renewed(ds, age)), age)
    decreases |ds|
  {
    if |ds| == 1 {
      LifetimeInFront(age, "\r");
    } else {
      JoinRenewed(ds, age);
      var w := Join(Renewed(ds[1..], age));
      if Contains(ds[0], MAX_AGE) {
        assert AgeText(age) + "" == AgeText(age);
        LifetimeInFront(age, "," + w);
      } else {
        var d :| d in ds && Contains(d, MAX_AGE);
        assert d in ds[1..];
        RenewedAdvertises(ds[1..], age);
        LifetimeAfterDirective(ds[0], w);
      }
    }
  }

  /** The same for the header line as it is written into the response. */
  lemma ServedLineAdvertises(value: string, age: int)
    requires exists d :: d in Directives(value) && Contains(d, MAX_AGE)
    requires -0x8000_0000 <= age < 0x8000_0000
    ensures Advertises(Rewritten(value, age), age)
  {
    hide Join, Renewed, Directives, Advertises, Contains, HeaderName;
    RenewedAdvertises(Directives(value), age);
    NameHasNoM();
    AdvertisedAfterName(HeaderName(), Join(Renewed(Directives(value), age)), age);
  }

  lemma NameHasNoM()
    ensures 'm' !in HeaderName()
  {
  }

  lemma AdvertisedAfterName(h: string, w: string, age: int)
    requires 'm' !in h && Advertises(w, age)
    ensures Advertises(h + w, age)
  {
    forall j | 0 <= j < |h| ensures !StandsAt(h + w, MAX_AGE, j) {
      assert (h + w)[j] == h[j] && h[j] in h;
      if StandsAt(h + w, MAX_AGE, j) {
        StandsChar(h + w, MAX_AGE, j, 0);
      }
    }
    LifetimeAfter(h, w);
  }

  // ----- The directives of the rewritten header -----

  lemma {:induction false} RenewedAt(ds: seq<string>, age: int, i: nat)
    requires i < |ds|
    ensures Renewed(ds, age)[i] == Renew(ds[i], age, if i == |ds| - 1 then "\r" else "")
    ensures NoComma(ds[i]) ==> NoComma(Renewed(ds, age)[i])
  {
    hide Contains, AgeText;
    if i == 0 {
      AgeTextFacts(age);
    } else {
      RenewedAt(ds[1..], age, i - 1);
    }
  }

  /** Joining and taking apart again. */
  lemma {:induction false} JoinSplits(ds: seq<string>)
    requires |ds| > 0 && forall i :: 0 <= i < |ds| ==> NoComma(ds[i])
    ensures Directives(Join(ds)) == ds
  {
    if |ds| == 1 {
      CommaNowhere(ds[0]);
    } else {
      var w := Join(ds[1..]);
      JoinSplits(ds[1..]);
      CommaAt(ds[0], "," + w);
      assert ds[0] + "," + w == ds[0] + ("," + w);
      assert (ds[0] + ("," + w))[..|ds[0]|] == ds[0] && (ds[0] + ("," + w))[|ds[0]| + 1..] == w;
    }
  }

  lemma NameIs()
    ensures HeaderName() == "Cache-Control: " && |HeaderName()| == 15
  {
  }

  /** The served header holds as many directives as the stored one, in the same order: those without
      max-age as they were, the others replaced by the remaining lifetime. */
  lemma RewrittenReads(value: string, age: int, i: nat)
    requires i < |Directives(value)|
    ensures |Rewritten(value, age)| >= 15 && Rewritten(value, age)[..15] == "Cache-Control: "
    ensures var ds, rs := Directives(value), Directives(Rewritten(value, age)[15..]);
            && |rs| == |ds|
            && (!Contains(ds[i], "max-age") ==> rs[i] == ds[i])
            && (Contains(ds[i], "max-age") ==> rs[i] == "max-age=" + IntText(age) + if i == |ds| - 1 then "\r" else "")
  {
    NameIs();
    var ds := Directives(value);
    var rs := Renewed(ds, age);
    hide Renewed, Join, Directives, Contains, HeaderName;
    forall k | 0 <= k < |rs| ensures NoComma(rs[k]) {
      RenewedAt(ds, age, k);
    }
    JoinSplits(rs);
    assert Rewritten(value, age)[|HeaderName()|..] == Join(rs);
    RenewedAt(ds, age, i);
  }
}
