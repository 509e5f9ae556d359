/** When the pairing loops end: the loops as single steps, without the clash test. */
module EmphasisTermination {
  import opened Emphasis
  import opened EmphasisPairing

  datatype Cfg =
    | AtOuter(list: seq<Node>, i: nat, id: nat)
    | AtInner(list: seq<Node>, i: nat, k: nat, id: nat)
    | Done(list: seq<Node>)

  predicate Small(list: seq<Node>) {
    forall j :: 0 <= j < |list| && list[j].Mark? ==> list[j].m.size <= 3
  }

  predicate Ok(c: Cfg) {
    && Small(c.list)
    && (c.AtOuter? ==> c.i <= |c.list|)
    && (c.AtInner? ==> c.i < c.k <= |c.list| && UnmatchedOpen(c.list[c.i]))
  }

  /** One test or one turn of a loop. The code does not tell a clash from any other cut of
      the opening marker, and then makes a marker of size 0. */
  function Step(c: Cfg): (d: Cfg)
    requires Ok(c)
    ensures Ok(d)
  {
    match c
    case Done(_) => c
    case AtOuter(list, i, id) =>
      if i == |list| then Done(list)
      else if UnmatchedOpen(list[i]) then AtInner(list, i, i + 1, id)
      else AtOuter(list, i + 1, id)
    case AtInner(list, i, k, id) =>
      if k == |list| then AtOuter(list, i + 1, id)
      else
        var v := Judge(list, i, k);
        if v == Skip then AtInner(list, i, k + 1, id)
        else if v == CutClose then
          CutIsSmall(list, k, list[i].m.size);
          CutIndex(list, k, list[i].m.size, i);
          AtInner(Cut(list, k, list[i].m.size), i, k + 1, id)
        else if v == Take then AtOuter(Join(list, i, k, id), i + 1, id + 1)
        else
          CutIsSmall(list, i, list[k].m.size);
          AtOuter(Cut(list, i, list[k].m.size), i + 1, id)
  }

  lemma CutIsSmall(list: seq<Node>, k: nat, n: nat)
    requires Small(list) && k < |list| && list[k].Mark? && n <= list[k].m.size
    ensures Small(Cut(list, k, n))
  {
  }

  function Steps(c: Cfg, n: nat): (d: Cfg)
    requires Ok(c)
    ensures Ok(d)
    decreases n
  {
    if n == 0 then c else Steps(Step(c), n - 1)
  }

  lemma StepsFirst(c: Cfg, n: nat)
    requires Ok(c)
    ensures Steps(c, n + 1) == Steps(Step(c), n)
  {
  }

  lemma {:induction false} StepsAdd(c: Cfg, m: nat, n: nat)
    requires Ok(c)
    ensures Steps(c, m + n) == Steps(Steps(c, m), n)
    decreases m
  {
    if m > 0 {
      StepsAdd(Step(c), m - 1, n);
    }
  }

  lemma {:induction false} DoneStays(c: Cfg, n: nat)
    requires Ok(c) && c.Done?
    ensures Steps(c, n) == c
  {
    if n > 0 {
      DoneStays(c, n - 1);
    }
  }

  // ----- The loop that does not end -----

  /** The next closing marker from `k` on is a size-3 one, at `q`. */
  predicate NextCloseIsTriple(list: seq<Node>, k: nat, q: nat) {
    && k <= q < |list| && UnmatchedClose(list[q]) && list[q].m.size == 3
    && forall j :: k <= j < q ==> !UnmatchedClose(list[j])
  }

  function From(c: Cfg): nat
    requires !c.Done?
  {
    if c.AtOuter? then c.i + 1 else c.k
  }

  /** An opening marker of size 0 is looking for its partner and a size-3 closing marker is
      the next one it meets: it will be cut into sizes 3 and 0, over and over. */
  ghost predicate Doomed(c: Cfg) {
    && Ok(c) && !c.Done? && c.i < |c.list| && UnmatchedOpen(c.list[c.i]) && c.list[c.i].m.size == 0
    && exists q :: NextCloseIsTriple(c.list, From(c), q)
  }

  lemma DoomedStays(c: Cfg)
    requires Doomed(c)
    ensures Doomed(Step(c))
  {
    var q :| NextCloseIsTriple(c.list, From(c), q);
    var d := Step(c);
    if c.AtOuter? {
      assert d == AtInner(c.list, c.i, c.i + 1, c.id);
      assert NextCloseIsTriple(d.list, From(d), q);
    } else if c.k < q {
      assert Judge(c.list, c.i, c.k) == Skip;
      assert NextCloseIsTriple(d.list, From(d), q);
    } else {
      assert Judge(c.list, c.i, c.k) == CutClose;
      CutIndex(c.list, c.k, 0, c.i);
      CutIndex(c.list, c.k, 0, c.k + 1);
      assert NextCloseIsTriple(d.list, From(d), c.k + 1);
    }
  }

  lemma {:induction false} DoomedForever(c: Cfg, n: nat)
    requires Doomed(c)
    ensures !Steps(c, n).Done?
    decreases n
  {
    if n > 0 {
      DoomedStays(c);
      DoomedForever(Step(c), n - 1);
    }
  }

  /** A size-3 opening marker looks at a size-3 closing marker of the other character. */
  predicate MeetsClash(c: Cfg) {
    && c.AtInner? && c.i < c.k < |c.list|
    && UnmatchedOpen(c.list[c.i]) && UnmatchedClose(c.list[c.k])
    && c.list[c.i].m.size == 3 && c.list[c.k].m.size == 3 && c.list[c.i].m.ch != c.list[c.k].m.ch
  }

  /** The loops are there, and will not end. */
  ghost predicate Clashing(c: Cfg) {
    Ok(c) && MeetsClash(c) && Doomed(Step(c))
  }

  lemma ClashDooms(list: seq<Node>, i: nat, k: nat, id: nat)
    requires Sized(list) && i < k < |list| && UnmatchedOpen(list[i]) && Judge(list, i, k) == Clash
    requires forall j :: i < j < k ==> !UnmatchedClose(list[j])
    ensures Clashing(AtInner(list, i, k, id))
  {
    var d := Step(AtInner(list, i, k, id));
    CutIndex(list, i, 3, i + 1);
    CutIndex(list, i, 3, i + 2);
    CutIndex(list, i, 3, k + 2);
    forall j | i + 2 <= j < k + 2 ensures !UnmatchedClose(d.list[j]) {
      CutIndex(list, i, 3, j);
    }
    assert d == AtOuter(Cut(list, i, 3), i + 1, id);
    assert NextCloseIsTriple(d.list, From(d), k + 2);
  }

  // ----- The steps agree with the pairing functions -----

  /** Where the outer loop is after a search. */
  function Resumed(r: Search, i: nat, id: nat): Cfg
    requires !r.Clashed?
    requires r.Hit? ==> i < r.k < |r.list| && r.list[i].Mark? && r.list[r.k].Mark?
  {
    match r
    case Hit(l, k) => AtOuter(Join(l, i, k, id), i + 1, id + 1)
    case OpenSplit(l) => AtOuter(l, i + 1, id)
    case Miss(l) => AtOuter(l, i + 1, id)
  }

  ghost predicate Follows(r: Search, i: nat, id: nat, d: Cfg)
    requires r.Hit? ==> i < r.k < |r.list| && r.list[i].Mark? && r.list[r.k].Mark?
  {
    if r.Clashed? then Clashing(d) else d == Resumed(r, i, id)
  }

  lemma LastScanStep(list: seq<Node>, i: nat, k: nat, id: nat) returns (n: nat)
    requires i < k <= |list| && UnmatchedOpen(list[i]) && Sized(list)
    requires list[i].m.size == 3 ==> forall j :: i < j < k ==> !UnmatchedClose(list[j])
    requires k < |list| ==> Judge(list, i, k) !in {Skip, CutClose}
    ensures Follows(Scan(list, i, k), i, id, Steps(AtInner(list, i, k, id), n))
  {
    n := 1;
    if k < |list| && Judge(list, i, k) == Clash {
      ClashDooms(list, i, k, id);
      n := 0;
    } else {
      StepsFirst(AtInner(list, i, k, id), 0);
    }
  }

  lemma CutCloseStep(list: seq<Node>, i: nat, k: nat, id: nat)
    requires i < k < |list| && UnmatchedOpen(list[i]) && Sized(list) && Judge(list, i, k) == CutClose
    ensures var cut := Cut(list, k, list[i].m.size);
            && Sized(cut) && Triples(cut) < Triples(list) && cut[i] == list[i] && cut[i].m.size != 3
            && Scan(list, i, k) == Scan(cut, i, k + 1)
            && Step(AtInner(list, i, k, id)) == AtInner(cut, i, k + 1, id)
  {
    CutCloseFacts(list, i, k);
  }

  lemma SkipStep(list: seq<Node>, i: nat, k: nat, id: nat)
    requires i < k < |list| && UnmatchedOpen(list[i]) && Sized(list) && Judge(list, i, k) == Skip
    ensures Scan(list, i, k) == Scan(list, i, k + 1)
    ensures Step(AtInner(list, i, k, id)) == AtInner(list, i, k + 1, id)
  {
  }

  lemma {:induction false} ScanInSteps(list: seq<Node>, i: nat, k: nat, id: nat) returns (n: nat)
    requires i < k <= |list| && UnmatchedOpen(list[i]) && Sized(list)
    requires list[i].m.size == 3 ==> forall j :: i < j < k ==> !UnmatchedClose(list[j])
    ensures Follows(Scan(list, i, k), i, id, Steps(AtInner(list, i, k, id), n))
    decreases Triples(list), |list| - k
  {
    hide Step, Scan, Follows, Cut, Triples;
    var c := AtInner(list, i, k, id);
    if k < |list| && Judge(list, i, k) == Skip {
      SkipStep(list, i, k, id);
      var m := ScanInSteps(list, i, k + 1, id);
      StepsFirst(c, m);
      n := m + 1;
    } else if k < |list| && Judge(list, i, k) == CutClose {
      CutCloseStep(list, i, k, id);
      var m := ScanInSteps(Cut(list, k, list[i].m.size), i, k + 1, id);
      StepsFirst(c, m);
      n := m + 1;
    } else {
      n := LastScanStep(list, i, k, id);
    }
  }

  lemma TurnInSteps(list: seq<Node>, i: nat, id: nat) returns (n: nat)
    requires i < |list| && Sized(list)
    ensures var t := TurnAt(list, i, id);
            var d := Steps(AtOuter(list, i, id), n);
            if t.Stuck? then Clashing(d) else d == AtOuter(t.list, i + 1, t.id)
  {
    hide TurnAt, Scan, Follows, Clashing, Step, Steps, Sized;
    var c, m := AtOuter(list, i, id), 0;
    OuterStep(list, i, id);
    if UnmatchedOpen(list[i]) {
      m := ScanInSteps(list, i, i + 1, id);
      TurnFollows(list, i, id, Steps(AtInner(list, i, i + 1, id), m));
    }
    StepsFirst(c, m);
    n := m + 1;
  }

  lemma OuterStep(list: seq<Node>, i: nat, id: nat)
    requires i < |list| && Sized(list)
    ensures Ok(AtOuter(list, i, id))
    ensures UnmatchedOpen(list[i]) ==> Step(AtOuter(list, i, id)) == AtInner(list, i, i + 1, id)
    ensures !UnmatchedOpen(list[i]) ==>
              TurnAt(list, i, id) == Next(list, id) &&
              Steps(Step(AtOuter(list, i, id)), 0) == AtOuter(list, i + 1, id)
  {
  }

  lemma TurnFollows(list: seq<Node>, i: nat, id: nat, d: Cfg)
    requires i < |list| && Sized(list) && UnmatchedOpen(list[i]) && Follows(Scan(list, i, i + 1), i, id, d)
    ensures var t := TurnAt(list, i, id);
            if t.Stuck? then Clashing(d) else d == AtOuter(t.list, i + 1, t.id)
  {
    hide Scan, Join, Clashing;
  }

  lemma {:induction false} PairInSteps(list: seq<Node>, i: nat, id: nat) returns (n: nat)
    requires i <= |list| && Sized(list)
    ensures var r := PairFrom(list, i, id);
            var d := Steps(AtOuter(list, i, id), n);
            if r.Paired? then d == Done(r.list) else Clashing(d)
    decreases Triples(list), |list| - i
  {
    hide TurnAt, Clashing;
    var c := AtOuter(list, i, id);
    if i == |list| {
      StepsFirst(c, 0);
      n := 1;
    } else {
      hide Step, Steps;
      var t := TurnAt(list, i, id);
      n := TurnInSteps(list, i, id);
      if t.Next? {
        var m := PairInSteps(t.list, i + 1, t.id);
        StepsAdd(c, n, m);
        n := n + m;
      }
    }
  }

  // ----- The guard -----

  /** What holds of every configuration before the first clash. */
  ghost predicate Fit(c: Cfg) {
    && Ok(c) && Sized(c.list)
    && (c.AtInner? && c.list[c.i].m.size == 3 ==> forall j :: c.i < j < c.k ==> !UnmatchedClose(c.list[j]))
  }

  lemma StepKeepsFit(c: Cfg)
    requires Fit(c) && !MeetsClash(c)
    ensures Fit(Step(c))
  {
    hide Triples;
    if c.AtInner? && c.k < |c.list| {
      match Judge(c.list, c.i, c.k)
      case CutClose => CutCloseFacts(c.list, c.i, c.k);
      case CutOpen => CutFacts(c.list, c.i, c.list[c.k].m.size);
      case _ =>
    }
  }

  lemma FitClashes(c: Cfg)
    requires Fit(c) && MeetsClash(c)
    ensures Clashing(c)
  {
    assert Judge(c.list, c.i, c.k) == Clash;
    ClashDooms(c.list, c.i, c.k, c.id);
  }

  lemma ClashingForever(c: Cfg, m: nat)
    requires Clashing(c)
    ensures !Steps(c, m).Done?
  {
    if m > 0 {
      DoomedForever(Step(c), m - 1);
    }
  }

  /** A clash met after some number of steps, and the loops end after no number of them. */
  lemma {:induction false} ClashNeverEnds(c: Cfg, n: nat, m: nat)
    requires Ok(c) && Fit(c) && MeetsClash(Steps(c, n))
    ensures !Steps(c, m).Done?
    decreases n
  {
    hide Step, Fit, Clashing, MeetsClash;
    if MeetsClash(c) {
      FitClashes(c);
      ClashingForever(c, m);
    } else {
      StepKeepsFit(c);
      if m == 0 {
        NotAtEnd(c, n);
      } else {
        ClashNeverEnds(Step(c), n - 1, m - 1);
      }
    }
  }

  lemma NotAtEnd(c: Cfg, n: nat)
    requires Ok(c) && MeetsClash(Steps(c, n))
    ensures !c.Done?
  {
    if c.Done? {
      DoneStays(c, n);
    }
  }

  /** The loops end if and only if no step of theirs brings a size-3 opening marker to a size-3
      closing marker of the other character; and then they compute `Pair`. */
  lemma LoopsEndIff(list: seq<Node>)
    requires Sized(list)
    ensures (exists n :: Steps(AtOuter(list, 0, 0), n).Done?) <==>
            forall n :: !MeetsClash(Steps(AtOuter(list, 0, 0), n))
    ensures (exists n :: Steps(AtOuter(list, 0, 0), n).Done?) <==> Pair(list).Paired?
    ensures forall n :: Steps(AtOuter(list, 0, 0), n).Done? ==> Pair(list) == Paired(Steps(AtOuter(list, 0, 0), n).list)
  {
    hide Step, Steps, Pair, MeetsClash, Doomed;
    var c := AtOuter(list, 0, 0);
    var n := SearchEnds(list);
    if Pair(list).Paired? {
      assert Steps(c, n).Done?;
      forall m ensures !MeetsClash(Steps(c, m)) {
        if MeetsClash(Steps(c, m)) {
          ClashNeverEnds(c, m, n);
        }
      }
    }
    forall m | Steps(c, m).Done? ensures Pair(list) == Paired(Steps(c, m).list) {
      EndsAlike(c, m, n);
    }
  }

  lemma SearchEnds(list: seq<Node>) returns (n: nat)
    requires Sized(list)
    ensures var d := Steps(AtOuter(list, 0, 0), n);
            if Pair(list).Paired? then d == Done(Pair(list).list) else Clashing(d)
  {
    n := PairInSteps(list, 0, 0);
  }

  lemma EndsAlike(c: Cfg, m: nat, n: nat)
    requires Ok(c) && Steps(c, m).Done?
    ensures Steps(c, n).Done? ==> Steps(c, n) == Steps(c, m)
    ensures !Clashing(Steps(c, n))
  {
    hide Step, Clashing;
    StepsAdd(c, m, n);
    StepsAdd(c, n, m);
    DoneStays(Steps(c, m), n);
    assert m + n == n + m;
    if Steps(c, n).Done? {
      DoneStays(Steps(c, n), m);
    }
    if Clashing(Steps(c, n)) {
      ClashingForever(Steps(c, n), m);
    }
  }

  /** An input that does not end: `***a___`. */
  lemma MixedTriplesNeverEnd(n: nat)
    ensures !Steps(AtOuter([Fresh(true, '*', 3), Text("a"), Fresh(false, '_', 3)], 0, 0), n).Done?
  {
    var list := [Fresh(true, '*', 3), Text("a"), Fresh(false, '_', 3)];
    assert Sized(list);
    assert Judge(list, 0, 1) == Skip && Judge(list, 0, 2) == Clash;
    assert Scan(list, 0, 1) == Scan(list, 0, 2) == Clashed;
    assert TurnAt(list, 0, 0) == Stuck;
    LoopsEndIff(list);
  }
}
