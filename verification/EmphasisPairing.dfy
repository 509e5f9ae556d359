/** What the pairing pass keeps and what it achieves. */
module EmphasisPairing {
  import opened Emphasis

  // ----- Text -----

  function Repeat(c: char, n: nat): string {
    if n == 0 then "" else Repeat(c, n - 1) + [c]
  }

  /** The source text a node stands for: a disabled marker has been replaced by others. */
  function Shown(n: Node): string {
    match n
    case Text(t) => t
    case Mark(m) => if m.disabled then "" else Repeat(m.ch, m.size)
  }

  function PlainUpTo(list: seq<Node>, n: nat): string
    requires n <= |list|
  {
    if n == 0 then "" else PlainUpTo(list, n - 1) + Shown(list[n - 1])
  }

  function Plain(list: seq<Node>): string {
    PlainUpTo(list, |list|)
  }

  ghost predicate SameText(a: seq<Node>, n: nat, b: seq<Node>, m: nat)
    requires n <= |a| && m <= |b|
  {
    PlainUpTo(a, n) == PlainUpTo(b, m)
  }

  lemma SameTextStep(a: seq<Node>, n: nat, b: seq<Node>, m: nat)
    requires n < |a| && m < |b| && SameText(a, n, b, m) && Shown(a[n]) == Shown(b[m])
    ensures SameText(a, n + 1, b, m + 1)
  {
  }

  /** Node `t` of `a` shows what node `t - d` of `b` shows. */
  predicate ShowAlike(a: seq<Node>, b: seq<Node>, d: int, t: int) {
    0 <= t < |a| && 0 <= t - d < |b| && Shown(a[t]) == Shown(b[t - d])
  }

  /** Stretches that show the same text node by node add the same text. */
  lemma {:induction false} PlainAlike(a: seq<Node>, i: nat, e: nat, b: seq<Node>, j: nat, f: nat, d: int)
    requires i <= e <= |a| && j <= f <= |b| && e - f == i - j == d
    requires SameText(a, i, b, j)
    requires forall t :: i <= t < e ==> ShowAlike(a, b, d, t)
    ensures SameText(a, e, b, f)
    decreases e - i
  {
    if i < e {
      assert ShowAlike(a, b, d, i);
      SameTextStep(a, i, b, j);
      PlainAlike(a, i + 1, e, b, j + 1, f, d);
    }
  }

  lemma {:induction false} RepeatSum(c: char, a: nat, b: nat)
    ensures Repeat(c, a + b) == Repeat(c, a) + Repeat(c, b)
  {
    if b > 0 {
      RepeatSum(c, a, b - 1);
    }
  }

  lemma JoinFour(h: string, d: string, x: string, y: string)
    requires d == ""
    ensures h + d + x + y == h + (x + y)
  {
  }

  lemma CutKeepsMarker(list: seq<Node>, k: nat, n: nat)
    requires k < |list| && list[k].Mark? && !list[k].m.disabled && n <= list[k].m.size
    requires SameText(Cut(list, k, n), k, list, k)
    ensures SameText(Cut(list, k, n), k + 3, list, k + 1)
  {
    var m, cut := list[k].m, Cut(list, k, n);
    CutIndex(list, k, n, k);
    CutIndex(list, k, n, k + 1);
    CutIndex(list, k, n, k + 2);
    RepeatSum(m.ch, m.size - n, n);
    assert PlainUpTo(cut, k + 1) == PlainUpTo(cut, k) + Shown(cut[k]);
    assert PlainUpTo(cut, k + 2) == PlainUpTo(cut, k + 1) + Shown(cut[k + 1]);
    assert PlainUpTo(cut, k + 3) == PlainUpTo(cut, k + 2) + Shown(cut[k + 2]);
    JoinFour(PlainUpTo(cut, k), Shown(cut[k]), Shown(cut[k + 1]), Shown(cut[k + 2]));
  }

  lemma CutKeepsPlain(list: seq<Node>, k: nat, n: nat)
    requires k < |list| && list[k].Mark? && !list[k].m.disabled && n <= list[k].m.size
    ensures SamePlain(Cut(list, k, n), list)
  {
    var cut := Cut(list, k, n);
    forall t | 0 <= t < k ensures ShowAlike(cut, list, 0, t) {
      CutIndex(list, k, n, t);
    }
    PlainAlike(cut, 0, k, list, 0, k, 0);
    CutKeepsMarker(list, k, n);
    forall t | k + 3 <= t < |cut| ensures ShowAlike(cut, list, 2, t) {
      CutIndex(list, k, n, t);
    }
    PlainAlike(cut, k + 3, |cut|, list, k + 1, |list|, 2);
  }

  ghost predicate SamePlain(a: seq<Node>, b: seq<Node>) {
    SameText(a, |a|, b, |b|)
  }

  lemma SamePlainChain(a: seq<Node>, b: seq<Node>, c: seq<Node>)
    requires SamePlain(a, b) && SamePlain(b, c)
    ensures SamePlain(a, c)
  {
  }

  lemma JoinKeepsPlain(list: seq<Node>, i: nat, k: nat, id: int)
    requires i < k < |list| && list[i].Mark? && list[k].Mark?
    ensures SamePlain(Join(list, i, k, id), list)
  {
    var l := Join(list, i, k, id);
    forall t | 0 <= t < |l| ensures ShowAlike(l, list, 0, t) {
    }
    PlainAlike(l, 0, |list|, list, 0, |list|, 0);
  }

  // ----- The matching -----

  /** `o` opens and `c`, further on, closes; same id, character and size. */
  predicate Mates(list: seq<Node>, o: int, c: int) {
    && 0 <= o < c < |list| && Matched(list[o]) && Matched(list[c])
    && list[o].m.id == list[c].m.id && list[o].m.open && !list[c].m.open
    && list[o].m.ch == list[c].m.ch && list[o].m.size == list[c].m.size
  }

  ghost predicate HasMate(list: seq<Node>, i: nat) {
    exists j :: Mates(list, i, j) || Mates(list, j, i)
  }

  /** Ids below `next` are in use, each by one opening marker and a later closing marker of
      the same character and size, neither of them disabled. */
  ghost predicate WellPaired(list: seq<Node>, next: nat) {
    && (forall i :: 0 <= i < |list| && Matched(list[i]) ==> 0 <= list[i].m.id < next && !list[i].m.disabled)
    && (forall i, j :: 0 <= i < j < |list| && Matched(list[i]) && Matched(list[j]) && list[i].m.id == list[j].m.id ==>
          Mates(list, i, j))
    && (forall i {:trigger HasMate(list, i)} :: 0 <= i < |list| && Matched(list[i]) ==> HasMate(list, i))
  }

  /** Where a matched node of the cut list was before the cut, and back. */
  function Before(k: nat, j: int): int { if j < k then j else j - 2 }

  function After(k: nat, j: int): int { if j < k then j else j + 2 }

  lemma CutMatched(list: seq<Node>, k: nat, n: nat, j: int)
    requires k < |list| && list[k].Mark? && !Matched(list[k]) && n <= list[k].m.size
    requires 0 <= j < |Cut(list, k, n)| && Matched(Cut(list, k, n)[j])
    ensures (j < k || j > k + 2) && list[Before(k, j)] == Cut(list, k, n)[j]
  {
  }

  lemma {:induction false} CutKeepsMates(list: seq<Node>, k: nat, n: nat, next: nat, i: nat, j: nat)
    requires WellPaired(list, next)
    requires k < |list| && list[k].Mark? && !Matched(list[k]) && n <= list[k].m.size
    requires var cut := Cut(list, k, n);
             i < j < |cut| && Matched(cut[i]) && Matched(cut[j]) && cut[i].m.id == cut[j].m.id
    ensures Mates(Cut(list, k, n), i, j)
  {
    CutMatched(list, k, n, i);
    CutMatched(list, k, n, j);
    assert Mates(list, Before(k, i), Before(k, j));
  }

  lemma CutKeepsHasMate(list: seq<Node>, k: nat, n: nat, next: nat, i: nat)
    requires WellPaired(list, next)
    requires k < |list| && list[k].Mark? && !Matched(list[k]) && n <= list[k].m.size
    requires i < |Cut(list, k, n)| && Matched(Cut(list, k, n)[i])
    ensures HasMate(Cut(list, k, n), i)
    ensures var m := Cut(list, k, n)[i].m; 0 <= m.id < next && !m.disabled
  {
    CutMatched(list, k, n, i);
    var i' := Before(k, i);
    assert HasMate(list, i');
    var j' :| Mates(list, i', j') || Mates(list, j', i');
    CutMovesMates(list, k, n, i', j');
  }

  lemma CutMovesMates(list: seq<Node>, k: nat, n: nat, i: int, j: int)
    requires k < |list| && list[k].Mark? && !Matched(list[k]) && n <= list[k].m.size
    ensures Mates(list, i, j) ==> Mates(Cut(list, k, n), After(k, i), After(k, j))
    ensures Mates(list, j, i) ==> Mates(Cut(list, k, n), After(k, j), After(k, i))
  {
    if 0 <= i < |list| && 0 <= j < |list| {
      CutIndex(list, k, n, After(k, i));
      CutIndex(list, k, n, After(k, j));
    }
  }

  lemma {:induction false} CutKeepsPairs(list: seq<Node>, k: nat, n: nat, next: nat)
    requires WellPaired(list, next)
    requires k < |list| && list[k].Mark? && !Matched(list[k]) && n <= list[k].m.size
    ensures WellPaired(Cut(list, k, n), next)
  {
    var cut := Cut(list, k, n);
    forall i, j | 0 <= i < j < |cut| && Matched(cut[i]) && Matched(cut[j]) && cut[i].m.id == cut[j].m.id
      ensures Mates(cut, i, j)
    {
      CutKeepsMates(list, k, n, next, i, j);
    }
    forall i | 0 <= i < |cut| && Matched(cut[i])
      ensures HasMate(cut, i) && 0 <= cut[i].m.id < next && !cut[i].m.disabled
    {
      CutKeepsHasMate(list, k, n, next, i);
    }
  }

  lemma {:induction false} JoinKeepsPairs(list: seq<Node>, i: nat, k: nat, id: nat)
    requires WellPaired(list, id) && i < k < |list| && UnmatchedOpen(list[i]) && UnmatchedClose(list[k])
    requires list[i].m.ch == list[k].m.ch && list[i].m.size == list[k].m.size
    ensures WellPaired(Join(list, i, k, id), id + 1)
  {
    var l := Join(list, i, k, id);
    assert Mates(l, i, k);
    forall a | 0 <= a < |l| && Matched(l[a]) ensures HasMate(l, a) {
      if a == i {
      } else if a == k {
      } else {
        assert HasMate(list, a);
        var b :| Mates(list, a, b) || Mates(list, b, a);
        assert Mates(l, a, b) || Mates(l, b, a);
      }
    }
    forall a, b | 0 <= a < b < |l| && Matched(l[a]) && Matched(l[b]) && l[a].m.id == l[b].m.id
      ensures Mates(l, a, b)
    {
      if a != i && b != k && a != k && b != i {
        assert Mates(list, a, b);
      }
    }
  }

  // ----- The matching is as large as a greedy one can be -----

  /** The unmatched opening marker at `a` has nothing left after it that it could take:
      no closing marker of its character and size, nor a size-3 one that could be split. */
  predicate Blocks(a: Node, b: Node) {
    UnmatchedOpen(a) && UnmatchedClose(b) ==>
      b.m.size != 3 && a.m.size != 3 && (b.m.ch != a.m.ch || b.m.size != a.m.size)
  }

  ghost predicate Settled(list: seq<Node>, upto: nat) {
    forall a, b :: 0 <= a < upto && a < b < |list| ==> Blocks(list[a], list[b])
  }

  ghost predicate SettledAt(list: seq<Node>, i: nat, upto: nat) {
    i < |list| && forall b :: i < b < upto && b < |list| ==> Blocks(list[i], list[b])
  }

  lemma CutCloseKeepsSettled(list: seq<Node>, i: nat, k: nat, n: nat)
    requires i < k < |list| && Settled(list, i) && SettledAt(list, i, k)
    requires UnmatchedClose(list[k]) && list[k].m.size == 3 && n <= 3
    ensures Settled(Cut(list, k, n), i) && SettledAt(Cut(list, k, n), i, k + 1)
  {
  }

  lemma CutOpenKeepsSettled(list: seq<Node>, i: nat, n: nat)
    requires i < |list| && Settled(list, i) && UnmatchedOpen(list[i]) && n <= list[i].m.size
    ensures Settled(Cut(list, i, n), i + 1)
  {
  }

  lemma JoinKeepsSettled(list: seq<Node>, i: nat, k: nat, id: nat)
    requires i < k < |list| && Settled(list, i) && list[i].Mark? && list[k].Mark?
    ensures Settled(Join(list, i, k, id), i + 1)
  {
  }

  // ----- When the pass does not diverge -----

  /** No size-3 opening marker comes before a size-3 closing marker of the other character. */
  ghost predicate TriplesAgree(list: seq<Node>) {
    forall a, b :: 0 <= a < b < |list| ==> AgreeAt(list[a], list[b])
  }

  predicate AgreeAt(a: Node, b: Node) {
    UnmatchedOpen(a) && Triple(a) && UnmatchedClose(b) && Triple(b) ==> a.m.ch == b.m.ch
  }

  lemma CutKeepsAgreement(list: seq<Node>, k: nat, n: nat)
    requires TriplesAgree(list) && k < |list| && Triple(list[k]) && 1 <= n < 3
    ensures TriplesAgree(Cut(list, k, n))
  {
    var cut := Cut(list, k, n);
    forall a, b | 0 <= a < b < |cut| ensures AgreeAt(cut[a], cut[b]) {
      CutIndex(list, k, n, a);
      CutIndex(list, k, n, b);
      if (a < k || a > k + 2) && (b < k || b > k + 2) {
        assert AgreeAt(list[Before(k, a)], list[Before(k, b)]);
      }
    }
  }

  lemma JoinKeepsAgreement(list: seq<Node>, i: nat, k: nat, id: nat)
    requires TriplesAgree(list) && i < k < |list| && list[i].Mark? && list[k].Mark?
    ensures TriplesAgree(Join(list, i, k, id))
  {
  }

  lemma ClashDisagrees(list: seq<Node>, i: nat, k: nat)
    requires i < k < |list| && UnmatchedOpen(list[i]) && Judge(list, i, k) == Clash
    ensures !TriplesAgree(list)
  {
  }

  lemma {:induction false} ScanAgrees(list: seq<Node>, i: nat, k: nat)
    requires i < k <= |list| && UnmatchedOpen(list[i]) && Sized(list) && TriplesAgree(list)
    ensures var r := Scan(list, i, k); !r.Clashed? && TriplesAgree(r.list)
    decreases Triples(list), |list| - k
  {
    hide TriplesAgree, Cut, Triples;
    if k < |list| {
      match Judge(list, i, k)
      case Skip => ScanAgrees(list, i, k + 1);
      case CutClose =>
        var n := list[i].m.size;
        CutCloseFacts(list, i, k);
        CutKeepsAgreement(list, k, n);
        ScanAgrees(Cut(list, k, n), i, k + 1);
      case Take =>
      case CutOpen => CutKeepsAgreement(list, i, list[k].m.size);
      case Clash => ClashDisagrees(list, i, k);
    }
  }

  lemma TurnAgrees(list: seq<Node>, i: nat, id: nat)
    requires i < |list| && Sized(list) && TriplesAgree(list)
    ensures var t := TurnAt(list, i, id); t.Next? && TriplesAgree(t.list)
  {
    if UnmatchedOpen(list[i]) {
      ScanAgrees(list, i, i + 1);
      var r := Scan(list, i, i + 1);
      if r.Hit? {
        JoinKeepsAgreement(r.list, i, r.k, id);
      }
    }
  }

  /** Agreement of the size-3 markers in the input is enough for the pass to finish. */
  lemma {:induction false} AgreementSuffices(list: seq<Node>, i: nat, id: nat)
    requires i <= |list| && Sized(list) && TriplesAgree(list)
    ensures PairFrom(list, i, id).Paired?
    decreases Triples(list), |list| - i
  {
    if i < |list| {
      TurnAgrees(list, i, id);
      var t := TurnAt(list, i, id);
      AgreementSuffices(t.list, i + 1, t.id);
    }
  }

  // ----- The invariant of the pass -----

  /** At node `i` the list stands for the text of `src`, is well paired and is settled before `i`. */
  ghost predicate Sound(list: seq<Node>, i: nat, id: nat, src: seq<Node>) {
    SamePlain(list, src) && WellPaired(list, id) && Settled(list, i)
  }

  lemma {:induction false} ScanKeepsPlain(list: seq<Node>, i: nat, k: nat)
    requires i < k <= |list| && UnmatchedOpen(list[i]) && Sized(list)
    ensures var r := Scan(list, i, k); !r.Clashed? ==> SamePlain(r.list, list)
    decreases Triples(list), |list| - k
  {
    hide Cut, Triples;
    if k < |list| {
      match Judge(list, i, k)
      case Skip => ScanKeepsPlain(list, i, k + 1);
      case CutClose =>
        var n := list[i].m.size;
        CutCloseFacts(list, i, k);
        CutKeepsPlain(list, k, n);
        ScanKeepsPlain(Cut(list, k, n), i, k + 1);
        var r := Scan(list, i, k);
        if !r.Clashed? {
          SamePlainChain(r.list, Cut(list, k, n), list);
        }
      case Take =>
      case CutOpen => CutKeepsPlain(list, i, list[k].m.size);
      case Clash =>
    }
  }

  lemma {:induction false} ScanKeepsPairs(list: seq<Node>, i: nat, k: nat, id: nat)
    requires i < k <= |list| && UnmatchedOpen(list[i]) && Sized(list) && WellPaired(list, id)
    ensures var r := Scan(list, i, k); !r.Clashed? ==> WellPaired(r.list, id)
    decreases Triples(list), |list| - k
  {
    hide WellPaired, Cut, Triples;
    if k < |list| {
      match Judge(list, i, k)
      case Skip => ScanKeepsPairs(list, i, k + 1, id);
      case CutClose =>
        var n := list[i].m.size;
        CutCloseFacts(list, i, k);
        CutKeepsPairs(list, k, n, id);
        ScanKeepsPairs(Cut(list, k, n), i, k + 1, id);
      case Take =>
      case CutOpen => CutKeepsPairs(list, i, list[k].m.size, id);
      case Clash =>
    }
  }

  lemma {:induction false} ScanSettles(list: seq<Node>, i: nat, k: nat)
    requires i < k <= |list| && UnmatchedOpen(list[i]) && Sized(list)
    requires Settled(list, i) && SettledAt(list, i, k)
    ensures var r := Scan(list, i, k);
            && (r.Hit? ==> Settled(r.list, i))
            && (r.Miss? || r.OpenSplit? ==> Settled(r.list, i + 1))
    decreases Triples(list), |list| - k
  {
    hide Settled, SettledAt, Cut, Triples;
    if k == |list| {
      MissSettles(list, i);
    } else {
      match Judge(list, i, k)
      case Skip =>
        SkipSettles(list, i, k);
        ScanSettles(list, i, k + 1);
      case CutClose =>
        var n := list[i].m.size;
        CutCloseFacts(list, i, k);
        CutCloseKeepsSettled(list, i, k, n);
        ScanSettles(Cut(list, k, n), i, k + 1);
      case Take =>
      case CutOpen => CutOpenKeepsSettled(list, i, list[k].m.size);
      case Clash =>
    }
  }

  lemma MissSettles(list: seq<Node>, i: nat)
    requires Settled(list, i) && SettledAt(list, i, |list|)
    ensures Settled(list, i + 1)
  {
  }

  lemma SkipSettles(list: seq<Node>, i: nat, k: nat)
    requires i < k < |list| && UnmatchedOpen(list[i]) && SettledAt(list, i, k) && Judge(list, i, k) == Skip
    ensures SettledAt(list, i, k + 1)
  {
  }

  lemma TurnKeepsPlain(list: seq<Node>, i: nat, id: nat)
    requires i < |list| && Sized(list)
    ensures var t := TurnAt(list, i, id); t.Next? ==> SamePlain(t.list, list)
  {
    if UnmatchedOpen(list[i]) {
      ScanKeepsPlain(list, i, i + 1);
      var r := Scan(list, i, i + 1);
      if r.Hit? {
        JoinKeepsPlain(r.list, i, r.k, id);
        SamePlainChain(Join(r.list, i, r.k, id), r.list, list);
      }
    }
  }

  lemma TurnKeepsPairs(list: seq<Node>, i: nat, id: nat)
    requires i < |list| && Sized(list) && WellPaired(list, id)
    ensures var t := TurnAt(list, i, id); t.Next? ==> WellPaired(t.list, t.id)
  {
    if UnmatchedOpen(list[i]) {
      ScanKeepsPairs(list, i, i + 1, id);
      var r := Scan(list, i, i + 1);
      if r.Hit? {
        JoinKeepsPairs(r.list, i, r.k, id);
      }
    }
  }

  lemma TurnSettles(list: seq<Node>, i: nat, id: nat)
    requires i < |list| && Sized(list) && Settled(list, i)
    ensures var t := TurnAt(list, i, id); t.Next? ==> Settled(t.list, i + 1)
  {
    if UnmatchedOpen(list[i]) {
      ScanSettles(list, i, i + 1);
      var r := Scan(list, i, i + 1);
      if r.Hit? {
        JoinKeepsSettled(r.list, i, r.k, id);
      }
    }
  }

  lemma {:induction false} PairIsSound(list: seq<Node>, i: nat, id: nat, src: seq<Node>) returns (next: nat)
    requires i <= |list| && Sized(list) && Sound(list, i, id, src)
    ensures var r := PairFrom(list, i, id); r.Paired? ==> Sound(r.list, |r.list|, next, src)
    decreases Triples(list), |list| - i
  {
    next := id;
    if i < |list| {
      var t := TurnAt(list, i, id);
      if t.Next? {
        TurnKeepsPlain(list, i, id);
        SamePlainChain(t.list, list, src);
        TurnKeepsPairs(list, i, id);
        TurnSettles(list, i, id);
        next := PairIsSound(t.list, i + 1, t.id, src);
      }
    }
  }

  ghost predicate IsWellPaired(list: seq<Node>) {
    exists next: nat :: WellPaired(list, next)
  }

  /** What the pairing pass gives, from a list in which nothing is matched: the same text, a
      matching of opening markers with later closing ones, and no pair left that could match. */
  lemma PairingTheorem(list: seq<Node>)
    requires Sized(list) && forall i :: 0 <= i < |list| ==> !Matched(list[i])
    ensures TriplesAgree(list) ==> Pair(list).Paired?
    ensures Pair(list).Paired? ==>
              var r := Pair(list).list;
              Plain(r) == Plain(list) && IsWellPaired(r) && Settled(r, |r|)
  {
    if TriplesAgree(list) {
      AgreementSuffices(list, 0, 0);
    }
    var next := PairIsSound(list, 0, 0, list);
  }
}
