/** What the emphasis pass writes for two runs of markers, worked out. */
module EmphasisWritten {
  import opened TextTools
  import opened Emphasis
  import opened EmphasisPairing
  import opened EmphasisNesting
  import opened EmphasisMarkers
  import opened EmphasisSpans

  /** The text of all tags of a list. */
  function Html(list: seq<Node>): string {
    Written(TagsUpTo(list, |list|))
  }

  // ----- The text of a list -----

  lemma {:induction false} WrittenConcat(a: seq<Piece>, b: seq<Piece>)
    ensures Written(a + b) == Written(a) + Written(b)
    decreases |b|
  {
    hide WrittenPiece;
    if b == [] {
      assert a + b == a && Written(a) + "" == Written(a);
    } else {
      assert (a + b)[..|a + b| - 1] == a + b[..|b| - 1];
      WrittenConcat(a, b[..|b| - 1]);
      Regroup(Written(a), Written(b[..|b| - 1]), WrittenPiece(b[|b| - 1]));
    }
  }

  lemma {:induction false} TagsConcat(a: seq<Node>, b: seq<Node>, n: nat)
    requires n <= |b|
    ensures TagsUpTo(a + b, |a| + n) == TagsUpTo(a, |a|) + TagsUpTo(b, n)
  {
    hide Tags;
    if n == 0 {
      TagsPrefix(a, b, |a|);
      assert TagsUpTo(a, |a|) + [] == TagsUpTo(a, |a|);
    } else {
      TagsConcat(a, b, n - 1);
      assert (a + b)[|a| + n - 1] == b[n - 1];
      JoinPieces(TagsUpTo(a, |a|), TagsUpTo(b, n - 1), Tags(b[n - 1]));
    }
  }

  lemma JoinPieces(a: seq<Piece>, b: seq<Piece>, c: seq<Piece>)
    ensures a + (b + c) == (a + b) + c
  {
  }

  lemma {:induction false} TagsPrefix(a: seq<Node>, b: seq<Node>, n: nat)
    requires n <= |a|
    ensures TagsUpTo(a + b, n) == TagsUpTo(a, n)
  {
    hide Tags;
    if n > 0 {
      TagsPrefix(a, b, n - 1);
    }
  }

  lemma HtmlConcat(a: seq<Node>, b: seq<Node>)
    ensures Html(a + b) == Html(a) + Html(b)
  {
    hide Written, TagsUpTo;
    TagsConcat(a, b, |b|);
    WrittenConcat(TagsUpTo(a, |a|), TagsUpTo(b, |b|));
  }

  lemma HtmlOne(n: Node)
    ensures Html([n]) == Written(Tags(n))
  {
    hide Tags, Written;
    assert TagsUpTo([n], 1) == [] + Tags(n) == Tags(n);
  }

  lemma HtmlOfText(t: string)
    ensures Html(TextNode(t)) == t && Html([Text(t)]) == t
  {
    HtmlOne(Text(t));
  }

  /** The tags, spelled out. */
  function OpenTag(n: nat): string {
    if n == 1 then "<em>" else if n == 2 then "<strong>" else "<strong><em>"
  }

  function CloseTag(n: nat): string {
    if n == 1 then "</em>" else if n == 2 then "</strong>" else "</em></strong>"
  }

  lemma HtmlOfMarker(m: Marker)
    requires 1 <= m.size <= 3
    ensures Html([Mark(m)]) ==
            if m.disabled then "" else if m.id == -1 then Repeat(m.ch, m.size)
            else if m.open then OpenTag(m.size) else CloseTag(m.size)
  {
    HtmlOne(Mark(m));
    MarkerWrites(m);
  }

  /** Five stretches, the second and fourth of them markers. */
  lemma HtmlOfFive(a: seq<Node>, x: seq<Node>, b: seq<Node>, y: seq<Node>, c: seq<Node>)
    ensures Html(a + x + b + y + c) == Html(a) + Html(x) + Html(b) + Html(y) + Html(c)
  {
    HtmlConcat(a, x);
    HtmlConcat(a + x, b);
    HtmlConcat(a + x + b, y);
    HtmlConcat(a + x + b + y, c);
  }

  // ----- The search, and the turns of the outer loop -----

  predicate Skips(list: seq<Node>, i: nat, t: int)
    requires i < |list| && UnmatchedOpen(list[i])
  {
    i < t < |list| && Judge(list, i, t) == Skip
  }

  lemma {:induction false} ScanSkips(list: seq<Node>, i: nat, k: nat, q: nat)
    requires i < k <= q <= |list| && UnmatchedOpen(list[i]) && Sized(list)
    requires forall t :: k <= t < q ==> Skips(list, i, t)
    ensures Scan(list, i, k) == Scan(list, i, q)
    decreases q - k
  {
    hide Sized, Triples, Cut;
    if k < q {
      assert Skips(list, i, k);
      ScanSkips(list, i, k + 1, q);
    }
  }

  lemma {:induction false} TurnsSkip(list: seq<Node>, i: nat, j: nat, id: nat)
    requires i <= j <= |list| && Sized(list)
    requires forall t :: i <= t < j ==> !UnmatchedOpen(list[t])
    ensures PairFrom(list, i, id) == PairFrom(list, j, id)
    decreases j - i
  {
    hide Scan, Sized, Triples;
    if i < j {
      TurnsSkip(list, i + 1, j, id);
    }
  }

  /** The opening marker `i` and the closing marker `k`, with nothing but other nodes around them. */
  predicate Two(list: seq<Node>, i: nat, k: nat) {
    && i < k < |list| && Sized(list) && UnmatchedOpen(list[i]) && UnmatchedClose(list[k])
    && forall t :: 0 <= t < |list| && t != i && t != k ==> list[t].Text?
  }

  /** What the outer loop does after the search from `i`. */
  lemma AfterScan(list: seq<Node>, i: nat, id: nat)
    requires i < |list| && Sized(list) && UnmatchedOpen(list[i])
    ensures var r := Scan(list, i, i + 1);
            && (r.Hit? ==> PairFrom(list, i, id) == PairFrom(Join(r.list, i, r.k, id), i + 1, id + 1))
            && (r.Miss? ==> PairFrom(list, i, id) == PairFrom(r.list, i + 1, id))
            && (r.Clashed? ==> PairFrom(list, i, id) == Diverges)
  {
    hide Scan, Join, Sized;
  }

  lemma JoinEnds(list: seq<Node>, i: nat, k: nat, id: nat)
    requires i < k < |list| && Sized(list) && list[i].Mark? && list[k].Mark?
    requires forall t :: i < t < |list| ==> !UnmatchedOpen(list[t])
    ensures Sized(Join(list, i, k, id))
    ensures PairFrom(Join(list, i, k, id), i + 1, id + 1) == Paired(Join(list, i, k, id))
  {
    var l := Join(list, i, k, id);
    TurnsSkip(l, i + 1, |l|, id + 1);
  }

  lemma ScanTakes(list: seq<Node>, i: nat, k: nat)
    requires i < k < |list| && Sized(list) && UnmatchedOpen(list[i]) && Judge(list, i, k) == Take
    ensures Scan(list, i, k) == Hit(list, k)
  {
  }

  lemma Taken(list: seq<Node>, i: nat, k: nat, id: nat)
    requires i < k < |list| && Sized(list) && UnmatchedOpen(list[i]) && Judge(list, i, k) == Take
    requires forall t :: i < t < k ==> Skips(list, i, t)
    requires forall t :: i < t < |list| ==> !UnmatchedOpen(list[t])
    ensures PairFrom(list, i, id) == Paired(Join(list, i, k, id))
  {
    hide Scan, Join, Sized, PairFrom, Skips;
    ScanSkips(list, i, i + 1, k);
    ScanTakes(list, i, k);
    AfterScan(list, i, id);
    JoinEnds(list, i, k, id);
  }

  lemma Missed(list: seq<Node>, i: nat, id: nat)
    requires i < |list| && Sized(list) && UnmatchedOpen(list[i])
    requires forall t :: i < t < |list| ==> Skips(list, i, t)
    ensures PairFrom(list, i, id) == PairFrom(list, i + 1, id)
  {
    ScanSkips(list, i, i + 1, |list|);
    assert TurnAt(list, i, id) == Next(list, id);
  }

  lemma PairEqual(list: seq<Node>, i: nat, k: nat)
    requires Two(list, i, k) && list[i].m.ch == list[k].m.ch && list[i].m.size == list[k].m.size
    ensures Pair(list) == Paired(Join(list, i, k, 0))
  {
    TurnsSkip(list, 0, i, 0);
    Taken(list, i, k, 0);
  }

  lemma PairUnequal(list: seq<Node>, i: nat, k: nat)
    requires Two(list, i, k) && list[i].m.size != 3 && list[k].m.size != 3
    requires list[i].m.ch != list[k].m.ch || list[i].m.size != list[k].m.size
    ensures Pair(list) == Paired(list)
  {
    TurnsSkip(list, 0, i, 0);
    Missed(list, i, 0);
    TurnsSkip(list, i + 1, |list|, 0);
  }

  lemma TwoSkips(list: seq<Node>, i: nat, k: nat)
    requires Two(list, i, k)
    ensures Sized(list) && i < k < |list| && UnmatchedOpen(list[i]) && UnmatchedClose(list[k])
    ensures forall t :: i < t < k ==> Skips(list, i, t)
    ensures Pair(list) == PairFrom(list, i, 0)
  {
    TurnsSkip(list, 0, i, 0);
  }

  lemma ScanClashes(list: seq<Node>, i: nat, k: nat)
    requires i < k < |list| && Sized(list) && UnmatchedOpen(list[i]) && Judge(list, i, k) == Clash
    ensures Scan(list, i, k) == Clashed
  {
  }

  lemma PairClash(list: seq<Node>, i: nat, k: nat)
    requires Two(list, i, k) && list[i].m.size == 3 && list[k].m.size == 3 && list[i].m.ch != list[k].m.ch
    ensures Pair(list) == Diverges
  {
    hide Two, Sized, Scan, PairFrom, Pair, Skips;
    TwoSkips(list, i, k);
    ScanSkips(list, i, i + 1, k);
    ScanClashes(list, i, k);
    AfterScan(list, i, 0);
  }

  /** The list after the opening marker was cut. */
  lemma OpenCut(list: seq<Node>, i: nat, k: nat)
    requires Two(list, i, k) && list[i].m.size == 3 && list[k].m.size < 3
    ensures var o, cut := list[i].m, Cut(list, i, list[k].m.size);
            && Sized(cut) && |cut| == |list| + 2 && cut[k + 2] == list[k]
            && cut[i + 1] == Fresh(true, o.ch, 3 - list[k].m.size) && cut[i + 2] == Fresh(true, o.ch, list[k].m.size)
            && forall t :: i + 2 < t < |cut| && t != k + 2 ==> cut[t].Text?
  {
    CutFacts(list, i, list[k].m.size);
    CutIndex(list, i, list[k].m.size, k + 2);
  }

  lemma OpenCutTurn(list: seq<Node>, i: nat, k: nat)
    requires Two(list, i, k) && list[i].m.size == 3 && list[k].m.size < 3
    ensures Sized(Cut(list, i, list[k].m.size))
    ensures Pair(list) == PairFrom(Cut(list, i, list[k].m.size), i + 1, 0)
  {
    CutFacts(list, i, list[k].m.size);
    TurnsSkip(list, 0, i, 0);
    ScanSkips(list, i, i + 1, k);
    hide Cut, Sized;
    assert TurnAt(list, i, 0) == Next(Cut(list, i, list[k].m.size), 0);
  }

  lemma PairOpenCut(list: seq<Node>, i: nat, k: nat)
    requires Two(list, i, k) && list[i].m.size == 3 && list[k].m.size < 3
    ensures var cut := Cut(list, i, list[k].m.size);
            && cut[i + 2].Mark? && cut[k + 2].Mark? && i + 2 < k + 2 < |cut|
            && Pair(list) == Paired(if list[i].m.ch == list[k].m.ch then Join(cut, i + 2, k + 2, 0) else cut)
  {
    hide Cut, Sized, PairFrom, Pair;
    var cut := Cut(list, i, list[k].m.size);
    OpenCutTurn(list, i, k);
    OpenCut(list, i, k);
    Missed(cut, i + 1, 0);
    if list[i].m.ch == list[k].m.ch {
      Taken(cut, i + 2, k + 2, 0);
    } else {
      Missed(cut, i + 2, 0);
      TurnsSkip(cut, i + 3, |cut|, 0);
      PairDone(cut, 0);
    }
  }

  lemma PairDone(list: seq<Node>, id: nat)
    requires Sized(list)
    ensures PairFrom(list, |list|, id) == Paired(list)
  {
  }

  /** The list after the closing marker was cut. */
  lemma CloseCut(list: seq<Node>, i: nat, k: nat)
    requires Two(list, i, k) && list[i].m.size < 3 && list[k].m.size == 3
    ensures var c, cut := list[k].m, Cut(list, k, list[i].m.size);
            && Sized(cut) && |cut| == |list| + 2 && cut[i] == list[i]
            && cut[k] == Disable(list[k])
            && cut[k + 1] == Fresh(false, c.ch, 3 - list[i].m.size) && cut[k + 2] == Fresh(false, c.ch, list[i].m.size)
            && forall t :: 0 <= t < |cut| && t != i && !(k <= t <= k + 2) ==> cut[t].Text?
  {
    CutFacts(list, k, list[i].m.size);
  }

  lemma CloseCutSkips(list: seq<Node>, i: nat, k: nat)
    requires Two(list, i, k) && list[i].m.size < 3 && list[k].m.size == 3
    ensures Sized(list) && UnmatchedOpen(list[i]) && Judge(list, i, k) == CutClose
    ensures forall t :: i < t < k ==> Skips(list, i, t)
    ensures var cut := Cut(list, k, list[i].m.size);
            Sized(cut) && i < k + 2 < |cut| && UnmatchedOpen(cut[i]) && Skips(cut, i, k + 1)
  {
    CloseCut(list, i, k);
    hide Cut, Sized;
  }

  lemma CloseCutScan(list: seq<Node>, i: nat, k: nat)
    requires Two(list, i, k) && list[i].m.size < 3 && list[k].m.size == 3
    ensures var cut := Cut(list, k, list[i].m.size);
            && Sized(cut) && i < k + 2 < |cut| && UnmatchedOpen(cut[i])
            && Scan(list, i, i + 1) == Scan(cut, i, k + 2)
  {
    CloseCutSkips(list, i, k);
    hide Cut, Sized, Scan, Skips, UnmatchedOpen, Judge;
    ScanSkips(list, i, i + 1, k);
    CutCloseFacts(list, i, k);
    ScanSkips(Cut(list, k, list[i].m.size), i, k + 1, k + 2);
  }

  /** An opening marker at a closing one of its size, with only texts after that. */
  predicate LastClose(list: seq<Node>, i: nat, q: nat) {
    && i < q < |list| && Sized(list) && UnmatchedOpen(list[i]) && UnmatchedClose(list[q])
    && list[i].m.size == list[q].m.size < 3
    && (forall t :: i < t < |list| ==> !UnmatchedOpen(list[t])) && (forall t :: q < t < |list| ==> list[t].Text?)
  }

  lemma LastCloseScan(list: seq<Node>, i: nat, q: nat)
    requires LastClose(list, i, q)
    ensures Scan(list, i, q) == if list[i].m.ch == list[q].m.ch then Hit(list, q) else Miss(list)
  {
    if list[i].m.ch != list[q].m.ch {
      ScanSkips(list, i, q, |list|);
    }
  }

  lemma LastCloseTurns(list: seq<Node>, i: nat, q: nat)
    requires LastClose(list, i, q)
    ensures PairFrom(list, i + 1, 0) == Paired(list)
    ensures PairFrom(Join(list, i, q, 0), i + 1, 1) == Paired(Join(list, i, q, 0))
  {
    JoinEnds(list, i, q, 0);
    TurnsSkip(list, i + 1, |list|, 0);
  }

  lemma PairCloseCut(list: seq<Node>, i: nat, k: nat)
    requires Two(list, i, k) && list[i].m.size < 3 && list[k].m.size == 3
    ensures var cut := Cut(list, k, list[i].m.size);
            && cut[i].Mark? && cut[k + 2].Mark? && i < k + 2 < |cut|
            && Pair(list) == Paired(if list[i].m.ch == list[k].m.ch then Join(cut, i, k + 2, 0) else cut)
  {
    hide *;
    TwoSkips(list, i, k);
    var cut := Cut(list, k, list[i].m.size);
    CloseCutLast(list, i, k);
    CloseCutScan(list, i, k);
    LastCloseScan(cut, i, k + 2);
    LastCloseTurns(cut, i, k + 2);
    AfterScan(list, i, 0);
  }

  lemma CloseCutLast(list: seq<Node>, i: nat, k: nat)
    requires Two(list, i, k) && list[i].m.size < 3 && list[k].m.size == 3
    ensures var cut := Cut(list, k, list[i].m.size);
            && i < k + 2 < |cut| && cut[i] == list[i] && cut[i].Mark? && cut[k + 2].Mark?
            && cut[k + 2].m.ch == list[k].m.ch && LastClose(cut, i, k + 2)
  {
    CloseCut(list, i, k);
    hide Cut, Sized;
  }

  // ----- Two runs -----

  function Five(a: seq<Node>, x: seq<Node>, b: seq<Node>, y: seq<Node>, c: seq<Node>): seq<Node> {
    a + x + b + y + c
  }

  function WithId(n: Node): Node
    requires n.Mark?
  {
    Mark(n.m.(id := 0))
  }

  predicate Texts(a: seq<Node>) {
    forall t :: 0 <= t < |a| ==> a[t].Text?
  }

  /** An opening and a closing run with texts around them. */
  predicate TwoRuns(a: seq<Node>, x: Node, b: seq<Node>, y: Node, c: seq<Node>) {
    && Texts(a) && Texts(b) && Texts(c) && UnmatchedOpen(x) && UnmatchedClose(y)
    && 1 <= x.m.size <= 3 && 1 <= y.m.size <= 3
  }

  lemma FiveIsTwo(a: seq<Node>, x: Node, b: seq<Node>, y: Node, c: seq<Node>)
    requires TwoRuns(a, x, b, y, c)
    ensures x.Mark? && x.m.open && 1 <= x.m.size <= 3 && y.Mark? && !y.m.open && 1 <= y.m.size <= 3
    ensures var list, i, k := Five(a, [x], b, [y], c), |a|, |a| + 1 + |b|;
            Two(list, i, k) && Sized(list) && list[i] == x && list[k] == y
  {
  }

  lemma JoinFive(a: seq<Node>, x: Node, b: seq<Node>, y: Node, c: seq<Node>)
    requires x.Mark? && y.Mark?
    ensures var list := Five(a, [x], b, [y], c);
            && |a| + 1 + |b| < |list| && list[|a|] == x && list[|a| + 1 + |b|] == y
            && Join(list, |a|, |a| + 1 + |b|, 0) == Five(a, [WithId(x)], b, [WithId(y)], c)
  {
  }

  lemma CutFirst(a: seq<Node>, x: Node, b: seq<Node>, y: Node, c: seq<Node>, n: nat)
    requires x.Mark? && n <= x.m.size
    ensures var list, o := Five(a, [x], b, [y], c), x.m;
            && |a| < |list| && list[|a|] == x
            && Cut(list, |a|, n) ==
               Five(a + [Disable(x), Fresh(o.open, o.ch, o.size - n)], [Fresh(o.open, o.ch, n)], b, [y], c)
  {
    var list := Five(a, [x], b, [y], c);
    assert list[..|a|] == a && list[|a| + 1..] == b + [y] + c;
  }

  lemma CutSecond(a: seq<Node>, x: Node, b: seq<Node>, y: Node, c: seq<Node>, n: nat)
    requires y.Mark? && n <= y.m.size
    ensures var list, o, k := Five(a, [x], b, [y], c), y.m, |a| + 1 + |b|;
            && k < |list| && list[k] == y
            && Cut(list, k, n) ==
               Five(a, [x], b + [Disable(y), Fresh(o.open, o.ch, o.size - n)], [Fresh(o.open, o.ch, n)], c)
  {
    var list, k := Five(a, [x], b, [y], c), |a| + 1 + |b|;
    assert list[..k] == a + [x] + b && list[k + 1..] == c;
  }

  /** The node with the id of the only pair, if there is one. */
  function MaybeId(n: Node, paired: bool): Node
    requires n.Mark?
  {
    if paired then WithId(n) else n
  }

  lemma PairFiveEqual(a: seq<Node>, x: Node, b: seq<Node>, y: Node, c: seq<Node>)
    requires TwoRuns(a, x, b, y, c) && x.m.ch == y.m.ch && x.m.size == y.m.size
    ensures Sized(Five(a, [x], b, [y], c))
    ensures Pair(Five(a, [x], b, [y], c)) == Paired(Five(a, [WithId(x)], b, [WithId(y)], c))
  {
    FiveIsTwo(a, x, b, y, c);
    JoinFive(a, x, b, y, c);
    hide Five, Join, Pair, Texts;
    PairEqual(Five(a, [x], b, [y], c), |a|, |a| + 1 + |b|);
  }

  lemma PairFiveUnequal(a: seq<Node>, x: Node, b: seq<Node>, y: Node, c: seq<Node>)
    requires TwoRuns(a, x, b, y, c) && x.m.size != 3 && y.m.size != 3
    requires x.m.ch != y.m.ch || x.m.size != y.m.size
    ensures Sized(Five(a, [x], b, [y], c))
    ensures Pair(Five(a, [x], b, [y], c)) == Paired(Five(a, [x], b, [y], c))
  {
    FiveIsTwo(a, x, b, y, c);
    hide Five, Pair, Texts;
    PairUnequal(Five(a, [x], b, [y], c), |a|, |a| + 1 + |b|);
  }

  lemma PairFiveClash(a: seq<Node>, x: Node, b: seq<Node>, y: Node, c: seq<Node>)
    requires TwoRuns(a, x, b, y, c) && x.m.size == 3 && y.m.size == 3 && x.m.ch != y.m.ch
    ensures Sized(Five(a, [x], b, [y], c)) && Pair(Five(a, [x], b, [y], c)) == Diverges
  {
    FiveIsTwo(a, x, b, y, c);
    hide Five, Pair, Texts;
    PairClash(Five(a, [x], b, [y], c), |a|, |a| + 1 + |b|);
  }

  function CutHead(a: seq<Node>, x: Node, n: nat): seq<Node>
    requires x.Mark? && n <= x.m.size
  {
    a + [Disable(x), Fresh(x.m.open, x.m.ch, x.m.size - n)]
  }

  lemma OpenCutJoin(a: seq<Node>, x: Node, b: seq<Node>, y: Node, c: seq<Node>, n: nat)
    requires x.Mark? && n <= x.m.size && y.Mark?
    ensures var list, i, k := Five(a, [x], b, [y], c), |a|, |a| + 1 + |b|;
            var last := Fresh(x.m.open, x.m.ch, n);
            && k < |list| && list[i] == x && list[k] == y
            && Cut(list, i, n) == Five(CutHead(a, x, n), [last], b, [y], c)
            && Cut(list, i, n)[i + 2].Mark? && Cut(list, i, n)[k + 2].Mark?
            && Join(Cut(list, i, n), i + 2, k + 2, 0) == Five(CutHead(a, x, n), [WithId(last)], b, [WithId(y)], c)
  {
    CutFirst(a, x, b, y, c, n);
    FiveAt(a, x, b, y, c);
    JoinFive(CutHead(a, x, n), Fresh(x.m.open, x.m.ch, n), b, y, c);
    assert |CutHead(a, x, n)| == |a| + 2;
    hide Five, Join, Cut, CutHead;
  }

  lemma CloseCutJoin(a: seq<Node>, x: Node, b: seq<Node>, y: Node, c: seq<Node>, n: nat)
    requires x.Mark? && y.Mark? && n <= y.m.size
    ensures var list, i, k := Five(a, [x], b, [y], c), |a|, |a| + 1 + |b|;
            var last := Fresh(y.m.open, y.m.ch, n);
            && k < |list| && list[i] == x && list[k] == y
            && Cut(list, k, n) == Five(a, [x], CutHead(b, y, n), [last], c)
            && Cut(list, k, n)[i].Mark? && Cut(list, k, n)[k + 2].Mark?
            && Join(Cut(list, k, n), i, k + 2, 0) == Five(a, [WithId(x)], CutHead(b, y, n), [WithId(last)], c)
  {
    CutSecond(a, x, b, y, c, n);
    FiveAt(a, x, b, y, c);
    JoinFive(a, x, CutHead(b, y, n), Fresh(y.m.open, y.m.ch, n), c);
    assert |CutHead(b, y, n)| == |b| + 2;
    hide Five, Join, Cut, CutHead;
  }

  lemma FiveAt(a: seq<Node>, x: Node, b: seq<Node>, y: Node, c: seq<Node>)
    ensures var list := Five(a, [x], b, [y], c);
            |a| + 1 + |b| < |list| && list[|a|] == x && list[|a| + 1 + |b|] == y
  {
  }

  lemma PairFiveOpen(a: seq<Node>, x: Node, b: seq<Node>, y: Node, c: seq<Node>)
    requires TwoRuns(a, x, b, y, c) && x.m.size == 3 && y.m.size < 3
    ensures Sized(Five(a, [x], b, [y], c))
    ensures var same, last := x.m.ch == y.m.ch, Fresh(true, x.m.ch, y.m.size);
            Pair(Five(a, [x], b, [y], c)) ==
            Paired(if same then Five(CutHead(a, x, y.m.size), [WithId(last)], b, [WithId(y)], c)
                   else Five(CutHead(a, x, y.m.size), [last], b, [y], c))
  {
    hide *;
    FiveIsTwo(a, x, b, y, c);
    OpenCutJoin(a, x, b, y, c, y.m.size);
    PairOpenCut(Five(a, [x], b, [y], c), |a|, |a| + 1 + |b|);
  }

  lemma PairFiveClose(a: seq<Node>, x: Node, b: seq<Node>, y: Node, c: seq<Node>)
    requires TwoRuns(a, x, b, y, c) && x.m.size < 3 && y.m.size == 3
    ensures Sized(Five(a, [x], b, [y], c))
    ensures var same, last := x.m.ch == y.m.ch, Fresh(false, y.m.ch, x.m.size);
            Pair(Five(a, [x], b, [y], c)) ==
            Paired(if same then Five(a, [WithId(x)], CutHead(b, y, x.m.size), [WithId(last)], c)
                   else Five(a, [x], CutHead(b, y, x.m.size), [last], c))
  {
    hide *;
    FiveIsTwo(a, x, b, y, c);
    CloseCutJoin(a, x, b, y, c, x.m.size);
    PairCloseCut(Five(a, [x], b, [y], c), |a|, |a| + 1 + |b|);
  }

  // ----- No pair is crossed -----

  /** The pass has nothing to un-match where at most one pair was made. */
  lemma OnePairStays(list: seq<Node>)
    requires Sized(list) && (forall i :: 0 <= i < |list| ==> !Matched(list[i])) && Pair(list).Paired?
    requires forall i :: 0 <= i < |Pair(list).list| && Matched(Pair(list).list[i]) ==> Pair(list).list[i].m.id == 0
    ensures Uncross(Pair(list).list) == Pair(list).list
  {
    var r := Pair(list).list;
    PairingTheorem(list);
    hide Pair;
    forall o, c, p, d | Mates(r, o, c) && Mates(r, p, d) ensures o == p {
      SameSideUnique(r, o, p);
    }
    UncrossNests(r);
  }

  // ----- What is written -----

  ghost predicate Finishes(ms: seq<Match>, tail: string) {
    Runs(ms) && Unpaired(Segmented(ms, tail)) && Pair(Segmented(ms, tail)).Paired?
  }

  /** The pass leaves `r`, in which no id but that of one pair occurs. */
  lemma LeftAsPaired(ms: seq<Match>, tail: string, r: seq<Node>)
    requires Runs(ms) && Sized(Segmented(ms, tail)) && Pair(Segmented(ms, tail)) == Paired(r)
    requires forall i :: 0 <= i < |r| && Matched(r[i]) ==> r[i].m.id == 0
    ensures Finishes(ms, tail) && Emphasized(ms, tail) == r
  {
    SegmentedFacts(ms, tail);
    hide Segmented, Pair, Uncross;
    OnePairStays(Segmented(ms, tail));
  }

  function OpenThenClose(pre: string, c: char, m: nat, w: string, d: char, n: nat): seq<Match> {
    [OpenRun(pre, c, m), CloseRun(w, d, n)]
  }

  lemma SegmentedTwo(pre: string, c: char, m: nat, w: string, d: char, n: nat, tail: string)
    requires 1 <= m <= 3 && 1 <= n <= 3
    ensures Runs(OpenThenClose(pre, c, m, w, d, n))
    ensures Segmented(OpenThenClose(pre, c, m, w, d, n), tail) ==
            Five(TextNode(pre), [Fresh(true, c, m)], TextNode(w), [Fresh(false, d, n)], TextNode(tail))
    ensures TwoRuns(TextNode(pre), Fresh(true, c, m), TextNode(w), Fresh(false, d, n), TextNode(tail))
  {
    var ms := OpenThenClose(pre, c, m, w, d, n);
    assert ms[..1] == [OpenRun(pre, c, m)] && ms[..1][..0] == [];
    var a, b := TextNode(pre) + [Fresh(true, c, m)], TextNode(w) + [Fresh(false, d, n)];
    assert Segments(ms[..1]) == a by { assert [] + a == a; }
    assert Segments(ms) == a + b;
  }

  predicate NoneMatched(a: seq<Node>) {
    forall i :: 0 <= i < |a| ==> !Matched(a[i])
  }

  lemma IdsOfFive(a: seq<Node>, x: Node, b: seq<Node>, y: Node, c: seq<Node>)
    requires NoneMatched(a) && NoneMatched(b) && NoneMatched(c)
    requires x.Mark? && x.m.id in {-1, 0} && y.Mark? && y.m.id in {-1, 0}
    ensures var r := Five(a, [x], b, [y], c); forall i :: 0 <= i < |r| && Matched(r[i]) ==> r[i].m.id == 0
  {
    var r, k := Five(a, [x], b, [y], c), |a| + 1 + |b|;
    forall i | 0 <= i < |r|
      ensures r[i] == if i < |a| then a[i] else if i == |a| then x else if i < k then b[i - |a| - 1]
                      else if i == k then y else c[i - k - 1]
    {
    }
  }

  function MarkerText(m: Marker): string {
    if m.disabled then "" else if m.id == -1 then Repeat(m.ch, m.size)
    else if m.open then OpenTag(m.size) else CloseTag(m.size)
  }

  /** From the outcome of pairing to the text that is written. */
  lemma FiveWritten(ms: seq<Match>, tail: string, a: seq<Node>, x: Node, b: seq<Node>, y: Node, c: seq<Node>)
    requires Runs(ms) && Sized(Segmented(ms, tail))
    requires Pair(Segmented(ms, tail)) == Paired(Five(a, [x], b, [y], c))
    requires NoneMatched(a) && NoneMatched(b) && NoneMatched(c)
    requires x.Mark? && x.m.id in {-1, 0} && 1 <= x.m.size <= 3
    requires y.Mark? && y.m.id in {-1, 0} && 1 <= y.m.size <= 3
    ensures Finishes(ms, tail)
    ensures Html(Emphasized(ms, tail)) == Html(a) + MarkerText(x.m) + Html(b) + MarkerText(y.m) + Html(c)
  {
    IdsOfFive(a, x, b, y, c);
    HtmlOfFive(a, [x], b, [y], c);
    HtmlOfMarker(x.m);
    HtmlOfMarker(y.m);
    hide Segmented, Pair, Html, NoneMatched, OpenTag, CloseTag, Repeat;
    LeftAsPaired(ms, tail, Five(a, [x], b, [y], c));
  }

  lemma TextsWritten(pre: string, w: string, tail: string)
    ensures Html(TextNode(pre)) == pre && Html(TextNode(w)) == w && Html(TextNode(tail)) == tail
    ensures NoneMatched(TextNode(pre)) && NoneMatched(TextNode(w)) && NoneMatched(TextNode(tail))
  {
    TextUnmatched(pre);
    TextUnmatched(w);
    TextUnmatched(tail);
    hide Html, TextNode, NoneMatched;
    HtmlOfText(pre);
    HtmlOfText(w);
    HtmlOfText(tail);
  }

  lemma TextUnmatched(t: string)
    ensures NoneMatched(TextNode(t))
  {
  }

  /** A cut marker writes what its first part does. */
  lemma HtmlOfHead(a: seq<Node>, x: Node, n: nat)
    requires NoneMatched(a) && x.Mark? && 1 <= n < x.m.size <= 3 && x.m.id == -1
    ensures Html(CutHead(a, x, n)) == Html(a) + Repeat(x.m.ch, x.m.size - n) && NoneMatched(CutHead(a, x, n))
  {
    var off, rest := Disable(x), Fresh(x.m.open, x.m.ch, x.m.size - n);
    HeadUnmatched(a, x, n);
    HtmlOfMarker(rest.m);
    HtmlOfMarker(off.m);
    hide Html, Repeat, OpenTag, CloseTag, CutHead, NoneMatched;
    HtmlConcat(a + [off], [rest]);
    HtmlConcat(a, [off]);
    assert Html(a) + "" == Html(a);
  }

  lemma HeadUnmatched(a: seq<Node>, x: Node, n: nat)
    requires NoneMatched(a) && x.Mark? && n <= x.m.size && x.m.id == -1
    ensures NoneMatched(CutHead(a, x, n))
    ensures CutHead(a, x, n) == (a + [Disable(x)]) + [Fresh(x.m.open, x.m.ch, x.m.size - n)]
  {
  }

  /** Equal runs make an element. */
  lemma EqualRunsWritten(pre: string, c: char, n: nat, w: string, tail: string)
    requires 1 <= n <= 3
    ensures var ms := OpenThenClose(pre, c, n, w, c, n);
            Finishes(ms, tail) && Html(Emphasized(ms, tail)) == pre + OpenTag(n) + w + CloseTag(n) + tail
  {
    hide Segmented, Pair, Emphasized, Html, TextNode, Repeat, OpenTag, CloseTag, OpenThenClose, Five, Sized, TwoRuns, Finishes,
      Runs, NoneMatched, CutHead;
    var ms, x, y := OpenThenClose(pre, c, n, w, c, n), Fresh(true, c, n), Fresh(false, c, n);
    SegmentedTwo(pre, c, n, w, c, n, tail);
    PairFiveEqual(TextNode(pre), x, TextNode(w), y, TextNode(tail));
    TextsWritten(pre, w, tail);
    FiveWritten(ms, tail, TextNode(pre), WithId(x), TextNode(w), WithId(y), TextNode(tail));
  }

  /** Runs of sizes 1 and 2 that differ in size or character stay as they are. */
  lemma UnequalRunsWritten(pre: string, c: char, m: nat, w: string, d: char, n: nat, tail: string)
    requires 1 <= m <= 2 && 1 <= n <= 2 && (c != d || m != n)
    ensures var ms := OpenThenClose(pre, c, m, w, d, n);
            Finishes(ms, tail) && Html(Emphasized(ms, tail)) == pre + Repeat(c, m) + w + Repeat(d, n) + tail
  {
    hide Segmented, Pair, Emphasized, Html, TextNode, Repeat, OpenTag, CloseTag, OpenThenClose, Five, Sized, TwoRuns, Finishes,
      Runs, NoneMatched, CutHead;
    var ms, x, y := OpenThenClose(pre, c, m, w, d, n), Fresh(true, c, m), Fresh(false, d, n);
    SegmentedTwo(pre, c, m, w, d, n, tail);
    PairFiveUnequal(TextNode(pre), x, TextNode(w), y, TextNode(tail));
    TextsWritten(pre, w, tail);
    FiveWritten(ms, tail, TextNode(pre), x, TextNode(w), y, TextNode(tail));
  }

  /** A run of three that opens gives what the closing run takes, and what is left of it stays in
      front; for a run of the other character it stays whole. */
  lemma LongOpeningWritten(pre: string, c: char, w: string, d: char, n: nat, tail: string)
    requires 1 <= n <= 2
    ensures var ms := OpenThenClose(pre, c, 3, w, d, n);
            && Finishes(ms, tail)
            && Html(Emphasized(ms, tail)) ==
               (if c == d then (pre + Repeat(c, 3 - n)) + OpenTag(n) + w + CloseTag(n) + tail
                else (pre + Repeat(c, 3 - n)) + Repeat(c, n) + w + Repeat(d, n) + tail)
  {
    hide Segmented, Pair, Emphasized, Html, TextNode, Repeat, OpenTag, CloseTag, OpenThenClose, Five, Sized, TwoRuns, Finishes,
      Runs, NoneMatched, CutHead;
    var ms, x, y := OpenThenClose(pre, c, 3, w, d, n), Fresh(true, c, 3), Fresh(false, d, n);
    var last := MaybeId(Fresh(true, c, n), c == d);
    SegmentedTwo(pre, c, 3, w, d, n, tail);
    PairFiveOpen(TextNode(pre), x, TextNode(w), y, TextNode(tail));
    TextsWritten(pre, w, tail);
    HtmlOfHead(TextNode(pre), x, n);
    FiveWritten(ms, tail, CutHead(TextNode(pre), x, n), last, TextNode(w), MaybeId(y, c == d), TextNode(tail));
  }

  /** A run of three that closes takes what the opening run gives, and what is left of it stays inside
      the element; for a run of the other character it stays whole. */
  lemma LongClosingWritten(pre: string, c: char, m: nat, w: string, d: char, tail: string)
    requires 1 <= m <= 2
    ensures var ms := OpenThenClose(pre, c, m, w, d, 3);
            && Finishes(ms, tail)
            && Html(Emphasized(ms, tail)) ==
               (if c == d then pre + OpenTag(m) + (w + Repeat(d, 3 - m)) + CloseTag(m) + tail
                else pre + Repeat(c, m) + (w + Repeat(d, 3 - m)) + Repeat(d, m) + tail)
  {
    hide Segmented, Pair, Emphasized, Html, TextNode, Repeat, OpenTag, CloseTag, OpenThenClose, Five, Sized, TwoRuns, Finishes,
      Runs, NoneMatched, CutHead;
    var ms, x, y := OpenThenClose(pre, c, m, w, d, 3), Fresh(true, c, m), Fresh(false, d, 3);
    var last := MaybeId(Fresh(false, d, m), c == d);
    SegmentedTwo(pre, c, m, w, d, 3, tail);
    PairFiveClose(TextNode(pre), x, TextNode(w), y, TextNode(tail));
    TextsWritten(pre, w, tail);
    HtmlOfHead(TextNode(w), y, m);
    FiveWritten(ms, tail, TextNode(pre), MaybeId(x, c == d), CutHead(TextNode(w), y, m), last, TextNode(tail));
  }

  /** Two runs of three that differ in character are the ones that the pass does not survive. */
  lemma MixedTriplesDiverge(pre: string, c: char, w: string, d: char, tail: string)
    requires c != d
    ensures var list := Segmented(OpenThenClose(pre, c, 3, w, d, 3), tail);
            Sized(list) && Pair(list) == Diverges
  {
    SegmentedTwo(pre, c, 3, w, d, 3, tail);
    PairFiveClash(TextNode(pre), Fresh(true, c, 3), TextNode(w), Fresh(false, d, 3), TextNode(tail));
  }

  lemma SegmentedWord(pre: string, c: char, n: nat, w: string, tail: string)
    requires 1 <= n <= 3
    ensures Runs([MidWord(pre, c, n, w)])
    ensures Segmented([MidWord(pre, c, n, w)], tail) ==
            Five(TextNode(pre), [Fresh(true, c, n)], [Text(w)], [Fresh(false, c, n)], TextNode(tail))
    ensures TwoRuns(TextNode(pre), Fresh(true, c, n), [Text(w)], Fresh(false, c, n), TextNode(tail))
  {
    var m := MidWord(pre, c, n, w);
    assert [m][..0] == [] && [] + NodesOf(m) == NodesOf(m);
    assert Segments([m]) == NodesOf(m);
    hide TextNode;
    assert NodesOf(m) == TextNode(pre) + [Fresh(true, c, n)] + [Text(w)] + [Fresh(false, c, n)];
  }

  /** A word between two equal runs makes an element. */
  lemma MidWordWritten(pre: string, c: char, n: nat, w: string, tail: string)
    requires 1 <= n <= 3
    ensures var ms := [MidWord(pre, c, n, w)];
            Finishes(ms, tail) && Html(Emphasized(ms, tail)) == pre + OpenTag(n) + w + CloseTag(n) + tail
  {
    hide Segmented, Pair, Emphasized, Html, TextNode, Repeat, OpenTag, CloseTag, OpenThenClose, Five, Sized, TwoRuns, Finishes,
      Runs, NoneMatched, CutHead;
    var ms, x, y := [MidWord(pre, c, n, w)], Fresh(true, c, n), Fresh(false, c, n);
    SegmentedWord(pre, c, n, w, tail);
    PairFiveEqual(TextNode(pre), x, [Text(w)], y, TextNode(tail));
    TextsWritten(pre, w, tail);
    HtmlOfText(w);
    OneTextUnmatched(w);
    FiveWritten(ms, tail, TextNode(pre), WithId(x), [Text(w)], WithId(y), TextNode(tail));
  }

  lemma OneTextUnmatched(w: string)
    ensures NoneMatched([Text(w)])
  {
  }
}
