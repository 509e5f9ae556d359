/** No run is passed over: an opening and a later closing run that are alike do not both stay as they are. */
module EmphasisRuns {
  import opened TextTools
  import opened Emphasis
  import opened EmphasisPairing
  import opened EmphasisSpans
  import opened EmphasisWritten

  /** A marker that no cut touches. */
  predicate Lasting(list: seq<Node>, k: nat) {
    k < |list| && list[k].Mark? && !list[k].m.disabled && 1 <= list[k].m.size < 3
  }

  /** Node `p` of `b` is the marker `k` of `a`, perhaps matched, and stands after the same text. */
  ghost predicate SameMarker(a: seq<Node>, k: nat, b: seq<Node>, p: nat) {
    && Lasting(a, k) && Lasting(b, p)
    && b[p].m.open == a[k].m.open && b[p].m.ch == a[k].m.ch && b[p].m.size == a[k].m.size
    && SameText(b, p, a, k)
  }

  ghost predicate HasMarker(a: seq<Node>, k: nat, b: seq<Node>) {
    exists p :: SameMarker(a, k, b, p)
  }

  ghost predicate KeepsMarkers(a: seq<Node>, b: seq<Node>) {
    forall k :: Lasting(a, k) ==> HasMarker(a, k, b)
  }

  lemma KeepsItself(a: seq<Node>)
    ensures KeepsMarkers(a, a)
  {
    forall k | Lasting(a, k) ensures HasMarker(a, k, a) {
      assert SameMarker(a, k, a, k);
    }
  }

  lemma KeepsChain(a: seq<Node>, b: seq<Node>, c: seq<Node>)
    requires KeepsMarkers(a, b) && KeepsMarkers(b, c)
    ensures KeepsMarkers(a, c)
  {
    forall k | Lasting(a, k) ensures HasMarker(a, k, c) {
      assert HasMarker(a, k, b);
      var p :| SameMarker(a, k, b, p);
      assert HasMarker(b, p, c);
      var q :| SameMarker(b, p, c, q);
      assert SameMarker(a, k, c, q);
    }
  }

  lemma CutKeepsMarkers(list: seq<Node>, k: nat, n: nat)
    requires k < |list| && Triple(list[k]) && n <= 3
    ensures KeepsMarkers(list, Cut(list, k, n))
  {
    var cut := Cut(list, k, n);
    forall j | Lasting(list, j) ensures HasMarker(list, j, cut) {
      CutMovesMarker(list, k, n, j);
    }
  }

  lemma CutMovesMarker(list: seq<Node>, k: nat, n: nat, j: nat)
    requires k < |list| && Triple(list[k]) && n <= 3 && Lasting(list, j)
    ensures SameMarker(list, j, Cut(list, k, n), if j < k then j else j + 2)
  {
    assert |Cut(list, k, n)| == |list| + 2 && j != k;
    hide Cut, SameText;
    if j < k {
      CutIndex(list, k, n, j);
      BeforeCut(list, k, n, j);
    } else {
      CutIndex(list, k, n, j + 2);
      AfterCut(list, k, n, j);
    }
  }

  lemma BeforeCut(list: seq<Node>, k: nat, n: nat, j: nat)
    requires k < |list| && list[k].Mark? && n <= list[k].m.size && j <= k
    ensures SameText(Cut(list, k, n), j, list, j)
  {
    var cut := Cut(list, k, n);
    forall t | 0 <= t < j ensures ShowAlike(cut, list, 0, t) {
      CutIndex(list, k, n, t);
    }
    PlainAlike(cut, 0, j, list, 0, j, 0);
  }

  lemma AfterCut(list: seq<Node>, k: nat, n: nat, j: nat)
    requires k < |list| && Triple(list[k]) && n <= 3 && k < j <= |list|
    ensures SameText(Cut(list, k, n), j + 2, list, j)
  {
    var cut := Cut(list, k, n);
    BeforeCut(list, k, n, k);
    CutKeepsMarker(list, k, n);
    forall t | k + 3 <= t < j + 2 ensures ShowAlike(cut, list, 2, t) {
      CutIndex(list, k, n, t);
    }
    PlainAlike(cut, k + 3, j + 2, list, k + 1, j, 2);
  }

  lemma JoinKeepsMarkers(list: seq<Node>, i: nat, k: nat, id: int)
    requires i < k < |list| && list[i].Mark? && list[k].Mark?
    ensures KeepsMarkers(list, Join(list, i, k, id))
  {
    var l := Join(list, i, k, id);
    forall t | 0 <= t < |l| ensures ShowAlike(l, list, 0, t) {
    }
    forall j | Lasting(list, j) ensures HasMarker(list, j, l) {
      PlainAlike(l, 0, j, list, 0, j, 0);
      assert SameMarker(list, j, l, j);
    }
  }

  lemma {:induction false} ScanKeepsMarkers(list: seq<Node>, i: nat, k: nat)
    requires i < k <= |list| && UnmatchedOpen(list[i]) && Sized(list)
    ensures var r := Scan(list, i, k); !r.Clashed? ==> KeepsMarkers(list, r.list)
    decreases Triples(list), |list| - k
  {
    hide Cut, Triples, KeepsMarkers;
    KeepsItself(list);
    if k < |list| {
      match Judge(list, i, k)
      case Skip => ScanKeepsMarkers(list, i, k + 1);
      case CutClose =>
        var n := list[i].m.size;
        CutCloseFacts(list, i, k);
        CutKeepsMarkers(list, k, n);
        ScanKeepsMarkers(Cut(list, k, n), i, k + 1);
        var r := Scan(list, i, k);
        if !r.Clashed? {
          KeepsChain(list, Cut(list, k, n), r.list);
        }
      case Take =>
      case CutOpen => CutKeepsMarkers(list, i, list[k].m.size);
      case Clash =>
    }
  }

  lemma TurnKeepsMarkers(list: seq<Node>, i: nat, id: nat)
    requires i < |list| && Sized(list)
    ensures var t := TurnAt(list, i, id); t.Next? ==> KeepsMarkers(list, t.list)
  {
    hide KeepsMarkers, Scan;
    KeepsItself(list);
    if UnmatchedOpen(list[i]) {
      ScanKeepsMarkers(list, i, i + 1);
      var r := Scan(list, i, i + 1);
      if r.Hit? {
        JoinKeepsMarkers(r.list, i, r.k, id);
        KeepsChain(list, r.list, Join(r.list, i, r.k, id));
      }
    }
  }

  lemma {:induction false} PairKeepsMarkers(list: seq<Node>, i: nat, id: nat)
    requires i <= |list| && Sized(list)
    ensures var r := PairFrom(list, i, id); r.Paired? ==> KeepsMarkers(list, r.list)
    decreases Triples(list), |list| - i
  {
    hide KeepsMarkers, TurnAt;
    KeepsItself(list);
    if i < |list| {
      var t := TurnAt(list, i, id);
      TurnKeepsMarkers(list, i, id);
      if t.Next? {
        PairKeepsMarkers(t.list, i + 1, t.id);
        var r := PairFrom(t.list, i + 1, t.id);
        if r.Paired? {
          KeepsChain(list, t.list, r.list);
        }
      }
    }
  }

  // ----- From matches to markers -----

  /** The text before the run of match `i`. */
  function TextBefore(ms: seq<Match>, i: nat): string
    requires i < |ms|
  {
    Source(ms[..i]) + ms[i].pre
  }

  lemma {:induction false} SegmentsPrefix(ms: seq<Match>, i: nat)
    requires i <= |ms|
    ensures Segments(ms[..i]) <= Segments(ms)
    decreases |ms|
  {
    if i == |ms| {
      assert ms[..i] == ms;
    } else {
      assert ms[..|ms| - 1][..i] == ms[..i];
      SegmentsPrefix(ms[..|ms| - 1], i);
    }
  }

  /** The run of match `i` stands in the list, as an opening or a closing marker, after the text that
      is before it. */
  lemma RunStands(ms: seq<Match>, tail: string, i: nat) returns (k: nat)
    requires i < |ms| && !ms[i].MidWord?
    ensures k < |Segmented(ms, tail)|
    ensures Segmented(ms, tail)[k] == Mark(Marker(ms[i].OpenRun?, ms[i].ch, ms[i].n, -1, false))
    ensures PlainUpTo(Segmented(ms, tail), k) == TextBefore(ms, i)
  {
    var a, list := Segments(ms[..i]), Segmented(ms, tail);
    var b := a + TextNode(ms[i].pre);
    k := |b|;
    RunFollows(ms, tail, i);
    SegmentsKeepText(ms[..i]);
    PlainPiece(a, ms[i].pre);
    hide Segments, TextNode, PlainUpTo, Segmented, Source;
    PlainPrefix(b, list[k..], k);
  }

  lemma LongerStart(b: seq<Node>, list: seq<Node>, n: nat)
    requires b <= list && n <= |b|
    ensures b[..n] + list[n..] == list && forall t :: n <= t < |b| ==> list[t] == b[t]
  {
  }

  lemma RunFollows(ms: seq<Match>, tail: string, i: nat)
    requires i < |ms| && !ms[i].MidWord?
    ensures var b, list := Segments(ms[..i]) + TextNode(ms[i].pre), Segmented(ms, tail);
            && |b| < |list| && list == b + list[|b|..]
            && list[|b|] == Mark(Marker(ms[i].OpenRun?, ms[i].ch, ms[i].n, -1, false))
  {
    var a := Segments(ms[..i]);
    assert ms[..i + 1][..i] == ms[..i];
    assert Segments(ms[..i + 1]) == a + NodesOf(ms[i]);
    SegmentsPrefix(ms, i + 1);
    hide TextNode, Segments;
    assert Segments(ms) <= Segmented(ms, tail);
    LongerStart(a + NodesOf(ms[i]), Segmented(ms, tail), |a + TextNode(ms[i].pre)|);
  }

  lemma {:induction false} SourceGrows(ms: seq<Match>, i: nat, j: nat)
    requires i < j <= |ms|
    ensures |TextBefore(ms, i)| + ms[i].n <= |Source(ms[..j])|
    decreases j
  {
    assert ms[..j][..j - 1] == ms[..j - 1];
    RunLength(ms[j - 1].ch, ms[j - 1].n);
    if i < j - 1 {
      SourceGrows(ms, i, j - 1);
    }
  }

  lemma {:induction false} RunLength(c: char, n: nat)
    ensures |Repeat(c, n)| == n
  {
    if n > 0 {
      RunLength(c, n - 1);
    }
  }

  lemma {:induction false} PlainGrows(list: seq<Node>, p: nat, q: nat)
    requires p <= q <= |list|
    ensures |PlainUpTo(list, p)| <= |PlainUpTo(list, q)|
  {
    if p < q {
      PlainGrows(list, p, q - 1);
    }
  }

  /** Node `p` of the list is the run of match `i`: a marker of its kind, after the text before it. */
  ghost predicate IsRun(r: seq<Node>, p: nat, ms: seq<Match>, i: nat) {
    && i < |ms| && p < |r| && r[p].Mark? && !r[p].m.disabled
    && r[p].m.open == ms[i].OpenRun? && r[p].m.ch == ms[i].ch && r[p].m.size == ms[i].n
    && PlainUpTo(r, p) == TextBefore(ms, i)
  }

  lemma RunLasts(ms: seq<Match>, tail: string, i: nat) returns (p: nat)
    requires Finishes(ms, tail) && i < |ms| && !ms[i].MidWord? && ms[i].n != 3
    ensures IsRun(Pair(Segmented(ms, tail)).list, p, ms, i)
  {
    var list := Segmented(ms, tail);
    var k := RunStands(ms, tail, i);
    PairKeepsMarkers(list, 0, 0);
    assert Lasting(list, k);
    assert HasMarker(list, k, Pair(list).list);
    p :| SameMarker(list, k, Pair(list).list, p);
  }

  /** An opening run of one or two characters and a later closing run of the same ones: both are
      still there after pairing, in order and each after the text before it, and not both unmatched. */
  lemma RunsPair(ms: seq<Match>, tail: string, i: nat, j: nat) returns (p: nat, q: nat)
    requires Finishes(ms, tail) && i < j < |ms| && ms[i].OpenRun? && ms[j].CloseRun?
    requires ms[i].ch == ms[j].ch && ms[i].n == ms[j].n != 3
    ensures var r := Pair(Segmented(ms, tail)).list;
            && p < q && IsRun(r, p, ms, i) && IsRun(r, q, ms, j)
            && (r[p].m.id != -1 || r[q].m.id != -1)
  {
    var r := Pair(Segmented(ms, tail)).list;
    p := RunLasts(ms, tail, i);
    q := RunLasts(ms, tail, j);
    SourceGrows(ms, i, j);
    if q <= p {
      PlainGrows(r, q, p);
      assert false;
    }
    PairingTheorem(Segmented(ms, tail));
    assert Settled(r, |r|);
    assert Blocks(r[p], r[q]);
  }
}
