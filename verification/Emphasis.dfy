/** Pairing of emphasis markers, as functions on lists of nodes. */
module Emphasis {

  /** A run of one to three asterisks or underscores. Two markers are matched to each
      other when they carry the same id; an id of -1 is no match. */
  datatype Marker = Marker(open: bool, ch: char, size: nat, id: int, disabled: bool)

  datatype Node = Text(text: string) | Mark(m: Marker)

  predicate UnmatchedOpen(n: Node) { n.Mark? && n.m.open && n.m.id == -1 && !n.m.disabled }

  predicate UnmatchedClose(n: Node) { n.Mark? && !n.m.open && n.m.id == -1 && !n.m.disabled }

  predicate Matched(n: Node) { n.Mark? && n.m.id != -1 }

  function Fresh(open: bool, ch: char, size: nat): Node {
    Mark(Marker(open, ch, size, -1, false))
  }

  /** Markers in use have one to three characters. */
  predicate Sized(list: seq<Node>) {
    forall i :: 0 <= i < |list| && list[i].Mark? ==> 1 <= list[i].m.size <= 3
  }

  predicate Triple(n: Node) { n.Mark? && n.m.size == 3 && !n.m.disabled }

  function Triples(list: seq<Node>): nat {
    if list == [] then 0 else Triples(list[..|list| - 1]) + (if Triple(list[|list| - 1]) then 1 else 0)
  }

  function Disable(n: Node): Node
    requires n.Mark?
  {
    Mark(n.m.(disabled := true))
  }

  /** Marker `k` is disabled and markers of sizes `a` and `b` come after it in its place. */
  function Split(list: seq<Node>, k: nat, a: nat, b: nat): (r: seq<Node>)
    requires k < |list| && list[k].Mark?
    ensures |r| == |list| + 2
  {
    var m := list[k].m;
    list[..k] + [Disable(list[k]), Fresh(m.open, m.ch, a), Fresh(m.open, m.ch, b)] + list[k + 1..]
  }

  /** A size-3 marker gives up a marker of size `n`: the leftover comes first. */
  function Cut(list: seq<Node>, k: nat, n: nat): seq<Node>
    requires k < |list| && list[k].Mark? && n <= list[k].m.size
  {
    Split(list, k, list[k].m.size - n, n)
  }

  function Join(list: seq<Node>, i: nat, k: nat, id: int): seq<Node>
    requires i < k < |list| && list[i].Mark? && list[k].Mark?
  {
    list[i := Mark(list[i].m.(id := id))][k := Mark(list[k].m.(id := id))]
  }

  /** What the search for a partner of the opening marker `i` does at node `k`. A clash is
      the one case the code does not survive: size-3 markers of different characters. */
  datatype Verdict = Skip | CutClose | Take | CutOpen | Clash

  function Judge(list: seq<Node>, i: nat, k: nat): Verdict
    requires i < k < |list| && UnmatchedOpen(list[i])
  {
    if !UnmatchedClose(list[k]) then Skip
    else
      var o, c := list[i].m, list[k].m;
      if c.size == 3 && o.size != 3 then CutClose
      else if c.ch == o.ch && c.size == o.size then Take
      else if o.size == 3 then (if c.size == 3 then Clash else CutOpen)
      else Skip
  }

  datatype Search = Hit(list: seq<Node>, k: nat) | OpenSplit(list: seq<Node>) | Miss(list: seq<Node>) | Clashed

  function Scan(list: seq<Node>, i: nat, k: nat): (r: Search)
    requires i < k <= |list| && UnmatchedOpen(list[i]) && Sized(list)
    ensures r.Hit? ==> i < r.k < |r.list| && UnmatchedOpen(r.list[i]) && Judge(r.list, i, r.k) == Take
    ensures !r.Clashed? ==> Sized(r.list) && |r.list| >= |list|
    ensures !r.Clashed? ==> Triples(r.list) < Triples(list) || (r.list == list && !r.OpenSplit?)
    decreases Triples(list), |list| - k
  {
    if k == |list| then Miss(list)
    else
      match Judge(list, i, k)
      case Skip => Scan(list, i, k + 1)
      case CutClose =>
        CutFacts(list, k, list[i].m.size);
        CutIndex(list, k, list[i].m.size, i);
        Scan(Cut(list, k, list[i].m.size), i, k + 1)
      case Take => Hit(list, k)
      case CutOpen =>
        CutFacts(list, i, list[k].m.size);
        OpenSplit(Cut(list, i, list[k].m.size))
      case Clash => Clashed
  }

  datatype Turn = Next(list: seq<Node>, id: nat) | Stuck

  /** The body of the outer loop at node `i`, with `id` the next unused id. */
  function TurnAt(list: seq<Node>, i: nat, id: nat): (r: Turn)
    requires i < |list| && Sized(list)
    ensures r.Next? ==> Sized(r.list) && i < |r.list|
    ensures r.Next? ==> Triples(r.list) < Triples(list) || (Triples(r.list) == Triples(list) && |r.list| == |list|)
  {
    if !UnmatchedOpen(list[i]) then Next(list, id)
    else
      match Scan(list, i, i + 1)
      case Hit(l, k) => JoinKeepsTriples(l, i, k, id); Next(Join(l, i, k, id), id + 1)
      case OpenSplit(l) => Next(l, id)
      case Miss(l) => Next(l, id)
      case Clashed => Stuck
  }

  datatype Pairing = Paired(list: seq<Node>) | Diverges

  /** The pairing pass from node `i` on. */
  function PairFrom(list: seq<Node>, i: nat, id: nat): (r: Pairing)
    requires i <= |list| && Sized(list)
    ensures r.Paired? ==> Sized(r.list)
    decreases Triples(list), |list| - i
  {
    if i == |list| then Paired(list)
    else
      match TurnAt(list, i, id)
      case Next(l, id') => PairFrom(l, i + 1, id')
      case Stuck => Diverges
  }

  function Pair(list: seq<Node>): Pairing
    requires Sized(list)
  {
    PairFrom(list, 0, 0)
  }

  /** Where a node of the cut list comes from. */
  lemma CutIndex(list: seq<Node>, k: nat, n: nat, j: nat)
    requires k < |list| && list[k].Mark? && n <= list[k].m.size && j < |list| + 2
    ensures var cut, m := Cut(list, k, n), list[k].m;
            && (j < k ==> cut[j] == list[j])
            && (j > k + 2 ==> cut[j] == list[j - 2])
            && (j == k ==> cut[j] == Disable(list[k]))
            && (j == k + 1 ==> cut[j] == Fresh(m.open, m.ch, m.size - n))
            && (j == k + 2 ==> cut[j] == Fresh(m.open, m.ch, n))
  {
  }

  // ----- Termination measure -----

  lemma {:induction false} TriplesConcat(a: seq<Node>, b: seq<Node>)
    ensures Triples(a + b) == Triples(a) + Triples(b)
    decreases |b|
  {
    if b == [] {
      assert a + b == a;
    } else {
      assert (a + b)[..|a + b| - 1] == a + b[..|b| - 1];
      TriplesConcat(a, b[..|b| - 1]);
    }
  }

  lemma TriplesOfOne(n: Node)
    ensures Triples([n]) == if Triple(n) then 1 else 0
  {
  }

  lemma {:induction false} TriplesAt(list: seq<Node>, k: nat)
    requires k < |list|
    ensures Triples(list) == Triples(list[..k]) + (if Triple(list[k]) then 1 else 0) + Triples(list[k + 1..])
  {
    assert list == list[..k] + [list[k]] + list[k + 1..];
    TriplesConcat(list[..k] + [list[k]], list[k + 1..]);
    TriplesConcat(list[..k], [list[k]]);
    TriplesOfOne(list[k]);
  }

  lemma CutTriple(list: seq<Node>, k: nat, n: nat)
    requires k < |list| && Triple(list[k]) && 1 <= n < 3
    ensures Triples(Cut(list, k, n)) == Triples(list) - 1
  {
    var cut := Cut(list, k, n);
    assert cut[..k] == list[..k] && cut[k + 3..] == list[k + 1..];
    CutIndex(list, k, n, k);
    CutIndex(list, k, n, k + 1);
    CutIndex(list, k, n, k + 2);
    TriplesAt(list, k);
    TriplesAt(cut, k);
    var one := cut[k + 1..];
    TriplesAt(one, 0);
    assert one[..0] == [] && one[1..] == cut[k + 2..];
    var two := cut[k + 2..];
    TriplesAt(two, 0);
    assert two[..0] == [] && two[1..] == cut[k + 3..];
  }

  lemma CutIsSized(list: seq<Node>, k: nat, n: nat)
    requires Sized(list) && k < |list| && Triple(list[k]) && 1 <= n < 3
    ensures Sized(Cut(list, k, n))
  {
  }

  lemma {:induction false} CutFacts(list: seq<Node>, k: nat, n: nat)
    requires Sized(list) && k < |list| && Triple(list[k]) && 1 <= n < 3
    ensures Sized(Cut(list, k, n)) && Triples(Cut(list, k, n)) == Triples(list) - 1
  {
    CutTriple(list, k, n);
    CutIsSized(list, k, n);
  }

  /** The search goes on in a list with one size-3 marker less. */
  lemma CutCloseFacts(list: seq<Node>, i: nat, k: nat)
    requires i < k < |list| && UnmatchedOpen(list[i]) && Sized(list) && Judge(list, i, k) == CutClose
    ensures var cut := Cut(list, k, list[i].m.size);
            && Sized(cut) && Triples(cut) < Triples(list) && |cut| == |list| + 2
            && cut[i] == list[i] && list[i].m.size != 3
            && Scan(list, i, k) == Scan(cut, i, k + 1)
  {
    CutFacts(list, k, list[i].m.size);
    CutIndex(list, k, list[i].m.size, i);
  }

  lemma {:induction false} JoinKeepsTriples(list: seq<Node>, i: nat, k: nat, id: int)
    requires i < k < |list| && list[i].Mark? && list[k].Mark?
    ensures Triples(Join(list, i, k, id)) == Triples(list)
  {
    var one := list[i := Mark(list[i].m.(id := id))];
    var two := Join(list, i, k, id);
    TriplesAt(list, i);
    TriplesAt(one, i);
    assert one[..i] == list[..i] && one[i + 1..] == list[i + 1..];
    TriplesAt(one, k);
    TriplesAt(two, k);
    assert two[..k] == one[..k] && two[k + 1..] == one[k + 1..];
  }
}
