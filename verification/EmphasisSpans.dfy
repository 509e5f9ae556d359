/** From regular-expression matches to nested tags: the emphasis pass as a whole. */
module EmphasisSpans {
  import opened TextTools
  import opened Emphasis
  import opened EmphasisPairing
  import opened EmphasisNesting
  import opened EmphasisMarkers
  import opened EmphasisUnmatch

  /** What the expression finds next: the text skipped before it, and an opening run, a
      closing run, or a word between two equal runs. */
  datatype Match =
    | OpenRun(pre: string, ch: char, n: nat)
    | CloseRun(pre: string, ch: char, n: nat)
    | MidWord(pre: string, ch: char, n: nat, contents: string)

  predicate Runs(ms: seq<Match>) {
    forall i :: 0 <= i < |ms| ==> 1 <= ms[i].n <= 3
  }

  function MatchText(m: Match): string {
    match m
    case OpenRun(pre, c, n) => pre + Repeat(c, n)
    case CloseRun(pre, c, n) => pre + Repeat(c, n)
    case MidWord(pre, c, n, w) => pre + Repeat(c, n) + w + Repeat(c, n)
  }

  /** The string that was searched. */
  function Source(ms: seq<Match>): string {
    if ms == [] then "" else Source(ms[..|ms| - 1]) + MatchText(ms[|ms| - 1])
  }

  function TextNode(t: string): seq<Node> {
    if t == "" then [] else [Text(t)]
  }

  function NodesOf(m: Match): seq<Node> {
    match m
    case OpenRun(pre, c, n) => TextNode(pre) + [Fresh(true, c, n)]
    case CloseRun(pre, c, n) => TextNode(pre) + [Fresh(false, c, n)]
    case MidWord(pre, c, n, w) => TextNode(pre) + [Fresh(true, c, n), Text(w), Fresh(false, c, n)]
  }

  function Segments(ms: seq<Match>): seq<Node> {
    if ms == [] then [] else Segments(ms[..|ms| - 1]) + NodesOf(ms[|ms| - 1])
  }

  /** The list of nodes that lines 475-507 make. */
  function Segmented(ms: seq<Match>, tail: string): seq<Node> {
    Segments(ms) + TextNode(tail)
  }

  // ----- Segmentation loses nothing -----

  lemma {:induction false} PlainPrefix(a: seq<Node>, b: seq<Node>, n: nat)
    requires n <= |a|
    ensures PlainUpTo(a + b, n) == PlainUpTo(a, n)
  {
    if n > 0 {
      PlainPrefix(a, b, n - 1);
    }
  }

  lemma PlainSnoc(a: seq<Node>, n: Node)
    ensures Plain(a + [n]) == Plain(a) + Shown(n)
  {
    PlainPrefix(a, [n], |a|);
  }

  lemma PlainPiece(a: seq<Node>, t: string)
    ensures Plain(a + TextNode(t)) == Plain(a) + t
  {
    if t == "" {
      assert a + TextNode(t) == a && Plain(a) + t == Plain(a);
    } else {
      PlainSnoc(a, Text(t));
    }
  }

  lemma PlainOfMatch(a: seq<Node>, m: Match)
    ensures Plain(a + NodesOf(m)) == Plain(a) + MatchText(m)
  {
    hide Plain, Repeat;
    var b := a + TextNode(m.pre);
    var r := Repeat(m.ch, m.n);
    PlainPiece(a, m.pre);
    if m.MidWord? {
      var o, w, c := Fresh(true, m.ch, m.n), Text(m.contents), Fresh(false, m.ch, m.n);
      assert a + NodesOf(m) == b + [o] + [w] + [c];
      PlainSnoc(b, o);
      PlainSnoc(b + [o], w);
      PlainSnoc(b + [o] + [w], c);
      Regroup(Plain(a), m.pre, r);
      Regroup(Plain(a), m.pre + r, m.contents);
      Regroup(Plain(a), m.pre + r + m.contents, r);
    } else {
      var f := Fresh(m.OpenRun?, m.ch, m.n);
      assert a + NodesOf(m) == b + [f];
      PlainSnoc(b, f);
      Regroup(Plain(a), m.pre, r);
    }
  }

  lemma {:induction false} SegmentsKeepText(ms: seq<Match>)
    ensures Plain(Segments(ms)) == Source(ms)
    decreases |ms|
  {
    if ms != [] {
      SegmentsKeepText(ms[..|ms| - 1]);
      PlainOfMatch(Segments(ms[..|ms| - 1]), ms[|ms| - 1]);
    }
  }

  ghost predicate Unpaired(list: seq<Node>) {
    Sized(list) && forall i :: 0 <= i < |list| ==> !Matched(list[i])
  }

  lemma {:induction false} SegmentsUnpaired(ms: seq<Match>)
    requires Runs(ms)
    ensures Unpaired(Segments(ms))
    decreases |ms|
  {
    if ms != [] {
      var m := ms[|ms| - 1];
      SegmentsUnpaired(ms[..|ms| - 1]);
      assert Unpaired(NodesOf(m));
    }
  }

  lemma {:induction false} SegmentedFacts(ms: seq<Match>, tail: string)
    requires Runs(ms)
    ensures Plain(Segmented(ms, tail)) == Source(ms) + tail
    ensures Unpaired(Segmented(ms, tail))
  {
    SegmentsKeepText(ms);
    SegmentsUnpaired(ms);
    PlainPiece(Segments(ms), tail);
  }

  // ----- The whole pass -----

  ghost function Emphasized(ms: seq<Match>, tail: string): seq<Node>
    requires Runs(ms) && Unpaired(Segmented(ms, tail)) && Pair(Segmented(ms, tail)).Paired?
  {
    Uncross(Pair(Segmented(ms, tail)).list)
  }

  /** The list that is written out stands for the source text, its matches are properly
      nested, and the tags it emits are balanced. */
  lemma {:induction false} EmphasisTheorem(ms: seq<Match>, tail: string)
    requires Runs(ms)
    ensures Unpaired(Segmented(ms, tail))
    ensures TriplesAgree(Segmented(ms, tail)) ==> Pair(Segmented(ms, tail)).Paired?
    ensures Pair(Segmented(ms, tail)).Paired? ==>
              var r := Emphasized(ms, tail);
              && Plain(r) == Source(ms) + tail
              && IsWellPaired(r) && Nested(r)
              && ReadAll(Empty, TagsUpTo(r, |r|)) == Empty
  {
    var list := Segmented(ms, tail);
    SegmentedFacts(ms, tail);
    PairingTheorem(list);
    if Pair(list).Paired? {
      var p := Pair(list).list;
      UncrossNests(p);
      UncrossIsSized(p);
      TagsBalance(Uncross(p));
    }
  }

  lemma UncrossIsSized(list: seq<Node>)
    requires Sized(list)
    ensures Sized(Uncross(list))
  {
  }

  lemma ViewAppend(tgt: seq<Token>, t: Token)
    ensures View(tgt + [t]) == View(tgt) + [NodeOf(t)]
  {
  }

  lemma ObjectsAppend(tgt: seq<Token>, t: Token)
    ensures Objects(tgt + [t]) == Objects(tgt) + if t.MarkerToken? then {t.m} else {}
  {
  }

  lemma ConsistentAppend(tgt: seq<Token>, t: Token)
    requires Consistent(tgt) && (t.MarkerToken? ==> t.m !in Objects(tgt) && t.m.Idle())
    ensures Consistent(tgt + [t])
  {
    var all := Objects(tgt + [t]);
    ObjectsAppend(tgt, t);
    forall m | m in all ensures Coherent(m, all) {
      if m in Objects(tgt) {
        assert Coherent(m, Objects(tgt));
      }
    }
    forall i, j | 0 <= i < j < |tgt| + 1 ensures Apart((tgt + [t])[i], (tgt + [t])[j]) {
      InList(tgt, i);
    }
  }

  method PushText(tgt: seq<Token>, text: string) returns (tgt': seq<Token>)
    requires Consistent(tgt)
    ensures Consistent(tgt') && Objects(tgt') == Objects(tgt) && View(tgt') == View(tgt) + [Text(text)]
  {
    tgt' := tgt + [RawText(text)];
    ViewAppend(tgt, RawText(text));
    ObjectsAppend(tgt, RawText(text));
    ConsistentAppend(tgt, RawText(text));
  }

  method PushMarker(tgt: seq<Token>, open: bool, c: char, n: nat) returns (tgt': seq<Token>)
    requires Consistent(tgt)
    ensures Consistent(tgt') && View(tgt') == View(tgt) + [Fresh(open, c, n)]
    ensures fresh(Objects(tgt') - Objects(tgt))
  {
    var m := new BoldOrItalicMarker(open, c, n);
    tgt' := tgt + [MarkerToken(m)];
    ViewAppend(tgt, MarkerToken(m));
    ObjectsAppend(tgt, MarkerToken(m));
    ConsistentAppend(tgt, MarkerToken(m));
  }

  /** Lines 481-501 for one match. */
  method PushMatch(tgt0: seq<Token>, m: Match) returns (tgt: seq<Token>)
    requires Consistent(tgt0)
    ensures Consistent(tgt) && View(tgt) == View(tgt0) + NodesOf(m)
    ensures fresh(Objects(tgt) - Objects(tgt0))
  {
    tgt := tgt0;
    if m.pre != "" {
      tgt := PushText(tgt, m.pre);
    }
    match m
    case OpenRun(_, c, n) => tgt := PushMarker(tgt, true, c, n);
    case CloseRun(_, c, n) => tgt := PushMarker(tgt, false, c, n);
    case MidWord(_, c, n, w) =>
      tgt := PushMarker(tgt, true, c, n);
      tgt := PushText(tgt, w);
      tgt := PushMarker(tgt, false, c, n);
  }

  /** Lines 475-507, with the matches of the expression given. */
  method Tokenize(ms: seq<Match>, tail: string) returns (tgt: seq<Token>)
    ensures Consistent(tgt) && fresh(Objects(tgt)) && View(tgt) == Segmented(ms, tail)
  {
    tgt := [];
    assert View(tgt) == [];
    for i := 0 to |ms|
      invariant Consistent(tgt) && fresh(Objects(tgt)) && View(tgt) == Segments(ms[..i])
    {
      assert ms[..i + 1][..i] == ms[..i];
      tgt := PushMatch(tgt, ms[i]);
    }
    assert ms[..|ms|] == ms;
    if tail != "" {
      tgt := PushText(tgt, tail);
    }
  }

  /** Lines 466-580 in one. */
  method ProcessBoldAndItalicSpans(ms: seq<Match>, tail: string) returns (tgt: seq<Token>)
    requires Runs(ms) && Unpaired(Segmented(ms, tail)) && Pair(Segmented(ms, tail)).Paired?
    ensures View(tgt) == Emphasized(ms, tail)
  {
    tgt := Tokenize(ms, tail);
    PairingTheorem(View(tgt));
    tgt := PairMarkers(tgt);
    UnmatchCrossing(tgt);
  }
}
