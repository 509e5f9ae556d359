/** The pass that un-matches crossed pairs: what its stack holds, and the pass itself. */
module EmphasisUnmatch {
  import opened Emphasis
  import opened EmphasisPairing
  import opened EmphasisNesting
  import opened EmphasisMarkers

  /** Node `j` belongs to a crossed pair that closes before `n`. */
  ghost predicate DroppedBefore(list: seq<Node>, n: nat, j: int) {
    exists o, c :: Mates(list, o, c) && c < n && (j == o || j == c) && Crossed(list, o, c)
  }

  ghost function HalfAt(list: seq<Node>, n: nat, j: nat): Node
    requires j < |list|
  {
    if DroppedBefore(list, n, j) then Unmatch(list[j]) else list[j]
  }

  /** `view` is the list with the crossed pairs that close before `n` un-matched. */
  ghost predicate Halfway(list: seq<Node>, n: nat, view: seq<Node>) {
    |view| == |list| && forall j :: 0 <= j < |list| ==> view[j] == HalfAt(list, n, j)
  }

  /** The stack, bottom first: opening markers before `n`, among them all that are still open;
      any other has been un-matched. */
  ghost predicate Stacked(list: seq<Node>, n: nat, pos: seq<int>) {
    && (forall x, y :: 0 <= x < y < |pos| ==> pos[x] < pos[y])
    && (forall x :: 0 <= x < |pos| ==> 0 <= pos[x] < |list| && pos[x] < n)
    && (forall x :: 0 <= x < |pos| ==> IsOpenAt(list, n, pos[x]) || DroppedBefore(list, n, pos[x]))
    && (forall o :: IsOpenAt(list, n, o) ==> o in pos)
  }

  /** The marker on top of the stack is still matched. */
  ghost predicate TopIsOpen(list: seq<Node>, n: nat, pos: seq<int>) {
    pos != [] ==> IsOpenAt(list, n, pos[|pos| - 1])
  }

  lemma DroppedLater(list: seq<Node>, n: nat, j: int)
    ensures DroppedBefore(list, n, j) ==> DroppedBefore(list, n + 1, j)
  {
  }

  lemma OpenEarlier(list: seq<Node>, n: nat, o: int)
    requires IsOpenAt(list, n + 1, o) && o != n
    ensures IsOpenAt(list, n, o)
  {
  }

  /** A node that belongs to no pair closing at `n` changes nothing. */
  lemma HalfwayQuiet(list: seq<Node>, n: nat, view: seq<Node>)
    requires IsWellPaired(list) && Halfway(list, n, view)
    requires forall o :: Mates(list, o, n) ==> !Crossed(list, o, n)
    ensures Halfway(list, n + 1, view)
  {
  }

  lemma {:induction false} HalfwayDrop(list: seq<Node>, n: nat, view: seq<Node>, p: int)
    requires IsWellPaired(list) && Halfway(list, n, view) && Mates(list, p, n) && Crossed(list, p, n)
    requires view[p].Mark? && view[n].Mark?
    ensures Halfway(list, n + 1, view[p := Unmatch(view[p])][n := Unmatch(view[n])])
  {
    var after := view[p := Unmatch(view[p])][n := Unmatch(view[n])];
    forall j | 0 <= j < |list| ensures after[j] == HalfAt(list, n + 1, j) {
      assert view[j] == HalfAt(list, n, j);
      DroppedLater(list, n, j);
      if j != p && j != n && DroppedBefore(list, n + 1, j) {
        var o, c :| Mates(list, o, c) && c < n + 1 && (j == o || j == c) && Crossed(list, o, c);
        if c == n { MatesUnique(list, o, c, p, n); }
        assert DroppedBefore(list, n, j);
      }
    }
  }

  lemma {:induction false} HalfwayHere(list: seq<Node>, n: nat, view: seq<Node>, j: nat)
    requires IsWellPaired(list) && Halfway(list, n, view) && j < |list|
    requires j >= n || IsOpenAt(list, n, j)
    ensures view[j] == list[j]
  {
  }

  lemma {:induction false} StackedEarlier(list: seq<Node>, n: nat, o: int, c: int)
    requires IsWellPaired(list) && Mates(list, n, c) && (IsOpenAt(list, n, o) || DroppedBefore(list, n, o))
    ensures IsOpenAt(list, n + 1, o) || DroppedBefore(list, n + 1, o)
  {
  }

  lemma {:induction false} PushKeeps(list: seq<Node>, n: nat, pos: seq<int>, c: int)
    requires IsWellPaired(list) && Stacked(list, n, pos) && Mates(list, n, c)
    ensures Stacked(list, n + 1, pos + [n]) && TopIsOpen(list, n + 1, pos + [n])
  {
    var pos' := pos + [n];
    assert IsOpenAt(list, n + 1, n);
    forall x | 0 <= x < |pos'| ensures IsOpenAt(list, n + 1, pos'[x]) || DroppedBefore(list, n + 1, pos'[x]) {
      if x < |pos| {
        StackedEarlier(list, n, pos[x], c);
      }
    }
    forall o | IsOpenAt(list, n + 1, o) ensures o in pos' {
      if o != n { OpenEarlier(list, n, o); }
    }
  }

  lemma QuietKeeps(list: seq<Node>, n: nat, pos: seq<int>)
    requires n < |list| && !Matched(list[n]) && Stacked(list, n, pos) && TopIsOpen(list, n, pos)
    ensures Stacked(list, n + 1, pos) && TopIsOpen(list, n + 1, pos)
  {
  }

  lemma TopIsLast(list: seq<Node>, n: nat, pos: seq<int>, o: int)
    requires Stacked(list, n, pos) && IsOpenAt(list, n, o)
    ensures |pos| > 0 && o <= pos[|pos| - 1]
  {
  }

  /** The stack top that the code reads at a closing marker exists, and it is the partner of
      that marker if and only if their pair is not crossed. */
  lemma {:induction false} TopAtClose(list: seq<Node>, n: nat, pos: seq<int>, p: int)
    requires IsWellPaired(list) && Stacked(list, n, pos) && TopIsOpen(list, n, pos) && Mates(list, p, n)
    ensures |pos| > 0
    ensures pos[|pos| - 1] == p <==> !Crossed(list, p, n)
    ensures list[pos[|pos| - 1]].Mark? && (list[pos[|pos| - 1]].m.id == list[n].m.id <==> pos[|pos| - 1] == p)
  {
    assert IsOpenAt(list, n, p);
    TopIsLast(list, n, pos, p);
    var top := pos[|pos| - 1];
    var d :| Mates(list, top, d) && n <= d;
    if top != p {
      if d == n { MatesUnique(list, top, d, p, n); }
      assert Crossed(list, p, n);
      if list[top].m.id == list[n].m.id { SameSideUnique(list, top, p); }
    } else if Crossed(list, p, n) {
      var q, e :| Mates(list, q, e) && p < q < n < e;
      assert IsOpenAt(list, n, q);
      TopIsLast(list, n, pos, q);
    }
  }

  lemma {:induction false} CrossedKeeps(list: seq<Node>, n: nat, pos: seq<int>, p: int)
    requires IsWellPaired(list) && Stacked(list, n, pos) && TopIsOpen(list, n, pos)
    requires Mates(list, p, n) && Crossed(list, p, n)
    ensures Stacked(list, n + 1, pos) && TopIsOpen(list, n + 1, pos)
  {
    TopAtClose(list, n, pos, p);
    forall o | IsOpenAt(list, n + 1, o) ensures o in pos {
      if o == n { MatchedOnce(list, n, p); }
      OpenEarlier(list, n, o);
    }
    forall o | IsOpenAt(list, n, o) && o != p ensures IsOpenAt(list, n + 1, o) {
      var c :| Mates(list, o, c) && n <= c;
      if c == n { MatesUnique(list, o, c, p, n); }
    }
    assert DroppedBefore(list, n + 1, p);
    forall x | 0 <= x < |pos| ensures IsOpenAt(list, n + 1, pos[x]) || DroppedBefore(list, n + 1, pos[x]) {
      DroppedLater(list, n, pos[x]);
    }
  }

  /** A closing marker does not open a pair. */
  lemma MatchedOnce(list: seq<Node>, n: nat, p: int)
    requires Mates(list, p, n)
    ensures !IsOpenAt(list, n + 1, n)
  {
  }

  lemma {:induction false} PopKeeps(list: seq<Node>, n: nat, pos: seq<int>, p: int)
    requires IsWellPaired(list) && Stacked(list, n, pos) && TopIsOpen(list, n, pos)
    requires Mates(list, p, n) && !Crossed(list, p, n)
    ensures |pos| > 0 && Stacked(list, n + 1, pos[..|pos| - 1])
  {
    TopAtClose(list, n, pos, p);
    var rest := pos[..|pos| - 1];
    forall o | IsOpenAt(list, n + 1, o) ensures o in rest {
      if o == n { MatchedOnce(list, n, p); }
      OpenEarlier(list, n, o);
      var c :| Mates(list, o, c) && n + 1 <= c;
      if o == p { MatesUnique(list, o, c, p, n); }
      var x :| 0 <= x < |pos| && pos[x] == o;
      assert rest[x] == o;
    }
    forall x | 0 <= x < |rest| ensures IsOpenAt(list, n + 1, rest[x]) || DroppedBefore(list, n + 1, rest[x]) {
      assert rest[x] == pos[x] && pos[x] < pos[|pos| - 1];
      DroppedLater(list, n, pos[x]);
      if IsOpenAt(list, n, pos[x]) {
        var c :| Mates(list, pos[x], c) && n <= c;
        if c == n { MatesUnique(list, pos[x], c, p, n); }
      }
    }
  }

  /** A popped marker that has been un-matched is not needed any more. */
  lemma CleanKeeps(list: seq<Node>, n: nat, pos: seq<int>)
    requires Stacked(list, n, pos) && pos != [] && !IsOpenAt(list, n, pos[|pos| - 1])
    ensures Stacked(list, n, pos[..|pos| - 1])
  {
  }

  // ----- The pass -----

  ghost predicate PositionsOf(tgt: seq<Token>, stack: seq<BoldOrItalicMarker>, pos: seq<int>) {
    |stack| == |pos| && forall x :: 0 <= x < |pos| ==> 0 <= pos[x] < |tgt| && tgt[pos[x]] == MarkerToken(stack[x])
  }

  lemma ObjectAt(tgt: seq<Token>, m: BoldOrItalicMarker) returns (q: nat)
    requires m in Objects(tgt)
    ensures q < |tgt| && tgt[q] == MarkerToken(m)
  {
    var t :| t in tgt && t == MarkerToken(m);
    q :| q < |tgt| && tgt[q] == t;
  }

  /** The pointer of a matched closing marker leads to its partner. */
  lemma PointerIsMate(tgt: seq<Token>, list: seq<Node>, n: nat, p: nat)
    requires Consistent(tgt) && IsWellPaired(list) && Halfway(list, n, View(tgt)) && n < |tgt|
    requires Mates(list, p, n) && tgt[n].MarkerToken?
    ensures p < |tgt| && tgt[p].MarkerToken? && tgt[n].m.mMatch == tgt[p].m
  {
    var m := tgt[n].m;
    InList(tgt, n);
    ViewAt(tgt, n);
    HalfwayHere(list, n, View(tgt), n);
    assert Coherent(m, Objects(tgt));
    var q := ObjectAt(tgt, m.mMatch);
    ViewAt(tgt, q);
    assert Coherent(m.mMatch, Objects(tgt));
    assert View(tgt)[q] == HalfAt(list, n, q);
    SameSideUnique(list, q, p);
  }

  /** Lines 572-573. */
  method UnmatchPair(tgt: seq<Token>, ghost p: nat, n: nat)
    requires Consistent(tgt) && p < n < |tgt| && tgt[p].MarkerToken? && tgt[n].MarkerToken?
    requires tgt[n].m.mMatch == tgt[p].m
    modifies Objects(tgt)
    ensures Consistent(tgt)
    ensures var v := old(View(tgt));
            v[p].Mark? && v[n].Mark? && View(tgt) == v[p := Unmatch(v[p])][n := Unmatch(v[n])]
  {
    InList(tgt, p);
    InList(tgt, n);
    var close := tgt[n].m;
    assert Coherent(close, Objects(tgt));
    ViewAt(tgt, p);
    ViewAt(tgt, n);
    close.mMatch.SetMatched(null, -1);
    close.SetMatched(null, -1);
    assert Consistent(tgt) by {
      forall x | x in Objects(tgt) ensures Coherent(x, Objects(tgt)) {
        assert old(Coherent(x, Objects(tgt)));
      }
    }
    ghost var v := old(View(tgt));
    ghost var w := v[p := Unmatch(v[p])][n := Unmatch(v[n])];
    forall j | 0 <= j < |tgt| ensures View(tgt)[j] == w[j] {
      ViewAt(tgt, j);
      assert old(View(tgt)[j]) == old(NodeOf(tgt[j]));
      if j != p { DistinctFrom(tgt, p, j); }
      if j != n { DistinctFrom(tgt, n, j); }
    }
  }

  ghost predicate Passing(tgt: seq<Token>, list: seq<Node>, n: nat, stack: seq<BoldOrItalicMarker>, pos: seq<int>)
    reads Objects(tgt)
  {
    && Consistent(tgt) && n <= |tgt| == |list|
    && Halfway(list, n, View(tgt))
    && Stacked(list, n, pos) && PositionsOf(tgt, stack, pos)
  }

  /** What the tests of the pass say about the list it started from. */
  lemma TestsOfPass(tgt: seq<Token>, list: seq<Node>, n: nat)
    requires Consistent(tgt) && IsWellPaired(list) && n < |tgt| == |list| && Halfway(list, n, View(tgt))
    ensures tgt[n].MarkerToken? && tgt[n].m.IsMatchedOpenMarker() ==> exists c :: Mates(list, n, c)
    ensures tgt[n].MarkerToken? && tgt[n].m.IsMatchedCloseMarker() ==>
              list[n].Mark? && list[n].m.id == tgt[n].m.mId && exists p :: Mates(list, p, n)
    ensures (tgt[n].MarkerToken? ==> !tgt[n].m.IsMatchedOpenMarker() && !tgt[n].m.IsMatchedCloseMarker()) ==>
              !Matched(list[n])
  {
    HalfwayHere(list, n, View(tgt), n);
    ViewAt(tgt, n);
    InList(tgt, n);
    if tgt[n].MarkerToken? {
      assert Coherent(tgt[n].m, Objects(tgt));
    }
    if Matched(list[n]) {
      var j := MatchedHasMate(list, n);
    }
  }

  /** The id on top of the stack is that of the marker that was pushed. */
  lemma {:induction false} TopId(tgt: seq<Token>, list: seq<Node>, n: nat, stack: seq<BoldOrItalicMarker>,
                                 pos: seq<int>)
    requires IsWellPaired(list) && Passing(tgt, list, n, stack, pos) && TopIsOpen(list, n, pos) && |pos| > 0
    ensures |stack| > 0 && list[pos[|pos| - 1]].Mark?
    ensures stack[|stack| - 1].mId == list[pos[|pos| - 1]].m.id
  {
    var t := pos[|pos| - 1];
    assert tgt[t] == MarkerToken(stack[|stack| - 1]);
    HalfwayHere(list, n, View(tgt), t);
    ViewAt(tgt, t);
    InList(tgt, t);
    assert Coherent(tgt[t].m, Objects(tgt));
  }

  /** Whether the top of the stack is still matched. */
  lemma {:induction false} TopMatch(tgt: seq<Token>, list: seq<Node>, n: nat, stack: seq<BoldOrItalicMarker>,
                                    pos: seq<int>)
    requires IsWellPaired(list) && Passing(tgt, list, n, stack, pos) && |pos| > 0
    ensures |stack| > 0 && (stack[|stack| - 1].mMatch != null <==> IsOpenAt(list, n, pos[|pos| - 1]))
  {
    var t := pos[|pos| - 1];
    assert tgt[t] == MarkerToken(stack[|stack| - 1]);
    ViewAt(tgt, t);
    InList(tgt, t);
    assert Coherent(tgt[t].m, Objects(tgt));
    assert View(tgt)[t] == HalfAt(list, n, t);
    if IsOpenAt(list, n, t) {
      HalfwayHere(list, n, View(tgt), t);
    }
  }

  /** Lines 575-577: pop the marker just closed and any un-matched ones under it. */
  method PopMatched(tgt: seq<Token>, openMatches: seq<BoldOrItalicMarker>, ghost list: seq<Node>, ghost n: nat,
                    ghost pos: seq<int>)
    returns (rest: seq<BoldOrItalicMarker>, ghost pos': seq<int>)
    requires IsWellPaired(list) && openMatches != []
    requires Passing(tgt, list, n, openMatches[..|openMatches| - 1], pos)
    ensures Passing(tgt, list, n, rest, pos') && TopIsOpen(list, n, pos')
  {
    rest, pos' := openMatches[..|openMatches| - 1], pos;
    while rest != [] && rest[|rest| - 1].mMatch == null
      invariant Passing(tgt, list, n, rest, pos')
    {
      TopMatch(tgt, list, n, rest, pos');
      CleanKeeps(list, n, pos');
      rest, pos' := rest[..|rest| - 1], pos'[..|pos'| - 1];
    }
    if rest != [] {
      TopMatch(tgt, list, n, rest, pos');
    }
  }

  /** Lines 572-573, at a closing marker whose partner is not on top of the stack. */
  method DropPair(tgt: seq<Token>, n: nat, ghost p: nat, ghost stack: seq<BoldOrItalicMarker>, ghost list: seq<Node>,
                  ghost pos: seq<int>)
    requires n < |tgt| && tgt[n].MarkerToken?
    requires IsWellPaired(list) && Passing(tgt, list, n, stack, pos) && TopIsOpen(list, n, pos)
    requires Mates(list, p, n) && Crossed(list, p, n)
    modifies Objects(tgt)
    ensures Passing(tgt, list, n + 1, stack, pos) && TopIsOpen(list, n + 1, pos)
  {
    PointerIsMate(tgt, list, n, p);
    ViewAt(tgt, p);
    ViewAt(tgt, n);
    HalfwayDrop(list, n, View(tgt), p);
    CrossedKeeps(list, n, pos, p);
    UnmatchPair(tgt, p, n);
  }

  lemma {:induction false} PopTop(tgt: seq<Token>, n: nat, p: nat, stack: seq<BoldOrItalicMarker>, list: seq<Node>,
                                  pos: seq<int>)
    requires n < |tgt| && IsWellPaired(list) && Passing(tgt, list, n, stack, pos) && TopIsOpen(list, n, pos)
    requires Mates(list, p, n) && !Crossed(list, p, n)
    ensures |pos| > 0 && |stack| > 0 && Passing(tgt, list, n + 1, stack[..|stack| - 1], pos[..|pos| - 1])
  {
    MatesUniqueAt(list, n, p);
    HalfwayQuiet(list, n, View(tgt));
    PopKeeps(list, n, pos, p);
  }

  /** The comparison of ids at line 571 tells whether the pair is crossed. */
  lemma {:induction false} IdsAtClose(tgt: seq<Token>, n: nat, stack: seq<BoldOrItalicMarker>, list: seq<Node>,
                                      pos: seq<int>)
    returns (p: nat)
    requires n < |tgt| && tgt[n].MarkerToken? && tgt[n].m.IsMatchedCloseMarker()
    requires IsWellPaired(list) && Passing(tgt, list, n, stack, pos) && TopIsOpen(list, n, pos)
    ensures Mates(list, p, n) && |stack| > 0
    ensures tgt[n].m.mId == stack[|stack| - 1].mId <==> !Crossed(list, p, n)
  {
    TestsOfPass(tgt, list, n);
    p :| Mates(list, p, n);
    TopAtClose(list, n, pos, p);
    TopId(tgt, list, n, stack, pos);
  }

  /** Lines 571-578 at a matched closing marker. */
  method CloseMarker(tgt: seq<Token>, n: nat, openMatches: seq<BoldOrItalicMarker>, ghost list: seq<Node>,
                     ghost pos: seq<int>)
    returns (rest: seq<BoldOrItalicMarker>, ghost pos': seq<int>)
    requires n < |tgt| && tgt[n].MarkerToken? && tgt[n].m.IsMatchedCloseMarker()
    requires IsWellPaired(list) && Passing(tgt, list, n, openMatches, pos) && TopIsOpen(list, n, pos)
    modifies Objects(tgt)
    ensures Passing(tgt, list, n + 1, rest, pos') && TopIsOpen(list, n + 1, pos')
  {
    hide *;
    ghost var p := IdsAtClose(tgt, n, openMatches, list, pos);
    if tgt[n].m.mId != openMatches[|openMatches| - 1].mId {
      DropPair(tgt, n, p, openMatches, list, pos);
      rest, pos' := openMatches, pos;
    } else {
      PopTop(tgt, n, p, openMatches, list, pos);
      rest, pos' := PopMatched(tgt, openMatches, list, n + 1, pos[..|pos| - 1]);
    }
  }

  lemma {:induction false} MatesUniqueAt(list: seq<Node>, n: nat, p: int)
    requires IsWellPaired(list) && Mates(list, p, n) && !Crossed(list, p, n)
    ensures forall o :: Mates(list, o, n) ==> !Crossed(list, o, n)
  {
  }

  lemma NothingClosesAt(list: seq<Node>, n: nat, c: int)
    requires Mates(list, n, c)
    ensures forall o :: !Mates(list, o, n)
  {
  }

  lemma {:induction false} PushTop(tgt: seq<Token>, n: nat, stack: seq<BoldOrItalicMarker>, list: seq<Node>,
                                   pos: seq<int>)
    requires n < |tgt| && tgt[n].MarkerToken? && tgt[n].m.IsMatchedOpenMarker()
    requires IsWellPaired(list) && Passing(tgt, list, n, stack, pos)
    ensures Passing(tgt, list, n + 1, stack + [tgt[n].m], pos + [n]) && TopIsOpen(list, n + 1, pos + [n])
  {
    TestsOfPass(tgt, list, n);
    var c :| Mates(list, n, c);
    PushKeeps(list, n, pos, c);
    NothingClosesAt(list, n, c);
    HalfwayQuiet(list, n, View(tgt));
  }

  lemma {:induction false} PassOver(tgt: seq<Token>, n: nat, stack: seq<BoldOrItalicMarker>, list: seq<Node>,
                                    pos: seq<int>)
    requires n < |tgt| && (tgt[n].MarkerToken? ==> !tgt[n].m.IsMatchedOpenMarker() && !tgt[n].m.IsMatchedCloseMarker())
    requires IsWellPaired(list) && Passing(tgt, list, n, stack, pos) && TopIsOpen(list, n, pos)
    ensures Passing(tgt, list, n + 1, stack, pos) && TopIsOpen(list, n + 1, pos)
  {
    TestsOfPass(tgt, list, n);
    QuietKeeps(list, n, pos);
    HalfwayQuiet(list, n, View(tgt));
  }

  lemma PassStart(tgt: seq<Token>)
    requires Consistent(tgt)
    ensures Passing(tgt, View(tgt), 0, [], []) && TopIsOpen(View(tgt), 0, [])
  {
  }

  lemma PassEnd(tgt: seq<Token>, list: seq<Node>, stack: seq<BoldOrItalicMarker>, pos: seq<int>)
    requires Passing(tgt, list, |tgt|, stack, pos)
    ensures Consistent(tgt) && View(tgt) == Uncross(list)
  {
  }

  /** The pass (562-580): exactly the crossed pairs lose their match. */
  method UnmatchCrossing(tgt: seq<Token>)
    requires Consistent(tgt) && IsWellPaired(View(tgt))
    modifies Objects(tgt)
    ensures Consistent(tgt) && View(tgt) == Uncross(old(View(tgt)))
  {
    hide *;
    var openMatches: seq<BoldOrItalicMarker> := [];
    ghost var list, pos := View(tgt), [];
    PassStart(tgt);
    for ii := 0 to |tgt|
      invariant Passing(tgt, list, ii, openMatches, pos) && TopIsOpen(list, ii, pos)
    {
      if tgt[ii].MarkerToken? && tgt[ii].m.IsMatchedOpenMarker() {
        PushTop(tgt, ii, openMatches, list, pos);
        openMatches, pos := openMatches + [tgt[ii].m], pos + [ii];
      } else if tgt[ii].MarkerToken? && tgt[ii].m.IsMatchedCloseMarker() {
        openMatches, pos := CloseMarker(tgt, ii, openMatches, list, pos);
      } else {
        PassOver(tgt, ii, openMatches, list, pos);
      }
    }
    PassEnd(tgt, list, openMatches, pos);
  }
}
