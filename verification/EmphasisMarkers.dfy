/** The emphasis pass as it is written, over a list of tokens that share marker objects. */
module EmphasisMarkers {
  import opened Emphasis
  import opened EmphasisPairing
  import opened EmphasisNesting

  class BoldOrItalicMarker {
    const mOpenMarker: bool
    const mTokenCharacter: char
    const mSize: nat
    var mMatch: BoldOrItalicMarker?
    var mCannotMatch: bool
    var mDisabled: bool
    var mId: int

    constructor (open: bool, c: char, size: nat)
      ensures View() == Marker(open, c, size, -1, false) && Idle()
    {
      mOpenMarker, mTokenCharacter, mSize := open, c, size;
      mMatch, mCannotMatch, mDisabled, mId := null, false, false, -1;
    }

    ghost function View(): Marker
      reads this
    {
      Marker(mOpenMarker, mTokenCharacter, mSize, if mMatch == null then -1 else mId, mDisabled)
    }

    ghost predicate Idle()
      reads this
    {
      mMatch == null && mId == -1 && mCannotMatch == mDisabled
    }

    predicate IsUnmatchedOpenMarker() reads this { mOpenMarker && mMatch == null && !mCannotMatch }

    predicate IsUnmatchedCloseMarker() reads this { !mOpenMarker && mMatch == null && !mCannotMatch }

    predicate IsMatchedOpenMarker() reads this { mOpenMarker && mMatch != null }

    predicate IsMatchedCloseMarker() reads this { !mOpenMarker && mMatch != null }

    method SetMatched(match_: BoldOrItalicMarker?, id: int)
      modifies this
      ensures mMatch == match_ && mId == id && mCannotMatch == old(mCannotMatch) && mDisabled == old(mDisabled)
    {
      mMatch := match_;
      mId := id;
    }

    method Disable()
      modifies this
      ensures mMatch == old(mMatch) && mId == old(mId) && mCannotMatch && mDisabled
    {
      mCannotMatch, mDisabled := true, true;
    }

    method WriteAsHtml() returns (out: string)
      requires mMatch != null ==> mId != -1 && (!mDisabled ==> 1 <= mSize <= 3)
      ensures out == Written(Tags(Mark(View())))
    {
      out := "";
      MarkerWrites(View());
      if !mDisabled {
        if mMatch != null {
          if mOpenMarker {
            out := if mSize == 1 then "<em>" else if mSize == 2 then "<strong>" else "<strong><em>";
          } else {
            out := if mSize == 1 then "</em>" else if mSize == 2 then "</strong>" else "</em></strong>";
          }
        } else {
          for i := 0 to mSize
            invariant out == Repeat(mTokenCharacter, i)
          {
            out := out + [mTokenCharacter];
          }
        }
      }
    }
  }

  /** The texts of the branches of `WriteAsHtml` are those of the marker's tags. */
  lemma MarkerWrites(m: Marker)
    requires !m.disabled && m.id != -1 ==> 1 <= m.size <= 3
    ensures Written(Tags(Mark(m))) ==
            if m.disabled then ""
            else if m.id == -1 then Repeat(m.ch, m.size)
            else if m.open then (if m.size == 1 then "<em>" else if m.size == 2 then "<strong>" else "<strong><em>")
            else (if m.size == 1 then "</em>" else if m.size == 2 then "</strong>" else "</em></strong>")
  {
    TagTexts();
    hide WrittenPiece, Written;
    EmptyWrites();
    var ps := Tags(Mark(m));
    if |ps| == 1 {
      WrittenOne(ps[0]);
    } else if |ps| == 2 {
      WrittenTwo(ps[0], ps[1]);
    }
  }

  lemma EmptyWrites()
    ensures Written([]) == ""
    ensures forall t :: WrittenPiece(Lit(t)) == t
  {
  }

  lemma TagTexts()
    ensures WrittenPiece(Open("em")) == "<em>" && WrittenPiece(Open("strong")) == "<strong>"
    ensures WrittenPiece(Close("em")) == "</em>" && WrittenPiece(Close("strong")) == "</strong>"
    ensures WrittenPiece(Open("strong")) + WrittenPiece(Open("em")) == "<strong><em>"
    ensures WrittenPiece(Close("em")) + WrittenPiece(Close("strong")) == "</em></strong>"
  {
  }

  datatype Token = RawText(text: string) | MarkerToken(m: BoldOrItalicMarker)

  ghost function Objects(tgt: seq<Token>): set<BoldOrItalicMarker> {
    set t | t in tgt && t.MarkerToken? :: t.m
  }

  ghost function NodeOf(t: Token): Node
    reads if t.MarkerToken? then {t.m} else {}
  {
    match t
    case RawText(s) => Text(s)
    case MarkerToken(m) => Mark(m.View())
  }

  ghost function View(tgt: seq<Token>): (v: seq<Node>)
    reads Objects(tgt)
    ensures |v| == |tgt|
  {
    seq(|tgt|, i requires 0 <= i < |tgt| reads Objects(tgt) => InList(tgt, i); NodeOf(tgt[i]))
  }

  lemma ViewAt(tgt: seq<Token>, i: nat)
    requires i < |tgt|
    ensures View(tgt)[i] == NodeOf(tgt[i])
  {
  }

  lemma InList(tgt: seq<Token>, i: nat)
    requires i < |tgt|
    ensures tgt[i].MarkerToken? ==> tgt[i].m in Objects(tgt)
  {
  }

  predicate Apart(t: Token, u: Token) {
    t.MarkerToken? && u.MarkerToken? ==> t.m != u.m
  }

  predicate Distinct(tgt: seq<Token>) {
    forall i, j :: 0 <= i < j < |tgt| ==> Apart(tgt[i], tgt[j])
  }

  /** Markers are not shared, and a match goes both ways. */
  ghost predicate Consistent(tgt: seq<Token>)
    reads Objects(tgt)
  {
    Distinct(tgt) && forall m :: m in Objects(tgt) ==> Coherent(m, Objects(tgt))
  }

  ghost predicate Coherent(m: BoldOrItalicMarker, all: set<BoldOrItalicMarker>)
    requires m in all
    reads all
  {
    && m.mCannotMatch == m.mDisabled
    && (m.mMatch == null <==> m.mId == -1)
    && (m.mMatch != null ==>
          m.mMatch in all && m.mMatch.mMatch == m && m.mMatch.mId == m.mId && m.mMatch.mOpenMarker != m.mOpenMarker)
  }

  function Spliced(tgt: seq<Token>, k: nat, first: BoldOrItalicMarker, second: BoldOrItalicMarker): seq<Token>
    requires k < |tgt|
  {
    tgt[..k + 1] + [MarkerToken(first), MarkerToken(second)] + tgt[k + 1..]
  }

  lemma SplicedIndex(tgt: seq<Token>, k: nat, first: BoldOrItalicMarker, second: BoldOrItalicMarker, j: nat)
    requires k < |tgt| && j < |tgt| + 2
    ensures var s := Spliced(tgt, k, first, second);
            && |s| == |tgt| + 2
            && (j <= k ==> s[j] == tgt[j])
            && (j == k + 1 ==> s[j] == MarkerToken(first))
            && (j == k + 2 ==> s[j] == MarkerToken(second))
            && (j > k + 2 ==> s[j] == tgt[j - 2])
  {
  }

  lemma SplicedObjects(tgt: seq<Token>, k: nat, first: BoldOrItalicMarker, second: BoldOrItalicMarker)
    requires k < |tgt|
    ensures Objects(Spliced(tgt, k, first, second)) == Objects(tgt) + {first, second}
  {
  }

  lemma SplicedDistinct(tgt: seq<Token>, k: nat, first: BoldOrItalicMarker, second: BoldOrItalicMarker)
    requires k < |tgt| && Distinct(tgt) && first != second && first !in Objects(tgt) && second !in Objects(tgt)
    ensures Distinct(Spliced(tgt, k, first, second))
  {
  }

  lemma SplicedConsistent(tgt: seq<Token>, k: nat, first: BoldOrItalicMarker, second: BoldOrItalicMarker)
    requires k < |tgt| && Consistent(tgt) && first != second && first !in Objects(tgt) && second !in Objects(tgt)
    requires first.Idle() && second.Idle()
    ensures Consistent(Spliced(tgt, k, first, second))
  {
    SplicedObjects(tgt, k, first, second);
    SplicedDistinct(tgt, k, first, second);
    var all := Objects(tgt) + {first, second};
    forall m | m in all ensures Coherent(m, all) {
      if m in Objects(tgt) {
        assert Coherent(m, Objects(tgt));
      }
    }
  }

  /** The view of a spliced list, when the marker at `k` of the list it had before, `was`, is disabled. */
  lemma SplicedView(tgt: seq<Token>, k: nat, n: nat, first: BoldOrItalicMarker, second: BoldOrItalicMarker,
                    was: seq<Node>)
    requires k < |tgt| && |was| == |tgt| && was[k].Mark? && n <= was[k].m.size
    requires View(tgt) == was[k := Disable(was[k])]
    requires first.View() == Fresh(was[k].m.open, was[k].m.ch, was[k].m.size - n).m
    requires second.View() == Fresh(was[k].m.open, was[k].m.ch, n).m
    ensures View(Spliced(tgt, k, first, second)) == Cut(was, k, n)
  {
    var s := Spliced(tgt, k, first, second);
    forall j | 0 <= j < |s| ensures View(s)[j] == Cut(was, k, n)[j] {
      SplicedIndex(tgt, k, first, second, j);
      CutIndex(was, k, n, j);
      ViewAt(s, j);
      if j <= k {
        ViewAt(tgt, j);
      } else if j > k + 2 {
        ViewAt(tgt, j - 2);
      }
    }
  }

  lemma SplicedInFull(tgt: seq<Token>, k: nat, n: nat, first: BoldOrItalicMarker, second: BoldOrItalicMarker,
                      was: seq<Node>)
    requires k < |tgt| && |was| == |tgt| && was[k].Mark? && n <= was[k].m.size
    requires Consistent(tgt) && View(tgt) == was[k := Disable(was[k])]
    requires first != second && first !in Objects(tgt) && second !in Objects(tgt) && first.Idle() && second.Idle()
    requires first.View() == Fresh(was[k].m.open, was[k].m.ch, was[k].m.size - n).m
    requires second.View() == Fresh(was[k].m.open, was[k].m.ch, n).m
    ensures var s := Spliced(tgt, k, first, second);
            Consistent(s) && View(s) == Cut(was, k, n) && Objects(s) == Objects(tgt) + {first, second}
  {
    SplicedConsistent(tgt, k, first, second);
    SplicedObjects(tgt, k, first, second);
    SplicedView(tgt, k, n, first, second, was);
  }

  /** The first half of a split. */
  method DisableAt(tgt: seq<Token>, k: nat)
    requires Consistent(tgt) && k < |tgt| && tgt[k].MarkerToken? && tgt[k].m.mMatch == null
    modifies Objects(tgt)
    ensures Consistent(tgt) && View(tgt) == old(View(tgt))[k := Disable(old(View(tgt))[k])]
  {
    InList(tgt, k);
    tgt[k].m.Disable();
    assert Consistent(tgt) by {
      forall x | x in Objects(tgt) ensures Coherent(x, Objects(tgt)) {
        assert old(Coherent(x, Objects(tgt)));
      }
    }
    forall j | 0 <= j < |tgt| ensures View(tgt)[j] == old(View(tgt))[k := Disable(old(View(tgt))[k])][j] {
      ViewAt(tgt, j);
      assert old(View(tgt)[j]) == old(NodeOf(tgt[j]));
      if j != k {
        DistinctFrom(tgt, k, j);
      }
    }
  }

  /** Lines 522-531 and 545-554: the marker gives way to two new ones after it in the list. */
  method SplitMarker(tgt: seq<Token>, k: nat, n: nat) returns (tgt': seq<Token>)
    requires Consistent(tgt) && k < |tgt| && tgt[k].MarkerToken? && tgt[k].m.mMatch == null && n <= tgt[k].m.mSize
    modifies Objects(tgt)
    ensures Consistent(tgt') && View(tgt') == Cut(old(View(tgt)), k, n)
    ensures fresh(Objects(tgt') - Objects(tgt)) && Objects(tgt) <= Objects(tgt')
  {
    ghost var was, olds := View(tgt), Objects(tgt);
    var m := tgt[k].m;
    ViewAt(tgt, k);
    DisableAt(tgt, k);
    var first := new BoldOrItalicMarker(m.mOpenMarker, m.mTokenCharacter, m.mSize - n);
    var second := new BoldOrItalicMarker(m.mOpenMarker, m.mTokenCharacter, n);
    assert first !in olds && second !in olds;
    assert Consistent(tgt) && View(tgt) == was[k := Disable(was[k])];
    SplicedInFull(tgt, k, n, first, second, was);
    tgt' := Spliced(tgt, k, first, second);
    assert View(tgt') == Cut(was, k, n);
    assert Objects(tgt') == olds + {first, second};
    assert Consistent(tgt');
  }

  lemma DistinctFrom(tgt: seq<Token>, k: nat, j: nat)
    requires Distinct(tgt) && k < |tgt| && j < |tgt| && j != k
    ensures Apart(tgt[k], tgt[j])
  {
  }

  /** Lines 538-540: the two markers are matched to each other. */
  method MatchMarkers(tgt: seq<Token>, i: nat, k: nat, id: nat)
    requires Consistent(tgt) && i < k < |tgt| && tgt[i].MarkerToken? && tgt[k].MarkerToken?
    requires tgt[i].m.mMatch == null && tgt[k].m.mMatch == null && tgt[i].m.mOpenMarker != tgt[k].m.mOpenMarker
    modifies Objects(tgt)
    ensures Consistent(tgt) && View(tgt) == Join(old(View(tgt)), i, k, id)
    ensures tgt[i].m.mMatch == tgt[k].m && tgt[k].m.mMatch == tgt[i].m
  {
    InList(tgt, i);
    InList(tgt, k);
    var openToken, closeToken := tgt[i].m, tgt[k].m;
    openToken.SetMatched(closeToken, id);
    closeToken.SetMatched(openToken, id);
    assert Consistent(tgt) by {
      forall x | x in Objects(tgt) ensures Coherent(x, Objects(tgt)) {
        assert old(Coherent(x, Objects(tgt)));
      }
    }
    forall j | 0 <= j < |tgt| ensures View(tgt)[j] == Join(old(View(tgt)), i, k, id)[j] {
      ViewAt(tgt, j);
      assert old(View(tgt)[j]) == old(NodeOf(tgt[j]));
      if j != i { DistinctFrom(tgt, i, j); }
      if j != k { DistinctFrom(tgt, k, j); }
    }
  }

  /** The tests of the inner loop on the markers are the verdict on their nodes. */
  lemma JudgeMarkers(tgt: seq<Token>, i: nat, k: nat)
    requires Consistent(tgt) && i < k < |tgt| && UnmatchedOpen(View(tgt)[i])
    ensures tgt[i].MarkerToken? && tgt[i].m.mMatch == null && tgt[i].m.mOpenMarker
    ensures View(tgt)[i].m.size == tgt[i].m.mSize
    ensures if tgt[k].MarkerToken? && tgt[k].m.IsUnmatchedCloseMarker() then
              var o, c := tgt[i].m, tgt[k].m;
              && View(tgt)[k].Mark? && View(tgt)[k].m.size == c.mSize
              && Judge(View(tgt), i, k) ==
                 (if c.mSize == 3 && o.mSize != 3 then CutClose
                  else if c.mTokenCharacter == o.mTokenCharacter && c.mSize == o.mSize then Take
                  else if o.mSize == 3 then (if c.mSize == 3 then Clash else CutOpen) else Skip)
            else Judge(View(tgt), i, k) == Skip
  {
    ViewAt(tgt, i);
    ViewAt(tgt, k);
    InList(tgt, i);
    InList(tgt, k);
    assert tgt[k].MarkerToken? ==> Coherent(tgt[k].m, Objects(tgt));
    assert Coherent(tgt[i].m, Objects(tgt));
  }

  ghost predicate Searching(tgt: seq<Token>, ii: nat, iii: nat, found: Search)
    reads Objects(tgt)
  {
    && ii < iii <= |tgt| && Consistent(tgt) && Sized(View(tgt)) && UnmatchedOpen(View(tgt)[ii])
    && Scan(View(tgt), ii, iii) == found
  }

  /** What each outcome of the tests says about the result of the search. */
  lemma SearchStep(tgt: seq<Token>, i: nat, k: nat, found: Search)
    requires Searching(tgt, i, k, found) && k < |tgt|
    ensures i < k && Consistent(tgt) && View(tgt)[i].Mark?
    ensures tgt[i].MarkerToken? && tgt[i].m.mMatch == null && tgt[i].m.mOpenMarker
    ensures if tgt[k].MarkerToken? && tgt[k].m.IsUnmatchedCloseMarker() then
              var o, c := tgt[i].m, tgt[k].m;
              if c.mSize == 3 && o.mSize != 3 then Judge(View(tgt), i, k) == CutClose
              else if c.mTokenCharacter == o.mTokenCharacter && c.mSize == o.mSize then found == Hit(View(tgt), k)
              else if o.mSize == 3 then
                found == Clashed ||
                (c.mSize <= o.mSize == View(tgt)[i].m.size && found == OpenSplit(Cut(View(tgt), i, c.mSize)))
              else Searching(tgt, i, k + 1, found)
            else Searching(tgt, i, k + 1, found)
  {
    JudgeMarkers(tgt, i, k);
  }

  lemma SearchBegins(tgt: seq<Token>, i: nat, found: Search)
    requires Consistent(tgt) && Sized(View(tgt)) && i < |tgt| && UnmatchedOpen(View(tgt)[i])
    requires found == Scan(View(tgt), i, i + 1)
    ensures Searching(tgt, i, i + 1, found)
  {
  }

  lemma SearchRoom(tgt: seq<Token>, i: nat, k: nat, found: Search)
    requires Searching(tgt, i, k, found)
    ensures i < k <= |tgt|
  {
  }

  lemma SearchEnd(tgt: seq<Token>, i: nat, id: nat, found: Search)
    requires Searching(tgt, i, |tgt|, found) && !found.Clashed?
    ensures Consistent(tgt) && Found(found, i, id, View(tgt), id)
  {
  }

  /** What the search leaves, in the words of the outer loop. */
  ghost predicate Found(r: Search, i: nat, id: nat, list: seq<Node>, id': nat)
    requires !r.Clashed?
    requires r.Hit? ==> i < r.k < |r.list| && r.list[i].Mark? && r.list[r.k].Mark?
  {
    if r.Hit? then list == Join(r.list, i, r.k, id) && id' == id + 1 else list == r.list && id' == id
  }

  method SplitCloser(tgt: seq<Token>, ii: nat, iii: nat, ghost found: Search) returns (tgt': seq<Token>)
    requires Searching(tgt, ii, iii, found) && iii < |tgt| && Judge(View(tgt), ii, iii) == CutClose
    modifies Objects(tgt)
    ensures fresh(Objects(tgt') - Objects(tgt))
    ensures Searching(tgt', ii, iii + 1, found) && Triples(View(tgt')) < Triples(old(View(tgt)))
  {
    ghost var v := View(tgt);
    JudgeMarkers(tgt, ii, iii);
    var n := tgt[ii].m.mSize;
    CutFacts(v, iii, n);
    CutIndex(v, iii, n, ii);
    tgt' := SplitMarker(tgt, iii, n);
  }

  /** The tests at one node of the inner loop (517-557), and what they lead to. */
  method TryPartner(tgt: seq<Token>, ii: nat, iii: nat, id: nat, ghost found: Search)
    returns (tgt': seq<Token>, id': nat, done: bool)
    requires Searching(tgt, ii, iii, found) && iii < |tgt| && !found.Clashed?
    modifies Objects(tgt)
    ensures fresh(Objects(tgt') - Objects(tgt))
    ensures done ==> Consistent(tgt') && Found(found, ii, id, View(tgt'), id')
    ensures !done ==> id' == id && Searching(tgt', ii, iii + 1, found)
    ensures !done ==> Triples(View(tgt')) < Triples(old(View(tgt))) ||
                      (Triples(View(tgt')) == Triples(old(View(tgt))) && |tgt'| == |tgt|)
  {
    hide Searching, Consistent, Objects, View, UnmatchedOpen, Sized, Scan, Cut, Join, Triples;
    SearchStep(tgt, ii, iii, found);
    tgt', id', done := tgt, id, false;
    if tgt[iii].MarkerToken? && tgt[iii].m.IsUnmatchedCloseMarker() {
      var openToken, closeToken := tgt[ii].m, tgt[iii].m;
      if closeToken.mSize == 3 && openToken.mSize != 3 {
        tgt' := SplitCloser(tgt, ii, iii, found);
      } else if closeToken.mTokenCharacter == openToken.mTokenCharacter && closeToken.mSize == openToken.mSize {
        MatchMarkers(tgt, ii, iii, id);
        id', done := id + 1, true;
      } else if openToken.mSize == 3 {
        tgt' := SplitMarker(tgt, ii, closeToken.mSize);
        done := true;
      }
    }
  }

  lemma NewObjects(now: set<BoldOrItalicMarker>, before: set<BoldOrItalicMarker>, first: set<BoldOrItalicMarker>)
    ensures now - first <= (now - before) + (before - first)
  {
  }

  /** The inner loop: look for a partner of the opening marker at `ii`. */
  method FindPartner(tgt0: seq<Token>, ii: nat, id: nat, ghost found: Search) returns (tgt: seq<Token>, id': nat)
    requires Searching(tgt0, ii, ii + 1, found) && !found.Clashed?
    modifies Objects(tgt0)
    ensures Consistent(tgt) && fresh(Objects(tgt) - Objects(tgt0))
    ensures Found(found, ii, id, View(tgt), id')
  {
    hide *;
    tgt, id' := tgt0, id;
    var iii := ii + 1;
    var done := false;
    SearchRoom(tgt, ii, iii, found);
    while iii < |tgt|
      invariant ii < iii <= |tgt| && Searching(tgt, ii, iii, found) && id' == id
      invariant fresh(Objects(tgt) - Objects(tgt0))
      decreases Triples(View(tgt)), |tgt| - iii
    {
      ghost var before := tgt;
      tgt, id', done := TryPartner(tgt, ii, iii, id, found);
      NewObjects(Objects(tgt), Objects(before), Objects(tgt0));
      if done { return; }
      SearchRoom(tgt, ii, iii + 1, found);
      iii := iii + 1;
    }
    SearchEnd(tgt, ii, id, found);
  }

  /** A turn at an opening marker: the search does not clash, and whatever list it leaves is
      paired to the same result. */
  lemma OpenTurn(list: seq<Node>, i: nat, id: nat, result: Pairing)
    requires i < |list| && Sized(list) && UnmatchedOpen(list[i]) && PairFrom(list, i, id) == result && result.Paired?
    ensures !Scan(list, i, i + 1).Clashed?
    ensures forall list', id' :: Found(Scan(list, i, i + 1), i, id, list', id') ==> Turned(list, list', i, id', result)
  {
  }

  predicate Turned(list: seq<Node>, list': seq<Node>, i: nat, id: nat, result: Pairing) {
    && i < |list'| && Sized(list') && PairFrom(list', i + 1, id) == result
    && (Triples(list') < Triples(list) || (Triples(list') == Triples(list) && |list'| == |list|))
  }

  lemma QuietTurn(list: seq<Node>, i: nat, id: nat, result: Pairing)
    requires i < |list| && Sized(list) && !UnmatchedOpen(list[i]) && PairFrom(list, i, id) == result
    ensures Turned(list, list, i, id, result)
  {
  }

  /** The outer loop (509-560). It ends, whatever it splices into the list, whenever the
      search never clashes. */
  method PairMarkers(tgt0: seq<Token>) returns (tgt: seq<Token>)
    requires Consistent(tgt0) && Sized(View(tgt0)) && Pair(View(tgt0)).Paired?
    modifies Objects(tgt0)
    ensures Consistent(tgt) && fresh(Objects(tgt) - Objects(tgt0))
    ensures Paired(View(tgt)) == Pair(old(View(tgt0)))
  {
    tgt := tgt0;
    ghost var result := PairFrom(View(tgt0), 0, 0);
    assert result == Pair(View(tgt0));
    var id: nat := 0;
    var ii := 0;
    hide Consistent, Objects, View, UnmatchedOpen, Sized, Scan, PairFrom, Triples, Found, Searching, Pair;
    while ii < |tgt|
      invariant ii <= |tgt| && Consistent(tgt) && Sized(View(tgt))
      invariant fresh(Objects(tgt) - Objects(tgt0))
      invariant PairFrom(View(tgt), ii, id) == result
      decreases Triples(View(tgt)), |tgt| - ii
    {
      ghost var before, list := tgt, View(tgt);
      var isOpen := IsOpen(tgt, ii);
      if isOpen {
        OpenTurn(list, ii, id, result);
        SearchBegins(tgt, ii, Scan(list, ii, ii + 1));
        tgt, id := FindPartner(tgt, ii, id, Scan(list, ii, ii + 1));
        NewObjects(Objects(tgt), Objects(before), Objects(tgt0));
      } else {
        QuietTurn(list, ii, id, result);
      }
      assert Turned(list, View(tgt), ii, id, result);
      ii := ii + 1;
    }
    PairEnds(View(tgt), id);
  }

  lemma PairEnds(list: seq<Node>, id: nat)
    requires Sized(list)
    ensures PairFrom(list, |list|, id) == Paired(list)
  {
  }

  method IsOpen(tgt: seq<Token>, i: nat) returns (b: bool)
    requires Consistent(tgt) && i < |tgt|
    ensures b == UnmatchedOpen(View(tgt)[i])
  {
    ViewAt(tgt, i);
    InList(tgt, i);
    assert tgt[i].MarkerToken? ==> Coherent(tgt[i].m, Objects(tgt));
    b := tgt[i].MarkerToken? && tgt[i].m.IsUnmatchedOpenMarker();
  }
}
