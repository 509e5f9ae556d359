/** Un-matching crossed pairs, and the tags that come out. */
module EmphasisNesting {
  import opened Emphasis
  import opened EmphasisPairing

  /** The pair (o, c) is closed while a pair that opened inside it is still open. */
  ghost predicate Crossed(list: seq<Node>, o: int, c: int) {
    exists p, d :: Mates(list, p, d) && o < p < c < d
  }

  ghost predicate Nested(list: seq<Node>) {
    forall o, c :: Mates(list, o, c) ==> !Crossed(list, o, c)
  }

  /** Node `i` belongs to a pair that has to go. */
  ghost predicate Dropped(list: seq<Node>, i: int) {
    exists o, c :: Mates(list, o, c) && (i == o || i == c) && Crossed(list, o, c)
  }

  function Unmatch(n: Node): Node
    requires n.Mark?
  {
    Mark(n.m.(id := -1))
  }

  ghost function UncrossAt(list: seq<Node>, i: nat): Node
    requires i < |list|
  {
    if Dropped(list, i) then Unmatch(list[i]) else list[i]
  }

  /** The list without the matches of crossed pairs. */
  ghost function Uncross(list: seq<Node>): (r: seq<Node>)
    ensures |r| == |list|
    ensures forall i :: 0 <= i < |list| ==> r[i] == UncrossAt(list, i)
  {
    seq(|list|, i requires 0 <= i < |list| => UncrossAt(list, i))
  }

  lemma SameSideUnique(list: seq<Node>, x: int, y: int)
    requires IsWellPaired(list) && 0 <= x < |list| && 0 <= y < |list|
    requires Matched(list[x]) && Matched(list[y])
    requires list[x].m.id == list[y].m.id && list[x].m.open == list[y].m.open
    ensures x == y
  {
  }

  lemma MatesUnique(list: seq<Node>, o: int, c: int, p: int, d: int)
    requires IsWellPaired(list) && Mates(list, o, c) && Mates(list, p, d)
    requires o == p || o == d || c == p || c == d
    ensures o == p && c == d
  {
  }

  /** The pairs left after un-matching are the ones that were not crossed. */
  lemma UncrossMates(list: seq<Node>, o: int, c: int)
    requires IsWellPaired(list)
    ensures Mates(Uncross(list), o, c) <==> Mates(list, o, c) && !Crossed(list, o, c)
  {
  }

  /** What is left is properly nested, and nothing is lost that was already nested. */
  lemma {:induction false} UncrossNests(list: seq<Node>)
    requires IsWellPaired(list)
    ensures IsWellPaired(Uncross(list)) && Nested(Uncross(list))
    ensures SamePlain(Uncross(list), list)
    ensures Uncross(list) == list <==> Nested(list)
  {
    var r := Uncross(list);
    forall o, c | Mates(r, o, c) ensures !Crossed(r, o, c) {
      UncrossMates(list, o, c);
      if Crossed(r, o, c) {
        var p, d :| Mates(r, p, d) && o < p < c < d;
        UncrossMates(list, p, d);
        assert Crossed(list, o, c);
      }
    }
    UncrossIsWellPaired(list);
    forall t | 0 <= t < |r| ensures ShowAlike(r, list, 0, t) {
    }
    PlainAlike(r, 0, |r|, list, 0, |list|, 0);
    if Nested(list) {
      forall i | 0 <= i < |list| ensures r[i] == list[i] {
      }
      assert r == list;
    }
  }

  lemma UncrossIsWellPaired(list: seq<Node>)
    requires IsWellPaired(list)
    ensures IsWellPaired(Uncross(list))
  {
    var r := Uncross(list);
    var next: nat :| WellPaired(list, next);
    forall i | 0 <= i < |r| && Matched(r[i]) ensures HasMate(r, i) {
      assert HasMate(list, i);
      var j :| Mates(list, i, j) || Mates(list, j, i);
      var o, c := if i < j then i else j, if i < j then j else i;
      assert !Crossed(list, o, c) by {
        assert Crossed(list, o, c) ==> Dropped(list, i);
      }
      UncrossMates(list, o, c);
    }
    forall i, j | 0 <= i < j < |r| && Matched(r[i]) && Matched(r[j]) && r[i].m.id == r[j].m.id
      ensures Mates(r, i, j)
    {
      assert Mates(list, i, j);
    }
    assert WellPaired(r, next);
  }

  // ----- Tags -----

  datatype Piece = Lit(text: string) | Open(name: string) | Close(name: string)

  function Tags(n: Node): seq<Piece> {
    match n
    case Text(t) => [Lit(t)]
    case Mark(m) =>
      if m.disabled then []
      else if m.id == -1 then [Lit(Repeat(m.ch, m.size))]
      else if m.open then
        (if m.size == 1 then [Open("em")] else if m.size == 2 then [Open("strong")]
         else [Open("strong"), Open("em")])
      else
        (if m.size == 1 then [Close("em")] else if m.size == 2 then [Close("strong")]
         else [Close("em"), Close("strong")])
  }

  function Written(ps: seq<Piece>): string {
    if ps == [] then "" else Written(ps[..|ps| - 1]) + WrittenPiece(ps[|ps| - 1])
  }

  function WrittenPiece(p: Piece): string {
    match p
    case Lit(t) => t
    case Open(name) => "<" + name + ">"
    case Close(name) => "</" + name + ">"
  }

  lemma WrittenOne(p: Piece)
    ensures Written([p]) == WrittenPiece(p)
  {
  }

  lemma WrittenTwo(p: Piece, q: Piece)
    ensures Written([p, q]) == WrittenPiece(p) + WrittenPiece(q)
  {
    assert [p, q][..1] == [p];
    WrittenOne(p);
  }

  function TagsUpTo(list: seq<Node>, n: nat): seq<Piece>
    requires n <= |list|
  {
    if n == 0 then [] else TagsUpTo(list, n - 1) + Tags(list[n - 1])
  }

  datatype Stack = Empty | Push(name: string, below: Stack) | Broken

  /** Reading tags with a stack of the elements that are open. */
  function Read(s: Stack, p: Piece): Stack {
    match p
    case Lit(_) => s
    case Open(name) => if s == Broken then Broken else Push(name, s)
    case Close(name) => if s.Push? && s.name == name then s.below else Broken
  }

  function ReadAll(s: Stack, ps: seq<Piece>): Stack {
    if ps == [] then s else Read(ReadAll(s, ps[..|ps| - 1]), ps[|ps| - 1])
  }

  lemma {:induction false} ReadAllConcat(s: Stack, a: seq<Piece>, b: seq<Piece>)
    ensures ReadAll(s, a + b) == ReadAll(ReadAll(s, a), b)
    decreases |b|
  {
    if b == [] {
      assert a + b == a;
    } else {
      assert (a + b)[..|a + b| - 1] == a + b[..|b| - 1];
      ReadAllConcat(s, a, b[..|b| - 1]);
    }
  }

  function Enter(m: Marker, s: Stack): Stack {
    if m.size == 1 then Push("em", s) else if m.size == 2 then Push("strong", s) else Push("em", Push("strong", s))
  }

  /** The opening markers before `n` whose partner is at `n` or later, outermost first. */
  ghost predicate StillOpen(list: seq<Node>, n: nat, opens: seq<int>) {
    && (forall x, y :: 0 <= x < y < |opens| ==> opens[x] < opens[y])
    && (forall o :: o in opens <==> IsOpenAt(list, n, o))
  }

  ghost predicate IsOpenAt(list: seq<Node>, n: nat, o: int) {
    o < n && exists c :: Mates(list, o, c) && n <= c
  }

  predicate MarksAt(list: seq<Node>, opens: seq<int>) {
    forall x :: 0 <= x < |opens| ==> 0 <= opens[x] < |list| && list[opens[x]].Mark?
  }

  function Entered(list: seq<Node>, opens: seq<int>): (s: Stack)
    requires MarksAt(list, opens)
    ensures s != Broken
  {
    if opens == [] then Empty
    else Enter(list[opens[|opens| - 1]].m, Entered(list, opens[..|opens| - 1]))
  }

  lemma EnteredAppend(list: seq<Node>, opens: seq<int>, o: int)
    requires MarksAt(list, opens) && 0 <= o < |list| && list[o].Mark?
    ensures MarksAt(list, opens + [o]) && Entered(list, opens + [o]) == Enter(list[o].m, Entered(list, opens))
  {
  }

  lemma {:induction false} OpensGrow(list: seq<Node>, n: nat, opens: seq<int>, c: int)
    requires IsWellPaired(list) && StillOpen(list, n, opens) && Mates(list, n, c)
    ensures StillOpen(list, n + 1, opens + [n])
  {
    forall o ensures o in opens + [n] <==> IsOpenAt(list, n + 1, o) {
      if o in opens {
        assert IsOpenAt(list, n, o);
        var d :| Mates(list, o, d) && n <= d;
        if d == n { MatesUnique(list, o, d, n, c); }
      }
      if o == n {
        assert IsOpenAt(list, n + 1, n);
      }
    }
    forall x | 0 <= x < |opens| ensures opens[x] < n {
      assert opens[x] in opens;
      assert IsOpenAt(list, n, opens[x]);
    }
  }

  /** In a nested list the partner of a closing marker is the innermost open one. */
  lemma {:induction false} InnermostCloses(list: seq<Node>, n: nat, opens: seq<int>, o: int)
    requires IsWellPaired(list) && Nested(list) && StillOpen(list, n, opens) && Mates(list, o, n)
    ensures |opens| > 0 && opens[|opens| - 1] == o
  {
    assert IsOpenAt(list, n, o);
    assert o in opens;
    var x :| 0 <= x < |opens| && opens[x] == o;
    var top := opens[|opens| - 1];
    assert top in opens;
    assert IsOpenAt(list, n, top);
    if top != o {
      assert o < top;
      var d :| Mates(list, top, d) && n <= d;
      if d == n { MatesUnique(list, top, d, o, n); }
      assert false;
    }
  }

  lemma {:induction false} OpensShrink(list: seq<Node>, n: nat, opens: seq<int>, o: int)
    requires IsWellPaired(list) && Nested(list) && StillOpen(list, n, opens) && Mates(list, o, n)
    ensures |opens| > 0 && opens[|opens| - 1] == o && StillOpen(list, n + 1, opens[..|opens| - 1])
  {
    InnermostCloses(list, n, opens, o);
    var rest := opens[..|opens| - 1];
    forall p ensures p in rest <==> IsOpenAt(list, n + 1, p) {
      if p in rest {
        assert p in opens && p != o;
        var d :| Mates(list, p, d) && n <= d;
        if d == n { MatesUnique(list, p, d, o, n); }
      }
      if IsOpenAt(list, n + 1, p) {
        var d :| Mates(list, p, d) && n + 1 <= d;
        if p == n { MatesUnique(list, p, d, o, n); }
        assert IsOpenAt(list, n, p);
        assert p in opens;
        if p == o { MatesUnique(list, p, d, o, n); }
        var x :| 0 <= x < |opens| && opens[x] == p;
        assert x < |opens| - 1;
        assert rest[x] == p;
      }
    }
  }

  lemma OpensStay(list: seq<Node>, n: nat, opens: seq<int>)
    requires n < |list| && !Matched(list[n]) && StillOpen(list, n, opens)
    ensures StillOpen(list, n + 1, opens)
  {
  }

  ghost predicate ReadSoFar(list: seq<Node>, n: nat, opens: seq<int>)
    requires n <= |list|
  {
    StillOpen(list, n, opens) && MarksAt(list, opens) &&
    ReadAll(Empty, TagsUpTo(list, n)) == Entered(list, opens)
  }

  lemma ReadOpening(list: seq<Node>, n: nat, opens: seq<int>, c: int)
    requires n < |list| && Sized(list) && IsWellPaired(list)
    requires ReadSoFar(list, n, opens) && Mates(list, n, c) && !list[n].m.disabled
    ensures ReadSoFar(list, n + 1, opens + [n])
  {
    ReadAllConcat(Empty, TagsUpTo(list, n), Tags(list[n]));
    MatchedReads(list[n], Entered(list, opens));
    OpensGrow(list, n, opens, c);
    EnteredAppend(list, opens, n);
  }

  lemma {:induction false} ReadClosing(list: seq<Node>, n: nat, opens: seq<int>, o: int)
    requires n < |list| && Sized(list) && IsWellPaired(list) && Nested(list)
    requires ReadSoFar(list, n, opens) && Mates(list, o, n) && !list[n].m.disabled
    ensures |opens| > 0 && ReadSoFar(list, n + 1, opens[..|opens| - 1])
  {
    ReadAllConcat(Empty, TagsUpTo(list, n), Tags(list[n]));
    MatchedReads(list[n], Entered(list, opens));
    OpensShrink(list, n, opens, o);
    LeaveEntered(list[o].m, list[n].m, Entered(list, opens[..|opens| - 1]));
  }

  lemma ReadUnmatched(list: seq<Node>, n: nat, opens: seq<int>)
    requires n < |list| && ReadSoFar(list, n, opens) && !Matched(list[n])
    ensures ReadSoFar(list, n + 1, opens)
  {
    ReadAllConcat(Empty, TagsUpTo(list, n), Tags(list[n]));
    UnmatchedReads(list[n], Entered(list, opens));
    OpensStay(list, n, opens);
  }

  lemma MatchedHasMate(list: seq<Node>, n: nat) returns (j: int)
    requires IsWellPaired(list) && n < |list| && Matched(list[n])
    ensures (Mates(list, n, j) || Mates(list, j, n)) && !list[n].m.disabled
  {
    var next: nat :| WellPaired(list, next);
    assert HasMate(list, n);
    j :| Mates(list, n, j) || Mates(list, j, n);
  }

  lemma {:induction false} TagsAreRead(list: seq<Node>, n: nat) returns (opens: seq<int>)
    requires n <= |list| && Sized(list) && IsWellPaired(list) && Nested(list)
    ensures ReadSoFar(list, n, opens)
  {
    hide *;
    if n == 0 {
      opens := [];
      NothingRead(list);
    } else {
      opens := TagsAreRead(list, n - 1);
      if !Matched(list[n - 1]) {
        ReadUnmatched(list, n - 1, opens);
      } else {
        var j := MatchedHasMate(list, n - 1);
        if Mates(list, n - 1, j) {
          ReadOpening(list, n - 1, opens, j);
          opens := opens + [n - 1];
        } else {
          ReadClosing(list, n - 1, opens, j);
          opens := opens[..|opens| - 1];
        }
      }
    }
  }

  lemma NothingRead(list: seq<Node>)
    ensures ReadSoFar(list, 0, [])
  {
  }

  lemma UnmatchedReads(n: Node, s: Stack)
    requires !Matched(n)
    ensures ReadAll(s, Tags(n)) == s
  {
  }

  lemma MatchedReads(n: Node, s: Stack)
    requires Matched(n) && !n.m.disabled && 1 <= n.m.size <= 3
    ensures n.m.open && s != Broken ==> ReadAll(s, Tags(n)) == Enter(n.m, s)
    ensures !n.m.open ==> ReadAll(s, Tags(n)) == Leave(n.m, s)
  {
    var ts := Tags(n);
    if |ts| == 1 {
      ReadOne(s, ts[0]);
    } else {
      assert ts == [ts[0]] + [ts[1]];
      ReadAllConcat(s, [ts[0]], [ts[1]]);
      ReadOne(s, ts[0]);
      ReadOne(Read(s, ts[0]), ts[1]);
    }
  }

  lemma ReadOne(s: Stack, p: Piece)
    ensures ReadAll(s, [p]) == Read(s, p)
  {
  }

  function Leave(m: Marker, s: Stack): Stack {
    if m.size == 1 then Read(s, Close("em"))
    else if m.size == 2 then Read(s, Close("strong"))
    else Read(Read(s, Close("em")), Close("strong"))
  }

  lemma LeaveEntered(o: Marker, c: Marker, s: Stack)
    requires o.size == c.size
    ensures Leave(c, Enter(o, s)) == s
  {
  }

  /** The emitted tags are balanced: every closing tag closes the innermost open element,
      and at the end no element is open. */
  lemma {:induction false} TagsBalance(list: seq<Node>)
    requires Sized(list) && IsWellPaired(list) && Nested(list)
    ensures ReadAll(Empty, TagsUpTo(list, |list|)) == Empty
  {
    var opens := TagsAreRead(list, |list|);
    assert forall x :: 0 <= x < |opens| ==> opens[x] in opens;
    assert forall o :: !IsOpenAt(list, |list|, o);
    assert opens == [];
  }
}
