/** The explicit-stack parser as a machine over tokens, and the grammar it decides. */
module ConfigGrammar {
  import opened ConfigTree

  /** `top` is the frame of the innermost open block and `outer` the frames around it.
      A frame with a block open inside it, or still reading words, ends in a `Simple`
      statement that holds the words so far. */
  datatype ParserState = ParserState(outer: seq<seq<Statement>>, top: seq<Statement>, last: TokenType)

  const INITIAL := ParserState([], [], Start)

  datatype Outcome =
    | Accepted(tree: seq<Statement>)
    | Rejected(partial: seq<Statement>)

  predicate EndsOpen(f: seq<Statement>) {
    |f| > 0 && f[|f| - 1].Simple? && |f[|f| - 1].tokens| > 0
  }

  predicate Shaped(st: ParserState) {
    && (forall f :: f in st.outer ==> EndsOpen(f))
    && (st.last == Normal ==> EndsOpen(st.top))
    && st.last in {Start, Normal, StatementEnd, StartBlock, EndBlock}
  }

  /** Gives the open statement at the end of `f` its finished block. */
  function Attach(f: seq<Statement>, block: seq<Statement>): seq<Statement>
    requires |f| > 0
  {
    f[..|f| - 1] + [Nested(f[|f| - 1].tokens, block)]
  }

  function AddWord(f: seq<Statement>, w: string): seq<Statement>
    requires |f| > 0
  {
    f[..|f| - 1] + [Simple(f[|f| - 1].tokens + [w])]
  }

  /** What the node tree holds when the parser stops with these frames. */
  function Collapse(outer: seq<seq<Statement>>, top: seq<Statement>): seq<Statement>
    requires forall f :: f in outer ==> EndsOpen(f)
  {
    if outer == [] then top
    else
      assert EndsOpen(outer[|outer| - 1]);
      Collapse(outer[..|outer| - 1], Attach(outer[|outer| - 1], top))
  }

  /** Closing a block: its statements go to the open statement of the frame outside. */
  function Popped(st: ParserState): (next: ParserState)
    requires Shaped(st) && st.outer != []
    ensures Shaped(next)
  {
    var n := |st.outer| - 1;
    assert EndsOpen(st.outer[n]);
    ParserState(st.outer[..n], Attach(st.outer[n], st.top), EndBlock)
  }

  datatype Move = Go(next: ParserState) | Stop

  /** One turn of the parser loop for a token that is neither a comment nor the end. */
  function Step(st: ParserState, t: Token): (m: Move)
    requires Shaped(st)
    ensures m.Go? ==> Shaped(m.next)
  {
    match t.kind
    case Normal =>
      if st.last != Normal then Go(ParserState(st.outer, st.top + [Simple([t.text])], Normal))
      else Go(ParserState(st.outer, AddWord(st.top, t.text), Normal))
    case StatementEnd =>
      if st.last != Normal then Stop else Go(st.(last := StatementEnd))
    case StartBlock =>
      if st.last != Normal then Stop else Go(ParserState(st.outer + [st.top], [], StartBlock))
    case EndBlock =>
      if st.outer == [] then Stop
      else if st.last != StatementEnd && st.last != EndBlock then Stop
      else Go(Popped(st))
    case _ => Stop
  }

  function Run(st: ParserState, ts: seq<Token>): Outcome
    requires Shaped(st)
    decreases |ts|
  {
    if ts == [] then Rejected(Collapse(st.outer, st.top))
    else if ts[0].kind == Comment then Run(st, ts[1..])
    else if ts[0].kind == Eof then
      if (st.last == StatementEnd || st.last == EndBlock) && st.outer == []
      then Accepted(st.top)
      else Rejected(Collapse(st.outer, st.top))
    else
      match Step(st, ts[0])
      case Go(next) => Run(next, ts[1..])
      case Stop => Rejected(Collapse(st.outer, st.top))
  }

  function Parse(ts: seq<Token>): Outcome {
    Run(INITIAL, ts)
  }

  lemma {:induction false} RunSkipsComments(st: ParserState, ts: seq<Token>)
    requires Shaped(st)
    ensures Run(st, ts) == Run(st, Significant(ts))
    decreases |ts|
  {
    if ts == [] {
    } else if ts[0].kind == Comment {
      RunSkipsComments(st, ts[1..]);
    } else {
      assert Significant(ts)[1..] == Significant(ts[1..]);
      if ts[0].kind != Eof && Step(st, ts[0]).Go? {
        RunSkipsComments(Step(st, ts[0]).next, ts[1..]);
      }
    }
  }

  // ----- Completeness: every spelling of a proper tree is accepted, with that tree -----

  lemma RunOne(st: ParserState, t: Token, next: ParserState, rest: seq<Token>)
    requires Shaped(st) && t.kind != Comment && t.kind != Eof
    requires Step(st, t) == Go(next)
    ensures Run(st, [t] + rest) == Run(next, rest)
  {
  }

  lemma {:induction false} RunWords(st: ParserState, ws: seq<string>, rest: seq<Token>)
    requires Shaped(st) && st.last != Normal && |ws| > 0
    ensures Run(st, Words(ws) + rest) == Run(ParserState(st.outer, st.top + [Simple(ws)], Normal), rest)
    decreases |ws|
  {
    var ws', w := ws[..|ws| - 1], ws[|ws| - 1];
    var t := Token(Normal, w);
    var end := ParserState(st.outer, st.top + [Simple(ws)], Normal);
    assert ws == ws' + [w];
    assert Words(ws) + rest == Words(ws') + ([t] + rest);
    if ws' == [] {
      assert Words(ws) + rest == [t] + rest;
      assert ws == [w];
      RunOne(st, t, end, rest);
    } else {
      RunWords(st, ws', [t] + rest);
      var mid := ParserState(st.outer, st.top + [Simple(ws')], Normal);
      assert mid.top[..|mid.top| - 1] == st.top;
      RunOne(mid, t, end, rest);
    }
  }

  function After(s: Statement): TokenType {
    if s.Simple? then StatementEnd else EndBlock
  }

  lemma {:induction false} RunStatement(st: ParserState, s: Statement, rest: seq<Token>)
    requires Shaped(st) && st.last != Normal && ProperStatement(s)
    ensures Run(st, FlattenStatement(s) + rest) == Run(ParserState(st.outer, st.top + [s], After(s)), rest)
    decreases s, 1
  {
    hide Run, Words, Flatten;
    var mid := ParserState(st.outer, st.top + [Simple(s.tokens)], Normal);
    var end := ParserState(st.outer, st.top + [s], After(s));
    match s
    case Simple(ws) =>
      assert FlattenStatement(s) + rest == Words(ws) + ([SEMI] + rest);
      RunWords(st, ws, [SEMI] + rest);
      RunOne(mid, SEMI, end, rest);
    case Nested(ws, b) =>
      var tail := Flatten(b) + ([CLOSE] + rest);
      assert FlattenStatement(s) + rest == Words(ws) + ([OPEN] + tail);
      RunWords(st, ws, [OPEN] + tail);
      var inner := ParserState(st.outer + [mid.top], [], StartBlock);
      RunOne(mid, OPEN, inner, tail);
      RunBlock(inner, b, [CLOSE] + rest);
      assert [] + b == b;
      var full := ParserState(inner.outer, b, After(b[|b| - 1]));
      assert inner.outer[..|st.outer|] == st.outer;
      assert mid.top[..|st.top|] == st.top;
      RunOne(full, CLOSE, end, rest);
  }

  lemma {:induction false} RunBlock(st: ParserState, ss: seq<Statement>, rest: seq<Token>)
    requires Shaped(st) && st.last != Normal && Proper(ss) && |ss| > 0
    ensures Run(st, Flatten(ss) + rest) == Run(ParserState(st.outer, st.top + ss, After(ss[|ss| - 1])), rest)
    decreases ss, 0
  {
    var ss', s := ss[..|ss| - 1], ss[|ss| - 1];
    assert Flatten(ss) + rest == Flatten(ss') + (FlattenStatement(s) + rest);
    if ss' == [] {
      assert Flatten(ss) + rest == FlattenStatement(s) + rest;
      assert ss == [s];
      RunStatement(st, s, rest);
    } else {
      RunBlock(st, ss', FlattenStatement(s) + rest);
      var mid := ParserState(st.outer, st.top + ss', After(ss'[|ss'| - 1]));
      RunStatement(mid, s, rest);
      assert mid.top + [s] == st.top + ss;
    }
  }

  // ----- Soundness: the tokens consumed are the spelling of the frames -----

  /** The spelling of a frame whose last statement is still open. */
  function OpenTrail(f: seq<Statement>): seq<Token>
    requires |f| > 0
  {
    Flatten(f[..|f| - 1]) + Words(f[|f| - 1].tokens)
  }

  function OuterTrail(fs: seq<seq<Statement>>): seq<Token>
    requires forall f :: f in fs ==> |f| > 0
  {
    if fs == [] then []
    else
      assert fs[|fs| - 1] in fs;
      OuterTrail(fs[..|fs| - 1]) + OpenTrail(fs[|fs| - 1]) + [OPEN]
  }

  function TopTrail(top: seq<Statement>, last: TokenType): seq<Token>
    requires last == Normal ==> |top| > 0
  {
    if last == Normal then OpenTrail(top) else Flatten(top)
  }

  function Trail(st: ParserState): seq<Token>
    requires Shaped(st)
  {
    OuterTrail(st.outer) + TopTrail(st.top, st.last)
  }

  ghost predicate ProperOpen(f: seq<Statement>) {
    EndsOpen(f) && Proper(f[..|f| - 1])
  }

  /** Every finished statement is proper, and a frame about to be closed has one. */
  ghost predicate Clean(st: ParserState) {
    && Shaped(st)
    && (forall f :: f in st.outer ==> ProperOpen(f))
    && (if st.last == Normal then ProperOpen(st.top) else Proper(st.top))
    && (st.last in {StatementEnd, EndBlock} ==> |st.top| > 0)
  }

  lemma OuterTrailAppend(fs: seq<seq<Statement>>, f: seq<Statement>)
    requires forall g :: g in fs + [f] ==> |g| > 0
    ensures OuterTrail(fs + [f]) == OuterTrail(fs) + OpenTrail(f) + [OPEN]
  {
  }

  lemma TrailOfAddWord(f: seq<Statement>, w: string)
    requires |f| > 0
    ensures OpenTrail(AddWord(f, w)) == OpenTrail(f) + [Token(Normal, w)]
  {
  }

  lemma TrailOfNewWord(f: seq<Statement>, w: string)
    ensures OpenTrail(f + [Simple([w])]) == Flatten(f) + [Token(Normal, w)]
  {
    var g := f + [Simple([w])];
    assert g[..|g| - 1] == f;
    WordsAppend([], w);
    assert [] + [w] == [w];
  }

  lemma TrailOfSemi(f: seq<Statement>)
    requires EndsOpen(f)
    ensures Flatten(f) == OpenTrail(f) + [SEMI]
  {
  }

  lemma TrailOfAttach(f: seq<Statement>, b: seq<Statement>)
    requires |f| > 0
    ensures Flatten(Attach(f, b)) == OpenTrail(f) + [OPEN] + Flatten(b) + [CLOSE]
  {
  }

  lemma TrailOfBlockStart(st: ParserState)
    requires Shaped(st) && st.last == Normal
    ensures Trail(Step(st, OPEN).next) == Trail(st) + [OPEN]
  {
  }

  lemma TrailOfBlockEnd(st: ParserState)
    requires Shaped(st) && Step(st, CLOSE).Go?
    ensures Trail(Step(st, CLOSE).next) == Trail(st) + [CLOSE]
  {
    var n := |st.outer| - 1;
    var fs, f := st.outer[..n], st.outer[n];
    assert EndsOpen(f);
    assert st.outer == fs + [f];
    TrailOfAttach(f, st.top);
    OuterTrailAppend(fs, f);
    assert Trail(Popped(st)) == OuterTrail(fs) + Flatten(Attach(f, st.top));
    hide OuterTrail, OpenTrail, Flatten, Attach;
    FourInTurn(OuterTrail(fs), OpenTrail(f), [OPEN], Flatten(st.top), [CLOSE]);
  }

  lemma FourInTurn(x: seq<Token>, a: seq<Token>, b: seq<Token>, c: seq<Token>, d: seq<Token>)
    ensures x + (((a + b) + c) + d) == (((x + a) + b) + c) + d
  {
  }

  /** Each accepted token extends the spelling by exactly itself. */
  lemma StepExtendsTrail(st: ParserState, t: Token)
    requires Shaped(st) && Step(st, t).Go? && Plain(t)
    ensures Trail(Step(st, t).next) == Trail(st) + [t]
  {
    match t.kind
    case Normal =>
      if st.last == Normal {
        TrailOfAddWord(st.top, t.text);
      } else {
        TrailOfNewWord(st.top, t.text);
      }
    case StatementEnd =>
      TrailOfSemi(st.top);
    case StartBlock =>
      TrailOfBlockStart(st);
    case EndBlock =>
      TrailOfBlockEnd(st);
    case _ =>
  }

  lemma WordKeepsClean(st: ParserState, t: Token)
    requires Clean(st) && t.kind == Normal
    ensures Step(st, t).Go? && Clean(Step(st, t).next)
  {
  }

  lemma CloseKeepsClean(st: ParserState)
    requires Clean(st) && Step(st, CLOSE).Go?
    ensures Clean(Popped(st))
  {
    assert ProperOpen(st.outer[|st.outer| - 1]);
  }

  lemma StepKeepsClean(st: ParserState, t: Token)
    requires Clean(st) && Step(st, t).Go?
    ensures Clean(Step(st, t).next)
  {
    match t.kind
    case Normal => WordKeepsClean(st, t);
    case StatementEnd =>
    case StartBlock =>
    case EndBlock => CloseKeepsClean(st);
    case _ =>
  }

  lemma {:induction false} RunIsSound(st: ParserState, ts: seq<Token>)
    requires Clean(st) && Stream(ts) && Run(st, ts).Accepted?
    ensures var tree := Run(st, ts).tree;
            && Proper(tree) && |tree| > 0
            && Trail(st) + Significant(ts) == Flatten(tree) + [EOF]
    decreases |ts|
  {
    hide Trail, Proper, Flatten, Significant, Step;
    if |ts| == 1 {
      RunEndsSound(st, ts);
    } else if ts[0].kind == Comment {
      SignificantFirst(ts);
      RunIsSound(st, ts[1..]);
    } else {
      var next := Step(st, ts[0]).next;
      StepKeepsClean(st, ts[0]);
      StepExtendsTrail(st, ts[0]);
      SignificantFirst(ts);
      RunIsSound(next, ts[1..]);
      TokenMoves(Trail(st), ts[0], Significant(ts[1..]));
    }
  }

  lemma RunEndsSound(st: ParserState, ts: seq<Token>)
    requires Clean(st) && Stream(ts) && |ts| == 1 && Run(st, ts).Accepted?
    ensures var tree := Run(st, ts).tree;
            && Proper(tree) && |tree| > 0
            && Trail(st) + Significant(ts) == Flatten(tree) + [EOF]
  {
    assert OuterTrail([]) == [];
    assert Significant(ts) == [EOF] by { assert ts[1..] == []; }
  }

  lemma SignificantFirst(ts: seq<Token>)
    requires ts != []
    ensures Significant(ts) == (if ts[0].kind == Comment then [] else [ts[0]]) + Significant(ts[1..])
  {
  }

  lemma TokenMoves(a: seq<Token>, t: Token, b: seq<Token>)
    ensures (a + [t]) + b == a + ([t] + b)
  {
  }

  /** The parser accepts a token stream, and builds a tree from it, exactly when the
      comment-free stream spells that tree, one or more proper statements, and ends. */
  lemma ParserDecidesGrammar(ts: seq<Token>, tree: seq<Statement>)
    requires Stream(ts)
    ensures Parse(ts) == Accepted(tree) <==>
            |tree| > 0 && Proper(tree) && Significant(ts) == Flatten(tree) + [EOF]
  {
    if Parse(ts) == Accepted(tree) {
      RunIsSound(INITIAL, ts);
      assert Trail(INITIAL) == [];
    }
    if |tree| > 0 && Proper(tree) && Significant(ts) == Flatten(tree) + [EOF] {
      RunSkipsComments(INITIAL, ts);
      SpelledRuns(tree);
    }
  }

  lemma {:induction false} SpelledRuns(tree: seq<Statement>)
    requires Proper(tree) && |tree| > 0
    ensures Run(INITIAL, Flatten(tree) + [EOF]) == Accepted(tree)
  {
    RunBlock(INITIAL, tree, [EOF]);
    assert [] + tree == tree;
  }

  /** The grammar is unambiguous: a token sequence spells at most one proper tree. */
  lemma SpellingIsUnambiguous(a: seq<Statement>, b: seq<Statement>)
    requires Proper(a) && Proper(b) && Flatten(a) == Flatten(b)
    ensures a == b
  {
    hide *;
    if a != [] && b != [] {
      SpelledRuns(a);
      SpelledRuns(b);
    } else if a != [] {
      NonEmptySpelling(a);
    } else if b != [] {
      NonEmptySpelling(b);
    }
  }

  lemma NonEmptySpelling(a: seq<Statement>)
    requires a != []
    ensures Flatten(a) != [] && Flatten([]) == []
  {
  }
}
