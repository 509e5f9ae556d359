/** The language of configuration files, and printing and parsing as inverses. */
module ConfigRoundTrip {
  import opened ConfigTree
  import opened ConfigGrammar
  import opened ConfigLexer

  function ParseText(s: string): Outcome {
    Parse(Tokens(s))
  }

  ghost predicate AllLexable(ts: seq<Token>) {
    forall t :: t in ts ==> Lexable(t)
  }

  /** What a tree needs for its printed form to be read back: statements, with words
      that the scanner can return. */
  ghost predicate Printable(tree: seq<Statement>) {
    |tree| > 0 && Proper(tree) && AllLexable(Flatten(tree))
  }

  /** Reading `s` yields the tokens `ts` and goes on as reading `rest` does. */
  ghost predicate Reads(s: string, ts: seq<Token>, rest: string) {
    Significant(Tokens(s)) == ts + Significant(Tokens(rest))
  }

  lemma ReadsInTurn(s: string, a: seq<Token>, m: string, b: seq<Token>, rest: string)
    requires Reads(s, a, m) && Reads(m, b, rest)
    ensures Reads(s, a + b, rest)
  {
  }

  lemma TokenReads(t: Token, s: string)
    requires Lexable(t)
    requires t.kind == Normal && BareWord(t.text) ==> Delimited(s)
    ensures Reads(t.text + s, [t], s)
  {
    TokenRead(t, s);
    assert ([t] + Tokens(s))[1..] == Tokens(s);
  }

  lemma GapReads(g: string, s: string)
    requires IsGap(g)
    ensures Reads(g + s, [], s)
  {
    GapSkipped(g, s);
  }

  lemma {:induction false} IndentIsGap(depth: nat)
    ensures IsGap(Indent(depth))
  {
    if depth > 0 {
      IndentIsGap(depth - 1);
      IndentTurns(depth - 1);
      BlanksThenGap("  ", Indent(depth - 1));
    }
  }

  lemma {:induction false} IndentTurns(depth: nat)
    ensures Indent(depth) + "  " == "  " + Indent(depth)
  {
    if depth > 0 {
      IndentTurns(depth - 1);
      assert "  " + Indent(depth) == "  " + Indent(depth - 1) + "  ";
    }
  }

  /** A token and the gap printed after it. */
  lemma TokenThenGapReads(t: Token, g: string, s: string)
    requires Lexable(t) && IsGap(g) && g != ""
    requires t.kind == Normal && BareWord(t.text) ==> EndsWord(g[0])
    ensures Reads(t.text + (g + s), [t], s)
  {
    TokenReads(t, g + s);
    GapReads(g, s);
    ReadsInTurn(t.text + (g + s), [t], g + s, [], s);
    assert [t] + [] == [t];
  }

  lemma JoinedStep(ws: seq<string>, s: string)
    requires |ws| > 1
    ensures Joined(ws) + s == Joined(ws[..|ws| - 1]) + (" " + (ws[|ws| - 1] + s))
  {
  }

  ghost predicate LexableWords(ws: seq<string>) {
    forall w :: w in ws ==> Lexable(Token(Normal, w))
  }

  lemma {:induction false} WordIsToken(ws: seq<string>, w: string)
    requires w in ws
    ensures Token(Normal, w) in Words(ws)
    decreases |ws|
  {
    if w != ws[|ws| - 1] {
      WordIsToken(ws[..|ws| - 1], w);
    }
  }

  lemma {:induction false} JoinedReads(ws: seq<string>, s: string)
    requires Delimited(s) && |ws| > 0 && LexableWords(ws)
    ensures Reads(Joined(ws) + s, Words(ws), s)
    decreases |ws|
  {
    hide Reads;
    var ws', w := ws[..|ws| - 1], ws[|ws| - 1];
    var t := Token(Normal, w);
    assert Words(ws) == Words(ws') + [t];
    assert w in ws;
    TokenReads(t, s);
    if |ws| > 1 {
      JoinedStep(ws, s);
      JoinedReads(ws', " " + (w + s));
      GapReads(" ", w + s);
      ReadsInTurn(Joined(ws) + s, Words(ws'), " " + (w + s), [], w + s);
      assert Words(ws') + [] == Words(ws');
      ReadsInTurn(Joined(ws) + s, Words(ws'), w + s, [t], s);
    } else {
      assert ws' == [] && Words(ws) == [t];
    }
  }

  /** The indentation and the words that begin a statement. */
  lemma {:induction false} HeadReads(ws: seq<string>, depth: nat, s: string)
    requires Delimited(s) && |ws| > 0 && LexableWords(ws)
    ensures Reads(Indent(depth) + (Joined(ws) + s), Words(ws), s)
  {
    IndentIsGap(depth);
    GapReads(Indent(depth), Joined(ws) + s);
    JoinedReads(ws, s);
    ReadsInTurn(Indent(depth) + (Joined(ws) + s), [], Joined(ws) + s, Words(ws), s);
    assert [] + Words(ws) == Words(ws);
  }

  lemma FootReads(depth: nat, rest: string)
    ensures Reads(Indent(depth) + ("}" + ("\n" + rest)), [CLOSE], rest)
  {
    IndentIsGap(depth);
    GapReads(Indent(depth), "}" + ("\n" + rest));
    TokenThenGapReads(CLOSE, "\n", rest);
    ReadsInTurn(Indent(depth) + ("}" + ("\n" + rest)), [], "}" + ("\n" + rest), [CLOSE], rest);
    assert [] + [CLOSE] == [CLOSE];
  }

  lemma BraceReads(s: string)
    ensures Reads(" " + ("{" + ("\n" + s)), [OPEN], s)
  {
    GapReads(" ", "{" + ("\n" + s));
    TokenThenGapReads(OPEN, "\n", s);
    ReadsInTurn(" " + ("{" + ("\n" + s)), [], "{" + ("\n" + s), [OPEN], s);
    assert [] + [OPEN] == [OPEN];
  }

  lemma SemiReads(rest: string)
    ensures Reads(";" + ("\n" + rest), [SEMI], rest)
  {
    TokenThenGapReads(SEMI, "\n", rest);
  }

  lemma SimpleShape(ws: seq<string>, depth: nat, rest: string)
    ensures PrintStatement(Simple(ws), depth) + rest == Indent(depth) + (Joined(ws) + (";" + ("\n" + rest)))
  {
  }

  lemma NestedShape(ws: seq<string>, b: seq<Statement>, depth: nat, rest: string)
    ensures PrintStatement(Nested(ws, b), depth) + rest ==
            Indent(depth) + (Joined(ws) + (" " + ("{" + ("\n" +
            (Print(b, depth + 1) + (Indent(depth) + ("}" + ("\n" + rest))))))))
  {
  }

  lemma {:induction false} StatementReads(s: Statement, depth: nat, rest: string)
    requires ProperStatement(s) && AllLexable(FlattenStatement(s))
    ensures Reads(PrintStatement(s, depth) + rest, FlattenStatement(s), rest)
    decreases s, 1
  {
    hide Reads, PrintStatement, Print, Joined, Indent, Words, Lexable;
    var ws := s.tokens;
    var all := PrintStatement(s, depth) + rest;
    forall w | w in ws ensures Lexable(Token(Normal, w)) {
      WordIsToken(ws, w);
      assert Token(Normal, w) in FlattenStatement(s);
    }
    match s
    case Simple(_) =>
      var after := ";" + ("\n" + rest);
      SimpleShape(ws, depth, rest);
      HeadReads(ws, depth, after);
      SemiReads(rest);
      ReadsInTurn(all, Words(ws), after, [SEMI], rest);
    case Nested(_, b) =>
      var foot := Indent(depth) + ("}" + ("\n" + rest));
      var body := Print(b, depth + 1) + foot;
      var after := " " + ("{" + ("\n" + body));
      NestedShape(ws, b, depth, rest);
      assert AllLexable(Flatten(b)) by { assert forall t :: t in Flatten(b) ==> t in FlattenStatement(s); }
      HeadReads(ws, depth, after);
      BraceReads(body);
      ReadsInTurn(all, Words(ws), after, [OPEN], body);
      PrintedReads(b, depth + 1, foot);
      ReadsInTurn(all, Words(ws) + [OPEN], body, Flatten(b), foot);
      FootReads(depth, rest);
      ReadsInTurn(all, Words(ws) + [OPEN] + Flatten(b), foot, [CLOSE], rest);
  }

  lemma {:induction false} PrintedReads(ss: seq<Statement>, depth: nat, rest: string)
    requires Proper(ss) && AllLexable(Flatten(ss))
    ensures Reads(Print(ss, depth) + rest, Flatten(ss), rest)
    decreases ss, 0
  {
    if ss == [] {
      assert Print(ss, depth) + rest == rest;
    } else {
      var ss', s := ss[..|ss| - 1], ss[|ss| - 1];
      assert Flatten(ss) == Flatten(ss') + FlattenStatement(s);
      assert AllLexable(Flatten(ss')) && AllLexable(FlattenStatement(s)) by {
        assert forall t :: t in Flatten(ss') || t in FlattenStatement(s) ==> t in Flatten(ss);
      }
      var tail := PrintStatement(s, depth) + rest;
      assert Print(ss, depth) + rest == Print(ss', depth) + tail;
      PrintedReads(ss', depth, tail);
      StatementReads(s, depth, rest);
      ReadsInTurn(Print(ss, depth) + rest, Flatten(ss'), tail, FlattenStatement(s), rest);
    }
  }

  /** The files the parser accepts, and the trees it builds: exactly the layouts of the
      token sequences of non-empty proper trees. */
  lemma ConfigLanguage(s: string, tree: seq<Statement>)
    ensures ParseText(s) == Accepted(tree) <==>
            && |tree| > 0 && Proper(tree)
            && exists gaps, tail :: ValidLayout(Flatten(tree), gaps, tail) && s == Render(Flatten(tree), gaps, tail)
  {
    TokensAreAStream(s);
    ParserDecidesGrammar(Tokens(s), tree);
    LexerDecidesLayout(s, Flatten(tree));
  }

  lemma AcceptedIsPrintable(s: string, tree: seq<Statement>)
    requires ParseText(s) == Accepted(tree)
    ensures Printable(tree)
  {
    ConfigLanguage(s, tree);
    var gaps, tail :| ValidLayout(Flatten(tree), gaps, tail) && s == Render(Flatten(tree), gaps, tail);
  }

  /** A tree survives printing and parsing, at any depth, if and only if it is printable. */
  lemma PrintThenParse(tree: seq<Statement>, depth: nat)
    ensures ParseText(Print(tree, depth)) == Accepted(tree) <==> Printable(tree)
  {
    var s := Print(tree, depth);
    if Printable(tree) {
      assert s + "" == s;
      PrintedReads(tree, depth, "");
      assert Significant([EOF]) == [EOF] by { assert [EOF][1..] == []; }
      TokensAreAStream(s);
      ParserDecidesGrammar(Tokens(s), tree);
    }
    if ParseText(s) == Accepted(tree) {
      AcceptedIsPrintable(s, tree);
    }
  }

  /** Printing is a normal form: printing what was parsed and parsing again changes nothing. */
  lemma ParsePrintParse(s: string, depth: nat)
    requires ParseText(s).Accepted?
    ensures ParseText(Print(ParseText(s).tree, depth)) == ParseText(s)
  {
    AcceptedIsPrintable(s, ParseText(s).tree);
    PrintThenParse(ParseText(s).tree, depth);
  }

  /** Two layouts of the same tokens parse to the same tree. */
  lemma LayoutIndependence(tree: seq<Statement>, g: seq<string>, x: string, h: seq<string>, y: string)
    requires ValidLayout(Flatten(tree), g, x) && ValidLayout(Flatten(tree), h, y)
    requires ParseText(Render(Flatten(tree), g, x)) == Accepted(tree)
    ensures ParseText(Render(Flatten(tree), h, y)) == Accepted(tree)
  {
    ConfigLanguage(Render(Flatten(tree), g, x), tree);
    ConfigLanguage(Render(Flatten(tree), h, y), tree);
  }

  /** The header promises true only for a valid file, but a last word that the end of the
      file cuts off is dropped: any such word can follow an accepted file that ends in
      punctuation or a gap. */
  lemma CutOffWordIsIgnored(tree: seq<Statement>, gaps: seq<string>, w: string)
    requires |tree| > 0 && Proper(tree) && ValidLayout(Flatten(tree), gaps, "") && BareWord(w)
    ensures Render(Flatten(tree), gaps, w) == Render(Flatten(tree), gaps, "") + w
    ensures ParseText(Render(Flatten(tree), gaps, "") + w) == ParseText(Render(Flatten(tree), gaps, ""))
    ensures ParseText(Render(Flatten(tree), gaps, "")) == Accepted(tree)
  {
    RenderTail(Flatten(tree), gaps, w);
    ConfigLanguage(Render(Flatten(tree), gaps, w), tree);
    ConfigLanguage(Render(Flatten(tree), gaps, ""), tree);
  }

  lemma {:induction false} RenderTail(ts: seq<Token>, gaps: seq<string>, w: string)
    requires |gaps| == |ts| + 1
    ensures Render(ts, gaps, w) == Render(ts, gaps, "") + w
  {
    if ts != [] {
      RenderTail(ts[1..], gaps[1..], w);
    }
  }
}
