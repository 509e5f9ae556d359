/** What the scanner does with each character, spelled out. */
module ConfigWords {
  import opened TextTools
  import opened ConfigTree
  import opened ConfigLexer

  /** A bare word ends at each of six characters, which stays unread; every other character after the
      first one belongs to it. */
  lemma WordEnds(w: string, c: char, rest: string)
    requires w != "" && w[0] !in {' ', '\t', '\n', '\r', '{', '}', ';', '#', '"', '\''}
    requires forall i :: 0 <= i < |w| ==> w[i] !in {' ', '\t', '\n', ';', '{', '}'}
    requires c in {' ', '\t', '\n', ';', '{', '}'}
    ensures Lex(w + ([c] + rest)) == Lexeme(Normal, w, [c] + rest)
    ensures Tokens(w + ([c] + rest)) == [Token(Normal, w)] + Tokens([c] + rest)
  {
    assert ([c] + rest)[0] == c;
    hide Lex, Tokens;
    TokenRead(Token(Normal, w), [c] + rest);
  }

  /** The end of the file is none of them: the word is dropped. */
  lemma WordRunsOut(w: string)
    requires w != "" && w[0] !in {' ', '\t', '\n', '\r', '{', '}', ';', '#', '"', '\''}
    requires forall i :: 0 <= i < |w| ==> w[i] !in {' ', '\t', '\n', ';', '{', '}'}
    ensures Tokens(w) == [EOF]
  {
    TailDropped(w);
  }

  /** No word that is read, other than a quoted one, holds one of the six, and one of them follows it. */
  lemma WordsHoldNone(s: string)
    requires Lex(s).kind == Normal
    ensures var w := Lex(s).text;
            && w != ""
            && (w[0] != '"' && w[0] != '\'' ==>
                 && (forall i :: 0 <= i < |w| ==> w[i] !in {' ', '\t', '\n', ';', '{', '}'})
                 && Lex(s).rest != "" && Lex(s).rest[0] in {' ', '\t', '\n', ';', '{', '}'})
  {
    var ws, body := LexShape(s);
    hide Lex;
  }

  /** Four characters are skipped before a token. */
  lemma BlankSkipped(c: char, s: string)
    requires c in {' ', '\t', '\n', '\r'}
    ensures Lex([c] + s) == Lex(s) && Tokens([c] + s) == Tokens(s)
  {
    BlanksSkipped([c], s);
    SameLexSameTokens([c] + s, s);
  }

  lemma PunctuationRead(c: char, s: string)
    requires c in {';', '{', '}'}
    ensures Lex([c] + s) == Lexeme(if c == ';' then StatementEnd else if c == '{' then StartBlock else EndBlock, [c], s)
    ensures Tokens([c] + s) == [if c == ';' then SEMI else if c == '{' then OPEN else CLOSE] + Tokens(s)
  {
    TokenRead(if c == ';' then SEMI else if c == '{' then OPEN else CLOSE, s);
  }

  /** A comment ends at a newline or a carriage return, which it takes with it. */
  lemma {:induction false} CommentEnds(x: string, c: char, s: string)
    requires '\n' !in x && '\r' !in x && (c == '\n' || c == '\r')
    ensures Lex("#" + (x + ([c] + s))) == Lexeme(Comment, "#" + x, s)
  {
    var all := "#" + (x + ([c] + s));
    assert all[0] == '#' && all[1..] == x + ([c] + s);
    CommentScan("#", x, c, s);
  }

  lemma {:induction false} CommentScan(value: string, x: string, c: char, s: string)
    requires '\n' !in x && '\r' !in x && (c == '\n' || c == '\r')
    ensures Scan(InComment, value, x + ([c] + s)) == Lexeme(Comment, value + x, s)
    decreases |x|
  {
    if x == "" {
      assert x + ([c] + s) == [c] + s && value + x == value;
    } else {
      assert (x + ([c] + s))[1..] == x[1..] + ([c] + s) && x[0] in x;
      CommentScan(value + [x[0]], x[1..], c, s);
      assert value + [x[0]] + x[1..] == value + x;
    }
  }

  /** A quoted word ends at the next quote of its kind, and an opening quote without one is an error. */
  lemma QuotedRead(q: char, x: string, s: string)
    requires (q == '"' || q == '\'') && q !in x
    ensures Lex(([q] + x + [q]) + s) == Lexeme(Normal, [q] + x + [q], s)
  {
    var w := [q] + x + [q];
    forall i | 0 < i < |w| - 1 ensures w[i] != q {
      assert w[i] == x[i - 1];
    }
    assert Quoted(w, q) && !BareWord(w);
    hide Lex, Tokens, Quoted, BareWord;
    TokenRead(Token(Normal, w), s);
  }

  lemma {:induction false} UnclosedIsError(q: char, x: string)
    requires (q == '"' || q == '\'') && q !in x
    ensures Lex([q] + x).kind == Error && Tokens([q] + x) == [Token(Error, "")]
  {
    assert ([q] + x)[1..] == x;
    QuoteRunsOut(if q == '"' then DoubleQuote else SingleQuote, q, [q], x);
  }

  lemma {:induction false} QuoteRunsOut(state: LexState, q: char, value: string, x: string)
    requires (q == '"' && state == DoubleQuote) || (q == '\'' && state == SingleQuote)
    requires q !in x
    ensures Scan(state, value, x).kind == Error
    decreases |x|
  {
    if x != "" {
      assert x[0] in x;
      QuoteRunsOut(state, q, value + [x[0]], x[1..]);
    }
  }

  /** An input: a tab between two words. */
  lemma TabSeparates(a: string, b: string)
    requires a != "" && forall i :: 0 <= i < |a| ==> a[i] !in {' ', '\t', '\n', '\r', '{', '}', ';', '#', '"', '\''}
    requires b != "" && forall i :: 0 <= i < |b| ==> b[i] !in {' ', '\t', '\n', '\r', '{', '}', ';', '#', '"', '\''}
    ensures Tokens(((a + "\t") + b) + ";") == [Token(Normal, a), Token(Normal, b), SEMI, EOF]
  {
    Regroup(a, "\t", b);
    Regroup(a, "\t" + b, ";");
    Regroup("\t", b, ";");
    assert [';'] + "" == ";";
    WordEnds(a, '\t', b + ";");
    BlankSkipped('\t', b + ";");
    WordEnds(b, ';', "");
    PunctuationRead(';', "");
    assert Tokens("") == [EOF];
    hide Tokens;
  }

  // ----- The printed form -----

  lemma {:induction false} IndentIs(depth: nat)
    ensures Indent(depth) == seq(2 * depth, i => ' ')
  {
    if depth > 0 {
      IndentIs(depth - 1);
      assert seq(2 * depth, i => ' ') == seq(2 * (depth - 1), i => ' ') + "  ";
    }
  }

  /** A statement with a block, written out. */
  lemma PrintedForm(a: string, b: string, c: string, d: string)
    ensures Print([Nested([a, b], [Simple([c, d])])], 0) ==
            ((a + " " + b + " {\n") + ("  " + (c + " " + d) + ";" + "\n")) + "}" + "\n"
  {
    assert [a, b][..1] == [a] && [c, d][..1] == [c];
    assert Joined([a, b]) == a + " " + b && Joined([c, d]) == c + " " + d;
    var inner, outer := Simple([c, d]), Nested([a, b], [Simple([c, d])]);
    assert Indent(0) == "" && Indent(1) == "  ";
    hide Joined, Indent;
    assert [inner][..0] == [] && [outer][..0] == [];
    assert Print([inner], 1) == PrintStatement(inner, 1);
    assert Print([outer], 0) == PrintStatement(outer, 0);
  }
}
