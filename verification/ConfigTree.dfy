/** The parsed form of a configuration file, its token sequence and its printed text. */
module ConfigTree {

  /** A statement is a list of words, ended by `;` or followed by a braced block. */
  datatype Statement =
    | Simple(tokens: seq<string>)
    | Nested(tokens: seq<string>, block: seq<Statement>)

  datatype TokenType = Start | Normal | StartBlock | EndBlock | Comment | StatementEnd | Eof | Error

  datatype Token = Token(kind: TokenType, text: string)

  const OPEN := Token(StartBlock, "{")
  const CLOSE := Token(EndBlock, "}")
  const SEMI := Token(StatementEnd, ";")
  const EOF := Token(Eof, "")

  /** Tokens as the lexer makes them: punctuation carries its own text. */
  predicate Plain(t: Token) {
    && t.kind !in {Comment, Start, Error}
    && (t.kind == StartBlock ==> t == OPEN)
    && (t.kind == EndBlock ==> t == CLOSE)
    && (t.kind == StatementEnd ==> t == SEMI)
    && (t.kind == Eof ==> t == EOF)
  }

  /** A token stream as the lexer makes it: its one end mark or error comes last. */
  predicate Stream(ts: seq<Token>) {
    && |ts| > 0
    && (var e := ts[|ts| - 1]; e == EOF || e.kind == Error)
    && forall i :: 0 <= i < |ts| - 1 ==> ts[i].kind != Eof && (ts[i].kind == Comment || Plain(ts[i]))
  }

  function Significant(ts: seq<Token>): seq<Token> {
    if ts == [] then []
    else if ts[0].kind == Comment then Significant(ts[1..])
    else [ts[0]] + Significant(ts[1..])
  }

  /** Every statement has a word and every block has a statement. */
  ghost predicate Proper(ss: seq<Statement>)
  {
    forall i :: 0 <= i < |ss| ==> ProperStatement(ss[i])
  }

  ghost predicate ProperStatement(s: Statement)
  {
    |s.tokens| > 0 && (s.Nested? ==> |s.block| > 0 && Proper(s.block))
  }

  /** The grammar, read as a generator: the comment-free tokens that spell a list of statements. */
  function Flatten(ss: seq<Statement>): seq<Token>
    decreases ss
  {
    if ss == [] then [] else Flatten(ss[..|ss| - 1]) + FlattenStatement(ss[|ss| - 1])
  }

  function FlattenStatement(s: Statement): seq<Token>
    decreases s
  {
    match s
    case Simple(ws) => Words(ws) + [SEMI]
    case Nested(ws, b) => Words(ws) + [OPEN] + Flatten(b) + [CLOSE]
  }

  function Words(ws: seq<string>): seq<Token>
  {
    if ws == [] then [] else Words(ws[..|ws| - 1]) + [Token(Normal, ws[|ws| - 1])]
  }

  function Indent(depth: nat): string
  {
    if depth == 0 then "" else Indent(depth - 1) + "  "
  }

  function Joined(ws: seq<string>): string
  {
    if ws == [] then ""
    else if |ws| == 1 then ws[0]
    else Joined(ws[..|ws| - 1]) + " " + ws[|ws| - 1]
  }

  function Print(ss: seq<Statement>, depth: nat): string
    decreases ss
  {
    if ss == [] then "" else Print(ss[..|ss| - 1], depth) + PrintStatement(ss[|ss| - 1], depth)
  }

  function PrintStatement(s: Statement, depth: nat): string
    decreases s
  {
    match s
    case Simple(ws) => Indent(depth) + Joined(ws) + ";" + "\n"
    case Nested(ws, b) => Indent(depth) + Joined(ws) + " {\n" + Print(b, depth + 1) + Indent(depth) + "}" + "\n"
  }

  lemma WordsAppend(ws: seq<string>, w: string)
    ensures Words(ws + [w]) == Words(ws) + [Token(Normal, w)]
  {
  }
}
