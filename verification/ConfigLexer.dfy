/** The character machine that cuts a configuration file into tokens, and the layouts it reads. */
module ConfigLexer {
  import opened ConfigTree

  datatype LexState = InitialWhitespace | SingleQuote | DoubleQuote | InComment | InWord

  datatype Lexeme = Lexeme(kind: TokenType, text: string, rest: string)

  predicate Blank(c: char) { c in {' ', '\t', '\n', '\r'} }

  /** Carriage return is blank between tokens but does not end a word. */
  predicate EndsWord(c: char) { c in {' ', '\t', '\n', ';', '{', '}'} }

  predicate Delimited(s: string) { s != "" && EndsWord(s[0]) }

  predicate Newline(c: char) { c == '\n' || c == '\r' }

  /** The scanner from a given state, with `value` read so far and `s` still unread. */
  function Scan(state: LexState, value: string, s: string): (l: Lexeme)
    ensures |l.rest| <= |s|
    ensures l.kind !in {Eof, Error} && (state == InWord ==> s != "" && !EndsWord(s[0])) ==> |l.rest| < |s|
    decreases |s|
  {
    if s == "" then
      Lexeme(if state == SingleQuote || state == DoubleQuote then Error else Eof, value, s)
    else
      var c, t := s[0], s[1..];
      match state
      case InitialWhitespace =>
        if c == '{' then Lexeme(StartBlock, [c], t)
        else if c == '}' then Lexeme(EndBlock, [c], t)
        else if c == '#' then Scan(InComment, [c], t)
        else if c == '"' then Scan(DoubleQuote, [c], t)
        else if c == '\'' then Scan(SingleQuote, [c], t)
        else if c == ';' then Lexeme(StatementEnd, [c], t)
        else if Blank(c) then Scan(InitialWhitespace, value, t)
        else Scan(InWord, value + [c], t)
      case SingleQuote =>
        if c == '\'' then Lexeme(Normal, value + [c], t) else Scan(SingleQuote, value + [c], t)
      case DoubleQuote =>
        if c == '"' then Lexeme(Normal, value + [c], t) else Scan(DoubleQuote, value + [c], t)
      case InComment =>
        if Newline(c) then Lexeme(Comment, value, t) else Scan(InComment, value + [c], t)
      case InWord =>
        if EndsWord(c) then Lexeme(Normal, value, s) else Scan(InWord, value + [c], t)
  }

  function Lex(s: string): Lexeme {
    Scan(InitialWhitespace, "", s)
  }

  function Tokens(s: string): seq<Token>
    decreases |s|
  {
    var l := Lex(s);
    if l.kind == Eof then [EOF]
    else if l.kind == Error then [Token(Error, "")]
    else [Token(l.kind, l.text)] + Tokens(l.rest)
  }

  // ----- What may be written between, in and after tokens -----

  /** Blanks and newline-ended comments. */
  predicate IsGap(g: string)
    decreases |g|, 0
  {
    g == "" || if g[0] == '#' then EndsComment(g[1..]) else Blank(g[0]) && IsGap(g[1..])
  }

  /** The rest of a comment, its newline and the gap after it. */
  predicate EndsComment(g: string)
    decreases |g|, 1
  {
    g != "" && if Newline(g[0]) then IsGap(g[1..]) else EndsComment(g[1..])
  }

  predicate StartsWord(c: char) { !Blank(c) && c !in {'{', '}', '#', '"', '\'', ';'} }

  predicate BareWord(w: string) {
    w != "" && StartsWord(w[0]) && forall i :: 0 <= i < |w| ==> !EndsWord(w[i])
  }

  predicate Quoted(w: string, q: char) {
    |w| >= 2 && w[0] == q && w[|w| - 1] == q && forall i :: 0 < i < |w| - 1 ==> w[i] != q
  }

  predicate Lexable(t: Token) {
    || t in {OPEN, CLOSE, SEMI}
    || (t.kind == Normal && (BareWord(t.text) || Quoted(t.text, '"') || Quoted(t.text, '\'')))
  }

  /** Text that reaches the end of the file without finishing a token: nothing, an
      unfinished comment, or a word, which the scanner drops. */
  predicate DroppedTail(s: string) {
    s == "" || BareWord(s) || (s[0] == '#' && forall i :: 0 <= i < |s| ==> !Newline(s[i]))
  }

  function Render(ts: seq<Token>, gaps: seq<string>, tail: string): string
    requires |gaps| == |ts| + 1
  {
    if ts == [] then gaps[0] + tail else gaps[0] + (ts[0].text + Render(ts[1..], gaps[1..], tail))
  }

  predicate FollowsWord(ts: seq<Token>, gaps: seq<string>, i: nat)
    requires |gaps| == |ts| + 1 && i < |ts|
  {
    Delimited(gaps[i + 1]) || (gaps[i + 1] == "" && i + 1 < |ts| && ts[i + 1].kind != Normal)
  }

  /** A bare word has to be followed by a space, tab or newline, or directly by punctuation. */
  ghost predicate ValidLayout(ts: seq<Token>, gaps: seq<string>, tail: string) {
    && |gaps| == |ts| + 1
    && DroppedTail(tail)
    && (forall i :: 0 <= i < |gaps| ==> IsGap(gaps[i]))
    && (forall i :: 0 <= i < |ts| ==> Lexable(ts[i]))
    && (forall i :: 0 <= i < |ts| && ts[i].kind == Normal && BareWord(ts[i].text) ==>
          FollowsWord(ts, gaps, i))
  }

  // ----- Every layout is read as its tokens -----

  lemma {:induction false} BlanksSkipped(g: string, s: string)
    requires forall i :: 0 <= i < |g| ==> Blank(g[i])
    ensures Lex(g + s) == Lex(s)
  {
    if g == "" {
      assert g + s == s;
    } else {
      assert (g + s)[1..] == g[1..] + s;
      BlanksSkipped(g[1..], s);
    }
  }

  lemma {:induction false} CommentRead(value: string, g: string, s: string) returns (h: string)
    requires EndsComment(g)
    ensures IsGap(h) && |h| < |g|
    ensures var l := Scan(InComment, value, g + s); l.kind == Comment && l.rest == h + s
    decreases |g|
  {
    assert (g + s)[1..] == g[1..] + s;
    if Newline(g[0]) {
      h := g[1..];
    } else {
      h := CommentRead(value + [g[0]], g[1..], s);
    }
  }

  lemma {:induction false} GapSkipped(g: string, s: string)
    requires IsGap(g)
    ensures Significant(Tokens(g + s)) == Significant(Tokens(s))
    decreases |g|
  {
    if g == "" {
      assert g + s == s;
    } else {
      assert (g + s)[1..] == g[1..] + s;
      if g[0] == '#' {
        var h := CommentRead("#", g[1..], s);
        var l := Lex(g + s);
        assert ([Token(l.kind, l.text)] + Tokens(l.rest))[1..] == Tokens(h + s);
        GapSkipped(h, s);
      } else {
        GapSkipped(g[1..], s);
        BlanksSkipped([g[0]], g[1..] + s);
        assert [g[0]] + (g[1..] + s) == g + s;
        SameLexSameTokens(g + s, g[1..] + s);
      }
    }
  }

  lemma SameLexSameTokens(a: string, b: string)
    requires Lex(a) == Lex(b)
    ensures Tokens(a) == Tokens(b)
  {
  }

  lemma {:induction false} WordRead(value: string, w: string, s: string)
    requires forall i :: 0 <= i < |w| ==> !EndsWord(w[i])
    requires s == "" || EndsWord(s[0])
    ensures Scan(InWord, value, w + s) ==
            if s == "" then Lexeme(Eof, value + w, s) else Lexeme(Normal, value + w, s)
    decreases |w|
  {
    if w == "" {
      assert w + s == s && value + w == value;
    } else {
      assert (w + s)[1..] == w[1..] + s;
      assert value + [w[0]] + w[1..] == value + w;
      WordRead(value + [w[0]], w[1..], s);
    }
  }

  lemma {:induction false} QuoteRead(q: LexState, c: char, value: string, w: string, s: string)
    requires (q == SingleQuote && c == '\'') || (q == DoubleQuote && c == '"')
    requires |w| > 0 && w[|w| - 1] == c && forall i :: 0 <= i < |w| - 1 ==> w[i] != c
    ensures Scan(q, value, w + s) == Lexeme(Normal, value + w, s)
    decreases |w|
  {
    assert (w + s)[1..] == w[1..] + s;
    assert value + [w[0]] + w[1..] == value + w;
    if |w| == 1 {
      assert w[1..] + s == s && value + [w[0]] == value + w;
    } else {
      QuoteRead(q, c, value + [w[0]], w[1..], s);
    }
  }

  lemma TokenRead(t: Token, s: string)
    requires Lexable(t)
    requires t.kind == Normal && BareWord(t.text) ==> Delimited(s)
    ensures Lex(t.text + s) == Lexeme(t.kind, t.text, s)
    ensures Tokens(t.text + s) == [t] + Tokens(s)
  {
    var w := t.text;
    assert (w + s)[0] == w[0];
    assert (w + s)[1..] == w[1..] + s;
    assert [w[0]] + w[1..] == w;
    if t.kind == Normal {
      if BareWord(w) {
        assert "" + [w[0]] == [w[0]];
        WordRead([w[0]], w[1..], s);
      } else if Quoted(w, '"') {
        QuoteRead(DoubleQuote, '"', [w[0]], w[1..], s);
      } else {
        QuoteRead(SingleQuote, '\'', [w[0]], w[1..], s);
      }
    } else {
      assert w[1..] + s == s;
    }
  }

  lemma JoinedWord(a: string, b: string)
    requires BareWord(a)
    requires forall i :: 0 <= i < |b| ==> !EndsWord(b[i])
    ensures BareWord(a + "\r" + b)
  {
    var w := a + "\r" + b;
    forall i | 0 <= i < |w| ensures !EndsWord(w[i]) {
      if i > |a| {
        assert w[i] == b[i - |a| - 1];
      }
    }
  }

  /** A carriage return inside a bare word belongs to the word. */
  lemma CarriageReturnStays(a: string, b: string, rest: string)
    requires BareWord(a) && Delimited(rest)
    requires forall i :: 0 <= i < |b| ==> !EndsWord(b[i])
    ensures Lex(a + "\r" + b + rest) == Lexeme(Normal, a + "\r" + b, rest)
    ensures Tokens(a + "\r" + b + rest) == [Token(Normal, a + "\r" + b)] + Tokens(rest)
  {
    JoinedWord(a, b);
    hide Lex, Tokens, BareWord, Quoted, Delimited;
    TokenRead(Token(Normal, a + "\r" + b), rest);
  }

  lemma {:induction false} CommentRunsOut(value: string, s: string)
    requires forall i :: 0 <= i < |s| ==> !Newline(s[i])
    ensures Scan(InComment, value, s).kind == Eof
    decreases |s|
  {
    if s != "" {
      CommentRunsOut(value + [s[0]], s[1..]);
    }
  }

  lemma TailDropped(s: string)
    requires DroppedTail(s)
    ensures Tokens(s) == [EOF]
  {
    if s == "" {
    } else if s[0] == '#' {
      CommentRunsOut("#", s[1..]);
    } else {
      assert "" + [s[0]] == [s[0]] && s[1..] + "" == s[1..];
      WordRead([s[0]], s[1..], "");
    }
  }

  lemma {:induction false} LayoutIsRead(ts: seq<Token>, gaps: seq<string>, tail: string)
    requires ValidLayout(ts, gaps, tail)
    ensures Significant(Tokens(Render(ts, gaps, tail))) == ts + [EOF]
    decreases |ts|
  {
    if ts == [] {
      GapSkipped(gaps[0], tail);
      TailDropped(tail);
      assert [EOF][1..] == [] && ts + [EOF] == [EOF];
    } else {
      var t, rest := ts[0], Render(ts[1..], gaps[1..], tail);
      assert ValidLayout(ts[1..], gaps[1..], tail) by {
        forall i | 0 <= i < |ts| - 1 && ts[1..][i].kind == Normal && BareWord(ts[1..][i].text)
          ensures FollowsWord(ts[1..], gaps[1..], i)
        {
          assert ts[1..][i] == ts[i + 1] && FollowsWord(ts, gaps, i + 1);
        }
      }
      LayoutIsRead(ts[1..], gaps[1..], tail);
      if t.kind == Normal && BareWord(t.text) {
        assert FollowsWord(ts, gaps, 0);
        RenderStart(ts[1..], gaps[1..], tail);
      }
      GapSkipped(gaps[0], t.text + rest);
      TokenRead(t, rest);
      assert ([t] + Tokens(rest))[1..] == Tokens(rest);
      assert [t] + (ts[1..] + [EOF]) == ts + [EOF];
    }
  }

  /** How rendered text begins. */
  lemma RenderStart(ts: seq<Token>, gaps: seq<string>, tail: string)
    requires |gaps| == |ts| + 1 && (forall i :: 0 <= i < |ts| ==> Lexable(ts[i]))
    ensures gaps[0] != "" ==> Render(ts, gaps, tail) != "" && Render(ts, gaps, tail)[0] == gaps[0][0]
    ensures gaps[0] == "" && ts != [] ==>
              Render(ts, gaps, tail) != "" && ts[0].text != "" && Render(ts, gaps, tail)[0] == ts[0].text[0]
    ensures gaps[0] == "" && ts == [] ==> Render(ts, gaps, tail) == tail
  {
  }

  // ----- Everything that is read is a layout of its tokens -----

  /** All of `w` but its last character avoids `c`, which is its last character. */
  predicate EndsAtFirst(w: string, c: char -> bool) {
    w != "" && c(w[|w| - 1]) && forall i :: 0 <= i < |w| - 1 ==> !c(w[i])
  }

  /** The text a scan has consumed, by the kind of lexeme it ends in. */
  predicate ScanConsumed(state: LexState, value: string, body: string, l: Lexeme) {
    match l.kind
    case Eof =>
      && l.rest == ""
      && (state == InWord || state == InComment)
      && (state == InWord ==> forall i :: 0 <= i < |body| ==> !EndsWord(body[i]))
      && (state == InComment ==> forall i :: 0 <= i < |body| ==> !Newline(body[i]))
    case Error =>
      && l.rest == ""
      && (state == SingleQuote || state == DoubleQuote)
      && (if state == SingleQuote then '\'' else '"') !in body
    case Comment => state == InComment && EndsAtFirst(body, Newline)
    case Normal =>
      && l.text == value + body
      && state != InComment
      && (state == InWord ==> Delimited(l.rest) && forall i :: 0 <= i < |body| ==> !EndsWord(body[i]))
      && (state == SingleQuote ==> EndsAtFirst(body, (c: char) => c == '\''))
      && (state == DoubleQuote ==> EndsAtFirst(body, (c: char) => c == '"'))
    case _ => false
  }

  /** The characters at which a scan ends. */
  predicate Ends(state: LexState, c: char) {
    match state
    case InitialWhitespace => false
    case SingleQuote => c == '\''
    case DoubleQuote => c == '"'
    case InComment => Newline(c)
    case InWord => EndsWord(c)
  }

  lemma ScanGoesOn(state: LexState, value: string, s: string)
    requires state != InitialWhitespace && s != "" && !Ends(state, s[0])
    ensures Scan(state, value, s) == Scan(state, value + [s[0]], s[1..])
  {
  }

  lemma ScanEnds(state: LexState, value: string, s: string) returns (body: string)
    requires state != InitialWhitespace && (s == "" || Ends(state, s[0]))
    ensures s == body + Scan(state, value, s).rest
    ensures ScanConsumed(state, value, body, Scan(state, value, s))
  {
    body := if s == "" || state == InWord then "" else [s[0]];
    assert value + "" == value;
  }

  lemma {:induction false} ScanShape(state: LexState, value: string, s: string) returns (body: string)
    requires state != InitialWhitespace
    ensures s == body + Scan(state, value, s).rest
    ensures ScanConsumed(state, value, body, Scan(state, value, s))
    decreases |s|
  {
    hide *;
    if s == "" || Ends(state, s[0]) {
      body := ScanEnds(state, value, s);
    } else {
      ScanGoesOn(state, value, s);
      var b := ScanShape(state, value + [s[0]], s[1..]);
      body := [s[0]] + b;
      assert s == [s[0]] + s[1..];
      ConsumedBefore(state, value, s[0], b, Scan(state, value, s));
    }
  }

  lemma ConsumedBefore(state: LexState, value: string, c: char, body: string, l: Lexeme)
    requires state != InitialWhitespace && ScanConsumed(state, value + [c], body, l)
    requires !Ends(state, c)
    ensures ScanConsumed(state, value, [c] + body, l)
  {
    assert value + [c] + body == value + ([c] + body);
    assert forall i :: 0 < i < |body| + 1 ==> ([c] + body)[i] == body[i - 1];
  }

  /** An opening quote with no second one after it. */
  predicate UnclosedQuote(s: string) {
    s != "" && (s[0] == '"' || s[0] == '\'') && s[0] !in s[1..]
  }

  predicate LexConsumed(body: string, l: Lexeme) {
    match l.kind
    case Eof => l.rest == "" && DroppedTail(body)
    case Error => l.rest == "" && UnclosedQuote(body)
    case Comment => body != "" && body[0] == '#' && EndsAtFirst(body[1..], Newline)
    case _ =>
      && body == l.text
      && Lexable(Token(l.kind, body))
      && (l.kind == Normal && BareWord(body) ==> Delimited(l.rest))
  }

  /** One call of the scanner: blanks, then what it recognised, then what it left. */
  lemma {:induction false} LexShape(s: string) returns (ws: string, body: string)
    ensures forall i :: 0 <= i < |ws| ==> Blank(ws[i])
    ensures s == ws + (body + Lex(s).rest)
    ensures LexConsumed(body, Lex(s))
    decreases |s|
  {
    if s == "" {
      ws, body := "", "";
    } else {
      hide LexConsumed, ScanConsumed;
      var c := s[0];
      assert s == [c] + s[1..];
      if Blank(c) {
        ws, body := LexShape(s[1..]);
        ws := [c] + ws;
      } else if c in {'{', '}', ';'} {
        ws, body := "", [c];
        PunctuationConsumed(c, s[1..]);
      } else {
        ws := "";
        body := LexemeShape(c, s[1..]);
        assert "" + (body + Lex(s).rest) == body + Lex(s).rest;
      }
    }
  }

  lemma PunctuationConsumed(c: char, rest: string)
    requires c in {'{', '}', ';'}
    ensures LexConsumed([c], Lexeme(if c == '{' then StartBlock else if c == '}' then EndBlock else StatementEnd, [c], rest))
  {
  }

  /** A lexeme that starts with `c`. */
  lemma LexemeShape(c: char, s: string) returns (body: string)
    requires !Blank(c) && c !in {'{', '}', ';'}
    ensures [c] + s == body + Lex([c] + s).rest
    ensures LexConsumed(body, Lex([c] + s))
  {
    hide LexConsumed, ScanConsumed;
    var state := if c == '#' then InComment else if c == '"' then DoubleQuote
                 else if c == '\'' then SingleQuote else InWord;
    assert ([c] + s)[1..] == s && "" + [c] == [c];
    assert Lex([c] + s) == Scan(state, [c], s);
    var b := ScanShape(state, [c], s);
    body := [c] + b;
    StartConsumed(c, state, b, Lex([c] + s));
    assert body + Lex([c] + s).rest == [c] + (b + Lex([c] + s).rest);
  }

  lemma StartConsumed(c: char, state: LexState, body: string, l: Lexeme)
    requires !Blank(c) && c !in {'{', '}', ';'}
    requires state == if c == '#' then InComment else if c == '"' then DoubleQuote
                      else if c == '\'' then SingleQuote else InWord
    requires ScanConsumed(state, [c], body, l)
    ensures LexConsumed([c] + body, l)
  {
    assert ([c] + body)[1..] == body;
    assert forall i :: 0 < i < |body| + 1 ==> ([c] + body)[i] == body[i - 1];
  }

  lemma {:induction false} BlanksThenGap(ws: string, g: string)
    requires forall i :: 0 <= i < |ws| ==> Blank(ws[i])
    requires IsGap(g)
    ensures IsGap(ws + g)
  {
    if ws == "" {
      assert ws + g == g;
    } else {
      assert (ws + g)[1..] == ws[1..] + g;
      BlanksThenGap(ws[1..], g);
    }
  }

  lemma {:induction false} CommentThenGap(b: string, g: string)
    requires EndsAtFirst(b, Newline)
    requires IsGap(g)
    ensures EndsComment(b + g)
    decreases |b|
  {
    assert (b + g)[1..] == b[1..] + g;
    if |b| == 1 {
      assert b[1..] + g == g;
    } else {
      CommentThenGap(b[1..], g);
    }
  }

  lemma LayoutGrows(t: Token, ws: string, ts: seq<Token>, gaps: seq<string>, tail: string)
    requires ValidLayout(ts, gaps, tail) && Lexable(t) && IsGap(ws)
    requires t.kind == Normal && BareWord(t.text) ==>
               Delimited(Render(ts, gaps, tail))
    ensures ValidLayout([t] + ts, [ws] + gaps, tail)
    ensures Render([t] + ts, [ws] + gaps, tail) == ws + (t.text + Render(ts, gaps, tail))
  {
    var us, hs := [t] + ts, [ws] + gaps;
    assert us[1..] == ts && hs[1..] == gaps;
    if t.kind == Normal && BareWord(t.text) {
      RenderStart(ts, gaps, tail);
    }
    forall i | 0 <= i < |us| && us[i].kind == Normal && BareWord(us[i].text)
      ensures FollowsWord(us, hs, i)
    {
      if i > 0 {
        assert us[i] == ts[i - 1] && FollowsWord(ts, gaps, i - 1);
      } else if gaps[0] == "" && ts != [] {
        assert Lexable(ts[0]);
      }
    }
  }

  lemma RenderGrows(g: string, ts: seq<Token>, gaps: seq<string>, tail: string)
    requires |gaps| == |ts| + 1
    ensures Render(ts, [g + gaps[0]] + gaps[1..], tail) == g + Render(ts, gaps, tail)
  {
    var hs := [g + gaps[0]] + gaps[1..];
    assert hs[1..] == gaps[1..];
  }

  lemma FirstGapGrows(g: string, ts: seq<Token>, gaps: seq<string>, tail: string)
    requires ValidLayout(ts, gaps, tail) && IsGap(g + gaps[0])
    ensures ValidLayout(ts, [g + gaps[0]] + gaps[1..], tail)
    ensures Render(ts, [g + gaps[0]] + gaps[1..], tail) == g + Render(ts, gaps, tail)
  {
    hide Render, IsGap, Lexable, DroppedTail, BareWord, Delimited;
    var hs := [g + gaps[0]] + gaps[1..];
    RenderGrows(g, ts, gaps, tail);
    forall i | 0 <= i < |ts| && ts[i].kind == Normal && BareWord(ts[i].text)
      ensures FollowsWord(ts, hs, i)
    {
      assert FollowsWord(ts, gaps, i);
    }
  }

  lemma CommentIsGap(ws: string, body: string, g: string)
    requires forall i :: 0 <= i < |ws| ==> Blank(ws[i])
    requires body != "" && body[0] == '#' && EndsAtFirst(body[1..], Newline)
    requires IsGap(g)
    ensures IsGap(ws + body + g)
  {
    CommentThenGap(body[1..], g);
    assert (body + g)[1..] == body[1..] + g;
    BlanksThenGap(ws, body + g);
    assert ws + body + g == ws + (body + g);
  }

  /** How the comment-free tokens of `s` come from its first lexeme. */
  lemma SignificantUnfolds(s: string, ts: seq<Token>)
    requires Significant(Tokens(s)) == ts + [EOF]
    ensures var l := Lex(s);
            && l.kind != Error
            && (l.kind == Eof ==> ts == [])
            && (l.kind == Comment ==> Significant(Tokens(l.rest)) == ts + [EOF])
            && (l.kind !in {Eof, Comment} ==>
                 && ts != [] && ts[0] == Token(l.kind, l.text)
                 && Significant(Tokens(l.rest)) == ts[1..] + [EOF])
  {
    var l := Lex(s);
    var all := Tokens(s);
    assert all == [all[0]] + all[1..];
    if l.kind == Eof || l.kind == Error {
      assert Significant(all[1..]) == [];
      assert (ts + [EOF])[|ts|] == EOF;
    } else if l.kind != Comment {
      assert all[1..] == Tokens(l.rest);
      assert (ts + [EOF])[1..] == Significant(Tokens(l.rest));
      assert (ts + [EOF])[0] == Token(l.kind, l.text);
      assert (ts + [EOF])[1..] == ts[1..] + [EOF];
    }
  }

  lemma CommentJoinsLayout(s: string, ws: string, body: string, ts: seq<Token>, gaps: seq<string>, tail: string)
    returns (hs: seq<string>)
    requires forall i :: 0 <= i < |ws| ==> Blank(ws[i])
    requires Lex(s).kind == Comment && s == ws + (body + Lex(s).rest) && LexConsumed(body, Lex(s))
    requires ValidLayout(ts, gaps, tail) && Lex(s).rest == Render(ts, gaps, tail)
    ensures ValidLayout(ts, hs, tail) && s == Render(ts, hs, tail)
  {
    CommentIsGap(ws, body, gaps[0]);
    FirstGapGrows(ws + body, ts, gaps, tail);
    hs := [ws + body + gaps[0]] + gaps[1..];
    assert ws + (body + Lex(s).rest) == ws + body + Lex(s).rest;
  }

  lemma TokenJoinsLayout(s: string, ws: string, body: string, ts: seq<Token>, gaps: seq<string>, tail: string)
    requires forall i :: 0 <= i < |ws| ==> Blank(ws[i])
    requires s == ws + (body + Lex(s).rest) && LexConsumed(body, Lex(s))
    requires Lex(s).kind !in {Eof, Error, Comment}
    requires ts != [] && ts[0] == Token(Lex(s).kind, Lex(s).text)
    requires ValidLayout(ts[1..], gaps, tail) && Lex(s).rest == Render(ts[1..], gaps, tail)
    ensures ValidLayout(ts, [ws] + gaps, tail) && s == Render(ts, [ws] + gaps, tail)
  {
    BlanksThenGap(ws, "");
    assert ws + "" == ws;
    LayoutGrows(ts[0], ws, ts[1..], gaps, tail);
    assert [ts[0]] + ts[1..] == ts;
  }

  lemma TailIsLayout(s: string, ws: string, body: string)
    requires forall i :: 0 <= i < |ws| ==> Blank(ws[i])
    requires s == ws + body && DroppedTail(body)
    ensures ValidLayout([], [ws], body) && s == Render([], [ws], body)
  {
    BlanksThenGap(ws, "");
    assert ws + "" == ws;
  }

  lemma {:induction false} ReadIsLayout(s: string, ts: seq<Token>) returns (gaps: seq<string>, tail: string)
    requires Significant(Tokens(s)) == ts + [EOF]
    ensures ValidLayout(ts, gaps, tail) && s == Render(ts, gaps, tail)
    decreases |s|
  {
    var l := Lex(s);
    var ws, body := LexShape(s);
    SignificantUnfolds(s, ts);
    if l.kind == Eof {
      assert body + l.rest == body;
      TailIsLayout(s, ws, body);
      gaps, tail := [ws], body;
    } else if l.kind == Comment {
      gaps, tail := ReadIsLayout(l.rest, ts);
      gaps := CommentJoinsLayout(s, ws, body, ts, gaps, tail);
    } else {
      gaps, tail := ReadIsLayout(l.rest, ts[1..]);
      TokenJoinsLayout(s, ws, body, ts, gaps, tail);
      gaps := [ws] + gaps;
    }
  }

  /** The scanner's exact language: the comment-free tokens of `s` are `ts` and the end
      mark if and only if `s` is a layout of `ts`, perhaps with an unfinished tail. */
  lemma LexerDecidesLayout(s: string, ts: seq<Token>)
    ensures Significant(Tokens(s)) == ts + [EOF] <==>
            exists gaps, tail :: ValidLayout(ts, gaps, tail) && s == Render(ts, gaps, tail)
  {
    if Significant(Tokens(s)) == ts + [EOF] {
      var gaps, tail := ReadIsLayout(s, ts);
    }
    forall gaps, tail | ValidLayout(ts, gaps, tail) && s == Render(ts, gaps, tail)
      ensures Significant(Tokens(s)) == ts + [EOF]
    {
      LayoutIsRead(ts, gaps, tail);
    }
  }

  lemma {:induction false} TokensAreAStream(s: string)
    ensures Stream(Tokens(s))
    decreases |s|
  {
    var l := Lex(s);
    if l.kind != Eof && l.kind != Error {
      var ws, body := LexShape(s);
      TokensAreAStream(l.rest);
      var ts := Tokens(l.rest);
      assert forall i :: 0 < i < |Tokens(s)| ==> Tokens(s)[i] == ts[i - 1];
    }
  }
}
