/** The parser as it is written: mutable nodes and a stack of them, fed by a stream with unget. */
module ConfigParser {
  import opened InputStreams
  import opened ConfigTree
  import opened ConfigGrammar
  import opened ConfigLexer
  import ConfigRoundTrip

  class NginxConfigStatement {
    var tokens_: seq<string>
    var child_block_: NginxConfig?

    constructor ()
      ensures tokens_ == [] && child_block_ == null
    {
      tokens_, child_block_ := [], null;
    }

    method ToString(depth: nat, ghost v: Statement, ghost owned: set<object>) returns (s: string)
      requires Holds(this, v, owned)
      ensures s == PrintStatement(v, depth)
      decreases v, 1
    {
      s := "";
      for i := 0 to depth
        invariant s == Indent(i)
      {
        s := s + "  ";
      }
      ghost var head := s;
      for i := 0 to |tokens_|
        invariant s == head + Joined(tokens_[..i])
      {
        if i != 0 {
          s := s + " ";
        }
        s := s + tokens_[i];
        assert tokens_[..i + 1][..i] == tokens_[..i];
      }
      assert tokens_[..|tokens_|] == v.tokens;
      if child_block_ != null {
        s := s + " {\n";
        var body := child_block_.ToString(depth + 1, v.block, owned);
        s := s + body;
        ghost var before := s;
        for i := 0 to depth
          invariant s == before + Indent(i)
        {
          s := s + "  ";
        }
        s := s + "}";
      } else {
        s := s + ";";
      }
      s := s + "\n";
    }
  }

  class NginxConfig {
    var statements_: seq<NginxConfigStatement>

    constructor ()
      ensures statements_ == []
    {
      statements_ := [];
    }

    method ToString(depth: nat, ghost vs: seq<Statement>, ghost owned: set<object>) returns (s: string)
      requires HoldsAll(statements_, vs, owned)
      ensures s == Print(vs, depth)
      decreases vs, 0
    {
      s := "";
      for i := 0 to |statements_|
        invariant s == Print(vs[..i], depth)
      {
        var one := statements_[i].ToString(depth, vs[i], owned);
        s := s + one;
        assert vs[..i + 1][..i] == vs[..i];
      }
      assert vs[..|statements_|] == vs;
    }
  }

  /** The node `s` holds the statement `v`, all of its nodes being in `owned`. */
  ghost predicate Holds(s: NginxConfigStatement, v: Statement, owned: set<object>)
    reads owned
    decreases v, 1
  {
    && s in owned
    && s.tokens_ == v.tokens
    && match v
       case Simple(_) => s.child_block_ == null
       case Nested(_, b) =>
         && s.child_block_ != null && s.child_block_ in owned
         && HoldsAll(s.child_block_.statements_, b, owned)
  }

  ghost predicate HoldsAll(ss: seq<NginxConfigStatement>, vs: seq<Statement>, owned: set<object>)
    reads owned
    decreases vs, 0
  {
    |ss| == |vs| && forall i :: 0 <= i < |ss| ==> Holds(ss[i], vs[i], owned)
  }

  /** One token. The value is meaningful except at the end of the input. */
  method ParseToken(input: InputStream) returns (kind: TokenType, value: string)
    requires input.Valid()
    modifies input
    ensures input.Valid()
    ensures var l := Lex(old(input.Unread()));
            kind == l.kind && input.Unread() == l.rest && value == l.text
  {
    var state := InitialWhitespace;
    value := "";
    while input.good
      invariant input.Valid()
      invariant Scan(state, value, input.Unread()) == Lex(old(input.Unread()))
      decreases input.good, |input.Unread()|
    {
      ghost var unread := input.Unread();
      var c := input.Get();
      if !input.good {
        break;
      }
      match state
      case InitialWhitespace =>
        if c == '{' {
          value := [c];
          return StartBlock, value;
        } else if c == '}' {
          value := [c];
          return EndBlock, value;
        } else if c == '#' {
          value := [c];
          state := InComment;
        } else if c == '"' {
          value := [c];
          state := DoubleQuote;
        } else if c == '\'' {
          value := [c];
          state := SingleQuote;
        } else if c == ';' {
          value := [c];
          return StatementEnd, value;
        } else if c == ' ' || c == '\t' || c == '\n' || c == '\r' {
        } else {
          value := value + [c];
          state := InWord;
        }
      case SingleQuote =>
        value := value + [c];
        if c == '\'' {
          return Normal, value;
        }
      case DoubleQuote =>
        value := value + [c];
        if c == '"' {
          return Normal, value;
        }
      case InComment =>
        if c == '\n' || c == '\r' {
          return Comment, value;
        }
        value := value + [c];
      case InWord =>
        if c == ' ' || c == '\t' || c == '\n' || c == ';' || c == '{' || c == '}' {
          input.Unget();
          assert input.Unread() == unread;
          return Normal, value;
        }
        value := value + [c];
    }
    if state == SingleQuote || state == DoubleQuote {
      return Error, value;
    }
    return Eof, value;
  }

  // ----- The stack of unfinished nodes -----

  lemma {:induction false} HoldsWiden(s: NginxConfigStatement, v: Statement, owned: set<object>, wider: set<object>)
    requires Holds(s, v, owned) && owned <= wider
    ensures Holds(s, v, wider)
    decreases v, 1
  {
    if v.Nested? {
      HoldsAllWiden(s.child_block_.statements_, v.block, owned, wider);
    }
  }

  lemma {:induction false} HoldsAllWiden(ss: seq<NginxConfigStatement>, vs: seq<Statement>, owned: set<object>,
                                         wider: set<object>)
    requires HoldsAll(ss, vs, owned) && owned <= wider
    ensures HoldsAll(ss, vs, wider)
    decreases vs, 0
  {
    forall i | 0 <= i < |ss| ensures Holds(ss[i], vs[i], wider) {
      HoldsWiden(ss[i], vs[i], owned, wider);
    }
  }

  /** The nodes `ss` hold `vs`, except that the last of them, `o`, has its words but is not finished. */
  ghost predicate HoldsOpen(ss: seq<NginxConfigStatement>, words: seq<string>, vs: seq<Statement>,
                            o: NginxConfigStatement, owned: set<object>)
    reads owned
  {
    var n := |vs| - 1;
    && |ss| == |vs| && n >= 0
    && ss[n] == o && o !in owned
    && vs[n].Simple? && words == vs[n].tokens
    && HoldsAll(ss[..n], vs[..n], owned)
  }

  /** The frame at level `i`, after the statements that the outermost node had before. */
  ghost function Frame(pre: seq<Statement>, outer: seq<seq<Statement>>, i: nat): seq<Statement>
    requires i < |outer|
  {
    if i == 0 then pre + outer[0] else outer[i]
  }

  ghost function TopFrame(pre: seq<Statement>, st: ParserState): seq<Statement> {
    if st.outer == [] then pre + st.top else st.top
  }

  ghost predicate Distinct<T>(xs: seq<T>) {
    forall i, j :: 0 <= i < j < |xs| ==> xs[i] != xs[j]
  }

  /** Below the top, level `i` holds its frame, and the block it has open is the next node. */
  ghost predicate Level(stack: seq<NginxConfig>, opens: seq<NginxConfigStatement>, pre: seq<Statement>,
                        outer: seq<seq<Statement>>, i: nat, owned: set<object>)
    requires i < |outer| && |stack| == |outer| + 1 && |opens| >= |outer|
    reads stack, opens, owned
  {
    HoldsOpen(stack[i].statements_, opens[i].tokens_, Frame(pre, outer, i), opens[i], owned)
    && opens[i].child_block_ == stack[i + 1]
  }

  ghost predicate TopLevel(c: NginxConfig, opens: seq<NginxConfigStatement>, pre: seq<Statement>,
                           st: ParserState, owned: set<object>)
    reads c, opens, owned
  {
    var n := |st.outer|;
    if st.last == Normal
    then
      && |opens| == n + 1 && opens[n].child_block_ == null
      && HoldsOpen(c.statements_, opens[n].tokens_, TopFrame(pre, st), opens[n], owned)
    else |opens| == n && HoldsAll(c.statements_, TopFrame(pre, st), owned)
  }

  ghost predicate Levels(stack: seq<NginxConfig>, opens: seq<NginxConfigStatement>, pre: seq<Statement>,
                         outer: seq<seq<Statement>>, owned: set<object>)
    requires |stack| == |outer| + 1 && |opens| >= |outer|
    reads stack, opens, owned
  {
    forall i {:trigger Level(stack, opens, pre, outer, i, owned)} :: 0 <= i < |outer| ==>
      Level(stack, opens, pre, outer, i, owned)
  }

  /** The stack is the path of last child blocks, and each level holds its frame. */
  ghost predicate Spine(stack: seq<NginxConfig>, opens: seq<NginxConfigStatement>, pre: seq<Statement>,
                        st: ParserState, owned: set<object>)
    reads stack, opens, owned
  {
    var n := |st.outer|;
    && |stack| == n + 1 && Distinct(stack) && (forall c :: c in stack ==> c !in owned)
    && TopLevel(stack[n], opens, pre, st, owned) && Distinct(opens)
    && Levels(stack, opens, pre, st.outer, owned)
  }

  /** Level `i` keeps its frame in a taller or shorter stack, as more nodes are finished. */
  lemma LevelKept(stack: seq<NginxConfig>, opens: seq<NginxConfigStatement>, pre: seq<Statement>,
                  outer: seq<seq<Statement>>, i: nat, owned: set<object>,
                  stack': seq<NginxConfig>, opens': seq<NginxConfigStatement>, outer': seq<seq<Statement>>, wider: set<object>)
    requires i < |outer| && |stack| == |outer| + 1 && |opens| >= |outer|
    requires i < |outer'| && |stack'| == |outer'| + 1 && |opens'| >= |outer'|
    requires Level(stack, opens, pre, outer, i, owned) && owned <= wider
    requires stack'[i] == stack[i] && stack'[i + 1] == stack[i + 1]
    requires opens'[i] == opens[i] && opens[i] !in wider && outer'[i] == outer[i]
    ensures Level(stack', opens', pre, outer', i, wider)
  {
    var vs := Frame(pre, outer, i);
    HoldsAllWiden(stack[i].statements_[..|vs| - 1], vs[..|vs| - 1], owned, wider);
  }

  /** A frame whose open statement gets finished as `v`. */
  lemma FrameFinished(c: NginxConfig, vs: seq<Statement>, o: NginxConfigStatement, v: Statement,
                      owned: set<object>, wider: set<object>)
    requires HoldsOpen(c.statements_, o.tokens_, vs, o, owned) && owned <= wider && Holds(o, v, wider)
    ensures HoldsAll(c.statements_, vs[..|vs| - 1] + [v], wider)
  {
    var n := |vs| - 1;
    HoldsAllWiden(c.statements_[..n], vs[..n], owned, wider);
    forall i | 0 <= i < |vs| ensures Holds(c.statements_[i], (vs[..n] + [v])[i], wider) {
      if i < n {
        assert c.statements_[i] == c.statements_[..n][i] && vs[i] == vs[..n][i];
      }
    }
  }

  /** After `;` the open statement is finished. */
  lemma FinishStatement(stack: seq<NginxConfig>, opens: seq<NginxConfigStatement>, pre: seq<Statement>,
                        st: ParserState, owned: set<object>)
    requires Shaped(st) && st.last == Normal && Spine(stack, opens, pre, st, owned)
    ensures Spine(stack, opens[..|st.outer|], pre, st.(last := StatementEnd), owned + {opens[|st.outer|]})
  {
    var n := |st.outer|;
    var o, wider := opens[n], owned + {opens[n]};
    var vs := TopFrame(pre, st);
    var v := vs[|vs| - 1];
    FrameFinished(stack[n], vs, o, v, owned, wider);
    assert vs[..|vs| - 1] + [v] == vs;
    forall i | 0 <= i < n ensures Level(stack, opens[..n], pre, st.outer, i, wider) {
      LevelKept(stack, opens, pre, st.outer, i, owned, stack, opens[..n], st.outer, wider);
    }
  }

  /** Leaving a block finishes its node and the statement that owns it. */
  lemma PopLevel(stack: seq<NginxConfig>, opens: seq<NginxConfigStatement>, pre: seq<Statement>,
                 st: ParserState, owned: set<object>)
    requires Shaped(st) && st.last != Normal && st.outer != [] && Spine(stack, opens, pre, st, owned)
    ensures var n := |st.outer| - 1;
            Spine(stack[..n + 1], opens[..n], pre, Popped(st), owned + {stack[n + 1], opens[n]})
  {
    var n := |st.outer| - 1;
    var c, o := stack[n + 1], opens[n];
    var wider := owned + {c, o};
    var next := Popped(st);
    assert Level(stack, opens, pre, st.outer, n, owned);
    assert EndsOpen(st.outer[n]);
    var vs := Frame(pre, st.outer, n);
    var v := Nested(vs[|vs| - 1].tokens, st.top);
    HoldsAllWiden(c.statements_, st.top, owned, wider);
    FrameFinished(stack[n], vs, o, v, owned, wider);
    if n == 0 {
      assert vs[..|vs| - 1] == pre + st.outer[0][..|st.outer[0]| - 1];
    }
    assert TopFrame(pre, next) == vs[..|vs| - 1] + [v];
    var stack', opens', outer' := stack[..n + 1], opens[..n], next.outer;
    forall i | 0 <= i < n ensures Level(stack', opens', pre, outer', i, wider) {
      assert Level(stack, opens, pre, st.outer, i, owned);
      LevelKept(stack, opens, pre, st.outer, i, owned, stack', opens', outer', wider);
    }
  }

  /** What is left to do when the parser has reached `st` with the text `s` unread. */
  function Pending(st: ParserState, s: string): Outcome
    requires Shaped(st)
  {
    Run(st, Tokens(s))
  }

  function Stopped(st: ParserState): Outcome
    requires Shaped(st)
  {
    Rejected(Collapse(st.outer, st.top))
  }

  /** The answer when the loop is left on a token of this kind. */
  function Ended(st: ParserState, kind: TokenType): Outcome
    requires Shaped(st)
  {
    if kind == Eof && (st.last == StatementEnd || st.last == EndBlock) && st.outer == []
    then Accepted(st.top) else Stopped(st)
  }

  /** What the parser loop makes of the next lexeme. */
  function Taken(st: ParserState, l: Lexeme): Outcome
    requires Shaped(st)
  {
    match l.kind
    case Comment => Pending(st, l.rest)
    case Error => Stopped(st)
    case Eof => Ended(st, Eof)
    case _ =>
      var m := Step(st, Token(l.kind, l.text));
      if m.Go? then Pending(m.next, l.rest) else Ended(st, l.kind)
  }

  /** When the parser stops, the tree under the outermost node is the collapsed frames. */
  lemma {:induction false} CollapseSpine(stack: seq<NginxConfig>, opens: seq<NginxConfigStatement>, pre: seq<Statement>,
                                         st: ParserState, owned: set<object>)
    returns (nodes: set<object>)
    requires Shaped(st) && Spine(stack, opens, pre, st, owned)
    ensures HoldsAll(stack[0].statements_, pre + Stopped(st).partial, nodes)
    decreases |st.outer|, st.last == Normal
  {
    if st.last == Normal {
      FinishStatement(stack, opens, pre, st, owned);
      nodes := CollapseSpine(stack, opens[..|st.outer|], pre, st.(last := StatementEnd), owned + {opens[|st.outer|]});
    } else if st.outer == [] {
      nodes := owned;
    } else {
      PopLevel(stack, opens, pre, st, owned);
      var n := |st.outer| - 1;
      nodes := CollapseSpine(stack[..n + 1], opens[..n], pre, Popped(st), owned + {stack[n + 1], opens[n]});
    }
  }

  lemma PendingUnfolds(st: ParserState, s: string)
    requires Shaped(st)
    ensures Pending(st, s) == Taken(st, Lex(s))
  {
    var l := Lex(s);
    var ts := Tokens(s);
    if l.kind != Eof && l.kind != Error {
      assert ts[1..] == Tokens(l.rest);
    }
  }

  /** The next lexeme, as the loop sees it: the parser goes on exactly when the step does. */
  lemma NextToken(st: ParserState, s: string)
    requires Shaped(st)
    ensures var l := Lex(s);
            var m := Step(st, Token(l.kind, l.text));
            && (l.kind == Comment ==> Pending(st, s) == Pending(st, l.rest) && |l.rest| < |s|)
            && (l.kind != Comment && m.Go? ==> Pending(st, s) == Pending(m.next, l.rest) && |l.rest| < |s|)
            && (l.kind != Comment && !m.Go? ==> Pending(st, s) == Ended(st, l.kind))
            && (m.Go? ==> m.next.last == l.kind)
  {
    PendingUnfolds(st, s);
  }

  /** The parser's answer, and the tree it leaves behind even when it fails. */
  ghost predicate Reports(config: NginxConfig, pre: seq<Statement>, ok: bool, outcome: Outcome, nodes: set<object>)
    reads config, nodes
  {
    match outcome
    case Accepted(tree) => ok && HoldsAll(config.statements_, pre + tree, nodes)
    case Rejected(partial) => !ok && HoldsAll(config.statements_, pre + partial, nodes)
  }

  method Parse(input: InputStream, config: NginxConfig, ghost pre: seq<Statement>, ghost owned: set<object>)
    returns (ok: bool, ghost nodes: set<object>)
    requires input.Valid()
    requires config !in owned && HoldsAll(config.statements_, pre, owned)
    requires input !in owned
    modifies input, config
    ensures input.Valid()
    ensures Reports(config, pre, ok, ConfigRoundTrip.ParseText(old(input.Unread())), nodes)
  {
    var config_stack := [config];
    var last_token_type := Start;
    var block_num := 0;
    ghost var outcome := ConfigRoundTrip.ParseText(input.Unread());
    ghost var opens: seq<NginxConfigStatement> := [];
    ghost var st := INITIAL;
    ghost var mine: set<object> := {};
    nodes := owned;
    assert pre + [] == pre;
    assert Spine(config_stack, opens, pre, st, nodes) && Built(config, config_stack, opens, mine);
    assert outcome == Pending(st, input.Unread());
    hide *;
    while true
      invariant input.Valid() && input !in nodes
      invariant Shaped(st) && st.last == last_token_type && block_num == |st.outer|
      invariant Spine(config_stack, opens, pre, st, nodes)
      invariant fresh(mine) && Built(config, config_stack, opens, mine)
      invariant Pending(st, input.Unread()) == outcome
      decreases |input.Unread()|
    {
      NextToken(st, input.Unread());
      var token_type, token := ParseToken(input);
      if token_type == Comment {
        continue;
      }
      var more;
      more, ok, config_stack, block_num, opens, nodes, mine :=
        TakeToken(config, config_stack, last_token_type, block_num, token_type, token, opens, pre, st, nodes, mine);
      if !more {
        return;
      }
      st := Step(st, Token(token_type, token)).next;
      last_token_type := token_type;
    }
  }

  /** The branches of the loop body; `more` is false where the loop is left. */
  method TakeToken(config: NginxConfig, config_stack: seq<NginxConfig>, last_token_type: TokenType, block_num: int,
                   token_type: TokenType, token: string,
                   ghost opens: seq<NginxConfigStatement>, ghost pre: seq<Statement>,
                   ghost st: ParserState, ghost nodes: set<object>, ghost mine: set<object>)
    returns (more: bool, ok: bool, stack': seq<NginxConfig>, block_num': int,
             ghost opens': seq<NginxConfigStatement>, ghost nodes': set<object>, ghost mine': set<object>)
    requires token_type != Comment
    requires Shaped(st) && last_token_type == st.last && block_num == |st.outer|
    requires Built(config, config_stack, opens, mine) && Spine(config_stack, opens, pre, st, nodes)
    modifies config, mine
    ensures var m := Step(st, Token(token_type, token));
            && more == m.Go?
            && (more ==>
                 && Spine(stack', opens', pre, m.next, nodes') && block_num' == |m.next.outer|
                 && mine <= mine' && fresh(mine' - mine) && Built(config, stack', opens', mine')
                 && nodes' <= nodes + mine)
            && (!more ==> Reports(config, pre, ok, Ended(st, token_type), nodes'))
  {
    more, ok, stack', block_num', opens', nodes', mine' := false, false, config_stack, block_num, opens, nodes, mine;
    var n := |config_stack| - 1;
    if token_type == Normal {
      if last_token_type != Normal {
        opens', mine' := BeginStatement(config, config_stack, token, opens, pre, st, nodes, mine);
      } else {
        AddToken(config, config_stack, token, opens, pre, st, nodes, mine);
      }
      more := true;
    } else if token_type == StatementEnd {
      if last_token_type == Normal {
        FinishStatement(config_stack, opens, pre, st, nodes);
        opens', nodes' := opens[..n], nodes + {opens[n]};
        more := true;
      }
    } else if token_type == StartBlock {
      if last_token_type == Normal {
        block_num' := block_num + 1;
        stack', mine' := PushBlock(config, config_stack, opens, pre, st, nodes, mine);
        more := true;
      }
    } else if token_type == EndBlock {
      if block_num != 0 {
        block_num' := block_num - 1;
        if last_token_type == StatementEnd || last_token_type == EndBlock {
          PopLevel(config_stack, opens, pre, st, nodes);
          opens', nodes' := opens[..n - 1], nodes + {config_stack[n], opens[n - 1]};
          stack' := config_stack[..n];
          more := true;
        }
      }
    } else if token_type == Eof {
      ok := (last_token_type == StatementEnd || last_token_type == EndBlock) && block_num == 0;
    }
    if !more && !ok {
      nodes' := CollapseSpine(config_stack, opens, pre, st, nodes);
    }
  }

  /** Apart from the outermost node, the unfinished nodes are ones this parse allocated. */
  ghost predicate Built(config: NginxConfig, stack: seq<NginxConfig>, opens: seq<NginxConfigStatement>,
                        mine: set<object>) {
    && |stack| > 0 && stack[0] == config
    && (forall i :: 0 < i < |stack| ==> stack[i] in mine)
    && (forall i :: 0 <= i < |opens| ==> opens[i] in mine)
  }

  /** The first word of a statement. */
  method BeginStatement(config: NginxConfig, config_stack: seq<NginxConfig>, token: string,
                        ghost opens: seq<NginxConfigStatement>, ghost pre: seq<Statement>,
                        ghost st: ParserState, ghost nodes: set<object>, ghost mine: set<object>)
    returns (ghost opens': seq<NginxConfigStatement>, ghost mine': set<object>)
    requires Built(config, config_stack, opens, mine)
    requires Shaped(st) && st.last != Normal && Spine(config_stack, opens, pre, st, nodes)
    modifies config, mine
    ensures Spine(config_stack, opens', pre, Step(st, Token(Normal, token)).next, nodes)
    ensures mine <= mine' && fresh(mine' - mine) && Built(config, config_stack, opens', mine')
  {
    var top := config_stack[|config_stack| - 1];
    ghost var us := TopFrame(pre, Step(st, Token(Normal, token)).next);
    var statement := new NginxConfigStatement();
    top.statements_ := top.statements_ + [statement];
    statement.tokens_ := statement.tokens_ + [token];
    opens', mine' := opens + [statement], mine + {statement};
    assert us[..|us| - 1] == TopFrame(pre, st);
    assert top.statements_[..|us| - 1] == old(top.statements_);
    forall i | 0 <= i < |st.outer| ensures Level(config_stack, opens', pre, st.outer, i, nodes) {
      assert old(Level(config_stack, opens, pre, st.outer, i, nodes));
    }
  }

  lemma AddedWord(pre: seq<Statement>, st: ParserState, word: string)
    requires Shaped(st) && st.last == Normal
    ensures var next := Step(st, Token(Normal, word)).next;
            var us, vs := TopFrame(pre, next), TopFrame(pre, st);
            && next.outer == st.outer && next.last == Normal
            && |us| == |vs| > 0 && us[..|us| - 1] == vs[..|vs| - 1]
            && (vs[|vs| - 1].Simple? ==> us[|us| - 1] == Simple(vs[|vs| - 1].tokens + [word]))
  {
  }

  /** A further word of the statement being read. */
  method AddToken(config: NginxConfig, config_stack: seq<NginxConfig>, token: string,
                  ghost opens: seq<NginxConfigStatement>, ghost pre: seq<Statement>,
                  ghost st: ParserState, ghost nodes: set<object>, ghost mine: set<object>)
    requires Built(config, config_stack, opens, mine)
    requires Shaped(st) && st.last == Normal && Spine(config_stack, opens, pre, st, nodes)
    modifies config, mine
    ensures Spine(config_stack, opens, pre, Step(st, Token(Normal, token)).next, nodes)
  {
    var top := config_stack[|config_stack| - 1];
    var back := top.statements_[|top.statements_| - 1];
    back.tokens_ := back.tokens_ + [token];
    assert Levels(config_stack, opens, pre, st.outer, nodes) by {
      hide HoldsAll, HoldsOpen, TopLevel, TopFrame, Step;
      forall i | 0 <= i < |st.outer| ensures Level(config_stack, opens, pre, st.outer, i, nodes) {
        assert old(Level(config_stack, opens, pre, st.outer, i, nodes));
      }
    }
    ghost var next := Step(st, Token(Normal, token)).next;
    assert TopLevel(top, opens, pre, next, nodes) by {
      AddedWord(pre, st, token);
      hide HoldsAll, TopFrame, Step, Level, Levels;
    }
    hide HoldsAll, HoldsOpen, TopLevel, TopFrame, Level, Levels;
  }

  /** The open-brace branch: a new node becomes the child block of the statement just read. */
  method PushBlock(config: NginxConfig, config_stack: seq<NginxConfig>, ghost opens: seq<NginxConfigStatement>,
                   ghost pre: seq<Statement>, ghost st: ParserState,
                   ghost nodes: set<object>, ghost mine: set<object>)
    returns (stack': seq<NginxConfig>, ghost mine': set<object>)
    requires Built(config, config_stack, opens, mine)
    requires Shaped(st) && st.last == Normal && Spine(config_stack, opens, pre, st, nodes)
    modifies config, mine
    ensures Spine(stack', opens, pre, Step(st, OPEN).next, nodes)
    ensures mine <= mine' && fresh(mine' - mine) && Built(config, stack', opens, mine')
  {
    var top := config_stack[|config_stack| - 1];
    ghost var n := |st.outer|;
    var new_config := new NginxConfig();
    var back := top.statements_[|top.statements_| - 1];
    back.child_block_ := new_config;
    stack', mine' := config_stack + [new_config], mine + {new_config};
    ghost var next := Step(st, OPEN).next;
    assert Frame(pre, next.outer, n) == TopFrame(pre, st);
    forall i | 0 <= i <= n ensures Level(stack', opens, pre, next.outer, i, nodes) {
      if i < n {
        assert old(Level(config_stack, opens, pre, st.outer, i, nodes));
        assert opens[i] != back;
        assert Frame(pre, next.outer, i) == Frame(pre, st.outer, i);
      }
    }
  }
}
