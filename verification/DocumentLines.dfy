/** Reading the lines of a Markdown document: any kind of line end, and tab expansion. */
module DocumentLines {
  import opened TextTools
  import opened InputStreams

  /** Tab widths: in the white space that starts a line, and after it. */
  datatype Tabs = Tabs(initial: nat, later: nat)

  predicate Usable(t: Tabs) {
    t.initial > 0 && t.later > 0
  }

  function Spaces(n: nat): (s: string)
    ensures |s| == n && forall c :: c in s ==> c == ' '
  {
    seq(n, i => ' ')
  }

  /** A tab fills up to the next multiple of the width. */
  function Fill(line: string, width: nat): (r: string)
    requires width > 0
    ensures |line| < |r| == width * (|line| / width + 1)
    ensures r[..|line|] == line && forall i :: |line| <= i < |r| ==> r[i] == ' '
  {
    NextMultiple(|line|, width);
    line + Spaces(width - |line| % width)
  }

  lemma NextMultiple(n: nat, width: nat)
    requires width > 0
    ensures n < n + (width - n % width) == width * (n / width + 1)
  {
  }

  /** The line so far, and whether it is all white space. */
  datatype Partial = Partial(line: string, initial: bool)

  const START := Partial("", true)

  function Put(p: Partial, c: char, t: Tabs): Partial
    requires Usable(t)
  {
    if c == '\t' then p.(line := Fill(p.line, if p.initial then t.initial else t.later))
    else Partial(p.line + [c], p.initial && c == ' ')
  }

  predicate EndsLine(c: char) {
    c == '\n' || c == '\r'
  }

  /** `\r` and `\n` come alone or as a pair, in either order. */
  predicate Pair(c: char, d: char) {
    (c == '\r' && d == '\n') || (c == '\n' && d == '\r')
  }

  datatype Line = Line(ok: bool, text: string, rest: string)

  function GetLine(p: Partial, s: string, t: Tabs): (l: Line)
    requires Usable(t)
    ensures l.ok && |p.line| == 0 ==> |l.rest| < |s|
    ensures |l.rest| <= |s|
    decreases |s|
  {
    if s == "" then Line(p.line != "", p.line, "")
    else if EndsLine(s[0]) then
      Line(true, p.line, if |s| > 1 && Pair(s[0], s[1]) then s[2..] else s[1..])
    else GetLine(Put(p, s[0], t), s[1..], t)
  }

  function Lines(s: string, t: Tabs): seq<string>
    requires Usable(t)
    decreases |s|
  {
    var l := GetLine(START, s, t);
    if !l.ok then [] else [l.text] + Lines(l.rest, t)
  }

  method ReadLine(input: InputStream, t: Tabs) returns (ok: bool, line: string)
    requires input.Valid() && Usable(t)
    modifies input
    ensures input.Valid()
    ensures Line(ok, line, input.Unread()) == GetLine(START, old(input.Unread()), t)
  {
    line := "";
    var initialWhitespace := true;
    while input.good
      invariant input.Valid()
      invariant GetLine(Partial(line, initialWhitespace), input.Unread(), t) == GetLine(START, old(input.Unread()), t)
      decreases input.good, |input.Unread()|
    {
      ghost var unread := input.Unread();
      var c := input.Get();
      if !input.good {
        break;
      }
      if c == '\r' || c == '\n' {
        var d := input.Get();
        if input.good && d != (if c == '\r' then '\n' else '\r') {
          input.Unget();
          assert input.Unread() == unread[1..];
        }
        return true, line;
      } else if c == '\t' {
        line := Fill(line, if initialWhitespace then t.initial else t.later);
      } else {
        line := line + [c];
        if c != ' ' { initialWhitespace := false; }
      }
    }
    ok := line != "";
  }

  datatype Token = BlankLine(text: string) | RawText(text: string)

  function ToToken(line: string, blank: string -> bool): Token {
    if blank(line) then BlankLine(line) else RawText(line)
  }

  /** Each line as a token: a blank line, or text. */
  function Sorted(lines: seq<string>, blank: string -> bool): (ts: seq<Token>)
    ensures |ts| == |lines|
    ensures forall i :: 0 <= i < |ts| ==> ts[i].text == lines[i] && (ts[i].BlankLine? <==> blank(lines[i]))
  {
    if lines == [] then [] else [ToToken(lines[0], blank)] + Sorted(lines[1..], blank)
  }

  /** The tokens made so far, and those of the unread lines, are those of all lines. */
  predicate Reading(tgt: seq<Token>, rest: string, t: Tabs, blank: string -> bool, all: seq<string>)
    requires Usable(t)
  {
    tgt + Sorted(Lines(rest, t), blank) == Sorted(all, blank)
  }

  lemma ReadingStarts(s: string, t: Tabs, blank: string -> bool)
    requires Usable(t)
    ensures Reading([], s, t, blank, Lines(s, t))
  {
  }

  lemma ReadingNext(tgt: seq<Token>, s: string, t: Tabs, blank: string -> bool, all: seq<string>)
    requires Usable(t) && Reading(tgt, s, t, blank, all)
    ensures var l := GetLine(START, s, t);
            && (l.ok ==> |l.rest| < |s| && Reading(tgt + [ToToken(l.text, blank)], l.rest, t, blank, all))
            && (!l.ok ==> tgt == Sorted(all, blank))
  {
    var l := GetLine(START, s, t);
    if l.ok {
      var token, more := ToToken(l.text, blank), Sorted(Lines(l.rest, t), blank);
      assert (tgt + [token]) + more == tgt + ([token] + more);
    } else {
      assert tgt + [] == tgt;
    }
  }

  class Document {
    const tabs: Tabs
    const isBlankLine: string -> bool
    var mTokens: seq<Token>
    var mProcessed: bool

    constructor (tabs: Tabs, isBlankLine: string -> bool)
      ensures this.tabs == tabs && this.isBlankLine == isBlankLine && mTokens == [] && !mProcessed
    {
      this.tabs, this.isBlankLine, mTokens, mProcessed := tabs, isBlankLine, [], false;
    }

    /** A processed document refuses and leaves the stream alone; any other gets the lines after
        those that it has. */
    method Read(input: InputStream) returns (ok: bool)
      requires input.Valid() && Usable(tabs)
      modifies this`mTokens, input
      ensures ok == !mProcessed && input.Valid()
      ensures ok ==> mTokens == old(mTokens) + Sorted(Lines(old(input.Unread()), tabs), isBlankLine)
      ensures !ok ==> mTokens == old(mTokens) && input.Unread() == old(input.Unread())
    {
      if mProcessed {
        return false;
      }
      hide Lines, GetLine, Reading, ToToken, Sorted;
      var tgt: seq<Token> := [];
      ghost var all := Lines(input.Unread(), tabs);
      ReadingStarts(input.Unread(), tabs, isBlankLine);
      while true
        invariant mTokens == old(mTokens) && input.Valid() && Reading(tgt, input.Unread(), tabs, isBlankLine, all)
        decreases |input.Unread()|
      {
        ghost var unread := input.Unread();
        var more, line := ReadLine(input, tabs);
        ReadingNext(tgt, unread, tabs, isBlankLine, all);
        if !more {
          break;
        }
        tgt := tgt + [ToToken(line, isBlankLine)];
      }
      mTokens := mTokens + tgt;
      ok := true;
    }
  }

  // ----- Line ends do not matter -----

  predicate LineEnd(e: string) {
    e in {"\n", "\r", "\r\n", "\n\r"}
  }

  predicate Unbroken(x: string) {
    '\n' !in x && '\r' !in x
  }

  /** Each line followed by the line end. */
  function Ended(xs: seq<string>, e: string): string {
    if xs == [] then "" else xs[0] + (e + Ended(xs[1..], e))
  }

  /** A line as it is read, tabs expanded. */
  function Expand(p: Partial, x: string, t: Tabs): Partial
    requires Usable(t)
    decreases |x|
  {
    if x == "" then p else Expand(Put(p, x[0], t), x[1..], t)
  }

  function Expanded(xs: seq<string>, t: Tabs): seq<string>
    requires Usable(t)
  {
    if xs == [] then [] else [Expand(START, xs[0], t).line] + Expanded(xs[1..], t)
  }

  /** What comes after a line end does not begin with a character that would pair with it. */
  predicate NoPair(e: string, rest: string) {
    |e| == 1 && rest != "" ==> !Pair(e[0], rest[0])
  }

  lemma {:induction false} LineIsRead(p: Partial, x: string, e: string, rest: string, t: Tabs)
    requires Usable(t) && Unbroken(x) && LineEnd(e) && NoPair(e, rest)
    ensures GetLine(p, x + (e + rest), t) == Line(true, Expand(p, x, t).line, rest)
    decreases |x|
  {
    var s := x + (e + rest);
    if x == "" {
      assert s == e + rest && s[0] == e[0];
      if |e| == 1 {
        assert s[1..] == rest;
      } else {
        assert s[1] == e[1] && s[2..] == rest;
      }
    } else {
      assert s[0] == x[0] && x[0] in x && s[1..] == x[1..] + (e + rest);
      LineIsRead(Put(p, x[0], t), x[1..], e, rest, t);
    }
  }

  lemma EndedStarts(xs: seq<string>, e: string)
    requires LineEnd(e) && forall x :: x in xs ==> Unbroken(x)
    ensures NoPair(e, Ended(xs, e))
  {
    if xs != [] {
      assert xs[0] in xs;
      var s := Ended(xs, e);
      assert s[0] == if xs[0] == "" then e[0] else xs[0][0];
      if xs[0] != "" { assert xs[0][0] in xs[0]; }
    }
  }

  /** Lines ended alike are read the same, whichever of the four ends they have. */
  lemma {:induction false} LineEndsDoNotMatter(xs: seq<string>, e: string, t: Tabs)
    requires Usable(t) && LineEnd(e) && forall x :: x in xs ==> Unbroken(x)
    ensures Lines(Ended(xs, e), t) == Expanded(xs, t)
    decreases |xs|
  {
    if xs != [] {
      assert xs[0] in xs;
      EndedStarts(xs[1..], e);
      LineIsRead(START, xs[0], e, Ended(xs[1..], e), t);
      LineEndsDoNotMatter(xs[1..], e, t);
    }
  }

  lemma {:induction false} UnendedIsRead(p: Partial, x: string, t: Tabs)
    requires Usable(t) && Unbroken(x)
    ensures GetLine(p, x, t) == Line(Expand(p, x, t).line != "", Expand(p, x, t).line, "")
    decreases |x|
  {
    if x != "" {
      assert x[0] in x;
      UnendedIsRead(Put(p, x[0], t), x[1..], t);
    }
  }

  lemma EndedThen(xs: seq<string>, e: string, x: string)
    requires LineEnd(e) && Unbroken(x) && forall y :: y in xs ==> Unbroken(y)
    ensures NoPair(e, Ended(xs, e) + x)
  {
    EndedStarts(xs, e);
    var rest := Ended(xs, e) + x;
    if xs == [] {
      assert rest == x && forall i :: 0 <= i < |x| ==> x[i] in x;
    } else {
      assert Ended(xs, e) != "" && rest[0] == Ended(xs, e)[0];
    }
  }

  lemma EndedJoins(a: string, e: string, b: string, x: string)
    ensures (a + (e + b)) + x == a + (e + (b + x))
  {
  }

  /** A last line without a line end is a line unless it is empty. */
  lemma {:induction false} LastLineRead(xs: seq<string>, e: string, x: string, t: Tabs)
    requires Usable(t) && LineEnd(e) && Unbroken(x) && forall y :: y in xs ==> Unbroken(y)
    ensures var last := Expand(START, x, t).line;
            Lines(Ended(xs, e) + x, t) == Expanded(xs, t) + if last == "" then [] else [last]
    decreases |xs|
  {
    if xs == [] {
      assert Ended(xs, e) + x == x;
      UnendedIsRead(START, x, t);
    } else {
      var rest := Ended(xs[1..], e) + x;
      assert xs[0] in xs;
      EndedThen(xs[1..], e, x);
      EndedJoins(xs[0], e, Ended(xs[1..], e), x);
      hide GetLine, NoPair;
      LineIsRead(START, xs[0], e, rest, t);
      LastLineRead(xs[1..], e, x, t);
    }
  }

  // ----- Reading is a normal form -----

  predicate Settled(x: string) {
    '\n' !in x && '\r' !in x && '\t' !in x
  }

  lemma {:induction false} LineIsSettled(p: Partial, s: string, t: Tabs)
    requires Usable(t) && Settled(p.line)
    ensures Settled(GetLine(p, s, t).text)
    decreases |s|
  {
    if s != "" && !EndsLine(s[0]) {
      if s[0] == '\t' {
        FillSettled(p.line, if p.initial then t.initial else t.later);
      }
      LineIsSettled(Put(p, s[0], t), s[1..], t);
    }
  }

  lemma FillSettled(line: string, width: nat)
    requires width > 0 && Settled(line)
    ensures Settled(Fill(line, width))
  {
  }

  lemma {:induction false} LinesAreSettled(s: string, t: Tabs)
    requires Usable(t)
    ensures forall x :: x in Lines(s, t) ==> Settled(x)
    decreases |s|
  {
    var l := GetLine(START, s, t);
    if l.ok {
      LineIsSettled(START, s, t);
      LinesAreSettled(l.rest, t);
    }
  }

  lemma {:induction false} SettledStays(p: Partial, x: string, t: Tabs)
    requires Usable(t) && Settled(x)
    ensures Expand(p, x, t).line == p.line + x
    decreases |x|
  {
    if x == "" {
      assert p.line + x == p.line;
    } else {
      assert x[0] in x && x == [x[0]] + x[1..];
      SettledStays(Put(p, x[0], t), x[1..], t);
      Regroup(p.line, [x[0]], x[1..]);
    }
  }

  lemma {:induction false} SettledExpanded(xs: seq<string>, t: Tabs)
    requires Usable(t) && forall x :: x in xs ==> Settled(x)
    ensures Expanded(xs, t) == xs
    decreases |xs|
  {
    if xs != [] {
      assert xs[0] in xs;
      SettledStays(START, xs[0], t);
      assert "" + xs[0] == xs[0];
      SettledExpanded(xs[1..], t);
    }
  }

  /** The lines of any text, written out with any of the line ends, are read back as they are. */
  lemma LinesReadBack(s: string, e: string, t: Tabs)
    requires Usable(t) && LineEnd(e)
    ensures Lines(Ended(Lines(s, t), e), t) == Lines(s, t)
  {
    LinesAreSettled(s, t);
    LineEndsDoNotMatter(Lines(s, t), e, t);
    SettledExpanded(Lines(s, t), t);
  }

  // ----- Tabs -----

  lemma {:induction false} ExpandLast(p: Partial, x: string, c: char, t: Tabs)
    requires Usable(t)
    ensures Expand(p, x + [c], t) == Put(Expand(p, x, t), c, t)
    decreases |x|
  {
    if x == "" {
      assert x + [c] == [c] && [c][1..] == "";
    } else {
      assert (x + [c])[1..] == x[1..] + [c];
      ExpandLast(Put(p, x[0], t), x[1..], c, t);
    }
  }

  /** Nothing but spaces and tabs so far. */
  predicate Initial(x: string) {
    forall i :: 0 <= i < |x| ==> x[i] == ' ' || x[i] == '\t'
  }

  lemma {:induction false} InitialIs(x: string, t: Tabs)
    requires Usable(t)
    ensures Expand(START, x, t).initial <==> Initial(x)
    decreases |x|
  {
    if x != "" {
      var before := x[..|x| - 1];
      InitialIs(before, t);
      ExpandLast(START, before, x[|x| - 1], t);
      assert before + [x[|x| - 1]] == x;
    }
  }

  /** How a line is read: a tab fills it up, with one width as long as there is only white space and
      the other after that; every other character is put at its end. */
  lemma CharacterRead(x: string, c: char, t: Tabs)
    requires Usable(t)
    ensures Expand(START, x + [c], t).line ==
            if c == '\t' then Fill(Expand(START, x, t).line, if Initial(x) then t.initial else t.later)
            else Expand(START, x, t).line + [c]
  {
    ExpandLast(START, x, c, t);
    InitialIs(x, t);
  }
}
