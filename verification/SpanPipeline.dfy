/** The span passes one after the other, from a source text to the pieces that emphasis leaves. */
module SpanPipeline {
  import opened TextTools
  import opened HtmlEncoding
  import opened Placeholders
  import opened PlaceholderPasses
  import opened SpanText
  import opened SpanPasses
  import opened Emphasis
  import opened EmphasisPairing
  import opened EmphasisSpans

  /** The working text and what the table's entries write as their original. */
  datatype Working = Working(text: string, table: seq<string>)

  /** A pass that pushes an entry for each span it cuts out, or the one that escapes. */
  datatype Pass = Cutting(spans: seq<Span>, rest: string, added: seq<string>) | Escaping

  /** The spans of a cutting pass are found in the text it starts from. */
  predicate Fits(w: Working, p: Pass) {
    p.Cutting? ==> SpansOk(p.spans) && |p.added| == |p.spans| && w.text == Divided(p.spans, p.rest)
  }

  function Apply(w: Working, p: Pass): Working {
    match p
    case Cutting(spans, rest, added) => Working(Replaced(spans, rest, |w.table|), w.table + added)
    case Escaping => Working(Escape(w.text), w.table)
  }

  function Run(w: Working, ps: seq<Pass>): Working
    decreases |ps|
  {
    if ps == [] then w else Apply(Run(w, ps[..|ps| - 1]), ps[|ps| - 1])
  }

  predicate Possible(w: Working, ps: seq<Pass>)
    decreases |ps|
  {
    ps != [] ==> Possible(w, ps[..|ps| - 1]) && Fits(Run(w, ps[..|ps| - 1]), ps[|ps| - 1])
  }

  /** The entry of every span is what the span restores to when it is cut out. */
  ghost predicate Faithful(w: Working, p: Pass)
    requires Fits(w, p)
  {
    p.Cutting? ==> EntriesRestore(p.spans, |w.table|, w.table, w.table + p.added)
  }

  ghost predicate AllFaithful(w: Working, ps: seq<Pass>)
    requires Possible(w, ps)
    decreases |ps|
  {
    ps != [] ==> AllFaithful(w, ps[..|ps| - 1]) && Faithful(Run(w, ps[..|ps| - 1]), ps[|ps| - 1])
  }

  lemma {:induction false} TableGrows(w: Working, ps: seq<Pass>)
    requires ps != []
    ensures |Run(w, ps[..|ps| - 1]).table| <= |Run(w, ps).table|
  {
  }

  /** Over every run of passes from a source without the marker character, all placeholders
      stay whole and below the size of the table, so decoding never fails. When each pass
      records what it cuts out, restoring gives back the source. */
  lemma {:induction false} PassesTheorem(src: string, ps: seq<Pass>)
    requires SOH !in src && Possible(Working(src, []), ps) && |Run(Working(src, []), ps).table| <= WORDS
    ensures var w := Run(Working(src, []), ps);
            && Encoded(w.text, |w.table|)
            && Restore(w.text, w.table).Restored?
            && (AllFaithful(Working(src, []), ps) ==> Restore(w.text, w.table) == Restored(src))
    decreases |ps|
  {
    var start := Working(src, []);
    if ps == [] {
      PlainIsEncoded(src);
      EncodedRestores(src, []);
      PlainWrites(src, []);
    } else {
      var before, p := Run(start, ps[..|ps| - 1]), ps[|ps| - 1];
      TableGrows(start, ps);
      PassesTheorem(src, ps[..|ps| - 1]);
      PassKeeps(before, p);
    }
  }

  /** One pass: the working text stays one, and a faithful pass restores to the same. */
  lemma PassKeeps(w: Working, p: Pass)
    requires Fits(w, p) && Encoded(w.text, |w.table|) && |Apply(w, p).table| <= WORDS
    ensures var w' := Apply(w, p);
            && Encoded(w'.text, |w'.table|) && Restore(w'.text, w'.table).Restored?
            && (Faithful(w, p) ==> Restore(w'.text, w'.table) == Restore(w.text, w.table))
  {
    var w' := Apply(w, p);
    if p.Cutting? {
      PassStaysEncoded(p.spans, p.rest, |w.table|);
      if Faithful(w, p) {
        PassRestores(p.spans, p.rest, w.table, p.added);
      }
    } else {
      EscapeIsInvisible(w.text, w.table);
    }
    EncodedRestores(w'.text, w'.table);
  }

  // ----- What survives up to the escapes -----

  /** The attribute pass: each string that it cuts out of a tag is kept encoded. */
  function Attributes(spans: seq<Span>): (entries: seq<string>)
    ensures |entries| == |spans|
  {
    seq(|spans|, i requires 0 <= i < |spans| => Encode(spans[i].cut, AMPS_AND_ANGLES))
  }

  /** No attribute holds an angle bracket, or an ampersand without a reference at or after it. */
  predicate AllClean(spans: seq<Span>) {
    forall sp :: sp in spans ==> Clean(sp.cut)
  }

  lemma PlainWrites(s: string, table: seq<string>)
    requires SOH !in s && |table| <= WORDS
    ensures Restore(s, table) == Restored(s) && Written(s, table) == s
  {
    var items := PlainIsRendered(s);
    assert Good(items, |table|) && OriginalText(items, table) == s;
    RenderRestores(items, table);
  }

  /** The entry of an attribute is what its span restores to exactly when the span is clean. */
  lemma AttributeIsFaithfulIff(cut: string, table: seq<string>)
    requires SOH !in cut && |table| <= WORDS
    ensures EntryRestores(cut, table, Encode(cut, AMPS_AND_ANGLES)) <==> Clean(cut)
  {
    PlainWrites(cut, table);
    EncodeGrows(cut);
  }

  lemma PlainParts(sp: Span, after: string)
    requires SOH !in sp.keep + (sp.cut + after)
    ensures SOH !in sp.keep && SOH !in sp.cut && SOH !in after
  {
    var whole := sp.keep + (sp.cut + after);
    assert forall c :: c in sp.keep || c in sp.cut || c in after ==> c in whole;
  }

  /** Restoring the text after the attribute pass gives a text that is no shorter than the source, with
      as many backquotes; it is as long, and equal to the source, exactly when all attributes are clean. */
  lemma {:induction false} AttributesShow(all: seq<Span>, k: nat, rest: string)
    requires k <= |all| <= WORDS && SOH !in Divided(all[k..], rest)
    ensures var shown := SpansShown(all[k..], rest, k, [], Attributes(all));
            && |shown| >= |Divided(all[k..], rest)|
            && Ticks(shown) == Ticks(Divided(all[k..], rest))
            && (|shown| == |Divided(all[k..], rest)| ==> AllClean(all[k..]))
            && (AllClean(all[k..]) ==> shown == Divided(all[k..], rest))
    decreases |all| - k
  {
    var spans := all[k..];
    if k == |all| {
      PlainWrites(rest, []);
    } else {
      assert spans[1..] == all[k + 1..] && spans[0] == all[k] && all[k] in all;
      PlainParts(spans[0], Divided(spans[1..], rest));
      PlainWrites(spans[0].keep, []);
      EncodeGrows(spans[0].cut);
      EncodeKeepsTicks(spans[0].cut, AMPS_AND_ANGLES);
      AttributesShow(all, k + 1, rest);
      CleanInTurn(spans);
      var entry := Encode(spans[0].cut, AMPS_AND_ANGLES);
      assert Attributes(all)[k] == entry;
      TicksInTurn(spans[0].keep, spans[0].cut, Divided(spans[1..], rest));
      TicksInTurn(spans[0].keep, entry, SpansShown(spans[1..], rest, k + 1, [], Attributes(all)));
    }
  }

  lemma CleanInTurn(spans: seq<Span>)
    requires spans != []
    ensures AllClean(spans) <==> Clean(spans[0].cut) && AllClean(spans[1..])
  {
    assert forall sp :: sp in spans <==> sp == spans[0] || sp in spans[1..];
  }

  lemma {:induction false} AttributePassRestoresIff(spans: seq<Span>, rest: string)
    requires SpansOk(spans) && SOH !in Divided(spans, rest) && |spans| <= WORDS
    ensures var after := Replaced(spans, rest, 0);
            && Encoded(after, |spans|) && Restore(after, Attributes(spans)).Restored?
            && Ticks(Written(after, Attributes(spans))) == Ticks(Divided(spans, rest))
            && (Restore(after, Attributes(spans)) == Restored(Divided(spans, rest)) <==> AllClean(spans))
  {
    hide Replaced, Divided, SpansShown, Encoded, Ticks, AllClean, SpansOk;
    var entries := Attributes(spans);
    PlainIsEncoded(Divided(spans, rest));
    PassStaysEncoded(spans, rest, 0);
    assert [] + entries == entries && spans[0..] == spans;
    PassShows(spans, rest, [], entries);
    AttributesShow(spans, 0, rest);
  }

  lemma OneAttribute(sp: Span, rest: string)
    requires SpanOk(sp) && SOH !in sp.keep + (sp.cut + rest)
    ensures Restore(Replaced([sp], rest, 0), Attributes([sp])) == Restored(sp.keep + (sp.cut + rest)) <==> Clean(sp.cut)
  {
    assert [sp][1..] == [] && Divided([sp][1..], rest) == rest;
    assert Divided([sp], rest) == sp.keep + (sp.cut + rest);
    AttributePassRestoresIff([sp], rest);
  }

  /** An input whose attribute is lost: `<a href="<">`. */
  lemma BracketIsLost()
    ensures var sp := Span("<a href", "=\"<\"", "htmlTagAttr");
            && SpanOk(sp) && Encode(sp.cut, AMPS_AND_ANGLES) == "=\"&lt;\""
            && Restore(Replaced([sp], ">", 0), Attributes([sp])) != Restored(sp.keep + (sp.cut + ">"))
  {
    var sp := Span("<a href", "=\"<\"", "htmlTagAttr");
    EncodedBracket();
    assert Encode(sp.cut, AMPS_AND_ANGLES) != sp.cut by { assert |"=\"&lt;\""| != |"=\"<\""|; }
    EncodeGrows(sp.cut);
    hide *;
    BracketSpanOk();
    OneAttribute(sp, ">");
  }

  lemma BracketSpanOk()
    ensures var sp := Span("<a href", "=\"<\"", "htmlTagAttr");
            SpanOk(sp) && SOH !in sp.keep + (sp.cut + ">")
  {
    assert forall c :: c in "htmlTagAttr" ==> PlaceholderChar(c);
    assert SOH !in "<a href" && SOH !in "=\"<\"" && SOH !in ">";
  }

  lemma EncodedBracket()
    ensures Encode("=\"<\"", AMPS_AND_ANGLES) == "=\"&lt;\""
  {
    var s := "=\"<\"";
    assert s[1..] == "\"<\"" && s[1..][1..] == "<\"" && s[1..][1..][1..] == "\"" && s[1..][1..][1..][1..] == "";
  }

  /** Attributes, both code span passes and escapes, in turn: the outcome restores to the source exactly
      when all attributes are clean and there are no double-backquoted spans. */
  lemma {:induction false} SourceSurvivesIff(spans: seq<Span>, rest: string, doubles: seq<Quote>, rest': string,
                                             singles: seq<Quote>, rest'': string)
    requires SpansOk(spans) && SOH !in Divided(spans, rest) && AllDouble(doubles) && AllSingle(singles)
    requires |spans| + |doubles| + |singles| <= WORDS
    requires Replaced(spans, rest, 0) == Divided(SpansOf(doubles), rest')
    requires Replaced(SpansOf(doubles), rest', |spans|) == Divided(SpansOf(singles), rest'')
    ensures var t := Attributes(spans);
            var t' := t + QuoteTexts(doubles, t);
            var t'' := t' + QuoteTexts(singles, t');
            var outcome := Restore(Escape(Replaced(SpansOf(singles), rest'', |t'|)), t'');
            && outcome.Restored?
            && (outcome == Restored(Divided(spans, rest)) <==> AllClean(spans) && doubles == [])
  {
    hide *;
    var t := Attributes(spans);
    AttributePassRestoresIff(spans, rest);
    var t' := t + QuoteTexts(doubles, t);
    CodeSpansStayEncoded(doubles, rest', t);
    DoublePassRestoresIff(doubles, rest', t);
    CodeSpansAreInvisible(singles, rest'', t');
    EscapeIsInvisible(Replaced(SpansOf(singles), rest'', |t'|), t' + QuoteTexts(singles, t'));
    WrittenIs(Replaced(SpansOf(doubles), rest', |t|), t');
  }

  lemma WrittenIs(s: string, table: seq<string>)
    ensures Restore(s, table).Restored? ==> Restore(s, table) == Restored(Written(s, table))
  {
  }

  // ----- Emphasis -----

  predicate MarkerRuns(ms: seq<Match>) {
    forall i :: 0 <= i < |ms| ==> 1 <= ms[i].n <= 3 && ms[i].ch in {'*', '_'}
  }

  ghost predicate PiecesEncoded(nodes: seq<Node>, size: nat) {
    forall i :: 0 <= i < |nodes| && nodes[i].Text? ==> Encoded(nodes[i].text, size)
  }

  lemma RepeatEnds(c: char, n: nat)
    requires n > 0
    ensures |Repeat(c, n)| == n && Repeat(c, n)[0] == c && Repeat(c, n)[n - 1] == c
  {
  }

  lemma CutAtRun(before: string, c: char, n: nat, after: string, size: nat)
    requires n > 0 && c in {'*', '_'} && Encoded((before + Repeat(c, n)) + after, size)
    ensures Encoded(before, size) && Encoded(after, size)
  {
    RepeatEnds(c, n);
    Regroup(before, Repeat(c, n), after);
    RunsDoNotCutPlaceholders(before, Repeat(c, n), after, size);
  }

  /** The text before the last match, and the texts in and after it. */
  lemma LastMatch(s: string, m: Match, tail: string, size: nat)
    requires 1 <= m.n <= 3 && m.ch in {'*', '_'} && Encoded((s + MatchText(m)) + tail, size)
    ensures Encoded(s + m.pre, size) && Encoded(tail, size) && (m.MidWord? ==> Encoded(m.contents, size))
  {
    hide Encoded, Repeat;
    var r := Repeat(m.ch, m.n);
    Regroup(s, m.pre, r);
    if m.MidWord? {
      Regroup(s, (m.pre + r) + m.contents, r);
      Regroup(s, m.pre + r, m.contents);
      CutAtRun(((s + m.pre) + r) + m.contents, m.ch, m.n, tail, size);
      CutAtRun(s + m.pre, m.ch, m.n, m.contents, size);
    } else {
      CutAtRun(s + m.pre, m.ch, m.n, tail, size);
    }
  }

  /** Segmentation for emphasis cuts no placeholder: each piece can still be decoded. */
  lemma {:induction false} EmphasisCutsNoPlaceholder(ms: seq<Match>, tail: string, size: nat)
    requires MarkerRuns(ms) && Encoded(Source(ms) + tail, size)
    ensures PiecesEncoded(Segmented(ms, tail), size)
    decreases |ms|
  {
    if ms == [] {
      assert "" + tail == tail;
    } else {
      var m := ms[|ms| - 1];
      LastMatch(Source(ms[..|ms| - 1]), m, tail, size);
      EmphasisCutsNoPlaceholder(ms[..|ms| - 1], m.pre, size);
      PiecesAppend(Segments(ms[..|ms| - 1]), m, tail, size);
    }
  }

  lemma PiecesAppend(nodes: seq<Node>, m: Match, tail: string, size: nat)
    requires PiecesEncoded(nodes + TextNode(m.pre), size)
    requires Encoded(tail, size) && (m.MidWord? ==> Encoded(m.contents, size))
    ensures PiecesEncoded((nodes + NodesOf(m)) + TextNode(tail), size)
  {
    hide Encoded;
    var a := nodes + TextNode(m.pre);
    var b := if m.MidWord? then [Fresh(true, m.ch, m.n), Text(m.contents), Fresh(false, m.ch, m.n)]
             else [Fresh(m.OpenRun?, m.ch, m.n)];
    assert nodes + NodesOf(m) == a + b;
  }

  /** From a source to the pieces between the emphasis markers: none of them fails to decode. */
  lemma PipelineDecodes(src: string, ps: seq<Pass>, ms: seq<Match>, tail: string)
    requires SOH !in src && Possible(Working(src, []), ps) && |Run(Working(src, []), ps).table| <= WORDS
    requires MarkerRuns(ms) && Run(Working(src, []), ps).text == Source(ms) + tail
    ensures var table, nodes := Run(Working(src, []), ps).table, Segmented(ms, tail);
            forall i :: 0 <= i < |nodes| && nodes[i].Text? ==> Restore(nodes[i].text, table).Restored?
  {
    var table, nodes := Run(Working(src, []), ps).table, Segmented(ms, tail);
    PassesTheorem(src, ps);
    EmphasisCutsNoPlaceholder(ms, tail, |table|);
    forall i | 0 <= i < |nodes| && nodes[i].Text? ensures Restore(nodes[i].text, table).Restored? {
      EncodedRestores(nodes[i].text, table);
    }
  }
}
