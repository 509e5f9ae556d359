/** The loops that search and build the working text, and the table they push to. */
module SpanPasses {
  import opened TextTools
  import opened Placeholders
  import opened PlaceholderPasses
  import opened SpanText

  /** `made` followed by the function of what is left is the whole. */
  ghost predicate Escaping(made: string, rest: string, whole: string) {
    made + Escape(rest) == whole
  }

  lemma EscapingPlain(made: string, x: string, rest: string, whole: string)
    requires '\\' !in x && Escaping(made, x + rest, whole)
    ensures Escaping(made + x, rest, whole)
  {
    EscapePasses(x, rest);
    Regroup(made, x, Escape(rest));
  }

  lemma {:induction false} EscapingPair(made: string, c: char, rest: string, whole: string)
    requires Escaping(made, ['\\', c] + rest, whole)
    ensures Escaping(made + (if CanEscape(c) then TextOf(Esc(EscapeIndex(c))) else ['\\', c]), rest, whole)
  {
    EscapeTwo(c, rest);
    Regroup(made, if CanEscape(c) then TextOf(Esc(EscapeIndex(c))) else ['\\', c], Escape(rest));
  }

  lemma EscapingEnds(made: string, rest: string, whole: string)
    requires rest in {"", "\\"} && Escaping(made, rest, whole)
    ensures made + rest == whole
  {
  }

  lemma {:induction false} IndexFromFirst(s: string, c: char, i: nat)
    requires i <= |s|
    ensures var r := IndexFrom(s, c, i); i <= r <= |s| && c !in s[i..r]
    decreases |s| - i
  {
    if i < |s| && s[i] != c {
      IndexFromFirst(s, c, i + 1);
      var r := IndexFrom(s, c, i + 1);
      assert s[i..r] == [s[i]] + s[i + 1..r];
    }
  }

  /** One search and what follows it, in the words of the rest of the source. */
  lemma EscapingNext(made: string, src: string, prev: nat, whole: string)
    requires prev <= |src| && Escaping(made, src[prev..], whole)
    ensures var i := IndexFrom(src, '\\', prev);
            && prev <= i <= |src|
            && (i == |src| ==> made + src[prev..] == whole)
            && (i + 1 == |src| ==> (made + src[prev..i]) + "\\" == whole)
            && (i + 1 < |src| ==>
                 var c := src[i + 1];
                 Escaping((made + src[prev..i]) + (if CanEscape(c) then TextOf(Esc(EscapeIndex(c))) else ['\\', c]),
                          src[i + 2..], whole))
  {
    hide Escape, CanEscape, EscapeIndex, TextOf, IndexFrom;
    var i := IndexFrom(src, '\\', prev);
    IndexFromFirst(src, '\\', prev);
    var x := src[prev..i];
    assert src[prev..] == x + src[i..];
    EscapingPlain(made, x, src[i..], whole);
    if i == |src| {
      assert src[i..] == "" && x == src[prev..];
      EscapingEnds(made + x, "", whole);
    } else if i + 1 == |src| {
      assert src[i..] == "\\";
      EscapingEnds(made + x, "\\", whole);
    } else {
      assert src[i..] == ['\\', src[i + 1]] + src[i + 2..];
      EscapingPair(made + x, src[i + 1], src[i + 2..], whole);
    }
  }

  lemma EscapingStarts(src: string)
    ensures Escaping("", src[0..], Escape(src))
  {
  }

  method ProcessEscapedCharacters(src: string) returns (tgt: string)
    ensures tgt == Escape(src)
  {
    hide *;
    tgt := "";
    var prev := 0;
    EscapingStarts(src);
    while true
      invariant prev <= |src| && Escaping(tgt, src[prev..], Escape(src))
      decreases |src| - prev
    {
      EscapingNext(tgt, src, prev, Escape(src));
      var i := IndexFrom(src, '\\', prev);
      if i == |src| {
        return tgt + src[prev..];
      }
      if i + 1 == |src| {
        return (tgt + src[prev..i]) + "\\";
      }
      var c := src[i + 1];
      var replacement := if CanEscape(c) then TextOf(Esc(EscapeIndex(c))) else ['\\', c];
      tgt := (tgt + src[prev..i]) + replacement;
      prev := i + 2;
    }
  }

  // ----- Restoring -----

  /** The next placeholder at `prev` or later. */
  datatype Hit = Nowhere | At(start: nat, ref: string, end: nat)

  function Search(s: string, prev: nat): (h: Hit)
    requires prev <= |s|
    ensures h.At? ==> prev <= h.start < h.end <= |s|
    decreases |s| - prev
  {
    if prev == |s| then Nowhere
    else
      var f := MatchHere(s[prev..]);
      if f.Found? then At(prev, f.ref, |s| - |f.rest|) else Search(s, prev + 1)
  }

  function CharsOf(x: string): seq<Chunk> {
    if x == "" then [] else [Char(x[0])] + CharsOf(x[1..])
  }

  /** What one search says about the decoding of the rest. */
  lemma {:induction false} SearchDecodes(s: string, prev: nat)
    requires prev <= |s|
    ensures var h := Search(s, prev);
            Decode(s[prev..]) ==
            if h.Nowhere? then CharsOf(s[prev..])
            else CharsOf(s[prev..h.start]) + ([Code(h.ref)] + Decode(s[h.end..]))
    decreases |s| - prev
  {
    if prev < |s| {
      var t := s[prev..];
      if MatchHere(t).Found? {
        FoundDecodes(s, prev);
      } else {
        SearchDecodes(s, prev + 1);
        NotFoundDecodes(s, prev);
        hide Decode, CharsOf, MatchHere;
        var h := Search(s, prev + 1);
        if h.At? {
          SkipOne(s, prev, h.start);
          ChunkFirst(Char(s[prev]), CharsOf(s[prev + 1..h.start]), [Code(h.ref)] + Decode(s[h.end..]));
        } else {
          SkipOne(s, prev, |s|);
          assert s[prev..|s|] == s[prev..] && s[prev + 1..|s|] == s[prev + 1..];
        }
      }
    }
  }

  lemma FoundDecodes(s: string, prev: nat)
    requires prev < |s| && MatchHere(s[prev..]).Found?
    ensures var h := Search(s, prev);
            h.At? && Decode(s[prev..]) == CharsOf(s[prev..h.start]) + ([Code(h.ref)] + Decode(s[h.end..]))
  {
    hide Decode, CharsOf, MatchHere;
    var t := s[prev..];
    DecodeFound(t);
    assert t[|t| - |MatchHere(t).rest|..] == s[|s| - |MatchHere(t).rest|..];
    NothingBefore(s, prev, Decode(t));
  }

  lemma DecodeFound(t: string)
    requires MatchHere(t).Found?
    ensures var m := MatchHere(t);
            && |m.rest| < |t| && t[|t| - |m.rest|..] == m.rest
            && Decode(t) == [Code(m.ref)] + Decode(m.rest)
  {
  }

  lemma NotFoundDecodes(s: string, prev: nat)
    requires prev < |s| && !MatchHere(s[prev..]).Found?
    ensures Search(s, prev) == Search(s, prev + 1)
    ensures Decode(s[prev..]) == [Char(s[prev])] + Decode(s[prev + 1..])
  {
  }

  lemma NothingBefore(s: string, i: nat, cs: seq<Chunk>)
    requires i <= |s|
    ensures CharsOf(s[i..i]) + cs == cs
  {
  }

  lemma ChunkFirst(c: Chunk, xs: seq<Chunk>, ys: seq<Chunk>)
    ensures [c] + (xs + ys) == ([c] + xs) + ys
  {
  }

  lemma SkipOne(s: string, a: nat, b: nat)
    requires a < b <= |s|
    ensures CharsOf(s[a..b]) == [Char(s[a])] + CharsOf(s[a + 1..b])
  {
  }

  lemma {:induction false} CharsRestore(x: string, rest: seq<Chunk>, table: seq<string>)
    ensures Originals(CharsOf(x) + rest, table) == Append(Restored(x), Originals(rest, table))
    decreases |x|
  {
    if x == "" {
      assert CharsOf(x) + rest == rest;
      if Originals(rest, table).Restored? {
        assert "" + Originals(rest, table).text == Originals(rest, table).text;
      }
    } else {
      assert (CharsOf(x) + rest)[1..] == CharsOf(x[1..]) + rest;
      CharsRestore(x[1..], rest, table);
      CharOriginal(x, Originals(rest, table), table);
    }
  }

  lemma CharOriginal(x: string, r: Restoration, table: seq<string>)
    requires x != ""
    ensures Append(Original(Char(x[0]), table), Append(Restored(x[1..]), r)) == Append(Restored(x), r)
  {
  }

  /** `made` and the restoration of what is left are the restoration of the whole. */
  ghost predicate Restoring(made: string, rest: string, table: seq<string>, whole: Restoration) {
    Append(Restored(made), Restore(rest, table)) == whole
  }

  lemma {:induction false} RestoringNext(made: string, src: string, prev: nat, table: seq<string>, whole: Restoration)
    requires prev <= |src| && Restoring(made, src[prev..], table, whole)
    ensures var h := Search(src, prev);
            if h.Nowhere? then whole == Restored(made + src[prev..])
            else if Original(Code(h.ref), table).Restored? then
              Restoring((made + src[prev..h.start]) + Original(Code(h.ref), table).text, src[h.end..], table, whole)
            else whole == Original(Code(h.ref), table)
  {
    var h := Search(src, prev);
    SearchDecodes(src, prev);
    if h.Nowhere? {
      CharsRestore(src[prev..], [], table);
      assert CharsOf(src[prev..]) + [] == CharsOf(src[prev..]);
      assert src[prev..] + "" == src[prev..];
    } else {
      var x, rest := src[prev..h.start], Decode(src[h.end..]);
      var code := Code(h.ref);
      CharsRestore(x, [code] + rest, table);
      assert ([code] + rest)[1..] == rest;
      AppendInTurn(made, x, Original(code, table), Originals(rest, table));
    }
  }

  lemma AppendInTurn(made: string, x: string, o: Restoration, r: Restoration)
    ensures Append(Restored(made), Append(Restored(x), Append(o, r))) ==
            if o.Restored? then Append(Restored((made + x) + o.text), r) else o
  {
  }

  method RestoreProcessedItems(src: string, table: seq<string>) returns (r: Restoration)
    ensures r == Restore(src, table)
  {
    var out := "";
    var prev := 0;
    ghost var whole := Restore(src, table);
    assert src[0..] == src;
    assert whole.Restored? ==> "" + whole.text == whole.text;
    while true
      invariant prev <= |src| && Restoring(out, src[prev..], table, whole)
      decreases |src| - prev
    {
      RestoringNext(out, src, prev, table, whole);
      var m := Search(src, prev);
      if m.Nowhere? {
        return Restored(out + src[prev..]);
      }
      var item := Original(Code(m.ref), table);
      if !item.Restored? {
        return item;
      }
      out := (out + src[prev..m.start]) + item.text;
      prev := m.end;
    }
  }

  // ----- Code spans -----

  /** A match of one of the backquote expressions: the text before it and what is quoted. */
  datatype Quote = Quote(before: string, inner: string, double: bool)

  function Opening(double: bool): string {
    if double then "`` " else "`"
  }

  function Closing(double: bool): string {
    if double then " ``" else "`"
  }

  function SpanOf(q: Quote): Span {
    Span(q.before, Opening(q.double) + (q.inner + Closing(q.double)), "codeSpan")
  }

  function SpansOf(qs: seq<Quote>): (r: seq<Span>)
    ensures |r| == |qs|
  {
    if qs == [] then [] else [SpanOf(qs[0])] + SpansOf(qs[1..])
  }

  lemma QuoteSpanOk(q: Quote)
    ensures SpanOk(SpanOf(q))
  {
    var c := SpanOf(q).cut;
    assert c[0] == '`' && c[|c| - 1] == '`';
    assert forall d :: d in "codeSpan" ==> PlaceholderChar(d);
  }

  lemma {:induction false} SpansOfOk(qs: seq<Quote>)
    ensures SpansOk(SpansOf(qs))
  {
    if qs != [] {
      SpansOfOk(qs[1..]);
      QuoteSpanOk(qs[0]);
    }
  }

  lemma QuotedIsEncoded(b: seq<Item>, q: Quote, size: nat)
    requires Good(b, size) && Render(b) == SpanOf(q).cut
    ensures Encoded(q.inner, size)
  {
    hide Render;
    var close := Closing(q.double);
    MarksAreNoPlaceholders(q);
    var n := |Opening(q.double)| - 1;
    var d, e := CutAfter(b, size, Opening(q.double)[..n], Opening(q.double)[n], q.inner + close);
    assert Good(e, size);
    var f, g := CutBefore(e, size, q.inner, close);
    assert Good(f, size);
  }

  lemma MarksAreNoPlaceholders(q: Quote)
    ensures var open, n := Opening(q.double), |Opening(q.double)| - 1;
            && n >= 0 && !PlaceholderChar(open[n]) && open == open[..n] + [open[n]]
            && Closing(q.double) != "" && !PlaceholderChar(Closing(q.double)[0])
  {
  }

  lemma InnerEncoded(q: Quote, after: string, size: nat)
    requires Encoded(q.before + ((SpanOf(q).cut) + after), size)
    ensures Encoded(q.inner, size) && Encoded(after, size)
  {
    var sp := SpanOf(q);
    var items :| Good(items, size) && q.before + (sp.cut + after) == Render(items);
    QuoteSpanOk(q);
    hide SpanOk, Good, Render;
    var a, b, c := CutSpan(items, size, sp, after);
    QuotedIsEncoded(b, q, size);
  }

  ghost predicate AllEncoded(qs: seq<Quote>, size: nat) {
    forall q :: q in qs ==> Encoded(q.inner, size)
  }

  lemma {:induction false} QuotesEncoded(qs: seq<Quote>, rest: string, size: nat)
    requires Encoded(Divided(SpansOf(qs), rest), size)
    ensures AllEncoded(qs, size)
    decreases |qs|
  {
    if qs != [] {
      var after := Divided(SpansOf(qs[1..]), rest);
      assert SpansOf(qs)[1..] == SpansOf(qs[1..]);
      InnerEncoded(qs[0], after, size);
      QuotesEncoded(qs[1..], rest, size);
    }
  }

  function QuoteText(q: Quote, table: seq<string>): string {
    var r := Restore(q.inner, table);
    "`" + ((if r.Restored? then r.text else "") + "`")
  }

  function QuoteTexts(qs: seq<Quote>, table: seq<string>): (ts: seq<string>)
    ensures |ts| == |qs|
  {
    seq(|qs|, i requires 0 <= i < |qs| => QuoteText(qs[i], table))
  }

  predicate AllSingle(qs: seq<Quote>) {
    forall q :: q in qs ==> !q.double
  }

  predicate AllDouble(qs: seq<Quote>) {
    forall q :: q in qs ==> q.double
  }

  lemma {:induction false} QuoteEntry(all: seq<Quote>, k: nat, table: seq<string>)
    requires k < |all| && |table| <= WORDS && Encoded(all[k].inner, |table|) && !all[k].double
    ensures EntryRestores(SpanOf(all[k]).cut, table, (table + QuoteTexts(all, table))[|table| + k])
  {
    CodeSpanWrites(all[k].inner, table);
    assert QuoteTexts(all, table)[k] == QuoteText(all[k], table);
  }

  lemma {:induction false} QuotesRestore(all: seq<Quote>, k: nat, table: seq<string>, entries: seq<string>)
    requires k <= |all| && |table| <= WORDS && AllEncoded(all, |table|) && AllSingle(all)
    requires entries == table + QuoteTexts(all, table)
    ensures EntriesRestore(SpansOf(all[k..]), |table| + k, table, entries)
    decreases |all| - k
  {
    hide EntriesRestore, EntryRestores, QuoteTexts, SpanOf, SpansOf, Encoded;
    if k == |all| {
      NoEntries(all[k..], |table| + k, table, entries);
    } else {
      assert all[k] in all;
      QuoteEntry(all, k, table);
      QuotesRestore(all, k + 1, table, entries);
      SpansFrom(all, k);
      OneEntry(SpansOf(all[k..]), |table| + k, table, entries);
    }
  }

  lemma NoEntries(qs: seq<Quote>, next: nat, table: seq<string>, entries: seq<string>)
    requires qs == [] && next <= |entries|
    ensures EntriesRestore(SpansOf(qs), next, table, entries)
  {
  }

  lemma OneEntry(spans: seq<Span>, next: nat, table: seq<string>, entries: seq<string>)
    requires spans != [] && next + |spans| <= |entries|
    requires EntryRestores(spans[0].cut, table, entries[next]) && EntriesRestore(spans[1..], next + 1, table, entries)
    ensures EntriesRestore(spans, next, table, entries)
  {
  }

  lemma SpansFrom(all: seq<Quote>, k: nat)
    requires k < |all|
    ensures SpansOf(all[k..])[0] == SpanOf(all[k]) && SpansOf(all[k..])[1..] == SpansOf(all[k + 1..])
  {
  }

  /** The entries that the pass adds are what its spans restore to. */
  lemma {:induction false} AddedRestore(quotes: seq<Quote>, rest: string, table: seq<string>)
    requires Encoded(Divided(SpansOf(quotes), rest), |table|) && |table| <= WORDS && AllSingle(quotes)
    ensures EntriesRestore(SpansOf(quotes), |table|, table, table + QuoteTexts(quotes, table))
  {
    QuotesEncoded(quotes, rest, |table|);
    QuotesRestore(quotes, 0, table, table + QuoteTexts(quotes, table));
    assert quotes[0..] == quotes;
  }

  lemma RestoreStable(s: string, table: seq<string>, more: seq<string>)
    requires Encoded(s, |table|) && |table + more| <= WORDS
    ensures Restore(s, table + more) == Restore(s, table) && Restore(s, table).Restored?
  {
    var items :| Good(items, |table|) && s == Render(items);
    OriginalStable(items, table, more);
    RenderRestores(items, table);
    RenderRestores(items, table + more);
  }

  ghost predicate Replacing(made: string, spans: seq<Span>, rest: string, next: nat, whole: string) {
    made + Replaced(spans, rest, next) == whole
  }

  lemma ReplacingNext(made: string, qs: seq<Quote>, rest: string, next: nat, whole: string)
    requires qs != [] && Replacing(made, SpansOf(qs), rest, next, whole)
    ensures Replacing((made + qs[0].before) + Placeholder(Decimal(next), "codeSpan"), SpansOf(qs[1..]), rest, next + 1, whole)
  {
    var spans := SpansOf(qs);
    assert spans[1..] == SpansOf(qs[1..]);
    var p, r := Placeholder(Decimal(next), "codeSpan"), Replaced(spans[1..], rest, next + 1);
    Regroup(made, qs[0].before, p + r);
    Regroup(made + qs[0].before, p, r);
  }

  /** The text that the single-backquote pass leaves has only whole placeholders, in range, and
      restores to what the text before it did. */
  lemma {:induction false} CodeSpansAreInvisible(quotes: seq<Quote>, rest: string, table: seq<string>)
    requires AllSingle(quotes)
    requires Encoded(Divided(SpansOf(quotes), rest), |table|) && |table| + |quotes| <= WORDS
    ensures var after := Replaced(SpansOf(quotes), rest, |table|);
            var table' := table + QuoteTexts(quotes, table);
            Encoded(after, |table'|) && Restore(after, table') == Restore(Divided(SpansOf(quotes), rest), table)
  {
    SpansOfOk(quotes);
    PassStaysEncoded(SpansOf(quotes), rest, |table|);
    AddedRestore(quotes, rest, table);
    PassRestores(SpansOf(quotes), rest, table, QuoteTexts(quotes, table));
  }

  /** Any backquote pass leaves a working text. */
  lemma {:induction false} CodeSpansStayEncoded(quotes: seq<Quote>, rest: string, table: seq<string>)
    requires Encoded(Divided(SpansOf(quotes), rest), |table|) && |table| + |quotes| <= WORDS
    ensures Encoded(Replaced(SpansOf(quotes), rest, |table|), |table + QuoteTexts(quotes, table)|)
  {
    SpansOfOk(quotes);
    PassStaysEncoded(SpansOf(quotes), rest, |table|);
  }

  /** After the double-backquote pass the text restores to two backquotes less for each span. */
  lemma {:induction false} DoublesLoseTicks(quotes: seq<Quote>, rest: string, next: nat, table: seq<string>,
                                            entries: seq<string>)
    requires AllDouble(quotes) && Encoded(Divided(SpansOf(quotes), rest), |table|) && |table| <= WORDS
    requires next + |quotes| <= |entries|
    requires forall i :: 0 <= i < |quotes| ==> entries[next + i] == QuoteText(quotes[i], table)
    ensures Ticks(SpansShown(SpansOf(quotes), rest, next, table, entries)) + 2 * |quotes| ==
            Ticks(Written(Divided(SpansOf(quotes), rest), table))
    decreases |quotes|
  {
    hide Encoded, Written, QuoteText, SpansOk, Ticks;
    if quotes != [] {
      var spans := SpansOf(quotes);
      assert spans[1..] == SpansOf(quotes[1..]) && quotes[0] in quotes;
      SpansOfOk(quotes);
      DividedWrites(spans, rest, table);
      InnerEncoded(quotes[0], Divided(spans[1..], rest), |table|);
      DoubleLosesTicks(quotes[0], table);
      assert entries[next + 0] == QuoteText(quotes[0], table);
      forall i | 0 <= i < |quotes| - 1 ensures entries[next + 1 + i] == QuoteText(quotes[1..][i], table) {
        assert entries[next + (i + 1)] == QuoteText(quotes[i + 1], table);
      }
      DoublesLoseTicks(quotes[1..], rest, next + 1, table, entries);
      var keep := Written(spans[0].keep, table);
      TicksInTurn(keep, Written(spans[0].cut, table), Written(Divided(spans[1..], rest), table));
      TicksInTurn(keep, entries[next], SpansShown(spans[1..], rest, next + 1, table, entries));
    }
  }

  lemma TicksInTurn(a: string, b: string, c: string)
    ensures Ticks(a + (b + c)) == Ticks(a) + Ticks(b) + Ticks(c)
  {
    TicksConcat(a, b + c);
    TicksConcat(b, c);
  }

  lemma DoubleLosesTicks(q: Quote, table: seq<string>)
    requires q.double && Encoded(q.inner, |table|) && |table| <= WORDS
    ensures Ticks(QuoteText(q, table)) + 2 == Ticks(Written(SpanOf(q).cut, table))
  {
    WrappedRestores("`` ", q.inner, " ``", table);
    hide Encoded, Restore;
    var text := Written(q.inner, table);
    TicksInTurn("`` ", text, " ``");
    TicksInTurn("`", text, "`");
  }

  /** The double-backquote pass costs two backquotes for each span, so that it can be undone exactly
      when it found nothing. */
  lemma {:induction false} DoublePassRestoresIff(quotes: seq<Quote>, rest: string, table: seq<string>)
    requires AllDouble(quotes)
    requires Encoded(Divided(SpansOf(quotes), rest), |table|) && |table| + |quotes| <= WORDS
    ensures var after, table' := Replaced(SpansOf(quotes), rest, |table|), table + QuoteTexts(quotes, table);
            && Restore(after, table').Restored?
            && Ticks(Written(after, table')) + 2 * |quotes| == Ticks(Written(Divided(SpansOf(quotes), rest), table))
            && (Restore(after, table') == Restore(Divided(SpansOf(quotes), rest), table) <==> quotes == [])
  {
    hide Divided, Encoded, Replaced, SpansOf, SpansShown, Ticks;
    var table' := table + QuoteTexts(quotes, table);
    SpansOfOk(quotes);
    PassShows(SpansOf(quotes), rest, table, QuoteTexts(quotes, table));
    DoublesLoseTicks(quotes, rest, |table|, table, table');
    EncodedRestores(Divided(SpansOf(quotes), rest), table);
    if quotes == [] {
      NothingReplaced(rest, |table|);
      assert table' == table;
    }
  }

  lemma NothingReplaced(rest: string, next: nat)
    ensures Replaced(SpansOf([]), rest, next) == Divided(SpansOf([]), rest)
  {
  }

  /** The first `i` spans are replaced; the text and the table so far. */
  ghost predicate SpansDone(quotes: seq<Quote>, i: nat, rest: string, first: seq<string>, tgt: string,
                            table: seq<string>)
    requires i <= |quotes|
  {
    && table == first + QuoteTexts(quotes[..i], first)
    && Replacing(tgt, SpansOf(quotes[i..]), rest, |first| + i, Replaced(SpansOf(quotes), rest, |first|))
  }

  lemma NoSpansDone(quotes: seq<Quote>, rest: string, first: seq<string>)
    ensures SpansDone(quotes, 0, rest, first, "", first)
  {
  }

  lemma {:induction false} NextSpanDone(quotes: seq<Quote>, i: nat, rest: string, first: seq<string>, tgt: string,
                                        table: seq<string>)
    requires i < |quotes| && SpansDone(quotes, i, rest, first, tgt, table)
    ensures |table| == |first| + i
    ensures SpansDone(quotes, i + 1, rest, first, (tgt + quotes[i].before) + Placeholder(Decimal(|table|), "codeSpan"),
                      table + [QuoteText(quotes[i], first)])
  {
    var whole := Replaced(SpansOf(quotes), rest, |first|);
    ReplacingNext(tgt, quotes[i..], rest, |first| + i, whole);
    assert quotes[i..][1..] == quotes[i + 1..] && quotes[i..][0] == quotes[i];
    TableGrows(quotes, i, first);
  }

  lemma TableGrows(quotes: seq<Quote>, i: nat, first: seq<string>)
    requires i < |quotes|
    ensures first + QuoteTexts(quotes[..i + 1], first) ==
            (first + QuoteTexts(quotes[..i], first)) + [QuoteText(quotes[i], first)]
  {
    assert QuoteTexts(quotes[..i + 1], first) == QuoteTexts(quotes[..i], first) + [QuoteText(quotes[i], first)];
    EntryLast(first, QuoteTexts(quotes[..i], first), QuoteText(quotes[i], first));
  }

  lemma EntryLast(a: seq<string>, b: seq<string>, t: string)
    ensures a + (b + [t]) == (a + b) + [t]
  {
  }

  lemma {:induction false} AllSpansDone(quotes: seq<Quote>, rest: string, first: seq<string>, tgt: string,
                                        table: seq<string>)
    requires SpansDone(quotes, |quotes|, rest, first, tgt, table)
    ensures tgt + rest == Replaced(SpansOf(quotes), rest, |first|)
    ensures table == first + QuoteTexts(quotes, first)
  {
    assert quotes[|quotes|..] == [] && quotes[..|quotes|] == quotes;
  }

  /** One of the two backquote passes, with its matches given. */
  method ReplaceQuotes(quotes: seq<Quote>, rest: string, replacements: seq<string>)
    returns (tgt: string, table: seq<string>)
    requires Encoded(Divided(SpansOf(quotes), rest), |replacements|) && |replacements| + |quotes| <= WORDS
    ensures tgt == Replaced(SpansOf(quotes), rest, |replacements|)
    ensures table == replacements + QuoteTexts(quotes, replacements)
  {
    tgt, table := "", replacements;
    QuotesEncoded(quotes, rest, |replacements|);
    NoSpansDone(quotes, rest, replacements);
    for i := 0 to |quotes|
      invariant SpansDone(quotes, i, rest, replacements, tgt, table)
    {
      var q := quotes[i];
      assert q in quotes;
      NextSpanDone(quotes, i, rest, replacements, tgt, table);
      var text := CodeSpanText(q, table, replacements, QuoteTexts(quotes[..i], replacements));
      tgt := (tgt + q.before) + Placeholder(Decimal(|table|), "codeSpan");
      table := table + [text];
    }
    AllSpansDone(quotes, rest, replacements, tgt, table);
    tgt := tgt + rest;
  }

  /** Lines 273-299: the double-backquote pass, then the single one on what it leaves. */
  method ProcessCodeSpans(doubles: seq<Quote>, rest: string, singles: seq<Quote>, rest': string,
                          replacements: seq<string>)
    returns (src: string, table: seq<string>)
    requires AllDouble(doubles) && AllSingle(singles)
    requires |replacements| + |doubles| + |singles| <= WORDS
    requires Encoded(Divided(SpansOf(doubles), rest), |replacements|)
    requires Divided(SpansOf(singles), rest') == Replaced(SpansOf(doubles), rest, |replacements|)
    ensures var first := replacements + QuoteTexts(doubles, replacements);
            && src == Replaced(SpansOf(singles), rest', |first|)
            && table == first + QuoteTexts(singles, first)
            && Encoded(src, |table|)
  {
    table := replacements;
    CodeSpansStayEncoded(doubles, rest, replacements);
    src, table := ReplaceQuotes(doubles, rest, table);
    CodeSpansStayEncoded(singles, rest', table);
    src, table := ReplaceQuotes(singles, rest', table);
  }

  /** What a code span token writes as its original: its contents restored with the table so far. */
  method CodeSpanText(q: Quote, table: seq<string>, ghost first: seq<string>, ghost more: seq<string>)
    returns (text: string)
    requires table == first + more && Encoded(q.inner, |first|) && |table| <= WORDS
    ensures text == QuoteText(q, first)
  {
    RestoreStable(q.inner, first, more);
    var contents := RestoreProcessedItems(q.inner, table);
    text := "`" + (contents.text + "`");
  }
}
