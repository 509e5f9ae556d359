/** Escaping, code spans, emphasis and restoring on the working text. */
module SpanText {
  import opened TextTools
  import opened Placeholders
  import opened PlaceholderPasses

  // ----- Escaped characters -----

  function EscapeIndex(c: char): nat {
    IndexFrom(Escapable(), c, 0)
  }

  predicate CanEscape(c: char) {
    EscapeIndex(c) < |Escapable()|
  }

  /** Every backslash and escapable character becomes a placeholder with the character's index. */
  function Escape(s: string): string
    decreases |s|
  {
    if s == "" then ""
    else if s[0] != '\\' then [s[0]] + Escape(s[1..])
    else if |s| == 1 then s
    else if CanEscape(s[1]) then TextOf(Esc(EscapeIndex(s[1]))) + Escape(s[2..])
    else ['\\', s[1]] + Escape(s[2..])
  }

  lemma {:induction false} EscapePasses(x: string, rest: string)
    requires '\\' !in x
    ensures Escape(x + rest) == x + Escape(rest)
    decreases |x|
  {
    if x == "" {
      assert x + rest == rest;
    } else {
      assert (x + rest)[1..] == x[1..] + rest;
      assert (x + rest)[0] == x[0] && x[0] in x;
      EscapePasses(x[1..], rest);
      Regroup([x[0]], x[1..], Escape(rest));
      assert x == [x[0]] + x[1..];
    }
  }

  lemma EscapeTwo(c: char, rest: string)
    ensures Escape(['\\', c] + rest) ==
            (if CanEscape(c) then TextOf(Esc(EscapeIndex(c))) else ['\\', c]) + Escape(rest)
  {
    var s := ['\\', c] + rest;
    assert s[2..] == rest;
  }

  lemma {:induction false} NoBackslash(i: Item, size: nat)
    requires GoodItem(i, size) && i != Ch('\\')
    ensures '\\' !in TextOf(i)
  {
    if !i.Ch? {
      forall j | 0 <= j < |TextOf(i)| ensures TextOf(i)[j] != '\\' {
        PlaceholderInside(i, size, j);
      }
    }
  }

  lemma SohNotEscapable()
    ensures !CanEscape(SOH)
  {
    var e := Escapable();
    var r := IndexFrom(e, SOH, 0);
    assert forall j :: 0 <= j < |e| ==> e[j] != SOH;
  }

  /** The items of an escaped text, which write the same original text. */
  lemma {:induction false} EscapeOnItems(items: seq<Item>, table: seq<string>) returns (out: seq<Item>)
    requires Good(items, |table|)
    ensures Good(out, |table|) && Render(out) == Escape(Render(items)) && SameOriginal(out, table, items, table)
    decreases |items|
  {
    if items == [] {
      out := [];
    } else if items[0] != Ch('\\') {
      assert items[0] in items;
      NoBackslash(items[0], |table|);
      var rest := EscapeOnItems(items[1..], table);
      EscapePasses(TextOf(items[0]), Render(items[1..]));
      out := [items[0]] + rest;
      ConsBoth(items[0], rest, items, table);
    } else if |items| == 1 {
      out := items;
      RenderOne(items[0]);
      assert items == [items[0]];
    } else {
      assert items[1] in items;
      var rest := EscapeOnItems(items[2..], table);
      out := EscapePair(items, rest, table);
    }
  }

  lemma ConsBoth(i: Item, rest: seq<Item>, items: seq<Item>, table: seq<string>)
    requires items != [] && items[0] == i && Good(items, |table|) && Good(rest, |table|)
    requires SameOriginal(rest, table, items[1..], table)
    ensures Good([i] + rest, |table|) && Render([i] + rest) == TextOf(i) + Render(rest)
    ensures SameOriginal([i] + rest, table, items, table)
  {
  }

  lemma TwoFirst(items: seq<Item>)
    requires |items| >= 2
    ensures Render(items) == TextOf(items[0]) + (TextOf(items[1]) + Render(items[2..]))
  {
  }

  lemma TwoOriginal(items: seq<Item>, table: seq<string>)
    requires |items| >= 2 && Good(items, |table|)
    ensures Good(items[2..], |table|) && GoodItem(items[0], |table|) && GoodItem(items[1], |table|)
    ensures OriginalText(items, table) ==
            OriginalOf(items[0], table) + (OriginalOf(items[1], table) + OriginalText(items[2..], table))
  {
  }

  /** A backslash and the item after it. */
  lemma {:induction false} EscapePair(items: seq<Item>, rest: seq<Item>, table: seq<string>) returns (out: seq<Item>)
    requires |items| >= 2 && items[0] == Ch('\\') && Good(items, |table|) && Good(rest, |table|)
    requires Render(rest) == Escape(Render(items[2..])) && SameOriginal(rest, table, items[2..], table)
    ensures Good(out, |table|) && Render(out) == Escape(Render(items)) && SameOriginal(out, table, items, table)
  {
    if items[1].Ch? && CanEscape(items[1].c) {
      out := [Esc(EscapeIndex(items[1].c))] + rest;
      EscapedPair(items, rest, table);
    } else {
      out := [items[0], items[1]] + rest;
      KeptPair(items, rest, table);
    }
  }

  lemma EscapedPair(items: seq<Item>, rest: seq<Item>, table: seq<string>)
    requires |items| >= 2 && items[0] == Ch('\\') && Good(items, |table|) && Good(rest, |table|)
    requires Render(rest) == Escape(Render(items[2..])) && SameOriginal(rest, table, items[2..], table)
    requires items[1].Ch? && CanEscape(items[1].c)
    ensures var out := [Esc(EscapeIndex(items[1].c))] + rest;
            Good(out, |table|) && Render(out) == Escape(Render(items)) && SameOriginal(out, table, items, table)
  {
    var c, after := items[1].c, Render(items[2..]);
    var out := [Esc(EscapeIndex(c))] + rest;
    TwoFirst(items);
    TwoOriginal(items, table);
    RenderCons(Esc(EscapeIndex(c)), rest);
    assert out[1..] == rest;
    TwoChars('\\', c, after);
    EscapeTwo(c, after);
    TwoChars('\\', c, OriginalText(rest, table));
    assert "\\" + [c] == ['\\', c];
  }

  lemma TwoChars(a: char, b: char, rest: string)
    ensures [a] + ([b] + rest) == [a, b] + rest
  {
  }

  lemma KeptPair(items: seq<Item>, rest: seq<Item>, table: seq<string>)
    requires |items| >= 2 && items[0] == Ch('\\') && Good(items, |table|) && Good(rest, |table|)
    requires Render(rest) == Escape(Render(items[2..])) && SameOriginal(rest, table, items[2..], table)
    requires items[1].Ch? ==> !CanEscape(items[1].c)
    ensures var out := [items[0], items[1]] + rest;
            Good(out, |table|) && Render(out) == Escape(Render(items)) && SameOriginal(out, table, items, table)
  {
    var out := [items[0], items[1]] + rest;
    assert items[0] in items && items[1] in items;
    assert out[2..] == rest;
    TwoFirst(items);
    TwoFirst(out);
    TwoOriginal(items, table);
    TwoOriginal(out, table);
    EscapeKeepsPair(items[1], |table|, Render(items[2..]));
  }

  lemma {:induction false} EscapeKeepsPair(i: Item, size: nat, after: string)
    requires GoodItem(i, size) && (i.Ch? ==> !CanEscape(i.c))
    ensures Escape(['\\'] + (TextOf(i) + after)) == ['\\'] + (TextOf(i) + Escape(after))
  {
    if i.Ch? {
      EscapeKeepsText(i.c, "", after);
      assert [i.c] + "" == [i.c];
    } else {
      var x := "@" + (RefOf(i) + ("@" + (NameOf(i) + [SOH])));
      SohNotEscapable();
      NoBackslash(i, size);
      forall c | c in x ensures c != '\\' {
        assert c in TextOf(i);
      }
      EscapeKeepsText(SOH, x, after);
    }
  }

  lemma EscapeKeepsText(c: char, x: string, after: string)
    requires !CanEscape(c) && '\\' !in x
    ensures Escape(['\\'] + (([c] + x) + after)) == ['\\'] + (([c] + x) + Escape(after))
  {
    Regroup([c], x, after);
    TwoChars('\\', c, x + after);
    EscapeTwo(c, x + after);
    EscapePasses(x, after);
    TwoChars('\\', c, x + Escape(after));
    Regroup([c], x, Escape(after));
  }

  lemma {:induction false} PlainIsRendered(s: string) returns (items: seq<Item>)
    requires SOH !in s
    ensures Good(items, 0) && Render(items) == s
    ensures forall table :: Good(items, |table|) && OriginalText(items, table) == s
    decreases |s|
  {
    if s == "" {
      items := [];
    } else {
      var rest := PlainIsRendered(s[1..]);
      items := [Ch(s[0])] + rest;
      assert s[0] in s;
      RenderCons(Ch(s[0]), rest);
      assert s == [s[0]] + s[1..];
      assert items[1..] == rest;
      forall table: seq<string> ensures Good(items, |table|) && OriginalText(items, table) == s {
        assert Good(rest, |table|);
      }
    }
  }

  /** A text without the marker character is a working text. */
  lemma PlainIsEncoded(s: string)
    requires SOH !in s
    ensures Encoded(s, 0)
  {
    var items := PlainIsRendered(s);
  }

  /** Escaping keeps a working text one, and restores to the same. */
  lemma EscapeIsInvisible(s: string, table: seq<string>)
    requires Encoded(s, |table|) && |table| <= WORDS
    ensures Encoded(Escape(s), |table|)
    ensures Restore(Escape(s), table) == Restore(s, table)
  {
    var items :| Good(items, |table|) && s == Render(items);
    var out := EscapeOnItems(items, table);
    RenderRestores(items, table);
    RenderRestores(out, table);
  }

  /** Restoring undoes escaping. */
  lemma {:induction false} RestoreUndoesEscape(s: string, table: seq<string>)
    requires SOH !in s && |table| <= WORDS
    ensures Restore(Escape(s), table) == Restored(s)
  {
    var items := PlainIsRendered(s);
    assert Good(items, |table|) && OriginalText(items, table) == s;
    var out := EscapeOnItems(items, table);
    RenderRestores(out, table);
  }

  // ----- Code spans -----

  /** Marks around a working text restore to themselves. */
  lemma WrappedRestores(open: string, inner: string, close: string, table: seq<string>)
    requires SOH !in open && SOH !in close && Encoded(inner, |table|) && |table| <= WORDS
    ensures Restore(inner, table).Restored?
    ensures Restore(open + (inner + close), table) == Restored(open + (Restore(inner, table).text + close))
  {
    var items :| Good(items, |table|) && inner == Render(items);
    var a := PlainIsRendered(open);
    var b := PlainIsRendered(close);
    assert Good(a, |table|) && OriginalText(a, table) == open;
    assert Good(b, |table|) && OriginalText(b, table) == close;
    RenderRestores(items, table);
    RenderConcat(items, b);
    RenderConcat(a, items + b);
    OriginalConcat(items, b, table);
    OriginalConcat(a, items + b, table);
    RenderRestores(a + (items + b), table);
  }

  /** What a code span writes back: its contents, restored, between backquotes. */
  lemma CodeSpanWrites(inner: string, table: seq<string>)
    requires Encoded(inner, |table|) && |table| <= WORDS
    ensures Restore(inner, table).Restored?
    ensures Restore("`" + (inner + "`"), table) == Restored("`" + (Restore(inner, table).text + "`"))
  {
    WrappedRestores("`", inner, "`", table);
  }

  /** A span between double backquotes is written back with single ones: it is never restored. */
  lemma DoubleQuotesAreLost(inner: string, table: seq<string>)
    requires Encoded(inner, |table|) && |table| <= WORDS
    ensures Restore(inner, table).Restored?
    ensures !EntryRestores("`` " + (inner + " ``"), table, "`" + (Restore(inner, table).text + "`"))
  {
    WrappedRestores("`` ", inner, " ``", table);
    var x := Restore(inner, table).text;
    assert |"`` " + (x + " ``")| == |x| + 6 && |"`" + (x + "`")| == |x| + 2;
  }

  // ----- Emphasis -----

  /** Cutting a run of markers out of a working text leaves two working texts: segmentation for
      emphasis never divides a placeholder. */
  lemma RunsDoNotCutPlaceholders(before: string, run: string, after: string, size: nat)
    requires run != "" && !PlaceholderChar(run[0]) && !PlaceholderChar(run[|run| - 1])
    requires Encoded(before + (run + after), size)
    ensures Encoded(before, size) && Encoded(after, size)
  {
    var items :| Good(items, size) && before + (run + after) == Render(items);
    var sp := Span(before, run, "x");
    assert GoodName("x") by { assert forall c :: c in "x" ==> c == 'x'; }
    var a, b, c := CutSpan(items, size, sp, after);
  }
}
