/** What the span passes do to the working text: they keep its placeholders whole and in range,
    and the passes that promise it keep what the text restores to. */
module PlaceholderPasses {
  import opened TextTools
  import opened Placeholders

  const WORDS: nat := 0x1_0000_0000_0000_0000

  // ----- Restoring rendered text -----

  function OriginalOf(i: Item, table: seq<string>): string
    requires GoodItem(i, |table|)
  {
    match i
    case Ch(c) => [c]
    case Ref(n, _) => table[n]
    case Esc(k) => "\\" + [Escapable()[k]]
  }

  function OriginalText(items: seq<Item>, table: seq<string>): string
    requires Good(items, |table|)
  {
    if items == [] then ""
    else OriginalOf(items[0], table) + OriginalText(items[1..], table)
  }

  lemma ItemRestores(i: Item, table: seq<string>)
    requires GoodItem(i, |table|) && |table| <= WORDS
    ensures Original(ChunkOf(i), table) == Restored(OriginalOf(i, table))
  {
    if i.Ref? {
      DecimalValue(i.n);
      assert Digit(Decimal(i.n)[0]);
    } else if i.Esc? {
      DecimalValue(i.k);
      assert ("#" + Decimal(i.k))[1..] == Decimal(i.k);
    }
  }

  lemma {:induction false} ChunksRestore(items: seq<Item>, table: seq<string>)
    requires Good(items, |table|) && |table| <= WORDS
    ensures Originals(ChunksOf(items), table) == Restored(OriginalText(items, table))
    decreases |items|
  {
    if items != [] {
      assert items[0] in items;
      ItemRestores(items[0], table);
      assert ChunksOf(items)[1..] == ChunksOf(items[1..]);
      ChunksRestore(items[1..], table);
    }
  }

  /** The decoding of a working text never fails: each number is one, and an index of the table. */
  lemma {:induction false} RenderRestores(items: seq<Item>, table: seq<string>)
    requires Good(items, |table|) && |table| <= WORDS
    ensures Restore(Render(items), table) == Restored(OriginalText(items, table))
  {
    RenderDecodes(items, |table|);
    ChunksRestore(items, table);
  }

  lemma EncodedRestores(s: string, table: seq<string>)
    requires Encoded(s, |table|) && |table| <= WORDS
    ensures Restore(s, table).Restored?
  {
    var items :| Good(items, |table|) && s == Render(items);
    RenderRestores(items, table);
  }

  // ----- Concatenation -----

  lemma {:induction false} RenderConcat(a: seq<Item>, b: seq<Item>)
    ensures Render(a + b) == Render(a) + Render(b)
    decreases |a|
  {
    if a == [] {
      assert a + b == b;
    } else {
      assert (a + b)[1..] == a[1..] + b;
      RenderConcat(a[1..], b);
      Regroup(TextOf(a[0]), Render(a[1..]), Render(b));
    }
  }

  lemma {:induction false} OriginalConcat(a: seq<Item>, b: seq<Item>, table: seq<string>)
    requires Good(a, |table|) && Good(b, |table|)
    ensures Good(a + b, |table|)
    ensures OriginalText(a + b, table) == OriginalText(a, table) + OriginalText(b, table)
    decreases |a|
  {
    if a == [] {
      assert a + b == b;
    } else {
      assert (a + b)[1..] == a[1..] + b;
      OriginalConcat(a[1..], b, table);
      Regroup(OriginalOf(a[0], table), OriginalText(a[1..], table), OriginalText(b, table));
    }
  }

  /** More entries at the end of the table change nothing. */
  lemma {:induction false} OriginalStable(items: seq<Item>, table: seq<string>, more: seq<string>)
    requires Good(items, |table|)
    ensures Good(items, |table + more|) && OriginalText(items, table + more) == OriginalText(items, table)
    decreases |items|
  {
    forall i | i in items ensures GoodItem(i, |table + more|) {
      assert GoodItem(i, |table|);
    }
    if items != [] {
      assert items[0] in items;
      OriginalStable(items[1..], table, more);
    }
  }

  // ----- Cuts fall between items -----

  lemma PlaceholderInside(i: Item, size: nat, j: nat)
    requires GoodItem(i, size) && !i.Ch? && j < |TextOf(i)|
    ensures PlaceholderChar(TextOf(i)[j])
  {
    var ref, name := RefOf(i), NameOf(i);
    if 2 <= j < 2 + |ref| {
      assert TextOf(i)[j] == ref[j - 2];
    } else if 3 + |ref| <= j < 3 + |ref| + |name| {
      assert TextOf(i)[j] == name[j - 3 - |ref|] && name[j - 3 - |ref|] in name;
    }
  }

  lemma PrefixOf(f: string, r: string, x: string, y: string)
    requires f + r == x + y && |f| <= |x|
    ensures x == f + x[|f|..] && r == x[|f|..] + y
  {
    assert (f + r)[|f|..] == r;
    assert (x + y)[|f|..] == x[|f|..] + y;
    assert (x + y)[..|f|] == x[..|f|] && (f + r)[..|f|] == f;
  }

  lemma NotInside(i: Item, size: nat, r: string, x: string, y: string)
    requires GoodItem(i, size) && TextOf(i) + r == x + y && x != ""
    requires y != "" ==> !PlaceholderChar(y[0])
    ensures |TextOf(i)| <= |x|
  {
    var f := TextOf(i);
    if |x| < |f| {
      assert (f + r)[|x|] == f[|x|];
      assert (x + y)[|x|] == y[0];
      PlaceholderInside(i, size, |x|);
    }
  }

  /** A cut before a character that no placeholder holds is not inside a placeholder. */
  lemma {:induction false} CutBefore(items: seq<Item>, size: nat, x: string, y: string)
    returns (a: seq<Item>, b: seq<Item>)
    requires Good(items, size) && Render(items) == x + y
    requires y != "" ==> !PlaceholderChar(y[0])
    ensures items == a + b && Render(a) == x && Render(b) == y
    decreases |items|
  {
    if x == "" {
      a, b := [], items;
      assert x + y == y;
    } else {
      var first, rest := items[0], items[1..];
      assert first in items;
      NotInside(first, size, Render(rest), x, y);
      PrefixOf(TextOf(first), Render(rest), x, y);
      assert Good(rest, size);
      var a', b' := CutBefore(rest, size, x[|TextOf(first)|..], y);
      a, b := [first] + a', b';
      RenderCons(first, a');
      ConsConcat(items, a', b');
    }
  }

  lemma RenderCons(first: Item, rest: seq<Item>)
    ensures Render([first] + rest) == TextOf(first) + Render(rest)
  {
  }

  lemma ConsConcat(items: seq<Item>, a: seq<Item>, b: seq<Item>)
    requires items != [] && items[1..] == a + b
    ensures items == ([items[0]] + a) + b
  {
  }

  lemma FirstIsChar(items: seq<Item>, size: nat)
    requires Good(items, size) && Render(items) != "" && !PlaceholderChar(Render(items)[0])
    ensures items != [] && items[0].Ch? && Render(items) == [items[0].c] + Render(items[1..])
  {
  }

  /** Nor is a cut after one. */
  lemma {:induction false} CutAfter(items: seq<Item>, size: nat, x: string, d: char, y: string)
    returns (a: seq<Item>, b: seq<Item>)
    requires Good(items, size) && Render(items) == (x + [d]) + y && !PlaceholderChar(d)
    ensures items == a + b && Render(a) == x + [d] && Render(b) == y
  {
    Regroup(x, [d], y);
    var u, v := CutBefore(items, size, x, [d] + y);
    assert Good(v, size);
    FirstIsChar(v, size);
    assert ([d] + y)[1..] == y && (Render(v))[1..] == Render(v[1..]);
    a, b := u + [v[0]], v[1..];
    assert items == a + b;
    RenderConcat(u, [v[0]]);
    RenderOne(v[0]);
  }

  lemma RenderOne(i: Item)
    ensures Render([i]) == TextOf(i)
  {
  }

  // ----- A pass that replaces spans -----

  /** A span to replace: the text before it, and the text that goes. */
  datatype Span = Span(keep: string, cut: string, name: string)

  /** The first and the last character of a span are ones that no placeholder holds. */
  predicate SpanOk(sp: Span) {
    && sp.cut != "" && GoodName(sp.name)
    && !PlaceholderChar(sp.cut[0]) && !PlaceholderChar(sp.cut[|sp.cut| - 1])
  }

  predicate SpansOk(spans: seq<Span>) {
    forall sp :: sp in spans ==> SpanOk(sp)
  }

  /** The text before a pass, as the spans and the rest that its searches divide it into. */
  function Divided(spans: seq<Span>, rest: string): string {
    if spans == [] then rest else spans[0].keep + (spans[0].cut + Divided(spans[1..], rest))
  }

  /** The text after it: each span is replaced by the placeholder of the next table entry. */
  function Replaced(spans: seq<Span>, rest: string, next: nat): string {
    if spans == [] then rest
    else spans[0].keep + (Placeholder(Decimal(next), spans[0].name) + Replaced(spans[1..], rest, next + 1))
  }

  lemma {:induction false} CutSpan(items: seq<Item>, size: nat, sp: Span, rest: string)
    returns (a: seq<Item>, b: seq<Item>, c: seq<Item>)
    requires Good(items, size) && SpanOk(sp) && Render(items) == sp.keep + (sp.cut + rest)
    ensures items == a + (b + c) && Good(a, size) && Good(b, size) && Good(c, size)
    ensures Render(a) == sp.keep && Render(b) == sp.cut && Render(c) == rest
  {
    var tail;
    var n := |sp.cut| - 1;
    hide Render, Good, GoodName, PlaceholderChar;
    a, tail := CutBefore(items, size, sp.keep, sp.cut + rest);
    GoodParts(items, a, tail, size);
    LastApart(sp.cut);
    b, c := CutAfter(tail, size, sp.cut[..n], sp.cut[n], rest);
    GoodParts(tail, b, c, size);
  }

  lemma GoodParts(items: seq<Item>, a: seq<Item>, b: seq<Item>, size: nat)
    requires Good(items, size) && items == a + b
    ensures Good(a, size) && Good(b, size)
  {
  }

  lemma LastApart(s: string)
    requires s != ""
    ensures s == s[..|s| - 1] + [s[|s| - 1]]
  {
  }

  lemma RenderRef(a: seq<Item>, next: nat, name: string, rest: seq<Item>)
    ensures Render(a + ([Ref(next, name)] + rest)) == Render(a) + (Placeholder(Decimal(next), name) + Render(rest))
  {
    RenderConcat(a, [Ref(next, name)] + rest);
    assert ([Ref(next, name)] + rest)[1..] == rest;
  }

  ghost predicate EntryRestores(cut: string, table: seq<string>, entry: string) {
    Restore(cut, table) == Restored(entry)
  }

  /** From index `next` on, the entries are what the spans restore to. */
  ghost predicate EntriesRestore(spans: seq<Span>, next: nat, table: seq<string>, entries: seq<string>)
    requires next + |spans| <= |entries|
  {
    spans == [] ||
    (EntryRestores(spans[0].cut, table, entries[next]) && EntriesRestore(spans[1..], next + 1, table, entries))
  }

  ghost predicate SameOriginal(a: seq<Item>, entries: seq<string>, b: seq<Item>, table: seq<string>)
    requires Good(a, |entries|) && Good(b, |table|)
  {
    OriginalText(a, entries) == OriginalText(b, table)
  }

  /** What a text restores to. */
  function Written(s: string, table: seq<string>): string {
    var r := Restore(s, table);
    if r.Restored? then r.text else ""
  }

  /** What the text after a pass is to restore to: the spans give way to the entries from `next` on. */
  function SpansShown(spans: seq<Span>, rest: string, next: nat, table: seq<string>, entries: seq<string>): string
    requires next + |spans| <= |entries|
  {
    if spans == [] then Written(rest, table)
    else Written(spans[0].keep, table) + (entries[next] + SpansShown(spans[1..], rest, next + 1, table, entries))
  }

  ghost predicate Shows(out: seq<Item>, entries: seq<string>, text: string)
    requires Good(out, |entries|)
  {
    OriginalText(out, entries) == text
  }

  lemma RestShows(items: seq<Item>, rest: string, table: seq<string>, entries: seq<string>)
    requires Good(items, |table|) && Render(items) == rest && table <= entries && |table| <= WORDS
    ensures Good(items, |entries|) && Shows(items, entries, Written(rest, table))
  {
    SameTable(items, table, entries);
    RenderRestores(items, table);
  }

  lemma SpanShows(a: seq<Item>, sp: Span, next: nat, table: seq<string>, entries: seq<string>, tail: seq<Item>,
                  text: string)
    requires |table| <= next < |entries| && table <= entries && SpanOk(sp) && |table| <= WORDS
    requires Good(a, |table|) && Render(a) == sp.keep && Good(tail, |entries|) && Shows(tail, entries, text)
    ensures Good(a + ([Ref(next, sp.name)] + tail), |entries|)
    ensures Shows(a + ([Ref(next, sp.name)] + tail), entries, Written(sp.keep, table) + (entries[next] + text))
  {
    var ref := Ref(next, sp.name);
    assert GoodItem(ref, |entries|);
    RestShows(a, sp.keep, table, entries);
    assert Good([ref] + tail, |entries|);
    assert ([ref] + tail)[1..] == tail;
    OriginalConcat(a, [ref] + tail, entries);
  }

  /** The replaced text, as items: placeholders stay whole, indices stay below the table size.
      The spans show as their entries; a table in which each new entry is what its span restores
      to restores the text before. */
  lemma {:induction false} PassOnItems(items: seq<Item>, spans: seq<Span>, rest: string, next: nat,
                                       table: seq<string>, entries: seq<string>) returns (out: seq<Item>)
    requires |table| <= next && |entries| == next + |spans| && table <= entries && |table| <= WORDS
    requires Good(items, |table|) && SpansOk(spans) && Render(items) == Divided(spans, rest)
    ensures Good(out, |entries|) && Render(out) == Replaced(spans, rest, next)
    ensures EntriesRestore(spans, next, table, entries) ==> SameOriginal(out, entries, items, table)
    ensures Shows(out, entries, SpansShown(spans, rest, next, table, entries))
    decreases |spans|
  {
    if spans == [] {
      out := items;
      SameTable(items, table, entries);
      RestShows(items, rest, table, entries);
    } else {
      var sp := spans[0];
      assert sp in spans;
      var a, b, c := CutSpan(items, |table|, sp, Divided(spans[1..], rest));
      var tail := PassOnItems(c, spans[1..], rest, next + 1, table, entries);
      out := a + ([Ref(next, sp.name)] + tail);
      RenderRef(a, next, sp.name, tail);
      SpanOriginal(a, b, c, sp, next, table, entries, tail);
      SpanShows(a, sp, next, table, entries, tail, SpansShown(spans[1..], rest, next + 1, table, entries));
    }
  }

  lemma SameTable(items: seq<Item>, table: seq<string>, entries: seq<string>)
    requires Good(items, |table|) && table <= entries
    ensures Good(items, |entries|) && SameOriginal(items, entries, items, table)
  {
    assert entries == table + entries[|table|..];
    OriginalStable(items, table, entries[|table|..]);
  }

  lemma SpanOriginal(a: seq<Item>, b: seq<Item>, c: seq<Item>, sp: Span, next: nat,
                     table: seq<string>, entries: seq<string>, tail: seq<Item>)
    requires |table| <= next < |entries| && table <= entries && SpanOk(sp) && |table| <= WORDS
    requires Good(a, |table|) && Good(b, |table|) && Good(c, |table|) && Good(tail, |entries|) && Render(b) == sp.cut
    ensures Good(a + ([Ref(next, sp.name)] + tail), |entries|) && Good(a + (b + c), |table|)
    ensures EntryRestores(sp.cut, table, entries[next]) && SameOriginal(tail, entries, c, table) ==>
              SameOriginal(a + ([Ref(next, sp.name)] + tail), entries, a + (b + c), table)
  {
    var ref := Ref(next, sp.name);
    assert GoodItem(ref, |entries|);
    SameTable(a, table, entries);
    assert Good([ref] + tail, |entries|);
    assert ([ref] + tail)[1..] == tail;
    OriginalConcat(a, [ref] + tail, entries);
    OriginalConcat(b, c, table);
    OriginalConcat(a, b + c, table);
    RenderRestores(b, table);
  }

  /** A pass leaves every placeholder whole, with an index below the size of the table. */
  lemma PassStaysEncoded(spans: seq<Span>, rest: string, size: nat)
    requires SpansOk(spans) && Encoded(Divided(spans, rest), size) && size <= WORDS
    ensures Encoded(Replaced(spans, rest, size), size + |spans|)
  {
    var items :| Good(items, size) && Divided(spans, rest) == Render(items);
    var table, entries := seq(size, i => ""), seq(size + |spans|, i => "");
    assert table == entries[..size];
    var out := PassOnItems(items, spans, rest, size, table, entries);
  }

  /** What the text restores to after any pass: each span shows as its entry, everything else
      as before. */
  lemma {:induction false} PassShows(spans: seq<Span>, rest: string, table: seq<string>, added: seq<string>)
    requires SpansOk(spans) && Encoded(Divided(spans, rest), |table|) && |table + added| <= WORDS
    requires |added| == |spans|
    ensures Restore(Replaced(spans, rest, |table|), table + added) ==
            Restored(SpansShown(spans, rest, |table|, table, table + added))
  {
    var items :| Good(items, |table|) && Divided(spans, rest) == Render(items);
    var out := PassOnItems(items, spans, rest, |table|, table, table + added);
    RenderRestores(out, table + added);
  }

  /** The text before the pass, in the same division. */
  lemma {:induction false} DividedWrites(spans: seq<Span>, rest: string, table: seq<string>)
    requires SpansOk(spans) && Encoded(Divided(spans, rest), |table|) && |table| <= WORDS && spans != []
    ensures Encoded(Divided(spans[1..], rest), |table|)
    ensures Written(Divided(spans, rest), table) ==
            Written(spans[0].keep, table) +
            (Written(spans[0].cut, table) + Written(Divided(spans[1..], rest), table))
  {
    var items :| Good(items, |table|) && Divided(spans, rest) == Render(items);
    assert spans[0] in spans;
    var a, b, c := CutSpan(items, |table|, spans[0], Divided(spans[1..], rest));
    OriginalConcat(b, c, table);
    OriginalConcat(a, b + c, table);
    RenderRestores(items, table);
    RenderRestores(a, table);
    RenderRestores(b, table);
    RenderRestores(c, table);
  }

  /** A pass whose new entries are what their spans restore to does not change what the text
      restores to. */
  lemma {:induction false} PassRestores(spans: seq<Span>, rest: string, table: seq<string>, added: seq<string>)
    requires SpansOk(spans) && Encoded(Divided(spans, rest), |table|) && |table + added| <= WORDS
    requires |added| == |spans| && EntriesRestore(spans, |table|, table, table + added)
    ensures Restore(Replaced(spans, rest, |table|), table + added) == Restore(Divided(spans, rest), table)
  {
    var items :| Good(items, |table|) && Divided(spans, rest) == Render(items);
    var out := PassOnItems(items, spans, rest, |table|, table, table + added);
    RenderRestores(items, table);
    RenderRestores(out, table + added);
  }
}
