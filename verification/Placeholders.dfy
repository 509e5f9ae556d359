/** The placeholders that the span passes leave in the text and the table behind them. */
module Placeholders {
  import opened TextTools

  const SOH := '\U{1}'

  /** The characters that a backslash can escape, in the order of their indices. */
  function Escapable(): string { "\\`*_{}[]()#+-.!>" }

  // ----- Reading placeholders -----

  /** A character of the text, or what stands between the `@` signs of a placeholder. */
  datatype Chunk = Char(c: char) | Code(ref: string)

  /** The first position from `i` on that holds the character. */
  function IndexFrom(s: string, c: char, i: nat): (r: nat)
    ensures i <= |s| ==> i <= r <= |s|
    ensures i <= r < |s| ==> s[r] == c
    decreases |s| - i
  {
    if i >= |s| then |s| else if s[i] == c then i else IndexFrom(s, c, i + 1)
  }

  datatype Found = NoMatch | Found(ref: string, rest: string)

  function RefLength(t: string): (n: nat)
    ensures n <= |t|
  {
    if t != "" && t[0] == '#' then 1 + DigitRun(t[1..]) else DigitRun(t)
  }

  /** The placeholder pattern at the front of `s`: `\x01@`, an optional `#` and digits, `@`,
      at least one character, and the next `\x01`. */
  function MatchHere(s: string): (f: Found)
    ensures f.Found? ==> |f.rest| < |s|
  {
    if |s| < 2 || s[0] != SOH || s[1] != '@' then NoMatch
    else
      var t := s[2..];
      var q := RefLength(t);
      if q >= |t| || t[q] != '@' then NoMatch
      else
        var e := IndexFrom(t, SOH, q + 2);
        if e >= |t| then NoMatch else Found(t[..q], t[e + 1..])
  }

  /** What a search for one placeholder after the other sees. */
  function Decode(s: string): seq<Chunk>
    decreases |s|
  {
    if s == "" then []
    else
      var f := MatchHere(s);
      if f.Found? then [Code(f.ref)] + Decode(f.rest) else [Char(s[0])] + Decode(s[1..])
  }

  // ----- Restoring the original text -----

  datatype Restoration = Restored(text: string) | BadNumber | BadIndex

  /** A number of a placeholder, as a machine word. */
  function Word(digits: string): Option<nat> {
    if digits == "" || !AllDigits(digits) then None
    else if DigitsValue(digits) < 0x1_0000_0000_0000_0000 then Some(DigitsValue(digits)) else None
  }

  /** The original text of one chunk; `table` holds what each replacement writes. */
  function Original(c: Chunk, table: seq<string>): Restoration {
    match c
    case Char(ch) => Restored([ch])
    case Code(ref) =>
      if ref == "" then Restored("")
      else if ref[0] == '#' then
        match Word(ref[1..])
        case None => BadNumber
        case Some(n) => if n < |Escapable()| then Restored("\\" + [Escapable()[n]]) else BadIndex
      else
        match Word(ref)
        case None => BadNumber
        case Some(n) => if n < |table| then Restored(table[n]) else BadIndex
  }

  function Append(a: Restoration, b: Restoration): Restoration {
    if !a.Restored? then a else if !b.Restored? then b else Restored(a.text + b.text)
  }

  function Originals(cs: seq<Chunk>, table: seq<string>): Restoration {
    if cs == [] then Restored("") else Append(Original(cs[0], table), Originals(cs[1..], table))
  }

  function Restore(s: string, table: seq<string>): Restoration {
    Originals(Decode(s), table)
  }

  // ----- Texts that the passes make -----

  datatype Item = Ch(c: char) | Ref(n: nat, name: string) | Esc(k: nat)

  function RefOf(i: Item): string
    requires !i.Ch?
  {
    if i.Ref? then Decimal(i.n) else "#" + Decimal(i.k)
  }

  function NameOf(i: Item): string
    requires !i.Ch?
  {
    if i.Ref? then i.name else "escaped"
  }

  function Placeholder(ref: string, name: string): string {
    [SOH] + ("@" + (ref + ("@" + (name + [SOH]))))
  }

  function TextOf(i: Item): string {
    if i.Ch? then [i.c] else Placeholder(RefOf(i), NameOf(i))
  }

  function Render(items: seq<Item>): string {
    if items == [] then "" else TextOf(items[0]) + Render(items[1..])
  }

  function ChunkOf(i: Item): Chunk {
    if i.Ch? then Char(i.c) else Code(RefOf(i))
  }

  function ChunksOf(items: seq<Item>): seq<Chunk> {
    if items == [] then [] else [ChunkOf(items[0])] + ChunksOf(items[1..])
  }

  /** Characters that occur in placeholders. None of them starts or ends a span that a pass cuts out. */
  predicate PlaceholderChar(c: char) {
    c == SOH || c in {'@', '#', '&'} || Digit(c) || 'a' <= c <= 'z' || 'A' <= c <= 'Z'
  }

  predicate GoodName(name: string) {
    name != "" && SOH !in name && forall c :: c in name ==> PlaceholderChar(c)
  }

  /** An item that can be read back while the table has `size` entries. */
  predicate GoodItem(i: Item, size: nat) {
    match i
    case Ch(c) => c != SOH
    case Ref(n, name) => n < size && GoodName(name)
    case Esc(k) => k < |Escapable()|
  }

  predicate Good(items: seq<Item>, size: nat) {
    forall i :: i in items ==> GoodItem(i, size)
  }

  /** A working string: all its placeholders are whole and below the size of the table. */
  ghost predicate Encoded(s: string, size: nat) {
    exists items :: Good(items, size) && s == Render(items)
  }

  // ----- Reading back what was rendered -----

  lemma {:induction false} IndexFromIs(s: string, c: char, i: nat, r: nat)
    requires i <= r < |s| && s[r] == c && forall j :: i <= j < r ==> s[j] != c
    ensures IndexFrom(s, c, i) == r
    decreases r - i
  {
    if i < r {
      IndexFromIs(s, c, i + 1, r);
    }
  }

  lemma RefLengthIs(ref: string, rest: string)
    requires rest != "" && rest[0] == '@'
    requires ref != "" && (AllDigits(ref) || (ref[0] == '#' && AllDigits(ref[1..])))
    ensures RefLength(ref + rest) == |ref|
  {
    if ref[0] == '#' {
      assert (ref + rest)[1..] == ref[1..] + rest;
      DigitRunIs(ref[1..], rest);
    } else {
      DigitRunIs(ref, rest);
    }
  }

  lemma {:induction false} NameEnds(ref: string, name: string, rest: string)
    requires name != "" && SOH !in name
    ensures var t := ref + ("@" + (name + ([SOH] + rest)));
            && IndexFrom(t, SOH, |ref| + 2) == |ref| + 1 + |name|
            && t[|ref| + 1 + |name| + 1..] == rest
  {
    var head := ref + "@";
    var t := head + (name + ([SOH] + rest));
    assert t == ref + ("@" + (name + ([SOH] + rest)));
    FirstAfter(head, name, SOH, rest, |head| + 1);
  }

  /** The first `c` after `head` ends the name. */
  lemma FirstAfter(head: string, name: string, c: char, rest: string, i: nat)
    requires c !in name && |head| <= i <= |head| + |name|
    ensures var t := head + (name + ([c] + rest));
            IndexFrom(t, c, i) == |head| + |name| && t[|head| + |name| + 1..] == rest
  {
    var t := head + (name + ([c] + rest));
    var r := |head| + |name|;
    forall j | i <= j < r ensures t[j] != c {
      assert t[j] == name[j - |head|];
    }
    IndexFromIs(t, c, i, r);
    assert t == (head + name + [c]) + rest;
  }

  lemma PlaceholderThen(ref: string, name: string, rest: string)
    ensures Placeholder(ref, name) + rest == [SOH] + ("@" + (ref + ("@" + (name + ([SOH] + rest)))))
  {
  }

  lemma PlaceholderMatches(ref: string, name: string, rest: string)
    requires ref != "" && (AllDigits(ref) || (ref[0] == '#' && AllDigits(ref[1..])))
    requires name != "" && SOH !in name
    ensures MatchHere(Placeholder(ref, name) + rest) == Found(ref, rest)
  {
    var after := "@" + (name + ([SOH] + rest));
    var t := ref + after;
    var s := Placeholder(ref, name) + rest;
    PlaceholderThen(ref, name, rest);
    assert s[2..] == t;
    RefLengthIs(ref, after);
    NameEnds(ref, name, rest);
    assert t[..|ref|] == ref;
  }

  lemma ItemDecodes(i: Item, size: nat, rest: string)
    requires GoodItem(i, size)
    ensures Decode(TextOf(i) + rest) == [ChunkOf(i)] + Decode(rest)
  {
    var s := TextOf(i) + rest;
    if i.Ch? {
      assert s[0] == i.c && s[1..] == rest;
    } else {
      assert i.Esc? ==> ("#" + Decimal(i.k))[1..] == Decimal(i.k);
      PlaceholderMatches(RefOf(i), NameOf(i), rest);
      assert s != "";
    }
  }

  /** The placeholders are found again, whole and in order, and nothing else is taken for one. */
  lemma {:induction false} RenderDecodes(items: seq<Item>, size: nat)
    requires Good(items, size)
    ensures Decode(Render(items)) == ChunksOf(items)
    decreases |items|
  {
    if items != [] {
      assert items[0] in items;
      assert Good(items[1..], size) by { assert forall i :: i in items[1..] ==> i in items; }
      RenderDecodes(items[1..], size);
      ItemDecodes(items[0], size, Render(items[1..]));
    }
  }
}
