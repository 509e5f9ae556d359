/** Which characters a backslash escapes, and the texts of placeholders, spelled out. */
module SpanEscapes {
  import opened TextTools
  import opened Placeholders
  import opened PlaceholderPasses
  import opened SpanText
  import opened SpanPasses

  predicate Special(c: char) {
    c in {'\\', '`', '*', '_', '{', '}', '[', ']', '(', ')', '#', '+', '-', '.', '!', '>'}
  }

  /** The number of each of the sixteen characters. */
  function NumberText(c: char): string
    requires Special(c)
  {
    if c == '\\' then "0" else if c == '`' then "1" else if c == '*' then "2" else if c == '_' then "3"
    else if c == '{' then "4" else if c == '}' then "5" else if c == '[' then "6" else if c == ']' then "7"
    else if c == '(' then "8" else if c == ')' then "9" else if c == '#' then "10" else if c == '+' then "11"
    else if c == '-' then "12" else if c == '.' then "13" else if c == '!' then "14" else "15"
  }

  lemma DigitText(d: nat)
    requires d < 10
    ensures [DigitChar(d)] == [("0123456789")[d]] && DigitValue(("0123456789")[d]) == d
  {
  }

  lemma TwoDigits(d: nat, e: nat)
    requires 1 <= d < 10 && e < 10
    ensures Decimal(d) == [("0123456789")[d]]
    ensures Decimal(10 * d + e) == [("0123456789")[d], ("0123456789")[e]]
  {
    DigitText(d);
    DigitText(e);
    assert (10 * d + e) / 10 == d && (10 * d + e) % 10 == e;
  }

  lemma FoundAt(c: char, k: nat)
    requires k < 16 && Escapable()[k] == c
    ensures EscapeIndex(c) == k
  {
    EachOnce(k);
    hide Escapable, IndexFrom;
    var e, r := Escapable(), IndexFrom(Escapable(), c, 0);
    IndexFromFirst(e, c, 0);
    assert forall j :: 0 <= j < r ==> e[0..r][j] == e[j] && e[0..r][j] in e[0..r];
  }

  lemma EachOnce(k: nat)
    requires k < 16
    ensures |Escapable()| == 16 && forall j :: 0 <= j < 16 && Escapable()[j] == Escapable()[k] ==> j == k
  {
  }

  lemma FoundNowhere(c: char)
    requires !Special(c)
    ensures !CanEscape(c)
  {
    var e := Escapable();
    assert forall k :: 0 <= k < 16 ==> Special(e[k]);
  }

  /** The place of each of them in the list, and its text. */
  lemma NumberOf(c: char) returns (k: nat)
    requires Special(c)
    ensures k < 16 && Escapable()[k] == c && Decimal(k) == NumberText(c)
  {
    k := if c == '\\' then 0 else if c == '`' then 1 else if c == '*' then 2 else if c == '_' then 3
         else if c == '{' then 4 else if c == '}' then 5 else if c == '[' then 6 else if c == ']' then 7
         else if c == '(' then 8 else if c == ')' then 9 else if c == '#' then 10 else if c == '+' then 11
         else if c == '-' then 12 else if c == '.' then 13 else if c == '!' then 14 else 15;
    if k < 10 {
      DigitText(k);
    } else {
      TwoDigits(1, k - 10);
    }
  }

  /** The placeholder of an escaped character. */
  function Escaped(c: char): string
    requires Special(c)
  {
    "\U{1}@#" + (NumberText(c) + "@escaped\U{1}")
  }

  lemma EscapedText(k: nat, n: string)
    requires Decimal(k) == n
    ensures TextOf(Esc(k)) == "\U{1}@#" + (n + "@escaped\U{1}")
  {
    hide Decimal;
  }

  /** A backslash and one of the sixteen give way to a placeholder with the number of the character. */
  lemma EscapedOne(c: char, rest: string)
    requires Special(c)
    ensures Escape(['\\', c] + rest) == Escaped(c) + Escape(rest)
  {
    var k := NumberOf(c);
    FoundAt(c, k);
    EscapeTwo(c, rest);
    EscapedText(k, NumberText(c));
    hide Escape, EscapeIndex, Decimal, NumberText, TextOf;
  }

  lemma NumberIsDigits(c: char)
    requires Special(c)
    ensures forall d :: d in NumberText(c) ==> '0' <= d <= '9'
  {
  }

  /** The placeholder does not hold the character, but for the number sign. */
  lemma CharacterIsGone(c: char)
    requires Special(c)
    ensures c in Escaped(c) <==> c == '#'
  {
    NumberIsDigits(c);
    assert c !in "@escaped\U{1}";
    hide NumberText;
  }

  /** A backslash before any other character stays with it. */
  lemma KeptOne(c: char, rest: string)
    requires !Special(c)
    ensures Escape(['\\', c] + rest) == ['\\', c] + Escape(rest)
  {
    FoundNowhere(c);
    EscapeTwo(c, rest);
  }

  /** All other characters stay, and so does a backslash at the end. */
  lemma OthersStay(c: char, rest: string)
    ensures c != '\\' ==> Escape([c] + rest) == [c] + Escape(rest)
    ensures Escape("") == "" && Escape("\\") == "\\"
  {
    assert ([c] + rest)[1..] == rest;
  }

  /** After escaping no backslash is followed by one of the sixteen. */
  ghost predicate NothingToEscape(t: string) {
    forall i :: 0 <= i < |t| - 1 && t[i] == '\\' ==> !Special(t[i + 1])
  }

  lemma {:induction false} EscapingIsDone(s: string)
    ensures NothingToEscape(Escape(s))
    decreases |s|
  {
    if |s| >= 1 && s[0] != '\\' {
      EscapingIsDone(s[1..]);
      JoinDone([s[0]], Escape(s[1..]));
    } else if |s| >= 2 {
      var c, rest := s[1], s[2..];
      EscapingIsDone(rest);
      assert s == ['\\', c] + rest;
      if Special(c) {
        EscapedOne(c, rest);
        EscapedIsPlain(c);
        JoinDone(Escaped(c), Escape(rest));
      } else {
        KeptOne(c, rest);
        JoinKept(c, Escape(rest));
      }
    }
  }

  lemma EscapedIsPlain(c: char)
    requires Special(c)
    ensures '\\' !in Escaped(c)
  {
    NumberIsDigits(c);
    hide NumberText;
  }

  lemma JoinDone(a: string, t: string)
    requires '\\' !in a && NothingToEscape(t)
    ensures NothingToEscape(a + t)
  {
    var s := a + t;
    assert forall k :: 0 <= k < |a| ==> a[k] in a;
    forall i | 0 <= i < |s| - 1 && s[i] == '\\' ensures !Special(s[i + 1]) {
      assert i >= |a|;
      assert s[i + 1] == t[i - |a| + 1];
    }
  }

  lemma JoinKept(c: char, t: string)
    requires !Special(c) && NothingToEscape(t)
    ensures NothingToEscape(['\\', c] + t)
  {
    assert c != '\\';
    assert ['\\', c] + t == ['\\'] + ([c] + t);
    JoinDone([c], t);
  }

  /** The reference that a pass writes for its first span. */
  lemma ReferenceText(sp: Span, rest: string, next: nat)
    ensures Replaced([sp], rest, next) == sp.keep + (("\U{1}@" + Decimal(next) + "@" + sp.name + "\U{1}") + rest)
  {
    assert [sp][1..] == [];
    assert Placeholder(Decimal(next), sp.name) == "\U{1}@" + Decimal(next) + "@" + sp.name + "\U{1}";
  }

  /** The text of a code span and what its entry writes, for both kinds. */
  lemma QuoteForms(before: string, inner: string, rest: string, table: seq<string>)
    ensures Divided(SpansOf([Quote(before, inner, false)]), rest) == before + (("`" + (inner + "`")) + rest)
    ensures Divided(SpansOf([Quote(before, inner, true)]), rest) == before + (("`` " + (inner + " ``")) + rest)
    ensures Restore(inner, table).Restored? ==>
              forall double :: QuoteText(Quote(before, inner, double), table) == "`" + (Restore(inner, table).text + "`")
  {
    forall double ensures SpansOf([Quote(before, inner, double)]) == [SpanOf(Quote(before, inner, double))] {
    }
    forall sp: Span ensures Divided([sp], rest) == sp.keep + (sp.cut + rest) {
      assert [sp][1..] == [];
    }
    hide Restore;
  }

  // ----- The placeholder pattern -----

  /** What may stand between the `@` signs: digits, perhaps after a number sign, or nothing. */
  predicate Reference(ref: string) {
    Decimals(ref) || (ref != "" && ref[0] == '#' && Decimals(ref[1..]))
  }

  /** A placeholder in front of `rest`: after its reference comes at least one character, and it ends at
      the next end character after that one. */
  predicate PlaceholderFirst(s: string, ref: string, name: string, rest: string) {
    && s == "\U{1}@" + (ref + ("@" + (name + ("\U{1}" + rest))))
    && Reference(ref) && name != "" && '\U{1}' !in name[1..]
  }

  lemma {:induction false} DigitsEnd(d: string, rest: string)
    requires Decimals(d) && (rest == "" || rest[0] !in {'0', '1', '2', '3', '4', '5', '6', '7', '8', '9'})
    ensures DigitRun(d + rest) == |d|
    decreases |d|
  {
    if d != "" {
      assert (d + rest)[1..] == d[1..] + rest;
      DigitsEnd(d[1..], rest);
    } else {
      assert d + rest == rest;
    }
  }

  lemma ReferenceLength(ref: string, rest: string)
    requires Reference(ref) && rest != "" && rest[0] == '@'
    ensures RefLength(ref + rest) == |ref|
  {
    if ref != "" && ref[0] == '#' {
      assert (ref + rest)[1..] == ref[1..] + rest;
      DigitsEnd(ref[1..], rest);
    } else {
      DigitsEnd(ref, rest);
    }
  }

  /** Every such placeholder is found. */
  lemma PatternFound(s: string, ref: string, name: string, rest: string)
    requires PlaceholderFirst(s, ref, name, rest)
    ensures MatchHere(s) == Found(ref, rest)
  {
    var t := ref + ("@" + (name + ("\U{1}" + rest)));
    assert s[0] == SOH && s[1] == '@' && s[2..] == t;
    ReferenceLength(ref, "@" + (name + ("\U{1}" + rest)));
    var head := ref + ("@" + [name[0]]);
    assert "\U{1}" == [SOH] && [name[0]] + name[1..] == name;
    assert t == head + (name[1..] + ([SOH] + rest));
    FirstAfter(head, name[1..], SOH, rest, |head|);
    assert t[..|ref|] == ref && t[|ref|] == '@';
  }

  /** Nothing else is. */
  lemma OnlyPatterns(s: string) returns (name: string)
    requires MatchHere(s).Found?
    ensures PlaceholderFirst(s, MatchHere(s).ref, name, MatchHere(s).rest)
  {
    hide MatchHere, RefLength, IndexFrom, Reference, PlaceholderFirst;
    FoundParts(s);
    var t := s[2..];
    var q, e := RefLength(t), IndexFrom(t, SOH, RefLength(t) + 2);
    name := t[q + 1..e];
    RefIsReference(t);
    PutTogether(s, q, e);
  }

  lemma FoundParts(s: string)
    requires MatchHere(s).Found?
    ensures |s| >= 2 && s[0] == SOH && s[1] == '@'
    ensures var t := s[2..];
            var q, e := RefLength(t), IndexFrom(t, SOH, RefLength(t) + 2);
            && q < q + 2 <= e < |t| && t[q] == '@' && t[e] == SOH && SOH !in t[q + 2..e]
            && MatchHere(s) == Found(t[..q], t[e + 1..])
  {
    hide RefLength;
    var t := s[2..];
    IndexFromFirst(t, SOH, RefLength(t) + 2);
  }

  lemma PutTogether(s: string, q: nat, e: nat)
    requires |s| >= 2 && s[0] == SOH && s[1] == '@'
    requires q + 2 <= e < |s[2..]| && s[2..][q] == '@' && s[2..][e] == SOH && SOH !in s[2..][q + 2..e]
    requires Reference(s[2..][..q])
    ensures PlaceholderFirst(s, s[2..][..q], s[2..][q + 1..e], s[2..][e + 1..])
  {
    hide Reference;
    var t := s[2..];
    assert t == t[..q] + ("@" + (t[q + 1..e] + ("\U{1}" + t[e + 1..])));
    assert s == "\U{1}@" + t;
    assert t[q + 1..e][1..] == t[q + 2..e];
  }

  lemma RefIsReference(t: string)
    ensures Reference(t[..RefLength(t)])
  {
    if t != "" && t[0] == '#' {
      assert t[..RefLength(t)][1..] == t[1..][..DigitRun(t[1..])];
    }
  }

  // ----- What a placeholder restores to -----

  lemma FirstRestored(s: string, ref: string, name: string, rest: string, table: seq<string>)
    requires PlaceholderFirst(s, ref, name, rest)
    ensures Restore(s, table) == Append(Original(Code(ref), table), Restore(rest, table))
  {
    PatternFound(s, ref, name, rest);
    var cs := [Code(ref)] + Decode(rest);
    assert s != "" && Decode(s) == cs;
    assert cs[1..] == Decode(rest);
    hide MatchHere, Original, PlaceholderFirst;
  }

  /** A number is that of an entry of the table, if it is one and fits a machine word. */
  lemma NumberRestored(s: string, n: nat, name: string, rest: string, table: seq<string>)
    requires PlaceholderFirst(s, Decimal(n), name, rest)
    ensures Restore(s, table) ==
            Append(if n >= 0x1_0000_0000_0000_0000 then BadNumber else if n < |table| then Restored(table[n]) else BadIndex,
                   Restore(rest, table))
  {
    FirstRestored(s, Decimal(n), name, rest, table);
    DecimalValue(n);
    assert Digit(Decimal(n)[0]);
    hide Decimal, Restore, PlaceholderFirst, DigitsValue;
  }

  /** The number of an escaped character gives it back behind a backslash; without a number there is
      nothing to write. */
  lemma EscapedRestored(s: string, c: char, name: string, rest: string, table: seq<string>)
    requires Special(c) && PlaceholderFirst(s, "#" + NumberText(c), name, rest)
    ensures Restore(s, table) == Append(Restored("\\" + [c]), Restore(rest, table))
  {
    var k := NumberOf(c);
    FirstRestored(s, "#" + NumberText(c), name, rest, table);
    DecimalValue(k);
    assert ("#" + NumberText(c))[1..] == NumberText(c);
    EachOnce(k);
    hide Decimal, Restore, PlaceholderFirst, DigitsValue, NumberText, Escapable;
  }

  lemma EmptyRestored(s: string, name: string, rest: string, table: seq<string>)
    requires PlaceholderFirst(s, "", name, rest)
    ensures Restore(s, table) == Append(Restored(""), Restore(rest, table))
  {
    FirstRestored(s, "", name, rest, table);
  }
}
