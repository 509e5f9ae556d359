/** Searching in strings, and decimal numbers as text. */
module TextTools {

  datatype Option<+T> = None | Some(value: T)

  lemma Regroup(a: string, b: string, c: string)
    ensures a + (b + c) == (a + b) + c
  {
  }

  /** How many backquotes a text has. */
  function Ticks(s: string): nat {
    multiset(s)['`']
  }

  lemma NoTicks(s: string)
    requires '`' !in s
    ensures Ticks(s) == 0
  {
  }

  lemma TicksConcat(a: string, b: string)
    ensures Ticks(a + b) == Ticks(a) + Ticks(b)
  {
  }

  /** Whether `p` stands at position `i` of `s`. */
  predicate StandsAt(s: string, p: string, i: int) {
    0 <= i <= |s| - |p| && s[i..i + |p|] == p
  }

  lemma StandsChar(s: string, p: string, i: int, t: nat)
    requires StandsAt(s, p, i) && t < |p|
    ensures s[i + t] == p[t]
  {
  }

  /** The first position from `i` on where `p` stands in `s`. */
  function FindFrom(s: string, p: string, i: nat): (r: Option<nat>)
    ensures r.Some? ==> i <= r.value <= |s| - |p|
    decreases |s| - i
  {
    if i + |p| > |s| then None
    else if s[i..i + |p|] == p then Some(i)
    else FindFrom(s, p, i + 1)
  }

  lemma {:induction false} FindFacts(s: string, p: string, i: nat)
    ensures match FindFrom(s, p, i)
            case Some(r) => StandsAt(s, p, r) && forall j :: i <= j < r ==> !StandsAt(s, p, j)
            case None => forall j :: i <= j ==> !StandsAt(s, p, j)
    decreases |s| - i
  {
    if i + |p| <= |s| && s[i..i + |p|] != p {
      FindFacts(s, p, i + 1);
    }
  }

  function Find(s: string, p: string): Option<nat> {
    FindFrom(s, p, 0)
  }

  predicate Contains(s: string, p: string) {
    Find(s, p).Some?
  }

  lemma FindIs(s: string, p: string, i: nat, r: nat)
    requires i <= r && StandsAt(s, p, r) && forall j :: i <= j < r ==> !StandsAt(s, p, j)
    ensures FindFrom(s, p, i) == Some(r)
  {
    FindFacts(s, p, i);
  }

  lemma Has(s: string, p: string, i: nat)
    requires StandsAt(s, p, i)
    ensures Contains(s, p)
  {
    FindFacts(s, p, 0);
  }

  lemma HasNot(s: string, p: string)
    requires p != "" && p[0] !in s
    ensures !Contains(s, p)
  {
    FindFacts(s, p, 0);
    if Contains(s, p) {
      StandsChar(s, p, Find(s, p).value, 0);
    }
  }

  /** The last position of `c`. */
  function LastOf(s: string, c: char): (p: Option<nat>)
    ensures p.Some? ==> p.value < |s| && s[p.value] == c && forall k :: p.value < k < |s| ==> s[k] != c
    ensures p.None? ==> forall k :: 0 <= k < |s| ==> s[k] != c
    decreases |s|
  {
    if s == "" then None
    else if s[|s| - 1] == c then Some(|s| - 1)
    else LastOf(s[..|s| - 1], c)
  }

  // ----- Decimal text -----

  predicate Digit(c: char) { '0' <= c <= '9' }

  predicate AllDigits(s: string) {
    forall i :: 0 <= i < |s| ==> Digit(s[i])
  }

  function DigitChar(d: nat): char
    requires d < 10
  {
    '0' + d as char
  }

  function DigitValue(c: char): nat
    requires Digit(c)
  {
    (c - '0') as nat
  }

  function Decimal(n: nat): (s: string)
    ensures |s| > 0 && AllDigits(s)
  {
    if n < 10 then [DigitChar(n)] else Decimal(n / 10) + [DigitChar(n % 10)]
  }

  function IntText(n: int): string {
    if n < 0 then "-" + Decimal(-n) else Decimal(n)
  }

  function DigitsValue(s: string): nat
    requires AllDigits(s)
  {
    if s == "" then 0 else 10 * DigitsValue(s[..|s| - 1]) + DigitValue(s[|s| - 1])
  }

  lemma {:induction false} DecimalValue(n: nat)
    ensures DigitsValue(Decimal(n)) == n
  {
    if n < 10 {
      assert [DigitChar(n)][..0] == "";
    } else {
      var s := Decimal(n / 10);
      DecimalValue(n / 10);
      assert (s + [DigitChar(n % 10)])[..|s|] == s;
    }
  }

  /** How many of the first characters of `s` are digits. */
  function DigitRun(s: string): (n: nat)
    ensures n <= |s| && AllDigits(s[..n]) && (n < |s| ==> !Digit(s[n]))
  {
    if s == "" || !Digit(s[0]) then 0
    else
      var n := DigitRun(s[1..]);
      assert s[..n + 1] == [s[0]] + s[1..][..n];
      n + 1
  }

  lemma {:induction false} DigitRunIs(d: string, rest: string)
    requires AllDigits(d) && (rest == "" || !Digit(rest[0]))
    ensures DigitRun(d + rest) == |d| && (d + rest)[..|d|] == d
  {
  }

  predicate Space(c: char) { c in {' ', '\t', '\n', '\r', '\U{0b}', '\U{0c}'} }

  function SkipSpace(s: string): string {
    if s != "" && Space(s[0]) then SkipSpace(s[1..]) else s
  }

  function Unsigned(s: string, negative: bool): Option<int> {
    var n := DigitRun(s);
    if n == 0 then None
    else
      var v := if negative then -(DigitsValue(s[..n]) as int) else DigitsValue(s[..n]);
      if -0x8000_0000 <= v < 0x8000_0000 then Some(v) else None
  }

  /** Conversion of a prefix of the text to a 32-bit number; none where it throws. */
  function Stoi(text: string): Option<int> {
    var s := SkipSpace(text);
    if s != "" && s[0] == '-' then Unsigned(s[1..], true)
    else if s != "" && s[0] == '+' then Unsigned(s[1..], false)
    else Unsigned(s, false)
  }

  lemma UnsignedReadsBack(m: int, rest: string, negative: bool)
    requires 0 <= m && if negative then m <= 0x8000_0000 else m < 0x8000_0000
    requires rest == "" || !Digit(rest[0])
    ensures Unsigned(Decimal(m) + rest, negative) == Some(if negative then -m else m)
  {
    DecimalValue(m);
    DigitRunIs(Decimal(m), rest);
  }

  /** Reading back a printed number, whatever follows it. */
  lemma StoiReadsBack(n: int, rest: string)
    requires -0x8000_0000 <= n < 0x8000_0000
    requires rest == "" || !Digit(rest[0])
    ensures Stoi(IntText(n) + rest) == Some(n)
  {
    if n < 0 {
      UnsignedReadsBack(-n, rest, true);
      SignedHead('-', Decimal(-n), rest);
    } else {
      UnsignedReadsBack(n, rest, false);
      DigitHead(Decimal(n), rest);
    }
  }

  // ----- The same, with the characters spelled out -----

  predicate WhiteSpace(c: char) {
    c in {' ', '\t', '\n', '\r', '\U{0b}', '\U{0c}'}
  }

  predicate Decimals(d: string) {
    forall i :: 0 <= i < |d| ==> d[i] in {'0', '1', '2', '3', '4', '5', '6', '7', '8', '9'}
  }

  predicate Blanks(s: string) {
    forall i :: 0 <= i < |s| ==> WhiteSpace(s[i])
  }

  lemma {:induction false} SpaceSkipped(blanks: string, s: string)
    requires Blanks(blanks) && (s == "" || !WhiteSpace(s[0]))
    ensures SkipSpace(blanks + s) == s
    decreases |blanks|
  {
    if blanks == "" {
      assert blanks + s == s;
    } else {
      assert (blanks + s)[1..] == blanks[1..] + s;
      SpaceSkipped(blanks[1..], s);
    }
  }

  lemma UnsignedReads(n: int, rest: string, negative: bool)
    requires n >= 0 && (rest == "" || !Digit(rest[0]))
    ensures var v := if negative then -n else n;
            Unsigned(Decimal(n) + rest, negative) == if -0x8000_0000 <= v < 0x8000_0000 then Some(v) else None
  {
    DecimalValue(n);
    DigitRunIs(Decimal(n), rest);
    hide Decimal, DigitsValue;
  }

  lemma DigitIsPlain(c: char)
    requires Digit(c)
    ensures !WhiteSpace(c) && c != '+' && c != '-'
  {
  }

  /** White space and one sign may come before the digits; the number is lost outside 32 bits. */
  lemma StoiReads(blanks: string, sign: string, n: int, rest: string)
    requires n >= 0 && Blanks(blanks) && sign in {"", "+", "-"} && (rest == "" || !Digit(rest[0]))
    ensures var v := if sign == "-" then -n else n;
            Stoi(blanks + (sign + (Decimal(n) + rest))) ==
            if -0x8000_0000 <= v < 0x8000_0000 then Some(v) else None
  {
    var digits := Decimal(n) + rest;
    DigitHead(Decimal(n), rest);
    DigitIsPlain(digits[0]);
    assert sign != "" ==> (sign + digits)[1..] == digits;
    assert sign == "" ==> sign + digits == digits;
    hide Decimal, SkipSpace, Unsigned, Digit;
    SpaceSkipped(blanks, sign + digits);
    UnsignedReads(n, rest, sign == "-");
  }

  /** Without a digit there nothing is read. */
  lemma StoiReadsNone(blanks: string, sign: string, rest: string)
    requires Blanks(blanks) && sign in {"+", "-"} && (rest == "" || !Digit(rest[0]))
    ensures Stoi(blanks + (sign + rest)) == None && Stoi("") == None
  {
    assert (sign + rest)[1..] == rest;
    SpaceSkipped(blanks, sign + rest);
  }

  lemma SignedHead(c: char, d: string, rest: string)
    ensures [c] + d + rest != "" && ([c] + d + rest)[0] == c && ([c] + d + rest)[1..] == d + rest
  {
  }

  lemma DigitHead(d: string, rest: string)
    requires d != "" && AllDigits(d)
    ensures d + rest != "" && Digit((d + rest)[0])
  {
  }
}
