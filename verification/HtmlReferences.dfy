/** What encoding does with each character, and which ampersands it takes for references. */
module HtmlReferences {
  import opened TextTools
  import opened HtmlEncoding

  /** Angle brackets and quotes, by the flags; other characters stay. */
  lemma CharacterEncoded(c: char, rest: string, f: Flags)
    requires c != '&'
    ensures Encode([c] + rest, f) ==
            (if c == '<' && f.angles then "&lt;" else if c == '>' && f.angles then "&gt;"
             else if c == '"' && f.quotes then "&quot;" else [c]) + Encode(rest, f)
  {
    assert ([c] + rest)[1..] == rest;
  }

  /** An ampersand. */
  lemma AmpersandEncoded(rest: string, f: Flags)
    ensures Encode("&" + rest, f) ==
            (if f.amps && HasReference("&" + rest, true) then "&"
             else if f.amps || f.doubleAmps then "&amp;" else "&") + Encode(rest, f)
    ensures Encode("", f) == ""
  {
    assert ("&" + rest)[1..] == rest;
  }

  predicate Hexadecimals(d: string) {
    forall i :: 0 <= i < |d| ==>
      d[i] in {'0', '1', '2', '3', '4', '5', '6', '7', '8', '9',
               'a', 'b', 'c', 'd', 'e', 'f', 'A', 'B', 'C', 'D', 'E', 'F'}
  }

  lemma DecimalReference(d: string, rest: string)
    requires Decimals(d) && 1 <= |d| <= 3
    ensures NumericAt("&#" + (d + (";" + rest)))
  {
    var s := "&#" + (d + (";" + rest));
    assert forall i :: 0 <= i < |d| ==> s[2 + i] == d[i];
    assert s[2 + |d|] == ';';
  }

  lemma HexReference(x: char, d: string, rest: string)
    requires x in {'x', 'X'} && Hexadecimals(d) && 1 <= |d| <= 2
    ensures NumericAt("&#" + ([x] + (d + (";" + rest))))
  {
    var s := "&#" + ([x] + (d + (";" + rest)));
    assert s[2] == x && s[3 + |d|] == ';';
    assert forall i :: 0 <= i < |d| ==> s[3 + i] == d[i];
  }

  /** `s` starts with `&#`, then `d` at `from`, then a semicolon. */
  predicate Spelled(s: string, from: nat, d: string) {
    && from >= 2 && |s| > from + |d| && s[0] == '&' && s[1] == '#'
    && s[from..from + |d|] == d && s[from + |d|] == ';'
  }

  /** There are no other numeric references. */
  lemma NumericOnly(s: string) returns (d: string)
    requires NumericAt(s)
    ensures if s[2] in {'x', 'X'} then Hexadecimals(d) && 1 <= |d| <= 2 && Spelled(s, 3, d)
            else Decimals(d) && 1 <= |d| <= 3 && Spelled(s, 2, d)
  {
    if s[2] in {'x', 'X'} {
      d := if s[4] == ';' then s[3..4] else s[3..5];
    } else {
      d := if s[3] == ';' then s[2..3] else if s[4] == ';' then s[2..4] else s[2..5];
    }
  }

  /** A reference at `i`: a numeric one, or `&amp;` where a line starts. */
  predicate ReferenceAt(s: string, lineStart: bool, i: nat)
    requires i < |s|
  {
    NumericAt(s[i..]) ||
    (StandsAt(s, "&amp;", i) && if i == 0 then lineStart else s[i - 1] in {'\n', '\r', '\U{0c}'})
  }

  lemma ReferenceLater(s: string, lineStart: bool, i: nat)
    requires 0 < i < |s|
    ensures ReferenceAt(s, lineStart, i) <==> ReferenceAt(s[1..], s[0] in {'\n', '\r', '\U{0c}'}, i - 1)
  {
    assert s[1..][i - 1..] == s[i..];
    if i + 5 <= |s| {
      assert s[1..][i - 1..i + 4] == s[i..i + 5];
    }
    hide NumericAt;
  }

  /** What the search for a reference finds. */
  lemma {:induction false} HasReferenceIff(s: string, lineStart: bool)
    ensures HasReference(s, lineStart) <==> exists i :: 0 <= i < |s| && ReferenceAt(s, lineStart, i)
    decreases |s|
  {
    if s != "" {
      var later := s[0] in {'\n', '\r', '\U{0c}'};
      HasReferenceIff(s[1..], later);
      assert s[0..] == s;
      assert HasReference(s, lineStart) <==> ReferenceAt(s, lineStart, 0) || HasReference(s[1..], later);
      hide HasReference, NumericAt;
      forall i | 0 < i < |s| ensures ReferenceAt(s, lineStart, i) <==> ReferenceAt(s[1..], later, i - 1) {
        ReferenceLater(s, lineStart, i);
      }
      if i :| 0 <= i < |s[1..]| && ReferenceAt(s[1..], later, i) {
        assert ReferenceAt(s, lineStart, i + 1);
      }
    }
  }
}
