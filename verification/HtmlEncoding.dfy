/** Encoding of special characters for the output. */
module HtmlEncoding {
  import opened TextTools

  /** Which characters to encode: ampersands that start no reference, all ampersands, angle
      brackets, double quotes. */
  datatype Flags = Flags(amps: bool, doubleAmps: bool, angles: bool, quotes: bool)

  /** What the attributes of a tag are encoded with. */
  const AMPS_AND_ANGLES := Flags(true, false, true, false)

  predicate LineBreak(c: char) {
    c in {'\n', '\r', '\U{0c}'}
  }

  predicate HexDigit(c: char) {
    Digit(c) || 'a' <= c <= 'f' || 'A' <= c <= 'F'
  }

  /** A numeric character reference: one to three decimal digits, or one or two hexadecimal ones. */
  predicate NumericAt(s: string) {
    |s| >= 4 && s[0] == '&' && s[1] == '#' &&
    if s[2] in {'x', 'X'} then
      HexDigit(s[3]) && |s| >= 5 && (s[4] == ';' || (HexDigit(s[4]) && |s| >= 6 && s[5] == ';'))
    else
      Digit(s[2]) &&
      (s[3] == ';' ||
       (Digit(s[3]) && |s| >= 5 && (s[4] == ';' || (Digit(s[4]) && |s| >= 6 && s[5] == ';'))))
  }

  /** The search for a reference in the rest of a text. The line anchor of the expression binds
      its first alternative only: a numeric reference counts wherever it stands, `&amp;` at the
      start of the text and of a line. */
  predicate HasReference(s: string, lineStart: bool)
    decreases |s|
  {
    s != "" &&
    ((lineStart && StandsAt(s, "&amp;", 0)) || NumericAt(s) || HasReference(s[1..], LineBreak(s[0])))
  }

  /** What the character at the front of `s` becomes. */
  function EncodeFirst(s: string, f: Flags): (r: string)
    requires s != ""
    ensures |r| > 0 && (|r| == 1 ==> r == [s[0]])
  {
    if s[0] == '&' && f.amps then (if HasReference(s, true) then "&" else "&amp;")
    else if s[0] == '&' && f.doubleAmps then "&amp;"
    else if s[0] == '<' && f.angles then "&lt;"
    else if s[0] == '>' && f.angles then "&gt;"
    else if s[0] == '"' && f.quotes then "&quot;"
    else [s[0]]
  }

  function Encode(s: string, f: Flags): string
    decreases |s|
  {
    if s == "" then "" else EncodeFirst(s, f) + Encode(s[1..], f)
  }

  method EncodeString(src: string, f: Flags) returns (tgt: string)
    ensures tgt == Encode(src, f)
  {
    tgt := "";
    assert src[0..] == src && "" + Encode(src, f) == Encode(src, f);
    for i := 0 to |src|
      invariant tgt + Encode(src[i..], f) == Encode(src, f)
    {
      assert src[i..][1..] == src[i + 1..];
      Regroup(tgt, EncodeFirst(src[i..], f), Encode(src[i + 1..], f));
      if src[i] == '&' && f.amps {
        tgt := tgt + if HasReference(src[i..], true) then "&" else "&amp;";
      } else if src[i] == '&' && f.doubleAmps {
        tgt := tgt + "&amp;";
      } else if src[i] == '<' && f.angles {
        tgt := tgt + "&lt;";
      } else if src[i] == '>' && f.angles {
        tgt := tgt + "&gt;";
      } else if src[i] == '"' && f.quotes {
        tgt := tgt + "&quot;";
      } else {
        tgt := tgt + [src[i]];
      }
    }
    assert src[|src|..] == "" && tgt + "" == tgt;
  }

  /** Nothing in an attribute needs encoding: no angle bracket, and a reference at or after
      every ampersand. */
  predicate Clean(s: string) {
    forall i :: 0 <= i < |s| ==> CleanAt(s, i)
  }

  predicate CleanAt(s: string, i: nat)
    requires i < |s|
  {
    s[i] !in {'<', '>'} && (s[i] == '&' ==> HasReference(s[i..], true))
  }

  /** Encoding never makes a text shorter, and it leaves its length, and the text, as they are
      exactly when the text is clean. */
  lemma {:induction false} EncodeGrows(s: string)
    ensures |Encode(s, AMPS_AND_ANGLES)| >= |s|
    ensures |Encode(s, AMPS_AND_ANGLES)| == |s| <==> Clean(s)
    ensures Clean(s) <==> Encode(s, AMPS_AND_ANGLES) == s
    decreases |s|
  {
    if s != "" {
      EncodeGrows(s[1..]);
      CleanFirst(s);
      assert s == [s[0]] + s[1..];
      assert s[0..] == s;
    }
  }

  /** Encoding neither adds nor takes a backquote. */
  lemma {:induction false} EncodeKeepsTicks(s: string, f: Flags)
    ensures Ticks(Encode(s, f)) == Ticks(s)
    decreases |s|
  {
    hide EncodeFirst, Ticks;
    if s == "" {
      NoTicks(s);
    } else {
      EncodeKeepsTicks(s[1..], f);
      TicksConcat(EncodeFirst(s, f), Encode(s[1..], f));
      TicksConcat([s[0]], s[1..]);
      assert s == [s[0]] + s[1..];
      FirstKeepsTicks(s, f);
    }
  }

  lemma FirstKeepsTicks(s: string, f: Flags)
    requires s != ""
    ensures Ticks(EncodeFirst(s, f)) == Ticks([s[0]])
  {
    hide HasReference, Ticks;
    var r := EncodeFirst(s, f);
    if r != [s[0]] {
      NoTicks(r);
      NoTicks([s[0]]);
    }
  }

  lemma CleanFirst(s: string)
    requires s != ""
    ensures Clean(s) <==> CleanAt(s, 0) && Clean(s[1..])
  {
    forall i | 0 <= i < |s| - 1 ensures CleanAt(s, i + 1) <==> CleanAt(s[1..], i) {
      assert s[1..][i..] == s[i + 1..];
    }
    if Clean(s) {
      forall i | 0 <= i < |s| - 1 ensures CleanAt(s[1..], i) {
        assert CleanAt(s, i + 1);
      }
    }
    if CleanAt(s, 0) && Clean(s[1..]) {
      forall i | 0 <= i < |s| ensures CleanAt(s, i) {
        assert i > 0 ==> CleanAt(s[1..], i - 1);
      }
    }
  }
}
