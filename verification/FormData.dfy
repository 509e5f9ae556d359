/** Decoding of url-encoded form bodies. */
module FormData {
  import opened TextTools

  // ----- Percent-decoding -----

  function HexDigit(c: char): Option<nat> {
    if '0' <= c <= '9' then Some(c as int - '0' as int)
    else if 'a' <= c <= 'f' then Some(c as int - 'a' as int + 10)
    else if 'A' <= c <= 'F' then Some(c as int - 'A' as int + 10)
    else None
  }

  /** What a formatted hexadecimal read makes of two characters: it skips white space, takes a
      sign, stops at the first character that is no digit, and wants a digit after `0x`. */
  function ReadHex(a: char, b: char): Option<int> {
    if Space(a) || a == '+' || a == '-' then
      if HexDigit(b).None? then None
      else
        var v: int := HexDigit(b).value;
        Some(if a == '-' then -v else v)
    else if HexDigit(a).None? || (a == '0' && b in {'x', 'X'}) then None
    else if HexDigit(b).Some? then Some(16 * HexDigit(a).value + HexDigit(b).value)
    else Some(HexDigit(a).value)
  }

  /** Conversion to an 8-bit character. */
  function Byte(v: int): char {
    (v % 256) as char
  }

  /** The answer and what has been written when the loop ends. */
  datatype Decoded = Decoded(ok: bool, out: string)

  function Decode(s: string): Decoded
    decreases |s|
  {
    if s == "" then Decoded(true, "")
    else if s[0] == '%' then
      if |s| < 3 || ReadHex(s[1], s[2]).None? then Decoded(false, "")
      else
        var rest := Decode(s[3..]);
        rest.(out := [Byte(ReadHex(s[1], s[2]).value)] + rest.out)
    else
      var rest := Decode(s[1..]);
      rest.(out := [if s[0] == '+' then ' ' else s[0]] + rest.out)
  }

  /** `out` and the decoding of what is left make the decoding of the whole. */
  predicate Decoding(out: string, rest: string, whole: Decoded) {
    Decode(rest).(out := out + Decode(rest).out) == whole
  }

  lemma DecodingStarts(s: string)
    ensures Decoding("", s[0..], Decode(s))
  {
  }

  lemma DecodingNext(out: string, s: string, i: nat, whole: Decoded)
    requires i < |s| && Decoding(out, s[i..], whole)
    ensures if s[i] == '%' then
              if i + 3 <= |s| && ReadHex(s[i + 1], s[i + 2]).Some? then
                Decoding(out + [Byte(ReadHex(s[i + 1], s[i + 2]).value)], s[i + 3..], whole)
              else whole == Decoded(false, out)
            else Decoding(out + [if s[i] == '+' then ' ' else s[i]], s[i + 1..], whole)
  {
  }

  method UriDecode(s: string) returns (ok: bool, out: string)
    ensures Decoded(ok, out) == Decode(s)
  {
    hide *;
    out := "";
    var i := 0;
    DecodingStarts(s);
    while i < |s|
      invariant i <= |s| && Decoding(out, s[i..], Decode(s))
    {
      DecodingNext(out, s, i, Decode(s));
      if s[i] == '%' {
        if i + 3 <= |s| {
          var value := ReadHex(s[i + 1], s[i + 2]);
          if value.Some? {
            out := out + [Byte(value.value)];
            i := i + 2;
          } else {
            return false, out;
          }
        } else {
          return false, out;
        }
      } else if s[i] == '+' {
        out := out + [' '];
      } else {
        out := out + [s[i]];
      }
      i := i + 1;
    }
    DecodingEnds(out, s[i..], Decode(s));
    ok := true;
  }

  lemma DecodingEnds(out: string, rest: string, whole: Decoded)
    requires rest == "" && Decoding(out, rest, whole)
    ensures whole == Decoded(true, out)
  {
  }

  // ----- Valid encodings -----

  /** `raw` encodes `value`: each character as itself, as `+` for a space, or as a percent sign
      and two hexadecimal digits. */
  predicate Encodes(raw: string, value: string)
    decreases |value|
  {
    if value == "" then raw == ""
    else
      raw != "" &&
      if raw[0] == '%' then
        && |raw| >= 3 && HexDigit(raw[1]).Some? && HexDigit(raw[2]).Some?
        && value[0] as int == 16 * HexDigit(raw[1]).value + HexDigit(raw[2]).value
        && Encodes(raw[3..], value[1..])
      else value[0] == (if raw[0] == '+' then ' ' else raw[0]) && Encodes(raw[1..], value[1..])
  }

  /** Every percent sign is followed by two hexadecimal digits. */
  predicate Strict(raw: string)
    decreases |raw|
  {
    raw != "" ==>
      if raw[0] == '%'
      then |raw| >= 3 && HexDigit(raw[1]).Some? && HexDigit(raw[2]).Some? && Strict(raw[3..])
      else Strict(raw[1..])
  }

  predicate Inverts(raw: string, value: string) {
    Encodes(raw, value) <==> Strict(raw) && Decode(raw) == Decoded(true, value)
  }

  /** On strictly encoded text decoding finds exactly the encoded value. */
  lemma {:induction false} DecodeInverts(raw: string, value: string)
    ensures Encodes(raw, value) <==> Strict(raw) && Decode(raw) == Decoded(true, value)
    decreases |raw|
  {
    if raw == "" || value == "" || (raw[0] == '%' && |raw| < 3) {
      assert Inverts(raw, value);
    } else if raw[0] == '%' {
      DecodeInverts(raw[3..], value[1..]);
      PercentStep(raw, value);
    } else {
      DecodeInverts(raw[1..], value[1..]);
      PlainStep(raw, value);
    }
  }

  lemma PlainStep(raw: string, value: string)
    requires raw != "" && value != "" && raw[0] != '%' && Inverts(raw[1..], value[1..])
    ensures Inverts(raw, value)
  {
    hide HexDigit, ReadHex;
    StartsWith(if raw[0] == '+' then ' ' else raw[0], Decode(raw[1..]).out, value);
  }

  lemma PercentStep(raw: string, value: string)
    requires |raw| >= 3 && value != "" && raw[0] == '%' && Inverts(raw[3..], value[1..])
    ensures Inverts(raw, value)
  {
    if HexDigit(raw[1]).Some? && HexDigit(raw[2]).Some? {
      HexReads(raw[1], raw[2]);
      hide HexDigit, ReadHex;
      StartsWith(Byte(ReadHex(raw[1], raw[2]).value), Decode(raw[3..]).out, value);
    }
  }

  lemma StartsWith(c: char, rest: string, value: string)
    requires value != ""
    ensures [c] + rest == value <==> c == value[0] && rest == value[1..]
  {
    if c == value[0] && rest == value[1..] {
      assert value == [value[0]] + value[1..];
    }
    assert ([c] + rest)[0] == c && ([c] + rest)[1..] == rest;
  }

  lemma HexReads(a: char, b: char)
    requires HexDigit(a).Some? && HexDigit(b).Some?
    ensures ReadHex(a, b) == Some(16 * HexDigit(a).value + HexDigit(b).value)
    ensures 0 <= HexDigit(a).value < 16 && 0 <= HexDigit(b).value < 16
  {
  }

  // ----- Form bodies -----

  type Field = (string, string)

  /** The answer and the fields pushed before the parser stops. */
  datatype Parsed = Parsed(ok: bool, fields: seq<Field>)

  /** Splitting at every ampersand. */
  function Split(s: string): (parts: seq<string>)
    ensures |parts| > 0
    decreases |s|
  {
    if s == "" then [""]
    else
      var rest := Split(s[1..]);
      if s[0] == '&' then [""] + rest else [[s[0]] + rest[0]] + rest[1..]
  }

  predicate Spaceless(s: string) {
    forall c :: c in s ==> !Space(c)
  }

  function UpToNul(s: string): (r: string)
    ensures r <= s && '\0' !in r && (|r| < |s| ==> s[|r|] == '\0')
  {
    if s == "" || s[0] == '\0' then "" else [s[0]] + UpToNul(s[1..])
  }

  /** The match of `(\S+)=(\S*)` with the whole of a part, as a C string: its first group is greedy. */
  function MatchField(part: string): Option<Field> {
    var s := UpToNul(part);
    var p := LastOf(s, '=');
    if p.None? || p.value == 0 || !Spaceless(s) then None
    else Some((s[..p.value], s[p.value + 1..]))
  }

  function ParsePart(part: string): Option<Field> {
    var m := MatchField(part);
    if m.None? || !Decode(m.value.1).ok then None else Some((m.value.0, Decode(m.value.1).out))
  }

  function ParseParts(parts: seq<string>): Parsed {
    if parts == [] then Parsed(true, [])
    else
      var f := ParsePart(parts[0]);
      if f.None? then Parsed(false, [])
      else
        var rest := ParseParts(parts[1..]);
        rest.(fields := [f.value] + rest.fields)
  }

  function Parse(body: string): Parsed {
    ParseParts(Split(body))
  }

  /** `fields`, and what the part read so far and the rest of the body give, make the whole. */
  predicate Parsing(fields: seq<Field>, sub: string, rest: string, whole: Parsed) {
    '&' !in sub && Parse(sub + rest).(fields := fields + Parse(sub + rest).fields) == whole
  }

  lemma {:induction false} SplitPlain(sub: string)
    requires '&' !in sub
    ensures Split(sub) == [sub]
    decreases |sub|
  {
    if sub != "" {
      SplitPlain(sub[1..]);
      assert sub[0] in sub && sub == [sub[0]] + sub[1..];
    }
  }

  lemma {:induction false} SplitAt(sub: string, rest: string)
    requires '&' !in sub
    ensures Split(sub + "&" + rest) == [sub] + Split(rest)
    decreases |sub|
  {
    var s := sub + "&" + rest;
    if sub == "" {
      assert s[1..] == rest;
    } else {
      assert s[1..] == sub[1..] + "&" + rest && s[0] == sub[0] && sub[0] in sub;
      SplitAt(sub[1..], rest);
      assert sub == [sub[0]] + sub[1..];
    }
  }

  lemma Extend(fields: seq<Field>, f: Field, rest: seq<Field>)
    ensures fields + ([f] + rest) == (fields + [f]) + rest
  {
  }

  /** What the end of a part leads to. */
  lemma PartEnds(fields: seq<Field>, sub: string, rest: string, whole: Parsed)
    requires Parsing(fields, sub, rest, whole) && (rest == "" || rest[0] == '&')
    ensures if ParsePart(sub).None? then whole == Parsed(false, fields)
            else if rest == "" then whole == Parsed(true, fields + [ParsePart(sub).value])
            else Parsing(fields + [ParsePart(sub).value], "", rest[1..], whole)
  {
    var more := if rest == "" then [] else Split(rest[1..]);
    assert Split(sub + rest) == [sub] + more by {
      if rest == "" {
        SplitPlain(sub);
        assert sub + rest == sub;
      } else {
        SplitAt(sub, rest[1..]);
        assert sub + "&" + rest[1..] == sub + rest;
      }
    }
    assert ([sub] + more)[1..] == more;
    assert fields + [] == fields;
    if ParsePart(sub).Some? {
      Extend(fields, ParsePart(sub).value, ParseParts(more).fields);
      if rest != "" {
        assert "" + rest[1..] == rest[1..];
      }
    }
  }

  lemma PartGoesOn(fields: seq<Field>, sub: string, rest: string, whole: Parsed)
    requires Parsing(fields, sub, rest, whole) && rest != "" && rest[0] != '&'
    ensures Parsing(fields, sub + [rest[0]], rest[1..], whole)
  {
    assert (sub + [rest[0]]) + rest[1..] == sub + rest;
  }

  lemma ParsingStarts(fields: seq<Field>, body: string)
    ensures Parsing(fields, "", body[0..], Parsed(Parse(body).ok, fields + Parse(body).fields))
  {
    assert "" + body[0..] == body;
  }

  /** Parsing of a body; the fields are appended to those that were there before. */
  method ParseBody(body: string, before: seq<Field>) returns (ok: bool, decoded_body: seq<Field>)
    ensures ok == Parse(body).ok && decoded_body == before + Parse(body).fields
  {
    hide *;
    decoded_body := before;
    var sub_body := "";
    ghost var whole := Parsed(Parse(body).ok, before + Parse(body).fields);
    ParsingStarts(before, body);
    var i := 0;
    while i <= |body|
      invariant i <= |body| + 1
      invariant i <= |body| ==> Parsing(decoded_body, sub_body, body[i..], whole)
      invariant i == |body| + 1 ==> whole == Parsed(true, decoded_body)
    {
      if i == |body| || body[i] == '&' {
        PartEnds(decoded_body, sub_body, body[i..], whole);
        var sub_body_mat := MatchField(sub_body);
        PartIs(sub_body);
        if sub_body_mat.None? {
          return false, decoded_body;
        }
        var decoded, value := UriDecode(sub_body_mat.value.1);
        if !decoded {
          return false, decoded_body;
        }
        decoded_body := decoded_body + [(sub_body_mat.value.0, value)];
        sub_body := "";
      } else {
        PartGoesOn(decoded_body, sub_body, body[i..], whole);
        sub_body := sub_body + [body[i]];
      }
      i := i + 1;
    }
    ok := true;
  }

  lemma PartIs(part: string)
    ensures var m := MatchField(part);
            && (m.None? ==> ParsePart(part).None?)
            && (m.Some? && !Decode(m.value.1).ok ==> ParsePart(part).None?)
            && (m.Some? && Decode(m.value.1).ok ==> ParsePart(part) == Some((m.value.0, Decode(m.value.1).out)))
  {
  }

  // ----- The language of bodies -----

  predicate LegalName(name: string) {
    name != "" && Spaceless(name) && '&' !in name && '\0' !in name
  }

  /** What follows a zero character is not looked at. */
  predicate LegalValue(raw: string) {
    '&' !in raw && Spaceless(UpToNul(raw)) && '=' !in UpToNul(raw)
  }

  function PartOf(name: string, raw: string): string {
    name + "=" + raw
  }

  function Body(fields: seq<Field>, raws: seq<string>): string
    requires |fields| == |raws| > 0
  {
    if |fields| == 1 then PartOf(fields[0].0, raws[0])
    else PartOf(fields[0].0, raws[0]) + "&" + Body(fields[1..], raws[1..])
  }

  predicate Legal(f: Field, raw: string) {
    LegalName(f.0) && LegalValue(raw) && Decode(UpToNul(raw)) == Decoded(true, f.1)
  }

  /** The body spells the fields, their values written as `raws`. */
  predicate Spells(body: string, fields: seq<Field>, raws: seq<string>) {
    && |fields| == |raws| > 0 && body == Body(fields, raws)
    && forall i :: 0 <= i < |fields| ==> Legal(fields[i], raws[i])
  }

  lemma {:induction false} NulFree(s: string)
    requires '\0' !in s
    ensures UpToNul(s) == s
    decreases |s|
  {
    if s != "" {
      assert s[0] in s;
      NulFree(s[1..]);
    }
  }

  lemma {:induction false} NulAfter(head: string, s: string)
    requires '\0' !in head
    ensures UpToNul(head + s) == head + UpToNul(s)
    decreases |head|
  {
    if head == "" {
      assert head + s == s;
    } else {
      assert head[0] in head && (head + s)[1..] == head[1..] + s;
      NulAfter(head[1..], s);
    }
  }

  lemma DropLast(head: string, raw: string)
    requires raw != ""
    ensures (head + raw)[..|head + raw| - 1] == head + raw[..|raw| - 1]
  {
  }

  lemma {:induction false} LastEqualsIs(name: string, raw: string)
    requires '=' !in raw
    ensures LastOf(PartOf(name, raw), '=') == Some(|name|)
    decreases |raw|
  {
    var s := PartOf(name, raw);
    if raw != "" {
      assert raw[|raw| - 1] in raw && s[|s| - 1] == raw[|raw| - 1];
      DropLast(name + "=", raw);
      LastEqualsIs(name, raw[..|raw| - 1]);
    }
  }

  lemma LastEqualsSplits(s: string)
    requires LastOf(s, '=').Some?
    ensures var p := LastOf(s, '=').value; s == PartOf(s[..p], s[p + 1..]) && '=' !in s[p + 1..]
  {
    var p := LastOf(s, '=').value;
    var raw := s[p + 1..];
    forall k | 0 <= k < |raw| ensures raw[k] != '=' {
      assert raw[k] == s[p + 1 + k];
    }
    assert [s[p]] == "=";
  }

  lemma PartReads(f: Field, raw: string)
    requires Legal(f, raw)
    ensures ParsePart(PartOf(f.0, raw)) == Some(f) && '&' !in PartOf(f.0, raw)
  {
    var value := UpToNul(raw);
    PartChars(f.0, value);
    NulAfter(f.0 + "=", raw);
    LastEqualsIs(f.0, value);
    assert '&' !in f.0 + "=";
    hide LastOf, UpToNul, Decode, Spaceless;
  }

  lemma PartChars(name: string, value: string)
    requires LegalName(name) && Spaceless(value)
    ensures var s := PartOf(name, value);
            name != "" && Spaceless(s) && |name| < |s| && s[..|name|] == name && s[|name| + 1..] == value
  {
  }

  /** A part, and what is looked at of it, cut at the last equals sign before any zero character. */
  lemma FieldSplits(part: string)
    requires LastOf(UpToNul(part), '=').Some?
    ensures var s := UpToNul(part);
            var p := LastOf(s, '=').value;
            && s == PartOf(s[..p], s[p + 1..]) && '=' !in s[p + 1..]
            && part == PartOf(s[..p], part[p + 1..]) && UpToNul(part[p + 1..]) == s[p + 1..]
  {
    hide UpToNul, LastOf;
    var s := UpToNul(part);
    var p := LastOf(s, '=').value;
    LastEqualsSplits(s);
    var head, raw := s[..p] + "=", part[p + 1..];
    assert s[..p + 1] == head && part[..p + 1] == head;
    assert part == head + raw;
    assert '\0' !in head by { assert forall c :: c in head ==> c in s; }
    NulAfter(head, raw);
    assert (head + UpToNul(raw))[p + 1..] == UpToNul(raw);
  }

  lemma PartMembers(name: string, raw: string, c: char)
    ensures c in name || c in raw ==> c in PartOf(name, raw)
  {
  }

  lemma ReadIsPart(part: string) returns (raw: string)
    requires '&' !in part && ParsePart(part).Some?
    ensures Legal(ParsePart(part).value, raw) && part == PartOf(ParsePart(part).value.0, raw)
  {
    var s := UpToNul(part);
    var p := LastOf(s, '=').value;
    var name, value := s[..p], s[p + 1..];
    raw := part[p + 1..];
    FieldSplits(part);
    hide Decode, UpToNul, LastOf, PartOf, Spaceless;
    PartMembers(name, raw, '&');
    PartMembers(name, value, '\0');
    PartSpaceless(name, value);
  }

  lemma PartSpaceless(name: string, value: string)
    requires Spaceless(PartOf(name, value))
    ensures Spaceless(name) && Spaceless(value)
  {
    forall c ensures c in name || c in value ==> c in PartOf(name, value) {
      PartMembers(name, value, c);
    }
  }

  lemma {:induction false} SpelledParses(fields: seq<Field>, raws: seq<string>)
    requires |fields| == |raws| > 0 && Spells(Body(fields, raws), fields, raws)
    ensures Parse(Body(fields, raws)) == Parsed(true, fields)
    decreases |fields|
  {
    var part := PartOf(fields[0].0, raws[0]);
    assert Legal(fields[0], raws[0]);
    PartReads(fields[0], raws[0]);
    if |fields| == 1 {
      SplitPlain(part);
      PartThenParts(part, []);
      assert fields == [fields[0]] + [];
    } else {
      var rest := Body(fields[1..], raws[1..]);
      SplitAt(part, rest);
      SpelledParses(fields[1..], raws[1..]);
      PartThenParts(part, Split(rest));
      assert fields == [fields[0]] + fields[1..];
    }
  }

  lemma PartThenParts(part: string, more: seq<string>)
    requires ParsePart(part).Some?
    ensures ParseParts([part] + more) ==
            Parsed(ParseParts(more).ok, [ParsePart(part).value] + ParseParts(more).fields)
  {
  }

  lemma {:induction false} FirstPart(s: string) returns (rest: string)
    ensures '&' !in Split(s)[0]
    ensures |Split(s)| == 1 ==> s == Split(s)[0]
    ensures |Split(s)| > 1 ==> s == Split(s)[0] + "&" + rest && Split(s)[1..] == Split(rest)
    decreases |s|
  {
    rest := "";
    if s != "" {
      var t := s[1..];
      assert s == [s[0]] + t;
      if s[0] == '&' {
        rest := t;
        assert ([""] + Split(t))[1..] == Split(t);
      } else {
        rest := FirstPart(t);
        assert ([[s[0]] + Split(t)[0]] + Split(t)[1..])[1..] == Split(t)[1..];
      }
    }
  }

  lemma {:induction false} ParsedSpells(body: string) returns (raws: seq<string>)
    requires Parse(body).ok
    ensures Spells(body, Parse(body).fields, raws)
    decreases |body|
  {
    var parts, fields := Split(body), Parse(body).fields;
    var rest := FirstPart(body);
    var raw := ReadIsPart(parts[0]);
    PartThenParts(parts[0], parts[1..]);
    assert parts == [parts[0]] + parts[1..];
    if |parts| == 1 {
      assert parts[1..] == [];
      raws := [raw];
    } else {
      var more := ParsedSpells(rest);
      raws := [raw] + more;
      assert raws[1..] == more && fields[1..] == Parse(rest).fields;
      SpellsFirst(body, fields, raws);
    }
  }

  lemma SpellsFirst(body: string, fields: seq<Field>, raws: seq<string>)
    requires |fields| == |raws| > 1 && Legal(fields[0], raws[0])
    requires body == PartOf(fields[0].0, raws[0]) + "&" + Body(fields[1..], raws[1..])
    requires Spells(Body(fields[1..], raws[1..]), fields[1..], raws[1..])
    ensures Spells(body, fields, raws)
  {
  }

  /** A body is accepted, and read as these fields, exactly when it spells them. */
  lemma FormLanguage(body: string, fields: seq<Field>)
    ensures Parse(body) == Parsed(true, fields) <==> exists raws :: Spells(body, fields, raws)
  {
    if Parse(body) == Parsed(true, fields) {
      var raws := ParsedSpells(body);
    }
    if raws :| Spells(body, fields, raws) {
      SpelledParses(fields, raws);
    }
  }

  predicate EncodesField(f: Field, raw: string) {
    LegalName(f.0) && LegalValue(raw) && '\0' !in raw && Encodes(raw, f.1)
  }

  /** Parsing inverts form encoding. */
  lemma {:induction false} FormRoundTrip(fields: seq<Field>, raws: seq<string>)
    requires |fields| == |raws| > 0
    requires forall i :: 0 <= i < |fields| ==> EncodesField(fields[i], raws[i])
    ensures Parse(Body(fields, raws)) == Parsed(true, fields)
  {
    forall i | 0 <= i < |fields| ensures Legal(fields[i], raws[i]) {
      NulFree(raws[i]);
      DecodeInverts(raws[i], fields[i].1);
    }
    SpelledParses(fields, raws);
  }

  // ----- Characters, spelled out -----

  /** The hexadecimal digits, and the value of each. */
  lemma HexDigitIs(c: char, v: nat)
    ensures HexDigit(c) == Some(v) <==>
            v < 16 && (c == ("0123456789abcdef")[v] || c == ("0123456789ABCDEF")[v])
  {
  }

  /** What a percent sign makes of the two characters after it: two digits give their character, one
      digit counts alone before anything else but after a leading zero before an `x`, white space and
      signs count before one digit, and everything else fails. */
  lemma PercentRead(a: char, b: char, rest: string)
    ensures var d, more, va, vb := Decode(['%', a, b] + rest), Decode(rest), HexDigit(a), HexDigit(b);
            if va.Some? && vb.Some? then d == Decoded(more.ok, [(16 * va.value + vb.value) as char] + more.out)
            else if va.Some? && !(a == '0' && (b == 'x' || b == 'X')) then
              d == Decoded(more.ok, [va.value as char] + more.out)
            else if (WhiteSpace(a) || a == '+') && vb.Some? then d == Decoded(more.ok, [vb.value as char] + more.out)
            else if a == '-' && vb.Some? then d == Decoded(more.ok, [((256 - vb.value as int) % 256) as char] + more.out)
            else d == Decoded(false, "")
  {
    NoDigit(a);
    DigitRange(a);
    DigitRange(b);
    PairRead(a, b);
    PercentOpens(a, b, rest);
    hide HexDigit, ReadHex, Decode;
  }

  lemma PairRead(a: char, b: char)
    ensures var r, va, vb := ReadHex(a, b), HexDigit(a), HexDigit(b);
            if va.Some? && vb.Some? then r == Some(16 * va.value + vb.value)
            else if va.Some? && !(a == '0' && (b == 'x' || b == 'X')) then r == Some(va.value)
            else if (WhiteSpace(a) || a == '+') && vb.Some? then r == Some(vb.value)
            else if a == '-' && vb.Some? then r == Some(-(vb.value as int))
            else r == None
  {
    NoDigit(a);
    NoDigit(b);
    hide HexDigit;
  }

  lemma PercentOpens(a: char, b: char, rest: string)
    ensures Decode(['%', a, b] + rest) ==
            if ReadHex(a, b).None? then Decoded(false, "")
            else Decoded(Decode(rest).ok, [Byte(ReadHex(a, b).value)] + Decode(rest).out)
  {
    assert (['%', a, b] + rest)[3..] == rest;
    hide ReadHex, Byte;
  }

  lemma DigitRange(c: char)
    ensures HexDigit(c).Some? ==> HexDigit(c).value < 16
  {
  }

  lemma NoDigit(a: char)
    ensures WhiteSpace(a) || a == '+' || a == '-' || a == 'x' || a == 'X' ==> HexDigit(a).None?
  {
  }

  /** A percent sign that is not followed by two characters fails; the others stand for themselves. */
  lemma OthersRead(c: char, rest: string)
    ensures c != '%' ==>
              Decode([c] + rest) == Decoded(Decode(rest).ok, [if c == '+' then ' ' else c] + Decode(rest).out)
    ensures c == '%' && |rest| < 2 ==> Decode([c] + rest) == Decoded(false, "")
    ensures Decode("") == Decoded(true, "")
  {
    assert ([c] + rest)[1..] == rest;
  }

  /** A field with white space in it is refused. */
  lemma BlankRefused(part: string, c: char)
    requires WhiteSpace(c) && c in UpToNul(part)
    ensures ParsePart(part).None?
  {
  }

  lemma {:induction false} PlainDecodes(value: string)
    requires forall c :: c in value ==> c != '%' && c != '+'
    ensures Decode(value) == Decoded(true, value)
    decreases |value|
  {
    if value != "" {
      assert value[0] in value && value == [value[0]] + value[1..];
      assert forall c :: c in value[1..] ==> c in value;
      PlainDecodes(value[1..]);
      OthersRead(value[0], value[1..]);
    }
  }

  /** A field without any special character is read as it is. */
  lemma PlainFieldRead(name: string, value: string)
    requires name != "" && '=' !in value
    requires forall c :: c in name || c in value ==> !WhiteSpace(c) && c != '&' && c != '\0'
    requires forall c :: c in value ==> c != '%' && c != '+'
    ensures Parse(name + "=" + value) == Parsed(true, [(name, value)])
  {
    var fields: seq<Field> := [(name, value)];
    NulFree(value);
    PlainDecodes(value);
    hide Parse, Decode, UpToNul;
    assert Legal(fields[0], value);
    SpelledParses(fields, [value]);
  }
}
