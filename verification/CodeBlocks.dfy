/** Indented code: how far a block reaches, and what it contains. */
module CodeBlocks {
  import opened TextTools

  /** A line of the document: blank, text that may hold markup, or anything else. */
  datatype Item = Blank | Text(text: string) | Other

  /** A code line without its four spaces. */
  function Code(item: Item): Option<string> {
    if item.Text? && |item.text| >= 4 && item.text[..4] == "    " then Some(item.text[4..]) else None
  }

  /** A code line, with the blank lines before it, and the position after it. */
  datatype Found = NotFound | Found(text: string, next: nat)

  function CodeLine(items: seq<Item>, i: nat): (f: Found)
    requires i < |items|
    ensures f.Found? ==> i < f.next <= |items|
    decreases |items| - i
  {
    if items[i].Blank? then
      if i + 1 == |items| then NotFound
      else
        var f := CodeLine(items, i + 1);
        if f.Found? then Found("\n" + f.text, f.next) else NotFound
    else if Code(items[i]).Some? then Found(Code(items[i]).value, i + 1)
    else NotFound
  }

  /** The iterator stays where it was unless a code line is found. */
  method IsCodeBlockLine(items: seq<Item>, i: nat) returns (contents: Option<string>, i': nat)
    requires i < |items|
    ensures var f := CodeLine(items, i);
            if f.Found? then contents == Some(f.text) && i' == f.next else contents.None? && i' == i
    decreases |items| - i
  {
    contents, i' := None, i;
    if items[i'].Blank? {
      i' := i' + 1;
      if i' != |items| {
        var r, next := IsCodeBlockLine(items, i');
        i' := next;
        if r.Some? {
          return Some("\n" + r.value), i';
        }
      }
      i' := i' - 1;
    } else if items[i'].Text? {
      var line := items[i'].text;
      if |line| >= 4 {
        var si := 0;
        while si != 4 && line[si] == ' '
          invariant si <= 4 && forall k :: 0 <= k < si ==> line[k] == ' '
          decreases 4 - si
        {
          si := si + 1;
        }
        if si == 4 {
          assert line[..4] == "    ";
          i' := i' + 1;
          return Some(line[4..]), i';
        }
        assert line[..4][si] != ' ' && "    "[si] == ' ';
      }
    }
  }

  function MoreLines(items: seq<Item>, i: nat): (f: Found)
    requires i <= |items|
    ensures f.Found? && i <= f.next <= |items|
    decreases |items| - i
  {
    if i == |items| || CodeLine(items, i).NotFound? then Found("", i)
    else
      var f := CodeLine(items, i);
      var rest := MoreLines(items, f.next);
      Found(f.text + "\n" + rest.text, rest.next)
  }

  function Block(items: seq<Item>, i: nat): Found
    requires i < |items|
  {
    if items[i].Blank? || CodeLine(items, i).NotFound? then NotFound else MoreLines(items, i)
  }

  method ParseCodeBlock(items: seq<Item>, i: nat) returns (block: Option<string>, i': nat)
    requires i < |items|
    ensures var f := Block(items, i);
            if f.Found? then block == Some(f.text) && i' == f.next else block.None? && i' == i
  {
    block, i' := None, i;
    if !items[i'].Blank? {
      var contents;
      contents, i' := IsCodeBlockLine(items, i');
      if contents.Some? {
        var out := contents.value + "\n";
        ghost var whole := Block(items, i);
        while i' != |items|
          invariant i' <= |items| && whole.next == MoreLines(items, i').next
          invariant out + MoreLines(items, i').text == whole.text
          decreases |items| - i'
        {
          ghost var before, at := out, i';
          contents, i' := IsCodeBlockLine(items, i');
          if contents.None? {
            break;
          }
          out := out + contents.value + "\n";
          Regroup(before, contents.value + "\n", MoreLines(items, i').text);
          Regroup(before, contents.value, "\n");
        }
        assert out + "" == out;
        block := Some(out);
      }
    }
  }

  // ----- The block is the longest one -----

  predicate CodeOrBlank(items: seq<Item>, i: nat, j: nat)
    requires j <= |items|
  {
    forall k :: i <= k < j ==> items[k].Blank? || Code(items[k]).Some?
  }

  /** From `i` on the lines are code or blank, the last before `j` is code, and no further code
      line follows after blank lines only. */
  predicate Extent(items: seq<Item>, i: nat, j: nat) {
    && i < j <= |items| && CodeOrBlank(items, i, j) && Code(items[j - 1]).Some?
    && forall k :: j <= k < |items| && CodeOrBlank(items, j, k + 1) ==> items[k].Blank?
  }

  function Contents(items: seq<Item>, i: nat, j: nat): string
    requires i <= j <= |items|
    decreases j - i
  {
    if i == j then ""
    else (if Code(items[i]).Some? then Code(items[i]).value else "") + "\n" + Contents(items, i + 1, j)
  }

  lemma {:induction false} ContentsSplit(items: seq<Item>, i: nat, j: nat, k: nat)
    requires i <= j <= k <= |items|
    ensures Contents(items, i, k) == Contents(items, i, j) + Contents(items, j, k)
    decreases j - i
  {
    if i == j {
      assert "" + Contents(items, j, k) == Contents(items, j, k);
    } else {
      ContentsSplit(items, i + 1, j, k);
      var first := (if Code(items[i]).Some? then Code(items[i]).value else "") + "\n";
      Regroup(first, Contents(items, i + 1, j), Contents(items, j, k));
    }
  }

  lemma {:induction false} CodeLineIs(items: seq<Item>, i: nat)
    requires i < |items|
    ensures var f := CodeLine(items, i);
            && (f.Found? ==>
                  && CodeOrBlank(items, i, f.next) && Code(items[f.next - 1]).Some?
                  && f.text + "\n" == Contents(items, i, f.next))
            && (f.NotFound? ==> forall k :: i <= k < |items| && CodeOrBlank(items, i, k + 1) ==> items[k].Blank?)
    decreases |items| - i
  {
    if items[i].Blank? {
      if i + 1 < |items| {
        CodeLineIs(items, i + 1);
        var f := CodeLine(items, i + 1);
        if f.Found? {
          Regroup("\n", f.text, "\n");
          assert "" + "\n" == "\n";
        } else {
          forall k | i <= k < |items| && CodeOrBlank(items, i, k + 1) ensures items[k].Blank? {
            assert k > i ==> CodeOrBlank(items, i + 1, k + 1);
          }
        }
      }
    } else if Code(items[i]).Some? {
      var c := Code(items[i]).value;
      assert Contents(items, i + 1, i + 1) == "";
      assert c + "\n" + "" == c + "\n";
    }
  }

  lemma {:induction false} MoreLinesAre(items: seq<Item>, i: nat, j: nat)
    requires i <= j <= |items| && CodeOrBlank(items, i, j) && i < j && Code(items[j - 1]).Some?
    ensures var f := MoreLines(items, j);
            Extent(items, i, f.next) && f.text == Contents(items, j, f.next)
    decreases |items| - j
  {
    if j < |items| {
      CodeLineIs(items, j);
      var f := CodeLine(items, j);
      if f.Found? {
        MoreLinesAre(items, i, f.next);
        ContentsSplit(items, j, f.next, MoreLines(items, f.next).next);
      }
    }
  }

  lemma ExtentIsUnique(items: seq<Item>, i: nat, j: nat, k: nat)
    requires Extent(items, i, j) && Extent(items, i, k)
    ensures j == k
  {
  }

  /** A block is found exactly at a code line. It takes all of the code that follows, with the
      blank lines inside it and none after it, and holds the lines without their indentation. */
  lemma BlockIs(items: seq<Item>, i: nat, j: nat)
    requires i < |items|
    ensures Block(items, i).Found? <==> Code(items[i]).Some?
    ensures Block(items, i).Found? && Block(items, i).next == j <==> Extent(items, i, j) && Code(items[i]).Some?
    ensures Block(items, i).Found? ==> Block(items, i).text == Contents(items, i, Block(items, i).next)
  {
    if Code(items[i]).Some? {
      var f := CodeLine(items, i);
      MoreLinesAre(items, i, f.next);
      CodeLineIs(items, i);
      ContentsSplit(items, i, f.next, MoreLines(items, f.next).next);
      if Extent(items, i, j) {
        ExtentIsUnique(items, i, j, Block(items, i).next);
      }
    }
  }

  /** A code line is a text with four spaces in front, which are taken off. */
  lemma CodeIs(x: string)
    ensures Code(Text("    " + x)) == Some(x)
  {
    assert ("    " + x)[4..] == x;
  }

  lemma OnlyCode(item: Item)
    requires Code(item).Some?
    ensures item == Text("    " + Code(item).value)
  {
    assert item.text == item.text[..4] + item.text[4..];
  }
}
