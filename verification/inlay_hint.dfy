/** The inlay-hint handler of server/src/handlers/inlayHint/on.ts: the
    visible text, the conversion of a character offset into a position,
    and the numbered hints placed at the attributes of each struct
    initialiser. The two regular expressions are not modelled: their
    matches are given as offsets. */
module InlayHints {
  import opened Optional
  import opened Strings
  import Lsp

  /** `split("\n").slice(start, end).join("\n")`: the requested lines.
      Splitting the visible text gives back exactly those lines, when
      there are any; a non-negative end line that is not after the start
      line shows nothing. */
  function VisibleContent(text: string, range: Lsp.Range): (r: string)
    ensures 0 <= range.start.line < range.end.line <= |Split(text, '\n')| ==>
      Split(r, '\n') == Split(text, '\n')[range.start.line..range.end.line]
    ensures 0 <= range.end.line <= range.start.line ==> r == ""
  {
    var lines := Split(text, '\n');
    var vis := Slice(lines, range.start.line, range.end.line);
    if 0 <= range.start.line < range.end.line <= |lines| then
      assert vis == lines[range.start.line..range.end.line];
      assert forall i :: 0 <= i < |vis| ==> vis[i] == lines[range.start.line + i];
      JoinSplit(vis, '\n');
      Join(vis, "\n")
    else
      assert 0 <= range.end.line <= range.start.line ==>
        SliceIndex(range.end.line, |lines|) <= SliceIndex(range.start.line, |lines|);
      Join(vis, "\n")
  }

  /** `getPositionByCharOffset`: the text before the character preceding
      `offset` (`slice(0, offset - 1)`), counted in lines and in the
      length of its last line plus one. That is, the line is the number of
      line breaks before the cut, and the character the distance from the
      last one. */
  function PositionByCharOffset(text: string, offset: int): (p: Lsp.Position)
    ensures var sliced := Slice(text, 0, offset - 1);
            p == Lsp.Position(CountChar(sliced, '\n'), |sliced| - LastIndexOfChar(sliced, '\n'))
  {
    var sliced := Slice(text, 0, offset - 1);
    var lines := Split(sliced, '\n');
    SplitCount(sliced, '\n');
    LastPieceLength(sliced, '\n');
    Lsp.Position(|lines| - 1, |lines[|lines| - 1]| + 1)
  }

  /** On the first line the character is the offset itself. */
  lemma FirstLinePosition(text: string, offset: int)
    requires 1 <= offset <= |text| + 1
    requires '\n' !in text[..offset - 1]
    ensures PositionByCharOffset(text, offset) == Lsp.Position(0, offset)
  {
    var sliced := Slice(text, 0, offset - 1);
    assert sliced == text[..offset - 1];
    assert LastIndexOfChar(sliced, '\n') == -1 by {
      if LastIndexOfChar(sliced, '\n') >= 0 {
        assert false;
      }
    }
  }

  /** One struct initialiser found in the visible text: where it starts,
      and where each attribute matched within it. */
  datatype StructMatch = StructMatch(start: int, attributeOffsets: seq<int>)

  datatype Hint = Hint(
    text: string,
    position: Lsp.Position,
    isParameter: bool,
    paddingRight: bool,
    tooltip: string)

  /** The hints of one initialiser: its attributes numbered from 0. */
  function StructHints(visible: string, s: StructMatch): (r: seq<Hint>)
    ensures |r| == |s.attributeOffsets|
    ensures forall i :: 0 <= i < |r| ==>
      r[i].text == NatToString(i) + ":" && r[i].tooltip == NatToString(i) &&
      r[i].position == PositionByCharOffset(visible, s.start + s.attributeOffsets[i]) &&
      r[i].isParameter && r[i].paddingRight
  {
    seq(|s.attributeOffsets|, i requires 0 <= i < |s.attributeOffsets| =>
      Hint(NatToString(i) + ":", PositionByCharOffset(visible, s.start + s.attributeOffsets[i]), true, true, NatToString(i)))
  }

  /** Within one initialiser no two hints carry the same label. */
  lemma HintLabelsDistinct(visible: string, s: StructMatch, i: nat, j: nat)
    requires i < j < |s.attributeOffsets|
    ensures StructHints(visible, s)[i].text != StructHints(visible, s)[j].text
  {
    var r := StructHints(visible, s);
    if r[i].text == r[j].text {
      var a := NatToString(i);
      var b := NatToString(j);
      assert a == r[i].text[..|r[i].text| - 1];
      assert b == r[j].text[..|r[j].text| - 1];
      NatToStringInjective(i, j);
    }
  }

  function HintCount(structs: seq<StructMatch>): nat
    decreases |structs|
  {
    if |structs| == 0 then 0
    else HintCount(structs[..|structs| - 1]) + |structs[|structs| - 1].attributeOffsets|
  }

  function AllHints(visible: string, structs: seq<StructMatch>): (r: seq<Hint>)
    ensures |r| == HintCount(structs)
    decreases |structs|
  {
    if |structs| == 0 then []
    else AllHints(visible, structs[..|structs| - 1]) + StructHints(visible, structs[|structs| - 1])
  }

  /** Hint `i` of initialiser `k` comes right after the hints of the
      initialisers before it: the hints are grouped by initialiser, in
      order, and numbered afresh within each. */
  lemma {:induction false} AllHintsAt(visible: string, structs: seq<StructMatch>, k: nat, i: nat)
    requires k < |structs| && i < |structs[k].attributeOffsets|
    ensures HintCount(structs[..k]) + i < HintCount(structs)
    ensures AllHints(visible, structs)[HintCount(structs[..k]) + i] == StructHints(visible, structs[k])[i]
    decreases |structs|
  {
    var init := structs[..|structs| - 1];
    if k < |structs| - 1 {
      AllHintsAt(visible, init, k, i);
      assert init[..k] == structs[..k];
      assert init[k] == structs[k];
    } else {
      assert init == structs[..k];
    }
  }

  /** `onInlayHint`: `null` when no attribute was found, otherwise every
      hint of every initialiser in order, positioned within the visible
      text (AllHintsAt says where each one sits). */
  function OnInlayHint(text: string, range: Lsp.Range, structs: seq<StructMatch>): (r: Option<seq<Hint>>)
    ensures r.None? <==> HintCount(structs) == 0
    ensures r.Some? ==> |r.value| == HintCount(structs) > 0
    ensures r.Some? ==> r.value == AllHints(VisibleContent(text, range), structs)
  {
    var hints := AllHints(VisibleContent(text, range), structs);
    if |hints| > 0 then Some(hints) else None
  }

  /** No hints exactly when no initialiser has an attribute. */
  lemma {:induction false} NoHintsIffNoAttributes(structs: seq<StructMatch>)
    ensures HintCount(structs) == 0 <==> forall k :: 0 <= k < |structs| ==> |structs[k].attributeOffsets| == 0
    decreases |structs|
  {
    if |structs| > 0 {
      var init := structs[..|structs| - 1];
      NoHintsIffNoAttributes(init);
      assert forall k :: 0 <= k < |init| ==> init[k] == structs[k];
    }
  }
}
