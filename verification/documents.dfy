/** How the handlers read the text around the cursor: the document split
    at `\n`, the cursor line cut at the cursor's character. */
module Documents {
  import opened Optional
  import opened Strings

  /** `text.split("\n")[line]`: undefined past the last line. */
  function LineAt(text: string, line: int): (r: Option<string>)
    ensures r.Some? <==> 0 <= line <= CountChar(text, '\n')
    ensures r.Some? ==> '\n' !in r.value
  {
    SplitCount(text, '\n');
    At(Split(text, '\n'), line)
  }

  /** `currentLine.slice(0, character)`. */
  function UntilCursor(line: string, character: int): (r: string)
    ensures 0 <= character <= |line| ==> r == line[..character]
    ensures character > |line| ==> r == line
  {
    Slice(line, 0, character)
  }

  /** `currentLine.slice(character)`. */
  function AfterCursor(line: string, character: int): (r: string)
    ensures 0 <= character <= |line| ==> r == line[character..]
    ensures character > |line| ==> r == []
  {
    Slice(line, character, |line|)
  }

  /** The two halves around the cursor make up the line, wherever the
      cursor is (a negative character counts from the end, as `slice`
      reads it). */
  lemma CursorSplitsLine(line: string, character: int)
    ensures UntilCursor(line, character) + AfterCursor(line, character) == line
  {
    var k := SliceIndex(character, |line|);
    assert UntilCursor(line, character) == line[..k];
    assert AfterCursor(line, character) == line[k..];
    assert line[..k] + line[k..] == line;
  }
}
