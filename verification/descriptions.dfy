/** Flattening of the extractor's description nodes into Markdown text:
    `parseDescription` and `parseDescriptions` of server/src/parser.ts and
    their older copies in scripts/convertDoxygenXml.js. */
module Descriptions {
  import opened Strings
  import opened Symbols
  import opened Doxygen

  /** What `line += para.ref...` appends: the reference in backticks; the
      text of several references is `undefined`. */
  function RefText(refs: seq<string>): string {
    if |refs| == 0 then ""
    else if |refs| == 1 then "`" + refs[0] + "`"
    else "`undefined`"
  }

  /** What `line += para._text` appends: an array of texts is converted
      with `Array.prototype.toString`, which joins with commas. */
  function TextValue(texts: seq<string>): string {
    if |texts| == 0 then ""
    else if |texts| == 1 then texts[0]
    else Join(texts, ",")
  }

  /** The line one paragraph contributes. When the text comes first the
      reference sits between the first two text pieces; otherwise the
      reference comes first and all text follows it. */
  function ParaLine(p: Para): (line: string)
    ensures !p.textFirst ==> StartsWith(line, RefText(p.refs))
    ensures p.textFirst && |p.texts| >= 1 ==> StartsWith(line, p.texts[0] + RefText(p.refs))
    ensures p.textFirst && |p.texts| == 1 ==> line == p.texts[0] + RefText(p.refs)
  {
    if p.textFirst then
      var head := if |p.texts| >= 1 then p.texts[0] else "";
      var tail := if |p.texts| >= 2 then p.texts[1] else "";
      head + RefText(p.refs) + tail
    else
      RefText(p.refs) + TextValue(p.texts)
  }

  function ParaLines(paras: seq<Para>): (lines: seq<string>)
    ensures |lines| == |paras|
    ensures forall i :: 0 <= i < |paras| ==> lines[i] == ParaLine(paras[i])
  {
    seq(|paras|, i requires 0 <= i < |paras| => ParaLine(paras[i]))
  }

  /** `parseDescription` (server): paragraph lines separated by blank
      lines, trimmed; no paragraph gives the empty string. */
  function ParseDescription(d: Description): (r: string)
    ensures Trimmed(r)
    ensures |d.paras| == 0 ==> r == ""
  {
    Trim(Join(ParaLines(d.paras), "\n\n"))
  }

  /** The paragraph lines joined by blank lines: when the first line does
      not start and the last line does not end with whitespace, the trim
      removes nothing and the description is exactly that join. */
  lemma ParseDescriptionJoinsLines(d: Description)
    requires |d.paras| >= 1
    requires var first := ParaLine(d.paras[0]);
             first != "" && !IsSpace(first[0])
    requires var last := ParaLine(d.paras[|d.paras| - 1]);
             last != "" && !IsSpace(last[|last| - 1])
    ensures ParseDescription(d) == Join(ParaLines(d.paras), "\n\n")
  {
    var lines := ParaLines(d.paras);
    var j := Join(lines, "\n\n");
    var first, last := lines[0], lines[|lines| - 1];
    JoinStarts(lines, "\n\n");
    JoinEndsWithLast(lines, "\n\n");
    assert j[0] == j[..|first|][0] == first[0];
    assert j[|j| - 1] == j[|j| - |last|..][|last| - 1] == last[|last| - 1];
    TrimOfTrimmed(j);
  }

  /** Two plain text paragraphs read as the two texts with one blank line
      between them. */
  lemma TwoTextParagraphs(a: string, b: string)
    requires a != "" && !IsSpace(a[0])
    requires b != "" && !IsSpace(b[|b| - 1])
    ensures ParseDescription(Description([Para(true, [a], []), Para(true, [b], [])])) == a + "\n\n" + b
  {
    var d := Description([Para(true, [a], []), Para(true, [b], [])]);
    assert ParaLines(d.paras) == [a, b];
    ParseDescriptionJoinsLines(d);
    assert Join([a, b], "\n\n") == a + "\n\n" + Join([b], "\n\n");
  }

  /** A single paragraph whose only content is text renders as that text,
      trimmed. */
  lemma SingleTextParagraph(t: string)
    ensures ParseDescription(Description([Para(true, [t], [])])) == Trim(t)
  {
    assert ParaLines([Para(true, [t], [])]) == [t];
  }

  /** `parseDescriptions` (server): brief and detailed descriptions joined
      by a blank line, trimmed. Because each half is already trimmed, the
      blank line appears only when both halves are non-empty. */
  function ParseDescriptions(brief: Description, detailed: Description): (r: string)
    ensures var b := ParseDescription(brief);
            var d := ParseDescription(detailed);
            r == if b == "" then d else if d == "" then b else b + "\n\n" + d
  {
    var b := ParseDescription(brief);
    var d := ParseDescription(detailed);
    TrimJoinBlankLine(b, d);
    Trim(b + "\n\n" + d)
  }

  // ---------------------------------------------------------------------
  // The legacy script's copies
  // ---------------------------------------------------------------------

  /** `parseDescription` (legacy script): the same text, but the empty
      ARRAY when there is no paragraph. */
  function ParseDescriptionLegacy(d: Description): (r: DocValue)
    ensures r.Undefined? == false
    ensures r.EmptyArray? <==> |d.paras| == 0
  {
    if |d.paras| == 0 then EmptyArray
    else Text(Trim(Join(ParaLines(d.paras), "\n\n")))
  }

  /** The string a value becomes when concatenated to a string or joined
      into one: an empty array becomes the empty string. */
  function AsText(v: DocValue): string {
    match v
    case Undefined => "undefined"
    case EmptyArray => ""
    case Text(s) => s
  }

  /** Wherever the legacy result is used as a string it reads exactly as
      the server's: the array-versus-string difference is invisible there. */
  lemma LegacyDescriptionReadsAsServer(d: Description)
    ensures AsText(ParseDescriptionLegacy(d)) == ParseDescription(d)
  {
  }

  /** `parseDescriptions` (legacy script), joining the two results as
      strings. */
  function ParseDescriptionsLegacy(brief: Description, detailed: Description): string
  {
    Trim(AsText(ParseDescriptionLegacy(brief)) + "\n\n" + AsText(ParseDescriptionLegacy(detailed)))
  }

  /** Both scripts describe a symbol with the same text. */
  lemma LegacyDescriptionsAgree(brief: Description, detailed: Description)
    ensures ParseDescriptionsLegacy(brief, detailed) == ParseDescriptions(brief, detailed)
  {
    LegacyDescriptionReadsAsServer(brief);
    LegacyDescriptionReadsAsServer(detailed);
  }
}
