/** The document-symbol handler of server/src/handlers/documentSymbol.ts:
    the ranges of a symbol in the open file, which classes belong to the
    file, and the shape of the symbol tree. */
module DocumentSymbols {
  import opened Optional
  import opened Strings
  import opened Sequences
  import opened OrderedMaps
  import opened Symbols
  import opened Paths
  import Lsp

  /** The full range of a symbol and the part to highlight. */
  datatype Ranges = Ranges(range: Lsp.Range, selection: Lsp.Range)

  function Zero(): Lsp.Range {
    Lsp.Range(Lsp.Position(0, 0), Lsp.Position(0, 0))
  }

  /** `getRanges`: a symbol whose body is in this file spans its body and
      selects the body's first line; one declared in this file spans and
      selects its declaration line; any other sits at the origin. */
  function GetRanges(loc: Location, uri: string): (r: Ranges)
    ensures loc.body.Some? && loc.body.value.uri == uri ==> (
      r.range == Lsp.Range(Lsp.Position(loc.body.value.start, 0), Lsp.Position(loc.body.value.end, 0)) &&
      r.selection == Lsp.Range(Lsp.Position(loc.body.value.start, 0), Lsp.Position(loc.body.value.start, 0)))
    ensures !(loc.body.Some? && loc.body.value.uri == uri) && loc.header.uri == uri ==> (
      r.range == r.selection &&
      r.range == Lsp.Range(Lsp.Position(loc.header.line, loc.header.column), Lsp.Position(loc.header.line + 1, 0)))
    ensures !(loc.body.Some? && loc.body.value.uri == uri) && loc.header.uri != uri ==> r == Ranges(Zero(), Zero())
  {
    if loc.body.Some? && loc.body.value.uri == uri then
      var b := loc.body.value;
      Ranges(Lsp.Range(Lsp.Position(b.start, 0), Lsp.Position(b.end, 0)),
             Lsp.Range(Lsp.Position(b.start, 0), Lsp.Position(b.start, 0)))
    else if loc.header.uri == uri then
      var h := loc.header;
      var rg := Lsp.Range(Lsp.Position(h.line, h.column), Lsp.Position(h.line + 1, 0));
      Ranges(rg, rg)
    else Ranges(Zero(), Zero())
  }

  /** The selection lies within the range, as the protocol requires,
      provided a body in this file does not end before it starts. */
  lemma SelectionWithinRange(loc: Location, uri: string)
    requires loc.body.Some? && loc.body.value.uri == uri ==> loc.body.value.start <= loc.body.value.end
    ensures var r := GetRanges(loc, uri);
            Lsp.Contains(r.range, r.selection) && Lsp.NotAfter(r.range.start, r.range.end)
  {
  }

  datatype SymbolKind = ClassSymbol | MethodSymbol | VariableSymbol | EnumSymbol | InterfaceSymbol

  /** A document symbol; only class symbols carry children. */
  datatype DocumentSymbol = DocumentSymbol(
    kind: SymbolKind,
    name: string,
    ranges: Ranges,
    children: Option<seq<DocumentSymbol>>)

  function Leaf(kind: SymbolKind, m: Member, uri: string): DocumentSymbol {
    DocumentSymbol(kind, m.name, GetRanges(m.location, uri), None)
  }

  /** A class symbol: its methods, then its variables, as children. */
  function ClassNode(c: ClassData, uri: string): (s: DocumentSymbol)
    ensures s.kind == ClassSymbol && s.name == c.name && s.ranges == GetRanges(c.location, uri)
    ensures s.children.Some? && |s.children.value| == |c.methods| + |c.variables|
    ensures forall i :: 0 <= i < |c.methods| ==>
      s.children.value[i] == Leaf(MethodSymbol, c.methods[i].member, uri)
    ensures forall i :: 0 <= i < |c.variables| ==>
      s.children.value[|c.methods| + i] == Leaf(VariableSymbol, c.variables[i].member, uri)
  {
    var methods := seq(|c.methods|, i requires 0 <= i < |c.methods| => Leaf(MethodSymbol, c.methods[i].member, uri));
    var variables := seq(|c.variables|, i requires 0 <= i < |c.variables| => Leaf(VariableSymbol, c.variables[i].member, uri));
    DocumentSymbol(ClassSymbol, c.name, GetRanges(c.location, uri), Some(methods + variables))
  }

  /** What one class adds at top level: its enums, its typedefs, then the
      class itself. */
  function ClassSymbols(c: ClassData, uri: string): (r: seq<DocumentSymbol>)
    ensures |r| == |c.enums| + |c.typedefs| + 1
    ensures r[|r| - 1] == ClassNode(c, uri)
    ensures forall i :: 0 <= i < |c.enums| ==> r[i] == Leaf(EnumSymbol, c.enums[i], uri)
    ensures forall i :: 0 <= i < |c.typedefs| ==> r[|c.enums| + i] == Leaf(InterfaceSymbol, c.typedefs[i], uri)
    ensures forall i :: 0 <= i < |r| - 1 ==> r[i].kind != ClassSymbol
  {
    seq(|c.enums|, i requires 0 <= i < |c.enums| => Leaf(EnumSymbol, c.enums[i], uri))
      + seq(|c.typedefs|, i requires 0 <= i < |c.typedefs| => Leaf(InterfaceSymbol, c.typedefs[i], uri))
      + [ClassNode(c, uri)]
  }

  /** How many top-level symbols the classes contribute: each its enums,
      its typedefs and itself. */
  function SymbolCount(classes: seq<ClassData>): nat
    decreases |classes|
  {
    if |classes| == 0 then 0
    else
      var c := classes[|classes| - 1];
      SymbolCount(classes[..|classes| - 1]) + |c.enums| + |c.typedefs| + 1
  }

  /** The top level of the outline: the symbols of each class in turn. */
  function TreeOf(classes: seq<ClassData>, uri: string): (r: seq<DocumentSymbol>)
    ensures |r| == SymbolCount(classes)
    decreases |classes|
  {
    if |classes| == 0 then []
    else TreeOf(classes[..|classes| - 1], uri) + ClassSymbols(classes[|classes| - 1], uri)
  }

  /** Symbol `i` of class `k` comes right after the symbols of the classes
      before it: the outline lists each class's enums, then its typedefs,
      then the class, class by class in order. */
  lemma {:induction false} TreeOfAt(classes: seq<ClassData>, uri: string, k: nat, i: nat)
    requires k < |classes| && i < |classes[k].enums| + |classes[k].typedefs| + 1
    ensures SymbolCount(classes[..k]) + i < SymbolCount(classes)
    ensures TreeOf(classes, uri)[SymbolCount(classes[..k]) + i] == ClassSymbols(classes[k], uri)[i]
    decreases |classes|
  {
    var init := classes[..|classes| - 1];
    if k < |classes| - 1 {
      assert init[..k] == classes[..k];
      TreeOfAt(init, uri, k, i);
      TreeOfKeepsInit(classes, uri, SymbolCount(classes[..k]) + i);
    } else {
      assert init == classes[..k];
      ConcatAt(TreeOf(init, uri), ClassSymbols(classes[k], uri), SymbolCount(init), i);
    }
  }

  /** Appending a class leaves the symbols of the classes before it in place. */
  lemma TreeOfKeepsInit(classes: seq<ClassData>, uri: string, j: nat)
    requires |classes| > 0 && j < SymbolCount(classes[..|classes| - 1])
    ensures j < SymbolCount(classes)
    ensures TreeOf(classes, uri)[j] == TreeOf(classes[..|classes| - 1], uri)[j]
  {
    ConcatHeadAt(TreeOf(classes[..|classes| - 1], uri), ClassSymbols(classes[|classes| - 1], uri), j);
  }

  /** The top-level class symbols, in order. */
  function ClassesIn(symbols: seq<DocumentSymbol>): (r: seq<DocumentSymbol>)
    decreases |symbols|
  {
    if |symbols| == 0 then []
    else
      var last := symbols[|symbols| - 1];
      ClassesIn(symbols[..|symbols| - 1]) + (if last.kind == ClassSymbol then [last] else [])
  }

  lemma {:induction false} ClassesInAppend(a: seq<DocumentSymbol>, b: seq<DocumentSymbol>)
    ensures ClassesIn(a + b) == ClassesIn(a) + ClassesIn(b)
    decreases |b|
  {
    if |b| > 0 {
      var b' := b[..|b| - 1];
      ClassesInAppend(a, b');
      assert (a + b)[..|a + b| - 1] == a + b';
    } else {
      assert a + b == a;
    }
  }

  lemma {:induction false} ClassesInLeaves(r: seq<DocumentSymbol>)
    requires forall i :: 0 <= i < |r| ==> r[i].kind != ClassSymbol
    ensures ClassesIn(r) == []
    decreases |r|
  {
    if |r| > 0 {
      ClassesInLeaves(r[..|r| - 1]);
    }
  }

  /** One class symbol per class, in order. */
  function ClassNodes(classes: seq<ClassData>, uri: string): (r: seq<DocumentSymbol>)
    ensures |r| == |classes|
    ensures forall i :: 0 <= i < |classes| ==> r[i] == ClassNode(classes[i], uri)
    decreases |classes|
  {
    if |classes| == 0 then []
    else
      var init := classes[..|classes| - 1];
      var r := ClassNodes(init, uri) + [ClassNode(classes[|classes| - 1], uri)];
      assert forall i :: 0 <= i < |init| ==> init[i] == classes[i];
      r
  }

  lemma ClassSymbolsHoldOneClass(c: ClassData, uri: string)
    ensures ClassesIn(ClassSymbols(c, uri)) == [ClassNode(c, uri)]
  {
    var cs := ClassSymbols(c, uri);
    var leaves := cs[..|cs| - 1];
    ClassesInLeaves(leaves);
    ClassesInAppend(leaves, [cs[|cs| - 1]]);
    assert leaves + [cs[|cs| - 1]] == cs;
    assert [cs[|cs| - 1]][..0] == [];
  }

  /** The tree holds one class symbol per class, in the classes' order. */
  lemma {:induction false} OneClassSymbolEach(classes: seq<ClassData>, uri: string)
    ensures ClassesIn(TreeOf(classes, uri)) == ClassNodes(classes, uri)
    decreases |classes|
  {
    if |classes| > 0 {
      var init := classes[..|classes| - 1];
      var c := classes[|classes| - 1];
      OneClassSymbolEach(init, uri);
      ClassesInAppend(TreeOf(init, uri), ClassSymbols(c, uri));
      ClassSymbolsHoldOneClass(c, uri);
    }
  }

  /** The classes declared in the header that goes with the file: the
      file's path with its last two characters replaced by `.h`, relative
      to the engine-core path. */
  function SelectClasses(classes: seq<ClassData>, headerPath: string): (r: seq<ClassData>)
    ensures forall c :: c in r <==> c in classes && c.location.header.uri == headerPath
    decreases |classes|
  {
    if |classes| == 0 then []
    else
      var init := classes[..|classes| - 1];
      var c := classes[|classes| - 1];
      assert forall x :: x in classes <==> x in init || x == c;
      SelectClasses(init, headerPath) + (if c.location.header.uri == headerPath then [c] else [])
  }

  lemma {:induction false} SelectKeepsOrder(classes: seq<ClassData>, headerPath: string)
    ensures SubsequenceOf(SelectClasses(classes, headerPath), classes)
    decreases |classes|
  {
    if |classes| > 0 {
      var init := classes[..|classes| - 1];
      var c := classes[|classes| - 1];
      var kept := SelectClasses(init, headerPath);
      SelectKeepsOrder(init, headerPath);
      assert init + [c] == classes;
      if c.location.header.uri == headerPath {
        SubsequenceAppendBoth(kept, init, c);
      } else {
        assert SelectClasses(classes, headerPath) == kept + [] == kept;
        SubsequenceExtend(kept, init, c);
      }
    }
  }

  /** The header that goes with a source file: the last two characters
      (`.c`) replaced by `.h`; a path shorter than that becomes just `.h`. */
  function HeaderOf(filePath: string): (r: string)
    ensures |filePath| >= 2 ==> r == filePath[..|filePath| - 2] + ".h"
    ensures |filePath| < 2 ==> r == ".h"
  {
    Slice(filePath, 0, -2) + ".h"
  }

  lemma HeaderOfSource(stem: string)
    ensures HeaderOf(stem + ".c") == stem + ".h"
  {
    assert Slice(stem + ".c", 0, -2) == (stem + ".c")[..|stem|] == stem;
  }

  /** `onDocumentSymbol`. The result is always a list: `filter` returns an
      array, which is never falsy, so the `null` branch is never taken. */
  function OnDocumentSymbol(paths: PathOps, uri: string, engineCorePath: Option<string>, classes: ClassMap): (r: seq<DocumentSymbol>)
    ensures var base := engineCorePath.GetOr("");
            var filePath := ReplaceFirst(uri, "file://", "");
            var selected := SelectClasses(Values(classes), paths.relative(base, HeaderOf(filePath)));
            ClassesIn(r) == ClassNodes(selected, paths.relative(base, filePath)) &&
            r == TreeOf(selected, paths.relative(base, filePath))
  {
    var base := engineCorePath.GetOr("");
    var filePath := ReplaceFirst(uri, "file://", "");
    var relativeFile := paths.relative(base, filePath);
    var selected := SelectClasses(Values(classes), paths.relative(base, HeaderOf(filePath)));
    OneClassSymbolEach(selected, relativeFile);
    TreeOf(selected, relativeFile)
  }
}
