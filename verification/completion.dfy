/** The completion handler of server/src/handlers/completion.ts: the word
    before the cursor, the list of items offered for the indexed classes,
    the range every item replaces, the `::` filter, and the doc-comment
    snippet built from the line below the cursor. */
module Completion {
  import opened Optional
  import opened Strings
  import opened Sequences
  import opened Symbols
  import opened Paths
  import opened Documents
  import opened OrderedMaps
  import Lsp

  // ---------------------------------------------------------------------
  // The word being completed
  // ---------------------------------------------------------------------

  /** The characters `/[\s,(]+/` splits on. */
  predicate WordStop(c: char) {
    IsSpace(c) || c == ',' || c == '('
  }

  /** `lineUntilCursor.split(/[\s,(]+/).pop()`: the longest suffix of the
      text before the cursor holding no whitespace, comma or parenthesis. */
  function CurrentWord(until: string): (w: string)
    ensures |w| <= |until| && w == until[|until| - |w|..]
    ensures forall i :: 0 <= i < |w| ==> !WordStop(w[i])
    ensures |w| < |until| ==> WordStop(until[|until| - |w| - 1])
  {
    TrailingRun(until, WordStop)
  }

  /** The range every item replaces: from the start of the current word to
      the cursor, on the cursor line. */
  function WordRange(line: int, until: string, word: string): (r: Lsp.Range)
  {
    var start := Lsp.Position(line, |until| - |word|);
    Lsp.Range(start, start.(character := start.character + |word|))
  }

  /** The replaced range covers exactly the current word and ends at the
      cursor. */
  lemma ReplaceRangeIsWord(line: int, until: string)
    ensures var w := CurrentWord(until);
            var r := WordRange(line, until, w);
            r.start.line == line && r.end.line == line &&
            0 <= r.start.character <= r.end.character == |until| &&
            until[r.start.character..r.end.character] == w
  {
    var w := CurrentWord(until);
    assert until[|until| - |w|..|until|] == until[|until| - |w|..] == w;
  }

  // ---------------------------------------------------------------------
  // Items
  // ---------------------------------------------------------------------

  datatype ItemKind = SnippetKind | ClassKind | MethodKind | InterfaceKind | EnumKind

  /** A completion item; `description` is the label detail (the
      contributor), `documentation` is Markdown. */
  datatype Item = Item(
    labelText: string,
    description: string,
    kind: ItemKind,
    detail: Option<string>,
    documentation: Option<string>,
    insertText: Option<string>)

  function SnippetItem(snippet: string): Item {
    Item("/// doc", "Doc comment block", SnippetKind, None, None, Some(snippet))
  }

  function ClassItem(contributor: string, c: ClassData): Item {
    Item(c.name, contributor, ClassKind, Some("(class) " + c.name), Some(c.description), None)
  }

  /** A method is offered under its qualified name; the detail shows its
      signature and the documentation its description followed by its
      parameter block. */
  function MethodItem(contributor: string, m: Method): Item {
    Item(m.member.qualifiedName, contributor, MethodKind,
      Some("(method) " + m.definition + m.argsString),
      Some(m.member.description + m.paramDocs), None)
  }

  function TypedefItem(contributor: string, t: Member): Item {
    Item(t.name, contributor, InterfaceKind, Some("(typedef) " + t.name), Some(t.description), None)
  }

  function EnumItem(contributor: string, e: Member): Item {
    Item(e.name, contributor, EnumKind, Some("(enum) " + e.name), Some(e.description), None)
  }

  function ClassItemCount(c: ClassData): nat {
    1 + |c.methods| + |c.typedefs| + |c.enums|
  }

  /** The items one class contributes: the class, then its methods, then
      its typedefs, then its enums; its variables are not offered. */
  function ClassItems(contributor: string, c: ClassData): (r: seq<Item>)
    ensures |r| == ClassItemCount(c)
    ensures r[0] == ClassItem(contributor, c)
    ensures forall i :: 0 <= i < |c.methods| ==> r[1 + i] == MethodItem(contributor, c.methods[i])
    ensures forall i :: 0 <= i < |c.typedefs| ==>
      r[1 + |c.methods| + i] == TypedefItem(contributor, c.typedefs[i])
    ensures forall i :: 0 <= i < |c.enums| ==>
      r[1 + |c.methods| + |c.typedefs| + i] == EnumItem(contributor, c.enums[i])
    ensures forall i :: 1 <= i < |r| ==> r[i].kind != ClassKind && r[i].kind != SnippetKind
  {
    [ClassItem(contributor, c)]
      + seq(|c.methods|, i requires 0 <= i < |c.methods| => MethodItem(contributor, c.methods[i]))
      + seq(|c.typedefs|, i requires 0 <= i < |c.typedefs| => TypedefItem(contributor, c.typedefs[i]))
      + seq(|c.enums|, i requires 0 <= i < |c.enums| => EnumItem(contributor, c.enums[i]))
  }

  function ClassesCount(classes: seq<ClassData>): nat
    decreases |classes|
  {
    if |classes| == 0 then 0
    else ClassesCount(classes[..|classes| - 1]) + ClassItemCount(classes[|classes| - 1])
  }

  function ClassesItems(contributor: string, classes: seq<ClassData>): (r: seq<Item>)
    ensures |r| == ClassesCount(classes)
    ensures forall it :: it in r ==> it.kind != SnippetKind
    decreases |classes|
  {
    if |classes| == 0 then []
    else ClassesItems(contributor, classes[..|classes| - 1]) + ClassItems(contributor, classes[|classes| - 1])
  }

  /** What each workspace root offers: its key and the classes it is
      iterated for. */
  type RootClasses = seq<(string, seq<ClassData>)>

  /** Each root of the index with its classes, in index order: the server
      keeps a root's classes under `classes`, and those are what the
      handler offers. */
  function RootsOf(index: Index): (r: RootClasses)
    ensures |r| == |index|
    ensures forall k :: 0 <= k < |index| ==> r[k] == (index[k].0, Values(index[k].1.classes))
  {
    seq(|index|, k requires 0 <= k < |index| => (index[k].0, Values(index[k].1.classes)))
  }

  function RootsCount(roots: RootClasses): nat
    decreases |roots|
  {
    if |roots| == 0 then 0
    else RootsCount(roots[..|roots| - 1]) + ClassesCount(roots[|roots| - 1].1)
  }

  /** Per root, in order, the items of its classes, each labelled with the
      root's basename as contributor. */
  function IndexItems(paths: PathOps, roots: RootClasses): (r: seq<Item>)
    ensures |r| == RootsCount(roots)
    ensures forall it :: it in r ==> it.kind != SnippetKind
    decreases |roots|
  {
    if |roots| == 0 then []
    else
      var (key, classes) := roots[|roots| - 1];
      IndexItems(paths, roots[..|roots| - 1]) + ClassesItems(paths.basename(key), classes)
  }

  /** Item `i` of class `k` comes right after the items of the classes
      before it: the items are grouped by class, in class order. */
  lemma {:induction false} ClassesItemsAt(contributor: string, classes: seq<ClassData>, k: nat, i: nat)
    requires k < |classes| && i < ClassItemCount(classes[k])
    ensures ClassesCount(classes[..k]) + i < ClassesCount(classes)
    ensures ClassesItems(contributor, classes)[ClassesCount(classes[..k]) + i] == ClassItems(contributor, classes[k])[i]
    decreases |classes|
  {
    var init := classes[..|classes| - 1];
    var front := ClassesItems(contributor, init);
    var tail := ClassItems(contributor, classes[|classes| - 1]);
    assert ClassesItems(contributor, classes) == front + tail;
    if k < |classes| - 1 {
      assert init[..k] == classes[..k];
      assert init[k] == classes[k];
      ClassesItemsAt(contributor, init, k, i);
    } else {
      assert init == classes[..k];
      ConcatAt(front, tail, ClassesCount(init), i);
    }
  }

  /** Item `i` of root `k` comes right after the items of the roots before
      it, labelled with that root's basename: the items are grouped by
      root, in root order. */
  lemma {:induction false} IndexItemsAt(paths: PathOps, roots: RootClasses, k: nat, i: nat)
    requires k < |roots| && i < ClassesCount(roots[k].1)
    ensures RootsCount(roots[..k]) + i < RootsCount(roots)
    ensures IndexItems(paths, roots)[RootsCount(roots[..k]) + i]
         == ClassesItems(paths.basename(roots[k].0), roots[k].1)[i]
    decreases |roots|
  {
    var init := roots[..|roots| - 1];
    var front := IndexItems(paths, init);
    var tail := ClassesItems(paths.basename(roots[|roots| - 1].0), roots[|roots| - 1].1);
    assert IndexItems(paths, roots) == front + tail;
    if k < |roots| - 1 {
      assert init[..k] == roots[..k];
      assert init[k] == roots[k];
      IndexItemsAt(paths, init, k, i);
    } else {
      assert init == roots[..k];
      ConcatAt(front, tail, RootsCount(init), i);
    }
  }

  /** Item `i` of class `j` of root `k` (the class, its methods, its
      typedefs, its enums, as ClassItems lays them out) sits after the
      items of the earlier roots and of the earlier classes of its root,
      labelled with the root's basename. */
  lemma IndexItemOfClass(paths: PathOps, roots: RootClasses, k: nat, j: nat, i: nat)
    requires k < |roots| && j < |roots[k].1| && i < ClassItemCount(roots[k].1[j])
    ensures var at := RootsCount(roots[..k]) + ClassesCount(roots[k].1[..j]) + i;
            && at < |IndexItems(paths, roots)|
            && IndexItems(paths, roots)[at] == ClassItems(paths.basename(roots[k].0), roots[k].1[j])[i]
  {
    var who := paths.basename(roots[k].0);
    var classes := roots[k].1;
    var inRoot := ClassesCount(classes[..j]) + i;
    ClassesItemsAt(who, classes, j, i);
    assert inRoot < ClassesCount(classes);
    var fromRoot := ClassesItems(who, classes);
    assert fromRoot[inRoot] == ClassItems(who, classes[j])[i];
    IndexItemsAt(paths, roots, k, inRoot);
    assert IndexItems(paths, roots)[RootsCount(roots[..k]) + inRoot] == fromRoot[inRoot];
  }

  /** The snippet comes first and exactly once, followed by one item per
      class, method, typedef and enum of every root. */
  lemma {:induction false} ItemsOfClass(paths: PathOps, roots: RootClasses, i: nat, j: nat)
    requires i < |roots| && j < |roots[i].1|
    ensures var c := roots[i].1[j];
            ClassItem(paths.basename(roots[i].0), c) in IndexItems(paths, roots)
    ensures forall k :: 0 <= k < |roots[i].1[j].methods| ==>
      MethodItem(paths.basename(roots[i].0), roots[i].1[j].methods[k]) in IndexItems(paths, roots)
    decreases |roots|
  {
    var init := roots[..|roots| - 1];
    if i < |roots| - 1 {
      assert init[i] == roots[i];
      ItemsOfClass(paths, init, i, j);
    } else {
      ClassInClasses(paths.basename(roots[i].0), roots[i].1, j);
    }
  }

  lemma {:induction false} ClassInClasses(contributor: string, classes: seq<ClassData>, j: nat)
    requires j < |classes|
    ensures ClassItem(contributor, classes[j]) in ClassesItems(contributor, classes)
    ensures forall k :: 0 <= k < |classes[j].methods| ==>
      MethodItem(contributor, classes[j].methods[k]) in ClassesItems(contributor, classes)
    decreases |classes|
  {
    var init := classes[..|classes| - 1];
    if j < |classes| - 1 {
      assert init[j] == classes[j];
      ClassInClasses(contributor, init, j);
    } else {
      var items := ClassItems(contributor, classes[j]);
      assert items[0] in items;
      forall k | 0 <= k < |classes[j].methods|
        ensures MethodItem(contributor, classes[j].methods[k]) in ClassesItems(contributor, classes)
      {
        assert items[1 + k] in items;
      }
    }
  }

  // ---------------------------------------------------------------------
  // Prepared items and filtering
  // ---------------------------------------------------------------------

  datatype Edit = Edit(newText: string, insert: Lsp.Range, replace: Lsp.Range)
  datatype Prepared = Prepared(item: Item, edit: Edit)

  /** Every item replaces the current word with its insert text, or its
      label when it has none. */
  function Prepare(items: seq<Item>, range: Lsp.Range): (r: seq<Prepared>)
    ensures |r| == |items|
    ensures forall i :: 0 <= i < |items| ==> r[i].item == items[i]
    ensures forall i :: 0 <= i < |items| ==>
      r[i].edit == Edit(items[i].insertText.GetOr(items[i].labelText), range, range)
  {
    seq(|items|, i requires 0 <= i < |items| =>
      Prepared(items[i], Edit(items[i].insertText.GetOr(items[i].labelText), range, range)))
  }

  /** An item survives the filter of a qualified word when its label
      starts with the word, ignoring ASCII case. */
  predicate LabelMatches(itemLabel: string, word: string) {
    StartsWith(ToLower(itemLabel), ToLower(word))
  }

  function KeepMatching(items: seq<Prepared>, word: string): (r: seq<Prepared>)
    ensures forall p :: p in r <==> p in items && LabelMatches(p.item.labelText, word)
    decreases |items|
  {
    if |items| == 0 then []
    else
      var init := items[..|items| - 1];
      var last := items[|items| - 1];
      assert forall p :: p in items <==> p in init || p == last;
      KeepMatching(init, word) + (if LabelMatches(last.item.labelText, word) then [last] else [])
  }

  lemma {:induction false} KeepMatchingKeepsOrder(items: seq<Prepared>, word: string)
    ensures SubsequenceOf(KeepMatching(items, word), items)
    decreases |items|
  {
    if |items| > 0 {
      var init := items[..|items| - 1];
      var last := items[|items| - 1];
      KeepMatchingKeepsOrder(init, word);
      assert init + [last] == items;
      if LabelMatches(last.item.labelText, word) {
        SubsequenceAppendBoth(KeepMatching(init, word), init, last);
      } else {
        var kept := KeepMatching(init, word);
        assert KeepMatching(items, word) == kept + [] == kept;
        SubsequenceExtend(kept, init, last);
        assert SubsequenceOf(kept, items);
      }
    }
  }

  /** A word naming a class member (`Class::`) narrows the list; any
      other word leaves it whole. */
  function Filter(items: seq<Prepared>, word: string): (r: seq<Prepared>)
    ensures !Contains(word, "::") ==> r == items
    ensures Contains(word, "::") ==>
      forall p :: p in r <==> p in items && LabelMatches(p.item.labelText, word)
  {
    if Contains(word, "::") then KeepMatching(items, word) else items
  }

  lemma FilterKeepsOrder(items: seq<Prepared>, word: string)
    ensures SubsequenceOf(Filter(items, word), items)
  {
    if Contains(word, "::") {
      KeepMatchingKeepsOrder(items, word);
    } else {
      SubsequenceOfSelf(items);
    }
  }

  lemma {:induction false} SubsequenceOfSelf<T>(s: seq<T>)
    ensures SubsequenceOf(s, s)
    decreases |s|
  {
    if |s| > 0 {
      SubsequenceOfSelf(s[..|s| - 1]);
    }
  }

  // ---------------------------------------------------------------------
  // The doc-comment snippet
  // ---------------------------------------------------------------------

  /** The two regular expressions matched against the line below the
      cursor, given as their first match's two groups: a class declaration
      (class name, base name) and a method declaration (return type,
      parameter text). */
  datatype Matchers = Matchers(
    classDecl: string -> Option<(string, string)>,
    methodDecl: string -> Option<(string, string)>)

  /** `${n:text}`, a numbered tab stop of a snippet. */
  function Placeholder(n: nat, text: string): string {
    "${" + NatToString(n) + ":" + text + "}"
  }

  /** `p.split(" ").pop()?.trim()`: the text after the last space of a
      parameter, trimmed. */
  function ParamName(p: string): (name: string)
    ensures name == Trim(p[LastIndexOfChar(p, ' ') + 1..])
  {
    var tokens := Split(p, ' ');
    LastPieceAfterLastSeparator(p, ' ');
    Trim(tokens[|tokens| - 1])
  }

  /** The parameter names of a declaration's parameter text; empty text
      has none. */
  function ParamNames(paramText: string): (r: seq<string>)
    ensures paramText == "" ==> r == []
    ensures paramText != "" ==> |r| == CountChar(paramText, ',') + 1 == |Split(paramText, ',')|
    ensures paramText != "" ==>
      forall i :: 0 <= i < |r| ==> r[i] == ParamName(Trim(Split(paramText, ',')[i]))
  {
    if paramText == "" then []
    else
      var pieces := TrimAll(Split(paramText, ','));
      SplitCount(paramText, ',');
      seq(|pieces|, i requires 0 <= i < |pieces| => ParamName(pieces[i]))
  }

  function ParamLine(name: string, n: nat): string {
    "/// @param " + name + ": " + Placeholder(n, "Parameter documentation")
  }

  function ReturnLine(n: nat): string {
    "/// @return " + Placeholder(n, "Return value documentation")
  }

  function ClassSnippet(className: string, baseName: string): (lines: seq<string>)
  {
    ["///", "/// Class " + className, "///", "/// Inherits from " + baseName, "///",
     "/// " + Placeholder(1, "Class documentation") + "."]
  }

  function ParamLines(names: seq<string>): (lines: seq<string>)
    ensures |lines| == |names|
    ensures forall i :: 0 <= i < |names| ==> lines[i] == ParamLine(names[i], i + 2)
  {
    seq(|names|, i requires 0 <= i < |names| => ParamLine(names[i], i + 2))
  }

  /** A method template: the description stop, then one `@param` line per
      parameter with stops 2, 3, …, then `@return` with the next stop
      unless the method returns `void`. */
  function MethodSnippet(returnType: string, paramText: string): (lines: seq<string>)
    ensures var names := ParamNames(paramText);
            |lines| == 1 + |names| + (if returnType == "void" then 0 else 1) &&
            lines[0] == "/// " + Placeholder(1, "Method documentation") + "." &&
            lines[1..1 + |names|] == ParamLines(names) &&
            (returnType != "void" ==> lines[1 + |names|] == ReturnLine(|names| + 2))
  {
    var names := ParamNames(paramText);
    var head := ["/// " + Placeholder(1, "Method documentation") + "."];
    var params := ParamLines(names);
    var ret := if returnType != "void" then [ReturnLine(|names| + 2)] else [];
    assert (head + params + ret)[1..1 + |names|] == params;
    head + params + ret
  }

  function FallbackSnippet(uriBasename: string): (lines: seq<string>)
  {
    ["/// " + Placeholder(1, "Method documentation") + ".",
     "/// @fn: " + Placeholder(2, "Function signature"),
     "/// @memberof: " + uriBasename,
     "/// @param " + Placeholder(3, "paramName") + ": " + Placeholder(4, "Parameter documentation"),
     "/// @return " + Placeholder(5, "Return value documentation")]
  }

  /** The snippet's lines: a class declaration wins over a method
      declaration; neither gives the fixed template. */
  function SnippetLines(uriBasename: string, nextLine: string, m: Matchers): (lines: seq<string>)
    ensures m.classDecl(nextLine).Some? ==>
      lines == ClassSnippet(m.classDecl(nextLine).value.0, m.classDecl(nextLine).value.1)
    ensures m.classDecl(nextLine).None? && m.methodDecl(nextLine).Some? ==>
      lines == MethodSnippet(m.methodDecl(nextLine).value.0, m.methodDecl(nextLine).value.1)
    ensures m.classDecl(nextLine).None? && m.methodDecl(nextLine).None? ==>
      lines == FallbackSnippet(uriBasename)
    ensures |lines| >= 1
  {
    match m.classDecl(nextLine)
    case Some((className, baseName)) => ClassSnippet(className, baseName)
    case None =>
      match m.methodDecl(nextLine)
      case Some((returnType, paramText)) => MethodSnippet(returnType, paramText)
      case None => FallbackSnippet(uriBasename)
  }

  function Snippet(uriBasename: string, nextLine: string, m: Matchers): string {
    Join(SnippetLines(uriBasename, nextLine, m), "\n")
  }

  /** The tab stops of a method snippet are distinct: each parameter line
      and the return line carry a stop no other line carries. */
  lemma MethodStopsDistinct(names: seq<string>, i: nat, j: nat)
    requires i < j
    ensures Placeholder(i + 2, "Parameter documentation") != Placeholder(j + 2, "Parameter documentation")
    ensures Placeholder(i + 2, "Parameter documentation") != Placeholder(j + 2, "Return value documentation")
  {
    var a := NatToString(i + 2);
    var b := NatToString(j + 2);
    if Placeholder(i + 2, "Parameter documentation") == Placeholder(j + 2, "Parameter documentation")
      || Placeholder(i + 2, "Parameter documentation") == Placeholder(j + 2, "Return value documentation") {
      StopNumberDetermined(a, b, "Parameter documentation", if Placeholder(i + 2, "Parameter documentation") == Placeholder(j + 2, "Parameter documentation") then "Parameter documentation" else "Return value documentation");
      NatToStringInjective(i + 2, j + 2);
    }
  }

  /** The digits of a tab stop are read up to the first colon. */
  lemma StopNumberDetermined(a: string, b: string, x: string, y: string)
    requires forall k :: 0 <= k < |a| ==> IsDigit(a[k])
    requires forall k :: 0 <= k < |b| ==> IsDigit(b[k])
    requires "${" + a + ":" + x + "}" == "${" + b + ":" + y + "}"
    ensures a == b
  {
    var s := "${" + a + ":" + x + "}";
    var t := "${" + b + ":" + y + "}";
    assert s[2 + |a|] == ':';
    assert t[2 + |b|] == ':';
    if |a| < |b| {
      assert false;
    } else if |b| < |a| {
      assert false;
    } else {
      assert forall k :: 0 <= k < |a| ==> a[k] == s[2 + k] == t[2 + k] == b[k];
    }
  }

  // ---------------------------------------------------------------------
  // The handler
  // ---------------------------------------------------------------------

  datatype CompletionList = CompletionList(isIncomplete: bool, items: seq<Prepared>)

  /** The list the handler answers with once the items are collected: the
      snippet for the line below, then `items`, each prepared over the word
      before the cursor and filtered by it. */
  function CompletionFor(uriBasename: string, text: string, pos: Lsp.Position, line: string, items: seq<Item>, m: Matchers): (r: CompletionList)
    ensures r.isIncomplete
    ensures var until := UntilCursor(line, pos.character);
            var word := CurrentWord(until);
            r.items == Filter(Prepare([SnippetItem(Snippet(uriBasename, LineAt(text, pos.line + 1).GetOr(""), m))] + items,
              WordRange(pos.line, until, word)), word)
  {
    var until := UntilCursor(line, pos.character);
    var word := CurrentWord(until);
    var snippet := SnippetItem(Snippet(uriBasename, LineAt(text, pos.line + 1).GetOr(""), m));
    CompletionList(true, Filter(Prepare([snippet] + items, WordRange(pos.line, until, word)), word))
  }

  /** `onCompletion`. The cursor line must exist (slicing an undefined line
      throws); the line below may be missing and reads as empty. */
  function OnCompletion(
    paths: PathOps, uriBasename: string, text: string, pos: Lsp.Position,
    index: Index, m: Matchers): (r: Result<CompletionList, string>)
    ensures r.Ok? <==> LineAt(text, pos.line).Some?
    ensures r.Ok? ==> r.value.isIncomplete
    ensures r.Ok? ==>
      var until := UntilCursor(LineAt(text, pos.line).value, pos.character);
      var word := CurrentWord(until);
      var all := Prepare([SnippetItem(Snippet(uriBasename, LineAt(text, pos.line + 1).GetOr(""), m))]
        + IndexItems(paths, RootsOf(index)), WordRange(pos.line, until, word));
      r.value.items == Filter(all, word)
  {
    match LineAt(text, pos.line)
    case None => Err("cursor line is undefined")
    case Some(line) =>
      var nextLine := LineAt(text, pos.line + 1).GetOr("");
      var until := UntilCursor(line, pos.character);
      var word := CurrentWord(until);
      var items := [SnippetItem(Snippet(uriBasename, nextLine, m))] + IndexItems(paths, RootsOf(index));
      Ok(CompletionList(true, Filter(Prepare(items, WordRange(pos.line, until, word)), word)))
  }

  /** `onCompletion` as the code walks the index: it takes the values of a
      root's entry (the `classes` map and the `structs` map) as if they were
      classes, so reading `c.methods.forEach` on the first of them throws.
      Only an empty index gets past the walk. */
  function OnCompletionAsWritten(
    paths: PathOps, uriBasename: string, text: string, pos: Lsp.Position,
    index: Index, m: Matchers): (r: Result<CompletionList, string>)
    ensures r.Ok? <==> LineAt(text, pos.line).Some? && |index| == 0
    ensures r.Ok? ==> r.value.isIncomplete
    ensures r.Ok? ==>
      var until := UntilCursor(LineAt(text, pos.line).value, pos.character);
      var word := CurrentWord(until);
      var all := Prepare([SnippetItem(Snippet(uriBasename, LineAt(text, pos.line + 1).GetOr(""), m))],
        WordRange(pos.line, until, word));
      r.value.items == Filter(all, word)
  {
    match LineAt(text, pos.line)
    case None => Err("cursor line is undefined")
    case Some(line) =>
      if |index| > 0 then Err("TypeError: c.methods is undefined")
      else
        var r := CompletionFor(uriBasename, text, pos, line, [], m);
        assert [SnippetItem(Snippet(uriBasename, LineAt(text, pos.line + 1).GetOr(""), m))] + []
            == [SnippetItem(Snippet(uriBasename, LineAt(text, pos.line + 1).GetOr(""), m))];
        Ok(r)
  }

  /** The walk as written fails for every indexed root where the corrected
      walk lists the root's classes; on an empty index the two agree. */
  lemma CompletionWalkDiffers(
    paths: PathOps, uriBasename: string, text: string, pos: Lsp.Position,
    index: Index, m: Matchers)
    requires LineAt(text, pos.line).Some?
    ensures |index| > 0 ==>
      OnCompletionAsWritten(paths, uriBasename, text, pos, index, m).Err? &&
      OnCompletion(paths, uriBasename, text, pos, index, m).Ok?
    ensures |index| == 0 ==>
      OnCompletionAsWritten(paths, uriBasename, text, pos, index, m)
        == OnCompletion(paths, uriBasename, text, pos, index, m)
  {
    if |index| == 0 {
      assert IndexItems(paths, RootsOf(index)) == [];
    }
  }

  /** For an unqualified word the handler's list is every item: the
      snippet first and only there, then the indexed items (which are never
      snippets), each replacing the same range. */
  lemma UnqualifiedOffersAll(snippet: string, idx: seq<Item>, range: Lsp.Range, word: string)
    requires forall it :: it in idx ==> it.kind != SnippetKind
    requires !Contains(word, "::")
    ensures var r := Filter(Prepare([SnippetItem(snippet)] + idx, range), word);
            |r| == 1 + |idx| &&
            r[0].item.labelText == "/// doc" && r[0].item.kind == SnippetKind &&
            (forall i :: 1 <= i < |r| ==> r[i].item == idx[i - 1] && r[i].item.kind != SnippetKind) &&
            forall i :: 0 <= i < |r| ==> r[i].edit.replace == range
  {
    var items := [SnippetItem(snippet)] + idx;
    var r := Prepare(items, range);
    forall i | 1 <= i < |r|
      ensures r[i].item == idx[i - 1] && r[i].item.kind != SnippetKind
    {
      assert r[i].item == items[i] == idx[i - 1];
      assert idx[i - 1] in idx;
    }
  }
}
