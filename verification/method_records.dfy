/** How the builder turns a `function` memberdef into a method record:
    the `this`-parameter injection into the argument string, the parameter
    list and the `paramDocs` Markdown block (server/src/parser.ts:209-250
    and 320-380; the same code is copied in scripts/convertDoxygenXml.js). */
module MethodRecords {
  import opened Optional
  import opened Strings
  import opened Symbols
  import opened Doxygen
  import opened Descriptions

  /** Which copy of the builder runs: the language server's, or the older
      conversion script. */
  datatype Variant = Server | Legacy

  /** An instance method receives the object as an explicit first argument:
      every non-static method except the singleton accessor `getInstance`. */
  predicate IncludesThis(m: MemberDef) {
    m.name != "getInstance" && m.staticAttr != "yes"
  }

  // ---------------------------------------------------------------------
  // The argument string
  // ---------------------------------------------------------------------

  /** Drops the pure-virtual marker: the first `)=0` becomes `)`, so the
      string is two characters shorter; an argument list without the
      marker is left as it is. */
  function CleanArgs(raw: string): (r: string)
    ensures !Contains(raw, ")=0") ==> r == raw
    ensures Contains(raw, ")=0") ==> |r| == |raw| - 2
  {
    ReplaceFirst(raw, ")=0", ")")
  }

  /** With the marker present, exactly its first occurrence is replaced and
      the text on both sides is kept. */
  lemma CleanArgsReplacesFirst(raw: string)
    requires Contains(raw, ")=0")
    ensures exists i: nat ::
              && OccursAt(raw, ")=0", i)
              && (forall k: nat :: k < i ==> !OccursAt(raw, ")=0", k))
              && CleanArgs(raw) == raw[..i] + ")" + raw[i + 3..]
  {
    var i := IndexOf(raw, ")=0").value;
    assert OccursAt(raw, ")=0", i);
  }

  /** A well-formed list `(inner)` carries no pure-virtual marker. */
  lemma NoMarkerInList(inner: string)
    requires ')' !in inner
    ensures CleanArgs("(" + inner + ")") == "(" + inner + ")"
  {
    var s := "(" + inner + ")";
    forall k | 0 <= k <= |s|
      ensures !OccursAt(s, ")=0", k)
    {
      if k + 3 <= |s| {
        assert s[k..k + 3][0] == s[k];
        if k > 0 {
          assert s[k] == inner[k - 1];
        }
      }
    }
  }

  /** A pure-virtual argument list `(...)=0` loses exactly its marker. */
  lemma CleanArgsPureVirtual(inner: string)
    requires ')' !in inner
    ensures CleanArgs("(" + inner + ")=0") == "(" + inner + ")"
  {
    var s := "(" + inner + ")=0";
    var k := |inner| + 1;
    assert OccursAt(s, ")=0", k);
    var i := IndexOf(s, ")=0").value;
    assert s[i] == ')';
    assert forall j :: 1 <= j < k ==> s[j] == inner[j - 1];
    assert i == k;
    assert s[..i] + ")" + s[i + 3..] == "(" + inner + ")";
  }

  /** The argument string stored for a method: `(` followed, for an
      instance method, by `<Class> this` and a comma when the cleaned list
      is longer than `()`, then the cleaned list without its `(`. */
  function CompleteArgs(className: string, cleaned: string, includeThis: bool): (r: string)
    ensures StartsWith(r, "(")
  {
    var thisPart :=
      if includeThis then className + " this" + (if |cleaned| > 2 then ", " else "")
      else "";
    "(" + thisPart + Slice(cleaned, 1, |cleaned|)
  }

  /** For a well-formed list `(inner)`: a static method keeps it, an
      instance method gets `<Class> this` as its first argument, with no
      trailing comma when there were no other arguments. */
  lemma CompleteArgsShape(className: string, inner: string, includeThis: bool)
    ensures CompleteArgs(className, "(" + inner + ")", includeThis) ==
      if !includeThis then "(" + inner + ")"
      else if inner == "" then "(" + className + " this)"
      else "(" + className + " this, " + inner + ")"
  {
    var cleaned := "(" + inner + ")";
    assert Slice(cleaned, 1, |cleaned|) == inner + ")";
  }

  /** How a method's argument list is rewritten, for a list `(inner)`
      with or without the pure-virtual marker. */
  lemma RewriteOfList(className: string, inner: string, pureVirtual: bool, includeThis: bool)
    requires ')' !in inner
    ensures CompleteArgs(className, CleanArgs("(" + inner + ")" + (if pureVirtual then "=0" else "")), includeThis) ==
      if !includeThis then "(" + inner + ")"
      else if inner == "" then "(" + className + " this)"
      else "(" + className + " this, " + inner + ")"
  {
    if pureVirtual {
      assert "(" + inner + ")" + "=0" == "(" + inner + ")=0";
      CleanArgsPureVirtual(inner);
    } else {
      assert "(" + inner + ")" + "" == "(" + inner + ")";
      NoMarkerInList(inner);
    }
    CompleteArgsShape(className, inner, includeThis);
  }

  /** The comma-separated pieces of an argument string's interior (without
      its first and last character), each trimmed. */
  function ArgPieces(argsString: string): (r: seq<string>)
    ensures |r| >= 1
  {
    TrimAll(Split(Slice(argsString, 1, -1), ','))
  }

  // ---------------------------------------------------------------------
  // Parameters and their documentation
  // ---------------------------------------------------------------------

  /** `param.declname?._text ?? param.defname?._text`. */
  function ParamName(p: Param): Option<string> {
    if p.declName.Some? then p.declName else p.defName
  }

  /** The names of the parameters that have one, in order. */
  function NamedParams(ps: seq<Param>): (names: seq<string>)
    ensures |names| <= |ps|
  {
    if |ps| == 0 then []
    else
      (match ParamName(ps[0]) case Some(n) => [n] case None => []) + NamedParams(ps[1..])
  }

  /** A name is listed exactly when some parameter carries it; when every
      parameter has a name, the list holds them one for one. */
  lemma {:induction false} NamedParamsExact(ps: seq<Param>)
    ensures forall n :: n in NamedParams(ps) <==> exists i :: 0 <= i < |ps| && ParamName(ps[i]) == Some(n)
    ensures (forall i :: 0 <= i < |ps| ==> ParamName(ps[i]).Some?) ==>
      |NamedParams(ps)| == |ps| && forall i :: 0 <= i < |ps| ==> NamedParams(ps)[i] == ParamName(ps[i]).value
    decreases |ps|
  {
    if |ps| > 0 {
      var tail := ps[1..];
      NamedParamsExact(tail);
      assert forall i :: 1 <= i < |ps| ==> tail[i - 1] == ps[i];
      forall n | exists i :: 0 <= i < |ps| && ParamName(ps[i]) == Some(n)
        ensures n in NamedParams(ps)
      {
        var i :| 0 <= i < |ps| && ParamName(ps[i]) == Some(n);
        if i > 0 {
          assert ParamName(tail[i - 1]) == Some(n);
        }
      }
    }
  }

  /** The position of the last doc entry for parameter `name`: when the
      documentation names a parameter twice, the later entry wins. */
  function LastDocFor(items: seq<ParamItem>, name: string): (r: Option<nat>)
    ensures r.Some? ==> r.value < |items| && items[r.value].name == Some(name)
    ensures r.Some? ==> forall j :: r.value < j < |items| ==> items[j].name != Some(name)
    ensures r.None? ==> forall j :: 0 <= j < |items| ==> items[j].name != Some(name)
  {
    if |items| == 0 then None
    else if items[|items| - 1].name == Some(name) then Some(|items| - 1)
    else LastDocFor(items[..|items| - 1], name)
  }

  /** A description as each copy of the builder reads it for a string. */
  function DescText(variant: Variant, d: Description): string {
    match variant
    case Server => ParseDescription(d)
    case Legacy => AsText(ParseDescriptionLegacy(d))
  }

  lemma DescTextIsServer(variant: Variant, d: Description)
    ensures DescText(variant, d) == ParseDescription(d)
  {
    LegacyDescriptionReadsAsServer(d);
  }

  /** The description stored with a parameter: the last matching doc
      entry's text. Without a match the server stores "" and the legacy
      script leaves `undefined`; the legacy script also stores an empty
      array for an entry without paragraphs. */
  function ParamDescription(variant: Variant, items: seq<ParamItem>, name: string): (r: DocValue)
    ensures variant == Server ==> r.Text?
    ensures LastDocFor(items, name).None? ==> r == (if variant == Server then Text("") else Undefined)
    ensures LastDocFor(items, name).Some? ==>
      AsText(r) == ParseDescription(items[LastDocFor(items, name).value].description)
  {
    match LastDocFor(items, name)
    case None => if variant == Server then Text("") else Undefined
    case Some(j) =>
      match variant
      case Server => Text(ParseDescription(items[j].description))
      case Legacy => ParseDescriptionLegacy(items[j].description)
  }

  /** The synthetic receiver parameter. */
  function ThisParameter(className: string): Parameter {
    Parameter(Some(className + " this"), Text(className + " Instance"))
  }

  function ThisPrefix(className: string, includeThis: bool): (r: seq<Parameter>)
    ensures |r| == if includeThis then 1 else 0
  {
    if includeThis then [ThisParameter(className)] else []
  }

  /** The parameter list exactly as the source builds it: the k-th named
      parameter (k = 0, 1, ...) is labelled with piece k + 1 of the
      REWRITTEN argument string, whether or not a receiver was put in
      front of it. */
  function ParametersAsWritten(
    variant: Variant, className: string, includeThis: bool, complete: string, m: MemberDef): (ps: seq<Parameter>)
    ensures var names := NamedParams(m.params);
            |ps| == |ThisPrefix(className, includeThis)| + |names|
  {
    ThisPrefix(className, includeThis) + Labelled(variant, ArgPieces(complete), 1, m)
  }

  /** The named parameters of `m`, the k-th labelled with piece
      `k + shift` of `args` and described by its doc entry. */
  function Labelled(variant: Variant, args: seq<string>, shift: nat, m: MemberDef): (ps: seq<Parameter>)
    ensures var names := NamedParams(m.params);
            && |ps| == |names|
            && forall k :: 0 <= k < |names| ==>
                 ps[k] == Parameter(At(args, k + shift), ParamDescription(variant, m.paramItems, names[k]))
  {
    var names := NamedParams(m.params);
    seq(|names|, k requires 0 <= k < |names| =>
      Parameter(At(args, k + shift), ParamDescription(variant, m.paramItems, names[k])))
  }

  /** The parameter list as intended: the receiver when there is one, then
      the k-th named parameter labelled with the k-th argument of the
      method's own (cleaned) argument string. */
  function Parameters(
    variant: Variant, className: string, includeThis: bool, cleaned: string, m: MemberDef): (ps: seq<Parameter>)
    ensures var off := if includeThis then 1 else 0;
            && |ps| == off + |NamedParams(m.params)|
            && (includeThis ==> ps[0] == ThisParameter(className))
            && ps[off..] == Labelled(variant, ArgPieces(cleaned), 0, m)
  {
    var pre := ThisPrefix(className, includeThis);
    var rest := Labelled(variant, ArgPieces(cleaned), 0, m);
    assert (pre + rest)[|pre|..] == rest;
    pre + rest
  }

  /** `slice(1, -1)` drops the first and last character. */
  lemma SliceInterior(x: string)
    ensures Slice("(" + x + ")", 1, -1) == x
  {
    var s := "(" + x + ")";
    assert s[1..|s| - 1] == x;
  }

  /** The receiver text survives the trim. */
  lemma ReceiverTrimmed(className: string)
    requires className != "" && Trimmed(className)
    ensures Trim(className + " this") == className + " this"
  {
    var recv := className + " this";
    assert recv[0] == className[0];
    assert Trimmed(recv);
    assert [] + recv + [] == recv;
    TrimOfPadded([], recv, []);
  }

  /** Pieces whose first members trim alike trim alike. */
  lemma TrimAllSameHead(x: string, y: string, rest: seq<string>)
    requires Trim(x) == Trim(y)
    ensures TrimAll([x] + rest) == TrimAll([y] + rest)
  {
    var a := TrimAll([x] + rest);
    var b := TrimAll([y] + rest);
    forall i | 0 <= i < |a|
      ensures a[i] == b[i]
    {
      if i > 0 {
        assert ([x] + rest)[i] == ([y] + rest)[i];
      }
    }
  }

  /** The pieces after a `, ` read as the pieces of the text after it. */
  lemma PiecesAfterComma(inner: string)
    ensures TrimAll(Split([' '] + inner, ',')) == TrimAll(Split(inner, ','))
  {
    var pieces := Split(inner, ',');
    SplitCons(' ', inner, ',');
    assert pieces == [pieces[0]] + pieces[1..];
    TrimDropsLeadingSpace(' ', pieces[0]);
    TrimAllSameHead([' '] + pieces[0], pieces[0], pieces[1..]);
  }

  /** The pieces of a list `(x)` are the trimmed comma pieces of `x`. */
  lemma ArgPiecesOfList(x: string)
    ensures ArgPieces("(" + x + ")") == TrimAll(Split(x, ','))
  {
    SliceInterior(x);
  }

  /** A comma-free, trimmed head stays the first piece. */
  lemma PiecesWithHead(head: string, rest: string)
    requires head != [] && Trimmed(head) && ',' !in head
    ensures TrimAll(Split(head + [','] + rest, ',')) == [head] + TrimAll(Split(rest, ','))
  {
    SplitAfterHead(head, ',', rest);
    var tail := Split(rest, ',');
    assert [] + head + [] == head;
    TrimOfPadded([], head, []);
    var a := TrimAll([head] + tail);
    var b := [head] + TrimAll(tail);
    forall i | 0 <= i < |a|
      ensures a[i] == b[i]
    {
      if i > 0 {
        assert ([head] + tail)[i] == tail[i - 1];
      }
    }
  }

  /** The rewritten string of an instance method splits into the receiver
      followed by the pieces of the method's own argument list. */
  lemma ArgPiecesWithReceiver(className: string, inner: string)
    requires className != "" && Trimmed(className) && ',' !in className
    requires inner != ""
    ensures ArgPieces(CompleteArgs(className, "(" + inner + ")", true)) ==
      [className + " this"] + ArgPieces("(" + inner + ")")
  {
    var recv := className + " this";
    var body := recv + [','] + ([' '] + inner);
    ReceiverPiece(className);
    ReceiverList(className, inner);
    ArgPiecesOfList(body);
    PiecesWithHead(recv, [' '] + inner);
    PiecesAfterComma(inner);
    ArgPiecesOfList(inner);
  }

  /** The receiver is a trimmed, comma-free piece. */
  lemma ReceiverPiece(className: string)
    requires className != "" && Trimmed(className) && ',' !in className
    ensures var recv := className + " this";
            recv != [] && Trimmed(recv) && ',' !in recv
  {
    var recv := className + " this";
    assert recv[0] == className[0] && recv[|recv| - 1] == 's';
  }

  /** With arguments, the rewritten list is the receiver, a comma, a
      space and the arguments, in parentheses. */
  lemma ReceiverList(className: string, inner: string)
    requires inner != ""
    ensures CompleteArgs(className, "(" + inner + ")", true)
         == "(" + ((className + " this") + [','] + ([' '] + inner)) + ")"
  {
    CompleteArgsShape(className, inner, true);
    ReceiverText(className, inner);
  }

  /** `Name this, args` is the receiver, a comma, then a space and the
      arguments. */
  lemma ReceiverText(className: string, inner: string)
    ensures className + " this, " + inner == (className + " this") + [','] + ([' '] + inner)
  {
    var tail := [','] + ([' '] + inner);
    assert " this, " + inner == " this" + tail;
    assert className + " this, " + inner == className + (" this, " + inner);
    assert (className + " this") + tail == className + (" this" + tail);
    assert (className + " this") + [','] + ([' '] + inner) == (className + " this") + tail;
  }

  /** Whenever a receiver is injected (and the method has arguments), the
      source's list and the intended one coincide: the off-by-one only
      shows for static methods and `getInstance`. */
  lemma AsWrittenAgreesWithReceiver(variant: Variant, className: string, inner: string, m: MemberDef)
    requires className != "" && Trimmed(className) && ',' !in className
    requires inner != ""
    ensures ParametersAsWritten(variant, className, true, CompleteArgs(className, "(" + inner + ")", true), m)
         == Parameters(variant, className, true, "(" + inner + ")", m)
  {
    var complete := CompleteArgs(className, "(" + inner + ")", true);
    var argsA := ArgPieces(complete);
    var argsB := ArgPieces("(" + inner + ")");
    ArgPiecesWithReceiver(className, inner);
    LabelsShiftByReceiver(variant, className + " this", argsA, argsB, m);
  }

  /** A list of pieces with one piece put in front, read one place
      further on, labels the parameters as the list itself. */
  lemma LabelsShiftByReceiver(variant: Variant, recv: string, argsA: seq<string>, argsB: seq<string>, m: MemberDef)
    requires argsA == [recv] + argsB
    ensures Labelled(variant, argsA, 1, m) == Labelled(variant, argsB, 0, m)
  {
    var a := Labelled(variant, argsA, 1, m);
    var b := Labelled(variant, argsB, 0, m);
    forall k | 0 <= k < |a|
      ensures a[k] == b[k]
    {
      assert At(argsA, k + 1) == At(argsB, k);
    }
  }

  /** A trimmed text without commas is a single piece. */
  lemma PiecesOfPlainText(y: string)
    requires Trimmed(y) && ',' !in y
    ensures TrimAll(Split(y, ',')) == [y]
  {
    assert Split(y, ',') == [y];
    assert [] + y + [] == y;
    TrimOfPadded([], y, []);
    var t := TrimAll([y]);
    assert |t| == 1 && t[0] == Trim(y);
  }

  lemma ExamplePieces()
    ensures ArgPieces("(int a, int b)") == ["int a", "int b"]
  {
    var x: string := "int a";
    var y: string := "int b";
    assert Trimmed(x) && ',' !in x && Trimmed(y);
    var body := x + [','] + ([' '] + y);
    calc {
      ArgPieces("(int a, int b)");
      { assert "(int a, int b)" == "(" + body + ")"; }
      ArgPieces("(" + body + ")");
      { ArgPiecesOfList(body); }
      TrimAll(Split(body, ','));
      { PiecesWithHead(x, [' '] + y); }
      [x] + TrimAll(Split([' '] + y, ','));
      { PiecesAfterComma(y); }
      [x] + TrimAll(Split(y, ','));
      { PiecesOfPlainText(y); }
      [x] + [y];
    }
  }

  /** The static method `foo(int a, int b)` on `Foo` with both parameters
      named: the source labels the first parameter `int b` and leaves the
      second `undefined`; the intended list names them `int a`, `int b`. */
  lemma StaticParametersShifted(m: MemberDef)
    requires m.params == [Param(Some("a"), None), Param(Some("b"), None)]
    requires m.paramItems == []
    ensures ParametersAsWritten(Server, "Foo", false, "(int a, int b)", m)
              == [Parameter(Some("int b"), Text("")), Parameter(None, Text(""))]
    ensures Parameters(Server, "Foo", false, "(int a, int b)", m)
              == [Parameter(Some("int a"), Text("")), Parameter(Some("int b"), Text(""))]
  {
    StaticAsWritten(m);
    StaticIntended(m);
  }

  /** The source's list for the static `foo(int a, int b)`. */
  lemma StaticAsWritten(m: MemberDef)
    requires m.params == [Param(Some("a"), None), Param(Some("b"), None)]
    requires m.paramItems == []
    ensures ParametersAsWritten(Server, "Foo", false, "(int a, int b)", m)
              == [Parameter(Some("int b"), Text("")), Parameter(None, Text(""))]
  {
    TwoNamedParams(m.params);
    ExamplePieces();
    var args := ArgPieces("(int a, int b)");
    assert ParamDescription(Server, m.paramItems, "a") == Text("");
    assert ParamDescription(Server, m.paramItems, "b") == Text("");
    var written := Labelled(Server, args, 1, m);
    assert written[0] == Parameter(Some("int b"), Text(""));
    assert written[1] == Parameter(None, Text(""));
    assert ParametersAsWritten(Server, "Foo", false, "(int a, int b)", m) == [] + written;
  }

  /** The intended list for the static `foo(int a, int b)`. */
  lemma StaticIntended(m: MemberDef)
    requires m.params == [Param(Some("a"), None), Param(Some("b"), None)]
    requires m.paramItems == []
    ensures Parameters(Server, "Foo", false, "(int a, int b)", m)
              == [Parameter(Some("int a"), Text("")), Parameter(Some("int b"), Text(""))]
  {
    TwoNamedParams(m.params);
    ExamplePieces();
    var args := ArgPieces("(int a, int b)");
    assert ParamDescription(Server, m.paramItems, "a") == Text("");
    assert ParamDescription(Server, m.paramItems, "b") == Text("");
    var intended := Labelled(Server, args, 0, m);
    assert intended[0] == Parameter(Some("int a"), Text(""));
    assert intended[1] == Parameter(Some("int b"), Text(""));
    var ps := Parameters(Server, "Foo", false, "(int a, int b)", m);
    assert ps == ps[0..] == intended;
  }

  /** Both parameters of the example are named, in order. */
  lemma TwoNamedParams(ps: seq<Param>)
    requires ps == [Param(Some("a"), None), Param(Some("b"), None)]
    ensures NamedParams(ps) == ["a", "b"]
  {
    var rest := ps[1..];
    assert rest == [Param(Some("b"), None)];
    assert rest[1..] == [];
    assert NamedParams(rest[1..]) == [];
    assert NamedParams(rest) == ["b"] + NamedParams(rest[1..]);
    assert NamedParams(ps) == ["a"] + NamedParams(rest);
  }

  /** The return type the documentation block names: the first
      space-separated token of the definition. */
  function ReturnTypeOf(definition: string): (r: string)
    ensures StartsWith(definition, r) && ' ' !in r
    ensures |r| < |definition| ==> definition[|r|] == ' '
  {
    var pieces := Split(definition, ' ');
    SplitJoin(definition, ' ');
    JoinStartsWithFirst(pieces, [' ']);
    pieces[0]
  }

  lemma JoinStartsWithFirst(parts: seq<string>, sep: string)
    requires |parts| >= 1
    ensures StartsWith(Join(parts, sep), parts[0])
    ensures |parts| >= 2 ==> StartsWith(Join(parts, sep), parts[0] + sep)
  {
  }

  /** A single `simplesect` of kind `return` documents the return value
      (several simple sections come as an array and are not consulted). */
  predicate DocumentsReturn(m: MemberDef) {
    |m.simplesects| == 1 && m.simplesects[0].kind == Some("return")
  }

  /** The start of every parameter's line: the tag and the backticked name. */
  function ParamHead(name: string): string {
    "_@param_ `" + name + "`"
  }

  /** A parameter's line: its name, then, when some doc entry names it,
      a colon and the text of the last such entry. */
  function ParamDocLine(variant: Variant, items: seq<ParamItem>, name: string): (line: string)
    ensures StartsWith(line, ParamHead(name))
    ensures LastDocFor(items, name).None? ==> line == ParamHead(name)
    ensures LastDocFor(items, name).Some? ==>
      line == ParamHead(name) + ": " + ParseDescription(items[LastDocFor(items, name).value].description)
  {
    match LastDocFor(items, name)
    case None => ParamHead(name)
    case Some(j) =>
      var line := ParamHead(name) + ": " + DescText(variant, items[j].description);
      assert StartsWith(line, ParamHead(name)) by {
        assert line[..|ParamHead(name)|] == ParamHead(name);
      }
      DescTextIsServer(variant, items[j].description);
      line
  }

  function ParamLinesFor(variant: Variant, items: seq<ParamItem>, names: seq<string>): (lines: seq<string>)
    ensures |lines| == |names|
    ensures forall k :: 0 <= k < |names| ==> lines[k] == ParamDocLine(variant, items, names[k])
  {
    seq(|names|, k requires 0 <= k < |names| => ParamDocLine(variant, items, names[k]))
  }

  function ReturnDocLines(variant: Variant, m: MemberDef, definition: string): (lines: seq<string>)
    ensures |lines| <= 1
    ensures |lines| == 1 <==> ReturnTypeOf(definition) != "void" && DocumentsReturn(m)
    ensures |lines| == 1 ==>
      lines[0] == "_@return_ `" + ReturnTypeOf(definition) + "` " + ParseDescription(m.simplesects[0].body)
  {
    var rt := ReturnTypeOf(definition);
    if rt != "void" && DocumentsReturn(m) then
      DescTextIsServer(variant, m.simplesects[0].body);
      ["_@return_ `" + rt + "` " + DescText(variant, m.simplesects[0].body)]
    else []
  }

  /** The line documenting the receiver of an instance method. */
  function ReceiverDocLine(className: string): string {
    "_@param_ `this`: " + className + " instance"
  }

  /** The lines after the receiver line: one `@param` line per named
      parameter in order, then the `@return` line if any. */
  function ParamAndReturnLines(variant: Variant, m: MemberDef, definition: string): (lines: seq<string>)
    ensures var names := NamedParams(m.params);
            && |lines| == |names| + |ReturnDocLines(variant, m, definition)|
            && (forall k :: 0 <= k < |names| ==>
                 lines[k] == ParamDocLine(variant, m.paramItems, names[k]))
            && lines[|names|..] == ReturnDocLines(variant, m, definition)
  {
    var params := ParamLinesFor(variant, m.paramItems, NamedParams(m.params));
    var lines := params + ReturnDocLines(variant, m, definition);
    assert lines[|params|..] == ReturnDocLines(variant, m, definition);
    lines
  }

  /** The lines of a method's documentation block: the receiver line for
      an instance method, one `@param` line per named parameter in order,
      and an `@return` line only when the return type is not `void` and a
      return section exists. */
  function ParamDocLines(
    variant: Variant, m: MemberDef, className: string, includeThis: bool, definition: string): (lines: seq<string>)
    ensures includeThis ==> |lines| > 0 && lines[0] == ReceiverDocLine(className)
    ensures var off := if includeThis then 1 else 0;
            |lines| >= off && lines[off..] == ParamAndReturnLines(variant, m, definition)
  {
    var rest := ParamAndReturnLines(variant, m, definition);
    if includeThis then
      var lines := [ReceiverDocLine(className)] + rest;
      assert lines[1..] == rest;
      lines
    else rest
  }

  /** Every line preceded by a blank line, and a closing blank line. */
  function Block(lines: seq<string>): (r: string)
    ensures EndsWith(r, "\n\n")
    ensures StartsWith(r, "\n\n")
  {
    if |lines| == 0 then "\n\n"
    else
      var rest := Block(lines[1..]);
      var r := "\n\n" + lines[0] + rest;
      assert r[|r| - 2..] == rest[|rest| - 2..];
      r
  }

  /** The block is its lines joined by blank lines, with one blank line
      before and one after; no lines give a single blank line. */
  lemma {:induction false} BlockIsJoin(lines: seq<string>)
    ensures Block(lines) == if |lines| == 0 then "\n\n" else "\n\n" + Join(lines, "\n\n") + "\n\n"
    decreases |lines|
  {
    if |lines| >= 2 {
      var tail := Join(lines[1..], "\n\n");
      BlockIsJoin(lines[1..]);
      assert "\n\n" + lines[0] + ("\n\n" + tail + "\n\n") == "\n\n" + (lines[0] + "\n\n" + tail) + "\n\n";
    } else if |lines| == 1 {
      assert Block(lines[1..]) == "\n\n";
    }
  }

  /** `getParamsDocs`. */
  function ParamDocs(
    variant: Variant, m: MemberDef, className: string, includeThis: bool, definition: string): (r: string)
    ensures EndsWith(r, "\n\n")
  {
    Block(ParamDocLines(variant, m, className, includeThis, definition))
  }

  /** The two copies of `getParamsDocs` produce the same block. */
  lemma ParamDocsAgree(m: MemberDef, className: string, includeThis: bool, definition: string)
    ensures ParamDocs(Server, m, className, includeThis, definition)
         == ParamDocs(Legacy, m, className, includeThis, definition)
  {
    forall d: Description
      ensures DescText(Server, d) == DescText(Legacy, d)
    {
      LegacyDescriptionReadsAsServer(d);
    }
    var names := NamedParams(m.params);
    assert ParamLinesFor(Server, m.paramItems, names) == ParamLinesFor(Legacy, m.paramItems, names);
    assert ReturnDocLines(Server, m, definition) == ReturnDocLines(Legacy, m, definition);
  }
}
