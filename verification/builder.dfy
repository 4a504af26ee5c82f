/** The symbol-record builder: from the extractor's per-compound documents
    to the class and struct records of one workspace root
    (`findInPath`, `processClassesData` and `processStructsData` of
    server/src/parser.ts, and `findInPath` and `processData` of
    scripts/convertDoxygenXml.js).

    Reading a field of a missing element throws in the source; the throw
    ends the whole build of the root. Here every such read is an `Err`,
    and an `Err` anywhere makes the whole build an `Err`. */
module Builder {
  import opened Optional
  import opened Strings
  import opened OrderedMaps
  import opened Symbols
  import opened Paths
  import opened Doxygen
  import opened Descriptions
  import opened MethodRecords
  import opened Sequences

  /** Which missing element stopped the build. */
  datatype Missing =
    | NoSections       // a compound without `sectiondef`
    | NoMembers        // a `sectiondef` without `memberdef`
    | NoDefinition     // a function or struct attribute without `definition` text
    | NoType           // a function or variable without `type`
    | NoArgs           // a function without `argsstring` text
    | NoVariableType   // a variable whose `type` has neither text nor `ref`

  type Built<T> = Result<T, Missing>

  // ---------------------------------------------------------------------
  // Locations and members
  // ---------------------------------------------------------------------

  /** The location record: the header site always, the body site only when
      the extractor names a (non-empty) body file; an end line of -1
      stands for "same as the start". */
  function BuildLocation(paths: PathOps, basePath: string, loc: LocationAttrs): (r: Location)
    ensures r.header == Header(paths.relative(basePath, loc.file), loc.line, loc.column)
    ensures r.body.Some? <==> loc.bodyFile.Some? && loc.bodyFile.value != ""
    ensures r.body.Some? ==> r.body.value.uri == paths.relative(basePath, loc.bodyFile.value)
    ensures r.body.Some? ==> r.body.value.start == loc.bodyStart
    ensures r.body.Some? && loc.bodyEnd != -1 ==> r.body.value.end == loc.bodyEnd
    ensures r.body.Some? && loc.bodyEnd == -1 ==> r.body.value.end == loc.bodyStart
  {
    Location(
      Header(paths.relative(basePath, loc.file), loc.line, loc.column),
      match loc.bodyFile
      case Some(f) =>
        if f != "" then
          Some(Body(paths.relative(basePath, f), loc.bodyStart, if loc.bodyEnd != -1 then loc.bodyEnd else loc.bodyStart))
        else None
      case None => None)
  }

  /** A body whose reported end is "unknown" (-1) or not before its start
      spans a non-empty range of lines. */
  lemma BodyNotReversed(paths: PathOps, basePath: string, loc: LocationAttrs)
    requires loc.bodyEnd == -1 || loc.bodyStart <= loc.bodyEnd
    ensures var r := BuildLocation(paths, basePath, loc);
            r.body.Some? ==> r.body.value.start <= r.body.value.end
  {
  }

  /** The text of a symbol's descriptions as each copy of the builder
      computes it. */
  function DescriptionsFor(variant: Variant, brief: Description, detailed: Description): (r: string)
    ensures r == ParseDescriptions(brief, detailed)
  {
    match variant
    case Server => ParseDescriptions(brief, detailed)
    case Legacy =>
      LegacyDescriptionsAgree(brief, detailed);
      ParseDescriptionsLegacy(brief, detailed)
  }

  /** The fields every member record has. */
  function BuildMember(variant: Variant, paths: PathOps, basePath: string, m: MemberDef): (r: Member)
    ensures r.name == m.name && r.qualifiedName == m.qualifiedName && r.prot == m.prot
    ensures r.isStatic <==> m.staticAttr == "yes"
    ensures r.description == ParseDescriptions(m.brief, m.detailed)
    ensures r.location == BuildLocation(paths, basePath, m.location)
  {
    Member(
      m.name, m.qualifiedName,
      DescriptionsFor(variant, m.brief, m.detailed),
      BuildLocation(paths, basePath, m.location),
      m.prot, m.staticAttr == "yes")
  }

  // ---------------------------------------------------------------------
  // Methods and variables
  // ---------------------------------------------------------------------

  /** The documentation block as either copy writes it: the legacy
      script's reads the same as the server's. */
  function DocsFor(variant: Variant, m: MemberDef, className: string, includeThis: bool, definition: string): (r: string)
    ensures r == ParamDocs(Server, m, className, includeThis, definition)
  {
    match variant
    case Server => ParamDocs(Server, m, className, includeThis, definition)
    case Legacy =>
      ParamDocsAgree(m, className, includeThis, definition);
      ParamDocs(Legacy, m, className, includeThis, definition)
  }

  /** A `function` memberdef reads its definition, type and argument
      string; any of them missing ends the build. */
  function BuildMethod(variant: Variant, paths: PathOps, basePath: string, className: string, m: MemberDef): (r: Built<Method>)
    ensures r.Ok? <==> m.definition.Some? && m.typeNode.Some? && m.argsString.Some?
    ensures r.Ok? ==> r.value == Method(
      BuildMember(variant, paths, basePath, m),
      m.definition.value,
      m.typeNode.value.text,
      CompleteArgs(className, CleanArgs(m.argsString.value), IncludesThis(m)),
      ParamDocs(Server, m, className, IncludesThis(m), m.definition.value),
      Parameters(variant, className, IncludesThis(m), CleanArgs(m.argsString.value), m))
  {
    if m.definition.None? then Err(NoDefinition)
    else if m.typeNode.None? then Err(NoType)
    else if m.argsString.None? then Err(NoArgs)
    else
      var includeThis := IncludesThis(m);
      var cleaned := CleanArgs(m.argsString.value);
      Ok(Method(
        BuildMember(variant, paths, basePath, m),
        m.definition.value,
        m.typeNode.value.text,
        CompleteArgs(className, cleaned, includeThis),
        DocsFor(variant, m, className, includeThis, m.definition.value),
        Parameters(variant, className, includeThis, cleaned, m)))
  }

  /** For an instance method with arguments, the parameter list stored is
      exactly the one the source's index arithmetic builds: the two lists
      part only for static methods and `getInstance` (see
      `StaticParametersShifted`). */
  lemma BuildMethodAsWritten(variant: Variant, paths: PathOps, basePath: string, className: string, m: MemberDef, inner: string)
    requires className != "" && Trimmed(className) && ',' !in className
    requires IncludesThis(m)
    requires m.definition.Some? && m.typeNode.Some? && m.argsString.Some?
    requires inner != "" && CleanArgs(m.argsString.value) == "(" + inner + ")"
    ensures BuildMethod(variant, paths, basePath, className, m).Ok?
    ensures BuildMethod(variant, paths, basePath, className, m).value.parameters
         == ParametersAsWritten(variant, className, true, CompleteArgs(className, CleanArgs(m.argsString.value), true), m)
  {
    AsWrittenAgreesWithReceiver(variant, className, inner, m);
  }

  /** The server records a variable's type text, or else the text of the
      type's reference, and fails when the type has neither; the legacy
      script records no type and reads nothing. */
  function BuildVariable(variant: Variant, paths: PathOps, basePath: string, m: MemberDef): (r: Built<Variable>)
    ensures r.Ok? ==> r.value.member == BuildMember(variant, paths, basePath, m)
    ensures variant == Legacy ==> r.Ok? && r.value.varType == None
    ensures variant == Server ==>
      (r.Ok? <==> m.typeNode.Some? && (m.typeNode.value.text.Some? || m.typeNode.value.ref.Some?))
    ensures variant == Server && r.Ok? && m.typeNode.value.text.Some? ==> r.value.varType == m.typeNode.value.text
    ensures variant == Server && r.Ok? && m.typeNode.value.text.None? ==> r.value.varType == m.typeNode.value.ref.value.text
  {
    var member := BuildMember(variant, paths, basePath, m);
    match variant
    case Legacy => Ok(Variable(member, None))
    case Server =>
      match m.typeNode
      case None => Err(NoType)
      case Some(t) =>
        if t.text.Some? then Ok(Variable(member, t.text))
        else match t.ref
          case None => Err(NoVariableType)
          case Some(ref) => Ok(Variable(member, ref.text))
  }

  // ---------------------------------------------------------------------
  // Classes
  // ---------------------------------------------------------------------

  /** Whether a memberdef can be read without a missing element. */
  predicate MemberReadable(variant: Variant, m: MemberDef) {
    && (m.kind == "function" ==> m.definition.Some? && m.typeNode.Some? && m.argsString.Some?)
    && (m.kind == "variable" && variant == Server ==>
          m.typeNode.Some? && (m.typeNode.value.text.Some? || m.typeNode.value.ref.Some?))
  }

  predicate MembersReadable(variant: Variant, ms: seq<MemberDef>) {
    forall i :: 0 <= i < |ms| ==> MemberReadable(variant, ms[i])
  }

  /** Whether every section of a compound can be read: there is at least
      one section, and each has at least one readable memberdef. */
  predicate SectionsReadable(variant: Variant, sections: seq<Section>) {
    && |sections| > 0
    && forall i :: 0 <= i < |sections| ==>
         |sections[i].members| > 0 && MembersReadable(variant, sections[i].members)
  }

  /** The element an unreadable memberdef lacks. */
  function MemberMissing(variant: Variant, m: MemberDef): Missing
    requires !MemberReadable(variant, m)
  {
    if m.kind == "function" then
      (if m.definition.None? then NoDefinition else if m.typeNode.None? then NoType else NoArgs)
    else if m.typeNode.None? then NoType
    else NoVariableType
  }

  predicate SectionBroken(variant: Variant, section: Section) {
    |section.members| == 0 || !MembersReadable(variant, section.members)
  }

  /** The first missing element met when reading the sections in order. */
  function SectionsMissing(variant: Variant, sections: seq<Section>): Missing
    requires !SectionsReadable(variant, sections)
  {
    if |sections| == 0 then NoSections else FirstMissingIn(variant, sections)
  }

  function FirstMissingIn(variant: Variant, sections: seq<Section>): Missing
    requires exists i :: 0 <= i < |sections| && SectionBroken(variant, sections[i])
  {
    var ms := sections[0].members;
    if |ms| == 0 then NoMembers
    else if !MembersReadable(variant, ms) then MembersMissing(variant, ms)
    else
      var k :| 0 <= k < |sections| && SectionBroken(variant, sections[k]);
      assert sections[1..][k - 1] == sections[k];
      FirstMissingIn(variant, sections[1..])
  }

  function MembersMissing(variant: Variant, ms: seq<MemberDef>): Missing
    requires !MembersReadable(variant, ms)
  {
    if !MemberReadable(variant, ms[0]) then MemberMissing(variant, ms[0])
    else
      var k :| 0 <= k < |ms| && !MemberReadable(variant, ms[k]);
      assert ms[1..][k - 1] == ms[k];
      MembersMissing(variant, ms[1..])
  }

  /** The number of records a class holds. */
  function RecordCount(c: ClassData): nat {
    |c.methods| + |c.variables| + |c.enums| + |c.typedefs|
  }

  predicate Recognised(kind: string) {
    kind == "function" || kind == "typedef" || kind == "enum" || kind == "variable"
  }

  /** The method a memberdef becomes: one for a function, none otherwise. */
  function NewMethods(variant: Variant, paths: PathOps, basePath: string, className: string, m: MemberDef): (r: seq<Method>)
    requires MemberReadable(variant, m)
    ensures |r| == if m.kind == "function" then 1 else 0
  {
    if m.kind == "function" then [BuildMethod(variant, paths, basePath, className, m).value] else []
  }

  /** One memberdef filed by its kind: functions become methods, variables
      variables, and typedefs and enums bare members; any other kind is
      dropped. The list of its kind grows at its end, and nothing else of
      the class changes. */
  function FileMember(variant: Variant, paths: PathOps, basePath: string, cls: ClassData, m: MemberDef): (r: ClassData)
    requires MemberReadable(variant, m)
    ensures SameHeader(r, cls)
    ensures r.methods == cls.methods + NewMethods(variant, paths, basePath, cls.name, m)
    ensures r.variables ==
      if m.kind == "variable" then cls.variables + [BuildVariable(variant, paths, basePath, m).value]
      else cls.variables
    ensures r.typedefs ==
      if m.kind == "typedef" then cls.typedefs + [BuildMember(variant, paths, basePath, m)] else cls.typedefs
    ensures r.enums ==
      if m.kind == "enum" then cls.enums + [BuildMember(variant, paths, basePath, m)] else cls.enums
  {
    if m.kind == "function" then
      cls.(methods := cls.methods + [BuildMethod(variant, paths, basePath, cls.name, m).value])
    else if m.kind == "typedef" then
      cls.(typedefs := cls.typedefs + [BuildMember(variant, paths, basePath, m)])
    else if m.kind == "enum" then
      cls.(enums := cls.enums + [BuildMember(variant, paths, basePath, m)])
    else if m.kind == "variable" then
      cls.(variables := cls.variables + [BuildVariable(variant, paths, basePath, m).value])
    else cls
  }

  /** The memberdefs of one section filed in document order. */
  function FileMembers(variant: Variant, paths: PathOps, basePath: string, cls: ClassData, ms: seq<MemberDef>): (r: ClassData)
    requires MembersReadable(variant, ms)
    ensures SameHeader(r, cls)
    decreases |ms|
  {
    if |ms| == 0 then cls
    else
      var init := ms[..|ms| - 1];
      assert forall i :: 0 <= i < |init| ==> init[i] == ms[i];
      FileMember(variant, paths, basePath, FileMembers(variant, paths, basePath, cls, init), ms[|ms| - 1])
  }

  /** Filing a section appends to each list of the class the records of
      its kind, in document order. */
  lemma {:induction false} FileMembersLists(
    variant: Variant, paths: PathOps, basePath: string, cls: ClassData, ms: seq<MemberDef>)
    requires MembersReadable(variant, ms)
    ensures Extends(FileMembers(variant, paths, basePath, cls, ms), cls,
      MethodsOf(variant, paths, basePath, cls.name, ms),
      VariablesOf(variant, paths, basePath, ms),
      MembersOf(variant, paths, basePath, "typedef", ms),
      MembersOf(variant, paths, basePath, "enum", ms))
    decreases |ms|
  {
    if |ms| == 0 {
      assert Extends(cls, cls, [], [], [], []);
    } else {
      var init := ms[..|ms| - 1];
      assert forall i :: 0 <= i < |init| ==> init[i] == ms[i];
      FileMembersLists(variant, paths, basePath, cls, init);
      ExtendsStep(variant, paths, basePath, cls, FileMembers(variant, paths, basePath, cls, init),
        MethodsOf(variant, paths, basePath, cls.name, init),
        VariablesOf(variant, paths, basePath, init),
        MembersOf(variant, paths, basePath, "typedef", init),
        MembersOf(variant, paths, basePath, "enum", init),
        ms[|ms| - 1]);
    }
  }

  /** The number of memberdefs of one kind. */
  function KindCount(ms: seq<MemberDef>, kind: string): nat
    decreases |ms|
  {
    if |ms| == 0 then 0
    else KindCount(ms[..|ms| - 1], kind) + (if ms[|ms| - 1].kind == kind then 1 else 0)
  }

  /** The memberdefs of a recognised kind are those of the four kinds. */
  function CountRecognised(ms: seq<MemberDef>): (n: nat)
    ensures n == KindCount(ms, "function") + KindCount(ms, "variable")
               + KindCount(ms, "typedef") + KindCount(ms, "enum")
    decreases |ms|
  {
    if |ms| == 0 then 0
    else CountRecognised(ms[..|ms| - 1]) + (if Recognised(ms[|ms| - 1].kind) then 1 else 0)
  }

  /** The methods the function-kind memberdefs become, in order. */
  function MethodsOf(variant: Variant, paths: PathOps, basePath: string, className: string, ms: seq<MemberDef>): (r: seq<Method>)
    requires MembersReadable(variant, ms)
    ensures |r| == KindCount(ms, "function")
    decreases |ms|
  {
    if |ms| == 0 then []
    else
      var init := ms[..|ms| - 1];
      var m := ms[|ms| - 1];
      assert forall i :: 0 <= i < |init| ==> init[i] == ms[i];
      MethodsOf(variant, paths, basePath, className, init)
        + NewMethods(variant, paths, basePath, className, m)
  }

  /** The variable a memberdef becomes: one for a variable, none otherwise. */
  function NewVariables(variant: Variant, paths: PathOps, basePath: string, m: MemberDef): (r: seq<Variable>)
    requires MemberReadable(variant, m)
    ensures |r| == if m.kind == "variable" then 1 else 0
  {
    if m.kind == "variable" then [BuildVariable(variant, paths, basePath, m).value] else []
  }

  /** The bare member a memberdef of `kind` becomes: one for that kind,
      none otherwise. */
  function NewMembers(variant: Variant, paths: PathOps, basePath: string, kind: string, m: MemberDef): (r: seq<Member>)
    ensures |r| == if m.kind == kind then 1 else 0
  {
    if m.kind == kind then [BuildMember(variant, paths, basePath, m)] else []
  }

  /** The variables the variable-kind memberdefs become, in order. */
  function VariablesOf(variant: Variant, paths: PathOps, basePath: string, ms: seq<MemberDef>): (r: seq<Variable>)
    requires MembersReadable(variant, ms)
    ensures |r| == KindCount(ms, "variable")
    decreases |ms|
  {
    if |ms| == 0 then []
    else
      var init := ms[..|ms| - 1];
      assert forall i :: 0 <= i < |init| ==> init[i] == ms[i];
      VariablesOf(variant, paths, basePath, init) + NewVariables(variant, paths, basePath, ms[|ms| - 1])
  }

  /** The bare members the memberdefs of `kind` (typedef or enum) become,
      in order. */
  function MembersOf(variant: Variant, paths: PathOps, basePath: string, kind: string, ms: seq<MemberDef>): (r: seq<Member>)
    ensures |r| == KindCount(ms, kind)
    decreases |ms|
  {
    if |ms| == 0 then []
    else MembersOf(variant, paths, basePath, kind, ms[..|ms| - 1]) + NewMembers(variant, paths, basePath, kind, ms[|ms| - 1])
  }

  /** Every section's memberdefs can be read. */
  predicate AllSectionsReadable(variant: Variant, sections: seq<Section>) {
    forall i :: 0 <= i < |sections| ==> MembersReadable(variant, sections[i].members)
  }

  lemma InitSectionsReadable(variant: Variant, sections: seq<Section>)
    requires AllSectionsReadable(variant, sections) && |sections| > 0
    ensures AllSectionsReadable(variant, sections[..|sections| - 1])
  {
    var init := sections[..|sections| - 1];
    assert forall i :: 0 <= i < |init| ==> init[i] == sections[i];
  }

  /** The number of memberdefs of one kind in all sections. */
  function SectionsKindCount(sections: seq<Section>, kind: string): nat
    decreases |sections|
  {
    if |sections| == 0 then 0
    else SectionsKindCount(sections[..|sections| - 1], kind) + KindCount(sections[|sections| - 1].members, kind)
  }

  /** The methods of all sections, section by section in document order. */
  function SectionsMethods(variant: Variant, paths: PathOps, basePath: string, className: string, sections: seq<Section>): (r: seq<Method>)
    requires AllSectionsReadable(variant, sections)
    ensures |r| == SectionsKindCount(sections, "function")
    decreases |sections|
  {
    if |sections| == 0 then []
    else
      InitSectionsReadable(variant, sections);
      SectionsMethods(variant, paths, basePath, className, sections[..|sections| - 1])
        + MethodsOf(variant, paths, basePath, className, sections[|sections| - 1].members)
  }

  /** The variables of all sections, section by section in document order. */
  function SectionsVariables(variant: Variant, paths: PathOps, basePath: string, sections: seq<Section>): (r: seq<Variable>)
    requires AllSectionsReadable(variant, sections)
    ensures |r| == SectionsKindCount(sections, "variable")
    decreases |sections|
  {
    if |sections| == 0 then []
    else
      InitSectionsReadable(variant, sections);
      SectionsVariables(variant, paths, basePath, sections[..|sections| - 1])
        + VariablesOf(variant, paths, basePath, sections[|sections| - 1].members)
  }

  /** The members of `kind` of all sections, section by section in
      document order. */
  function SectionsMembers(variant: Variant, paths: PathOps, basePath: string, kind: string, sections: seq<Section>): (r: seq<Member>)
    ensures |r| == SectionsKindCount(sections, kind)
    decreases |sections|
  {
    if |sections| == 0 then []
    else
      SectionsMembers(variant, paths, basePath, kind, sections[..|sections| - 1])
        + MembersOf(variant, paths, basePath, kind, sections[|sections| - 1].members)
  }

  /** `r`'s four lists are `cls`'s, each followed by the given additions. */
  predicate Extends(r: ClassData, cls: ClassData, ms: seq<Method>, vs: seq<Variable>, ts: seq<Member>, es: seq<Member>) {
    r.methods == cls.methods + ms && r.variables == cls.variables + vs
    && r.typedefs == cls.typedefs + ts && r.enums == cls.enums + es
  }

  /** Appending `n` after a list that extends `base` by `xs` extends it by
      `xs + n`. */
  lemma AppendStep<T>(l: seq<T>, base: seq<T>, xs: seq<T>, n: seq<T>)
    requires l == base + xs
    ensures l + n == base + (xs + n)
  {
  }

  /** Filing one more memberdef onto a class that extends `cls` extends
      each addition by what that memberdef becomes. */
  lemma ExtendsStep(
    variant: Variant, paths: PathOps, basePath: string, cls: ClassData, prev: ClassData,
    ms: seq<Method>, vs: seq<Variable>, ts: seq<Member>, es: seq<Member>, m: MemberDef)
    requires MemberReadable(variant, m)
    requires prev.name == cls.name && Extends(prev, cls, ms, vs, ts, es)
    ensures Extends(FileMember(variant, paths, basePath, prev, m), cls,
      ms + NewMethods(variant, paths, basePath, cls.name, m),
      vs + NewVariables(variant, paths, basePath, m),
      ts + NewMembers(variant, paths, basePath, "typedef", m),
      es + NewMembers(variant, paths, basePath, "enum", m))
  {
    var r := FileMember(variant, paths, basePath, prev, m);
    var nm := NewMethods(variant, paths, basePath, cls.name, m);
    var nv := NewVariables(variant, paths, basePath, m);
    var nt := NewMembers(variant, paths, basePath, "typedef", m);
    var ne := NewMembers(variant, paths, basePath, "enum", m);
    assert r.methods == prev.methods + nm;
    assert r.variables == prev.variables + nv;
    assert r.typedefs == prev.typedefs + nt;
    assert r.enums == prev.enums + ne;
    AppendStep(prev.methods, cls.methods, ms, nm);
    AppendStep(prev.variables, cls.variables, vs, nv);
    AppendStep(prev.typedefs, cls.typedefs, ts, nt);
    AppendStep(prev.enums, cls.enums, es, ne);
  }

  /** Extending `cls` and then the result extends `cls` by both additions. */
  lemma ExtendsTrans(
    r: ClassData, prev: ClassData, cls: ClassData,
    ms: seq<Method>, vs: seq<Variable>, ts: seq<Member>, es: seq<Member>,
    ms': seq<Method>, vs': seq<Variable>, ts': seq<Member>, es': seq<Member>)
    requires Extends(prev, cls, ms, vs, ts, es) && Extends(r, prev, ms', vs', ts', es')
    ensures Extends(r, cls, ms + ms', vs + vs', ts + ts', es + es')
  {
    AppendStep(prev.methods, cls.methods, ms, ms');
    AppendStep(prev.variables, cls.variables, vs, vs');
    AppendStep(prev.typedefs, cls.typedefs, ts, ts');
    AppendStep(prev.enums, cls.enums, es, es');
  }

  /** The methods of a section are those of all its memberdefs but the
      last, then the last one's. */
  lemma MethodsSnoc(variant: Variant, paths: PathOps, basePath: string, className: string, ms: seq<MemberDef>)
    requires MembersReadable(variant, ms) && |ms| > 0
    ensures MembersReadable(variant, ms[..|ms| - 1])
    ensures MethodsOf(variant, paths, basePath, className, ms)
         == MethodsOf(variant, paths, basePath, className, ms[..|ms| - 1])
          + NewMethods(variant, paths, basePath, className, ms[|ms| - 1])
  {
    var init := ms[..|ms| - 1];
    assert forall i :: 0 <= i < |init| ==> init[i] == ms[i];
  }

  /** A function memberdef of a section makes the one method that follows
      those of the functions before it. */
  lemma {:induction false} MethodAt(
    variant: Variant, paths: PathOps, basePath: string, className: string, ms: seq<MemberDef>, j: nat)
    requires MembersReadable(variant, ms) && j < |ms| && ms[j].kind == "function"
    ensures KindCount(ms[..j], "function") < |MethodsOf(variant, paths, basePath, className, ms)|
    ensures MethodsOf(variant, paths, basePath, className, ms)[KindCount(ms[..j], "function")]
         == NewMethods(variant, paths, basePath, className, ms[j])[0]
    decreases |ms|
  {
    var init := ms[..|ms| - 1];
    MethodsSnoc(variant, paths, basePath, className, ms);
    var head := MethodsOf(variant, paths, basePath, className, init);
    var added := NewMethods(variant, paths, basePath, className, ms[|ms| - 1]);
    if j == |ms| - 1 {
      assert ms[..j] == init;
      ConcatAt(head, added, KindCount(init, "function"), 0);
    } else {
      var at := KindCount(ms[..j], "function");
      assert init[..j] == ms[..j];
      assert init[j] == ms[j];
      MethodAt(variant, paths, basePath, className, init, j);
      ConcatHeadAt(head, added, at);
    }
  }

  /** The fields of a class record other than its four member lists. */
  predicate SameHeader(a: ClassData, b: ClassData) {
    a.contributor == b.contributor && a.name == b.name && a.base == b.base
    && a.description == b.description && a.location == b.location
  }

  /** Filing a section adds one record per memberdef of a known kind. */
  lemma {:induction false} FileMembersCount(
    variant: Variant, paths: PathOps, basePath: string, cls: ClassData, ms: seq<MemberDef>)
    requires MembersReadable(variant, ms)
    ensures RecordCount(FileMembers(variant, paths, basePath, cls, ms)) == RecordCount(cls) + CountRecognised(ms)
    decreases |ms|
  {
    if |ms| > 0 {
      var init := ms[..|ms| - 1];
      assert forall i :: 0 <= i < |init| ==> init[i] == ms[i];
      FileMembersCount(variant, paths, basePath, cls, init);
    }
  }

  /** Every section filed in document order. */
  function FileSections(variant: Variant, paths: PathOps, basePath: string, cls: ClassData, sections: seq<Section>): (r: ClassData)
    requires AllSectionsReadable(variant, sections)
    ensures SameHeader(r, cls)
    decreases |sections|
  {
    if |sections| == 0 then cls
    else
      InitSectionsReadable(variant, sections);
      FileMembers(variant, paths, basePath,
        FileSections(variant, paths, basePath, cls, sections[..|sections| - 1]), sections[|sections| - 1].members)
  }

  /** Filing every section appends to each list of the class the records of
      its kind, section by section in document order. */
  lemma {:induction false} FileSectionsLists(
    variant: Variant, paths: PathOps, basePath: string, cls: ClassData, sections: seq<Section>)
    requires AllSectionsReadable(variant, sections)
    ensures Extends(FileSections(variant, paths, basePath, cls, sections), cls,
      SectionsMethods(variant, paths, basePath, cls.name, sections),
      SectionsVariables(variant, paths, basePath, sections),
      SectionsMembers(variant, paths, basePath, "typedef", sections),
      SectionsMembers(variant, paths, basePath, "enum", sections))
    decreases |sections|
  {
    if |sections| == 0 {
      assert Extends(cls, cls, [], [], [], []);
    } else {
      var init := sections[..|sections| - 1];
      var ms := sections[|sections| - 1].members;
      InitSectionsReadable(variant, sections);
      FileSectionsLists(variant, paths, basePath, cls, init);
      var prev := FileSections(variant, paths, basePath, cls, init);
      FileMembersLists(variant, paths, basePath, prev, ms);
      ExtendsTrans(FileMembers(variant, paths, basePath, prev, ms), prev, cls,
        SectionsMethods(variant, paths, basePath, cls.name, init),
        SectionsVariables(variant, paths, basePath, init),
        SectionsMembers(variant, paths, basePath, "typedef", init),
        SectionsMembers(variant, paths, basePath, "enum", init),
        MethodsOf(variant, paths, basePath, cls.name, ms),
        VariablesOf(variant, paths, basePath, ms),
        MembersOf(variant, paths, basePath, "typedef", ms),
        MembersOf(variant, paths, basePath, "enum", ms));
    }
  }

  /** The class record of one compound: its name, base, descriptions and
      location, then its members filed by kind. The legacy script also
      copies the contributor tag of the tree the compound was read from. */
  function BuildClass(variant: Variant, paths: PathOps, basePath: string, c: Compound): (r: Built<ClassData>)
    ensures r.Ok? <==> SectionsReadable(variant, c.sections)
    ensures |c.sections| == 0 ==> r == Err(NoSections)
    ensures r.Ok? ==> r.value.name == c.compoundName && r.value.base == c.baseRef
    ensures r.Ok? ==> r.value.contributor == (if variant == Legacy then c.contributor else None)
    ensures r.Ok? ==> r.value.description == ParseDescriptions(c.brief, c.detailed)
    ensures r.Ok? ==> r.value.location == BuildLocation(paths, basePath, c.location)
    ensures r.Ok? ==> r.value.methods == SectionsMethods(variant, paths, basePath, c.compoundName, c.sections)
    ensures r.Ok? ==> r.value.variables == SectionsVariables(variant, paths, basePath, c.sections)
    ensures r.Ok? ==> r.value.typedefs == SectionsMembers(variant, paths, basePath, "typedef", c.sections)
    ensures r.Ok? ==> r.value.enums == SectionsMembers(variant, paths, basePath, "enum", c.sections)
  {
    if !SectionsReadable(variant, c.sections) then Err(SectionsMissing(variant, c.sections))
    else
      var start := ClassData(
        if variant == Legacy then c.contributor else None,
        c.compoundName,
        c.baseRef,
        DescriptionsFor(variant, c.brief, c.detailed),
        BuildLocation(paths, basePath, c.location),
        [], [], [], []);
      FileSectionsLists(variant, paths, basePath, start, c.sections);
      Ok(FileSections(variant, paths, basePath, start, c.sections))
  }

  /** Every compound of `data` built, in key order, with its compound name;
      one failure fails them all. */
  function BuildClasses(variant: Variant, paths: PathOps, basePath: string, compounds: seq<Compound>): (r: Built<seq<(string, ClassData)>>)
    ensures r.Ok? <==> forall i :: 0 <= i < |compounds| ==> SectionsReadable(variant, compounds[i].sections)
    ensures r.Ok? ==> |r.value| == |compounds|
    ensures r.Ok? ==> forall i :: 0 <= i < |compounds| ==>
      r.value[i] == (compounds[i].compoundName, BuildClass(variant, paths, basePath, compounds[i]).value)
  {
    if forall i :: 0 <= i < |compounds| ==> SectionsReadable(variant, compounds[i].sections) then
      Ok(seq(|compounds|, i requires 0 <= i < |compounds| =>
        (compounds[i].compoundName, BuildClass(variant, paths, basePath, compounds[i]).value)))
    else Err(FirstClassMissing(variant, compounds))
  }

  /** What the first unreadable compound lacks. */
  function FirstClassMissing(variant: Variant, compounds: seq<Compound>): Missing
    requires exists i :: 0 <= i < |compounds| && !SectionsReadable(variant, compounds[i].sections)
  {
    if !SectionsReadable(variant, compounds[0].sections) then SectionsMissing(variant, compounds[0].sections)
    else
      var k :| 0 <= k < |compounds| && !SectionsReadable(variant, compounds[k].sections);
      assert compounds[1..][k - 1] == compounds[k];
      FirstClassMissing(variant, compounds[1..])
  }

  /** `processClassesData`: the classes of a root, keyed by compound name. */
  function ProcessClasses(variant: Variant, paths: PathOps, basePath: string, data: OrderedMap<Compound>): (r: Built<ClassMap>)
    ensures r.Ok? ==> DistinctKeys(r.value)
    ensures r.Ok? <==> forall i :: 0 <= i < |data| ==> BuildClass(variant, paths, basePath, data[i].1).Ok?
  {
    var compounds := Values(data);
    match BuildClasses(variant, paths, basePath, compounds)
    case Err(e) => Err(e)
    case Ok(entries) => Ok(PutAll([], entries))
  }

  /** The position of the last compound named `name`. */
  function LastNamed(compounds: seq<Compound>, name: string): (r: Option<nat>)
    ensures r.Some? ==> r.value < |compounds| && compounds[r.value].compoundName == name
    ensures r.Some? ==> forall j :: r.value < j < |compounds| ==> compounds[j].compoundName != name
    ensures r.None? ==> forall j :: 0 <= j < |compounds| ==> compounds[j].compoundName != name
  {
    if |compounds| == 0 then None
    else if compounds[|compounds| - 1].compoundName == name then Some(|compounds| - 1)
    else LastNamed(compounds[..|compounds| - 1], name)
  }

  /** Two compounds with the same name (a class split over several
      documents) do not merge: the record of the one read LAST is kept. A
      name no compound carries has no record. */
  lemma ClassesKeyedByName(variant: Variant, paths: PathOps, basePath: string, data: OrderedMap<Compound>, name: string)
    requires ProcessClasses(variant, paths, basePath, data).Ok?
    ensures var r := ProcessClasses(variant, paths, basePath, data).value;
            var compounds := Values(data);
            Get(r, name) ==
              match LastNamed(compounds, name)
              case None => None
              case Some(j) => Some(BuildClass(variant, paths, basePath, compounds[j]).value)
  {
    var compounds := Values(data);
    var entries := BuildClasses(variant, paths, basePath, compounds).value;
    PutAllLastWins([], entries, name);
    var empty: ClassMap := [];
    assert Find(empty, name) == None;
    LastNamedIsLastKey(compounds, entries, name);
  }

  lemma LastNamedIsLastKey<V>(compounds: seq<Compound>, entries: seq<(string, V)>, name: string)
    requires |entries| == |compounds|
    requires forall i :: 0 <= i < |compounds| ==> entries[i].0 == compounds[i].compoundName
    ensures LastNamed(compounds, name) == LastWithKey(entries, name)
  {
    var a := LastNamed(compounds, name);
    var b := LastWithKey(entries, name);
    if a.Some? && b.Some? && a.value != b.value {
      assert false;
    }
  }

  // ---------------------------------------------------------------------
  // The two copies of the class builder
  // ---------------------------------------------------------------------

  /** A class record without what only one copy of the builder records:
      the contributor tag, variable types and parameter descriptions. */
  function EraseParameters(ps: seq<Parameter>): (r: seq<Parameter>)
    ensures |r| == |ps|
    ensures forall i :: 0 <= i < |ps| ==> r[i] == ps[i].(description := Undefined)
  {
    seq(|ps|, i requires 0 <= i < |ps| => ps[i].(description := Undefined))
  }

  function EraseMethod(m: Method): Method {
    m.(parameters := EraseParameters(m.parameters))
  }

  function EraseMethods(ms: seq<Method>): (r: seq<Method>)
    ensures |r| == |ms|
    ensures forall i :: 0 <= i < |ms| ==> r[i] == EraseMethod(ms[i])
  {
    seq(|ms|, i requires 0 <= i < |ms| => EraseMethod(ms[i]))
  }

  function EraseVariables(vs: seq<Variable>): (r: seq<Variable>)
    ensures |r| == |vs|
    ensures forall i :: 0 <= i < |vs| ==> r[i] == vs[i].(varType := None)
  {
    seq(|vs|, i requires 0 <= i < |vs| => vs[i].(varType := None))
  }

  function EraseClass(c: ClassData): ClassData {
    c.(contributor := None, methods := EraseMethods(c.methods), variables := EraseVariables(c.variables))
  }

  /** The two copies name the parameters alike. */
  lemma ParametersAgree(className: string, includeThis: bool, cleaned: string, m: MemberDef)
    ensures EraseParameters(Parameters(Legacy, className, includeThis, cleaned, m))
         == EraseParameters(Parameters(Server, className, includeThis, cleaned, m))
  {
    var a := Parameters(Legacy, className, includeThis, cleaned, m);
    var b := Parameters(Server, className, includeThis, cleaned, m);
    var off := if includeThis then 1 else 0;
    forall i | 0 <= i < |a|
      ensures a[i].name == b[i].name
    {
      if i >= off {
        assert a[off + (i - off)].name == b[off + (i - off)].name;
      }
    }
  }

  /** The two copies build the same method, up to parameter descriptions. */
  lemma MethodsAgree(paths: PathOps, basePath: string, className: string, m: MemberDef)
    requires BuildMethod(Server, paths, basePath, className, m).Ok?
    ensures BuildMethod(Legacy, paths, basePath, className, m).Ok?
    ensures EraseMethod(BuildMethod(Legacy, paths, basePath, className, m).value)
         == EraseMethod(BuildMethod(Server, paths, basePath, className, m).value)
  {
    ParametersAgree(className, IncludesThis(m), CleanArgs(m.argsString.value), m);
  }

  lemma EraseMethodsAppend(ms: seq<Method>, m: Method)
    ensures EraseMethods(ms + [m]) == EraseMethods(ms) + [EraseMethod(m)]
  {
  }

  lemma EraseVariablesAppend(vs: seq<Variable>, v: Variable)
    ensures EraseVariables(vs + [v]) == EraseVariables(vs) + [v.(varType := None)]
  {
  }

  lemma FileMethodAgrees(
    paths: PathOps, basePath: string, legacy: ClassData, server: ClassData, m: MemberDef)
    requires m.kind == "function" && MemberReadable(Server, m)
    requires legacy.name == server.name && EraseClass(legacy) == EraseClass(server)
    ensures MemberReadable(Legacy, m)
    ensures EraseClass(FileMember(Legacy, paths, basePath, legacy, m))
         == EraseClass(FileMember(Server, paths, basePath, server, m))
  {
    MethodsAgree(paths, basePath, server.name, m);
    EraseMethodsAppend(legacy.methods, BuildMethod(Legacy, paths, basePath, legacy.name, m).value);
    EraseMethodsAppend(server.methods, BuildMethod(Server, paths, basePath, server.name, m).value);
  }

  lemma FileVariableAgrees(
    paths: PathOps, basePath: string, legacy: ClassData, server: ClassData, m: MemberDef)
    requires m.kind == "variable" && MemberReadable(Server, m)
    requires legacy.name == server.name && EraseClass(legacy) == EraseClass(server)
    ensures MemberReadable(Legacy, m)
    ensures EraseClass(FileMember(Legacy, paths, basePath, legacy, m))
         == EraseClass(FileMember(Server, paths, basePath, server, m))
  {
    EraseVariablesAppend(legacy.variables, BuildVariable(Legacy, paths, basePath, m).value);
    EraseVariablesAppend(server.variables, BuildVariable(Server, paths, basePath, m).value);
  }

  lemma FileMemberAgrees(
    paths: PathOps, basePath: string, legacy: ClassData, server: ClassData, m: MemberDef)
    requires MemberReadable(Server, m)
    requires legacy.name == server.name && EraseClass(legacy) == EraseClass(server)
    ensures MemberReadable(Legacy, m)
    ensures var l := FileMember(Legacy, paths, basePath, legacy, m);
            var s := FileMember(Server, paths, basePath, server, m);
            l.name == s.name && EraseClass(l) == EraseClass(s)
  {
    if m.kind == "function" {
      FileMethodAgrees(paths, basePath, legacy, server, m);
    } else if m.kind == "variable" {
      FileVariableAgrees(paths, basePath, legacy, server, m);
    }
  }

  lemma {:induction false} FileMembersAgree(
    paths: PathOps, basePath: string, legacy: ClassData, server: ClassData, ms: seq<MemberDef>)
    requires MembersReadable(Server, ms)
    requires legacy.name == server.name && EraseClass(legacy) == EraseClass(server)
    ensures MembersReadable(Legacy, ms)
    ensures var l := FileMembers(Legacy, paths, basePath, legacy, ms);
            var s := FileMembers(Server, paths, basePath, server, ms);
            l.name == s.name && EraseClass(l) == EraseClass(s)
    decreases |ms|
  {
    if |ms| > 0 {
      var init := ms[..|ms| - 1];
      assert forall i :: 0 <= i < |init| ==> init[i] == ms[i];
      FileMembersAgree(paths, basePath, legacy, server, init);
      FileMemberAgrees(paths, basePath,
        FileMembers(Legacy, paths, basePath, legacy, init),
        FileMembers(Server, paths, basePath, server, init), ms[|ms| - 1]);
    }
  }

  lemma {:induction false} FileSectionsAgree(
    paths: PathOps, basePath: string, legacy: ClassData, server: ClassData, sections: seq<Section>)
    requires forall i :: 0 <= i < |sections| ==> MembersReadable(Server, sections[i].members)
    requires legacy.name == server.name && EraseClass(legacy) == EraseClass(server)
    ensures forall i :: 0 <= i < |sections| ==> MembersReadable(Legacy, sections[i].members)
    ensures var l := FileSections(Legacy, paths, basePath, legacy, sections);
            var s := FileSections(Server, paths, basePath, server, sections);
            l.name == s.name && EraseClass(l) == EraseClass(s)
    decreases |sections|
  {
    forall i | 0 <= i < |sections|
      ensures MembersReadable(Legacy, sections[i].members)
    {
      var ms := sections[i].members;
      forall j | 0 <= j < |ms|
        ensures MemberReadable(Legacy, ms[j])
      {
        assert MemberReadable(Server, ms[j]);
      }
    }
    if |sections| > 0 {
      var init := sections[..|sections| - 1];
      assert forall i :: 0 <= i < |init| ==> init[i] == sections[i];
      FileSectionsAgree(paths, basePath, legacy, server, init);
      FileMembersAgree(paths, basePath,
        FileSections(Legacy, paths, basePath, legacy, init),
        FileSections(Server, paths, basePath, server, init), sections[|sections| - 1].members);
    }
  }

  /** Where the server's builder reads a compound, the legacy script reads
      it too, and the two class records differ only in the contributor
      tag, the variable types and the parameter descriptions. (The legacy
      script never reads a variable's type, so it also reads compounds the
      server's builder cannot.) */
  lemma LegacyMatchesServer(paths: PathOps, basePath: string, c: Compound)
    requires BuildClass(Server, paths, basePath, c).Ok?
    ensures BuildClass(Legacy, paths, basePath, c).Ok?
    ensures EraseClass(BuildClass(Legacy, paths, basePath, c).value)
         == EraseClass(BuildClass(Server, paths, basePath, c).value)
  {
    var startL := ClassData(c.contributor, c.compoundName, c.baseRef,
      DescriptionsFor(Legacy, c.brief, c.detailed), BuildLocation(paths, basePath, c.location), [], [], [], []);
    var startS := ClassData(None, c.compoundName, c.baseRef,
      DescriptionsFor(Server, c.brief, c.detailed), BuildLocation(paths, basePath, c.location), [], [], [], []);
    assert EraseClass(startL) == EraseClass(startS);
    FileSectionsAgree(paths, basePath, startL, startS, c.sections);
  }

  // ---------------------------------------------------------------------
  // Structs (server only)
  // ---------------------------------------------------------------------

  /** A struct attribute: its definition with the struct's qualification
      (` Name::`, first occurrence) replaced by a space. */
  function BuildAttribute(paths: PathOps, basePath: string, structName: string, m: MemberDef): (r: Built<StructAttribute>)
    ensures r.Ok? <==> m.definition.Some?
    ensures r.Ok? ==> r.value.name == m.name && r.value.description == ParseDescriptions(m.brief, m.detailed)
    ensures r.Ok? ==> r.value.location == BuildLocation(paths, basePath, m.location)
    ensures r.Ok? ==> r.value.definition == ReplaceFirst(m.definition.value, " " + structName + "::", " ")
  {
    match m.definition
    case None => Err(NoDefinition)
    case Some(d) =>
      Ok(StructAttribute(
        m.name,
        ReplaceFirst(d, " " + structName + "::", " "),
        ParseDescriptions(m.brief, m.detailed),
        BuildLocation(paths, basePath, m.location)))
  }

  /** `int Foo::bar` in struct `Foo` is shown as `int bar`. */
  lemma AttributeUnqualified(typeName: string, structName: string, attribute: string)
    requires ' ' !in typeName
    ensures ReplaceFirst(typeName + " " + structName + "::" + attribute, " " + structName + "::", " ")
            == typeName + " " + attribute
  {
    var s := typeName + " " + structName + "::" + attribute;
    var p := " " + structName + "::";
    assert s == typeName + p + attribute;
    assert OccursAt(s, p, |typeName|) by {
      assert s[|typeName|..|typeName| + |p|] == p;
    }
    forall k | 0 <= k < |typeName|
      ensures !OccursAt(s, p, k)
    {
      assert s[k] == typeName[k];
      if k + |p| <= |s| {
        assert s[k..k + |p|][0] == s[k];
      }
    }
    assert s[..|typeName|] == typeName;
    assert s[|typeName| + |p|..] == attribute;
  }

  predicate AllDefined(ms: seq<MemberDef>) {
    forall j :: 0 <= j < |ms| ==> ms[j].definition.Some?
  }

  /** A struct's attributes can be read when it has sections, each with
      memberdefs, all of which have a definition. */
  predicate StructReadable(sections: seq<Section>) {
    && |sections| > 0
    && forall i :: 0 <= i < |sections| ==>
         |sections[i].members| > 0 && AllDefined(sections[i].members)
  }

  /** Every memberdef of every section has a definition. */
  predicate SectionsDefined(sections: seq<Section>) {
    forall i :: 0 <= i < |sections| ==> AllDefined(sections[i].members)
  }

  /** The attributes of one section's memberdefs, in order. */
  function SectionAttributes(paths: PathOps, basePath: string, structName: string, ms: seq<MemberDef>): (r: seq<StructAttribute>)
    requires AllDefined(ms)
    ensures |r| == |ms|
  {
    seq(|ms|, j requires 0 <= j < |ms| => BuildAttribute(paths, basePath, structName, ms[j]).value)
  }

  /** Memberdef `j` of a section becomes its attribute `j`. */
  lemma SectionAttributeAt(paths: PathOps, basePath: string, structName: string, ms: seq<MemberDef>, j: nat)
    requires AllDefined(ms) && j < |ms|
    ensures SectionAttributes(paths, basePath, structName, ms)[j] == BuildAttribute(paths, basePath, structName, ms[j]).value
  {
  }

  /** The attributes of the sections, in document order. */
  function AttributesOf(paths: PathOps, basePath: string, structName: string, sections: seq<Section>): (r: seq<StructAttribute>)
    requires SectionsDefined(sections)
    decreases |sections|
  {
    if |sections| == 0 then []
    else
      var init := sections[..|sections| - 1];
      assert forall i :: 0 <= i < |init| ==> init[i] == sections[i];
      AttributesOf(paths, basePath, structName, init)
        + SectionAttributes(paths, basePath, structName, sections[|sections| - 1].members)
  }

  /** Every memberdef of a readable struct becomes one attribute. */
  lemma {:induction false} AttributeCount(paths: PathOps, basePath: string, structName: string, sections: seq<Section>)
    requires SectionsDefined(sections)
    ensures |AttributesOf(paths, basePath, structName, sections)| == MemberCount(sections)
    decreases |sections|
  {
    if |sections| > 0 {
      var init := sections[..|sections| - 1];
      assert forall i :: 0 <= i < |init| ==> init[i] == sections[i];
      AttributeCount(paths, basePath, structName, init);
    }
  }

  /** Attribute `j` of section `k` comes right after the attributes of the
      sections before it: every memberdef becomes its own attribute, in
      document order. */
  lemma AttributesAt(paths: PathOps, basePath: string, structName: string, sections: seq<Section>, k: nat, j: nat)
    requires SectionsDefined(sections)
    requires k < |sections| && j < |sections[k].members|
    ensures MemberCount(sections[..k]) + j < |AttributesOf(paths, basePath, structName, sections)|
    ensures AttributesOf(paths, basePath, structName, sections)[MemberCount(sections[..k]) + j]
         == BuildAttribute(paths, basePath, structName, sections[k].members[j]).value
  {
    var upTo := sections[..k + 1];
    AttributesPrefix(paths, basePath, structName, sections, k + 1);
    assert upTo[..k] == sections[..k];
    assert upTo[k] == sections[k];
    AttributesOfLast(paths, basePath, structName, upTo, k, j);
    SectionAttributeAt(paths, basePath, structName, sections[k].members, j);
  }

  /** The attributes of the first `m` sections are a prefix of those of all
      sections. */
  lemma {:induction false} AttributesPrefix(paths: PathOps, basePath: string, structName: string, sections: seq<Section>, m: nat)
    requires SectionsDefined(sections) && m <= |sections|
    ensures SectionsDefined(sections[..m])
    ensures AttributesOf(paths, basePath, structName, sections[..m]) <= AttributesOf(paths, basePath, structName, sections)
    decreases |sections| - m
  {
    var pre := sections[..m];
    assert forall i :: 0 <= i < |pre| ==> pre[i] == sections[i];
    if m < |sections| {
      var next := sections[..m + 1];
      AttributesPrefix(paths, basePath, structName, sections, m + 1);
      assert next[..|next| - 1] == pre;
      AttributesSnoc(paths, basePath, structName, next);
    } else {
      assert pre == sections;
    }
  }

  /** The attributes of the last section follow those of the others. */
  lemma AttributesOfLast(paths: PathOps, basePath: string, structName: string, sections: seq<Section>, k: nat, j: nat)
    requires SectionsDefined(sections)
    requires k == |sections| - 1 && j < |sections[k].members|
    ensures MemberCount(sections[..k]) + j < |AttributesOf(paths, basePath, structName, sections)|
    ensures AttributesOf(paths, basePath, structName, sections)[MemberCount(sections[..k]) + j]
         == SectionAttributes(paths, basePath, structName, sections[k].members)[j]
  {
    var init := sections[..k];
    AttributesSnoc(paths, basePath, structName, sections);
    AttributeCount(paths, basePath, structName, init);
    ConcatPick(AttributesOf(paths, basePath, structName, sections),
               AttributesOf(paths, basePath, structName, init),
               SectionAttributes(paths, basePath, structName, sections[k].members),
               MemberCount(init), j);
  }

  lemma InitDefined(sections: seq<Section>)
    requires SectionsDefined(sections) && |sections| > 0
    ensures SectionsDefined(sections[..|sections| - 1])
  {
    var init := sections[..|sections| - 1];
    assert forall i :: 0 <= i < |init| ==> init[i] == sections[i];
  }

  /** The attributes of a struct are those of all sections but the last,
      then those of the last. */
  lemma AttributesSnoc(paths: PathOps, basePath: string, structName: string, sections: seq<Section>)
    requires SectionsDefined(sections) && |sections| > 0
    ensures SectionsDefined(sections[..|sections| - 1])
    ensures AttributesOf(paths, basePath, structName, sections)
         == AttributesOf(paths, basePath, structName, sections[..|sections| - 1])
          + SectionAttributes(paths, basePath, structName, sections[|sections| - 1].members)
  {
    InitDefined(sections);
  }

  function MemberCount(sections: seq<Section>): nat {
    if |sections| == 0 then 0
    else MemberCount(sections[..|sections| - 1]) + |sections[|sections| - 1].members|
  }

  function BuildStruct(paths: PathOps, basePath: string, c: Compound): (r: Built<StructData>)
    ensures r.Ok? <==> StructReadable(c.sections)
    ensures |c.sections| == 0 ==> r == Err(NoSections)
    ensures r.Ok? ==> r.value.name == c.compoundName
    ensures r.Ok? ==> r.value.description == ParseDescriptions(c.brief, c.detailed)
    ensures r.Ok? ==> r.value.location == BuildLocation(paths, basePath, c.location)
    ensures r.Ok? ==> |r.value.attributes| == MemberCount(c.sections)
    ensures r.Ok? ==> r.value.attributes == AttributesOf(paths, basePath, c.compoundName, c.sections)
  {
    if |c.sections| == 0 then Err(NoSections)
    else if exists i :: 0 <= i < |c.sections| && |c.sections[i].members| == 0 then Err(NoMembers)
    else if !StructReadable(c.sections) then Err(NoDefinition)
    else
      AttributeCount(paths, basePath, c.compoundName, c.sections);
      Ok(StructData(
        c.compoundName,
        ParseDescriptions(c.brief, c.detailed),
        BuildLocation(paths, basePath, c.location),
        AttributesOf(paths, basePath, c.compoundName, c.sections)))
  }

  /** Attribute `j` of section `k` of a struct that builds is the attribute
      built from the `j`-th memberdef of that section, at the position
      after the memberdefs of the earlier sections. */
  lemma StructAttributeAt(paths: PathOps, basePath: string, c: Compound, k: nat, j: nat)
    requires BuildStruct(paths, basePath, c).Ok?
    requires k < |c.sections| && j < |c.sections[k].members|
    ensures var attrs := BuildStruct(paths, basePath, c).value.attributes;
            && MemberCount(c.sections[..k]) + j < |attrs|
            && BuildAttribute(paths, basePath, c.compoundName, c.sections[k].members[j]).Ok?
            && attrs[MemberCount(c.sections[..k]) + j]
               == BuildAttribute(paths, basePath, c.compoundName, c.sections[k].members[j]).value
  {
    AttributesAt(paths, basePath, c.compoundName, c.sections, k, j);
  }

  function BuildStructs(paths: PathOps, basePath: string, compounds: seq<Compound>): (r: Built<seq<(string, StructData)>>)
    ensures r.Ok? <==> forall i :: 0 <= i < |compounds| ==> StructReadable(compounds[i].sections)
    ensures r.Ok? ==> |r.value| == |compounds|
    ensures r.Ok? ==> forall i :: 0 <= i < |compounds| ==>
      r.value[i] == (compounds[i].compoundName, BuildStruct(paths, basePath, compounds[i]).value)
  {
    if forall i :: 0 <= i < |compounds| ==> StructReadable(compounds[i].sections) then
      Ok(seq(|compounds|, i requires 0 <= i < |compounds| =>
        (compounds[i].compoundName, BuildStruct(paths, basePath, compounds[i]).value)))
    else Err(FirstStructMissing(compounds))
  }

  /** What the first unreadable struct lacks. */
  function FirstStructMissing(compounds: seq<Compound>): Missing
    requires exists i :: 0 <= i < |compounds| && !StructReadable(compounds[i].sections)
  {
    if !StructReadable(compounds[0].sections) then
      (if |compounds[0].sections| == 0 then NoSections
       else if exists i :: 0 <= i < |compounds[0].sections| && |compounds[0].sections[i].members| == 0 then NoMembers
       else NoDefinition)
    else
      var k :| 0 <= k < |compounds| && !StructReadable(compounds[k].sections);
      assert compounds[1..][k - 1] == compounds[k];
      FirstStructMissing(compounds[1..])
  }

  /** `processStructsData`: the structs of a root, keyed by compound name. */
  function ProcessStructs(paths: PathOps, basePath: string, data: OrderedMap<Compound>): (r: Built<StructMap>)
    ensures r.Ok? ==> DistinctKeys(r.value)
    ensures r.Ok? <==> forall i :: 0 <= i < |data| ==> BuildStruct(paths, basePath, data[i].1).Ok?
  {
    match BuildStructs(paths, basePath, Values(data))
    case Err(e) => Err(e)
    case Ok(entries) => Ok(PutAll([], entries))
  }

  /** Struct compounds sharing a name do not merge either: the record of
      the one read last is kept, and a name no struct carries has none. */
  lemma StructsKeyedByName(paths: PathOps, basePath: string, data: OrderedMap<Compound>, name: string)
    requires ProcessStructs(paths, basePath, data).Ok?
    ensures var r := ProcessStructs(paths, basePath, data).value;
            var compounds := Values(data);
            Get(r, name) ==
              match LastNamed(compounds, name)
              case None => None
              case Some(j) => Some(BuildStruct(paths, basePath, compounds[j]).value)
  {
    var compounds := Values(data);
    var entries := BuildStructs(paths, basePath, compounds).value;
    PutAllLastWins([], entries, name);
    var empty: StructMap := [];
    assert Find(empty, name) == None;
    LastNamedIsLastKey(compounds, entries, name);
  }

  // ---------------------------------------------------------------------
  // Reading the extractor's output directory
  // ---------------------------------------------------------------------

  /** The files of the output directory whose names start with `prefix`,
      in directory order. */
  function Prefixed(files: seq<(string, Compound)>, prefix: string): (r: seq<(string, Compound)>)
    ensures forall f :: f in r <==> f in files && StartsWith(f.0, prefix)
    decreases |files|
  {
    if |files| == 0 then []
    else
      var init := files[..|files| - 1];
      var f := files[|files| - 1];
      assert forall x :: x in files <==> x in init || x == f;
      Prefixed(init, prefix) + (if StartsWith(f.0, prefix) then [f] else [])
  }

  lemma {:induction false} PrefixedKeepsOrder(files: seq<(string, Compound)>, prefix: string)
    ensures SubsequenceOf(Prefixed(files, prefix), files)
    decreases |files|
  {
    if |files| > 0 {
      var init := files[..|files| - 1];
      var f := files[|files| - 1];
      var kept := Prefixed(init, prefix);
      PrefixedKeepsOrder(init, prefix);
      assert init + [f] == files;
      if StartsWith(f.0, prefix) {
        SubsequenceAppendBoth(kept, init, f);
      } else {
        assert Prefixed(files, prefix) == kept;
        SubsequenceExtend(kept, init, f);
      }
    }
  }

  /** The compounds of the files whose names start with `prefix`, one per
      such file and in directory order, each keyed by its id and tagged
      with `contributor` (the legacy script's `__contributor`) when one is
      given. */
  function Selected(files: seq<(string, Compound)>, prefix: string, contributor: Option<string>): (r: seq<(string, Compound)>)
    ensures |r| <= |files|
    ensures |r| == |Prefixed(files, prefix)|
    ensures forall i :: 0 <= i < |r| ==> r[i] == Tagged(Prefixed(files, prefix)[i].1, contributor)
    ensures forall e :: e in r ==>
      exists i :: 0 <= i < |files| && StartsWith(files[i].0, prefix) && e == Tagged(files[i].1, contributor)
    decreases |files|
  {
    if |files| == 0 then []
    else
      var rest := Selected(files[..|files| - 1], prefix, contributor);
      var f := files[|files| - 1];
      assert forall i :: 0 <= i < |files| - 1 ==> files[..|files| - 1][i] == files[i];
      if StartsWith(f.0, prefix) then rest + [Tagged(f.1, contributor)] else rest
  }

  function Tagged(c: Compound, contributor: Option<string>): (e: (string, Compound))
    ensures e.0 == c.id
  {
    (c.id, if contributor.Some? then c.(contributor := contributor) else c)
  }

  /** `findInPath`: the selected compounds keyed by their id, a later file
      with the same id replacing an earlier one. Every id of a file with
      the prefix is a key, and only those are. */
  function FindInPath(files: seq<(string, Compound)>, prefix: string, contributor: Option<string>): (r: OrderedMap<Compound>)
    ensures DistinctKeys(r)
    ensures forall id :: Get(r, id).Some? <==>
      exists i :: 0 <= i < |files| && StartsWith(files[i].0, prefix) && files[i].1.id == id
  {
    var r := PutAll([], Selected(files, prefix, contributor));
    forall id
      ensures Get(r, id).Some? <==>
        exists i :: 0 <= i < |files| && StartsWith(files[i].0, prefix) && files[i].1.id == id
    {
      FoundIffPrefixed(files, prefix, contributor, id);
    }
    r
  }

  /** A key is found exactly when some file with the prefix holds a
      compound with that id. */
  lemma FoundIffPrefixed(files: seq<(string, Compound)>, prefix: string, contributor: Option<string>, id: string)
    ensures Get(PutAll([], Selected(files, prefix, contributor)), id).Some? <==>
      exists i :: 0 <= i < |files| && StartsWith(files[i].0, prefix) && files[i].1.id == id
  {
    var sel := Selected(files, prefix, contributor);
    PutAllLastWins([], sel, id);
    var empty: OrderedMap<Compound> := [];
    assert Find(empty, id) == None;
    if exists i :: 0 <= i < |files| && StartsWith(files[i].0, prefix) && files[i].1.id == id {
      var i :| 0 <= i < |files| && StartsWith(files[i].0, prefix) && files[i].1.id == id;
      PrefixedIdSelected(files, prefix, contributor, i);
    }
    if LastWithKey(sel, id).Some? {
      SelectedIdPrefixed(files, prefix, contributor, LastWithKey(sel, id).value);
    }
  }

  /** The id of a file with the prefix is a key of the selected entries. */
  lemma PrefixedIdSelected(files: seq<(string, Compound)>, prefix: string, contributor: Option<string>, i: nat)
    requires i < |files| && StartsWith(files[i].0, prefix)
    ensures LastWithKey(Selected(files, prefix, contributor), files[i].1.id).Some?
  {
    var sel := Selected(files, prefix, contributor);
    var ps := Prefixed(files, prefix);
    SelectedKeys(files, prefix, contributor);
    assert files[i] in ps;
    var j :| 0 <= j < |ps| && ps[j] == files[i];
    assert sel[j].0 == files[i].1.id;
  }

  /** Every key of the selected entries is the id of a file with the
      prefix. */
  lemma SelectedIdPrefixed(files: seq<(string, Compound)>, prefix: string, contributor: Option<string>, j: nat)
    requires j < |Selected(files, prefix, contributor)|
    ensures exists i :: 0 <= i < |files| && StartsWith(files[i].0, prefix)
                        && files[i].1.id == Selected(files, prefix, contributor)[j].0
  {
    var sel := Selected(files, prefix, contributor);
    var ps := Prefixed(files, prefix);
    SelectedKeys(files, prefix, contributor);
    assert ps[j] in ps;
    var i :| 0 <= i < |files| && files[i] == ps[j];
    assert StartsWith(files[i].0, prefix) && files[i].1.id == sel[j].0;
  }

  /** Each id holds the compound of the LAST file with the prefix that has
      that id, tagged; no id without such a file is found. */
  lemma FindInPathLastWins(files: seq<(string, Compound)>, prefix: string, contributor: Option<string>, id: string)
    ensures var ps := Prefixed(files, prefix);
            var c := Get(FindInPath(files, prefix, contributor), id);
            && (c.None? <==> forall j :: 0 <= j < |ps| ==> ps[j].1.id != id)
            && (c.Some? ==> exists j :: LastIdAt(ps, id, j) && c.value == Tagged(ps[j].1, contributor).1)
  {
    var sel := Selected(files, prefix, contributor);
    var ps := Prefixed(files, prefix);
    SelectedKeys(files, prefix, contributor);
    PutAllLastWins([], sel, id);
    var empty: OrderedMap<Compound> := [];
    assert Find(empty, id) == None;
    if LastWithKey(sel, id).Some? {
      var j := LastWithKey(sel, id).value;
      assert LastIdAt(ps, id, j);
    }
  }

  /** The file at `j` is the last one with a compound of this id. */
  predicate LastIdAt(ps: seq<(string, Compound)>, id: string, j: int) {
    && 0 <= j < |ps| && ps[j].1.id == id
    && forall j' :: j < j' < |ps| ==> ps[j'].1.id != id
  }

  /** The keys of the selected entries are the ids of the prefixed files. */
  lemma SelectedKeys(files: seq<(string, Compound)>, prefix: string, contributor: Option<string>)
    ensures var sel := Selected(files, prefix, contributor);
            var ps := Prefixed(files, prefix);
            |sel| == |ps| && forall j :: 0 <= j < |ps| ==> sel[j].0 == ps[j].1.id
  {
  }

  /** A compound is found exactly when a file with the prefix holds it;
      what is found is stored under its own id and carries the contributor
      tag when one is given. */
  lemma FoundCompoundsSelected(files: seq<(string, Compound)>, prefix: string, contributor: Option<string>, id: string)
    ensures Get(FindInPath(files, prefix, contributor), id).Some? <==>
      exists i :: 0 <= i < |files| && StartsWith(files[i].0, prefix) && files[i].1.id == id
    ensures Get(FindInPath(files, prefix, contributor), id).Some? ==>
            var c := Get(FindInPath(files, prefix, contributor), id).value;
            && c.id == id
            && (contributor.Some? ==> c.contributor == contributor)
  {
    var sel := Selected(files, prefix, contributor);
    PutAllLastWins([], sel, id);
    var empty: OrderedMap<Compound> := [];
    assert Find(empty, id) == None;
    if LastWithKey(sel, id).Some? {
      var j := LastWithKey(sel, id).value;
      assert sel[j] in sel;
    }
  }

  /** `processData` of the legacy script: the `class_` compounds of one
      tree, tagged with its contributor, built into class records. */
  function LegacyProcessData(paths: PathOps, basePath: string, files: seq<(string, Compound)>, contributor: string): (r: Built<ClassMap>)
    ensures r.Ok? ==> DistinctKeys(r.value)
    ensures r.Ok? ==> forall i :: 0 <= i < |r.value| ==> r.value[i].1.contributor == Some(contributor)
  {
    var data := FindInPath(files, "class_", Some(contributor));
    var r := ProcessClasses(Legacy, paths, basePath, data);
    if r.Ok? then
      forall i | 0 <= i < |r.value|
        ensures r.value[i].1.contributor == Some(contributor)
      {
        LegacyClassTagged(paths, basePath, files, contributor, r.value[i].0);
      }
      r
    else r
  }

  lemma LegacyClassTagged(paths: PathOps, basePath: string, files: seq<(string, Compound)>, contributor: string, name: string)
    requires ProcessClasses(Legacy, paths, basePath, FindInPath(files, "class_", Some(contributor))).Ok?
    ensures var r := ProcessClasses(Legacy, paths, basePath, FindInPath(files, "class_", Some(contributor))).value;
            forall i :: 0 <= i < |r| && r[i].0 == name ==> r[i].1.contributor == Some(contributor)
  {
    var data := FindInPath(files, "class_", Some(contributor));
    var r := ProcessClasses(Legacy, paths, basePath, data).value;
    ClassesKeyedByName(Legacy, paths, basePath, data, name);
    var compounds := Values(data);
    forall i | 0 <= i < |r| && r[i].0 == name
      ensures r[i].1.contributor == Some(contributor)
    {
      FindUnique(r, name, i);
      var j := LastNamed(compounds, name).value;
      FoundTagged(files, "class_", contributor, j);
      assert compounds[j] == data[j].1;
      assert r[i].1 == BuildClass(Legacy, paths, basePath, compounds[j]).value;
    }
  }

  /** Every compound the legacy script reads carries its tree's tag. */
  lemma FoundTagged(files: seq<(string, Compound)>, prefix: string, contributor: string, j: nat)
    requires j < |FindInPath(files, prefix, Some(contributor))|
    ensures FindInPath(files, prefix, Some(contributor))[j].1.contributor == Some(contributor)
  {
    var data := FindInPath(files, prefix, Some(contributor));
    FindUnique(data, data[j].0, j);
    FoundCompoundsSelected(files, prefix, Some(contributor), data[j].0);
  }


  /** The records of one workspace root; a failure in either half leaves
      the root without new records. */
  function BuildRoot(paths: PathOps, root: string, files: seq<(string, Compound)>): (r: Built<RootData>)
    ensures r.Ok? <==>
      ProcessClasses(Server, paths, root, FindInPath(files, "class_", None)).Ok? &&
      ProcessStructs(paths, root, FindInPath(files, "struct_", None)).Ok?
    ensures r.Ok? ==> DistinctKeys(r.value.classes) && DistinctKeys(r.value.structs)
  {
    match ProcessClasses(Server, paths, root, FindInPath(files, "class_", None))
    case Err(e) => Err(e)
    case Ok(classes) =>
      match ProcessStructs(paths, root, FindInPath(files, "struct_", None))
      case Err(e) => Err(e)
      case Ok(structs) => Ok(RootData(classes, structs))
  }
}
