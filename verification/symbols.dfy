/** The symbol records the index holds (server/src/types.ts), extended with
    what the builder in server/src/parser.ts stores beyond those types:
    the parameter list of a method, the type of a variable, and structs
    with their attributes. */
module Symbols {
  import opened Optional
  import opened OrderedMaps

  /** The declaration site, as reported by the extractor. */
  datatype Header = Header(uri: string, line: int, column: int)

  /** The definition site, present only when the extractor reports a body
      file. */
  datatype Body = Body(uri: string, start: int, end: int)

  datatype Location = Location(header: Header, body: Option<Body>)

  /** Any named symbol owned by a class: typedefs and enums are stored as
      bare members, methods and variables extend them. */
  datatype Member = Member(
    name: string,
    qualifiedName: string,
    description: string,
    location: Location,
    prot: string,
    isStatic: bool)

  /** A parameter description. The server's builder always stores a
      string; the legacy script stores `undefined` when no doc entry
      matches and an empty array when the matching entry has no
      paragraph. */
  datatype DocValue = Undefined | EmptyArray | Text(text: string)

  /** One entry of a method's parameter list; the name is `undefined` when
      the argument list has no piece at the parameter's position. */
  datatype Parameter = Parameter(name: Option<string>, description: DocValue)

  datatype Method = Method(
    member: Member,
    definition: string,
    returnType: Option<string>,
    argsString: string,
    paramDocs: string,
    parameters: seq<Parameter>)

  /** The legacy script records no type for a variable. */
  datatype Variable = Variable(member: Member, varType: Option<string>)

  /** A class; `contributor` is the tag the legacy script copies from the
      tree it was read from (the server's builder sets none). */
  datatype ClassData = ClassData(
    contributor: Option<string>,
    name: string,
    base: Option<string>,
    description: string,
    location: Location,
    methods: seq<Method>,
    variables: seq<Variable>,
    enums: seq<Member>,
    typedefs: seq<Member>)

  datatype StructAttribute = StructAttribute(
    name: string,
    definition: string,
    description: string,
    location: Location)

  datatype StructData = StructData(
    name: string,
    description: string,
    location: Location,
    attributes: seq<StructAttribute>)

  type ClassMap = OrderedMap<ClassData>
  type StructMap = OrderedMap<StructData>

  /** What one workspace root contributes to the index. */
  datatype RootData = RootData(classes: ClassMap, structs: StructMap)

  /** The process-wide index: workspace root path to its classes and
      structs, in the order the roots were first indexed. */
  type Index = OrderedMap<RootData>
}

/** The path library calls the source makes (`path.relative`, `path.join`,
    `path.basename`), passed in uninterpreted. */
module Paths {
  datatype PathOps = PathOps(
    relative: (string, string) -> string,
    join: (string, string) -> string,
    basename: string -> string)
}

/** The Language Server Protocol basic structures the handlers return:
    zero-based `Position` and `Range` (section "Basic JSON Structures" of
    the Language Server Protocol 3.17). */
module Lsp {
  datatype Position = Position(line: int, character: int)
  datatype Range = Range(start: Position, end: Position)

  /** `a` is not after `b`. */
  predicate NotAfter(a: Position, b: Position) {
    a.line < b.line || (a.line == b.line && a.character <= b.character)
  }

  /** `inner` lies within `outer`, as a document symbol's selection range
      must lie within its range. */
  predicate Contains(outer: Range, inner: Range) {
    NotAfter(outer.start, inner.start) && NotAfter(inner.end, outer.end)
  }
}
