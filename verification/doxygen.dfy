/** The extractor's per-compound XML document after compact XML-to-object
    conversion, reduced to the fields the builders read.

    The conversion turns a single child element into an object and several
    into an array; a `seq` stands for both (one element or several), and
    the empty `seq` for a missing element. Where the builders behave
    differently for an array, the length of the `seq` decides. */
module Doxygen {
  import opened Optional

  /** A `para` node: its text pieces, its `ref` children, and whether its
      first key is `_text` (text before the first reference). */
  datatype Para = Para(textFirst: bool, texts: seq<string>, refs: seq<string>)

  /** A description node; no `para` child is the empty sequence. */
  datatype Description = Description(paras: seq<Para>)

  /** The `location` attributes, with the line numbers already read as
      integers. */
  datatype LocationAttrs = LocationAttrs(
    file: string,
    line: int,
    column: int,
    bodyFile: Option<string>,
    bodyStart: int,
    bodyEnd: int)

  /** A `param` node's `declname` and `defname` texts. */
  datatype Param = Param(declName: Option<string>, defName: Option<string>)

  /** A `parameteritem`: the documented name and its description. */
  datatype ParamItem = ParamItem(name: Option<string>, description: Description)

  /** A `simplesect` node (`@return`, `@note`, ...). */
  datatype Simplesect = Simplesect(kind: Option<string>, body: Description)

  /** A `ref` child, with its text when it has one. */
  datatype RefNode = RefNode(text: Option<string>)

  /** A `type` node: its own text and its `ref` child, each when present. */
  datatype TypeNode = TypeNode(text: Option<string>, ref: Option<RefNode>)

  /** A `memberdef`. `paramItems` and `simplesects` are the nodes reached
      through `detaileddescription.para.parameterlist.parameteritem` and
      `detaileddescription.para.simplesect`; both are empty when that path
      does not exist. */
  datatype MemberDef = MemberDef(
    kind: string,
    prot: string,
    staticAttr: string,
    name: string,
    qualifiedName: string,
    location: LocationAttrs,
    brief: Description,
    detailed: Description,
    definition: Option<string>,
    typeNode: Option<TypeNode>,
    argsString: Option<string>,
    params: seq<Param>,
    paramItems: seq<ParamItem>,
    simplesects: seq<Simplesect>)

  datatype Section = Section(members: seq<MemberDef>)

  /** A `compounddef`. `contributor` is the `__contributor` tag the legacy
      reader adds to every tree it loads. */
  datatype Compound = Compound(
    contributor: Option<string>,
    id: string,
    compoundName: string,
    baseRef: Option<string>,
    location: LocationAttrs,
    brief: Description,
    detailed: Description,
    sections: seq<Section>)
}
