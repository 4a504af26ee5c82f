/** The signature-help handler of server/src/handlers/signatureHelp.ts:
    the method being called, the argument the cursor is in, and the first
    indexed method of that qualified name. */
module SignatureHelp {
  import opened Optional
  import opened Strings
  import opened OrderedMaps
  import opened Symbols
  import opened Documents
  import Lsp

  /** The position of the last `(` before the cursor, -1 when there is
      none. */
  function OpenParen(until: string): int {
    LastIndexOfChar(until, '(')
  }

  /** `slice(0, lastIndexOf("("))`: the text before the last `(`. With no
      `(` at all, `slice(0, -1)` drops the last character instead. */
  function CallHead(until: string): (head: string)
    ensures OpenParen(until) >= 0 ==> head == until[..OpenParen(until)]
    ensures OpenParen(until) < 0 ==> head == Slice(until, 0, -1)
  {
    Slice(until, 0, OpenParen(until))
  }

  /** The last whitespace-separated token before the last `(`. */
  function MethodName(until: string): (name: string)
    ensures var head := CallHead(until);
            EndsWith(head, name) &&
            (forall i :: 0 <= i < |name| ==> !IsSpace(name[i])) &&
            (|name| < |head| ==> IsSpace(head[|head| - |name| - 1]))
  {
    var head := CallHead(until);
    var name := TrailingRun(head, IsSpace);
    assert EndsWith(head, name);
    name
  }

  /** `split(",").length - 1` of the text from the last `(` on. With no
      `(` at all, `slice(-1)` keeps only the last character, so only a
      comma typed last counts. */
  function ActiveParameter(until: string): (n: nat)
    ensures var k := OpenParen(until);
            k >= 0 ==> n == CountChar(until[k..], ',')
    ensures OpenParen(until) < 0 ==>
            n == (if |until| > 0 && until[|until| - 1] == ',' then 1 else 0)
  {
    var k := OpenParen(until);
    var tail := Slice(until, k, |until|);
    assert k >= 0 ==> tail == until[k..|until|] == until[k..];
    assert k < 0 && |until| > 0 ==> tail == [until[|until| - 1]];
    SplitCount(tail, ',');
    |Split(tail, ',')| - 1
  }

  /** Typing a comma inside the call moves to the next argument; typing
      anything else keeps the argument. */
  lemma ActiveParameterAdvances(until: string, c: char)
    requires OpenParen(until) >= 0 && c != '('
    ensures ActiveParameter(until + [c]) == ActiveParameter(until) + (if c == ',' then 1 else 0)
  {
    var k := OpenParen(until);
    var s := until + [c];
    assert s[k] == '(';
    assert OpenParen(s) == k;
    assert s[k..] == until[k..] + [c];
    CountCharAppend(until[k..], [c], ',');
  }

  /** Every method of every class of every root, in index order, and
      nothing else. */
  function AllMethods(index: Index): (r: seq<Method>)
    ensures forall m :: m in r <==> exists k :: 0 <= k < |index| && m in ClassesMethods(Values(index[k].1.classes))
    decreases |index|
  {
    if |index| == 0 then []
    else
      var init := index[..|index| - 1];
      assert forall k :: 0 <= k < |init| ==> init[k] == index[k];
      AllMethods(init) + ClassesMethods(Values(index[|index| - 1].1.classes))
  }

  /** The methods of the classes, class by class, and nothing else. */
  function ClassesMethods(classes: seq<ClassData>): (r: seq<Method>)
    ensures forall m :: m in r <==> exists k :: 0 <= k < |classes| && m in classes[k].methods
    decreases |classes|
  {
    if |classes| == 0 then []
    else
      var init := classes[..|classes| - 1];
      assert forall k :: 0 <= k < |init| ==> init[k] == classes[k];
      ClassesMethods(init) + classes[|classes| - 1].methods
  }

  /** The first method with the qualified name: once a result exists later
      methods are ignored. */
  function FirstNamed(ms: seq<Method>, name: string): (r: Option<Method>)
    ensures r.None? <==> forall i :: 0 <= i < |ms| ==> ms[i].member.qualifiedName != name
    ensures r.Some? ==> exists i :: (0 <= i < |ms| && ms[i] == r.value && ms[i].member.qualifiedName == name &&
      forall j :: 0 <= j < i ==> ms[j].member.qualifiedName != name)
    decreases |ms|
  {
    if |ms| == 0 then None
    else if ms[0].member.qualifiedName == name then Some(ms[0])
    else
      var r := FirstNamed(ms[1..], name);
      assert forall i :: 1 <= i < |ms| ==> ms[1..][i - 1] == ms[i];
      r
  }

  datatype ParameterInfo = ParameterInfo(name: Option<string>, documentation: DocValue)
  datatype SignatureInfo = SignatureInfo(signature: string, parameters: seq<ParameterInfo>, activeParameter: nat)

  /** A method's signature: its definition with its argument list, one
      entry per stored parameter. */
  function SignatureOf(m: Method, active: nat): (s: SignatureInfo)
    ensures s.signature == m.definition + m.argsString
    ensures s.activeParameter == active
    ensures |s.parameters| == |m.parameters|
    ensures forall i :: 0 <= i < |m.parameters| ==>
      s.parameters[i] == ParameterInfo(m.parameters[i].name, m.parameters[i].description)
  {
    SignatureInfo(m.definition + m.argsString,
      seq(|m.parameters|, i requires 0 <= i < |m.parameters| =>
        ParameterInfo(m.parameters[i].name, m.parameters[i].description)),
      active)
  }

  /** `onSignatureHelp`: one signature when some class method has the
      name, none otherwise; structs are not searched. The cursor line must
      exist. */
  function OnSignatureHelp(text: string, pos: Lsp.Position, index: Index): (r: Result<Option<seq<SignatureInfo>>, string>)
    ensures r.Ok? <==> LineAt(text, pos.line).Some?
    ensures r.Ok? ==>
      var until := UntilCursor(LineAt(text, pos.line).value, pos.character);
      var found := FirstNamed(AllMethods(index), MethodName(until));
      (r.value.None? <==> found.None?) &&
      (r.value.Some? ==> r.value.value == [SignatureOf(found.value, ActiveParameter(until))])
  {
    match LineAt(text, pos.line)
    case None => Err("cursor line is undefined")
    case Some(line) =>
      var until := UntilCursor(line, pos.character);
      match FirstNamed(AllMethods(index), MethodName(until))
      case None => Ok(None)
      case Some(m) => Ok(Some([SignatureOf(m, ActiveParameter(until))]))
  }

  /** The search visits roots, then classes, then methods in order: a
      method of an earlier class shadows one of a later class. */
  lemma {:induction false} EarlierClassShadows(classes: seq<ClassData>, k: nat, i: nat, name: string)
    requires k < |classes| && i < |classes[k].methods|
    requires classes[k].methods[i].member.qualifiedName == name
    ensures FirstNamed(ClassesMethods(classes), name).Some?
    ensures forall j :: k < j < |classes| ==>
      FirstNamed(ClassesMethods(classes[..j + 1]), name) == FirstNamed(ClassesMethods(classes[..j]), name)
    decreases |classes|
  {
    var all := ClassesMethods(classes);
    MethodsInClasses(classes, k, i);
    forall j | k < j < |classes|
      ensures FirstNamed(ClassesMethods(classes[..j + 1]), name) == FirstNamed(ClassesMethods(classes[..j]), name)
    {
      var pre := classes[..j];
      assert classes[..j + 1][..j] == pre;
      assert pre[k] == classes[k];
      MethodsInClasses(pre, k, i);
      FirstNamedAppend(ClassesMethods(pre), classes[j].methods, name);
    }
  }

  lemma {:induction false} MethodsInClasses(classes: seq<ClassData>, k: nat, i: nat)
    requires k < |classes| && i < |classes[k].methods|
    ensures classes[k].methods[i] in ClassesMethods(classes)
    decreases |classes|
  {
    if k < |classes| - 1 {
      var init := classes[..|classes| - 1];
      assert init[k] == classes[k];
      MethodsInClasses(init, k, i);
    } else {
      assert ClassesMethods(classes)[|ClassesMethods(classes[..|classes| - 1])| + i] == classes[k].methods[i];
    }
  }

  /** A match in a prefix is not disturbed by what follows it. */
  lemma {:induction false} FirstNamedAppend(a: seq<Method>, b: seq<Method>, name: string)
    requires exists m :: m in a && m.member.qualifiedName == name
    ensures FirstNamed(a + b, name) == FirstNamed(a, name)
    decreases |a|
  {
    if a[0].member.qualifiedName != name {
      var m :| m in a && m.member.qualifiedName == name;
      assert m in a[1..];
      assert (a + b)[1..] == a[1..] + b;
      FirstNamedAppend(a[1..], b, name);
    }
  }
}
