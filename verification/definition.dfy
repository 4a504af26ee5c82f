/** The go-to-definition handler of server/src/handlers/definition.ts: the
    word under the cursor, the lookup over the classes of the index, and the
    location returned. */
module Definition {
  import opened Optional
  import opened Strings
  import opened OrderedMaps
  import opened Symbols
  import opened Paths
  import opened Documents
  import Lsp

  // ---------------------------------------------------------------------
  // The word under the cursor
  // ---------------------------------------------------------------------

  /** The characters `/[(;\s]+/` splits the text after the cursor on. */
  predicate AfterStop(c: char) {
    c == '(' || c == ';' || IsSpace(c)
  }

  /** The whitespace-free text before the cursor joined to the text after
      it up to a parenthesis, semicolon or whitespace; when the part after
      the cursor holds `::`, only what precedes the first `::` is kept. */
  function CursorWord(until: string, after: string): (w: string)
    ensures var before := TrailingRun(until, IsSpace);
            var next := LeadingRun(after, AfterStop);
            (!Contains(next, "::") ==> w == before + next) &&
            (Contains(next, "::") ==> StartsWith(before + next, w) && !Contains(w, "::")
                                      && OccursAt(before + next, "::", |w|)
                                      && forall k :: 0 <= k < |w| ==> !OccursAt(before + next, "::", k))
  {
    var before := TrailingRun(until, IsSpace);
    var next := LeadingRun(after, AfterStop);
    var word := before + next;
    if Contains(next, "::") then
      ContainsInSuffix(before, next, "::");
      var w := BeforeFirst(word, "::");
      NoOccurrenceNotContained(w, "::");
      w
    else word
  }

  /** An occurrence in the tail of a text is an occurrence in the text. */
  lemma ContainsInSuffix(a: string, b: string, p: string)
    requires Contains(b, p)
    ensures Contains(a + b, p)
  {
    var i := IndexOf(b, p).value;
    assert (a + b)[|a| + i..|a| + i + |p|] == b[i..i + |p|];
    assert OccursAt(a + b, p, |a| + i);
  }

  lemma NoOccurrenceNotContained(s: string, p: string)
    requires p != []
    requires forall k :: 0 <= k <= |s| - |p| ==> !OccursAt(s, p, k)
    ensures !Contains(s, p)
  {
    if IndexOf(s, p).Some? {
      assert false;
    }
  }

  /** With the cursor inside a word that runs up to a call or the end of
      the line, the word is the whole identifier. */
  lemma WordAroundCursor(left: string, right: string, rest: string)
    requires forall i :: 0 <= i < |left| ==> !IsSpace(left[i])
    requires forall i :: 0 <= i < |right| ==> !AfterStop(right[i])
    requires rest == [] || AfterStop(rest[0])
    requires !Contains(right, "::")
    ensures CursorWord(left, right + rest) == left + right
  {
    RunOfCleanText(left);
    LeadingRunOfClean(right, rest);
  }

  lemma RunOfCleanText(s: string)
    requires forall i :: 0 <= i < |s| ==> !IsSpace(s[i])
    ensures TrailingRun(s, IsSpace) == s
  {
  }

  lemma LeadingRunOfClean(s: string, rest: string)
    requires forall i :: 0 <= i < |s| ==> !AfterStop(s[i])
    requires rest == [] || AfterStop(rest[0])
    ensures LeadingRun(s + rest, AfterStop) == s
  {
    var t := s + rest;
    assert forall i :: 0 <= i < |s| ==> t[i] == s[i];
    assert |s| < |t| ==> t[|s|] == rest[0];
    assert t[..|s|] == s;
  }

  // ---------------------------------------------------------------------
  // Lookup
  // ---------------------------------------------------------------------

  /** A definition target: a uri and a range of whole lines. */
  datatype Target = Target(uri: string, range: Lsp.Range)

  /** The target of a symbol: its body when the extractor reported one,
      else its declaration; the stored one-based line is made zero-based at
      the start but not at the end, so the range ends at the start of the
      line after the last one. */
  function TargetOf(loc: Location): (t: Target)
    ensures loc.body.Some? ==> (t.uri == loc.body.value.uri &&
      t.range == Lsp.Range(Lsp.Position(loc.body.value.start - 1, 0), Lsp.Position(loc.body.value.end, 0)))
    ensures loc.body.None? ==> (t.uri == loc.header.uri &&
      t.range == Lsp.Range(Lsp.Position(loc.header.line - 1, 0), Lsp.Position(loc.header.line, 0)))
  {
    var uri := if loc.body.Some? then loc.body.value.uri else loc.header.uri;
    var start := if loc.body.Some? then loc.body.value.start else loc.header.line;
    var end := if loc.body.Some? then loc.body.value.end else loc.header.line;
    Target(uri, Lsp.Range(Lsp.Position(start - 1, 0), Lsp.Position(end, 0)))
  }

  /** A target never ends before it starts when the body is not reversed:
      it spans at least the one line it starts on. */
  lemma TargetNotEmpty(loc: Location)
    requires loc.body.Some? ==> loc.body.value.start <= loc.body.value.end
    ensures var r := TargetOf(loc).range;
            Lsp.NotAfter(r.start, r.end) && r.start.line < r.end.line
  {
  }

  /** A named symbol of some class: name and location. */
  type Named = (string, Location)

  /** `forEach(... findSymbol ...)` over one group: each match overwrites
      the result, so the last match wins. */
  function LastMatch(group: seq<Named>, word: string): (r: Option<Target>)
    ensures r.None? <==> forall i :: 0 <= i < |group| ==> group[i].0 != word
    ensures r.Some? ==> exists i :: (0 <= i < |group| && group[i].0 == word && r.value == TargetOf(group[i].1) &&
      forall j :: i < j < |group| ==> group[j].0 != word)
    decreases |group|
  {
    if |group| == 0 then None
    else
      var last := group[|group| - 1];
      if last.0 == word then Some(TargetOf(last.1))
      else
        var r := LastMatch(group[..|group| - 1], word);
        assert forall i :: 0 <= i < |group| - 1 ==> group[..|group| - 1][i] == group[i];
        r
  }

  function MethodsNamed(c: ClassData): (r: seq<Named>)
    ensures |r| == |c.methods|
    ensures forall i :: 0 <= i < |c.methods| ==> r[i] == (c.methods[i].member.qualifiedName, c.methods[i].member.location)
  {
    seq(|c.methods|, i requires 0 <= i < |c.methods| => (c.methods[i].member.qualifiedName, c.methods[i].member.location))
  }

  function MembersNamed(ms: seq<Member>): (r: seq<Named>)
    ensures |r| == |ms|
    ensures forall i :: 0 <= i < |ms| ==> r[i] == (ms[i].name, ms[i].location)
  {
    seq(|ms|, i requires 0 <= i < |ms| => (ms[i].name, ms[i].location))
  }

  /** What one class does to the result: its own name is checked always
      and overrides; its methods (by qualified name), then its enums, then
      its typedefs are consulted only while there is no result yet. */
  function StepClass(result: Option<Target>, c: ClassData, word: string): (r: Option<Target>)
    ensures c.name == word ==> r == Some(TargetOf(c.location))
    ensures c.name != word && result.Some? ==> r == result
    ensures c.name != word && result.None? ==>
      r == (if LastMatch(MethodsNamed(c), word).Some? then LastMatch(MethodsNamed(c), word)
            else if LastMatch(MembersNamed(c.enums), word).Some? then LastMatch(MembersNamed(c.enums), word)
            else LastMatch(MembersNamed(c.typedefs), word))
  {
    var r0 := if c.name == word then Some(TargetOf(c.location)) else result;
    var r1 := if r0.None? then LastMatch(MethodsNamed(c), word) else r0;
    var r2 := if r1.None? then LastMatch(MembersNamed(c.enums), word) else r1;
    if r2.None? then LastMatch(MembersNamed(c.typedefs), word) else r2
  }

  /** `Object.values(classes).map(...)`: the classes in order. A target is
      found exactly when some class declares the word. */
  function FindSymbol(classes: seq<ClassData>, word: string): (r: Option<Target>)
    ensures r.Some? <==> exists i :: 0 <= i < |classes| && Declares(classes[i], word)
    decreases |classes|
  {
    if |classes| == 0 then None
    else
      var init := classes[..|classes| - 1];
      var prev := FindSymbol(init, word);
      StepFinds(prev, classes[|classes| - 1], word);
      assert forall i :: 0 <= i < |init| ==> init[i] == classes[i];
      StepClass(prev, classes[|classes| - 1], word)
  }

  /** The class, or one of its methods, enums or typedefs, carries the
      name. */
  predicate Declares(c: ClassData, word: string) {
    c.name == word
    || (exists i :: 0 <= i < |c.methods| && c.methods[i].member.qualifiedName == word)
    || (exists i :: 0 <= i < |c.enums| && c.enums[i].name == word)
    || (exists i :: 0 <= i < |c.typedefs| && c.typedefs[i].name == word)
  }

  lemma StepFinds(result: Option<Target>, c: ClassData, word: string)
    ensures StepClass(result, c, word).Some? <==> result.Some? || Declares(c, word)
  {
    var ms := MethodsNamed(c);
    var es := MembersNamed(c.enums);
    var ts := MembersNamed(c.typedefs);
    if exists i :: 0 <= i < |c.methods| && c.methods[i].member.qualifiedName == word {
      var i :| 0 <= i < |c.methods| && c.methods[i].member.qualifiedName == word;
      assert ms[i].0 == word;
    }
    if exists i :: 0 <= i < |c.enums| && c.enums[i].name == word {
      var i :| 0 <= i < |c.enums| && c.enums[i].name == word;
      assert es[i].0 == word;
    }
    if exists i :: 0 <= i < |c.typedefs| && c.typedefs[i].name == word {
      var i :| 0 <= i < |c.typedefs| && c.typedefs[i].name == word;
      assert ts[i].0 == word;
    }
  }

  /** Once a target is found, only a later class of that very name
      replaces it; so the last class named by the word, if any, is the
      answer whenever nothing after it declares the word. */
  lemma {:induction false} LastNamedClassWins(classes: seq<ClassData>, word: string, k: nat)
    requires k < |classes| && classes[k].name == word
    requires forall j :: k < j < |classes| ==> classes[j].name != word
    ensures FindSymbol(classes, word) == Some(TargetOf(classes[k].location))
    decreases |classes|
  {
    if k < |classes| - 1 {
      var init := classes[..|classes| - 1];
      assert init[k] == classes[k];
      LastNamedClassWins(init, word, k);
    }
  }

  /** When no class carries the name itself, the first class that declares
      it decides the target: its methods, then its enums, then its
      typedefs, and no later class changes the answer. */
  lemma {:induction false} FirstDeclaringClassWins(classes: seq<ClassData>, word: string, k: nat)
    requires k < |classes| && Declares(classes[k], word)
    requires forall j :: 0 <= j < k ==> !Declares(classes[j], word)
    requires forall j :: 0 <= j < |classes| ==> classes[j].name != word
    ensures FindSymbol(classes, word) == StepClass(None, classes[k], word)
    ensures FindSymbol(classes, word).Some?
    decreases |classes|
  {
    var init := classes[..|classes| - 1];
    var last := classes[|classes| - 1];
    var found := StepClass(None, classes[k], word);
    assert found.Some? by {
      StepFinds(None, classes[k], word);
    }
    if k == |classes| - 1 {
      assert FindSymbol(init, word).None? by {
        assert forall i :: 0 <= i < |init| ==> init[i] == classes[i];
      }
    } else {
      assert FindSymbol(init, word) == found by {
        assert forall i :: 0 <= i < |init| ==> init[i] == classes[i];
        FirstDeclaringClassWins(init, word, k);
      }
      assert last.name != word;
    }
    assert FindSymbol(classes, word) == StepClass(FindSymbol(init, word), last, word);
  }

  // ---------------------------------------------------------------------
  // The handler
  // ---------------------------------------------------------------------

  /** `onDefinition`: the target's uri is joined onto the engine-core path
      when that setting is non-empty. The cursor line must exist. */
  function OnDefinition(paths: PathOps, text: string, pos: Lsp.Position, classes: ClassMap, engineCorePath: Option<string>): (r: Result<Option<Target>, string>)
    ensures r.Ok? <==> LineAt(text, pos.line).Some?
    ensures r.Ok? ==>
      var line := LineAt(text, pos.line).value;
      var word := CursorWord(UntilCursor(line, pos.character), AfterCursor(line, pos.character));
      var found := FindSymbol(Values(classes), word);
      (r.value.None? <==> found.None?) &&
      (r.value.Some? ==> r.value.value.range == found.value.range) &&
      (r.value.Some? && engineCorePath.GetOr("") == "" ==> r.value == found) &&
      (r.value.Some? && engineCorePath.GetOr("") != "" ==>
        r.value.value.uri == paths.join(engineCorePath.value, found.value.uri))
  {
    match LineAt(text, pos.line)
    case None => Err("cursor line is undefined")
    case Some(line) =>
      var word := CursorWord(UntilCursor(line, pos.character), AfterCursor(line, pos.character));
      match FindSymbol(Values(classes), word)
      case None => Ok(None)
      case Some(t) =>
        var base := engineCorePath.GetOr("");
        Ok(Some(if base != "" then t.(uri := paths.join(base, t.uri)) else t))
  }
}
