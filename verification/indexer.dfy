/** The indexing state machine of server/src/parser.ts: which workspace
    roots exist (`getWorkspaceFolders`), which roots a file change
    re-indexes (`onDidChangeWatchedFiles`), and the per-root busy guard and
    replace-on-success update of `parse`. Running the extractor is not
    modelled: its output (the parsed compound documents) is an input. */
module Indexer {
  import opened Optional
  import opened Strings
  import opened OrderedMaps
  import opened Symbols
  import opened Paths
  import opened Doxygen
  import opened Builder
  import opened Sequences

  // ---------------------------------------------------------------------
  // Workspace roots
  // ---------------------------------------------------------------------

  datatype Folder = Folder(uri: string, name: string)

  predicate DistinctUris(fs: seq<Folder>) {
    forall i, j :: 0 <= i < j < |fs| ==> fs[i].uri != fs[j].uri
  }

  /** Some earlier folder has the same uri as `fs[i]`. */
  predicate SeenBefore(fs: seq<Folder>, i: int)
    requires 0 <= i < |fs|
  {
    exists j :: 0 <= j < i && fs[j].uri == fs[i].uri
  }

  /** The filter `index === self.findIndex(t => t.uri === obj.uri)`: keep a
      folder only when no earlier folder has its uri. */
  function Dedupe(fs: seq<Folder>): (r: seq<Folder>)
    ensures forall g :: g in r ==> g in fs
    decreases |fs|
  {
    if |fs| == 0 then []
    else
      var init := fs[..|fs| - 1];
      var r := Dedupe(init);
      if SeenBefore(fs, |fs| - 1) then r else r + [fs[|fs| - 1]]
  }

  /** Dropping the last folder does not change what came before it. */
  lemma SeenBeforeInit(fs: seq<Folder>)
    requires |fs| > 0
    ensures forall i :: 0 <= i < |fs| - 1 ==> (SeenBefore(fs[..|fs| - 1], i) <==> SeenBefore(fs, i))
  {
    var init := fs[..|fs| - 1];
    assert forall i :: 0 <= i < |init| ==> init[i] == fs[i];
  }

  /** No two kept folders share a uri. */
  lemma {:induction false} DedupeDistinctUris(fs: seq<Folder>)
    ensures DistinctUris(Dedupe(fs))
    decreases |fs|
  {
    if |fs| > 0 {
      var init := fs[..|fs| - 1];
      var last := fs[|fs| - 1];
      DedupeDistinctUris(init);
      var r := Dedupe(init);
      if !SeenBefore(fs, |fs| - 1) {
        forall g | g in r
          ensures g.uri != last.uri
        {
          var j :| 0 <= j < |init| && init[j] == g;
          assert fs[j] == g;
        }
        var r' := r + [last];
        assert forall i :: 0 <= i < |r| ==> r'[i] == r[i] && r[i] in r;
      }
    }
  }

  /** The folder where a uri first appears is kept. */
  lemma {:induction false} DedupeKeepsFirst(fs: seq<Folder>)
    ensures forall i :: 0 <= i < |fs| && !SeenBefore(fs, i) ==> fs[i] in Dedupe(fs)
    decreases |fs|
  {
    if |fs| > 0 {
      var init := fs[..|fs| - 1];
      DedupeKeepsFirst(init);
      SeenBeforeInit(fs);
      forall i | 0 <= i < |fs| && !SeenBefore(fs, i)
        ensures fs[i] in Dedupe(fs)
      {
        if i < |fs| - 1 {
          assert init[i] == fs[i];
          assert fs[i] in Dedupe(init);
        }
      }
    }
  }

  /** Every uri of the input is kept. */
  lemma DedupeKeepsUris(fs: seq<Folder>, i: int)
    requires 0 <= i < |fs|
    ensures exists g :: g in Dedupe(fs) && g.uri == fs[i].uri
  {
    DedupeKeepsFirst(fs);
    FirstWithUriExists(fs, i);
    var j :| 0 <= j <= i && fs[j].uri == fs[i].uri && !SeenBefore(fs, j);
    assert fs[j] in Dedupe(fs);
  }

  /** Some index at or before `i` is the first one with the uri of
      `fs[i]`. */
  lemma {:induction false} FirstWithUriExists(fs: seq<Folder>, i: int)
    requires 0 <= i < |fs|
    ensures exists j :: 0 <= j <= i && fs[j].uri == fs[i].uri && !SeenBefore(fs, j)
    decreases i
  {
    if SeenBefore(fs, i) {
      var j :| 0 <= j < i && fs[j].uri == fs[i].uri;
      FirstWithUriExists(fs, j);
    }
  }

  /** The deduplicated list keeps the input's order. */
  lemma {:induction false} DedupeKeepsOrder(fs: seq<Folder>)
    ensures SubsequenceOf(Dedupe(fs), fs)
    decreases |fs|
  {
    if |fs| > 0 {
      var init := fs[..|fs| - 1];
      var last := fs[|fs| - 1];
      var r := Dedupe(init);
      assert init + [last] == fs;
      DedupeKeepsOrder(init);
      if SeenBefore(fs, |fs| - 1) {
        assert Dedupe(fs) == r;
        SubsequenceExtend(r, init, last);
      } else {
        assert Dedupe(fs) == r + [last];
        SubsequenceAppendBoth(r, init, last);
      }
    }
  }

  /** A list without repeated uris is left as it is, so deduplicating
      twice is deduplicating once. */
  lemma {:induction false} DedupeDistinct(fs: seq<Folder>)
    requires DistinctUris(fs)
    ensures Dedupe(fs) == fs
    decreases |fs|
  {
    if |fs| > 0 {
      var init := fs[..|fs| - 1];
      DedupeDistinct(init);
      assert !SeenBefore(fs, |fs| - 1);
      assert init + [fs[|fs| - 1]] == fs;
    }
  }

  lemma DedupeIdempotent(fs: seq<Folder>)
    ensures Dedupe(Dedupe(fs)) == Dedupe(fs)
  {
    DedupeDistinctUris(fs);
    DedupeDistinct(Dedupe(fs));
  }

  /** The roots the server indexes: the editor's workspace folders, then one
      folder per configured path (engine core, plugin library, user
      plugins) that is set and non-empty, named by its basename; a uri
      seen before is dropped. */
  function WorkspaceFolders(paths: PathOps, editorFolders: seq<Folder>, configured: seq<Option<string>>): (r: seq<Folder>)
    ensures DistinctUris(r)
    ensures forall g :: g in r ==> g in editorFolders + ConfiguredFolders(paths, configured)
  {
    var all := editorFolders + ConfiguredFolders(paths, configured);
    DedupeDistinctUris(all);
    Dedupe(all)
  }

  /** The configured paths that are set and non-empty (`if
      (configuredPath)`), in setting order. */
  function SetPaths(configured: seq<Option<string>>): (r: seq<string>)
    ensures forall p :: p in r <==> Some(p) in configured && p != ""
    decreases |configured|
  {
    if |configured| == 0 then []
    else
      var init := configured[..|configured| - 1];
      var last := configured[|configured| - 1];
      assert forall x :: x in configured <==> x in init || x == last;
      SetPaths(init) + (if last.Some? && last.value != "" then [last.value] else [])
  }

  /** The paths as the optional values they were read as. */
  function Somes(ps: seq<string>): (r: seq<Option<string>>)
    ensures |r| == |ps|
    ensures forall i :: 0 <= i < |ps| ==> r[i] == Some(ps[i])
    decreases |ps|
  {
    if |ps| == 0 then []
    else Somes(ps[..|ps| - 1]) + [Some(ps[|ps| - 1])]
  }

  /** The set paths keep the order of the settings they come from. */
  lemma {:induction false} SetPathsKeepOrder(configured: seq<Option<string>>)
    ensures SubsequenceOf(Somes(SetPaths(configured)), configured)
    decreases |configured|
  {
    if |configured| > 0 {
      var init := configured[..|configured| - 1];
      var last := configured[|configured| - 1];
      var kept := SetPaths(init);
      SetPathsKeepOrder(init);
      assert init + [last] == configured;
      if last.Some? && last.value != "" {
        assert Somes(SetPaths(configured)) == Somes(kept) + [last];
        SubsequenceAppendBoth(Somes(kept), init, last);
      } else {
        assert SetPaths(configured) == kept;
        SubsequenceExtend(Somes(kept), init, last);
      }
    }
  }

  /** One folder per set path, in order: the uri is the path with the
      `file://` scheme, the name its basename. */
  function ConfiguredFolders(paths: PathOps, configured: seq<Option<string>>): (r: seq<Folder>)
    ensures |r| <= |configured|
    ensures |r| == |SetPaths(configured)|
    ensures forall i :: 0 <= i < |r| ==>
      r[i] == Folder("file://" + SetPaths(configured)[i], paths.basename(SetPaths(configured)[i]))
    ensures forall g :: g in r ==> exists p :: Some(p) in configured && p != "" && g == Folder("file://" + p, paths.basename(p))
    decreases |configured|
  {
    if |configured| == 0 then []
    else
      var init := configured[..|configured| - 1];
      var rest := ConfiguredFolders(paths, init);
      assert forall p :: Some(p) in init ==> Some(p) in configured;
      match configured[|configured| - 1]
      case Some(p) =>
        if p != "" then
          assert Some(p) in configured;
          rest + [Folder("file://" + p, paths.basename(p))]
        else rest
      case None => rest
  }

  /** The filesystem path of a root: its uri without the `file://` scheme
      (first occurrence). A uri that starts with the scheme loses exactly
      that prefix; one without it is kept as it is. */
  function RootPath(uri: string): (r: string)
    ensures StartsWith(uri, "file://") ==> r == uri[|"file://"|..]
    ensures !Contains(uri, "file://") ==> r == uri
  {
    if StartsWith(uri, "file://") then
      ReplaceFirstAtStart(uri, "file://", "");
      ReplaceFirst(uri, "file://", "")
    else
      ReplaceFirst(uri, "file://", "")
  }

  /** Some changed file lies under a root whose path is `p`. */
  predicate Touched(folders: seq<Folder>, changes: seq<string>, p: string) {
    exists c, w :: c in changes && w in folders && StartsWith(c, w.uri) && p == RootPath(w.uri)
  }

  /** The roots a batch of changed files re-indexes, one entry per (change,
      root) pair where the change's uri starts with the root's uri, in
      change order and then root order. A root is re-indexed exactly when
      some changed file lies under it. */
  function ChangeTargets(folders: seq<Folder>, changes: seq<string>): (r: seq<string>)
    ensures forall p :: p in r <==> Touched(folders, changes, p)
    decreases |changes|
  {
    if |changes| == 0 then []
    else
      var prev := ChangeTargets(folders, changes[..|changes| - 1]);
      TouchedStep(folders, changes, prev);
      prev + TargetsOf(folders, changes[|changes| - 1])
  }

  function TargetsOf(folders: seq<Folder>, change: string): (r: seq<string>)
    ensures forall p :: p in r <==> exists w :: w in folders && StartsWith(change, w.uri) && p == RootPath(w.uri)
    decreases |folders|
  {
    if |folders| == 0 then []
    else
      var init := folders[..|folders| - 1];
      var w := folders[|folders| - 1];
      assert forall x :: x in folders <==> x in init || x == w;
      TargetsOf(init, change) + (if StartsWith(change, w.uri) then [RootPath(w.uri)] else [])
  }

  /** Adding the targets of one more change to those of the earlier ones
      gives the roots touched by all of them. */
  lemma TouchedStep(folders: seq<Folder>, changes: seq<string>, prev: seq<string>)
    requires |changes| > 0
    requires forall p :: p in prev <==> Touched(folders, changes[..|changes| - 1], p)
    ensures forall p :: p in prev + TargetsOf(folders, changes[|changes| - 1]) <==> Touched(folders, changes, p)
  {
    var init := changes[..|changes| - 1];
    var last := changes[|changes| - 1];
    assert forall c :: c in changes <==> c in init || c == last;
    forall p
      ensures p in prev + TargetsOf(folders, last) <==> Touched(folders, changes, p)
    {
      if p in TargetsOf(folders, last) {
        var w :| w in folders && StartsWith(last, w.uri) && p == RootPath(w.uri);
        assert last in changes;
      }
      if Touched(folders, changes, p) {
        var c, w :| c in changes && w in folders && StartsWith(c, w.uri) && p == RootPath(w.uri);
        if c == last {
          assert p in TargetsOf(folders, last);
        } else {
          assert c in init;
        }
      }
    }
  }

  // ---------------------------------------------------------------------
  // Extractor inputs
  // ---------------------------------------------------------------------

  /** What reading `config/GameConfig` gives: no file, a file that is not
      JSON, or the keys of its `plugins` object (none when it has no
      `plugins`). */
  datatype GameConfig = NoConfig | Malformed | Plugins(keys: seq<string>)

  const PluginPrefix: string := "vuengine//"

  /** The configuration's plugin keys that name engine plugins, in key
      order. */
  function EnginePluginKeys(keys: seq<string>): (r: seq<string>)
    ensures forall k :: k in r <==> k in keys && StartsWith(k, PluginPrefix)
    ensures forall i :: 0 <= i < |r| ==> |PluginPrefix| <= |r[i]|
    decreases |keys|
  {
    if |keys| == 0 then []
    else
      var init := keys[..|keys| - 1];
      var last := keys[|keys| - 1];
      assert forall x :: x in keys <==> x in init || x == last;
      EnginePluginKeys(init) + (if StartsWith(last, PluginPrefix) then [last] else [])
  }

  lemma {:induction false} EnginePluginKeysKeepOrder(keys: seq<string>)
    ensures SubsequenceOf(EnginePluginKeys(keys), keys)
    decreases |keys|
  {
    if |keys| > 0 {
      var init := keys[..|keys| - 1];
      var last := keys[|keys| - 1];
      var kept := EnginePluginKeys(init);
      EnginePluginKeysKeepOrder(init);
      assert init + [last] == keys;
      if StartsWith(last, PluginPrefix) {
        SubsequenceAppendBoth(kept, init, last);
      } else {
        assert EnginePluginKeys(keys) == kept;
        SubsequenceExtend(kept, init, last);
      }
    }
  }

  /** The plugin keys that name engine plugins, as folders under `root`:
      one folder per such key, in key order, named by the key without its
      prefix. */
  function PluginFolders(paths: PathOps, root: string, keys: seq<string>): (r: seq<string>)
    ensures |r| <= |keys|
    ensures |r| == |EnginePluginKeys(keys)|
    ensures forall i :: 0 <= i < |r| ==>
      r[i] == paths.join(root, EnginePluginKeys(keys)[i][|PluginPrefix|..])
    ensures forall f :: f in r ==>
      exists k :: k in keys && StartsWith(k, PluginPrefix) && f == paths.join(root, k[|PluginPrefix|..])
    decreases |keys|
  {
    if |keys| == 0 then []
    else
      var init := keys[..|keys| - 1];
      var rest := PluginFolders(paths, root, init);
      assert forall k :: k in init ==> k in keys;
      var k := keys[|keys| - 1];
      if StartsWith(k, PluginPrefix) then
        ReplaceFirstAtStart(k, PluginPrefix, "");
        assert "" + k[|PluginPrefix|..] == k[|PluginPrefix|..];
        assert k in keys;
        rest + [paths.join(root, ReplaceFirst(k, PluginPrefix, ""))]
      else rest
  }

  /** The extractor's comma-separated input list for a root. A root named
      `plugins` reads the game configuration; a configuration that is not
      JSON throws. Any other root is its own input. */
  function InputFolders(paths: PathOps, root: string, config: GameConfig): (r: Result<string, string>)
    ensures paths.basename(root) != "plugins" ==> r == Ok(root)
    ensures r.Err? <==> paths.basename(root) == "plugins" && config.Malformed?
    ensures paths.basename(root) == "plugins" && config.NoConfig? ==> r == Ok("")
    ensures paths.basename(root) == "plugins" && config.Plugins? ==>
      r == Ok(Join(PluginFolders(paths, root, config.keys), ","))
  {
    if paths.basename(root) == "plugins" then
      match config
      case NoConfig => Ok(Join([], ","))
      case Malformed => Err("GameConfig is not JSON")
      case Plugins(keys) => Ok(Join(PluginFolders(paths, root, keys), ","))
    else Ok(root)
  }

  /** A plugins root whose configuration lists no engine plugin gets the
      empty input list, so nothing is extracted. */
  lemma NoEnginePluginsNoInput(paths: PathOps, root: string, keys: seq<string>)
    requires paths.basename(root) == "plugins"
    requires forall k :: k in keys ==> !StartsWith(k, PluginPrefix)
    ensures InputFolders(paths, root, Plugins(keys)) == Ok("")
  {
    NoEnginePluginsNoFolders(paths, root, keys);
  }

  lemma {:induction false} NoEnginePluginsNoFolders(paths: PathOps, root: string, keys: seq<string>)
    requires forall k :: k in keys ==> !StartsWith(k, PluginPrefix)
    ensures PluginFolders(paths, root, keys) == []
    decreases |keys|
  {
    if |keys| > 0 {
      assert keys[|keys| - 1] in keys;
      assert forall k :: k in keys[..|keys| - 1] ==> k in keys;
      NoEnginePluginsNoFolders(paths, root, keys[..|keys| - 1]);
    }
  }

  // ---------------------------------------------------------------------
  // The parse state machine
  // ---------------------------------------------------------------------

  /** The index and the set of roots whose parse is in progress. */
  datatype State = State(index: Index, busy: set<string>)

  predicate Valid(s: State) {
    DistinctKeys(s.index)
  }

  /** How `parse` goes on after its synchronous start. */
  datatype Start =
    | AlreadyBusy           // the guard returns at once
    | ConfigError           // the configuration throws; the root stays busy
    | NothingToExtract      // empty input list: the flag is set and cleared
    | Extracting(inputs: string)

  /** The start of `parse(root)`, up to the extractor run. */
  function Begin(s: State, paths: PathOps, root: string, config: GameConfig): (r: (State, Start))
    ensures root in s.busy ==> r == (s, AlreadyBusy)
    ensures r.0.index == s.index
    ensures root !in s.busy && r.1 != NothingToExtract ==> r.0.busy == s.busy + {root}
    ensures r.1 == NothingToExtract ==> r.0.busy == s.busy
    ensures r.1.Extracting? ==> r.1.inputs != "" && InputFolders(paths, root, config) == Ok(r.1.inputs)
  {
    if root in s.busy then (s, AlreadyBusy)
    else
      var marked := s.(busy := s.busy + {root});
      match InputFolders(paths, root, config)
      case Err(_) => (marked, ConfigError)
      case Ok(inputs) =>
        if inputs == "" then (s.(busy := s.busy - {root}), NothingToExtract)
        else (marked, Extracting(inputs))
  }

  /** What the extractor run gave: a failure (caught and logged), or the
      output directory's files with their parsed compounds. */
  datatype Extraction = ExtractFailed | Extracted(files: seq<(string, Compound)>)

  /** The end of `parse(root)`: the root's entry is assigned only when both
      its classes and its structs were built; the busy flag is cleared
      either way. */
  function Finish(s: State, paths: PathOps, root: string, run: Extraction): (r: State)
    requires Valid(s)
    ensures Valid(r)
    ensures r.busy == s.busy - {root}
    ensures forall k :: k != root ==> Get(r.index, k) == Get(s.index, k)
    ensures run.Extracted? && BuildRoot(paths, root, run.files).Ok? ==>
      Get(r.index, root) == Some(BuildRoot(paths, root, run.files).value)
    ensures !(run.Extracted? && BuildRoot(paths, root, run.files).Ok?) ==> r.index == s.index
  {
    var cleared := s.busy - {root};
    match run
    case ExtractFailed => State(s.index, cleared)
    case Extracted(files) =>
      match BuildRoot(paths, root, files)
      case Err(_) => State(s.index, cleared)
      case Ok(data) => State(Put(s.index, root, data), cleared)
  }

  /** A parse that runs to the end without another parse in between:
      a busy root is left alone; otherwise the flag ends cleared (unless
      the configuration throws), and the index changes only at this root,
      only when the build succeeds. */
  function Parse(s: State, paths: PathOps, root: string, config: GameConfig, run: Extraction): (r: State)
    requires Valid(s)
    ensures Valid(r)
    ensures root in s.busy ==> r == s
    ensures root !in s.busy && !InputFolders(paths, root, config).Err? ==> r.busy == s.busy
    ensures root !in s.busy && InputFolders(paths, root, config).Err? ==> r.busy == s.busy + {root} && r.index == s.index
    ensures forall k :: k != root ==> Get(r.index, k) == Get(s.index, k)
    ensures InputFolders(paths, root, config) == Ok("") ==> r == s
    ensures root !in s.busy && InputFolders(paths, root, config).Ok? && InputFolders(paths, root, config).value != "" &&
            run.Extracted? && BuildRoot(paths, root, run.files).Ok? ==>
      Get(r.index, root) == Some(BuildRoot(paths, root, run.files).value)
    ensures !(run.Extracted? && BuildRoot(paths, root, run.files).Ok?) ==> r.index == s.index
  {
    var (s1, start) := Begin(s, paths, root, config);
    match start
    case Extracting(_) => Finish(s1, paths, root, run)
    case _ => s1
  }

  /** A failed build, or a failed extractor run, leaves the previous entry
      of the root in place. */
  lemma FailureKeepsEntry(s: State, paths: PathOps, root: string, config: GameConfig, run: Extraction)
    requires Valid(s)
    requires run.ExtractFailed? || BuildRoot(paths, root, run.files).Err?
    ensures Parse(s, paths, root, config, run).index == s.index
  {
  }

  /** While a parse of a root is in progress, another parse of the same root
      changes nothing; a parse of another root does not touch it. */
  lemma BusyGuard(s: State, paths: PathOps, root: string, other: string, config: GameConfig, run: Extraction)
    requires Valid(s) && root in s.busy
    ensures Begin(s, paths, root, config) == (s, AlreadyBusy)
    ensures other != root ==> root in Begin(s, paths, other, config).0.busy
    ensures other != root ==> root in Finish(s, paths, other, run).busy
  {
  }

  /** Every root in a batch re-parsed in turn. */
  function ParseAll(s: State, paths: PathOps, roots: seq<string>, config: GameConfig, runs: string -> Extraction): (r: State)
    requires Valid(s)
    ensures Valid(r)
    ensures forall k :: k !in roots ==> Get(r.index, k) == Get(s.index, k)
    decreases |roots|
  {
    if |roots| == 0 then s
    else
      var s1 := ParseAll(s, paths, roots[..|roots| - 1], config, runs);
      var root := roots[|roots| - 1];
      assert forall k :: k in roots[..|roots| - 1] ==> k in roots;
      Parse(s1, paths, root, config, runs(root))
  }
}
