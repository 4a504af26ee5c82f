# VUEngine C language server — symbol index and query resolvers

This project models the core of the language server for VUEngine's
object-oriented C dialect, in Dafny.

The server runs Doxygen over each workspace root. It reads the XML that
Doxygen writes, as a compact JavaScript object, and builds one symbol
record per class and struct: methods, variables, enums, typedefs,
parameters, descriptions and locations. A separate script builds the same
records for the engine core, and its output is shipped as the static
index. The editor's queries are then answered from these records:

- completion;
- go-to-definition;
- signature help;
- the document outline;
- the numbered inlay hints on struct initialisers.

The modules follow the program:

| module | file | what it holds |
|---|---|---|
| `Doxygen` | doxygen.dfy | the extractor's per-compound document, after compact XML-to-object conversion |
| `Symbols`, `Paths`, `Lsp` | symbols.dfy | the symbol records of the index, the path library as parameters, protocol positions and ranges |
| `Descriptions` | descriptions.dfy | `parseDescription` and `parseDescriptions`, in both builders |
| `MethodRecords` | method_records.dfy | what a function memberdef becomes: cleaned and completed argument string, parameter list, parameter docs |
| `Builder` | builder.dfy | `findInPath`, `processClassesData`, `processStructsData` and the legacy `processData`, as one builder with a `Variant` flag |
| `Indexer` | indexer.dfy | workspace roots, change routing, and the busy guard and index update of `parse` |
| `Documents` | documents.dfy | the cursor line and its two halves |
| `Completion`, `Definition`, `SignatureHelp`, `DocumentSymbols`, `InlayHints` | one file each | the five query handlers |
| `Strings`, `OrderedMaps`, `Sequences`, `Optional` | | the JavaScript string and object semantics the code relies on |

A few JavaScript semantics are modelled explicitly:

- `slice` with negative and out-of-range indices;
- `split` on one character;
- `trim` over the ECMAScript whitespace set;
- `replace` of the first occurrence;
- `lastIndexOf`;
- `Array.prototype.toString`;
- the value `undefined`.

Objects keyed by name are association lists in insertion order. Assigning
to an existing key keeps that key's position. This order decides which
record a first-match or last-match lookup returns.

Behaviour worth noting, as the code has it:

- A record's members are arrays. Duplicates are kept and nothing is first-write-wins.
- No handler resolves inheritance.
- Definition and signature help search classes only, never structs.
- A later compound with the same name replaces an earlier one in place.
- There are two deliberate departures, both recorded under "## Findings":
  - The parameter list of a method without a receiver: the builder stores the corrected list.
  - The completion handler's walk over the index: as written it throws for any indexed root, and the model walks each root's classes instead.

## Model

| member | source | states |
|---|---|---|
| Descriptions.ParaLine | server/src/parser.ts:165-192 | a paragraph whose first key is text starts with its first text piece followed by the backticked reference; one whose first key is a reference starts with that reference; a single-text paragraph is exactly text then reference |
| Descriptions.ParseDescription | server/src/parser.ts:150-196 | the result is always trimmed, and a description without paragraphs gives the empty text |
| Descriptions.ParseDescriptionJoinsLines | server/src/parser.ts:150-196 | when the first paragraph line does not start and the last does not end with whitespace, the description is exactly its paragraph lines joined by blank lines |
| Descriptions.TwoTextParagraphs | server/src/parser.ts:150-196 | two plain text paragraphs `a` and `b` read as `a`, a blank line, `b` |
| Descriptions.SingleTextParagraph | server/src/parser.ts:165-195 | a description of one plain text paragraph reads as that text trimmed |
| Descriptions.ParseDescriptions | server/src/parser.ts:199-206 | brief and detailed text joined by one blank line, and an empty part contributes no separator |
| Descriptions.ParseDescriptionLegacy | scripts/convertDoxygenXml.js:29-72 | the legacy reader never yields `undefined` and yields an empty array exactly when there is no paragraph |
| Descriptions.LegacyDescriptionReadsAsServer | scripts/convertDoxygenXml.js:29-72 | wherever the legacy result is used as text it reads exactly as the server's result |
| Descriptions.LegacyDescriptionsAgree | scripts/convertDoxygenXml.js:74-81 | both scripts give a symbol the same combined description |
| MethodRecords.CleanArgs | server/src/parser.ts:325 | with the marker the string loses two characters; without it, it is left unchanged |
| MethodRecords.CleanArgsReplacesFirst | server/src/parser.ts:325 | with the marker, exactly its first occurrence becomes `)` and the text on both sides is kept |
| MethodRecords.NoMarkerInList | server/src/parser.ts:325 | a plain parenthesised list is left unchanged |
| MethodRecords.CleanArgsPureVirtual | server/src/parser.ts:325 | a list followed by `=0` loses exactly the marker |
| MethodRecords.CompleteArgs | server/src/parser.ts:327-336 | the completed argument string always opens with a parenthesis |
| MethodRecords.CompleteArgsShape | server/src/parser.ts:327-336 | a list is kept as is without a receiver; with one it becomes `(C this)` when empty and `(C this, …)` otherwise |
| MethodRecords.RewriteOfList | server/src/parser.ts:325-336 | cleaning then completing, pure virtual or not, gives the same three shapes |
| MethodRecords.ArgPieces | server/src/parser.ts:357 | splitting the interior of an argument string yields at least one piece |
| MethodRecords.ArgPiecesOfList | server/src/parser.ts:357 | the pieces of a parenthesised list are its comma-separated parts, trimmed |
| MethodRecords.ExamplePieces | server/src/parser.ts:357 | `(int a, int b)` splits into `int a` and `int b` |
| MethodRecords.NamedParams | server/src/parser.ts:359-364 | no more names than `param` nodes: unnamed ones are skipped |
| MethodRecords.NamedParamsExact | server/src/parser.ts:359-364 | a name is listed exactly when some parameter carries it (its `declname`, else its `defname`); when every parameter has a name the list holds them one for one, in order |
| MethodRecords.LastDocFor | server/src/parser.ts:366-372 | the chosen doc entry names the parameter, and no later entry does; none is chosen only when no entry names it |
| MethodRecords.ParamDescription | server/src/parser.ts:366-377 | without a matching doc entry the server stores "" and the legacy script stores `undefined`; otherwise the text is that of the last matching entry |
| MethodRecords.ThisPrefix | server/src/parser.ts:350-355 | exactly one receiver parameter when the method takes `this`, none otherwise |
| MethodRecords.ParametersAsWritten | server/src/parser.ts:349-378 | one receiver entry when the method takes `this`, plus one entry per named parameter |
| MethodRecords.Labelled | server/src/parser.ts:356-378 | the k-th named parameter is labelled with argument piece k plus the shift (undefined past the end) and carries its own description |
| MethodRecords.Parameters | server/src/parser.ts:349-378 | corrected parameter list: the receiver first when present, then each named parameter labelled with its own argument piece |
| MethodRecords.ArgPiecesWithReceiver | server/src/parser.ts:327-357 | the pieces of a completed list are the receiver piece followed by the pieces of the original list |
| MethodRecords.ReceiverList | server/src/parser.ts:327-336 | a completed non-empty list is `(`, the receiver, a comma, a space, the original interior, `)` |
| MethodRecords.AsWrittenAgreesWithReceiver | server/src/parser.ts:349-378 | with a receiver present, the written index arithmetic gives exactly the corrected parameter list |
| MethodRecords.LabelsShiftByReceiver | server/src/parser.ts:356-377 | labelling from index 1 over receiver-plus-arguments equals labelling from index 0 over the arguments |
| MethodRecords.StaticParametersShifted | server/src/parser.ts:356-377 | for a static `(int a, int b)` the written code labels the parameters `int b` and undefined, and the corrected list labels them `int a` and `int b` |
| MethodRecords.ReturnTypeOf | server/src/parser.ts:244 | the return type is the space-free prefix of the definition, up to its first space |
| MethodRecords.ParamDocLine | server/src/parser.ts:227-241 | a parameter's doc line is `_@param_` and the backticked name, followed by a colon and the text of the last doc entry naming it when there is one; both builders give the server's text |
| MethodRecords.ParamLinesFor | server/src/parser.ts:227-242 | one doc line per name, in order |
| MethodRecords.ReturnDocLines | server/src/parser.ts:244-247 | a return line exists exactly when the return type is not `void` and the one simplesect is of kind `return`; it names the return type and carries the section's text |
| MethodRecords.ParamAndReturnLines | server/src/parser.ts:227-247 | the parameter lines in order followed by the return line, if any |
| MethodRecords.ParamDocLines | server/src/parser.ts:209-247 | the receiver line first when the method takes `this`, then the parameter and return lines |
| MethodRecords.Block | server/src/parser.ts:209-250 | the documentation block both starts and ends with a blank line |
| MethodRecords.BlockIsJoin | server/src/parser.ts:209-249 | the block is its lines joined by blank lines, with one blank line before and after; no lines give a single blank line |
| MethodRecords.ParamDocs | server/src/parser.ts:209-250 | a method's parameter documentation always ends with a blank line |
| MethodRecords.ParamDocsAgree | scripts/convertDoxygenXml.js:83-122 | both scripts produce the same parameter documentation |
| Builder.BuildLocation | server/src/parser.ts:257-276 | the header site is relative to the root; a body exists exactly when a non-empty body file is named; an end of -1 means the start line |
| Builder.BodyNotReversed | server/src/parser.ts:269-275 | a body reported as unknown-end or not reversed starts no later than it ends |
| Builder.DescriptionsFor | scripts/convertDoxygenXml.js:74-81 | either builder stores the server's description text |
| Builder.BuildMember | server/src/parser.ts:296-318 | names, protection and location are copied; the static flag is set exactly when the attribute is `yes` |
| Builder.DocsFor | scripts/convertDoxygenXml.js:210 | either builder stores the server's parameter documentation |
| Builder.BuildMethod | server/src/parser.ts:320-380 | a method record exists exactly when definition, type and argument string are present; it holds the member fields, the definition, the type text, the cleaned and completed argument string, the server's parameter docs and the corrected parameter list |
| Builder.BuildMethodAsWritten | server/src/parser.ts:349-378 | for every method that takes a receiver and has arguments, the stored parameter list is exactly the list the source's index arithmetic builds |
| Builder.BuildVariable | server/src/parser.ts:385-387 | the server needs a type text or a type reference and prefers the text; the legacy script stores no type |
| Builder.NewMethods | server/src/parser.ts:320-380 | a memberdef adds one method exactly when its kind is `function` |
| Builder.FileMember | server/src/parser.ts:320-390 | each member kind is appended to its own list and the others are untouched; an unrecognised kind changes nothing |
| Builder.CountRecognised | server/src/parser.ts:320-390 | the memberdefs that give a record are exactly the functions, typedefs, enums and variables: their count is the sum of the four kind counts |
| Builder.NewVariables | server/src/parser.ts:385-387 | a memberdef gives one variable exactly when it is a variable |
| Builder.NewMembers | server/src/parser.ts:381-384 | a memberdef gives one typedef (enum) exactly when it is of that kind |
| Builder.MethodsOf | server/src/parser.ts:295-392 | a section gives one method per function memberdef |
| Builder.VariablesOf | server/src/parser.ts:295-392 | a section gives one variable per variable memberdef |
| Builder.MembersOf | server/src/parser.ts:295-392 | a section gives one typedef (enum) per memberdef of that kind |
| Builder.SectionsMethods | server/src/parser.ts:289-393 | a class has as many methods as its sections have function memberdefs |
| Builder.SectionsVariables | server/src/parser.ts:289-393 | a class has as many variables as its sections have variable memberdefs |
| Builder.SectionsMembers | server/src/parser.ts:289-393 | a class has as many typedefs (enums) as its sections have memberdefs of that kind |
| Builder.ExtendsStep | server/src/parser.ts:320-390 | filing one memberdef extends each of the four lists by exactly what that memberdef gives |
| Builder.FileMembers | server/src/parser.ts:295-392 | filing a section keeps the class's name, base, description, location and contributor |
| Builder.FileMembersLists | server/src/parser.ts:295-392 | filing a section leaves the earlier records in front and appends its functions to the methods, its variables to the variables, its typedefs to the typedefs and its enums to the enums, each in document order |
| Builder.FileMembersCount | server/src/parser.ts:295-392 | filing a section adds exactly one record per memberdef of a recognised kind |
| Builder.FileSections | server/src/parser.ts:283-393 | filing all sections keeps the class's own fields |
| Builder.FileSectionsLists | server/src/parser.ts:283-393 | filing all sections appends to each of the four lists the records of its kind, section by section in document order |
| Builder.MethodAt | server/src/parser.ts:295-380 | a function memberdef gives the method that follows those of the functions before it in its section, so a section's methods keep the document order of its functions |
| Builder.BuildClass | server/src/parser.ts:255-393 | a class record exists exactly when every section is readable, never without sections; it carries the compound's name, base, description and location (only the legacy record a contributor), and its methods, variables, typedefs and enums are exactly the records of those kinds of all its sections, section by section in document order |
| Builder.BuildClasses | server/src/parser.ts:255-396 | every compound builds, in order and keyed by its name, or the whole run fails |
| Builder.ProcessClasses | server/src/parser.ts:252-399 | the class map has distinct keys, and it exists exactly when every compound builds |
| Builder.LastNamed | server/src/parser.ts:395 | the chosen compound has the name and no later one does |
| Builder.ClassesKeyedByName | server/src/parser.ts:395 | the record stored under a name is that of the last compound with that name |
| Builder.LastNamedIsLastKey | server/src/parser.ts:395 | the last compound of a name is the last entry written under that key |
| Builder.ParametersAgree | scripts/convertDoxygenXml.js:222-249 | the two builders label parameters identically, differing only in descriptions |
| Builder.MethodsAgree | scripts/convertDoxygenXml.js:193-251 | a method the server can build the legacy script builds too, equal up to parameter descriptions |
| Builder.FileMethodAgrees | scripts/convertDoxygenXml.js:193-251 | filing a function keeps the two builders' classes equal up to the erased fields |
| Builder.FileVariableAgrees | scripts/convertDoxygenXml.js:256-257 | filing a variable keeps the two builders' classes equal up to the erased fields |
| Builder.FileMemberAgrees | scripts/convertDoxygenXml.js:193-260 | filing any memberdef keeps the two builders' classes equal up to the erased fields |
| Builder.FileMembersAgree | scripts/convertDoxygenXml.js:168-262 | filing a section keeps them equal |
| Builder.FileSectionsAgree | scripts/convertDoxygenXml.js:163-263 | filing all sections keeps them equal |
| Builder.LegacyMatchesServer | scripts/convertDoxygenXml.js:129-266 | any class the server builds, the legacy script builds equally, up to contributor tag, parameter descriptions and variable types |
| Builder.BuildAttribute | server/src/parser.ts:440-463 | a struct attribute exists exactly when it has a definition, and its definition loses the first ` Struct::` qualification |
| Builder.AttributeUnqualified | server/src/parser.ts:445 | `T S::a` becomes `T a` |
| Builder.SectionAttributes | server/src/parser.ts:440-463 | a section gives one attribute per memberdef |
| Builder.AttributeCount | server/src/parser.ts:434-465 | a struct has one attribute per memberdef of all its sections |
| Builder.BuildStruct | server/src/parser.ts:404-468 | a struct record exists exactly when its sections are readable, never without sections; it carries name, description and location, and its attributes are those of every section's memberdefs in document order |
| Builder.StructAttributeAt | server/src/parser.ts:434-465 | attribute `j` of section `k` sits right after the memberdefs of the earlier sections and is the attribute built from that section's `j`-th memberdef |
| Builder.AttributesAt | server/src/parser.ts:434-465 | the attributes are grouped by section, in section order, one per memberdef in memberdef order |
| Builder.AttributesPrefix | server/src/parser.ts:434-465 | the attributes of the first sections are a prefix of those of all sections |
| Builder.BuildStructs | server/src/parser.ts:404-468 | every struct builds, in order and keyed by its name, or the whole run fails |
| Builder.ProcessStructs | server/src/parser.ts:401-471 | the struct map has distinct keys, and it exists exactly when every compound builds |
| Builder.StructsKeyedByName | server/src/parser.ts:467 | the struct record stored under a name is that of the last struct compound with that name; a name no struct carries has no record |
| Builder.Selected | server/src/parser.ts:135-145 | one entry per file whose name has the prefix, in directory order, each that file's compound keyed by its id and tagged |
| Builder.Prefixed | server/src/parser.ts:136-139 | a file is kept exactly when its name starts with the prefix |
| Builder.PrefixedKeepsOrder | server/src/parser.ts:136-139 | the kept files are in directory order |
| Builder.Tagged | server/src/parser.ts:143 | a found compound is keyed by its own id |
| Builder.FindInPath | server/src/parser.ts:129-148 | the result has distinct keys, and an id is a key exactly when some file with the prefix holds a compound with that id |
| Builder.FoundIffPrefixed | server/src/parser.ts:136-145 | an id is found exactly when some file with the prefix holds a compound with that id |
| Builder.FindInPathLastWins | server/src/parser.ts:136-145 | an id is absent exactly when no file with the prefix has it; otherwise it holds the tagged compound of the last such file, later files overwriting earlier ones |
| Builder.FoundCompoundsSelected | server/src/parser.ts:129-148 | an id is found exactly when a file with the prefix holds it; what is found is stored under its own id and carries the contributor tag when one is given |
| Builder.FoundTagged | scripts/convertDoxygenXml.js:6-27 | the legacy search tags every compound with the contributor |
| Builder.LegacyProcessData | scripts/convertDoxygenXml.js:124-277 | the legacy class map has distinct keys and every class carries the contributor |
| Builder.LegacyClassTagged | scripts/convertDoxygenXml.js:134 | a class built from the legacy search carries the contributor it was found with |
| Builder.BuildRoot | server/src/parser.ts:111-117 | a root's entry exists exactly when both its classes and its structs build, and both maps have distinct keys |
| Indexer.Dedupe | server/src/parser.ts:53-56 | deduplication keeps only folders it was given |
| Indexer.DedupeDistinctUris | server/src/parser.ts:53-56 | no two folders left share a uri |
| Indexer.DedupeKeepsFirst | server/src/parser.ts:53-56 | the first folder with each uri is kept |
| Indexer.DedupeKeepsUris | server/src/parser.ts:53-56 | every uri given is still present |
| Indexer.DedupeKeepsOrder | server/src/parser.ts:53-56 | the folders kept are in their original order |
| Indexer.DedupeDistinct | server/src/parser.ts:53-56 | folders with distinct uris are returned unchanged |
| Indexer.DedupeIdempotent | server/src/parser.ts:53-56 | deduplicating twice is the same as once |
| Indexer.WorkspaceFolders | server/src/parser.ts:33-57 | the roots have distinct uris and each is an editor folder or a configured path |
| Indexer.ConfiguredFolders | server/src/parser.ts:36-51 | exactly the non-empty configured paths become folders, one each, with uri `file://` plus the path and the path's basename as name; they are listed in settings order, which is the order of the reads when they complete one after another (see "## Left out") |
| Indexer.SetPaths | server/src/parser.ts:43-44 | a path is kept exactly when its setting is present and non-empty |
| Indexer.SetPathsKeepOrder | server/src/parser.ts:36-51 | the kept paths are in settings order |
| Indexer.TargetsOf | server/src/parser.ts:61-66 | a change re-indexes exactly the roots whose uri it starts with, as paths |
| Indexer.RootPath | server/src/parser.ts:64 | a uri that starts with `file://` loses exactly that prefix; one without the scheme is unchanged |
| Indexer.ChangeTargets | server/src/parser.ts:59-68 | a root is re-indexed exactly when some changed file lies under it |
| Indexer.TouchedStep | server/src/parser.ts:61-62 | the targets of one more change add exactly the roots that change lies under |
| Indexer.PluginFolders | server/src/parser.ts:97-100 | one input folder per engine-plugin key, in key order, each the root joined with the key minus its `vuengine//` prefix |
| Indexer.EnginePluginKeys | server/src/parser.ts:98 | a key is kept exactly when it starts with `vuengine//` |
| Indexer.EnginePluginKeysKeepOrder | server/src/parser.ts:97-98 | the kept keys are in their original order |
| Indexer.InputFolders | server/src/parser.ts:88-103 | a root not named `plugins` is its own input; a `plugins` root reads the game configuration, and only a malformed one is an error |
| Indexer.NoEnginePluginsNoInput | server/src/parser.ts:97-105 | a `plugins` root with no engine plugins has an empty input list |
| Indexer.NoEnginePluginsNoFolders | server/src/parser.ts:97-100 | no engine-plugin key gives no folder |
| Indexer.Begin | server/src/parser.ts:77-105 | a busy root returns at once; otherwise it is marked busy, and the extractor runs only on a non-empty input list |
| Indexer.Finish | server/src/parser.ts:105-126 | the busy mark is cleared; a successful build replaces the root's entry, anything else leaves the index as it was, and other roots are untouched |
| Indexer.Parse | server/src/parser.ts:77-127 | a busy root is left alone; an empty input list changes nothing; a malformed configuration leaves the root busy forever; a successful extraction and build stores the root's new entry; otherwise the index is unchanged; other roots' entries never change |
| Indexer.FailureKeepsEntry | server/src/parser.ts:106-123 | a failed extraction or build keeps the root's previous entry |
| Indexer.BusyGuard | server/src/parser.ts:78-82 | a second parse of a busy root changes nothing, and parsing another root does not clear its mark |
| Indexer.ParseAll | server/src/parser.ts:70-75 | re-parsing a batch touches only the entries of the roots in it |
| Documents.LineAt | server/src/handlers/completion.ts:9 | a cursor line exists exactly when the line number is within the text's line count, and it holds no line break |
| Documents.UntilCursor | server/src/handlers/completion.ts:11 | the text before the cursor, or the whole line past its end |
| Documents.AfterCursor | server/src/handlers/definition.ts:10 | the text from the cursor on, or nothing past the end |
| Documents.CursorSplitsLine | server/src/handlers/definition.ts:9-10 | the two halves make up the line |
| Completion.CurrentWord | server/src/handlers/completion.ts:11-12 | the longest suffix before the cursor with no whitespace, comma or parenthesis |
| Completion.ReplaceRangeIsWord | server/src/handlers/completion.ts:89-100 | the replace range lies on the cursor line, ends at the cursor and covers exactly the current word |
| Completion.ClassItems | server/src/handlers/completion.ts:28-86 | a class offers itself, then its methods by qualified name, then typedefs, then enums, never its variables |
| Completion.ClassesItems | server/src/handlers/completion.ts:28-86 | one item per class, method, typedef and enum of the group, none of them a snippet |
| Completion.ClassesItemsAt | server/src/handlers/completion.ts:28-86 | item `i` of class `k` sits right after the items of the classes before it and is that class's item `i`: grouped by class, in class order |
| Completion.IndexItems | server/src/handlers/completion.ts:26-87 | one item per class, method, typedef and enum of every root, none a snippet |
| Completion.IndexItemsAt | server/src/handlers/completion.ts:26-87 | item `i` of root `k` sits right after the items of the roots before it and is item `i` of that root's classes, labelled with the root's basename |
| Completion.IndexItemOfClass | server/src/handlers/completion.ts:26-87 | item `i` of class `j` of root `k` sits after the earlier roots' and earlier classes' items and is that class's item `i` with the root's basename as contributor |
| Completion.ItemsOfClass | server/src/handlers/completion.ts:26-87 | every class and method of every root is offered, labelled with the root's basename |
| Completion.ClassInClasses | server/src/handlers/completion.ts:28-86 | every class and method of a group is offered |
| Completion.Prepare | server/src/handlers/completion.ts:93-111 | each item keeps its place and gets one edit over the word range, inserting its insert text or else its label |
| Completion.KeepMatching | server/src/handlers/completion.ts:115 | an item is kept exactly when its lower-cased label starts with the lower-cased word |
| Completion.KeepMatchingKeepsOrder | server/src/handlers/completion.ts:115 | the kept items are in their original order |
| Completion.Filter | server/src/handlers/completion.ts:113-116 | without `::` in the word everything is offered; with it, exactly the items whose label starts with the word, ignoring case |
| Completion.FilterKeepsOrder | server/src/handlers/completion.ts:113-116 | filtering never reorders |
| Completion.ParamNames | server/src/handlers/completion.ts:144-147 | empty parameter text has no names; otherwise one name per comma-separated part, in order, each the name of that part trimmed |
| Completion.ParamName | server/src/handlers/completion.ts:147 | a parameter's name is the text after its last space, trimmed |
| Completion.ParamLines | server/src/handlers/completion.ts:146-150 | one `@param` line per name, with tab stops numbered from 2 |
| Completion.MethodSnippet | server/src/handlers/completion.ts:137-154 | a method snippet is the summary line with tab stop 1, then one line per parameter name, then a return line unless the type is `void` |
| Completion.SnippetLines | server/src/handlers/completion.ts:124-164 | the class form when the next line declares a class, else the method form when it declares a method, else the fallback |
| Completion.MethodStopsDistinct | server/src/handlers/completion.ts:140-153 | no two parameter lines, nor a parameter line and the return line, share a tab stop |
| Completion.StopNumberDetermined | server/src/handlers/completion.ts:148-153 | a tab stop's text fixes its number |
| Completion.OnCompletion | server/src/handlers/completion.ts:6-122 | a list exactly when the cursor line exists, always incomplete, holding the snippet then the items of every root's classes in the index, prepared over the word and filtered by it |
| Completion.OnCompletionAsWritten | server/src/handlers/completion.ts:6-42 | as the code walks the index: a list exactly when the cursor line exists and the index is empty, and then only the snippet, prepared and filtered; any indexed root makes the walk throw |
| Completion.CompletionWalkDiffers | server/src/handlers/completion.ts:26-42 | with the cursor line present, the walk as written fails for every non-empty index while the corrected handler answers; on an empty index the two are equal |
| Completion.UnqualifiedOffersAll | server/src/handlers/completion.ts:14-121 | without `::` the snippet comes first, then every index item unchanged and in order, each replacing the word range |
| Definition.CursorWord | server/src/handlers/definition.ts:11-17 | the word is the non-space text before the cursor joined to the text after it up to `(`, `;` or a space; with `::` after the cursor it is the part of that joined text before its first `::` |
| Definition.WordAroundCursor | server/src/handlers/definition.ts:9-17 | with the cursor inside an identifier, the word is the whole identifier |
| Definition.TargetOf | server/src/handlers/definition.ts:21-37 | the body when there is one, else the declaration; the start is made zero-based and the end is not |
| Definition.TargetNotEmpty | server/src/handlers/definition.ts:23-34 | a target spans at least one line when its body is not reversed |
| Definition.LastMatch | server/src/handlers/definition.ts:42-48 | within one group the last symbol of the name wins; there is no match only when none has the name |
| Definition.StepClass | server/src/handlers/definition.ts:40-49 | a class of the name always overrides; otherwise an earlier result stands, else the methods, then enums, then typedefs are consulted |
| Definition.StepFinds | server/src/handlers/definition.ts:40-49 | after a class a result exists exactly when one existed before or the class declares the word |
| Definition.FindSymbol | server/src/handlers/definition.ts:39-50 | a target is found exactly when some class declares the word |
| Definition.FirstDeclaringClassWins | server/src/handlers/definition.ts:39-50 | when no class carries the name, the first class that declares the word decides the target (its methods, then enums, then typedefs) and later classes do not change it |
| Definition.LastNamedClassWins | server/src/handlers/definition.ts:39-50 | the last class with the name gives the target |
| Definition.OnDefinition | server/src/handlers/definition.ts:6-62 | a result exactly when the cursor line exists; null exactly when nothing is found; the target's uri is joined onto a non-empty engine path |
| SignatureHelp.CallHead | server/src/handlers/signatureHelp.ts:13-14 | the text before the last `(`; without one, the line minus its last character |
| SignatureHelp.MethodName | server/src/handlers/signatureHelp.ts:14 | the name is the last whitespace-free run of the call head |
| SignatureHelp.ActiveParameter | server/src/handlers/signatureHelp.ts:13-15 | with a `(` before the cursor, the number of commas since the last one; without one, 1 when the text before the cursor ends in a comma and 0 otherwise |
| SignatureHelp.ActiveParameterAdvances | server/src/handlers/signatureHelp.ts:15 | typing a comma moves to the next argument, and any other character keeps it |
| SignatureHelp.AllMethods | server/src/handlers/signatureHelp.ts:18-21 | a method is searched exactly when it belongs to some class of some root |
| SignatureHelp.ClassesMethods | server/src/handlers/signatureHelp.ts:19-20 | a method is listed exactly when some class has it |
| SignatureHelp.FirstNamed | server/src/handlers/signatureHelp.ts:18-36 | the first method with the qualified name is chosen; none only when no method has it |
| SignatureHelp.SignatureOf | server/src/handlers/signatureHelp.ts:23-30 | the label is the definition followed by the argument string, the active parameter is passed through, and there is one parameter entry per stored parameter with its label and description |
| SignatureHelp.OnSignatureHelp | server/src/handlers/signatureHelp.ts:9-39 | a result exactly when the cursor line exists; one signature of the first method of the name, or null |
| SignatureHelp.EarlierClassShadows | server/src/handlers/signatureHelp.ts:18-36 | once a class has the method, later classes never change the answer |
| SignatureHelp.FirstNamedAppend | server/src/handlers/signatureHelp.ts:21 | a match in a prefix is not disturbed by what follows |
| DocumentSymbols.GetRanges | server/src/handlers/documentSymbol.ts:7-78 | a body in this file is spanned and its first line selected; else a declaration in this file is spanned and selected; else the origin |
| DocumentSymbols.SelectionWithinRange | server/src/handlers/documentSymbol.ts:7-78 | the selection lies within the range, as the protocol requires, when the body is not reversed |
| DocumentSymbols.ClassNode | server/src/handlers/documentSymbol.ts:95-116 | a class symbol has its methods, then its variables, as children |
| DocumentSymbols.ClassSymbols | server/src/handlers/documentSymbol.ts:118-134 | a class adds its enums, its typedefs, then itself at top level, and only the last is a class |
| DocumentSymbols.TreeOf | server/src/handlers/documentSymbol.ts:93-137 | the outline holds as many symbols as the classes add, enums, typedefs and the class each |
| DocumentSymbols.TreeOfAt | server/src/handlers/documentSymbol.ts:93-137 | symbol `i` of class `k` sits right after the symbols of the classes before it and is that class's symbol `i`: grouped by class, in class order |
| DocumentSymbols.ClassNodes | server/src/handlers/documentSymbol.ts:93-135 | one class symbol per class, in order |
| DocumentSymbols.ClassSymbolsHoldOneClass | server/src/handlers/documentSymbol.ts:118-134 | what one class adds holds exactly one class symbol |
| DocumentSymbols.OneClassSymbolEach | server/src/handlers/documentSymbol.ts:93-137 | the top-level class symbols are exactly one per selected class, in order |
| DocumentSymbols.SelectClasses | server/src/handlers/documentSymbol.ts:87 | exactly the classes declared in the header are selected |
| DocumentSymbols.SelectKeepsOrder | server/src/handlers/documentSymbol.ts:87 | selection keeps the classes' order |
| DocumentSymbols.HeaderOf | server/src/handlers/documentSymbol.ts:84 | the last two characters of the path become `.h`; a path shorter than two characters becomes `.h` |
| DocumentSymbols.HeaderOfSource | server/src/handlers/documentSymbol.ts:84 | the header of `x.c` is `x.h` |
| DocumentSymbols.OnDocumentSymbol | server/src/handlers/documentSymbol.ts:80-138 | the outline is, class by class in index order, the symbols of the classes declared in the matching header, ranged in the file's path relative to the engine |
| InlayHints.VisibleContent | server/src/handlers/inlayHint/on.ts:7-8 | splitting the visible text gives back exactly the requested lines; a range whose end line is not after its start line shows nothing |
| InlayHints.PositionByCharOffset | server/src/handlers/inlayHint/on.ts:46-54 | the line is the number of line breaks before the cut, and the character is the distance from the last one |
| InlayHints.FirstLinePosition | server/src/handlers/inlayHint/on.ts:46-54 | on the first line the character is the offset itself |
| InlayHints.StructHints | server/src/handlers/inlayHint/on.ts:28-38 | one hint per attribute, labelled `i:` with tooltip `i`, a parameter hint padded on the right |
| InlayHints.HintLabelsDistinct | server/src/handlers/inlayHint/on.ts:30-36 | no two hints of one initialiser share a label |
| InlayHints.AllHints | server/src/handlers/inlayHint/on.ts:24-39 | one hint per attribute of every initialiser |
| InlayHints.AllHintsAt | server/src/handlers/inlayHint/on.ts:24-39 | hint `i` of initialiser `k` follows the hints of the initialisers before it and is that initialiser's hint `i`: grouped in order, numbered afresh per initialiser |
| InlayHints.OnInlayHint | server/src/handlers/inlayHint/on.ts:5-44 | null exactly when there are no hints; otherwise every hint of the visible text, in order |
| InlayHints.NoHintsIffNoAttributes | server/src/handlers/inlayHint/on.ts:43 | no hints exactly when no initialiser has an attribute |
| OrderedMaps.Keys | server/src/handlers/completion.ts:26 | one key per entry, in insertion order |
| OrderedMaps.Values | server/src/parser.ts:255 | one value per entry, in insertion order |
| OrderedMaps.Put | server/src/parser.ts:395 | assignment sets the key's value and leaves every other key alone; a new key goes last and an existing one keeps its place |
| OrderedMaps.PutAllLastWins | server/src/parser.ts:395 | after a run of assignments each key holds the last value written to it |
| Strings.Trim | server/src/parser.ts:195 | the result has no whitespace at either end and is no longer than the input |
| Strings.TrimOfPadded | server/src/parser.ts:195 | trimming removes exactly the surrounding whitespace |
| Strings.TrimIdempotent | server/src/parser.ts:195 | trimming twice is trimming once |
| Strings.TrimJoinBlankLine | server/src/parser.ts:200-205 | trimming two trimmed parts joined by a blank line drops the separator exactly when a part is empty |
| Strings.SplitJoin | server/src/handlers/inlayHint/on.ts:7-8 | joining the pieces of a split gives back the text |
| Strings.JoinSplit | server/src/handlers/inlayHint/on.ts:7-8 | splitting separator-free pieces joined by the separator gives back the pieces |
| Strings.SplitCount | server/src/handlers/signatureHelp.ts:15 | a split has one more piece than separators |
| Strings.JoinStarts | server/src/parser.ts:195 | a join starts with its first part |
| Strings.JoinEndsWithLast | server/src/parser.ts:195 | a join ends with its last part |
| Strings.LastPieceLength | server/src/handlers/inlayHint/on.ts:47-52 | the last piece is as long as the text after the last separator |
| Strings.LastPieceIsSuffix | server/src/handlers/inlayHint/on.ts:47-52 | the last piece of a split is a suffix of the text |
| Strings.LastPieceAfterLastSeparator | server/src/handlers/completion.ts:147 | the last piece of a split is exactly the text after the last separator |
| Strings.Slice | server/src/handlers/definition.ts:9 | slicing within bounds is the subsequence |
| Strings.At | server/src/parser.ts:375 | indexing past either end gives `undefined` |
| Strings.TrailingRun | server/src/handlers/completion.ts:12 | the last piece of a split on a character class is the longest suffix free of it |
| Strings.LeadingRun | server/src/handlers/definition.ts:12 | the first piece of a split on a character class is the longest prefix free of it |
| Strings.IndexOf | server/src/handlers/definition.ts:15 | the first occurrence, and none only when the pattern occurs nowhere |
| Strings.BeforeFirst | server/src/handlers/definition.ts:16 | the first piece of a split on a pattern is a prefix holding no occurrence, shorter exactly when the pattern occurs, and then followed by the first occurrence |
| Strings.ReplaceFirstAtStart | server/src/parser.ts:64 | replacing a prefix replaces it at the start |
| Strings.LastIndexOfChar | server/src/handlers/signatureHelp.ts:13 | the last occurrence, -1 when none |
| Strings.CountChar | server/src/handlers/signatureHelp.ts:15 | zero exactly when the character does not occur |
| Strings.ToLower | server/src/handlers/completion.ts:115 | each character is lower-cased in place |
| Strings.NatToString | server/src/handlers/inlayHint/on.ts:31-35 | a number's decimal text is non-empty digits, starting with 0 only for zero |
| Strings.DecimalRoundTrip | server/src/handlers/inlayHint/on.ts:31-35 | reading the decimal text back gives the number |
| Strings.NatToStringInjective | server/src/handlers/inlayHint/on.ts:31-35 | different numbers have different texts |

## Left out

- I/O is left out: the Doxygen run, temporary directories, directory listing and file reading. The extractor's output is an input, and `parse` receives it as an `Extraction`.
- The compact XML-to-object conversion is represented by the `Doxygen` datatypes. One element or several is a sequence, and a missing element is the empty sequence.
- `path.relative`, `path.join`, `path.basename` and `path.parse` are uninterpreted function parameters (`PathOps`). Line numbers arrive already read as integers, so `parseInt` and its NaN are not modelled.
- Asynchrony is not modelled. `Promise.all`, the awaited configuration reads, and the interleaving of `parse` calls appear only as a sequence of whole calls and as the busy set.
- Indexer.ConfiguredFolders: lists the configured folders in settings order. The code pushes each folder after its own awaited read inside `Promise.all`, so its order is the order in which the reads complete; the two agree when the reads complete one after another.
- The completion snippet's two regular expressions are inputs (`Matchers`), not parsed. So are the inlay-hint handler's struct and attribute expressions, which are given as match offsets (`StructMatch`).
- Characters are Unicode scalar values rather than UTF-16 code units. `toLowerCase` is modelled on ASCII letters only.
- Completion.OnCompletion: walks each root's classes (`Completion.RootsOf`), as signature help does. The code as written walks one level too shallow: it takes `Object.values` of a root's entry, which holds the two maps `classes` and `structs`, so `c.methods.forEach` throws as soon as the index has a root, and only an empty index yields a list. That behaviour is Completion.OnCompletionAsWritten (see "## Findings"). Item order and content per class follow the code.
- Go-to-definition and the outline read the static engine index, not the per-root one. The model passes them a class map.
- DocumentSymbols.OnDocumentSymbol never returns null: the empty-result check is never true, because `filter` returns an array.
- The server wiring is not part of this model: server/src/server.ts, the formatter (server/src/handlers/documentFormatting.ts), the type hierarchy handlers, the client extension and the mock data.
- The legacy script's top-level driver (fixed paths, writing `data.json`) is I/O and is left out. Its `processData` and `findInPath` are modelled.
- MethodRecords.ParametersAsWritten: its contract states only the length of the list. The contents of the written code's list are pinned by MethodRecords.StaticParametersShifted and MethodRecords.AsWrittenAgreesWithReceiver.
- MethodRecords.ArgPieces: its contract states only that there is at least one piece. Its contents are given by MethodRecords.ArgPiecesOfList and MethodRecords.ExamplePieces.
- Builder.BuildMethod: stores the corrected parameter list (MethodRecords.Parameters), not the list the code builds. The two differ only for methods without a receiver, static methods and `getInstance` (see "## Findings"). For every method with a receiver and arguments, Builder.BuildMethodAsWritten proves the stored list is the code's list.
- InlayHints.AllHints: its contract states the count of hints. Where each hint sits and what it holds is stated by InlayHints.AllHintsAt.

## Findings

| source | as written | input that shows it | evidently intended | confidence | as-written member | corrected member |
|---|---|---|---|---|---|---|
| server/src/parser.ts:356-377 | parameter labels are read from the argument pieces starting at index 1, as if a receiver always came first; static methods and `getInstance` have no receiver (the same code is at scripts/convertDoxygenXml.js:229-248) | a static method `foo(int a, int b)` stores its parameters as `int b` and `undefined` | each named parameter is labelled with its own argument piece, `int a` and `int b` | not executed | MethodRecords.ParametersAsWritten | MethodRecords.Parameters |
| server/src/handlers/completion.ts:26-42 | each root's entry, `{classes, structs}` as server/src/parser.ts:114-117 writes it, is walked with `Object.values` as if its values were classes, then `c.methods.forEach` is called on each | any index with one root: the first value is the `classes` map, whose `methods` is not an array, so the handler throws and the client gets no completions | every class of every root is offered, as signature help walks `processedData[key].classes` | not executed | Completion.OnCompletionAsWritten | Completion.OnCompletion |
