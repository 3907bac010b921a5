# architect-linter, modelled in Dafny

architect-linter checks a TypeScript project against architectural rules. This
project models its core.

**Per-file rule checker** (`analyze_file`). A parsed module is an ordered list of
items, and the checker returns the first violation it meets. There are three kinds
of violation:
- an import that matches a configured forbidden rule, compared case-insensitively;
- a controller that imports a `.repository`;
- a method of a plain class declaration that is longer than the limit.

**Dependency graph and cycle detector** (`circular.rs`). This part covers:
- node keys: the path relative to the root, with `\` turned into `/`, lower-cased;
- import resolution against a set of existing paths, using a fixed candidate order;
- graph construction, which aborts on the first file whose imports cannot be
  extracted;
- the depth-first cycle search, and the text that describes a cycle.

**AI-response helpers** (`ai.rs`):
- the brace-depth scanner that extracts the first JSON object from a model's reply;
- the string-or-array field rule, including serde_json's rejection of an array
  with elements left over;
- provider dispatch, and the ordered fallback over configured providers.

**Configuration and driver** (`main.rs`, `config.rs`):
- the lenient reading of `architect.json`, with its defaults;
- the wizard's menus and the rule conversion;
- which files of the directory walk are analysed;
- the error count and the exit code.

Modules:
- `Wrappers`, `Text`, `Json`: shared helpers. They hold Option and Result, ASCII
  lower-casing, substring search, trimming, and a small JSON value with
  serde_json's lenient accessors.
- `Paths`: the `std::path` operations the resolver uses. These are `parent`,
  `join`, `file_name`, `extension`, `with_extension` and `strip_prefix`, on
  `/`-separated strings.
- `Analyzer`, `Circular`, `Ai`, `Config`, `Linter`: the four parts above.
- `RelativeImports`: the worked example behind the finding below.

Parameters stand in for the foreign and effectful parts:
- the swc parser becomes a parsed module or a front-end error;
- the file system becomes a set of existing paths and a walk given as a list of
  entries;
- import extraction is a function from a file to its import sources;
- the HTTP providers become a transport function;
- the framework detector's answer is a `Framework` argument.

`main` never runs the cycle detector, so the exit code depends only on the per-file
checks.

## Model

| member | source | states |
|---|---|---|
| Analyzer.CreateError | src/analyzer.rs:89-99 | the diagnostic starts `span.lo - start_pos` bytes into the file and is `span.hi - span.lo` long |
| Analyzer.FirstMatchingRule | src/analyzer.rs:34-49 | the rule found matches both patterns and every earlier rule fails to match; `None` only when no rule matches |
| Analyzer.CheckImport | src/analyzer.rs:29-59 | an import fails iff some configured rule matches or (the path has "controller" and the source ".repository"); the first matching rule wins; the built-in rule applies only when no configured rule does |
| Analyzer.CheckMembers | src/analyzer.rs:66-83 | `None` iff no method is longer than the limit; otherwise the error is that of the first method whose `hi - lo` exceeds the limit |
| Analyzer.CheckItem | src/analyzer.rs:27-84 | items that are neither imports nor plain class declarations never fail; length errors come only from class declarations, import errors only from imports |
| Analyzer.CheckItems | src/analyzer.rs:27-86 | `None` iff every item passes; otherwise the error of the first failing item, all earlier items passing |
| Analyzer.AnalyzeFile | src/analyzer.rs:7-87 | a front-end failure is returned as such; otherwise `Ok` iff every item passes, and an error is the first offending item's violation |
| Analyzer.LaterItemsIrrelevant | src/analyzer.rs:27-85 | fail fast: appending items after a failing prefix does not change the result |
| Analyzer.LowerContainsIsCaseInsensitive | src/analyzer.rs:25-39 | `contains` on lower-cased strings is exactly a case-insensitive occurrence test |
| Analyzer.LowerOccursAt | src/analyzer.rs:25-39 | at one position, an occurrence of the lower-cased pattern in the lower-cased text is exactly an occurrence up to ASCII case |
| Analyzer.RuleMatchingIgnoresCase | src/analyzer.rs:34-39 | a rule applies iff its `from` occurs in the path and its `to` in the source, both ignoring case |
| Analyzer.AnalyzeFileIgnoresPathCase | src/analyzer.rs:25 | two paths equal up to ASCII case get the same verdict |
| Analyzer.ControllerMayNotImportRepository | src/analyzer.rs:51-58 | with no configured rules, a controller importing a repository is rejected with the built-in message at the import's span |
| Analyzer.MethodLimitIsStrict | src/analyzer.rs:68-72 | a method exactly `max_lines` long passes and one line longer fails |
| Analyzer.FirstLongMethodReported | src/analyzer.rs:66-83 | among methods of 5, 12 and 200 lines under a limit of 60, the 200-line method is reported |
| Ai.Step | src/ai.rs:24-41 | depth changes by one only for a brace outside a string that is not escaped; an escaped character changes nothing else; an escape starts only at a backslash inside a string; an unescaped `"`, and nothing else, enters or leaves a string |
| Ai.EscapeShieldsNextChar | src/ai.rs:24-31 | inside a string, a backslash followed by any character, `"` included, leaves the state unchanged |
| Ai.ScanFrom | src/ai.rs:21-44 | a returned length ends on a `}` inside the text |
| Ai.FindChar | src/ai.rs:14 | the first index holding the character, `None` iff it is absent |
| Ai.ExtractFrom | src/ai.rs:14-44 | `None` without a `{`; a result is a slice of the text that starts at its first `{` and ends with `}` |
| Ai.ExtractJsonObject | src/ai.rs:6-45 | the same, stated for the fence-stripped, trimmed reply |
| Ai.ScanFindsFirstZero | src/ai.rs:21-44 | the scan stops at the first prefix whose depth is zero, and finds nothing when the depth stays at or above one |
| Ai.ExtractFromIsFirstBalancedPrefix | src/ai.rs:14-44 | a result is the shortest prefix from the first `{` with depth zero, every shorter prefix having depth at least one; `None` means the depth never returns to zero |
| Ai.ExtractJsonObjectIsFirstBalancedPrefix | src/ai.rs:6-45 | the same for the whole function |
| Ai.StringOrArray | src/ai.rs:64-81 | a string decodes to itself and a one-element array of a string to that string; an empty array, a first element that is not a string, and any element left over are each rejected with their own error; nothing else decodes |
| Ai.StringOrArraySingleton | src/ai.rs:71-78 | a one-element array holding a string decodes as the string itself does |
| Ai.StringOrArrayRejectsMore | src/ai.rs:71-81 | an array with a string first and further elements after it is rejected, because the visitor reads only one element |
| Ai.BackendFor | src/ai.rs:180-188 | Claude goes to the Claude back end, Gemini to Gemini, and OpenAI, Groq, Ollama, Kimi and DeepSeek to the OpenAI-compatible one |
| Ai.FallbackFrom | src/ai.rs:199-224 | the loop fails only with the all-failed error |
| Ai.QueryWithFallback | src/ai.rs:192-225 | an empty configuration list, and only that, gives the no-configuration error |
| Ai.FallbackFromFirstSuccess | src/ai.rs:207-213 | from any position, the reply is that of the first later configuration that succeeds |
| Ai.FallbackFromAllFail | src/ai.rs:214-224 | when every remaining call fails, the loop fails with the last configuration's error |
| Ai.FallbackReturnsFirstSuccess | src/ai.rs:192-225 | the result is the first successful reply in list order, and configurations after it do not affect the result |
| Ai.FallbackFailsAfterAll | src/ai.rs:214-224 | when every configuration fails, the result carries the last configuration's error |
| Ai.FallbackSucceedsIffSomeSucceeds | src/ai.rs:192-225 | the fallback succeeds iff some configuration's call succeeds |
| Config.FrameworkName | src/config.rs:20-28 | every framework has a name of at least five characters |
| Config.FrameworkNameInjective | src/config.rs:20-28 | distinct frameworks have distinct names |
| Config.ToForbiddenRules | src/config.rs:86-92 | the conversion keeps length and order and copies `from` and `to` |
| Config.SaveConfigFromWizard | src/config.rs:78-112 | the written rules are the converted ones; the pattern is always MVC; the returned context has the given limit, the detected framework and the written rules |
| Paths.StripTrailing | src/circular.rs:180-186 | trailing `/` and `/.` are dropped, the result is a prefix of the path and keeps its root, and a path without them is unchanged |
| Paths.FileName | src/circular.rs:186 | a file name is the last component once trailing `/` and `/.` are dropped, and is never empty, `.` or `..` |
| Paths.FileNameExists | src/circular.rs:186 | a path has a file name exactly when that last component is not empty, `.` or `..` |
| Paths.SplitLast | src/circular.rs:180-186 | for a directory prefix followed by one component, the file name is the component (none for `..`) and the parent is the prefix without its trailing separators |
| Paths.ParentOfChild | src/circular.rs:180 | the parent of `dir/name` is `dir` |
| Paths.TrailingIgnored | src/circular.rs:180-186 | a trailing `/` or `/.` changes neither the file name nor the parent |
| Paths.SplitDot | src/main.rs:195 | the split is at the last dot that is not the name's first character; there is none iff no such dot exists or the name is `..` |
| Paths.Stem | src/circular.rs:186 | the stem is a prefix of the file name, and not empty when the name is not |
| Paths.Extension | src/main.rs:195 | there is no extension iff the name is `..` or has no dot after its first character; an extension is the dot-free suffix after the last such dot |
| Paths.StemExtensionRoundTrip | src/circular.rs:186 | stem, dot and extension put back together give the name; without an extension the stem is the whole name |
| Paths.WithExtension | src/circular.rs:186 | a path without a file name is unchanged; otherwise the path is cut after the file stem and `.ext` is appended, so the new file name is the stem plus `.ext` and the parent stays the same |
| Paths.WithExtensionIgnoresTrailing | src/circular.rs:186 | a trailing `/` or `/.` does not change the result |
| Paths.Parent | src/circular.rs:180 | the parent is shorter than the path; the empty path and `/` have none |
| Paths.Join | src/circular.rs:181 | an absolute part replaces the base; otherwise it follows the base after one separator |
| Paths.StripPrefix | src/circular.rs:214 | a path that neither starts with the root nor is a prefix of it has no remainder; the root itself and every path below it have one; a remainder has no leading `/` or `./` and no trailing `/` or `/.` |
| Paths.StripPrefixOfJoin | src/circular.rs:214 | a relative path joined onto the root strips back to itself, with or without a trailing `/` or `/.` on the joined path |
| Paths.JoinLexical | src/circular.rs:180-181 | without a leading `./` or `../`, joining lexically is plain `join` |
| Paths.JoinLexicalDotSlash | src/circular.rs:180-181 | a leading `./` is consumed |
| Paths.JoinLexicalDotDot | src/circular.rs:180-181 | a leading `../` moves to the base's parent; a base without a parent is joined as written |
| Circular.NormalizeFilePath | src/circular.rs:212-222 | a key has no `\` and no upper-case letter |
| Circular.NormalizeUnderRoot | src/circular.rs:214-218 | a file under the root is keyed by its relative path with `\` turned into `/` and lower-cased |
| Circular.KeyIgnoresCaseAndSeparators | src/circular.rs:212-222 | spellings that differ only in letter case or separator style get the same key |
| Circular.KeyOfPlainPath | src/circular.rs:214-218 | a relative path already in key form is its own key |
| Circular.Candidates | src/circular.rs:184-205 | seven candidates, the last being the joined path as is |
| Circular.FirstExisting | src/circular.rs:185-208 | the first candidate in the list that exists; `None` iff none exists |
| Circular.ResolveWith | src/circular.rs:168-209 | external specifiers and parentless files resolve to `None`; otherwise the first existing candidate, in order |
| Circular.ResolveImportPath | src/circular.rs:168-209 | the same with textual `join`; a result always exists |
| Circular.ResolveImportPathLexical | src/circular.rs:168-209 | the same with `./` and `../` consumed while joining |
| Circular.DotSlashIsRelative | src/circular.rs:170-177 | a `./` specifier is never treated as external |
| Circular.DotSlashJoin | src/circular.rs:181-186 | joined as written, `./name` keeps its `./`: the `ts` candidate is `dir/./name.ts` |
| Circular.LexicalSiblingJoin | src/circular.rs:181-186 | with `./` consumed, the `ts` candidate is `dir/name.ts` |
| Circular.SiblingImportAsWritten | src/circular.rs:180-188 | as written, `./name` from a file in `dir` resolves to `dir/./name.ts` |
| Circular.SiblingImportLexical | src/circular.rs:180-188 | with `./` consumed, it resolves to `dir/name.ts` |
| Circular.ImportEdge | src/circular.rs:51-57 | one import gives at most one edge, and never one containing "node_modules" |
| Circular.EdgesOf | src/circular.rs:47-59 | a file has at most one edge per import, and no edge target contains "node_modules" |
| Circular.EdgesOfMembers | src/circular.rs:47-59 | a key is an edge iff some import resolves to a path with that internal key |
| Circular.EdgesOfConcat | src/circular.rs:47-57 | edges follow import order and repeated imports are kept |
| Circular.BuildGraphFrom | src/circular.rs:34-63 | the build fails iff some file's imports cannot be extracted, and the error names the first such file |
| Circular.BuildGraphFromKeys | src/circular.rs:35-60 | the nodes after a build are the prior nodes plus the keys of the files |
| Circular.BuildGraphFromEdges | src/circular.rs:35-60 | each node carries its prior edges followed by those of every file with its key, in file order |
| Circular.BuildGraph | src/circular.rs:34-63 | fails iff some extraction fails, naming the first; otherwise the nodes are exactly the file keys, even for files without imports, and each node's edges are those of its files in order |
| Circular.EdgesForKeyInternal | src/circular.rs:51-57 | no recorded edge contains "node_modules" |
| Circular.BuiltEdgesAreInternal | src/circular.rs:51-57 | every edge of a built graph is an internal key |
| Circular.FormatCycleDescription | src/circular.rs:231-247 | an empty cycle gives "Ciclo vacío", and only an empty cycle does; otherwise the header comes first and the warning line last |
| Circular.HopLinesNameEveryHop | src/circular.rs:237-241 | the hop lines hold an `a → b` line for each consecutive pair |
| Circular.HopLinesSnoc | src/circular.rs:237-241 | one more node at the end adds exactly the line for the hop from the previous last node to it |
| Circular.FormatCycleDescriptionLoop | src/circular.rs:231-247 | the indexed loop over the cycle builds exactly the description |
| Circular.DescriptionNamesEveryHop | src/circular.rs:231-247 | the description of a cycle shows each of its hops |
| Circular.Position | src/circular.rs:106 | the first position of the node on the path; `None` iff it is absent |
| Circular.ClosedCycle | src/circular.rs:106-108 | the closed cycle ends with the node it returns to |
| Circular.ClosedCycleIsCycle | src/circular.rs:104-113 | a back edge to a node on the current walk closes a real cycle: same first and last node, at least two nodes, every hop an edge |
| Circular.ClosedCycleOfSelfLoop | src/circular.rs:104-113 | a node's edge to itself closes the cycle `[node, node]` |
| Circular.DfsDetectCycles | src/circular.rs:88-120 | the node is pushed on `path` and `rec_stack` and popped again, so both come back as they were; the node is visited; earlier reports are kept; every new report is a real cycle with its description; every self-importing node visited here is reported; every edge out of a node visited here leads to a visited node; two nodes importing each other are reported, one closing the cycle, once the second of them is reached |
| Circular.SearchNeighbours | src/circular.rs:100-116 | the loop over the neighbours leaves `path` and `rec_stack` as they were, keeps earlier reports, and leaves every neighbour visited |
| Circular.VisitNeighbor | src/circular.rs:101-114 | one neighbour of the node being explored: the recursive call's `path` and `rec_stack` are threaded back unchanged, the neighbour ends up visited, earlier reports are kept, every report is a real cycle with its description, every self-importing node newly visited is reported, an edge from the node to itself is reported as a cycle, and a neighbour that imports the node back is reported when it is new or still on the stack |
| Circular.DetectCycles | src/circular.rs:66-85 | every key ends up visited; every report is a real cycle; every self-importing file is reported; for two files that import each other a cycle closing at one of them is reported; an acyclic graph gives no reports |
| Circular.MutualIsCycle | src/circular.rs:104-113 | two files that import each other form the cycle x → y → x |
| Circular.AnalyzeWith | src/circular.rs:251-259 | fails iff some extraction fails, with the build's error; otherwise the graph's nodes are the file keys and the cycles satisfy `DetectCycles`'s guarantees |
| Circular.AnalyzeCircularDependencies | src/circular.rs:251-259 | the same, with imports resolved as written by `resolve_import_path` |
| Circular.AnalyzeCircularDependenciesLexical | src/circular.rs:251-259 | the same, with `./` and `../` consumed while resolving |
| Circular.MutualPairReported | src/circular.rs:251-259 | when every file loads and two files' keys import each other, the analysis succeeds with a cycle closing at one of them |
| RelativeImports.AsWrittenEdges | src/circular.rs:47-57 | as written, `a.ts` importing `./b` gets the edge `sub/./b.ts` |
| RelativeImports.LexicalEdges | src/circular.rs:47-57 | with `./` consumed, the edge is `sub/b.ts` |
| RelativeImports.BuildTwoFiles | src/circular.rs:34-63 | two extractable files with distinct keys build the two-node graph of their edges |
| RelativeImports.RelativeImportCycleMissed | src/circular.rs:34-63 | as written, two files that import each other with `./` build a graph with no cycle |
| RelativeImports.RelativeImportCycleFound | src/circular.rs:34-63 | with `./` consumed, the same files build a graph with the cycle a → b → a |
| RelativeImports.LexicalGraphHasCycle | src/circular.rs:34-63 | the graph built with `./` consumed holds the two-file cycle a -> b -> a |
| RelativeImports.AnalysisMissesRelativeCycle | src/circular.rs:251-259 | as written, the analysis of two files that import each other with `./` succeeds and reports nothing |
| RelativeImports.CorrectedAnalysisReportsCycle | src/circular.rs:251-259 | with `./` consumed, the same analysis reports a cycle closing at one of the two files |
| Linter.LoadMaxLines | src/main.rs:88 | the field's value when it is a `u64`, otherwise 40 |
| Linter.PatternFromText | src/main.rs:91-95 | "Hexagonal" and "Clean" select those patterns; any other text gives MVC, never Ninguno |
| Linter.LoadPattern | src/main.rs:89-95 | the pattern is Hexagonal or Clean exactly when the field is that string; a missing or non-string field gives MVC |
| Linter.LoadRule | src/main.rs:101-106 | an entry loads iff its `from` and `to` are both strings, and then copies them |
| Linter.LoadRuleList | src/main.rs:98-107 | at most one rule per entry; each rule comes from an entry; all entries loading keeps them one for one |
| Linter.LoadRuleListConcat | src/main.rs:98-107 | entries that do not load drop out where they stand, and the rest keep their order |
| Linter.LoadRules | src/main.rs:98-110 | a field that is not an array gives no rules |
| Linter.LoadContext | src/main.rs:84-117 | the limit defaults to 40, the pattern follows the pattern rule, the rules follow the entry rule, and the framework is the detected one; a file that is not an object gives the defaults |
| Linter.RuleRoundTrip | src/main.rs:101-106 | a serialised rule loads as itself |
| Linter.RulesRoundTrip | src/main.rs:98-110 | serialised rules load back as the same list |
| Linter.PatternReload | src/main.rs:89-95 | a serialised pattern reloads as itself, except Ninguno, which reloads as MVC |
| Linter.ConfigReload | src/main.rs:84-117 | a written configuration reloads with the same limit and rules, and its pattern, except that Ninguno becomes MVC |
| Linter.WizardConfigReloads | src/config.rs:97-111 | what `save_config_from_wizard` writes reloads as exactly the context it returned |
| Linter.FrameworkFromIndex | src/main.rs:136-142 | indices from 4 on give Unknown |
| Linter.PatternFromIndex | src/main.rs:153-158 | indices from 3 on give Ninguno |
| Linter.FrameworkMenuAgrees | src/main.rs:125-142 | the framework chosen is the one the menu shows at that index, and each framework is chosen by exactly its own index or, for Unknown, any later one |
| Linter.PatternMenuAgrees | src/main.rs:145-158 | the pattern chosen is the one the menu shows at that index, and each pattern is chosen by exactly its own index or, for Ninguno, any later one |
| Linter.WizardJson | src/main.rs:169-173 | the interactive setup writes what `ConfigFile` serialises to, with no rules |
| Linter.InteractiveSetup | src/main.rs:136-184 | the returned context has the chosen framework, pattern and limit and no rules |
| Linter.InteractiveSetupReloads | src/main.rs:169-184 | the next run reloads the interactive choices unchanged, except that Ninguno comes back as MVC |
| Linter.CollectFiles | src/main.rs:187-198 | an entry is collected iff it is in the walk, has no component named node_modules, dist, .git or target, and has extension exactly "ts" |
| Linter.CollectFilesConcat | src/main.rs:187-198 | collected files keep walk order |
| Linter.NothingUnderSkipped | src/main.rs:190-193 | nothing below a skipped directory is collected |
| Linter.FullPath | src/main.rs:187-196 | a walk entry's path starts with the directory holding the canonical root, the root's own name being the entry's first component |
| Linter.ControllerAncestorCounts | src/analyzer.rs:51-58 | a repository import is a violation when "controller" occurs anywhere in the analysed path, even in a directory above the project root |
| Linter.Failures | src/main.rs:49-63 | the count is at most the number of files, and zero iff every analysis succeeds |
| Linter.FailuresZeroIffAllPass | src/main.rs:49-54 | no failure is counted exactly when every file's analysis succeeds |
| Linter.CountFailures | src/main.rs:47-63 | the loop over the files counts exactly the files whose analysis returns an error |
| Linter.FailuresSnoc | src/main.rs:52-54 | one more file adds one to the count exactly when its analysis fails |
| Linter.ExitCode | src/main.rs:68-75 | exit code 1 iff the count is positive, 0 otherwise |
| Linter.Run | src/main.rs:33-75 | each collected file is analysed under its full path; the error count is the number of failing files; the exit code is 1 iff some collected file fails and 0 otherwise, including when no file is collected |

## Left out

- The swc lexer and parser, and `SourceMap::lookup_char_pos`. These are foreign library calls. A file arrives as its start position and its module items, with the line numbers of method spans already looked up.
- `extract_imports` (src/circular.rs:123-165) parses with swc. It is the `Extractor` parameter.
- File-system access is modelled only as inputs:
  - `exists` is membership in a set of paths;
  - `canonicalize` and `read_to_string` are not modelled;
  - `fs::write` is not modelled, and a failing write is not a modelled error path;
  - `WalkDir` and its unreadable entries, which `filter_map(e.ok())` drops: the walk arrives as a list of readable entries.
- `load_config` (src/config.rs:61-75) is not called by `main`. It is left out.
- Serialising and parsing JSON text is replaced by a small JSON value. Pretty-printing, and `serde_json` parse errors on malformed files, are not modelled.
- The HTTP calls of src/ai.rs:
  - `consultar_claude`, `consultar_gemini`, `consultar_openai_compatible`;
  - `obtener_modelos_disponibles`, `procesar_respuesta`;
  - `sugerir_arquitectura_inicial`, which is prompt building and network I/O.

  They are network I/O, so the `Transport` parameter stands in for them.
- The fallback's progress messages and the exact text of its errors. These are console output.
- The `detector` module is not part of this model. Its framework answer and line suggestion are inputs.
- src/ui.rs, the `dialoguer` prompts and `get_interactive_path`. These are interactive UI. Menu answers are indices.
- rayon's parallel loop, the `Mutex` counter and the progress bar. The count is a sequential loop, and addition order does not matter.
- miette's report rendering, every `println!`, and `print_circular_dependency_report`. These are output only.
- Unicode `to_lowercase`. Only ASCII letters are lower-cased.
- `to_string_lossy` on paths that are not valid UTF-8. Strings here are always valid.
- Paths are `/`-separated strings. Windows prefixes and `\` as a separator inside `Path` are not modelled. Only the key normalisation's `\` replacement is.
- `Paths.StripPrefix`: models a textual prefix match followed by the trimming of `Components::as_path`, not Rust's component-by-component comparison. So the model is exact only for a non-empty root without redundant separators, and for a path whose part up to the root's end spells the root as written. Roots that are empty or contain repeated or trailing `//` or `.` components are outside the model. So are paths whose leading part uses repeated `/` or interior `.` components: for `/a//b/c` or `/a/./b/c` under `/a/b` the model gives no remainder where Rust gives `c`. Walked paths and joined candidates always begin with the root exactly as written; an absolute import specifier does not necessarily.
- `Linter.LoadMaxLines`: `usize` is taken to be 64 bits wide, as on the targets the linter is built for, so the `as usize` cast of the `u64` limit never truncates; the 32-bit truncation is not modelled.
- `Circular.DetectCycles`: its contract covers soundness, visiting every key, and completeness for self-imports and for pairs of files that import each other. Completeness for cycles of three or more files is not stated. Every such cycle gets some report whatever the map's iteration order, but the proof needs the white-path argument over the whole search, which the model does not carry out.
- `Circular.DfsDetectCycles`: does not state which cycles of three or more files a search reports, for the same reason.
- `Config.FrameworkName`: states only the names' length, with their distinctness in `Config.FrameworkNameInjective` and the menu agreement in `Linter.FrameworkMenuAgrees`.
- `Ai.ScanFrom`: states only where a result ends; the first-zero-depth property is in `Ai.ScanFindsFirstZero`.
- `Linter.Run`: takes the cycle detector out of the picture, as `main` does: `main` never calls `analyze_circular_dependencies`.
- `Linter.Run`: the canonical root arrives as the directory holding it plus its own name, the first component of every entry. The file-system root `/` as project root, which has no such name, is outside the model.

## Findings

| source | as written | input that shows it | evidently intended | confidence | as-written member | corrected member |
|---|---|---|---|---|---|---|
| src/circular.rs:180-188 | A relative specifier is joined onto the importer's directory textually. `./b` from `root/sub/a.ts` resolves to `root/sub/./b.ts`, whose key `sub/./b.ts` differs from the key `sub/b.ts` of `b.ts` itself. | `root/sub/a.ts` imports `./b` and `root/sub/b.ts` imports `./a`. The built graph is `sub/a.ts → sub/./b.ts` and `sub/b.ts → sub/./a.ts`: no edge reaches a node, so no cycle is reported. | A relative import reaches the node of the file it names, so mutual imports form the cycle `sub/a.ts → sub/b.ts → sub/a.ts`. | high, not executed | RelativeImports.AnalysisMissesRelativeCycle | RelativeImports.CorrectedAnalysisReportsCycle |

The as-written resolver is `Circular.ResolveImportPath`, and
`Circular.AnalyzeCircularDependencies` builds its graph with it, as the source does.
The corrected resolver is `Circular.ResolveImportPathLexical`: it consumes leading
`./` and `../` components while joining, using `Paths.JoinLexical`.
`Circular.AnalyzeCircularDependenciesLexical` is the corrected analysis. The graphs
behind the two outcomes are in `RelativeImports.RelativeImportCycleMissed` and
`RelativeImports.RelativeImportCycleFound`.

A second observation needs no correction, because nothing in the model depends on
the pattern. A configuration saved with the pattern "Ninguno" reloads as MVC. The
loader maps every text other than "Hexagonal" and "Clean" to MVC
(`Linter.PatternReload`, `Linter.InteractiveSetupReloads`).
