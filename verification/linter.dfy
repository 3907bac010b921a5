/** The driver in src/main.rs: how `architect.json` becomes a `LinterContext`, the
    wizard's menu choices, which files of the walk are analysed, and the final
    error count and exit code. Reading and writing files, the directory walk, the
    prompts and the parser are outside the model: the loaded JSON, the walk, the
    menu indices and the per-file parse result arrive as parameters. */
module Linter {
  import opened Wrappers
  import opened Json
  import opened Config
  import opened Paths
  import opened Text
  import Ai
  import Analyzer

  /** The limit used when `max_lines_per_function` is missing or not a `u64`. */
  const DefaultMaxLines: Usize := 40

  // ---------------------------------------------------------------------------
  // Silent load of an existing architect.json

  /** `json["max_lines_per_function"].as_u64().unwrap_or(40) as usize`; on the 64-bit
      targets the cast keeps every `u64`. */
  function LoadMaxLines(json: JsonValue): (r: Usize)
    ensures AsU64(Get(json, "max_lines_per_function")).None? ==> r == DefaultMaxLines
    ensures Get(json, "max_lines_per_function").JInt? && 0 <= Get(json, "max_lines_per_function").i < U64_LIMIT
            ==> r == Get(json, "max_lines_per_function").i
  {
    match AsU64(Get(json, "max_lines_per_function"))
    case Some(n) => n
    case None => DefaultMaxLines
  }

  /** The pattern named by the `architecture_pattern` text; a missing field reads as "MVC". */
  function PatternFromText(s: string): (r: ArchPattern)
    ensures r == Hexagonal <==> s == "Hexagonal"
    ensures r == Clean <==> s == "Clean"
    ensures r != Ninguno
  {
    if s == "Hexagonal" then Hexagonal
    else if s == "Clean" then Clean
    else MVC
  }

  /** The `architecture_pattern` field read leniently: only the exact texts "Hexagonal" and
      "Clean" select those patterns; anything else, a missing field included, is `MVC`. */
  function LoadPattern(json: JsonValue): (r: ArchPattern)
    ensures r == Hexagonal <==> Get(json, "architecture_pattern") == JStr("Hexagonal")
    ensures r == Clean <==> Get(json, "architecture_pattern") == JStr("Clean")
    ensures r != Ninguno
  {
    match AsStr(Get(json, "architecture_pattern"))
    case Some(s) => PatternFromText(s)
    case None => PatternFromText("MVC")
  }

  /** One `forbidden_imports` entry: kept only when both `from` and `to` are strings. */
  function LoadRule(v: JsonValue): (r: Option<ForbiddenRule>)
    ensures r.Some? <==> Get(v, "from").JStr? && Get(v, "to").JStr?
    ensures r.Some? ==> r.value.from == Get(v, "from").s && r.value.to == Get(v, "to").s
  {
    match (AsStr(Get(v, "from")), AsStr(Get(v, "to")))
    case (Some(from), Some(to)) => Some(ForbiddenRule(from, to))
    case _ => None
  }

  /** The `filter_map` over the entries of the array, in order. */
  function LoadRuleList(items: seq<JsonValue>): (r: seq<ForbiddenRule>)
    ensures |r| <= |items|
    ensures forall x :: x in r ==> exists i :: 0 <= i < |items| && LoadRule(items[i]) == Some(x)
    ensures (forall i :: 0 <= i < |items| ==> LoadRule(items[i]).None?) ==> r == []
    ensures (forall i :: 0 <= i < |items| ==> LoadRule(items[i]).Some?) ==>
      |r| == |items| && forall i :: 0 <= i < |items| ==> Some(r[i]) == LoadRule(items[i])
  {
    if items == [] then []
    else
      var rest := LoadRuleList(items[1..]);
      assert forall i :: 1 <= i < |items| ==> items[1..][i - 1] == items[i];
      match LoadRule(items[0])
      case Some(x) => [x] + rest
      case None => rest
  }

  /** The rule list of a loaded file: the entries that load, or nothing when the field is not an array. */
  function LoadRules(json: JsonValue): (r: seq<ForbiddenRule>)
    ensures !Get(json, "forbidden_imports").JArr? ==> r == []
    ensures Get(json, "forbidden_imports").JArr? ==> r == LoadRuleList(Get(json, "forbidden_imports").items)
  {
    match AsArray(Get(json, "forbidden_imports"))
    case Some(items) => LoadRuleList(items)
    case None => []
  }

  /** The context `setup_or_load_config` returns when `architect.json` exists. The
      framework is the detector's answer for the project root. */
  function LoadContext(json: JsonValue, framework: Framework): (r: LinterContext)
    ensures r.framework == framework
    ensures var m := Get(json, "max_lines_per_function");
      r.maxLines == if m.JInt? && 0 <= m.i < U64_LIMIT then m.i else DefaultMaxLines
    ensures r.pattern == Hexagonal <==> Get(json, "architecture_pattern") == JStr("Hexagonal")
    ensures r.pattern == Clean <==> Get(json, "architecture_pattern") == JStr("Clean")
    ensures r.pattern != Ninguno
    ensures r.forbiddenImports == LoadRules(json)
    ensures !json.JObj? ==> r == LinterContext(DefaultMaxLines, framework, MVC, [])
  {
    LinterContext(LoadMaxLines(json), framework, LoadPattern(json), LoadRules(json))
  }

  /** Entries that do not load drop out wherever they stand, and the order of the rest is kept. */
  lemma {:induction false} LoadRuleListConcat(a: seq<JsonValue>, b: seq<JsonValue>)
    ensures LoadRuleList(a + b) == LoadRuleList(a) + LoadRuleList(b)
    decreases |a|
  {
    if a == [] {
      assert a + b == b;
    } else {
      assert (a + b)[0] == a[0];
      assert (a + b)[1..] == a[1..] + b;
      LoadRuleListConcat(a[1..], b);
    }
  }

  /** A serialised rule loads as itself. */
  lemma RuleRoundTrip(r: ForbiddenRule)
    ensures LoadRule(RuleToJson(r)) == Some(r)
  {
    var v := RuleToJson(r);
    assert "from" != "to";
    assert Get(v, "from") == JStr(r.from);
    assert Get(v, "to") == JStr(r.to);
  }

  /** An entry that loads puts its rule in front of those of the entries after it. */
  lemma LoadRuleListKeeps(items: seq<JsonValue>, x: ForbiddenRule)
    requires items != [] && LoadRule(items[0]) == Some(x)
    ensures LoadRuleList(items) == [x] + LoadRuleList(items[1..])
  {
  }

  /** Loading the serialised rules gives back the rules. */
  lemma {:induction false} RulesRoundTrip(rules: seq<ForbiddenRule>)
    ensures LoadRuleList(RulesToJson(rules)) == rules
    decreases |rules|
  {
    if rules != [] {
      var items := RulesToJson(rules);
      assert items[1..] == RulesToJson(rules[1..]);
      RulesRoundTrip(rules[1..]);
      RuleRoundTrip(rules[0]);
      LoadRuleListKeeps(items, rules[0]);
      assert rules == [rules[0]] + rules[1..];
    }
  }

  /** Loading a serialised pattern gives the pattern back, except that `Ninguno` reloads as `MVC`. */
  lemma PatternReload(p: ArchPattern)
    ensures PatternFromText(PatternName(p)) == if p == Ninguno then MVC else p
  {
  }

  /** A configuration written to disk reloads as the same context, except that a
      `Ninguno` pattern comes back as `MVC`. */
  lemma ConfigReload(c: ConfigFile, framework: Framework)
    ensures LoadContext(ConfigToJson(c), framework)
         == LinterContext(c.maxLinesPerFunction, framework,
                          if c.architecturePattern == Ninguno then MVC else c.architecturePattern,
                          c.forbiddenImports)
  {
    var json := ConfigToJson(c);
    assert Get(json, "max_lines_per_function") == JInt(c.maxLinesPerFunction);
    assert Get(json, "architecture_pattern") == JStr(PatternName(c.architecturePattern));
    assert Get(json, "forbidden_imports") == JArr(RulesToJson(c.forbiddenImports));
    RulesRoundTrip(c.forbiddenImports);
    PatternReload(c.architecturePattern);
  }

  /** What `save_config_from_wizard` writes reloads, on the next run, as exactly the context it returned. */
  lemma WizardConfigReloads(rules: seq<Ai.SuggestedRule>, maxLines: Usize, framework: Framework)
    ensures var (written, ctx) := SaveConfigFromWizard(rules, maxLines, framework);
      LoadContext(ConfigToJson(written), framework) == ctx
  {
    var (written, ctx) := SaveConfigFromWizard(rules, maxLines, framework);
    ConfigReload(written, framework);
  }

  // ---------------------------------------------------------------------------
  // Interactive configuration

  /** The framework menu, in the order the prompt lists it. */
  const FrameworkOptions: seq<string> := ["NestJS", "React", "Angular", "Express", "Unknown"]

  /** The architecture menu, in the order the prompt lists it. */
  const ArchOptions: seq<string> := ["Hexagonal", "Clean", "MVC", "Ninguno"]

  /** The framework chosen from the menu index; any index past the fourth is `Unknown`. */
  function FrameworkFromIndex(i: nat): (r: Framework)
    ensures i >= 4 ==> r == Unknown
  {
    match i
    case 0 => NestJS
    case 1 => React
    case 2 => Angular
    case 3 => Express
    case _ => Unknown
  }

  /** The pattern chosen from the menu index; any index past the third is `Ninguno`. */
  function PatternFromIndex(i: nat): (r: ArchPattern)
    ensures i >= 3 ==> r == Ninguno
  {
    match i
    case 0 => Hexagonal
    case 1 => Clean
    case 2 => MVC
    case _ => Ninguno
  }

  /** The framework picked is the one whose name the menu shows at that index, and every
      framework is offered exactly once. */
  lemma FrameworkMenuAgrees(i: nat, f: Framework)
    ensures i < |FrameworkOptions| ==> FrameworkName(FrameworkFromIndex(i)) == FrameworkOptions[i]
    ensures FrameworkFromIndex(i) == f <==>
      (i < |FrameworkOptions| && FrameworkOptions[i] == FrameworkName(f)) || (i >= |FrameworkOptions| && f == Unknown)
  {
    FrameworkNameInjective(FrameworkFromIndex(i), f);
  }

  /** The pattern picked is the one whose name the menu shows at that index. */
  lemma PatternMenuAgrees(i: nat, p: ArchPattern)
    ensures i < |ArchOptions| ==> PatternName(PatternFromIndex(i)) == ArchOptions[i]
    ensures PatternFromIndex(i) == p <==>
      (i < |ArchOptions| && ArchOptions[i] == PatternName(p)) || (i >= |ArchOptions| && p == Ninguno)
  {
  }

  /** The file the interactive setup writes: the limit, the pattern's name and no rules. */
  function WizardJson(maxLines: Usize, pattern: ArchPattern): (r: JsonValue)
    ensures r == ConfigToJson(ConfigFile(maxLines, pattern, []))
  {
    JObj(map[
      "max_lines_per_function" := JInt(maxLines),
      "architecture_pattern" := JStr(PatternName(pattern)),
      "forbidden_imports" := JArr([])
    ])
  }

  /** The interactive setup: the file written and the context returned for the chosen
      menu indices and line limit. */
  function InteractiveSetup(fwIdx: nat, archIdx: nat, maxLines: Usize): (r: (JsonValue, LinterContext))
    ensures r.1.forbiddenImports == [] && r.1.maxLines == maxLines
    ensures r.1.framework == FrameworkFromIndex(fwIdx) && r.1.pattern == PatternFromIndex(archIdx)
  {
    var framework := FrameworkFromIndex(fwIdx);
    var pattern := PatternFromIndex(archIdx);
    (WizardJson(maxLines, pattern), LinterContext(maxLines, framework, pattern, []))
  }

  /** The next run reloads the interactive choices unchanged, except that choosing
      "Ninguno" is read back as `MVC`. */
  lemma InteractiveSetupReloads(fwIdx: nat, archIdx: nat, maxLines: Usize)
    ensures var (json, ctx) := InteractiveSetup(fwIdx, archIdx, maxLines);
      LoadContext(json, ctx.framework) == if ctx.pattern == Ninguno then ctx.(pattern := MVC) else ctx
  {
    var (json, ctx) := InteractiveSetup(fwIdx, archIdx, maxLines);
    ConfigReload(ConfigFile(maxLines, ctx.pattern, []), ctx.framework);
  }

  // ---------------------------------------------------------------------------
  // collect_files

  /** A walk entry as its components, the first being the root's own name: an entry's
      ancestors in the walk are exactly its non-empty prefixes. */
  type Entry = seq<string>

  /** Directory names the walk does not enter (nor report). */
  const SkippedNames: set<string> := {"node_modules", "dist", ".git", "target"}

  /** `filter_entry` prunes a skipped entry with everything below it, so an entry is
      reached exactly when none of its components is a skipped name. */
  predicate Reached(e: Entry) {
    forall i :: 0 <= i < |e| ==> e[i] !in SkippedNames
  }

  /** An entry whose extension is exactly "ts". */
  predicate IsTsFile(e: Entry) {
    e != [] && Extension(e[|e| - 1]) == Some("ts")
  }

  /** `collect_files`: the reached `.ts` entries, in walk order. */
  function CollectFiles(walk: seq<Entry>): (r: seq<Entry>)
    ensures |r| <= |walk|
    ensures forall e :: e in r <==> e in walk && Reached(e) && IsTsFile(e)
  {
    if walk == [] then []
    else
      var rest := CollectFiles(walk[1..]);
      assert forall e :: e in walk <==> e == walk[0] || e in walk[1..];
      if Reached(walk[0]) && IsTsFile(walk[0]) then [walk[0]] + rest else rest
  }

  /** Collecting keeps walk order: the files of a concatenated walk are the files of each part. */
  lemma {:induction false} CollectFilesConcat(a: seq<Entry>, b: seq<Entry>)
    ensures CollectFiles(a + b) == CollectFiles(a) + CollectFiles(b)
    decreases |a|
  {
    if a == [] {
      assert a + b == b;
    } else {
      assert (a + b)[0] == a[0];
      assert (a + b)[1..] == a[1..] + b;
      CollectFilesConcat(a[1..], b);
    }
  }

  /** Nothing below a skipped directory is collected, whatever its name. */
  lemma NothingUnderSkipped(walk: seq<Entry>, dir: Entry, rest: Entry)
    requires dir != [] && dir[|dir| - 1] in SkippedNames
    ensures dir + rest !in CollectFiles(walk)
  {
    assert (dir + rest)[|dir| - 1] == dir[|dir| - 1];
  }

  // ---------------------------------------------------------------------------
  // Error count and verdict

  /** The file's display path: its components joined with `/`. */
  function PathText(e: Entry): (r: string)
    ensures |e| == 1 ==> r == e[0]
  {
    if e == [] then ""
    else if |e| == 1 then e[0]
    else Join(PathText(e[..|e| - 1]), e[|e| - 1])
  }

  /** What the front end makes of each collected file: the parsed module, or why it failed. */
  type Parser = Entry -> Result<Analyzer.ParsedModule, Analyzer.FrontEndError>

  /** The parser's output is what swc produces: spans inside the file. */
  ghost predicate ParserWellFormed(parse: Parser) {
    forall e :: parse(e).Ok? ==> Analyzer.WellFormed(parse(e).value)
  }

  /** The path the walk reports for an entry: the canonical root's parent directory joined
      with the entry's components, the first of which is the root's own name. */
  function FullPath(parent: string, e: Entry): (r: string)
    ensures !StartsWith(PathText(e), "/") && parent != [] ==> StartsWith(r, parent)
  {
    var r := Join(parent, PathText(e));
    assert !StartsWith(PathText(e), "/") && parent != [] ==> r[..|parent|] == parent;
    r
  }

  /** `analyze_file` on an entry's full path and what the front end made of it. */
  function Analyze(parent: string, e: Entry, parse: Parser, ctx: LinterContext): Result<(), Analyzer.FileError>
    requires ParserWellFormed(parse)
  {
    Analyzer.AnalyzeFile(FullPath(parent, e), parse(e), ctx)
  }

  /** A case-insensitive occurrence in a prefix is one in the whole text. */
  lemma ContainsIgnoringCaseExtend(a: string, b: string, pat: string)
    requires Analyzer.ContainsIgnoringCase(a, pat)
    ensures Analyzer.ContainsIgnoringCase(a + b, pat)
  {
    var i :| 0 <= i <= |a| - |pat| && Analyzer.OccursAtIgnoringCase(a, pat, i);
    assert (a + b)[i..i + |pat|] == a[i..i + |pat|];
    assert Analyzer.OccursAtIgnoringCase(a + b, pat, i);
  }

  /** The directories above the root are part of the analysed path: below a directory whose
      name contains "controller", every file that imports a repository is a violation, even
      when nothing inside the project is called a controller. */
  lemma ControllerAncestorCounts(parent: string, e: Entry, parse: Parser, ctx: LinterContext,
                                 source: string, span: Analyzer.Span, startPos: nat)
    requires ParserWellFormed(parse) && ctx.forbiddenImports == []
    requires parse(e) == Ok(Analyzer.ParsedModule(startPos, [Analyzer.Import(source, span)]))
    requires Analyzer.SpanInFile(startPos, span)
    requires parent != [] && !StartsWith(PathText(e), "/")
    requires Analyzer.ContainsIgnoringCase(parent, Analyzer.ControllerMarker)
    requires Analyzer.ContainsIgnoringCase(source, Analyzer.RepositoryMarker)
    ensures Analyze(parent, e, parse, ctx)
         == Err(Analyzer.Violation(Analyzer.CreateError(startPos, span, Analyzer.RepositoryInController)))
  {
    var path := FullPath(parent, e);
    assert path == parent + path[|parent|..];
    ContainsIgnoringCaseExtend(parent, path[|parent|..], Analyzer.ControllerMarker);
    Analyzer.ControllerMayNotImportRepository(path, source, span, startPos, ctx.maxLines,
                                              ctx.framework, ctx.pattern);
  }

  /** The number of files whose analysis fails, counted from the front. */
  function Failures(parent: string, files: seq<Entry>, parse: Parser, ctx: LinterContext): (r: nat)
    requires ParserWellFormed(parse)
    ensures r <= |files|
    ensures r == 0 <==> forall i :: 0 <= i < |files| ==> Analyze(parent, files[i], parse, ctx).Ok?
  {
    if files == [] then 0
    else
      var rest := Failures(parent, files[1..], parse, ctx);
      assert forall i :: 1 <= i < |files| ==> files[1..][i - 1] == files[i];
      (if Analyze(parent, files[0], parse, ctx).Err? then 1 else 0) + rest
  }

  /** Counting one more file at the back adds one exactly when that file fails. */
  lemma {:induction false} FailuresSnoc(parent: string, files: seq<Entry>, f: Entry, parse: Parser, ctx: LinterContext)
    requires ParserWellFormed(parse)
    ensures Failures(parent, files + [f], parse, ctx)
         == Failures(parent, files, parse, ctx) + (if Analyze(parent, f, parse, ctx).Err? then 1 else 0)
    decreases |files|
  {
    if files == [] {
      assert files + [f] == [f];
    } else {
      assert (files + [f])[0] == files[0];
      assert (files + [f])[1..] == files[1..] + [f];
      FailuresSnoc(parent, files[1..], f, parse, ctx);
    }
  }

  /** The count is zero exactly when every file in the list is analysed without error. */
  lemma FailuresZeroIffAllPass(parent: string, files: seq<Entry>, parse: Parser, ctx: LinterContext)
    requires ParserWellFormed(parse)
    ensures Failures(parent, files, parse, ctx) == 0 <==> forall e :: e in files ==> Analyze(parent, e, parse, ctx).Ok?
  {
    if Failures(parent, files, parse, ctx) != 0 {
      var i :| 0 <= i < |files| && !Analyze(parent, files[i], parse, ctx).Ok?;
      assert files[i] in files;
    }
  }

  /** The process exit code for a final error count. */
  function ExitCode(errorCount: nat): (r: int)
    ensures r == 1 <==> errorCount > 0
    ensures r == 0 <==> errorCount == 0
  {
    if errorCount > 0 then 1 else 0
  }

  /** The per-file analysis loop of `main`: one failure counted for each file whose
      analysis returns an error. */
  method CountFailures(parent: string, files: seq<Entry>, parse: Parser, ctx: LinterContext) returns (errorCount: nat)
    requires ParserWellFormed(parse)
    ensures errorCount == Failures(parent, files, parse, ctx)
  {
    errorCount := 0;
    var i := 0;
    while i < |files|
      invariant 0 <= i <= |files|
      invariant errorCount + Failures(parent, files[i..], parse, ctx) == Failures(parent, files, parse, ctx)
    {
      var failed := Analyze(parent, files[i], parse, ctx).Err?;
      assert files[i..][0] == files[i] && files[i..][1..] == files[i + 1..];
      if failed {
        errorCount := errorCount + 1;
      }
      i := i + 1;
    }
  }

  /** `main` after the root and the context are settled: collect the files, analyse each
      under its full path (`parent` is the canonical root's parent directory), count the
      failures, and decide the exit code. The cycle detector is not consulted. */
  method Run(parent: string, walk: seq<Entry>, parse: Parser, ctx: LinterContext) returns (errorCount: nat, exitCode: int)
    requires ParserWellFormed(parse)
    ensures var files := CollectFiles(walk);
      errorCount == Failures(parent, files, parse, ctx) && errorCount <= |files|
    ensures exitCode == 1 <==> exists e :: e in CollectFiles(walk) && Analyze(parent, e, parse, ctx).Err?
    ensures exitCode == 0 <==> forall e :: e in CollectFiles(walk) ==> Analyze(parent, e, parse, ctx).Ok?
    ensures exitCode == 0 || exitCode == 1
  {
    var files := CollectFiles(walk);
    FailuresZeroIffAllPass(parent, files, parse, ctx);
    if |files| == 0 {
      return 0, 0;
    }
    errorCount := CountFailures(parent, files, parse, ctx);
    exitCode := ExitCode(errorCount);
  }
}
