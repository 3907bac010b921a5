/** The configuration types of src/config.rs, `Framework::as_str`, the serialised
    form of `architect.json`, and the wizard's rule conversion. */
module Config {
  import opened Json
  import Ai

  /** One more than the largest `usize` on the 64-bit targets the linter is built for. */
  const USIZE_LIMIT: int := 0x1_0000_0000_0000_0000

  type Usize = n: nat | n < USIZE_LIMIT

  datatype Framework = NestJS | React | Angular | Express | Unknown

  /** `Framework::as_str`. */
  function FrameworkName(f: Framework): (r: string)
    ensures |r| >= 5
  {
    match f
    case NestJS => "NestJS"
    case React => "React"
    case Angular => "Angular"
    case Express => "Express"
    case Unknown => "Unknown"
  }

  /** Distinct frameworks have distinct names, so a name identifies its framework. */
  lemma FrameworkNameInjective(f: Framework, g: Framework)
    ensures FrameworkName(f) == FrameworkName(g) ==> f == g
  {
  }

  datatype ArchPattern = Hexagonal | Clean | MVC | Ninguno

  /** The pattern's variant name, which is both its `{:?}` rendering and its serde form. */
  function PatternName(p: ArchPattern): string {
    match p
    case Hexagonal => "Hexagonal"
    case Clean => "Clean"
    case MVC => "MVC"
    case Ninguno => "Ninguno"
  }

  /** A forbidden import: files whose path contains `from` may not import a source containing `to`. */
  datatype ForbiddenRule = ForbiddenRule(from: string, to: string)

  /** `architect.json` as written to disk. */
  datatype ConfigFile = ConfigFile(maxLinesPerFunction: Usize, architecturePattern: ArchPattern,
                                   forbiddenImports: seq<ForbiddenRule>)

  /** The run-wide, read-only rule context. */
  datatype LinterContext = LinterContext(maxLines: Usize, framework: Framework, pattern: ArchPattern,
                                         forbiddenImports: seq<ForbiddenRule>)

  function RuleToJson(r: ForbiddenRule): JsonValue {
    JObj(map["from" := JStr(r.from), "to" := JStr(r.to)])
  }

  function RulesToJson(rules: seq<ForbiddenRule>): (r: seq<JsonValue>)
    ensures |r| == |rules|
    ensures forall i :: 0 <= i < |rules| ==> r[i] == RuleToJson(rules[i])
  {
    if rules == [] then [] else [RuleToJson(rules[0])] + RulesToJson(rules[1..])
  }

  /** The serde serialisation of `ConfigFile`. */
  function ConfigToJson(c: ConfigFile): JsonValue {
    JObj(map[
      "max_lines_per_function" := JInt(c.maxLinesPerFunction),
      "architecture_pattern" := JStr(PatternName(c.architecturePattern)),
      "forbidden_imports" := JArr(RulesToJson(c.forbiddenImports))
    ])
  }

  /** The `SuggestedRule` to `ForbiddenRule` conversion: `reason` is dropped. */
  function ToForbiddenRules(rules: seq<Ai.SuggestedRule>): (r: seq<ForbiddenRule>)
    ensures |r| == |rules|
    ensures forall i :: 0 <= i < |rules| ==> r[i].from == rules[i].from && r[i].to == rules[i].to
  {
    if rules == [] then [] else [ForbiddenRule(rules[0].from, rules[0].to)] + ToForbiddenRules(rules[1..])
  }

  /** `save_config_from_wizard`: the file it writes and the context it returns. The
      framework is the detector's answer for the project root. */
  function SaveConfigFromWizard(rules: seq<Ai.SuggestedRule>, maxLines: Usize, framework: Framework)
    : (r: (ConfigFile, LinterContext))
    ensures |r.0.forbiddenImports| == |rules|
    ensures forall i :: 0 <= i < |rules| ==>
      r.0.forbiddenImports[i] == ForbiddenRule(rules[i].from, rules[i].to)
    ensures r.0.architecturePattern == MVC && r.1.pattern == MVC
    ensures r.0.maxLinesPerFunction == r.1.maxLines == maxLines
    ensures r.1.framework == framework
    ensures r.1.forbiddenImports == r.0.forbiddenImports
  {
    var forbidden := ToForbiddenRules(rules);
    var written := ConfigFile(maxLines, MVC, forbidden);
    (written, LinterContext(written.maxLinesPerFunction, framework, written.architecturePattern, forbidden))
  }
}
