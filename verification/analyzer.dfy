/** The per-file rule checker of src/analyzer.rs. The swc parser and the SourceMap
    line lookup are outside the model: a file arrives as its start position and the
    ordered items of its module body, with the line numbers of each method's span
    ends already looked up. */
module Analyzer {
  import opened Wrappers
  import opened Text
  import opened Config

  /** A byte range in SourceMap coordinates. */
  datatype Span = Span(lo: nat, hi: nat)

  /** A class body member. Only methods are length-checked; `startLine` and `endLine`
      are the lines of the method span's two ends. */
  datatype ClassMember = Method(startLine: nat, endLine: nat, span: Span) | OtherMember

  /** A top-level item of the module body: an `import` declaration, a class declared as a
      plain statement (`Stmt::Decl(Class)`), or anything else, exported classes included. */
  datatype ModuleItem =
    | Import(source: string, span: Span)
    | ClassDecl(members: seq<ClassMember>)
    | OtherItem

  /** A parsed file: where it starts in the SourceMap and its module body. */
  datatype ParsedModule = ParsedModule(startPos: nat, body: seq<ModuleItem>)

  /** Why the file never reached the rules: `load_file` or `parse_module` failed. */
  datatype FrontEndError = LoadFailed | SyntaxError

  /** The diagnostic text, by kind. A configured-rule message quotes the rule as configured. */
  datatype Message =
    | ForbiddenImport(from: string, to: string)
    | RepositoryInController
    | MethodTooLong(lines: nat, maxLines: nat)

  /** `ArchError`: a message labelled on a byte range relative to the file's start. */
  datatype ArchError = ArchError(offset: nat, length: nat, message: Message)

  datatype FileError = FrontEnd(reason: FrontEndError) | Violation(error: ArchError)

  /** Built-in layering rule: a controller may not import a repository. */
  const ControllerMarker: string := "controller"
  const RepositoryMarker: string := ".repository"

  // ---------------------------------------------------------------------------
  // What the parser guarantees: spans lie inside the file and end after they start.

  predicate SpanInFile(startPos: nat, sp: Span) {
    startPos <= sp.lo <= sp.hi
  }

  predicate MemberWellFormed(startPos: nat, m: ClassMember) {
    m.Method? ==> SpanInFile(startPos, m.span) && m.startLine <= m.endLine
  }

  predicate ItemWellFormed(startPos: nat, item: ModuleItem) {
    match item
    case Import(_, sp) => SpanInFile(startPos, sp)
    case ClassDecl(members) => forall j :: 0 <= j < |members| ==> MemberWellFormed(startPos, members[j])
    case OtherItem => true
  }

  predicate WellFormed(m: ParsedModule) {
    forall i :: 0 <= i < |m.body| ==> ItemWellFormed(m.startPos, m.body[i])
  }

  // ---------------------------------------------------------------------------
  // create_error

  /** `create_error`: the diagnostic covers exactly the bytes of `span`, counted from the file start. */
  function CreateError(startPos: nat, span: Span, msg: Message): (e: ArchError)
    requires SpanInFile(startPos, span)
    ensures startPos + e.offset == span.lo
    ensures startPos + e.offset + e.length == span.hi
    ensures e.message == msg
  {
    var start := span.lo - startPos;
    var end := span.hi - startPos;
    ArchError(start, end - start, msg)
  }

  // ---------------------------------------------------------------------------
  // Import rules

  /** A configured rule applies when the lower-cased path contains its lower-cased `from`
      and the lower-cased import source contains its lower-cased `to`. */
  predicate RuleMatches(pathLower: string, sourceLower: string, rule: ForbiddenRule) {
    Contains(pathLower, Lower(rule.from)) && Contains(sourceLower, Lower(rule.to))
  }

  /** The first configured rule at index `i` or later that applies. */
  function FirstMatchingRule(pathLower: string, sourceLower: string, rules: seq<ForbiddenRule>, i: nat)
    : (r: Option<nat>)
    requires i <= |rules|
    ensures r.Some? ==>
      && i <= r.value < |rules|
      && RuleMatches(pathLower, sourceLower, rules[r.value])
      && forall j :: i <= j < r.value ==> !RuleMatches(pathLower, sourceLower, rules[j])
    ensures r.None? ==> forall j :: i <= j < |rules| ==> !RuleMatches(pathLower, sourceLower, rules[j])
    decreases |rules| - i
  {
    if i == |rules| then None
    else if RuleMatches(pathLower, sourceLower, rules[i]) then Some(i)
    else FirstMatchingRule(pathLower, sourceLower, rules, i + 1)
  }

  /** The import branch of the item loop: configured rules in order, then the built-in rule. */
  function CheckImport(pathLower: string, startPos: nat, source: string, span: Span, rules: seq<ForbiddenRule>)
    : (r: Option<ArchError>)
    requires SpanInFile(startPos, span)
    ensures r.Some? <==>
      || (exists j :: 0 <= j < |rules| && RuleMatches(pathLower, Lower(source), rules[j]))
      || (Contains(pathLower, ControllerMarker) && Contains(Lower(source), RepositoryMarker))
    ensures forall k :: 0 <= k < |rules| && RuleMatches(pathLower, Lower(source), rules[k])
                        && (forall j :: 0 <= j < k ==> !RuleMatches(pathLower, Lower(source), rules[j]))
                        ==> r == Some(CreateError(startPos, span, ForbiddenImport(rules[k].from, rules[k].to)))
    ensures (forall j :: 0 <= j < |rules| ==> !RuleMatches(pathLower, Lower(source), rules[j]))
            && Contains(pathLower, ControllerMarker) && Contains(Lower(source), RepositoryMarker)
            ==> r == Some(CreateError(startPos, span, RepositoryInController))
  {
    var sourceLower := Lower(source);
    match FirstMatchingRule(pathLower, sourceLower, rules, 0)
    case Some(k) => Some(CreateError(startPos, span, ForbiddenImport(rules[k].from, rules[k].to)))
    case None =>
      if Contains(pathLower, ControllerMarker) && Contains(sourceLower, RepositoryMarker) then
        Some(CreateError(startPos, span, RepositoryInController))
      else
        None
  }

  // ---------------------------------------------------------------------------
  // Method length

  /** The line count of a method: end line minus start line. */
  function Lines(m: ClassMember): nat
    requires m.Method? && m.startLine <= m.endLine
  {
    m.endLine - m.startLine
  }

  /** A method whose line count exceeds the limit. */
  predicate TooLong(m: ClassMember, maxLines: nat) {
    m.Method? && m.endLine - m.startLine > maxLines
  }

  /** The method loop over one class body: the first method longer than the limit. */
  function CheckMembers(startPos: nat, members: seq<ClassMember>, maxLines: nat): (r: Option<ArchError>)
    requires forall j :: 0 <= j < |members| ==> MemberWellFormed(startPos, members[j])
    ensures r.None? <==> forall j :: 0 <= j < |members| ==> !TooLong(members[j], maxLines)
    ensures r.Some? ==>
      exists k :: 0 <= k < |members| && TooLong(members[k], maxLines)
        && (forall j :: 0 <= j < k ==> !TooLong(members[j], maxLines))
        && MemberWellFormed(startPos, members[k])
        && r == Some(CreateError(startPos, members[k].span, MethodTooLong(Lines(members[k]), maxLines)))
  {
    if members == [] then None
    else if TooLong(members[0], maxLines) then
      assert MemberWellFormed(startPos, members[0]);
      Some(CreateError(startPos, members[0].span, MethodTooLong(Lines(members[0]), maxLines)))
    else
      var rest := CheckMembers(startPos, members[1..], maxLines);
      assert forall j :: 1 <= j < |members| ==> members[1..][j - 1] == members[j];
      rest
  }

  // ---------------------------------------------------------------------------
  // The item loop

  /** One iteration of the item loop. Only plain class declarations are length-checked. */
  function CheckItem(pathLower: string, startPos: nat, item: ModuleItem, ctx: LinterContext): (r: Option<ArchError>)
    requires ItemWellFormed(startPos, item)
    ensures item.OtherItem? ==> r.None?
    ensures r.Some? && r.value.message.MethodTooLong? ==> item.ClassDecl?
    ensures r.Some? && !r.value.message.MethodTooLong? ==> item.Import?
  {
    match item
    case Import(source, span) => CheckImport(pathLower, startPos, source, span, ctx.forbiddenImports)
    case ClassDecl(members) => CheckMembers(startPos, members, ctx.maxLines)
    case OtherItem => None
  }

  /** The item loop with its early return: the violation of the first offending item. */
  function CheckItems(pathLower: string, startPos: nat, items: seq<ModuleItem>, ctx: LinterContext)
    : (r: Option<ArchError>)
    requires forall i :: 0 <= i < |items| ==> ItemWellFormed(startPos, items[i])
    ensures r.None? <==> forall i :: 0 <= i < |items| ==> CheckItem(pathLower, startPos, items[i], ctx).None?
    ensures r.Some? ==>
      exists k :: 0 <= k < |items| && r == CheckItem(pathLower, startPos, items[k], ctx)
        && forall j :: 0 <= j < k ==> CheckItem(pathLower, startPos, items[j], ctx).None?
  {
    if items == [] then None
    else
      var first := CheckItem(pathLower, startPos, items[0], ctx);
      if first.Some? then first
      else
        var rest := CheckItems(pathLower, startPos, items[1..], ctx);
        assert forall i :: 1 <= i < |items| ==> items[1..][i - 1] == items[i];
        rest
  }

  /** `analyze_file`: a front-end failure, the first violation, or success. */
  function AnalyzeFile(path: string, parsed: Result<ParsedModule, FrontEndError>, ctx: LinterContext)
    : (r: Result<(), FileError>)
    requires parsed.Ok? ==> WellFormed(parsed.value)
    ensures parsed.Err? ==> r == Err(FrontEnd(parsed.error))
    ensures parsed.Ok? ==>
      var m := parsed.value;
      && (r.Ok? <==> forall i :: 0 <= i < |m.body| ==> CheckItem(Lower(path), m.startPos, m.body[i], ctx).None?)
      && (r.Err? ==>
            && r.error.Violation?
            && exists k :: 0 <= k < |m.body|
                 && CheckItem(Lower(path), m.startPos, m.body[k], ctx) == Some(r.error.error)
                 && forall j :: 0 <= j < k ==> CheckItem(Lower(path), m.startPos, m.body[j], ctx).None?)
  {
    match parsed
    case Err(e) => Err(FrontEnd(e))
    case Ok(m) =>
      match CheckItems(Lower(path), m.startPos, m.body, ctx)
      case None => Ok(())
      case Some(e) => Err(Violation(e))
  }

  // ---------------------------------------------------------------------------
  // Properties

  /** Fail fast: once a prefix of the body has a violation, nothing after it changes the result. */
  lemma LaterItemsIrrelevant(pathLower: string, startPos: nat, items: seq<ModuleItem>,
                              later: seq<ModuleItem>, ctx: LinterContext)
    requires forall i :: 0 <= i < |items| ==> ItemWellFormed(startPos, items[i])
    requires forall i :: 0 <= i < |later| ==> ItemWellFormed(startPos, later[i])
    requires CheckItems(pathLower, startPos, items, ctx).Some?
    ensures CheckItems(pathLower, startPos, items + later, ctx) == CheckItems(pathLower, startPos, items, ctx)
  {
    var all := items + later;
    ConcatWellFormed(startPos, items, later);
    var k: int :| 0 <= k < |items| && CheckItems(pathLower, startPos, items, ctx) == CheckItem(pathLower, startPos, items[k], ctx)
                  && forall j :: 0 <= j < k ==> CheckItem(pathLower, startPos, items[j], ctx).None?;
    assert all[k] == items[k];
    assert CheckItems(pathLower, startPos, all, ctx).Some?;
    var k': int :| 0 <= k' < |all| && CheckItems(pathLower, startPos, all, ctx) == CheckItem(pathLower, startPos, all[k'], ctx)
                   && forall j :: 0 <= j < k' ==> CheckItem(pathLower, startPos, all[j], ctx).None?;
    assert k' == k;
  }

  /** Joining two bodies of well-formed items gives a body of well-formed items. */
  lemma ConcatWellFormed(startPos: nat, items: seq<ModuleItem>, later: seq<ModuleItem>)
    requires forall i :: 0 <= i < |items| ==> ItemWellFormed(startPos, items[i])
    requires forall i :: 0 <= i < |later| ==> ItemWellFormed(startPos, later[i])
    ensures forall i :: 0 <= i < |items + later| ==> ItemWellFormed(startPos, (items + later)[i])
  {
    var all := items + later;
    forall i | 0 <= i < |all|
      ensures ItemWellFormed(startPos, all[i])
    {
      if i < |items| { assert all[i] == items[i]; } else { assert all[i] == later[i - |items|]; }
    }
  }

  /** `s` and `t` are equal up to ASCII case. */
  predicate EqualIgnoringCase(s: string, t: string) {
    |s| == |t| && forall k :: 0 <= k < |s| ==> LowerChar(s[k]) == LowerChar(t[k])
  }

  /** `pat` occurs in `s` up to ASCII case, stated without lower-casing either string. */
  predicate ContainsIgnoringCase(s: string, pat: string) {
    exists i | 0 <= i <= |s| - |pat| :: OccursAtIgnoringCase(s, pat, i)
  }

  predicate OccursAtIgnoringCase(s: string, pat: string, i: int) {
    0 <= i <= |s| - |pat| && EqualIgnoringCase(s[i..i + |pat|], pat)
  }

  /** The `contains` test on lower-cased strings is exactly a case-insensitive occurrence test. */
  lemma LowerContainsIsCaseInsensitive(s: string, pat: string)
    ensures Contains(Lower(s), Lower(pat)) <==> ContainsIgnoringCase(s, pat)
  {
    if Contains(Lower(s), Lower(pat)) {
      var i :| 0 <= i <= |s| - |pat| && OccursAt(Lower(s), Lower(pat), i);
      LowerOccursAt(s, pat, i);
    }
    if ContainsIgnoringCase(s, pat) {
      var i: int :| 0 <= i <= |s| - |pat| && OccursAtIgnoringCase(s, pat, i);
      LowerOccursAt(s, pat, i);
    }
  }

  /** One position at a time: an occurrence in the lower-cased text is a case-insensitive one. */
  lemma LowerOccursAt(s: string, pat: string, i: int)
    requires 0 <= i <= |s| - |pat|
    ensures OccursAt(Lower(s), Lower(pat), i) <==> OccursAtIgnoringCase(s, pat, i)
  {
    LowerSlice(s, i, i + |pat|);
  }

  /** A configured rule applies exactly when its `from` occurs in the path and its `to` in
      the import source, both ignoring ASCII case. */
  lemma RuleMatchingIgnoresCase(path: string, source: string, rule: ForbiddenRule)
    ensures RuleMatches(Lower(path), Lower(source), rule)
        <==> ContainsIgnoringCase(path, rule.from) && ContainsIgnoringCase(source, rule.to)
  {
    LowerContainsIsCaseInsensitive(path, rule.from);
    LowerContainsIsCaseInsensitive(source, rule.to);
  }

  /** Paths that differ only in ASCII case get the same verdict. */
  lemma AnalyzeFileIgnoresPathCase(path1: string, path2: string, parsed: Result<ParsedModule, FrontEndError>,
                                   ctx: LinterContext)
    requires parsed.Ok? ==> WellFormed(parsed.value)
    requires EqualIgnoringCase(path1, path2)
    ensures AnalyzeFile(path1, parsed, ctx) == AnalyzeFile(path2, parsed, ctx)
  {
    assert Lower(path1) == Lower(path2);
  }

  lemma MarkersAreLowerCase()
    ensures Lower(ControllerMarker) == ControllerMarker
    ensures Lower(RepositoryMarker) == RepositoryMarker
  {
    ControllerMarkerIsLowerCase();
    RepositoryMarkerIsLowerCase();
  }

  lemma ControllerMarkerIsLowerCase()
    ensures Lower(ControllerMarker) == ControllerMarker
  {
    LowerOfLowerCase(ControllerMarker);
  }

  lemma RepositoryMarkerIsLowerCase()
    ensures Lower(RepositoryMarker) == RepositoryMarker
  {
    LowerOfLowerCase(RepositoryMarker);
  }

  /** A body of one item is checked by that item alone. */
  lemma AnalyzeSingleItem(path: string, startPos: nat, item: ModuleItem, ctx: LinterContext)
    requires ItemWellFormed(startPos, item)
    ensures CheckItem(Lower(path), startPos, item, ctx).Some? ==>
      AnalyzeFile(path, Ok(ParsedModule(startPos, [item])), ctx)
        == Err(Violation(CheckItem(Lower(path), startPos, item, ctx).value))
  {
    assert [item][0] == item;
  }

  /** The built-in rule needs no configuration: a controller importing a repository fails. */
  lemma ControllerMayNotImportRepository(path: string, source: string, span: Span, startPos: nat, maxLines: Usize,
                                         framework: Framework, pattern: ArchPattern)
    requires SpanInFile(startPos, span)
    requires ContainsIgnoringCase(path, ControllerMarker) && ContainsIgnoringCase(source, RepositoryMarker)
    ensures
      var ctx := LinterContext(maxLines, framework, pattern, []);
      AnalyzeFile(path, Ok(ParsedModule(startPos, [Import(source, span)])), ctx)
        == Err(Violation(CreateError(startPos, span, RepositoryInController)))
  {
    LowerContainsIsCaseInsensitive(path, ControllerMarker);
    LowerContainsIsCaseInsensitive(source, RepositoryMarker);
    MarkersAreLowerCase();
    var ctx := LinterContext(maxLines, framework, pattern, []);
    var item := Import(source, span);
    assert CheckItem(Lower(path), startPos, item, ctx) == Some(CreateError(startPos, span, RepositoryInController));
    AnalyzeSingleItem(path, startPos, item, ctx);
  }

  /** The limit is strict: a method exactly `maxLines` long passes, one line more fails. */
  lemma MethodLimitIsStrict(startPos: nat, lo: nat, span: Span, maxLines: nat)
    requires SpanInFile(startPos, span)
    ensures CheckMembers(startPos, [Method(lo, lo + maxLines, span)], maxLines).None?
    ensures CheckMembers(startPos, [Method(lo, lo + maxLines + 1, span)], maxLines)
         == Some(CreateError(startPos, span, MethodTooLong(maxLines + 1, maxLines)))
  {
    assert !TooLong(Method(lo, lo + maxLines, span), maxLines);
  }

  /** Methods of 5, 12 and 200 lines against a limit of 60: the 200-line method is reported. */
  lemma FirstLongMethodReported(startPos: nat, s1: Span, s2: Span, s3: Span)
    requires SpanInFile(startPos, s1) && SpanInFile(startPos, s2) && SpanInFile(startPos, s3)
    ensures CheckMembers(startPos, [Method(1, 6, s1), Method(10, 22, s2), Method(30, 230, s3)], 60)
         == Some(CreateError(startPos, s3, MethodTooLong(200, 60)))
  {
    var ms := [Method(1, 6, s1), Method(10, 22, s2), Method(30, 230, s3)];
    assert !TooLong(ms[0], 60) && !TooLong(ms[1], 60) && TooLong(ms[2], 60);
    assert ms[1..] == [Method(10, 22, s2), Method(30, 230, s3)];
    assert ms[1..][1..] == [Method(30, 230, s3)];
    assert CheckMembers(startPos, ms[1..][1..], 60) == Some(CreateError(startPos, s3, MethodTooLong(200, 60)));
    assert CheckMembers(startPos, ms[1..], 60) == CheckMembers(startPos, ms[1..][1..], 60);
  }
}
