/** Two files `root/sub/a.ts` and `root/sub/b.ts` that import each other with `./`
    specifiers. Joining `./b` onto `root/sub` textually gives `root/sub/./b.ts`; the file
    system finds that file, but its key `sub/./b.ts` is not the key `sub/b.ts` of the file
    itself, so the edge leads nowhere and the cycle is never reported. Consuming the `./`
    while joining restores the cycle. */
module RelativeImports {
  import opened Wrappers
  import opened Text
  import opened Paths
  import opened Circular

  /** Text that key normalisation leaves unchanged and that cannot hold `node_modules`. */
  predicate KeyText(s: string) {
    forall i :: 0 <= i < |s| ==> s[i] != '\\' && !IsUpper(s[i]) && s[i] != '_'
  }

  /** A project root and a sub-directory holding two distinct files `a.ts` and `b.ts`. */
  predicate Layout(root: string, sub: string, a: string, b: string) {
    && root != [] && root[|root| - 1] != '/'
    && PlainName(sub) && PlainName(a) && PlainName(b) && a != b
    && KeyText(sub) && KeyText(a) && KeyText(b)
  }

  /** The key of `name.ts` in `sub`. */
  function KeyIn(sub: string, name: string): string {
    sub + "/" + name + ".ts"
  }

  /** The same key, spelled with a `.` component. */
  function DotKeyIn(sub: string, name: string): string {
    sub + "/./" + name + ".ts"
  }

  function FileIn(root: string, sub: string, name: string): string {
    root + "/" + KeyIn(sub, name)
  }

  function DotFileIn(root: string, sub: string, name: string): string {
    root + "/" + DotKeyIn(sub, name)
  }

  /** The paths the file system reports as existing: each file under both spellings,
      since the operating system resolves `.` components. */
  function Existing(root: string, sub: string, a: string, b: string): set<string> {
    {FileIn(root, sub, a), FileIn(root, sub, b), DotFileIn(root, sub, a), DotFileIn(root, sub, b)}
  }

  function Files(root: string, sub: string, a: string, b: string): seq<string> {
    [FileIn(root, sub, a), FileIn(root, sub, b)]
  }

  /** `a.ts` imports `./b` and `b.ts` imports `./a`. */
  function MutualImports(root: string, sub: string, a: string, b: string): Extractor {
    f => if f == FileIn(root, sub, a) then Some(["./" + b])
         else if f == FileIn(root, sub, b) then Some(["./" + a])
         else None
  }

  /** The graph `build_graph` builds as written: each edge names a key no file has. */
  function AsWrittenGraph(sub: string, a: string, b: string): Graph {
    map[KeyIn(sub, a) := [DotKeyIn(sub, b)], KeyIn(sub, b) := [DotKeyIn(sub, a)]]
  }

  /** The graph once `./` is consumed: the two files import each other. */
  function LexicalGraph(sub: string, a: string, b: string): Graph {
    map[KeyIn(sub, a) := [KeyIn(sub, b)], KeyIn(sub, b) := [KeyIn(sub, a)]]
  }

  lemma KeyTextConcat(x: string, y: string)
    requires KeyText(x) && KeyText(y)
    ensures KeyText(x + y)
  {
    forall i | 0 <= i < |x + y|
      ensures (x + y)[i] != '\\' && !IsUpper((x + y)[i]) && (x + y)[i] != '_'
    {
      if i >= |x| {
        assert (x + y)[i] == y[i - |x|];
      }
    }
  }

  lemma NoUnderscoreNoNodeModules(s: string)
    requires KeyText(s)
    ensures IsInternalDependency(s)
  {
    forall i | 0 <= i <= |s| - 12
      ensures !OccursAt(s, "node_modules", i)
    {
      assert s[i..i + 12][4] == s[i + 4];
    }
  }

  /** A key made of `sub`, a middle piece and `name.ts` is key text starting with `sub`. */
  lemma KeyShape(sub: string, mid: string, name: string)
    requires PlainName(sub) && KeyText(sub) && KeyText(mid) && KeyText(name)
    ensures var k := sub + mid + name + ".ts"; KeyText(k) && PlainRelative(k)
  {
    assert KeyText(".ts");
    KeyTextConcat(sub, mid);
    KeyTextConcat(sub + mid, name);
    KeyTextConcat(sub + mid + name, ".ts");
    var k := sub + mid + name + ".ts";
    assert k[0] == sub[0];
    assert sub[0] != '/' && sub[0] != '.';
    assert k[|k| - 1] == 's';
    PlainRelativeByFirst(k);
  }

  /** A path under the root whose relative part is key text is keyed by that part. */
  lemma KeyOfKeyText(root: string, rel: string)
    requires root != [] && KeyText(rel) && PlainRelative(rel)
    ensures NormalizeFilePath(root, root + "/" + rel) == rel && IsInternalDependency(rel)
  {
    KeyOfPlainPath(root, rel);
    NoUnderscoreNoNodeModules(rel);
  }

  /** Both spellings of a file keep their text as their key. */
  lemma KeysOfFile(root: string, sub: string, name: string)
    requires root != [] && PlainName(sub) && PlainName(name) && KeyText(sub) && KeyText(name)
    ensures NormalizeFilePath(root, FileIn(root, sub, name)) == KeyIn(sub, name)
    ensures NormalizeFilePath(root, DotFileIn(root, sub, name)) == DotKeyIn(sub, name)
    ensures IsInternalDependency(KeyIn(sub, name)) && IsInternalDependency(DotKeyIn(sub, name))
  {
    assert KeyText("/") && KeyText("/./");
    KeyShape(sub, "/", name);
    KeyShape(sub, "/./", name);
    KeyOfKeyText(root, KeyIn(sub, name));
    KeyOfKeyText(root, DotKeyIn(sub, name));
  }

  /** A key spelled with a `.` component is never the key of a file. */
  lemma DotKeyIsNoFileKey(sub: string, x: string, y: string)
    requires PlainName(y)
    ensures DotKeyIn(sub, x) != KeyIn(sub, y)
  {
    assert DotKeyIn(sub, x)[|sub| + 1] == '.';
    assert KeyIn(sub, y)[|sub| + 1] == y[0];
  }

  lemma DistinctFiles(root: string, sub: string, a: string, b: string)
    requires a != b
    ensures FileIn(root, sub, a) != FileIn(root, sub, b) && KeyIn(sub, a) != KeyIn(sub, b)
  {
    var pre := root + "/" + sub + "/";
    if |a| == |b| {
      assert FileIn(root, sub, a)[|pre|..|pre| + |a|] == a;
      assert FileIn(root, sub, b)[|pre|..|pre| + |a|] == b;
      assert KeyIn(sub, a)[|sub| + 1..|sub| + 1 + |a|] == a;
      assert KeyIn(sub, b)[|sub| + 1..|sub| + 1 + |a|] == b;
    }
  }

  /** The path of `name.ts` in `root/sub`, split as a directory and a child. */
  lemma FileInSplit(root: string, sub: string, name: string)
    ensures FileIn(root, sub, name) == (root + "/" + sub) + "/" + (name + ".ts")
    ensures FileIn(root, sub, name) == (root + "/" + sub) + "/" + name + ".ts"
    ensures DotFileIn(root, sub, name) == (root + "/" + sub) + "/./" + name + ".ts"
  {
  }

  lemma SubDirShape(root: string, sub: string, name: string)
    requires root != [] && PlainName(sub) && PlainName(name)
    ensures var dir := root + "/" + sub; dir != [] && dir[|dir| - 1] != '/' && !HasTrailing(dir)
    ensures IsComponent(name + ".ts")
  {
    var dir := root + "/" + sub;
    assert dir[|dir| - 1] == sub[|sub| - 1];
    assert sub[|sub| - 1] in sub;
    if |sub| >= 2 {
      assert dir[|dir| - 2] == sub[|sub| - 2] && sub[|sub| - 2] in sub;
    } else {
      assert dir[|dir| - 2] == '/';
    }
    forall k | 0 <= k < |name + ".ts"|
      ensures (name + ".ts")[k] != '/'
    {
      if k < |name| {
        assert (name + ".ts")[k] == name[k];
      }
    }
  }

  lemma AsWrittenEdges(root: string, sub: string, a: string, b: string)
    requires Layout(root, sub, a, b)
    ensures EdgesOf(root, AsWrittenResolver(Existing(root, sub, a, b)), FileIn(root, sub, a), ["./" + b])
         == [DotKeyIn(sub, b)]
  {
    var existing := Existing(root, sub, a, b);
    var dir := root + "/" + sub;
    FileInSplit(root, sub, a);
    FileInSplit(root, sub, b);
    SubDirShape(root, sub, a);
    assert DotFileIn(root, sub, b) in existing;
    SiblingImportAsWritten(existing, dir, a + ".ts", b);
    KeysOfFile(root, sub, b);
    var resolve := AsWrittenResolver(existing);
    assert resolve(FileIn(root, sub, a), "./" + b) == Some(DotFileIn(root, sub, b));
    EdgesOfSingle(root, resolve, FileIn(root, sub, a), "./" + b, DotFileIn(root, sub, b));
  }

  lemma LexicalEdges(root: string, sub: string, a: string, b: string)
    requires Layout(root, sub, a, b)
    ensures EdgesOf(root, LexicalResolver(Existing(root, sub, a, b)), FileIn(root, sub, a), ["./" + b])
         == [KeyIn(sub, b)]
  {
    var existing := Existing(root, sub, a, b);
    var dir := root + "/" + sub;
    FileInSplit(root, sub, a);
    FileInSplit(root, sub, b);
    SubDirShape(root, sub, a);
    assert FileIn(root, sub, b) in existing;
    SiblingImportLexical(existing, dir, a + ".ts", b);
    KeysOfFile(root, sub, b);
    var resolve := LexicalResolver(existing);
    assert resolve(FileIn(root, sub, a), "./" + b) == Some(FileIn(root, sub, b));
    EdgesOfSingle(root, resolve, FileIn(root, sub, a), "./" + b, FileIn(root, sub, b));
  }

  /** `BuildGraph` over two files with distinct keys, from each file's key and edges. */
  lemma BuildTwoFiles(root: string, resolve: Resolver, extract: Extractor, f0: string, f1: string,
                      k0: string, k1: string, i0: seq<string>, i1: seq<string>,
                      e0: seq<string>, e1: seq<string>)
    requires extract(f0) == Some(i0) && extract(f1) == Some(i1)
    requires NormalizeFilePath(root, f0) == k0 && NormalizeFilePath(root, f1) == k1 && k0 != k1
    requires EdgesOf(root, resolve, f0, i0) == e0 && EdgesOf(root, resolve, f1, i1) == e1
    ensures BuildGraph(root, resolve, [f0, f1], extract) == Ok(map[k0 := e0, k1 := e1])
  {
    var g1 := AddFile(map[], k0, e0);
    var g2 := AddFile(g1, k1, e1);
    assert [] + e0 == e0 && [] + e1 == e1;
    assert g1 == map[k0 := e0];
    assert g2 == g1[k1 := e1];
    assert [f0, f1][1..] == [f1];
    assert [f1][1..] == [];
    assert BuildGraphFrom(g1, root, resolve, [f1], extract) == BuildGraphFrom(g2, root, resolve, [], extract);
  }

  lemma MutualImportsOf(root: string, sub: string, a: string, b: string)
    requires a != b
    ensures MutualImports(root, sub, a, b)(FileIn(root, sub, a)) == Some(["./" + b])
    ensures MutualImports(root, sub, a, b)(FileIn(root, sub, b)) == Some(["./" + a])
  {
    DistinctFiles(root, sub, a, b);
  }

  /** No edge of the as-written graph reaches a key of the graph. */
  lemma AsWrittenEdgesDangle(sub: string, a: string, b: string)
    requires PlainName(a) && PlainName(b)
    ensures var g := AsWrittenGraph(sub, a, b);
      forall k, t :: k in g && t in g[k] ==> t !in g
  {
    var g := AsWrittenGraph(sub, a, b);
    DotKeyIsNoFileKey(sub, a, a);
    DotKeyIsNoFileKey(sub, a, b);
    DotKeyIsNoFileKey(sub, b, a);
    DotKeyIsNoFileKey(sub, b, b);
    assert g.Keys == {KeyIn(sub, a), KeyIn(sub, b)};
    forall k, t | k in g && t in g[k]
      ensures t !in g
    {
      assert g[k] == [DotKeyIn(sub, b)] || g[k] == [DotKeyIn(sub, a)];
    }
  }

  /** As written, the mutual import is invisible: the built graph has no cycle, so
      `DetectCycles` reports nothing for it. */
  lemma RelativeImportCycleMissed(root: string, sub: string, a: string, b: string)
    requires Layout(root, sub, a, b)
    ensures BuildGraph(root, AsWrittenResolver(Existing(root, sub, a, b)), Files(root, sub, a, b),
                       MutualImports(root, sub, a, b)) == Ok(AsWrittenGraph(sub, a, b))
    ensures Acyclic(AsWrittenGraph(sub, a, b))
  {
    var existing := Existing(root, sub, a, b);
    AsWrittenEdges(root, sub, a, b);
    AsWrittenEdges(root, sub, b, a);
    assert Existing(root, sub, b, a) == existing;
    KeysOfFile(root, sub, a);
    KeysOfFile(root, sub, b);
    DistinctFiles(root, sub, a, b);
    MutualImportsOf(root, sub, a, b);
    BuildTwoFiles(root, AsWrittenResolver(existing), MutualImports(root, sub, a, b),
                  FileIn(root, sub, a), FileIn(root, sub, b), KeyIn(sub, a), KeyIn(sub, b),
                  ["./" + b], ["./" + a], [DotKeyIn(sub, b)], [DotKeyIn(sub, a)]);
    AsWrittenEdgesDangle(sub, a, b);
    DanglingEdgesAcyclic(AsWrittenGraph(sub, a, b));
  }

  /** With `./` consumed, the same two files give a graph with the cycle a -> b -> a. */
  lemma RelativeImportCycleFound(root: string, sub: string, a: string, b: string)
    requires Layout(root, sub, a, b)
    ensures BuildGraph(root, LexicalResolver(Existing(root, sub, a, b)), Files(root, sub, a, b),
                       MutualImports(root, sub, a, b)) == Ok(LexicalGraph(sub, a, b))
    ensures IsCycle(LexicalGraph(sub, a, b), [KeyIn(sub, a), KeyIn(sub, b), KeyIn(sub, a)])
  {
    var existing := Existing(root, sub, a, b);
    LexicalEdges(root, sub, a, b);
    LexicalEdges(root, sub, b, a);
    assert Existing(root, sub, b, a) == existing;
    KeysOfFile(root, sub, a);
    KeysOfFile(root, sub, b);
    DistinctFiles(root, sub, a, b);
    MutualImportsOf(root, sub, a, b);
    BuildTwoFiles(root, LexicalResolver(existing), MutualImports(root, sub, a, b),
                  FileIn(root, sub, a), FileIn(root, sub, b), KeyIn(sub, a), KeyIn(sub, b),
                  ["./" + b], ["./" + a], [KeyIn(sub, b)], [KeyIn(sub, a)]);
    LexicalGraphHasCycle(sub, a, b);
  }

  /** The lexical graph holds the two-step cycle a -> b -> a. */
  lemma LexicalGraphMutual(sub: string, a: string, b: string)
    ensures Mutual(LexicalGraph(sub, a, b), KeyIn(sub, a), KeyIn(sub, b))
  {
    LexicalGraphHasCycle(sub, a, b);
  }

  lemma LexicalGraphHasCycle(sub: string, a: string, b: string)
    ensures IsCycle(LexicalGraph(sub, a, b), [KeyIn(sub, a), KeyIn(sub, b), KeyIn(sub, a)])
  {
    var g := LexicalGraph(sub, a, b);
    var ka, kb := KeyIn(sub, a), KeyIn(sub, b);
    assert ka in g && kb in g;
    assert kb in g[ka] && ka in g[kb];
    assert Edge(g, ka, kb) && Edge(g, kb, ka);
  }

  /** The files of the layout always load. */
  lemma LayoutLoads(root: string, sub: string, a: string, b: string)
    requires a != b
    ensures forall i :: 0 <= i < |Files(root, sub, a, b)| ==>
      MutualImports(root, sub, a, b)(Files(root, sub, a, b)[i]).Some?
  {
    MutualImportsOf(root, sub, a, b);
  }

  /** `analyze_circular_dependencies` as written reports no cycle for the two files. */
  method AnalysisMissesRelativeCycle(root: string, sub: string, a: string, b: string)
    returns (r: Result<seq<CircularDependency>, BuildError>)
    requires Layout(root, sub, a, b)
    ensures r == Ok([])
  {
    r := AnalyzeCircularDependencies(root, Existing(root, sub, a, b), Files(root, sub, a, b),
                                     MutualImports(root, sub, a, b));
    RelativeImportCycleMissed(root, sub, a, b);
    LayoutLoads(root, sub, a, b);
    OutcomeOfLoadedGraph(root, AsWrittenResolver(Existing(root, sub, a, b)), Files(root, sub, a, b),
                         MutualImports(root, sub, a, b), r, AsWrittenGraph(sub, a, b));
  }

  /** The analysis with `./` consumed reports a cycle closing at one of the two files. */
  method CorrectedAnalysisReportsCycle(root: string, sub: string, a: string, b: string)
    returns (r: Result<seq<CircularDependency>, BuildError>)
    requires Layout(root, sub, a, b)
    ensures r.Ok? && r.value != []
    ensures Closes(r.value, KeyIn(sub, a)) || Closes(r.value, KeyIn(sub, b))
  {
    r := AnalyzeCircularDependenciesLexical(root, Existing(root, sub, a, b), Files(root, sub, a, b),
                                            MutualImports(root, sub, a, b));
    RelativeImportCycleFound(root, sub, a, b);
    LayoutLoads(root, sub, a, b);
    LexicalGraphMutual(sub, a, b);
    MutualPairReported(root, LexicalResolver(Existing(root, sub, a, b)), Files(root, sub, a, b),
                       MutualImports(root, sub, a, b), r, LexicalGraph(sub, a, b), KeyIn(sub, a), KeyIn(sub, b));
  }
}
