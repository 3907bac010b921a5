/** The import-dependency graph and cycle detector of src/circular.rs. File-system
    existence is a set of paths; import extraction is a parameter (`None` when the file
    cannot be read or parsed). */
module Circular {
  import opened Wrappers
  import opened Text
  import opened Paths

  /** node -> the nodes it imports, in import order, duplicates kept. */
  type Graph = map<string, seq<string>>

  /** Maps an importing file and an import specifier to the file it names. */
  type Resolver = (string, string) -> Option<string>

  /** `resolve_import_path` as written, over the paths that exist. */
  function AsWrittenResolver(existing: set<string>): Resolver {
    (current, imp) => ResolveImportPath(existing, current, imp)
  }

  /** The resolver the analysis uses, over the paths that exist. */
  function LexicalResolver(existing: set<string>): Resolver {
    (current, imp) => ResolveImportPathLexical(existing, current, imp)
  }

  /** The static import sources of a file, or `None` when it cannot be loaded or parsed. */
  type Extractor = string -> Option<seq<string>>

  datatype CircularDependency = CircularDependency(cycle: seq<string>, description: string)

  /** The graph could not be built because this file could not be loaded or parsed. */
  datatype BuildError = ExtractFailed(file: string)

  // ---------------------------------------------------------------- node keys

  /** `normalize_file_path`: relative to the root when under it, `\` turned into `/`,
      ASCII letters lower-cased. */
  function NormalizeFilePath(root: string, path: string): (r: string)
    ensures forall i :: 0 <= i < |r| ==> r[i] != '\\' && !IsUpper(r[i])
  {
    var rel := match StripPrefix(path, root) case Some(rest) => rest case None => path;
    Lower(ReplaceChar(rel, '\\', '/'))
  }

  /** Two characters a key cannot tell apart. */
  predicate SameKeyChar(a: char, b: char) {
    LowerChar(a) == LowerChar(b) || (a in {'/', '\\'} && b in {'/', '\\'})
  }

  /** A relative path that names a file under the root without a leading `.` component. */
  predicate PlainRelative(rel: string) {
    rel != [] && !StartsWith(rel, "/") && !StartsWith(rel, "./") && rel != "." && !HasTrailing(rel)
  }

  lemma PlainRelativeByFirst(rel: string)
    requires rel != [] && rel[0] != '/' && rel[0] != '.'
    requires rel[|rel| - 1] != '/' && rel[|rel| - 1] != '.'
    ensures PlainRelative(rel)
  {
    assert rel[..1] != "/" && rel[..1] != ".";
  }

  /** A file under the root is keyed by its path relative to the root. */
  lemma NormalizeUnderRoot(root: string, rel: string)
    requires root != [] && PlainRelative(rel)
    ensures NormalizeFilePath(root, root + "/" + rel) == Lower(ReplaceChar(rel, '\\', '/'))
  {
    var p := root + "/" + rel;
    assert p[|root| + 1..] == rel;
    assert StartsWith(p, root + "/");
  }

  /** Spellings of a file that differ only in ASCII letter case or separator style
      get the same key. */
  lemma KeyIgnoresCaseAndSeparators(root: string, a: string, b: string)
    requires root != [] && PlainRelative(a) && PlainRelative(b)
    requires |a| == |b| && forall i :: 0 <= i < |a| ==> SameKeyChar(a[i], b[i])
    ensures NormalizeFilePath(root, root + "/" + a) == NormalizeFilePath(root, root + "/" + b)
  {
    NormalizeUnderRoot(root, a);
    NormalizeUnderRoot(root, b);
    var ka := Lower(ReplaceChar(a, '\\', '/'));
    var kb := Lower(ReplaceChar(b, '\\', '/'));
    forall i | 0 <= i < |a|
      ensures ka[i] == kb[i]
    {
      if LowerChar(a[i]) == LowerChar(b[i]) {
        assert a[i] == '\\' <==> LowerChar(a[i]) == '\\';
        assert b[i] == '\\' <==> LowerChar(b[i]) == '\\';
      }
    }
    assert ka == kb;
  }

  /** `is_internal_dependency`. */
  predicate IsInternalDependency(key: string) {
    !Contains(key, "node_modules")
  }

  // ---------------------------------------------------------------- import resolution

  /** Specifiers the resolver never follows: scoped or bare package names and `node_modules` paths. */
  predicate IsExternalImport(imp: string) {
    StartsWith(imp, "@") || StartsWith(imp, "node_modules")
    || (!StartsWith(imp, ".") && !StartsWith(imp, "/"))
  }

  /** The files tried for a joined specifier, in the order they are tried. */
  function Candidates(resolved: string): (r: seq<string>)
    ensures |r| == 7 && r[6] == resolved
  {
    [ WithExtension(resolved, "ts"), WithExtension(resolved, "tsx"),
      WithExtension(resolved, "js"), WithExtension(resolved, "jsx"),
      Join(resolved, "index.ts"), Join(resolved, "index.js"), resolved ]
  }

  /** The first candidate that exists. */
  function FirstExisting(existing: set<string>, cs: seq<string>): (r: Option<string>)
    ensures r.None? <==> forall i :: 0 <= i < |cs| ==> cs[i] !in existing
    ensures r.Some? ==>
      exists k :: 0 <= k < |cs| && cs[k] == r.value && r.value in existing
        && forall j :: 0 <= j < k ==> cs[j] !in existing
  {
    if cs == [] then None
    else if cs[0] in existing then Some(cs[0])
    else
      var r := FirstExisting(existing, cs[1..]);
      if r.Some? then
        var k :| 0 <= k < |cs[1..]| && cs[1..][k] == r.value && r.value in existing
          && forall j :: 0 <= j < k ==> cs[1..][j] !in existing;
        assert cs[k + 1] == r.value;
        r
      else r
  }

  /** `resolve_import_path` with the joined path built by `join`. */
  function ResolveWith(existing: set<string>, current: string, imp: string,
                       join: (string, string) -> string): (r: Option<string>)
    ensures IsExternalImport(imp) || Parent(current).None? ==> r.None?
    ensures !IsExternalImport(imp) && Parent(current).Some? ==>
      var cs := Candidates(join(Parent(current).value, imp));
      && (r.None? <==> forall i :: 0 <= i < 7 ==> cs[i] !in existing)
      && (r.Some? ==>
            exists k :: 0 <= k < 7 && cs[k] == r.value && r.value in existing
              && forall j :: 0 <= j < k ==> cs[j] !in existing)
  {
    if IsExternalImport(imp) then None
    else match Parent(current)
      case None => None
      case Some(dir) => FirstExisting(existing, Candidates(join(dir, imp)))
  }

  /** `resolve_import_path` as written: the specifier is joined onto the importing file's
      directory textually, so `./` and `../` stay in the resolved path. */
  function ResolveImportPath(existing: set<string>, current: string, imp: string): (r: Option<string>)
    ensures IsExternalImport(imp) ==> r.None?
    ensures r.Some? ==> r.value in existing
    ensures !IsExternalImport(imp) && Parent(current).Some? ==>
      var cs := Candidates(Join(Parent(current).value, imp));
      && (r.None? <==> forall i :: 0 <= i < 7 ==> cs[i] !in existing)
      && (r.Some? ==>
            exists k :: 0 <= k < 7 && cs[k] == r.value
              && forall j :: 0 <= j < k ==> cs[j] !in existing)
  {
    ResolveWith(existing, current, imp, Join)
  }

  /** `resolve_import_path` with leading `./` and `../` consumed while joining, so a resolved
      file gets the same key as the file itself. */
  function ResolveImportPathLexical(existing: set<string>, current: string, imp: string)
    : (r: Option<string>)
    ensures IsExternalImport(imp) ==> r.None?
    ensures r.Some? ==> r.value in existing
    ensures !IsExternalImport(imp) && Parent(current).Some? ==>
      var cs := Candidates(JoinLexical(Parent(current).value, imp));
      && (r.None? <==> forall i :: 0 <= i < 7 ==> cs[i] !in existing)
      && (r.Some? ==>
            exists k :: 0 <= k < 7 && cs[k] == r.value
              && forall j :: 0 <= j < k ==> cs[j] !in existing)
  {
    var join: (string, string) -> string := JoinLexical;
    assert Parent(current).Some? ==>
      join(Parent(current).value, imp) == JoinLexical(Parent(current).value, imp);
    ResolveWith(existing, current, imp, join)
  }

  /** A `./` specifier is always followed. */
  lemma DotSlashIsRelative(name: string)
    ensures !IsExternalImport("./" + name)
  {
    var imp := "./" + name;
    assert imp[0] == '.';
    assert imp[..1] == ".";
    assert imp[..1] != "@";
    assert |imp| < 12 || imp[..12] != "node_modules";
  }

  /** When the first candidate exists, it is the resolution. */
  lemma ResolveWithFirstCandidate(existing: set<string>, current: string, imp: string,
                                  join: (string, string) -> string, dir: string, first: string)
    requires !IsExternalImport(imp) && Parent(current) == Some(dir)
    requires first == WithExtension(join(dir, imp), "ts") && first in existing
    ensures ResolveWith(existing, current, imp, join) == Some(first)
  {
    var cs := Candidates(join(dir, imp));
    assert cs[0] in existing;
    assert FirstExisting(existing, cs) == Some(cs[0]);
  }

  /** Joining `./name` onto `dir` appends the `.` component and then the name. */
  lemma DotSlashJoinPath(dir: string, name: string)
    requires dir != [] && dir[|dir| - 1] != '/'
    ensures Join(dir, "./" + name) == (dir + "/./") + name
  {
    var imp := "./" + name;
    assert imp[0] == '.' && !StartsWith(imp, "/");
    StringAssociative(dir + "/", "./", name);
    StringAssociative(dir, "/", "./");
    assert "/" + "./" == "/./";
  }

  /** Joining `./name` textually keeps the `.` component. */
  lemma DotSlashJoin(dir: string, name: string)
    requires dir != [] && dir[|dir| - 1] != '/' && PlainName(name)
    ensures WithExtension(Join(dir, "./" + name), "ts") == dir + "/./" + name + ".ts"
  {
    DotSlashJoinPath(dir, name);
    ChildWithTs(dir + "/./", name);
  }

  /** As written, a `./name` import from a file in `dir` resolves to `dir/./name.ts`. */
  lemma SiblingImportAsWritten(existing: set<string>, dir: string, other: string, name: string)
    requires dir != [] && dir[|dir| - 1] != '/' && !HasTrailing(dir) && IsComponent(other) && PlainName(name)
    requires dir + "/./" + name + ".ts" in existing
    ensures ResolveImportPath(existing, dir + "/" + other, "./" + name) == Some(dir + "/./" + name + ".ts")
  {
    ParentOfChild(dir, other);
    DotSlashIsRelative(name);
    var first := dir + "/./" + name + ".ts";
    DotSlashJoin(dir, name);
    ResolveWithFirstCandidate(existing, dir + "/" + other, "./" + name, Join, dir, first);
    assert ResolveImportPath(existing, dir + "/" + other, "./" + name)
        == ResolveWith(existing, dir + "/" + other, "./" + name, Join);
  }

  /** `with_extension("ts")` appends `.ts` to a plain file name. */
  lemma ChildWithTs(pre: string, name: string)
    requires pre != [] && pre[|pre| - 1] == '/' && PlainName(name)
    ensures WithExtension(pre + name, "ts") == pre + name + ".ts"
  {
    assert WithExtension(pre + name, "ts") == pre + name + "." + "ts" by {
      ChildParts(pre, name, "ts");
    }
    assert pre + name + "." + "ts" == pre + name + ".ts" by {
      StringAssociative(pre + name, ".", "ts");
      assert "." + "ts" == ".ts";
    }
  }

  lemma LexicalDotSlashName(dir: string, name: string)
    requires dir != [] && dir[|dir| - 1] != '/' && PlainName(name)
    ensures JoinLexical(dir, "./" + name) == dir + "/" + name
  {
    JoinLexicalDotSlash(dir, name);
    assert name[0] in name;
  }

  /** Joining `./name` lexically drops the `.` component. */
  lemma LexicalSiblingJoin(dir: string, name: string)
    requires dir != [] && dir[|dir| - 1] != '/' && PlainName(name)
    ensures WithExtension(JoinLexical(dir, "./" + name), "ts") == dir + "/" + name + ".ts"
  {
    LexicalDotSlashName(dir, name);
    ChildWithTs(dir + "/", name);
  }

  /** With `./` consumed, a `./name` import from a file in `dir` resolves to `dir/name.ts`. */
  lemma SiblingImportLexical(existing: set<string>, dir: string, other: string, name: string)
    requires dir != [] && dir[|dir| - 1] != '/' && !HasTrailing(dir) && IsComponent(other) && PlainName(name)
    requires dir + "/" + name + ".ts" in existing
    ensures ResolveImportPathLexical(existing, dir + "/" + other, "./" + name) == Some(dir + "/" + name + ".ts")
  {
    ParentOfChild(dir, other);
    DotSlashIsRelative(name);
    LexicalSiblingJoin(dir, name);
    var first := dir + "/" + name + ".ts";
    ResolveWithFirstCandidate(existing, dir + "/" + other, "./" + name, JoinLexical, dir, first);
  }

  /** A file under the root whose relative path has no `\` and no upper-case letter is keyed
      by that relative path. */
  lemma KeyOfPlainPath(root: string, rel: string)
    requires root != [] && PlainRelative(rel)
    requires forall i :: 0 <= i < |rel| ==> rel[i] != '\\' && !IsUpper(rel[i])
    ensures NormalizeFilePath(root, root + "/" + rel) == rel
  {
    NormalizeUnderRoot(root, rel);
    assert ReplaceChar(rel, '\\', '/') == rel;
    LowerOfLowerCase(rel);
  }

  // ---------------------------------------------------------------- graph construction

  /** The key one import contributes: none, or the internal key of the file it resolves to. */
  function ImportEdge(root: string, resolve: Resolver, current: string, imp: string)
    : (r: seq<string>)
    ensures |r| <= 1
    ensures forall t :: t in r ==> IsInternalDependency(t)
  {
    match resolve(current, imp)
    case None => []
    case Some(p) =>
      var key := NormalizeFilePath(root, p);
      if IsInternalDependency(key) then [key] else []
  }

  /** The keys one file's imports contribute, in import order. */
  function EdgesOf(root: string, resolve: Resolver, current: string, imports: seq<string>)
    : (r: seq<string>)
    ensures |r| <= |imports|
    ensures forall t :: t in r ==> IsInternalDependency(t)
  {
    if imports == [] then []
    else ImportEdge(root, resolve, current, imports[0]) + EdgesOf(root, resolve, current, imports[1..])
  }
  /** A single import that resolves to an internal file gives the one edge to its key. */
  lemma EdgesOfSingle(root: string, resolve: Resolver, current: string, imp: string, p: string)
    requires resolve(current, imp) == Some(p) && IsInternalDependency(NormalizeFilePath(root, p))
    ensures EdgesOf(root, resolve, current, [imp]) == [NormalizeFilePath(root, p)]
  {
    assert [imp][1..] == [];
  }


  /** An import contributes an edge exactly when it resolves to an internal key. */
  predicate ContributesEdge(root: string, resolve: Resolver, current: string, imp: string, t: string) {
    resolve(current, imp).Some? && NormalizeFilePath(root, resolve(current, imp).value) == t
    && IsInternalDependency(t)
  }

  /** The edges of a file are exactly the internal keys its imports resolve to. */
  lemma {:induction false} EdgesOfMembers(root: string, resolve: Resolver, current: string,
                                          imports: seq<string>, t: string)
    ensures t in EdgesOf(root, resolve, current, imports) <==>
      exists i :: 0 <= i < |imports| && ContributesEdge(root, resolve, current, imports[i], t)
  {
    if imports != [] {
      EdgesOfMembers(root, resolve, current, imports[1..], t);
      if ContributesEdge(root, resolve, current, imports[0], t) {
        assert t in EdgesOf(root, resolve, current, imports);
      }
      if exists i :: 0 <= i < |imports| && ContributesEdge(root, resolve, current, imports[i], t) {
        var i :| 0 <= i < |imports| && ContributesEdge(root, resolve, current, imports[i], t);
        if i > 0 {
          assert imports[1..][i - 1] == imports[i];
        }
      }
    }
  }

  /** Edges follow import order and repeated imports are kept. */
  lemma {:induction false} EdgesOfConcat(root: string, resolve: Resolver, current: string,
                                         a: seq<string>, b: seq<string>)
    ensures EdgesOf(root, resolve, current, a + b)
         == EdgesOf(root, resolve, current, a) + EdgesOf(root, resolve, current, b)
  {
    if a != [] {
      var h := ImportEdge(root, resolve, current, a[0]);
      assert (a + b)[0] == a[0];
      assert (a + b)[1..] == a[1..] + b;
      EdgesOfConcat(root, resolve, current, a[1..], b);
      calc {
        EdgesOf(root, resolve, current, a + b);
        h + EdgesOf(root, resolve, current, a[1..] + b);
        h + (EdgesOf(root, resolve, current, a[1..]) + EdgesOf(root, resolve, current, b));
        (h + EdgesOf(root, resolve, current, a[1..])) + EdgesOf(root, resolve, current, b);
      }
    } else {
      assert a + b == b;
    }
  }

  /** The edges recorded under `key` by the files of `files` that normalise to it, in file order. */
  function EdgesForKey(root: string, resolve: Resolver, files: seq<string>, extract: Extractor,
                       key: string): seq<string>
  {
    if files == [] then []
    else
      var own := match extract(files[0])
        case None => []
        case Some(imports) =>
          if NormalizeFilePath(root, files[0]) == key then EdgesOf(root, resolve, files[0], imports) else [];
      own + EdgesForKey(root, resolve, files[1..], extract, key)
  }

  /** The file keys of `files`. */
  function Keys(root: string, files: seq<string>): (r: set<string>)
    ensures forall i :: 0 <= i < |files| ==> NormalizeFilePath(root, files[i]) in r
    ensures forall k :: k in r ==> exists i :: 0 <= i < |files| && NormalizeFilePath(root, files[i]) == k
  {
    set i | 0 <= i < |files| :: NormalizeFilePath(root, files[i])
  }

  /** The graph after adding one file's key and edges to `g`. */
  function AddFile(g: Graph, key: string, edges: seq<string>): (r: Graph)
    ensures r.Keys == g.Keys + {key}
    ensures forall k :: k in r ==> r[k] == (if k in g then g[k] else []) + (if k == key then edges else [])
  {
    g[key := (if key in g then g[key] else []) + edges]
  }

  /** `build_graph` continued from the graph `g` over the remaining `files`. */
  function BuildGraphFrom(g: Graph, root: string, resolve: Resolver, files: seq<string>,
                          extract: Extractor): (r: Result<Graph, BuildError>)
    ensures r.Err? <==> exists i :: 0 <= i < |files| && extract(files[i]).None?
    ensures r.Err? ==>
      exists i :: 0 <= i < |files| && extract(files[i]).None? && r.error.file == files[i]
        && forall j :: 0 <= j < i ==> extract(files[j]).Some?
    decreases |files|
  {
    if files == [] then Ok(g)
    else match extract(files[0])
      case None => Err(ExtractFailed(files[0]))
      case Some(imports) =>
        var g' := AddFile(g, NormalizeFilePath(root, files[0]), EdgesOf(root, resolve, files[0], imports));
        var r := BuildGraphFrom(g', root, resolve, files[1..], extract);
        FailureStep(files, extract, r);
        r
  }

  /** The nodes of a built graph are the prior nodes and the keys of the files. */
  lemma {:induction false} BuildGraphFromKeys(g: Graph, root: string, resolve: Resolver,
                                              files: seq<string>, extract: Extractor)
    requires BuildGraphFrom(g, root, resolve, files, extract).Ok?
    ensures BuildGraphFrom(g, root, resolve, files, extract).value.Keys == g.Keys + Keys(root, files)
    decreases |files|
  {
    if files != [] {
      var imports := extract(files[0]).value;
      var g' := AddFile(g, NormalizeFilePath(root, files[0]), EdgesOf(root, resolve, files[0], imports));
      BuildGraphFromKeys(g', root, resolve, files[1..], extract);
      KeysCons(root, files);
    }
  }

  /** Each node of a built graph carries its prior edges, then those of every file with its key. */
  lemma {:induction false} BuildGraphFromEdges(g: Graph, root: string, resolve: Resolver,
                                               files: seq<string>, extract: Extractor)
    requires BuildGraphFrom(g, root, resolve, files, extract).Ok?
    ensures var h := BuildGraphFrom(g, root, resolve, files, extract).value;
      forall k :: k in h ==> h[k] == (if k in g then g[k] else []) + EdgesForKey(root, resolve, files, extract, k)
    decreases |files|
  {
    if files != [] {
      var imports := extract(files[0]).value;
      var key := NormalizeFilePath(root, files[0]);
      var edges := EdgesOf(root, resolve, files[0], imports);
      var g' := AddFile(g, key, edges);
      BuildGraphFromEdges(g', root, resolve, files[1..], extract);
      EdgesStep(g, g', key, edges, root, resolve, files, extract, imports,
                BuildGraphFrom(g, root, resolve, files, extract).value);
    }
  }

  /** The failure part of `BuildGraphFrom`'s contract, from that of its recursive call. */
  lemma FailureStep(files: seq<string>, extract: Extractor, r: Result<Graph, BuildError>)
    requires files != [] && extract(files[0]).Some?
    requires r.Err? <==> exists i :: 0 <= i < |files[1..]| && extract(files[1..][i]).None?
    requires r.Err? ==>
      exists i :: 0 <= i < |files[1..]| && extract(files[1..][i]).None?
        && r.error.file == files[1..][i] && forall j :: 0 <= j < i ==> extract(files[1..][j]).Some?
    ensures r.Err? <==> exists i :: 0 <= i < |files| && extract(files[i]).None?
    ensures r.Err? ==>
      exists i :: 0 <= i < |files| && extract(files[i]).None? && r.error.file == files[i]
        && forall j :: 0 <= j < i ==> extract(files[j]).Some?
  {
    if exists i :: 0 <= i < |files| && extract(files[i]).None? {
      var i :| 0 <= i < |files| && extract(files[i]).None?;
      assert files[1..][i - 1] == files[i];
    }
    if r.Err? {
      var i :| 0 <= i < |files[1..]| && extract(files[1..][i]).None?
        && r.error.file == files[1..][i] && forall j :: 0 <= j < i ==> extract(files[1..][j]).Some?;
      assert files[i + 1] == files[1..][i];
      forall j | 0 < j < i + 1
        ensures extract(files[j]).Some?
      {
        assert files[j] == files[1..][j - 1];
      }
    }
  }

  lemma KeysCons(root: string, files: seq<string>)
    requires files != []
    ensures Keys(root, files) == {NormalizeFilePath(root, files[0])} + Keys(root, files[1..])
  {
    forall k | k in Keys(root, files)
      ensures k in {NormalizeFilePath(root, files[0])} + Keys(root, files[1..])
    {
      var i :| 0 <= i < |files| && NormalizeFilePath(root, files[i]) == k;
      if i > 0 {
        assert files[1..][i - 1] == files[i];
      }
    }
  }

  /** `EdgesForKey` of a non-empty file list, one file at a time. */
  lemma EdgesForKeyCons(root: string, resolve: Resolver, files: seq<string>, extract: Extractor,
                        imports: seq<string>, k: string)
    requires files != [] && extract(files[0]) == Some(imports)
    ensures EdgesForKey(root, resolve, files, extract, k)
         == (if NormalizeFilePath(root, files[0]) == k then EdgesOf(root, resolve, files[0], imports) else [])
            + EdgesForKey(root, resolve, files[1..], extract, k)
  {
  }

  lemma ConcatAssociative(a: seq<string>, b: seq<string>, c: seq<string>)
    ensures (a + b) + c == a + (b + c)
  {
  }

  /** The edge part of `BuildGraphFrom`'s contract, from that of its recursive call. */
  lemma EdgesStep(g: Graph, g': Graph, key: string, edges: seq<string>, root: string, resolve: Resolver,
                  files: seq<string>, extract: Extractor, imports: seq<string>, h: Graph)
    requires files != [] && extract(files[0]) == Some(imports)
    requires key == NormalizeFilePath(root, files[0]) && edges == EdgesOf(root, resolve, files[0], imports)
    requires g' == AddFile(g, key, edges)
    requires forall k :: k in h ==>
      h[k] == (if k in g' then g'[k] else []) + EdgesForKey(root, resolve, files[1..], extract, k)
    ensures forall k :: k in h ==>
      h[k] == (if k in g then g[k] else []) + EdgesForKey(root, resolve, files, extract, k)
  {
    forall k | k in h
      ensures h[k] == (if k in g then g[k] else []) + EdgesForKey(root, resolve, files, extract, k)
    {
      EdgesForKeyCons(root, resolve, files, extract, imports, k);
      var rest := EdgesForKey(root, resolve, files[1..], extract, k);
      var own := if k == key then edges else [];
      var before := if k in g then g[k] else [];
      assert (if k in g' then g'[k] else []) == before + own;
      assert h[k] == (before + own) + rest;
      ConcatAssociative(before, own, rest);
    }
  }

  /** `build_graph`: every file gets a node for its own key, and its resolved internal imports
      are appended to that node's edges. The first file that cannot be loaded or parsed aborts
      the whole build. */
  function BuildGraph(root: string, resolve: Resolver, files: seq<string>, extract: Extractor)
    : (r: Result<Graph, BuildError>)
    ensures r.Err? <==> exists i :: 0 <= i < |files| && extract(files[i]).None?
    ensures r.Err? ==>
      exists i :: 0 <= i < |files| && extract(files[i]).None? && r.error.file == files[i]
        && forall j :: 0 <= j < i ==> extract(files[j]).Some?
    ensures r.Ok? ==> r.value.Keys == Keys(root, files)
    ensures r.Ok? ==> forall k :: k in r.value ==>
      r.value[k] == EdgesForKey(root, resolve, files, extract, k)
  {
    var r := BuildGraphFrom(map[], root, resolve, files, extract);
    if r.Ok? then
      BuildGraphFromKeys(map[], root, resolve, files, extract);
      BuildGraphFromEdges(map[], root, resolve, files, extract);
      r
    else r
  }

  /** Every edge of a built graph points at an internal key. */
  lemma {:induction false} EdgesForKeyInternal(root: string, resolve: Resolver, files: seq<string>,
                                               extract: Extractor, key: string)
    ensures forall t :: t in EdgesForKey(root, resolve, files, extract, key) ==> IsInternalDependency(t)
  {
    if files != [] {
      EdgesForKeyInternal(root, resolve, files[1..], extract, key);
    }
  }

  lemma BuiltEdgesAreInternal(root: string, resolve: Resolver, files: seq<string>, extract: Extractor)
    requires BuildGraph(root, resolve, files, extract).Ok?
    ensures var g := BuildGraph(root, resolve, files, extract).value;
      forall k, t :: k in g && t in g[k] ==> IsInternalDependency(t)
  {
    var g := BuildGraph(root, resolve, files, extract).value;
    forall k | k in g
      ensures forall t :: t in g[k] ==> IsInternalDependency(t)
    {
      EdgesForKeyInternal(root, resolve, files, extract, k);
    }
  }

  // ---------------------------------------------------------------- cycles

  predicate Edge(g: Graph, a: string, b: string) {
    a in g && b in g[a]
  }

  predicate IsWalk(g: Graph, p: seq<string>) {
    forall i :: 0 <= i < |p| - 1 ==> Edge(g, p[i], p[i + 1])
  }

  /** A closed walk of at least one edge. */
  predicate IsCycle(g: Graph, c: seq<string>) {
    |c| >= 2 && c[0] == c[|c| - 1] && IsWalk(g, c)
  }

  ghost predicate Acyclic(g: Graph) {
    forall c :: !IsCycle(g, c)
  }

  /** In a cycle the second node has an outgoing edge, so it is a key. */
  lemma CycleSecondNodeIsKey(g: Graph, c: seq<string>)
    requires IsCycle(g, c)
    ensures c[1] in g
  {
    if |c| == 2 {
      assert Edge(g, c[0], c[1]);
    } else {
      assert Edge(g, c[1], c[2]);
    }
  }

  /** A graph whose edges all lead outside its keys has no cycle. */
  lemma DanglingEdgesAcyclic(g: Graph)
    requires forall k, t :: k in g && t in g[k] ==> t !in g
    ensures Acyclic(g)
  {
    forall c | IsCycle(g, c)
      ensures false
    {
      CycleSecondNodeIsKey(g, c);
    }
  }

  /** Every node the search can reach: the keys and every edge target. */
  function Nodes(g: Graph): set<string> {
    g.Keys + set a, b | a in g && b in g[a] :: b
  }

  const EmptyCycleDescription: string := "Ciclo vac\U{00ED}o"
  const CycleHeader: string := "Dependencia c\U{00ED}clica detectada:\n"
  const CycleFooter: string :=
    "\n  \U{26A0}\U{FE0F}  Esto rompe la jerarqu\U{00ED}a de capas y crea acoplamiento circular."

  /** The report line for one hop of a cycle. */
  function HopLine(a: string, b: string): string {
    "  " + a + " \U{2192} " + b + "\n"
  }

  /** One line per consecutive pair of the cycle. */
  function HopLines(cycle: seq<string>): string
    decreases |cycle|
  {
    if |cycle| < 2 then "" else HopLine(cycle[0], cycle[1]) + HopLines(cycle[1..])
  }

  /** `format_cycle_description`. */
  function FormatCycleDescription(cycle: seq<string>): (r: string)
    ensures cycle == [] <==> r == EmptyCycleDescription
    ensures cycle != [] ==>
      StartsWith(r, CycleHeader) && |r| >= |CycleHeader| + |CycleFooter|
        && r[|r| - |CycleFooter|..] == CycleFooter
  {
    if cycle == [] then EmptyCycleDescription
    else
      var r := CycleHeader + HopLines(cycle) + CycleFooter;
      assert r[..|CycleHeader|] == CycleHeader;
      assert r[|r| - |CycleFooter|..] == CycleFooter;
      r
  }

  /** A cycle one node longer gains one hop line, at the end: the lines follow the cycle's order. */
  lemma {:induction false} HopLinesSnoc(c: seq<string>, x: string)
    requires c != []
    ensures HopLines(c + [x]) == HopLines(c) + HopLine(c[|c| - 1], x)
    decreases |c|
  {
    if |c| == 1 {
      assert c + [x] == [c[0], x];
      assert (c + [x])[1..] == [x];
    } else {
      assert (c + [x])[1..] == c[1..] + [x];
      HopLinesSnoc(c[1..], x);
      StringAssociative(HopLine(c[0], c[1]), HopLines(c[1..]), HopLine(c[|c| - 1], x));
    }
  }

  /** The loop of `format_cycle_description`: the header, then for every node but the last
      the line to its successor, then the footer. It builds the description the function states. */
  method FormatCycleDescriptionLoop(cycle: seq<string>) returns (desc: string)
    ensures desc == FormatCycleDescription(cycle)
  {
    if cycle == [] {
      return EmptyCycleDescription;
    }
    desc := CycleHeader;
    var i := 0;
    while i < |cycle|
      invariant 0 <= i <= |cycle|
      invariant desc == CycleHeader + HopLines(cycle[..if i + 1 < |cycle| then i + 1 else |cycle|])
    {
      if i < |cycle| - 1 {
        HopLinesSnoc(cycle[..i + 1], cycle[i + 1]);
        assert cycle[..i + 1] + [cycle[i + 1]] == cycle[..i + 2];
        StringAssociative(CycleHeader, HopLines(cycle[..i + 1]), HopLine(cycle[i], cycle[i + 1]));
        desc := desc + HopLine(cycle[i], cycle[i + 1]);
      }
      i := i + 1;
    }
    assert cycle[..|cycle|] == cycle;
    desc := desc + CycleFooter;
  }

  lemma ContainsInMiddle(a: string, b: string, c: string, pat: string)
    requires Contains(b, pat)
    ensures Contains(a + b + c, pat)
  {
    var i: int :| 0 <= i <= |b| - |pat| && OccursAt(b, pat, i);
    assert (a + b + c)[|a| + i..|a| + i + |pat|] == b[i..i + |pat|];
    assert OccursAt(a + b + c, pat, |a| + i);
  }

  /** The hop lines name every consecutive pair of the cycle. */
  lemma {:induction false} HopLinesNameEveryHop(cycle: seq<string>, i: int)
    requires 0 <= i < |cycle| - 1
    ensures Contains(HopLines(cycle), HopLine(cycle[i], cycle[i + 1]))
    decreases i
  {
    var line := HopLine(cycle[0], cycle[1]);
    if i == 0 {
      assert OccursAt(HopLines(cycle), line, 0);
    } else {
      HopLinesNameEveryHop(cycle[1..], i - 1);
      ContainsInMiddle(line, HopLines(cycle[1..]), "", HopLine(cycle[i], cycle[i + 1]));
      assert line + HopLines(cycle[1..]) + "" == HopLines(cycle);
    }
  }

  /** The description of a cycle shows each of its hops. */
  lemma DescriptionNamesEveryHop(cycle: seq<string>, i: int)
    requires 0 <= i < |cycle| - 1
    ensures Contains(FormatCycleDescription(cycle), HopLine(cycle[i], cycle[i + 1]))
  {
    HopLinesNameEveryHop(cycle, i);
    ContainsInMiddle(CycleHeader, HopLines(cycle), CycleFooter, HopLine(cycle[i], cycle[i + 1]));
  }

  /** A reported dependency: a real cycle of the graph with its description. */
  predicate Reported(g: Graph, cd: CircularDependency) {
    IsCycle(g, cd.cycle) && cd.description == FormatCycleDescription(cd.cycle)
  }

  /** The report for a file that imports itself. */
  function SelfCycle(a: string): CircularDependency {
    CircularDependency([a, a], FormatCycleDescription([a, a]))
  }

  /** `path.iter().position(|x| x == target)`. */
  function Position(s: seq<string>, target: string): (r: Option<nat>)
    ensures r.None? <==> target !in s
    ensures r.Some? ==>
      r.value < |s| && s[r.value] == target
        && forall j :: 0 <= j < r.value ==> s[j] != target
  {
    if s == [] then None
    else if s[0] == target then Some(0)
    else match Position(s[1..], target)
      case None => None
      case Some(k) => Some(k + 1)
  }

  /** The cycle an edge back to `target` closes: the path from `target`'s position on,
      then `target` again. */
  function ClosedCycle(path: seq<string>, target: string): (r: seq<string>)
    ensures |r| >= 1 && r[|r| - 1] == target
  {
    var start := match Position(path, target) case Some(k) => k case None => 0;
    path[start..] + [target]
  }

  /** A back edge to a node on the current path closes a cycle. */
  lemma ClosedCycleIsCycle(g: Graph, path: seq<string>, target: string)
    requires IsWalk(g, path) && target in path && Edge(g, path[|path| - 1], target)
    ensures IsCycle(g, ClosedCycle(path, target))
  {
    var start := Position(path, target).value;
    var c := path[start..] + [target];
    assert c == ClosedCycle(path, target);
    forall i | 0 <= i < |c| - 1
      ensures Edge(g, c[i], c[i + 1])
    {
      if i < |c| - 2 {
        assert c[i] == path[start + i] && c[i + 1] == path[start + i + 1];
      }
    }
  }

  /** An edge from a node to itself, seen while that node ends the path, closes `[node, node]`. */
  lemma ClosedCycleOfSelfLoop(path0: seq<string>, node: string)
    requires node !in path0
    ensures ClosedCycle(path0 + [node], node) == [node, node]
  {
    var path := path0 + [node];
    assert path[|path0|] == node;
  }

  /** Every entry of `cycles` is a real cycle of `g` with its description. */
  predicate AllReported(g: Graph, cycles: seq<CircularDependency>) {
    forall cd :: cd in cycles ==> Reported(g, cd)
  }

  /** Every node of `xs` that imports itself has its one-hop cycle in `cycles`. */
  predicate SelfLoopsReported(g: Graph, xs: set<string>, cycles: seq<CircularDependency>) {
    forall x :: x in xs && Edge(g, x, x) ==> SelfCycle(x) in cycles
  }

  lemma AllReportedExtend(g: Graph, cycles: seq<CircularDependency>, cd: CircularDependency)
    requires AllReported(g, cycles) && Reported(g, cd)
    ensures AllReported(g, cycles + [cd])
  {
  }

  /** Reports already made stay made as the list grows, and sets of covered nodes combine. */
  lemma SelfLoopsReportedGrow(g: Graph, xs: set<string>, ys: set<string>,
                              c1: seq<CircularDependency>, c2: seq<CircularDependency>)
    requires SelfLoopsReported(g, xs, c1) && SelfLoopsReported(g, ys, c2) && c1 <= c2
    ensures SelfLoopsReported(g, xs + ys, c2)
  {
    forall x | x in xs && Edge(g, x, x)
      ensures SelfCycle(x) in c2
    {
      var k :| 0 <= k < |c1| && c1[k] == SelfCycle(x);
      assert c2[k] == c1[k];
    }
  }

  /** A report added to the list keeps every self-loop report. */
  lemma SelfLoopsReportedAppend(g: Graph, xs: set<string>, cycles: seq<CircularDependency>,
                                cd: CircularDependency)
    requires SelfLoopsReported(g, xs, cycles)
    ensures SelfLoopsReported(g, xs, cycles + [cd])
  {
    SelfLoopsReportedGrow(g, xs, {}, cycles, cycles + [cd]);
    assert xs + {} == xs;
  }

  /** The self-loop reports of a neighbour's search join those made before it. */
  lemma SelfLoopsAfterVisit(g: Graph, visited0: set<string>, node: string,
                            vb: set<string>, va: set<string>,
                            cb: seq<CircularDependency>, ca: seq<CircularDependency>)
    requires SelfLoopsReported(g, vb - visited0 - {node}, cb)
    requires SelfLoopsReported(g, va - vb, ca)
    requires cb <= ca && vb <= va
    ensures SelfLoopsReported(g, va - visited0 - {node}, ca)
  {
    SelfLoopsReportedGrow(g, vb - visited0 - {node}, va - vb, cb, ca);
    assert va - visited0 - {node} <= (vb - visited0 - {node}) + (va - vb);
  }

  /** An acyclic graph admits no report. */
  lemma NothingReportedWhenAcyclic(g: Graph, cycles: seq<CircularDependency>)
    requires AllReported(g, cycles)
    ensures Acyclic(g) ==> cycles == []
  {
    if cycles != [] {
      assert Reported(g, cycles[0]);
    }
  }

  /** Some reported cycle ends at `y`, that is, was closed by an edge back to `y`. */
  predicate Closes(cycles: seq<CircularDependency>, y: string) {
    exists cd :: cd in cycles && cd.cycle != [] && cd.cycle[|cd.cycle| - 1] == y
  }

  /** Two files that import each other. */
  predicate Mutual(g: Graph, x: string, y: string) {
    Edge(g, x, y) && Edge(g, y, x)
  }

  /** A report closes at one of the two files. */
  predicate PairClosed(cycles: seq<CircularDependency>, x: string, y: string) {
    Closes(cycles, x) || Closes(cycles, y)
  }

  /** Every edge out of `xs` leads into `visited`. */
  ghost predicate OutClosed(g: Graph, xs: set<string>, visited: set<string>) {
    forall x, y :: x in xs && Edge(g, x, y) ==> y in visited
  }

  /** Every mutual pair from a node of `xs` to a node that was not yet visited (`seen` is the
      visited set before) or is on the search stack has a report closing at one of them. */
  ghost predicate PairsReported(g: Graph, xs: set<string>, seen: set<string>, stack: set<string>,
                          cycles: seq<CircularDependency>) {
    forall x, y :: x in xs && Mutual(g, x, y) && (y !in seen || y in stack) ==> PairClosed(cycles, x, y)
  }

  lemma ClosesGrow(c1: seq<CircularDependency>, c2: seq<CircularDependency>, y: string)
    requires c1 <= c2 && Closes(c1, y)
    ensures Closes(c2, y)
  {
    var cd :| cd in c1 && cd.cycle != [] && cd.cycle[|cd.cycle| - 1] == y;
    var k :| 0 <= k < |c1| && c1[k] == cd;
    assert c2[k] == cd;
  }

  lemma PairClosedGrow(c1: seq<CircularDependency>, c2: seq<CircularDependency>, x: string, y: string)
    requires c1 <= c2 && PairClosed(c1, x, y)
    ensures PairClosed(c2, x, y)
  {
    if Closes(c1, x) {
      ClosesGrow(c1, c2, x);
    } else {
      ClosesGrow(c1, c2, y);
    }
  }

  /** The cycle a back edge to `target` closes ends at `target`. */
  lemma ReportClosesAt(cycles: seq<CircularDependency>, path: seq<string>, target: string)
    ensures Closes(cycles + [CircularDependency(ClosedCycle(path, target),
                                              FormatCycleDescription(ClosedCycle(path, target)))], target)
  {
    var c := ClosedCycle(path, target);
    var cd := CircularDependency(c, FormatCycleDescription(c));
    assert cd in cycles + [cd];
  }

  /** The pair reports of a neighbour's search join those made before it in the same loop. */
  lemma {:induction false} PairsAfterVisit(g: Graph, visited0: set<string>, node: string, stack: set<string>,
                         vb: set<string>, va: set<string>,
                         cb: seq<CircularDependency>, ca: seq<CircularDependency>)
    requires node in stack && visited0 + {node} <= vb <= va && cb <= ca
    requires PairsReported(g, vb - visited0 - {node}, visited0, stack, cb)
    requires PairsReported(g, va - vb, vb, stack, ca)
    ensures PairsReported(g, va - visited0 - {node}, visited0, stack, ca)
  {
    forall x, y | x in va - visited0 - {node} && Mutual(g, x, y) && (y !in visited0 || y in stack)
      ensures PairClosed(ca, x, y)
    {
      if x in vb {
        PairClosedGrow(cb, ca, x, y);
      } else if y in vb && y !in stack {
        assert Mutual(g, y, x);
        PairClosedGrow(cb, ca, y, x);
      }
    }
  }

  /** A neighbour of `node` whose pair with `node` was settled by an earlier neighbour's search. */
  lemma {:induction false} NeighbourPairSettled(g: Graph, visited0: set<string>, node: string, stack: set<string>,
                              vb: set<string>, neighbor: string, cb: seq<CircularDependency>,
                              ca: seq<CircularDependency>)
    requires node in stack && cb <= ca && Mutual(g, node, neighbor)
    requires neighbor in vb - visited0 && neighbor !in stack && node !in visited0
    requires PairsReported(g, vb - visited0 - {node}, visited0, stack, cb)
    ensures PairClosed(ca, node, neighbor)
  {
    assert Mutual(g, neighbor, node);
    PairClosedGrow(cb, ca, neighbor, node);
  }

  /** After the loop the pairs of `node` itself are settled as well. */
  lemma {:induction false} PairsOfNode(g: Graph, visited0: set<string>, node: string, stack0: set<string>,
                     neighbors: seq<string>, visited: set<string>, cycles: seq<CircularDependency>)
    requires node in g ==> neighbors == g[node]
    requires node !in g ==> neighbors == []
    requires PairsReported(g, visited - visited0 - {node}, visited0, stack0 + {node}, cycles)
    requires forall j :: 0 <= j < |neighbors| ==> neighbors[j] in visited
    requires forall j :: 0 <= j < |neighbors| && Edge(g, neighbors[j], node)
               && (neighbors[j] !in visited0 || neighbors[j] in stack0 + {node})
               ==> PairClosed(cycles, node, neighbors[j])
    requires OutClosed(g, visited - visited0 - {node}, visited) && node in visited
    ensures PairsReported(g, visited - visited0, visited0, stack0, cycles)
    ensures OutClosed(g, visited - visited0, visited)
  {
    forall x, y | x in visited - visited0 && Mutual(g, x, y) && (y !in visited0 || y in stack0)
      ensures PairClosed(cycles, x, y)
    {
      if x == node {
        var j :| 0 <= j < |neighbors| && neighbors[j] == y;
      }
    }
    forall x, y | x in visited - visited0 && Edge(g, x, y)
      ensures y in visited
    {
      if x == node {
        var j :| 0 <= j < |neighbors| && neighbors[j] == y;
      }
    }
  }

  /** `dfs_detect_cycles`: push `node` onto the search path and stack, search every neighbour
      not yet visited, report the cycle closed by each neighbour still on the stack, then pop
      `node` again. Every mutual pair met from a node this search visits, whose other end is
      new or on the stack, has a report closing at one of the two. */
  method DfsDetectCycles(g: Graph, node: string, visited0: set<string>, recStack0: set<string>,
                         path0: seq<string>, cycles0: seq<CircularDependency>)
    returns (visited: set<string>, recStack: set<string>, path: seq<string>,
             cycles: seq<CircularDependency>)
    requires node in Nodes(g) && node !in visited0
    requires recStack0 == (set x | x in path0) && recStack0 <= visited0
    requires IsWalk(g, path0) && (path0 != [] ==> Edge(g, path0[|path0| - 1], node))
    requires AllReported(g, cycles0)
    ensures recStack == recStack0 && path == path0
    ensures visited0 + {node} <= visited
    ensures cycles0 <= cycles
    ensures AllReported(g, cycles)
    ensures SelfLoopsReported(g, visited - visited0, cycles)
    ensures OutClosed(g, visited - visited0, visited)
    ensures PairsReported(g, visited - visited0, visited0, recStack0, cycles)
    decreases Nodes(g) - visited0, 2
  {
    visited := visited0 + {node};
    recStack := recStack0 + {node};
    path := path0 + [node];
    assert IsWalk(g, path);
    assert recStack == (set x | x in path);
    assert path[..|path| - 1] == path0;
    var neighbors := if node in g then g[node] else [];
    LoopKeptInitially(g, node, neighbors, visited0, recStack, cycles0);
    visited, recStack, path, cycles :=
      SearchNeighbours(g, node, neighbors, visited0, visited, recStack, path, cycles0);
    AfterNeighbours(g, node, neighbors, visited0, recStack0, visited, cycles);
    path := path[..|path| - 1];
    recStack := recStack - {node};
  }

  /** What the neighbour loop of `node` keeps after its first `i` passes. */
  ghost predicate LoopKept(g: Graph, node: string, neighbors: seq<string>, i: int,
                           visited0: set<string>, stack: set<string>,
                           visited: set<string>, cycles: seq<CircularDependency>) {
    && 0 <= i <= |neighbors|
    && visited0 + {node} <= visited
    && SelfLoopsReported(g, visited - visited0 - {node}, cycles)
    && ((forall j :: 0 <= j < i ==> neighbors[j] != node) || SelfCycle(node) in cycles)
    && (forall j :: 0 <= j < i ==> neighbors[j] in visited)
    && OutClosed(g, visited - visited0 - {node}, visited)
    && PairsReported(g, visited - visited0 - {node}, visited0, stack, cycles)
    && (forall j :: 0 <= j < i && Edge(g, neighbors[j], node)
          && (neighbors[j] !in visited0 || neighbors[j] in stack)
          ==> PairClosed(cycles, node, neighbors[j]))
  }

  lemma LoopKeptInitially(g: Graph, node: string, neighbors: seq<string>, visited0: set<string>,
                          stack: set<string>, cycles: seq<CircularDependency>)
    ensures LoopKept(g, node, neighbors, 0, visited0, stack, visited0 + {node}, cycles)
  {
    assert visited0 + {node} - visited0 - {node} == {};
  }

  /** Once every neighbour is handled, the search from `node` keeps its promises. */
  lemma AfterNeighbours(g: Graph, node: string, neighbors: seq<string>, visited0: set<string>,
                        stack0: set<string>, visited: set<string>, cycles: seq<CircularDependency>)
    requires node in g ==> neighbors == g[node]
    requires node !in g ==> neighbors == []
    requires node !in visited0
    requires LoopKept(g, node, neighbors, |neighbors|, visited0, stack0 + {node}, visited, cycles)
    ensures SelfLoopsReported(g, visited - visited0, cycles)
    ensures OutClosed(g, visited - visited0, visited)
    ensures PairsReported(g, visited - visited0, visited0, stack0, cycles)
  {
    SelfLoopsReportedGrow(g, visited - visited0 - {node}, {node}, cycles, cycles);
    assert visited - visited0 == (visited - visited0 - {node}) + {node};
    PairsOfNode(g, visited0, node, stack0, neighbors, visited, cycles);
  }

  /** The neighbour loop of `dfs_detect_cycles`, with `node` on top of the path and stack. */
  method SearchNeighbours(g: Graph, node: string, neighbors: seq<string>, ghost visited0: set<string>,
                          visitedIn: set<string>, recStackIn: set<string>, pathIn: seq<string>,
                          cyclesIn: seq<CircularDependency>)
    returns (visited: set<string>, recStack: set<string>, path: seq<string>,
             cycles: seq<CircularDependency>)
    requires node in Nodes(g) && node !in visited0
    requires node in g ==> neighbors == g[node]
    requires node !in g ==> neighbors == []
    requires recStackIn == (set x | x in pathIn) && recStackIn <= visitedIn
    requires IsWalk(g, pathIn) && pathIn != [] && pathIn[|pathIn| - 1] == node
    requires node !in pathIn[..|pathIn| - 1]
    requires AllReported(g, cyclesIn)
    requires LoopKept(g, node, neighbors, 0, visited0, recStackIn, visitedIn, cyclesIn)
    ensures recStack == recStackIn && path == pathIn
    ensures visitedIn <= visited && cyclesIn <= cycles
    ensures AllReported(g, cycles)
    ensures LoopKept(g, node, neighbors, |neighbors|, visited0, recStackIn, visited, cycles)
    decreases Nodes(g) - visited0, 1
  {
    visited, recStack, path, cycles := visitedIn, recStackIn, pathIn, cyclesIn;
    var i := 0;
    while i < |neighbors|
      invariant 0 <= i <= |neighbors|
      invariant recStack == recStackIn && path == pathIn
      invariant visitedIn <= visited && cyclesIn <= cycles
      invariant AllReported(g, cycles)
      invariant LoopKept(g, node, neighbors, i, visited0, recStack, visited, cycles)
    {
      assert Edge(g, node, neighbors[i]);
      var visitedBefore, cyclesBefore := visited, cycles;
      visited, recStack, path, cycles :=
        VisitNeighbor(g, node, neighbors[i], visited0, visited, recStack, path, cycles);
      LoopStep(g, node, neighbors, i, visited0, recStack, visitedBefore, visited, cyclesBefore, cycles);
      i := i + 1;
    }
  }

  /** What one pass of the neighbour loop keeps, from what `VisitNeighbor` promises. */
  lemma LoopStep(g: Graph, node: string, neighbors: seq<string>, i: nat, visited0: set<string>,
                 stack: set<string>, vb: set<string>, va: set<string>,
                 cb: seq<CircularDependency>, ca: seq<CircularDependency>)
    requires i < |neighbors| && Edge(g, node, neighbors[i]) && node in stack && node !in visited0
    requires LoopKept(g, node, neighbors, i, visited0, stack, vb, cb)
    requires vb <= va && cb <= ca && neighbors[i] in va
    requires SelfLoopsReported(g, va - vb, ca)
    requires neighbors[i] == node ==> SelfCycle(node) in ca
    requires OutClosed(g, va - vb, va)
    requires PairsReported(g, va - vb, vb, stack, ca)
    requires (Edge(g, neighbors[i], node) && (neighbors[i] !in vb || neighbors[i] in stack))
             ==> PairClosed(ca, node, neighbors[i])
    ensures LoopKept(g, node, neighbors, i + 1, visited0, stack, va, ca)
  {
    SelfLoopsAfterVisit(g, visited0, node, vb, va, cb, ca);
    if SelfCycle(node) in cb {
      var k :| 0 <= k < |cb| && cb[k] == SelfCycle(node);
      assert ca[k] == cb[k];
    }
    PairsAfterVisit(g, visited0, node, stack, vb, va, cb, ca);
    forall j | 0 <= j < i + 1 && Edge(g, neighbors[j], node)
                && (neighbors[j] !in visited0 || neighbors[j] in stack)
      ensures PairClosed(ca, node, neighbors[j])
    {
      if j < i {
        PairClosedGrow(cb, ca, node, neighbors[j]);
      } else if neighbors[i] in vb && neighbors[i] !in stack {
        NeighbourPairSettled(g, visited0, node, stack, vb, neighbors[i], cb, ca);
      }
    }
  }

  /** One pass of the neighbour loop while `node` ends the search path: search an unvisited
      neighbour, threading the path and stack through that search, or report the cycle a
      neighbour still on the stack closes. */
  method VisitNeighbor(g: Graph, node: string, neighbor: string, ghost visited0: set<string>,
                       visitedIn: set<string>, recStackIn: set<string>, pathIn: seq<string>,
                       cyclesIn: seq<CircularDependency>)
    returns (visited: set<string>, recStack: set<string>, path: seq<string>,
             cycles: seq<CircularDependency>)
    requires node in Nodes(g) && node !in visited0 && Edge(g, node, neighbor)
    requires recStackIn == (set x | x in pathIn) && recStackIn <= visitedIn
    requires IsWalk(g, pathIn) && pathIn != [] && pathIn[|pathIn| - 1] == node
    requires node !in pathIn[..|pathIn| - 1]
    requires visited0 + {node} <= visitedIn
    requires AllReported(g, cyclesIn)
    ensures recStack == recStackIn && path == pathIn
    ensures visitedIn <= visited && neighbor in visited
    ensures cyclesIn <= cycles
    ensures AllReported(g, cycles)
    ensures SelfLoopsReported(g, visited - visitedIn, cycles)
    ensures neighbor == node ==> SelfCycle(node) in cycles
    ensures OutClosed(g, visited - visitedIn, visited)
    ensures PairsReported(g, visited - visitedIn, visitedIn, recStackIn, cycles)
    ensures (Edge(g, neighbor, node) && (neighbor !in visitedIn || neighbor in recStackIn))
            ==> PairClosed(cycles, node, neighbor)
    decreases Nodes(g) - visited0, 0
  {
    visited, recStack, path, cycles := visitedIn, recStackIn, pathIn, cyclesIn;
    if neighbor !in visitedIn {
      assert neighbor in Nodes(g);
      visited, recStack, path, cycles := DfsDetectCycles(g, neighbor, visitedIn, recStackIn, pathIn, cyclesIn);
      assert Mutual(g, neighbor, node) ==> PairClosed(cycles, neighbor, node);
    } else if neighbor in recStackIn {
      var cycle := ClosedCycle(pathIn, neighbor);
      ClosedCycleIsCycle(g, pathIn, neighbor);
      if neighbor == node {
        ClosedCycleOfSelfLoop(pathIn[..|pathIn| - 1], node);
        assert pathIn[..|pathIn| - 1] + [node] == pathIn;
      }
      var cd := CircularDependency(cycle, FormatCycleDescription(cycle));
      AllReportedExtend(g, cyclesIn, cd);
      ReportClosesAt(cyclesIn, pathIn, neighbor);
      cycles := cyclesIn + [cd];
    }
  }

  /** Searches made so far from the top level: every visited node has its successors
      visited, and every mutual pair among them has a report closing at one of the two. */
  lemma TopPairsAfterSearch(g: Graph, vb: set<string>, va: set<string>,
                            cb: seq<CircularDependency>, ca: seq<CircularDependency>)
    requires vb <= va && cb <= ca
    requires OutClosed(g, vb, vb) && PairsReported(g, vb, {}, {}, cb)
    requires OutClosed(g, va - vb, va) && PairsReported(g, va - vb, vb, {}, ca)
    ensures OutClosed(g, va, va) && PairsReported(g, va, {}, {}, ca)
  {
    forall x, y | x in va && Mutual(g, x, y)
      ensures PairClosed(ca, x, y)
    {
      if x in vb {
        PairClosedGrow(cb, ca, x, y);
      }
    }
  }

  /** `detect_cycles`: a search from every key not yet visited, in the map's iteration order
      (left unspecified). Every reported cycle is a cycle of the graph, every file that
      imports itself is reported, and every two files that import each other have a report
      closing at one of them. `visited` is the search's final visited set. */
  method DetectCycles(g: Graph) returns (cycles: seq<CircularDependency>, visited: set<string>)
    ensures g.Keys <= visited
    ensures AllReported(g, cycles)
    ensures forall x :: Edge(g, x, x) ==> SelfCycle(x) in cycles
    ensures forall x, y :: Mutual(g, x, y) ==> PairClosed(cycles, x, y)
    ensures Acyclic(g) ==> cycles == []
  {
    cycles := [];
    visited := {};
    var remaining := g.Keys;
    while remaining != {}
      invariant remaining <= g.Keys
      invariant g.Keys - remaining <= visited
      invariant AllReported(g, cycles)
      invariant SelfLoopsReported(g, visited, cycles)
      invariant OutClosed(g, visited, visited) && PairsReported(g, visited, {}, {}, cycles)
      decreases remaining
    {
      var node :| node in remaining;
      remaining := remaining - {node};
      if node !in visited {
        var recStack, path;
        var visitedBefore, cyclesBefore := visited, cycles;
        visited, recStack, path, cycles := DfsDetectCycles(g, node, visited, {}, [], cycles);
        SelfLoopsReportedGrow(g, visitedBefore, visited - visitedBefore, cyclesBefore, cycles);
        assert visited == visitedBefore + (visited - visitedBefore);
        TopPairsAfterSearch(g, visitedBefore, visited, cyclesBefore, cycles);
      }
    }
    NothingReportedWhenAcyclic(g, cycles);
  }

  /** Two files that import each other lie on a cycle. */
  lemma MutualIsCycle(g: Graph, x: string, y: string)
    requires Mutual(g, x, y)
    ensures IsCycle(g, [x, y, x])
  {
  }

  /** What `analyze_circular_dependencies` promises for the graph built with `resolve`. */
  ghost predicate AnalysisOutcome(root: string, resolve: Resolver, files: seq<string>, extract: Extractor,
                            r: Result<seq<CircularDependency>, BuildError>) {
    var built := BuildGraph(root, resolve, files, extract);
    && (r.Err? <==> exists i :: 0 <= i < |files| && extract(files[i]).None?)
    && (r.Err? ==> built.Err? && r.error == built.error)
    && (r.Ok? ==>
          && built.Ok?
          && built.value.Keys == Keys(root, files)
          && AllReported(built.value, r.value)
          && (forall x :: Edge(built.value, x, x) ==> SelfCycle(x) in r.value)
          && (forall x, y :: Mutual(built.value, x, y) ==> PairClosed(r.value, x, y))
          && (Acyclic(built.value) ==> r.value == []))
  }

  /** When every file loads and the graph is `g`, the outcome is a report on `g`. */
  lemma OutcomeOfLoadedGraph(root: string, resolve: Resolver, files: seq<string>, extract: Extractor,
                             r: Result<seq<CircularDependency>, BuildError>, g: Graph)
    requires AnalysisOutcome(root, resolve, files, extract, r)
    requires forall i :: 0 <= i < |files| ==> extract(files[i]).Some?
    requires BuildGraph(root, resolve, files, extract) == Ok(g)
    ensures r.Ok?
    ensures forall x, y :: Mutual(g, x, y) ==> PairClosed(r.value, x, y)
    ensures Acyclic(g) ==> r.value == []
  {
  }

  /** When every file loads and its graph has a mutual pair, the report is a non-empty list
      closing at one of the two. */
  lemma MutualPairReported(root: string, resolve: Resolver, files: seq<string>, extract: Extractor,
                           r: Result<seq<CircularDependency>, BuildError>, g: Graph, x: string, y: string)
    requires AnalysisOutcome(root, resolve, files, extract, r)
    requires forall i :: 0 <= i < |files| ==> extract(files[i]).Some?
    requires BuildGraph(root, resolve, files, extract) == Ok(g)
    requires Mutual(g, x, y)
    ensures r.Ok? && r.value != []
    ensures Closes(r.value, x) || Closes(r.value, y)
  {
    OutcomeOfLoadedGraph(root, resolve, files, extract, r, g);
  }

  /** Build the graph with `resolve`, then search it. */
  method AnalyzeWith(root: string, resolve: Resolver, files: seq<string>, extract: Extractor)
    returns (r: Result<seq<CircularDependency>, BuildError>)
    ensures AnalysisOutcome(root, resolve, files, extract, r)
  {
    var built := BuildGraph(root, resolve, files, extract);
    if built.Err? {
      r := Err(built.error);
    } else {
      var cycles, _ := DetectCycles(built.value);
      r := Ok(cycles);
    }
  }

  /** `analyze_circular_dependencies`: imports are resolved with `resolve_import_path` as
      written, so a `./` or `../` import reaches a path spelled with that component. */
  method AnalyzeCircularDependencies(root: string, existing: set<string>, files: seq<string>,
                                     extract: Extractor)
    returns (r: Result<seq<CircularDependency>, BuildError>)
    ensures AnalysisOutcome(root, AsWrittenResolver(existing), files, extract, r)
  {
    r := AnalyzeWith(root, AsWrittenResolver(existing), files, extract);
  }

  /** The analysis with `./` and `../` consumed before joining, so that relative imports
      reach the keys of the files they name. */
  method AnalyzeCircularDependenciesLexical(root: string, existing: set<string>, files: seq<string>,
                                            extract: Extractor)
    returns (r: Result<seq<CircularDependency>, BuildError>)
    ensures AnalysisOutcome(root, LexicalResolver(existing), files, extract, r)
  {
    r := AnalyzeWith(root, LexicalResolver(existing), files, extract);
  }
}
