/** The parts of Rust's `std::path` the dependency-graph builder relies on, on Unix paths
    written as strings with `/` as separator. Components are read as `Path::components`
    reads them: repeated separators, trailing separators and `.` components after the
    first are skipped. `join` and `with_extension` only edit text: neither collapses
    `.` nor `..` components. */
module Paths {
  import opened Wrappers
  import opened Text

  /** The index of the last `c` in `s`. */
  function LastIndexOf(s: string, c: char): (r: Option<nat>)
    ensures r.None? <==> c !in s
    ensures r.Some? ==> r.value < |s| && s[r.value] == c && c !in s[r.value + 1..]
    decreases |s|
  {
    if s == [] then None
    else if s[|s| - 1] == c then Some(|s| - 1)
    else
      var r := LastIndexOf(s[..|s| - 1], c);
      if r.Some? then
        assert s[r.value + 1..] == s[..|s| - 1][r.value + 1..] + [s[|s| - 1]];
        r
      else
        assert s == s[..|s| - 1] + [s[|s| - 1]];
        r
  }

  /** The text after the last `/`: the final component as written. */
  function LastComponent(p: string): (r: string)
    ensures '/' !in r
    ensures |r| <= |p| && r == p[|p| - |r|..]
    ensures |r| < |p| ==> p[|p| - |r| - 1] == '/'
  {
    match LastIndexOf(p, '/')
    case None => p
    case Some(k) => p[k + 1..]
  }

  // ---------------------------------------------------------------- components

  /** The length of what comes before the first component: a leading `/` (the root) or a
      leading `.` component, which `Components` keeps apart from the others. */
  function RootLen(p: string): (r: nat)
    ensures r <= 1 && r <= |p|
  {
    if StartsWith(p, "/") || p == "." || StartsWith(p, "./") then 1 else 0
  }

  /** `p` ends in a separator or in a `.` component after its first component. */
  predicate HasTrailing(p: string) {
    |p| > RootLen(p) && (p[|p| - 1] == '/' || (|p| >= 2 && p[|p| - 2] == '/' && p[|p| - 1] == '.'))
  }

  /** `p` without the trailing separators and `.` components that `Components::next_back`
      and `Components::as_path` skip. */
  function StripTrailing(p: string): (r: string)
    ensures |r| <= |p| && r == p[..|r|]
    ensures RootLen(r) == RootLen(p)
    ensures !HasTrailing(r)
    ensures !HasTrailing(p) ==> r == p
    decreases |p|
  {
    if HasTrailing(p) then
      var q := p[..|p| - 1];
      assert RootLen(q) == RootLen(p) by {
        if |q| >= 2 { assert q[..2] == p[..2]; }
        if |q| >= 1 { assert q[..1] == p[..1]; }
      }
      var r := StripTrailing(q);
      assert r == p[..|r|];
      r
    else p
  }

  /** A final component that names no file: the empty one after the root, `.` and `..`. */
  predicate NamesNoFile(c: string) {
    c == "" || c == "." || c == ".."
  }

  /** `Path::file_name`: the last component when it is a normal one; a path that ends
      at the root, at a leading `.` or at `..` has none. */
  function FileName(p: string): (r: Option<string>)
    ensures r.Some? ==> r.value != [] && '/' !in r.value && r.value != "." && r.value != ".."
    ensures r.Some? ==> r.value == LastComponent(StripTrailing(p))
  {
    var t := StripTrailing(p);
    if |t| <= RootLen(t) then None
    else
      var name := LastComponent(t);
      if name == ".." then None
      else
        LastOfUntrimmed(t);
        Some(name)
  }

  /** A path has a file name exactly when its last component, once trailing `/` and `/.`
      are dropped, is a normal one. */
  lemma FileNameExists(p: string)
    ensures FileName(p).None? <==> NamesNoFile(LastComponent(StripTrailing(p)))
  {
  }

  /** The last component of a path that is longer than its root and has no trailing
      separator or `.` component is a real one. */
  lemma LastOfUntrimmed(t: string)
    requires |t| > RootLen(t) && !HasTrailing(t)
    ensures LastComponent(t) != [] && LastComponent(t) != "."
  {
  }

  /** `Path::parent`: the path before its last component, itself without trailing
      separators and `.` components; a path ending at the root, or empty, has none. */
  function Parent(p: string): (r: Option<string>)
    ensures r.Some? ==> |r.value| < |p|
    ensures p == "" || p == "/" ==> r.None?
  {
    var t := StripTrailing(p);
    if |t| > RootLen(t) then
      var name := LastComponent(t);
      LastOfUntrimmed(t);
      Some(StripTrailing(t[..|t| - |name|]))
    else if t == "." then Some("")
    else None
  }

  /** A component that may end a path: neither empty nor `.`, without separators. */
  predicate IsComponent(name: string) {
    name != [] && '/' !in name && name != "."
  }

  /** `pre` is empty or ends in a separator, so that a component can follow it. */
  predicate IsDirPrefix(pre: string) {
    pre == [] || pre[|pre| - 1] == '/'
  }

  /** A path `pre + name` whose last component is `name`. */
  lemma SplitLast(pre: string, name: string)
    requires IsDirPrefix(pre) && IsComponent(name)
    ensures StripTrailing(pre + name) == pre + name
    ensures LastComponent(pre + name) == name
    ensures FileName(pre + name) == (if name == ".." then None else Some(name))
    ensures Parent(pre + name) == Some(StripTrailing(pre))
  {
    var p := pre + name;
    SplitLastUntrimmed(pre, name);
    SplitLastComponent(pre, name);
    assert p[..|p| - |name|] == pre;
  }

  lemma SplitLastUntrimmed(pre: string, name: string)
    requires IsDirPrefix(pre) && IsComponent(name)
    ensures !HasTrailing(pre + name) && |pre + name| > RootLen(pre + name)
  {
    var p := pre + name;
    assert p[|p| - 1] == name[|name| - 1] && name[|name| - 1] in name;
    if |name| >= 2 {
      assert p[|p| - 2] == name[|name| - 2] && name[|name| - 2] in name;
    } else if pre != [] {
      assert p[|p| - 2] == '/' && name == [p[|p| - 1]];
    } else {
      assert p == name && |p| == 1;
    }
  }

  lemma SplitLastComponent(pre: string, name: string)
    requires IsDirPrefix(pre) && '/' !in name
    ensures LastComponent(pre + name) == name
  {
    if pre != [] {
      LastIndexOfChild(pre[..|pre| - 1], name, '/');
      assert pre[..|pre| - 1] + [pre[|pre| - 1]] + name == pre + name;
    } else {
      assert pre + name == name;
    }
  }

  /** The last `c` of `a + [c] + b` is the one after `a` when `b` has none. */
  lemma {:induction false} LastIndexOfChild(a: string, b: string, c: char)
    requires c !in b
    ensures LastIndexOf(a + [c] + b, c) == Some(|a|)
    decreases |b|
  {
    var s := a + [c] + b;
    if b != [] {
      var init := b[..|b| - 1];
      assert b == init + [b[|b| - 1]];
      assert b[|b| - 1] in b;
      assert s[..|s| - 1] == a + [c] + init;
      LastIndexOfChild(a, init, c);
    }
  }

  /** A trailing separator or `.` component changes neither the file name nor the parent:
      `a/b/`, `a/b/.` and `a/b` name the same file. */
  lemma TrailingIgnored(p: string)
    requires p != []
    ensures StripTrailing(p + "/") == StripTrailing(p) && StripTrailing(p + "/.") == StripTrailing(p)
    ensures FileName(p + "/") == FileName(p) && FileName(p + "/.") == FileName(p)
    ensures Parent(p + "/") == Parent(p) && Parent(p + "/.") == Parent(p)
  {
    var q := p + "/";
    assert HasTrailing(q);
    assert q[..|q| - 1] == p;
    var q2 := p + "/.";
    assert HasTrailing(q2);
    assert q2[..|q2| - 1] == q;
  }

  // ---------------------------------------------------------------- file names

  /** Where `file_stem` and `extension` split a file name: at its last `.`, unless the
      name is `..` or that dot is its first character. */
  function SplitDot(name: string): (r: Option<nat>)
    ensures r.Some? ==> 0 < r.value < |name| && name[r.value] == '.' && '.' !in name[r.value + 1..]
    ensures r.None? <==> name == ".." || forall k :: 0 < k < |name| ==> name[k] != '.'
  {
    if name == ".." then None
    else match LastIndexOf(name, '.')
      case Some(k) =>
        if k == 0 then
          assert forall j :: 0 < j < |name| ==> name[j] != '.' by {
            forall j | 0 < j < |name|
              ensures name[j] != '.'
            {
              assert name[j] == name[1..][j - 1];
            }
          }
          None
        else Some(k)
      case None => None
  }

  /** `Path::file_stem` of a file name. */
  function Stem(name: string): (r: string)
    ensures |r| <= |name| && r == name[..|r|]
    ensures name != [] ==> r != []
  {
    match SplitDot(name)
    case Some(k) => name[..k]
    case None => name
  }

  /** `Path::extension` of a file name: the text after the last `.`, if that dot is not
      the name's first character. */
  function Extension(name: string): (r: Option<string>)
    ensures r.None? <==> name == ".." || forall k :: 0 < k < |name| ==> name[k] != '.'
    ensures r.Some? ==> '.' !in r.value && |r.value| < |name| && r.value == name[|name| - |r.value|..]
  {
    match SplitDot(name)
    case Some(k) => Some(name[k + 1..])
    case None => None
  }

  /** Stem and extension split the name at a dot and lose nothing. */
  lemma StemExtensionRoundTrip(name: string)
    ensures Extension(name).None? ==> Stem(name) == name
    ensures Extension(name).Some? ==> Stem(name) + "." + Extension(name).value == name
  {
    match SplitDot(name)
    case Some(k) =>
      assert name[..k] + "." + name[k + 1..] == name;
    case None =>
  }

  /** `Path::with_extension(ext)` for an extension without separators: the path is cut
      right after the file stem and `.ext` appended, so an existing extension is
      replaced; a path without a file name is returned unchanged. */
  function WithExtension(p: string, ext: string): (r: string)
    requires ext != [] && '/' !in ext
    ensures FileName(p).None? ==> r == p
    ensures FileName(p).Some? ==>
      && CutAfterName(p, r, ext)
      && FileName(r) == Some(Stem(FileName(p).value) + "." + ext)
      && Parent(r) == Parent(p)
  {
    match FileName(p)
    case None => p
    case Some(name) =>
      var t := StripTrailing(p);
      var r := t[..|t| - |name|] + (Stem(name) + "." + ext);
      WithExtensionParts(p, name, ext, r);
      r
  }

  /** The file name and parent of `p` renamed, and the text it keeps. */
  lemma WithExtensionParts(p: string, name: string, ext: string, r: string)
    requires ext != [] && '/' !in ext && FileName(p) == Some(name)
    requires |name| <= |StripTrailing(p)|
    requires r == StripTrailing(p)[..|StripTrailing(p)| - |name|] + (Stem(name) + "." + ext)
    ensures CutAfterName(p, r, ext)
    ensures FileName(r) == Some(Stem(name) + "." + ext)
    ensures Parent(r) == Parent(p)
  {
    var newName := Stem(name) + "." + ext;
    RenamedComponent(name, ext);
    RenamedParts(p, name, newName);
    CutAfterStem(p, name, ext);
  }

  /** `r` is a prefix of `p` followed by `.ext`. */
  predicate CutAfterName(p: string, r: string, ext: string) {
    |ext| + 1 <= |r| <= |p| + |ext| + 1 && r == p[..|r| - |ext| - 1] + "." + ext
  }

  /** Renaming the last component keeps the parent and makes the new name the file name. */
  lemma RenamedParts(p: string, name: string, newName: string)
    requires FileName(p) == Some(name) && IsComponent(newName) && newName != ".."
    ensures |name| <= |StripTrailing(p)|
    ensures var t := StripTrailing(p); var r := t[..|t| - |name|] + newName;
      FileName(r) == Some(newName) && Parent(r) == Parent(p)
  {
    var t := StripTrailing(p);
    NamedPathSplits(p, name);
    SplitLast(t[..|t| - |name|], newName);
  }

  /** A path with a file name is its directory prefix followed by that name. */
  lemma NamedPathSplits(p: string, name: string)
    requires FileName(p) == Some(name)
    ensures var t := StripTrailing(p);
      && |name| <= |t| && t == t[..|t| - |name|] + name
      && IsDirPrefix(t[..|t| - |name|])
      && Parent(p) == Some(StripTrailing(t[..|t| - |name|]))
  {
    var t := StripTrailing(p);
    assert |t| > RootLen(t) && name == LastComponent(t);
    var pre := t[..|t| - |name|];
    assert t == pre + name by {
      assert t[|t| - |name|..] == name;
    }
    assert IsDirPrefix(pre) by {
      if pre != [] {
        assert pre[|pre| - 1] == t[|t| - |name| - 1];
      }
    }
  }

  /** A file name with a new extension is still a single normal component. */
  lemma RenamedComponent(name: string, ext: string)
    requires IsComponent(name) && ext != [] && '/' !in ext
    ensures IsComponent(Stem(name) + "." + ext) && Stem(name) + "." + ext != ".."
  {
    var stem := Stem(name);
    var n := stem + "." + ext;
    assert '/' !in stem by {
      forall i | 0 <= i < |stem|
        ensures stem[i] != '/'
      {
        assert stem[i] == name[i] && name[i] in name;
      }
    }
    forall i | 0 <= i < |n|
      ensures n[i] != '/'
    {
      if i < |stem| {
        assert n[i] == stem[i] && stem[i] in stem;
      } else if i > |stem| {
        assert n[i] == ext[i - |stem| - 1] && ext[i - |stem| - 1] in ext;
      }
    }
  }

  /** The renamed path keeps `p` up to the end of the stem. */
  lemma CutAfterStem(p: string, name: string, ext: string)
    requires FileName(p) == Some(name)
    ensures |name| <= |StripTrailing(p)|
    ensures var t := StripTrailing(p);
      CutAfterName(p, t[..|t| - |name|] + (Stem(name) + "." + ext), ext)
  {
    var t := StripTrailing(p);
    assert |name| <= |t| && t == t[..|t| - |name|] + name by {
      NamedPathSplits(p, name);
    }
    SeqFacts(p, t, t[..|t| - |name|], name, Stem(name), ext);
  }

  lemma SeqFacts(p: string, t: string, pre: string, name: string, stem: string, ext: string)
    requires |t| <= |p| && t == p[..|t|] && t == pre + name
    requires |stem| <= |name| && stem == name[..|stem|]
    ensures CutAfterName(p, pre + (stem + "." + ext), ext)
  {
    assert pre + stem == t[..|pre| + |stem|];
    assert pre + (stem + "." + ext) == (pre + stem) + "." + ext;
  }

  /** A trailing separator or `.` component does not change `with_extension` of a path
      that has a file name: `./utils/` tries `./utils.ts` like `./utils` does. */
  lemma WithExtensionIgnoresTrailing(p: string, ext: string)
    requires ext != [] && '/' !in ext && FileName(p).Some?
    ensures WithExtension(p + "/", ext) == WithExtension(p, ext)
    ensures WithExtension(p + "/.", ext) == WithExtension(p, ext)
  {
    TrailingIgnored(p);
  }

  // ---------------------------------------------------------------- joining

  /** `Path::join`: an absolute `s` replaces the base, otherwise it is appended after a separator. */
  function Join(base: string, s: string): (r: string)
    ensures StartsWith(s, "/") ==> r == s
    ensures !StartsWith(s, "/") && base != [] && base[|base| - 1] != '/' ==> r == base + "/" + s
    ensures !StartsWith(s, "/") && base != [] && base[|base| - 1] == '/' ==> r == base + s
  {
    if StartsWith(s, "/") || base == [] then s
    else if base[|base| - 1] == '/' then base + s
    else base + "/" + s
  }

  /** Leading empty and `.` components dropped, as `Components::as_path` does on the
      remainder of a prefix strip. */
  function TrimLeadingCurDir(s: string): (r: string)
    ensures |r| <= |s| && r == s[|s| - |r|..]
    ensures !StartsWith(r, "/") && !StartsWith(r, "./") && r != "."
    decreases |s|
  {
    if StartsWith(s, "/") then TrimLeadingCurDir(s[1..])
    else if StartsWith(s, "./") then TrimLeadingCurDir(s[2..])
    else if s == "." then ""
    else s
  }

  /** `Path::strip_prefix(root)` as a textual prefix match followed by the trimming of
      `Components::as_path`: the rest of `p` after `root`, without leading or trailing `/`
      and `.` components. The leading part of `p` must spell the root as written. */
  function StripPrefix(p: string, root: string): (r: Option<string>)
    ensures root != [] && !StartsWith(root, p) && !StartsWith(p, root) ==> r.None?
    ensures root != [] && (p == root || StartsWith(p, root + "/")) ==> r.Some?
    ensures root != [] && r.Some? ==> !HasTrailing(r.value) && !StartsWith(r.value, "/") && !StartsWith(r.value, "./")
  {
    if root == [] then Some(StripTrailing(p))
    else if p == root then Some("")
    else if StartsWith(p, root + "/") then Some(StripTrailing(TrimLeadingCurDir(p[|root| + 1..])))
    else if root[|root| - 1] == '/' && StartsWith(p, root) then Some(StripTrailing(TrimLeadingCurDir(p[|root|..])))
    else None
  }

  /** Joining a relative path onto a root and stripping the root again gives the relative
      path back, and a trailing `/` or `/.` on the joined path is not part of the remainder. */
  lemma StripPrefixOfJoin(root: string, rel: string)
    requires root != [] && rel != [] && !StartsWith(rel, "/") && !StartsWith(rel, "./") && rel != "."
    requires !HasTrailing(rel)
    ensures StripPrefix(root + "/" + rel, root) == Some(rel)
    ensures StripPrefix(root + "/" + rel + "/", root) == Some(rel)
    ensures StripPrefix(root + "/" + rel + "/.", root) == Some(rel)
  {
    assert StripPrefix(root + "/" + rel, root) == Some(rel) by {
      StripPrefixOfSuffix(root, rel, "");
      assert root + "/" + rel + "" == root + "/" + rel;
    }
    assert StripPrefix(root + "/" + rel + "/", root) == Some(rel) by {
      StripPrefixOfSuffix(root, rel, "/");
    }
    assert StripPrefix(root + "/" + rel + "/.", root) == Some(rel) by {
      StripPrefixOfSuffix(root, rel, "/.");
    }
  }

  lemma StripPrefixOfSuffix(root: string, rel: string, tail: string)
    requires root != [] && rel != [] && !StartsWith(rel, "/") && !StartsWith(rel, "./") && rel != "."
    requires !HasTrailing(rel) && (tail == "" || tail == "/" || tail == "/.")
    ensures StripPrefix(root + "/" + rel + tail, root) == Some(rel)
  {
    var p := root + "/" + rel + tail;
    assert p != root && StartsWith(p, root + "/") && p[|root| + 1..] == rel + tail by {
      assert p[..|root| + 1] == root + "/";
    }
    assert TrimLeadingCurDir(rel + tail) == rel + tail by {
      PlainTailUntrimmed(rel, tail);
    }
    assert StripTrailing(rel + tail) == rel by {
      TrailingIgnored(rel);
      assert rel + "" == rel;
    }
  }

  /** A relative path without a leading `/` or `.` component keeps its start when a tail is added. */
  lemma PlainTailUntrimmed(rel: string, tail: string)
    requires rel != [] && !StartsWith(rel, "/") && !StartsWith(rel, "./") && rel != "."
    ensures TrimLeadingCurDir(rel + tail) == rel + tail
  {
    assert (rel + tail)[..1] == rel[..1];
    if |rel| >= 2 {
      assert (rel + tail)[..2] == rel[..2];
    } else {
      assert rel[0] != '.';
    }
  }


  /** `base` joined with `s` after consuming the leading `./` and `../` components of `s`
      against `base`, so that a relative specifier names its file the way a walk of the
      directory tree spells it. */
  function JoinLexical(base: string, s: string): (r: string)
    ensures !StartsWith(s, "./") && !StartsWith(s, "../") ==> r == Join(base, s)
    decreases |s|
  {
    if StartsWith(s, "./") then JoinLexical(base, s[2..])
    else if StartsWith(s, "../") && Parent(base).Some? then JoinLexical(Parent(base).value, s[3..])
    else Join(base, s)
  }

  /** A leading `./` names the base directory itself. */
  lemma JoinLexicalDotSlash(base: string, s: string)
    ensures JoinLexical(base, "./" + s) == JoinLexical(base, s)
  {
    var t := "./" + s;
    assert StartsWith(t, "./") && t[2..] == s;
  }

  /** A leading `../` climbs to the parent of the base, when there is one. */
  lemma JoinLexicalDotDot(base: string, s: string)
    ensures Parent(base).Some? ==> JoinLexical(base, "../" + s) == JoinLexical(Parent(base).value, s)
    ensures Parent(base).None? ==> JoinLexical(base, "../" + s) == Join(base, "../" + s)
  {
    var t := "../" + s;
    assert !StartsWith(t, "./") by { assert t[1] == '.'; }
    assert StartsWith(t, "../") && t[3..] == s;
  }

  lemma StringAssociative(a: string, b: string, c: string)
    ensures (a + b) + c == a + (b + c)
  {
  }

  /** A file name with neither separator nor dot, such as a specifier's final component. */
  predicate PlainName(name: string) {
    name != [] && '/' !in name && '.' !in name
  }

  /** File name, parent and `with_extension` of `pre + name` for a plain name, where `pre`
      ends in a separator. */
  lemma ChildParts(pre: string, name: string, ext: string)
    requires pre != [] && pre[|pre| - 1] == '/' && PlainName(name) && ext != [] && '/' !in ext
    ensures Parent(pre + name) == Some(StripTrailing(pre))
    ensures FileName(pre + name) == Some(name)
    ensures WithExtension(pre + name, ext) == pre + name + "." + ext
  {
    assert name != "." && name != ".." by {
      assert name[0] in name;
    }
    assert IsComponent(name);
    SplitLast(pre, name);
    assert SplitDot(name).None?;
    assert Stem(name) == name;
    WithExtensionOfTrimmed(pre + name, ext);
    assert (pre + name)[..|pre + name| - |name|] == pre;
    StringAssociative(pre, name, "." + ext);
    StringAssociative(name, ".", ext);
    StringAssociative(pre + name, ".", ext);
  }

  /** On a path without trailing separators, `with_extension` replaces the text of the
      file name by the stem and the new extension. */
  lemma WithExtensionOfTrimmed(p: string, ext: string)
    requires ext != [] && '/' !in ext && !HasTrailing(p) && FileName(p).Some?
    ensures var name := FileName(p).value;
      |name| <= |p| && WithExtension(p, ext) == p[..|p| - |name|] + (Stem(name) + "." + ext)
  {
    var name := FileName(p).value;
    assert StripTrailing(p) == p;
    assert |name| <= |p|;
  }

  /** The parent of a file in a directory spelled without trailing separators is that directory. */
  lemma ParentOfChild(dir: string, name: string)
    requires dir != [] && !HasTrailing(dir)
    requires IsComponent(name)
    ensures Parent(dir + "/" + name) == Some(dir)
  {
    SplitLast(dir + "/", name);
    var q := dir + "/";
    assert HasTrailing(q);
    assert q[..|q| - 1] == dir;
  }
}
