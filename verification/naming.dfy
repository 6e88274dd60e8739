/**
 * File names as Windows `os.path` (ntpath) handles them: `basename`, `splitext`, and the
 * name each input file's output gets in per-file mode.
 */
module Naming {
  import opened Wrappers
  import opened Strings

  /** Path separators: backslash and its alternative, slash. */
  predicate IsSep(c: char) {
    c == '\\' || c == '/'
  }

  predicate NoSep(s: string) {
    forall i :: 0 <= i < |s| ==> !IsSep(s[i])
  }

  /** `os.path.basename`: the text after the last separator. */
  function Basename(p: string): string {
    if p == [] || IsSep(p[|p| - 1]) then []
    else Basename(p[..|p| - 1]) + [p[|p| - 1]]
  }

  /** The base name is the end of the path after its last separator, and holds none. */
  lemma {:induction false} BasenameShape(p: string)
    ensures var r := Basename(p);
      && |r| <= |p| && r == p[|p| - |r|..] && NoSep(r)
      && (|r| < |p| ==> IsSep(p[|p| - |r| - 1]))
    decreases |p|
  {
    if p != [] && !IsSep(p[|p| - 1]) {
      var init, c := p[..|p| - 1], p[|p| - 1];
      BasenameShape(init);
      var b := Basename(init);
      var r := Basename(p);
      assert r == b + [c];
      assert p[|p| - |r|..] == init[|init| - |b|..] + [c];
      if |r| < |p| {
        assert p[|p| - |r| - 1] == init[|init| - |b| - 1];
      }
    }
  }

  /** The position of the last separator, -1 when there is none. */
  function LastSep(p: string): (k: int)
    ensures -1 <= k < |p|
  {
    if p == [] then -1
    else if IsSep(p[|p| - 1]) then |p| - 1
    else LastSep(p[..|p| - 1])
  }

  /** LastSep finds a separator, and none follows it. */
  lemma {:induction false} LastSepShape(p: string)
    ensures LastSep(p) >= 0 ==> IsSep(p[LastSep(p)])
    ensures forall i :: LastSep(p) < i < |p| ==> !IsSep(p[i])
    decreases |p|
  {
    if p != [] && !IsSep(p[|p| - 1]) {
      var init := p[..|p| - 1];
      LastSepShape(init);
      assert forall i :: 0 <= i < |init| ==> p[i] == init[i];
    }
  }

  /** The position of the last dot, -1 when there is none. */
  function LastDot(p: string): (k: int)
    ensures -1 <= k < |p|
  {
    match LastIndexOf(p, '.')
    case None => -1
    case Some(k) => k
  }

  /** Some character other than a dot lies in p[lo..hi]. */
  predicate HasNonDot(p: string, lo: int, hi: int)
    requires 0 <= lo <= hi <= |p|
  {
    exists i :: lo <= i < hi && p[i] != '.'
  }

  /**
   * `os.path.splitext`: the extension starts at the last dot when that dot is in the
   * last path component and is not one of that component's leading dots.
   */
  function SplitExt(p: string): (string, string) {
    var sep, dot := LastSep(p), LastDot(p);
    if dot > sep && HasNonDot(p, sep + 1, dot) then (p[..dot], p[dot..]) else (p, [])
  }

  /**
   * `splitext` splits the name into root and extension, and an extension is a dot
   * followed by text with no dot and no separator.
   */
  lemma SplitExtShape(p: string)
    ensures var r := SplitExt(p);
      && r.0 + r.1 == p
      && (r.1 == [] || (r.1[0] == '.' && '.' !in r.1[1..] && NoSep(r.1)))
  {
    var sep, dot := LastSep(p), LastDot(p);
    if dot > sep && HasNonDot(p, sep + 1, dot) {
      LastSepShape(p);
      assert p == p[..dot] + p[dot..];
      assert p[dot..][1..] == p[dot + 1..];
      assert forall i :: 0 <= i < |p| - dot ==> p[dot..][i] == p[dot + i];
    }
  }

  /** The extension used when the output name has none. */
  const DefaultExtension: string := ".xlsx"

  /** The stem of an input file: its base name without the extension. */
  function Stem(path: string): string {
    SplitExt(Basename(path)).0
  }

  /** The per-file output name: output stem, underscore, input stem, output extension or `.xlsx`. */
  function OutputFileName(outputName: string, inputPath: string): string {
    var (base, ext) := SplitExt(outputName);
    var extension := if ext == [] then DefaultExtension else ext;
    base + "_" + Stem(inputPath) + extension
  }

  /** A name whose last component has a non-dot before a final dot-extension splits there. */
  lemma SplitExtAt(root: string, ext: string, i: nat)
    requires |ext| > 0 && ext[0] == '.' && '.' !in ext[1..] && NoSep(ext)
    requires LastSep(root) < i < |root| && root[i] != '.'
    ensures SplitExt(root + ext) == (root, ext)
  {
    var p := root + ext;
    assert p[|root|] == '.';
    assert p[|root| + 1..] == ext[1..];
    LastIndexOfAt(p, '.', |root|);
    assert LastDot(p) == |root|;
    LastSepOfAppend(root, ext);
    assert p[i] != '.';
    assert HasNonDot(p, LastSep(p) + 1, LastDot(p));
    assert p[..|root|] == root && p[|root|..] == ext;
  }

  /** Appending text without separators leaves the last separator where it was. */
  lemma {:induction false} LastSepOfAppend(p: string, q: string)
    requires NoSep(q)
    ensures LastSep(p + q) == LastSep(p)
    decreases |q|
  {
    if q != [] {
      var init := q[..|q| - 1];
      LastSepOfAppend(p, init);
      assert (p + q)[..|p + q| - 1] == p + init;
    } else {
      assert p + q == p;
    }
  }

  /** The base name of a path ending in a separator and a name is that name. */
  lemma {:induction false} BasenameAfterSep(dir: string, sep: char, name: string)
    requires IsSep(sep) && NoSep(name)
    ensures Basename(dir + [sep] + name) == name
    decreases |name|
  {
    if name == [] {
      assert dir + [sep] + name == dir + [sep];
    } else {
      var init := name[..|name| - 1];
      BasenameAfterSep(dir, sep, init);
      assert (dir + [sep] + name)[..|dir + [sep] + name| - 1] == dir + [sep] + init;
    }
  }

  /** An input stem holds no separator. */
  lemma StemHasNoSep(path: string)
    ensures NoSep(Stem(path))
  {
    var b := Basename(path);
    BasenameShape(path);
    SplitExtShape(b);
    assert Stem(path) == b[..|Stem(path)|];
  }

  /**
   * The per-file output name splits back into its parts: the root is the output stem, an
   * underscore and the input stem; the extension is the output name's, or `.xlsx`.
   */
  lemma OutputFileNameParts(outputName: string, inputPath: string)
    ensures var ext := SplitExt(outputName).1;
      SplitExt(OutputFileName(outputName, inputPath)) ==
        (SplitExt(outputName).0 + "_" + Stem(inputPath), if ext == [] then DefaultExtension else ext)
  {
    var (base, ext) := SplitExt(outputName);
    var stem := Stem(inputPath);
    var extension := if ext == [] then DefaultExtension else ext;
    var root := base + "_" + stem;
    StemHasNoSep(inputPath);
    assert NoSep("_");
    LastSepOfAppend(base, "_");
    LastSepOfAppend(base + "_", stem);
    assert root == (base + "_") + stem;
    assert LastSep(root) < |base|;
    assert root[|base|] == '_';
    DefaultExtensionShape();
    SplitExtShape(outputName);
    assert |extension| > 0 && extension[0] == '.' && '.' !in extension[1..] && NoSep(extension);
    SplitExtAt(root, extension, |base|);
  }

  lemma DefaultExtensionShape()
    ensures |DefaultExtension| > 0 && DefaultExtension[0] == '.'
    ensures '.' !in DefaultExtension[1..] && NoSep(DefaultExtension)
  {
    assert DefaultExtension[1..] == "xlsx";
  }

  /** A path without separators is its own base name. */
  lemma {:induction false} BasenameOfName(p: string)
    requires NoSep(p)
    ensures Basename(p) == p && LastSep(p) == -1
    decreases |p|
  {
    if p != [] {
      BasenameOfName(p[..|p| - 1]);
      assert p == p[..|p| - 1] + [p[|p| - 1]];
    }
  }

  /** A name without a dot has no extension. */
  lemma DotlessSplitExt(p: string)
    requires '.' !in p
    ensures SplitExt(p) == (p, [])
  {
    assert LastIndexOf(p, '.') == None;
  }

  /** An output name without a dot takes the default extension: `out_stem.xlsx`. */
  lemma DotlessOutputName(outputName: string, inputPath: string)
    requires '.' !in outputName
    ensures OutputFileName(outputName, inputPath) == outputName + "_" + Stem(inputPath) + DefaultExtension
  {
    DotlessSplitExt(outputName);
  }

  /**
   * The stem of `dir/name.ext` is `name` when the name has some non-dot character, for
   * either separator.
   */
  lemma StemAfterSep(dir: string, sep: char, name: string, ext: string, i: nat)
    requires IsSep(sep) && NoSep(name) && i < |name| && name[i] != '.'
    requires |ext| > 0 && ext[0] == '.' && '.' !in ext[1..] && NoSep(ext)
    ensures Stem(dir + [sep] + name + ext) == name
  {
    assert NoSep(name + ext);
    BasenameAfterSep(dir, sep, name + ext);
    assert dir + [sep] + name + ext == dir + [sep] + (name + ext);
    BasenameOfName(name);
    SplitExtAt(name, ext, i);
  }

  /**
   * Leading dots do not start an extension: a name made of dots followed by dot-free text
   * (".xlsx", "..cfg") has none.
   */
  lemma LeadingDotsNoExtension(dots: string, rest: string)
    requires forall i :: 0 <= i < |dots| ==> dots[i] == '.'
    requires '.' !in rest && NoSep(rest)
    ensures SplitExt(dots + rest) == (dots + rest, [])
  {
    var p := dots + rest;
    assert NoSep(p) by {
      forall i | 0 <= i < |p| ensures !IsSep(p[i]) {
        if i >= |dots| {
          assert p[i] == rest[i - |dots|];
        }
      }
    }
    BasenameOfName(p);
    if dots == [] {
      assert p == rest;
      DotlessSplitExt(p);
    } else {
      assert p[|dots|..] == rest;
      LastIndexOfAt(p, '.', |dots| - 1);
      assert LastDot(p) == |dots| - 1;
      assert !HasNonDot(p, 0, |dots| - 1);
    }
  }

  /** Inputs with different stems get different output names, so neither overwrites the other. */
  lemma OutputNamesDistinct(outputName: string, p: string, q: string)
    requires Stem(p) != Stem(q)
    ensures OutputFileName(outputName, p) != OutputFileName(outputName, q)
  {
    OutputFileNameParts(outputName, p);
    OutputFileNameParts(outputName, q);
    var base := SplitExt(outputName).0 + "_";
    assert Stem(p) == (base + Stem(p))[|base|..];
    assert Stem(q) == (base + Stem(q))[|base|..];
  }
}
