/** The default output path of a transcode (`transcodeVideo`, before any
    media is opened): a new file name is derived from the input's file name,
    `<stem>_out<ext>` or `<name>_out.mp4` when it has no extension, and
    substituted for every occurrence of the file name in the input path.
    Paths use `/` as their only separator. */
module Paths {
  import opened Results
  import opened Text

  /** `p` without its trailing run of `/` characters. Of the normalization
      `java.io.File` applies, this is the part that can change what
      `getName` returns; collapsing repeated `/` inside the path, and
      keeping a lone `/` for an all-slash path, leave the name as it is. */
  function StripTrailingSlashes(p: string): (q: string)
    ensures q <= p
    ensures |q| == 0 || q[|q| - 1] != '/'
    ensures forall i :: |q| <= i < |p| ==> p[i] == '/'
  {
    if |p| > 0 && p[|p| - 1] == '/' then StripTrailingSlashes(p[..|p| - 1]) else p
  }

  /** `name` is the last name of the normalized path `q`: a slash-free
      suffix of `q` that is all of `q` or follows a `/`. */
  predicate IsLastName(q: string, name: string) {
    && '/' !in name
    && |name| <= |q|
    && q[|q| - |name|..] == name
    && (|name| < |q| ==> q[|q| - |name| - 1] == '/')
  }

  /** A path has exactly one last name. */
  lemma LastNameUnique(q: string, a: string, b: string)
    requires IsLastName(q, a) && IsLastName(q, b)
    ensures a == b
  {
  }

  /** `File.getName`: the last name in the path's name sequence, i.e. the
      text after the last `/` once trailing slashes are dropped. */
  function FileName(p: string): (name: string)
    ensures IsLastName(StripTrailingSlashes(p), name)
    ensures |name| == 0 <==> forall i :: 0 <= i < |p| ==> p[i] == '/'
  {
    var q := StripTrailingSlashes(p);
    match LastIndexOf(q, '/')
    case Some(k) => q[k + 1..]
    case None => q
  }

  /** The directory part of `p`: everything before its file name, once
      trailing slashes are dropped. Empty, or ends with `/`. */
  function DirPart(p: string): (d: string)
    ensures d + FileName(p) == StripTrailingSlashes(p)
    ensures |d| == 0 || d[|d| - 1] == '/'
  {
    var q := StripTrailingSlashes(p);
    q[..|q| - |FileName(p)|]
  }

  /** `k` is the index of the dot that starts `name`'s extension: the last
      dot, and not the first character (`.hidden` has no extension). */
  predicate IsExtensionDot(name: string, k: int) {
    0 < k < |name| && name[k] == '.' && forall j :: k < j < |name| ==> name[j] != '.'
  }

  /** The output file name: the stem, then `_out`, then the extension, which
      is `.mp4` when the input name has none. */
  function DerivedName(inName: string): (outName: string)
    ensures forall k :: IsExtensionDot(inName, k) ==> outName == inName[..k] + "_out" + inName[k..]
    ensures (forall k :: !IsExtensionDot(inName, k)) ==> outName == inName + "_out.mp4"
    ensures forall ch :: ch in outName ==> ch in inName || ch in "_out.mp4"
  {
    var dotIndex := match LastIndexOf(inName, '.') case Some(k) => k as int case None => -1;
    assert forall k :: IsExtensionDot(inName, k) ==> k == dotIndex;
    var extension := if dotIndex > 0 then inName[dotIndex..] else ".mp4";
    inName[..if dotIndex > 0 then dotIndex else |inName|] + "_out" + extension
  }

  /** An input name with an extension keeps it: the derived name has its
      extension dot four characters later, and the same extension. */
  lemma DerivedNameKeepsExtension(inName: string, k: int)
    requires IsExtensionDot(inName, k)
    ensures IsExtensionDot(DerivedName(inName), k + 4)
    ensures DerivedName(inName)[..k + 4] == inName[..k] + "_out"
    ensures DerivedName(inName)[k + 4..] == inName[k..]
  {
    var out := DerivedName(inName);
    assert out == inName[..k] + "_out" + inName[k..];
    assert out[k + 4..] == inName[k..];
  }

  /** An input name without an extension gets `.mp4`, after `_out`. */
  lemma DerivedNameAddsMp4(inName: string)
    requires forall k :: !IsExtensionDot(inName, k)
    ensures IsExtensionDot(DerivedName(inName), |inName| + 4)
    ensures DerivedName(inName)[..|inName| + 4] == inName + "_out"
    ensures DerivedName(inName)[|inName| + 4..] == ".mp4"
  {
    var out := DerivedName(inName);
    assert out == inName + "_out.mp4";
  }

  /** The derived name is at least four characters longer than the input
      name: `_out` is always added. */
  lemma DerivedNameLonger(inName: string)
    ensures |DerivedName(inName)| >= |inName| + 4
  {
    if k :| IsExtensionDot(inName, k) {
      assert DerivedName(inName) == inName[..k] + "_out" + inName[k..];
    } else {
      assert DerivedName(inName) == inName + "_out.mp4";
    }
  }

  /** The default output path, as written: every occurrence of the input's
      file name in the input path is replaced by the derived name. */
  function DefaultOutputPath(inputPath: string): (outputPath: string)
    ensures Contains(outputPath, DerivedName(FileName(inputPath)))
  {
    var inName := FileName(inputPath);
    var outName := DerivedName(inName);
    FileNameOccurs(inputPath);
    ReplaceInserts(inputPath, inName, outName);
    Replace(inputPath, inName, outName)
  }

  /** The file name is part of the path it comes from. */
  lemma FileNameOccurs(p: string)
    ensures Contains(p, FileName(p))
  {
    FileNameEndsPath(p);
  }

  /** The file name occurs in the path where the normalized path ends. */
  lemma FileNameEndsPath(p: string)
    ensures OccursAt(p, FileName(p), |StripTrailingSlashes(p)| - |FileName(p)|)
  {
    var q := StripTrailingSlashes(p);
    var name := FileName(p);
    assert p[|q| - |name|..|q|] == q[|q| - |name|..];
  }

  /** The output path `transcodeVideo` writes to: an explicit `-output`
      value as given, otherwise the default derived from the input path,
      which contains the derived name, and which renames only the file when
      its name occurs nowhere else in the path. */
  function ResolveOutputPath(inputPath: string, outputPath: Option<string>): (path: string)
    ensures outputPath.Some? ==> path == outputPath.value
    ensures outputPath.None? ==> Contains(path, DerivedName(FileName(inputPath)))
    ensures outputPath.None? && NameOnlyAtEnd(inputPath) ==>
              FileName(path) == DerivedName(FileName(inputPath)) && DirPart(path) == DirPart(inputPath)
  {
    if outputPath.None? then
      DefaultAgreesWithIntended(inputPath);
      DefaultOutputPath(inputPath)
    else
      outputPath.value
  }

  /** The output path choice with the corrected default: an explicit value
      is kept, and a missing one keeps the input's directory and puts the
      derived name after it. Wherever the file name occurs only at the end
      of the input path, this is the choice the code makes. */
  function ResolveIntendedOutputPath(inputPath: string, outputPath: Option<string>): (path: string)
    ensures outputPath.Some? ==> path == outputPath.value
    ensures outputPath.None? ==>
              FileName(path) == DerivedName(FileName(inputPath)) && DirPart(path) == DirPart(inputPath)
    ensures NameOnlyAtEnd(inputPath) ==> path == ResolveOutputPath(inputPath, outputPath)
  {
    match outputPath
    case Some(p) => p
    case None =>
      DefaultAgreesWithIntended(inputPath);
      IntendedOutputPath(inputPath)
  }

  /** The path does not end in `/`, has a non-empty file name, and that
      name occurs in it only as its last component. */
  predicate NameOnlyAtEnd(p: string) {
    && |p| > 0 && p[|p| - 1] != '/'
    && |FileName(p)| > 0
    && forall i: nat :: i < |DirPart(p)| ==> !OccursAt(p, FileName(p), i)
  }

  /** When the file name occurs in the input path only as its final
      component, the default output path keeps the directory and swaps in
      the derived name. */
  lemma DefaultOutputPathFinalOnly(inputPath: string)
    requires NameOnlyAtEnd(inputPath)
    ensures DefaultOutputPath(inputPath) == DirPart(inputPath) + DerivedName(FileName(inputPath))
  {
    var name := FileName(inputPath);
    assert StripTrailingSlashes(inputPath) == inputPath;
    ReplaceFinalOnly(inputPath, name, DerivedName(name));
  }

  /** A slash-free, non-empty name after an empty or `/`-terminated
      directory is the file name of the joined path. */
  lemma FileNameOfJoin(d: string, name: string)
    requires |d| == 0 || d[|d| - 1] == '/'
    requires |name| > 0 && '/' !in name
    ensures FileName(d + name) == name
    ensures DirPart(d + name) == d
  {
    var p := d + name;
    assert p[|p| - 1] == name[|name| - 1];
    assert StripTrailingSlashes(p) == p;
    assert p[|p| - |name|..] == name;
    assert IsLastName(p, name);
    LastNameUnique(p, FileName(p), name);
  }

  /** The evidently intended default output path: the directory part of the
      input path, then the derived name; nothing else in the path changes. */
  function IntendedOutputPath(inputPath: string): (outputPath: string)
    ensures FileName(outputPath) == DerivedName(FileName(inputPath))
    ensures DirPart(outputPath) == DirPart(inputPath)
  {
    var inName := FileName(inputPath);
    var outName := DerivedName(inName);
    var outputPath := DirPart(inputPath) + outName;
    DerivedNameLonger(inName);
    assert '/' !in "_out.mp4";
    FileNameOfJoin(DirPart(inputPath), outName);
    outputPath
  }

  /** Where the file name occurs only at the end of the input path, the
      path as written and the intended path agree. */
  lemma DefaultAgreesWithIntended(inputPath: string)
    ensures NameOnlyAtEnd(inputPath) ==> DefaultOutputPath(inputPath) == IntendedOutputPath(inputPath)
  {
    if NameOnlyAtEnd(inputPath) {
      DefaultOutputPathFinalOnly(inputPath);
    }
  }

  /** For the root path `/` the file name is empty, so the derived name is
      `_out.mp4`, and `replace` with an empty target puts it on both sides
      of the slash. */
  lemma DefaultOutputPathOfRoot()
    ensures FileName("/") == ""
    ensures DefaultOutputPath("/") == "_out.mp4/_out.mp4"
  {
    FileNameOfRoot();
    DerivedNameOfEmpty();
    ReplaceInRoot();
  }

  /** `/` is all slashes, so its file name is empty. */
  lemma FileNameOfRoot()
    ensures FileName("/") == ""
  {
    assert forall i :: 0 <= i < |"/"| ==> "/"[i] == '/';
  }

  /** The empty name has no extension, so it gets `_out.mp4`. */
  lemma DerivedNameOfEmpty()
    ensures DerivedName("") == "_out.mp4"
  {
    assert forall k :: !IsExtensionDot("", k);
  }

  /** The empty target matches on both sides of the one character. */
  lemma ReplaceInRoot()
    ensures Replace("/", "", "_out.mp4") == "_out.mp4/_out.mp4"
  {
    assert "/" == ['/'];
    ReplaceEmptyOne('/', "_out.mp4");
  }

  /** Where the file name also occurs inside the directory part, the path
      as written differs from the intended one: both occurrences are
      replaced, so it is longer. */
  lemma DefaultDiffersFromIntended(inputPath: string, i: nat)
    requires |FileName(inputPath)| > 0
    requires OccursAt(inputPath, FileName(inputPath), i)
    requires i + |FileName(inputPath)| <= |DirPart(inputPath)|
    ensures |DefaultOutputPath(inputPath)| > |IntendedOutputPath(inputPath)|
    ensures DefaultOutputPath(inputPath) != IntendedOutputPath(inputPath)
  {
    var n := FileName(inputPath);
    DefaultOutputPathGrowsTwice(inputPath, i);
    DerivedNameLonger(n);
    assert |DirPart(inputPath)| + |n| <= |inputPath|;
    assert |IntendedOutputPath(inputPath)| == |DirPart(inputPath)| + |DerivedName(n)|;
  }

  /** With the file name also inside the directory part, the path as
      written grows by the name's growth twice: once there, once at the end. */
  lemma DefaultOutputPathGrowsTwice(inputPath: string, i: nat)
    requires |FileName(inputPath)| > 0
    requires OccursAt(inputPath, FileName(inputPath), i)
    requires i + |FileName(inputPath)| <= |DirPart(inputPath)|
    ensures |DefaultOutputPath(inputPath)|
              >= |inputPath| + 2 * (|DerivedName(FileName(inputPath))| - |FileName(inputPath)|)
  {
    var n := FileName(inputPath);
    var e := |DirPart(inputPath)|;
    FileNameFacts(inputPath);
    DerivedNameLonger(n);
    ReplaceGrowsTwice(inputPath, n, DerivedName(n), i, e);
  }

  /** The file name ends the normalized path, right after the directory
      part. */
  lemma FileNameFacts(p: string)
    ensures |DirPart(p)| + |FileName(p)| <= |p|
    ensures OccursAt(p, FileName(p), |DirPart(p)|)
  {
    FileNameEndsPath(p);
    assert |DirPart(p)| + |FileName(p)| == |StripTrailingSlashes(p)|;
  }

  /** The path as written, shown wrong: a directory sharing the file's name
      is renamed too, so `a/a` becomes `a_out.mp4/a_out.mp4`. */
  lemma DefaultOutputPathRenamesDirectory()
    ensures DefaultOutputPath("a/a") == "a_out.mp4/a_out.mp4"
    ensures IntendedOutputPath("a/a") == "a/a_out.mp4"
  {
    FileNameOfAA();
    DerivedNameOfA();
    ReplaceInAA();
    IntendedOutputPathOfAA();
  }

  /** `a/a` has file name `a` in directory `a/`. */
  lemma FileNameOfAA()
    ensures FileName("a/a") == "a" && DirPart("a/a") == "a/"
  {
    assert "a/a" == "a/" + "a";
    FileNameOfJoin("a/", "a");
  }

  /** The intended output for `a/a` renames only the file. */
  lemma IntendedOutputPathOfAA()
    ensures IntendedOutputPath("a/a") == "a/a_out.mp4"
  {
    FileNameOfAA();
    DerivedNameOfA();
  }

  /** `a` has no extension, so it gets `_out.mp4`. */
  lemma DerivedNameOfA()
    ensures DerivedName("a") == "a_out.mp4"
  {
    assert forall k :: !IsExtensionDot("a", k);
  }

  /** Both occurrences of `a` in `a/a` are replaced. */
  lemma ReplaceInAA()
    ensures Replace("a/a", "a", "a_out.mp4") == "a_out.mp4/a_out.mp4"
  {
    var r := "a_out.mp4";
    ReplaceAtMatch("a", "a", r);
    assert "a"[1..] == "";
    assert "/a"[0] != "a"[0];
    ReplaceAtMiss("/a", "a", r);
    assert "/a"[1..] == "a";
    ReplaceAtMatch("a/a", "a", r);
    assert "a/a"[1..] == "/a";
  }
}
