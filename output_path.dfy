/** File names: the final component of a path, its suffix, and the name of the
    clipped output derived from the input's name. */
module OutputPaths {
  import opened Text

  /** `str.rfind(c)`: the last position of `c` in `s`, or -1. */
  function LastIndexOf(s: string, c: char): (r: int)
    ensures -1 <= r < |s|
    ensures r >= 0 ==> s[r] == c && c !in s[r + 1..]
    ensures r == -1 ==> c !in s
    ensures forall j :: 0 <= j < |s| && s[j] == c ==> j <= r
    decreases |s|
  {
    if s == [] then -1
    else if s[|s| - 1] == c then |s| - 1
    else
      var r := LastIndexOf(s[..|s| - 1], c);
      assert s == s[..|s| - 1] + [s[|s| - 1]];
      assert r >= 0 ==> s[r + 1..] == s[..|s| - 1][r + 1..] + [s[|s| - 1]];
      r
  }

  /** `Path(path).name` for a normalised path: what follows the last `/`. */
  function BaseName(path: string): (name: string)
    ensures '/' !in name
    ensures |name| <= |path| && path[|path| - |name|..] == name
    ensures |name| < |path| ==> path[|path| - |name| - 1] == '/'
  {
    path[LastIndexOf(path, '/') + 1..]
  }

  /** `PurePath.suffix`: from the last dot to the end, provided that dot is neither
      the first nor the last character; otherwise empty. */
  function Suffix(name: string): (sfx: string)
    ensures sfx == [] || (2 <= |sfx| < |name| && sfx[0] == '.' && '.' !in sfx[1..])
    ensures name[|name| - |sfx|..] == sfx
  {
    var i := LastIndexOf(name, '.');
    if 0 < i < |name| - 1 then
      assert name[i..][1..] == name[i + 1..];
      name[i..]
    else ""
  }

  /** A name has a suffix exactly when its last dot is neither its first nor its last
      character; with the contract of `Suffix`, the suffix is then the text from that dot on. */
  lemma SuffixPresence(name: string)
    ensures Suffix(name) != [] <==> exists i :: 0 < i < |name| - 1 && name[i] == '.' && '.' !in name[i + 1..]
  {
    var i := LastIndexOf(name, '.');
    if 0 < i < |name| - 1 {
      assert name[i] == '.' && '.' !in name[i + 1..];
    } else {
      assert forall j :: 0 < j < i && name[j] == '.' ==> name[j + 1..][i - j - 1] == '.';
    }
  }

  /** Lower-casing followed by spaces turned into underscores. */
  function Normalize(s: string): string {
    Replace(Lower(s), " ", "_")
  }

  /** The file-name expression of `get_output_path`: the name lower-cased, spaces
      replaced by underscores, and then every occurrence of the suffix, as spelled
      in the original name, replaced by `_clip` and the suffix. */
  function OutputFileName(name: string): string {
    var extension := Suffix(name);
    Replace(Replace(Lower(name), " ", "_"), extension, "_clip" + extension)
  }

  /** `get_output_path`: the file name under the LAST component of the output
      directory only (`outputDir` holds the directory's components as pathlib
      splits them, without the root). The result is anchored at the filesystem
      root when the directory has no name, as `.` has none. */
  function OutputPath(inputPath: string, outputDir: seq<string>): string {
    var dirName := if outputDir == [] then "" else outputDir[|outputDir| - 1];
    dirName + "/" + OutputFileName(BaseName(inputPath))
  }

  lemma LowerAppend(a: string, b: string)
    ensures Lower(a + b) == Lower(a) + Lower(b)
  {
  }

  /** A character missing from the string and from the replacement stays missing. */
  lemma {:induction false} ReplaceAvoids(s: string, pat: string, rep: string, x: char)
    requires x !in s && x !in rep
    ensures x !in Replace(s, pat, rep)
    decreases |s|
  {
    if pat == [] {
      if s != [] {
        ReplaceAvoids(s[1..], pat, rep, x);
      }
    } else if |s| >= |pat| {
      if s[..|pat|] == pat {
        ReplaceAvoids(s[|pat|..], pat, rep, x);
      } else {
        ReplaceAvoids(s[1..], pat, rep, x);
      }
    }
  }

  /** Normalising leaves no upper-case ASCII letter, and introduces no character other
      than an underscore or a lower-case ASCII letter. */
  lemma NormalizeAvoids(s: string, x: char)
    requires x != '_'
    requires (x !in s && !('a' <= x <= 'z')) || 'A' <= x <= 'Z'
    ensures x !in Normalize(s)
  {
    forall i | 0 <= i < |s|
      ensures Lower(s)[i] != x
    {
      if 'A' <= s[i] <= 'Z' {
        assert 'a' <= Lower(s)[i] <= 'z';
      }
    }
    ReplaceAvoids(Lower(s), " ", "_", x);
  }

  /** Replacing one character by one character keeps the length. */
  lemma {:induction false} ReplaceCharLength(s: string, pat: string, rep: string)
    requires |pat| == 1 && |rep| == 1
    ensures |Replace(s, pat, rep)| == |s|
    decreases |s|
  {
    if s != [] {
      ReplaceCharLength(s[1..], pat, rep);
      assert s[|pat|..] == s[1..];
    }
  }

  /** The suffix of a name made of a dot-free stem and a dot-led suffix with no other dot. */
  lemma SuffixOfSingleDot(stem: string, sfx: string)
    requires stem != [] && '.' !in stem
    requires |sfx| >= 2 && sfx[0] == '.' && '.' !in sfx[1..]
    ensures Suffix(stem + sfx) == sfx
  {
    var name := stem + sfx;
    var i := LastIndexOf(name, '.');
    assert name[|stem|] == '.';
    assert i == |stem|;
    assert name[i..] == sfx;
  }

  /** A lower-case, space-free suffix survives normalisation unchanged. */
  lemma NormalizeKeepsSuffix(stem: string, sfx: string)
    requires ' ' !in sfx && Lower(sfx) == sfx
    ensures Normalize(stem + sfx) == Normalize(stem) + sfx
  {
    LowerAppend(stem, sfx);
    ReplaceCharAppend(Lower(stem), sfx, " ", "_");
    ReplaceAbsent(sfx, " ", "_", ' ');
  }

  /** A pattern starting with a dot cannot match inside a dot-free prefix. */
  lemma NoMatchBeforeDot(n: string, sfx: string)
    requires '.' !in n && sfx != [] && sfx[0] == '.'
    ensures forall p :: 0 <= p < |n| ==> !MatchAt(n + sfx, sfx, p)
  {
  }

  /** A dot-led suffix after a dot-free text is replaced exactly once, at the end. */
  lemma ReplaceTrailingSuffix(n: string, sfx: string, rep: string)
    requires '.' !in n && sfx != [] && sfx[0] == '.'
    ensures Replace(n + sfx, sfx, rep) == n + rep
  {
    NoMatchBeforeDot(n, sfx);
    ReplaceAfterPlain(n, sfx, sfx, rep);
    ReplaceWhole(sfx, rep);
  }

  /** For a name with one dot (neither first nor last), a lower-case, space-free suffix,
      the output name is the normalised stem, `_clip`, and the suffix. */
  lemma OutputFileNameSingleDot(name: string, stem: string, sfx: string)
    requires name == stem + sfx && stem != [] && '.' !in stem
    requires |sfx| >= 2 && sfx[0] == '.' && '.' !in sfx[1..] && ' ' !in sfx && Lower(sfx) == sfx
    ensures Suffix(name) == sfx
    ensures OutputFileName(name) == Normalize(stem) + "_clip" + sfx
  {
    SuffixOfSingleDot(stem, sfx);
    NormalizeKeepsSuffix(stem, sfx);
    var n := Normalize(stem);
    var rep := "_clip" + sfx;
    assert OutputFileName(name) == Replace(n + sfx, sfx, rep);
    NormalizeAvoids(stem, '.');
    ReplaceTrailingSuffix(n, sfx, rep);
    assert n + rep == Normalize(stem) + "_clip" + sfx;
  }

  /** A suffix spelled with an upper-case letter never matches the lower-cased name,
      so such a name gets no `_clip` at all. */
  lemma OutputFileNameMixedCaseSuffix(name: string, x: char)
    requires x in Suffix(name) && 'A' <= x <= 'Z'
    ensures OutputFileName(name) == Normalize(name)
  {
    NormalizeAvoids(name, x);
    ReplaceAbsent(Normalize(name), Suffix(name), "_clip" + Suffix(name), x);
  }

  /** Replacing the empty pattern puts the replacement before every character and at the end. */
  lemma {:induction false} ReplaceEmpty(s: string, rep: string)
    ensures |Replace(s, "", rep)| == |s| + |rep| * (|s| + 1)
    ensures Replace(s, "", rep) == Interleaved(s, rep)
    decreases |s|
  {
    var blocks := seq(|s|, i requires 0 <= i < |s| => rep + [s[i]]);
    if s == [] {
      assert blocks == [];
    } else {
      var rest := seq(|s| - 1, i requires 0 <= i < |s| - 1 => rep + [s[1..][i]]);
      ReplaceEmpty(s[1..], rep);
      assert blocks[1..] == rest;
      assert Concat(blocks) == (rep + [s[0]]) + Concat(rest);
      assert Replace(s, "", rep) == (rep + [s[0]]) + (Concat(rest) + rep);
    }
  }

  /** A name without a suffix gets `_clip` inserted before every character of its
      normalised form and at the end. */
  lemma OutputFileNameNoSuffix(name: string)
    requires Suffix(name) == ""
    ensures |OutputFileName(name)| == |name| + 5 * (|name| + 1)
    ensures OutputFileName(name) == Interleaved(Normalize(name), "_clip")
  {
    assert "_clip" + Suffix(name) == "_clip";
    assert OutputFileName(name) == Replace(Normalize(name), "", "_clip");
    ReplaceCharLength(Lower(name), " ", "_");
    ReplaceEmpty(Normalize(name), "_clip");
  }

  /** A name of lower-case letters alone, such as `movie`, has no suffix and comes out
      with `_clip` before each letter and at the end (`_clipm_clipo_clipv_clipi_clipe_clip`). */
  lemma OutputFileNameOfLetters(name: string)
    requires forall i :: 0 <= i < |name| ==> 'a' <= name[i] <= 'z'
    ensures OutputFileName(name) == Interleaved(name, "_clip")
  {
    assert '.' !in name;
    assert Lower(name) == name;
    ReplaceAbsent(name, " ", "_", ' ');
    OutputFileNameNoSuffix(name);
  }

  /** The output name of a name without `/` has no `/` either. */
  lemma OutputFileNameAvoidsSlash(name: string)
    requires '/' !in name
    ensures '/' !in OutputFileName(name)
  {
    var sfx := Suffix(name);
    NormalizeAvoids(name, '/');
    assert '/' !in sfx by {
      assert name[|name| - |sfx|..] == sfx;
    }
    var rep := "_clip" + sfx;
    assert forall k :: 0 <= k < |rep| ==> rep[k] == (if k < 5 then "_clip"[k] else sfx[k - 5]);
    ReplaceAvoids(Normalize(name), sfx, rep, '/');
  }

  /** Only the last directory component survives, and a directory without a name puts the
      file at the root. */
  lemma OutputPathUsesLastComponent(inputPath: string, outputDir: seq<string>)
    requires forall i :: 0 <= i < |outputDir| ==> '/' !in outputDir[i]
    ensures Split(OutputPath(inputPath, outputDir), '/')
      == [if outputDir == [] then "" else outputDir[|outputDir| - 1], OutputFileName(BaseName(inputPath))]
  {
    var file := OutputFileName(BaseName(inputPath));
    var dirName := if outputDir == [] then "" else outputDir[|outputDir| - 1];
    OutputFileNameAvoidsSlash(BaseName(inputPath));
    SplitAfterPiece(dirName, file, '/');
    assert OutputPath(inputPath, outputDir) == dirName + ['/'] + file;
  }

  /** The name the output was evidently meant to have: the normalised stem, `_clip`, and
      the normalised suffix, for any suffix (empty or mixed-case included). */
  function ClipFileName(name: string): (r: string)
    ensures var sfx := Suffix(name);
      |r| == |name| + 5 && r[|r| - |sfx| - 5..] == "_clip" + Normalize(sfx)
  {
    var sfx := Suffix(name);
    var stem := name[..|name| - |sfx|];
    ReplaceCharLength(Lower(stem), " ", "_");
    ReplaceCharLength(Lower(sfx), " ", "_");
    Normalize(stem) + "_clip" + Normalize(sfx)
  }

  /** Where the dot-separated names agree with what was meant, the source's expression and
      the intended one give the same name. */
  lemma ClipFileNameAgrees(name: string, stem: string, sfx: string)
    requires name == stem + sfx && stem != [] && '.' !in stem
    requires |sfx| >= 2 && sfx[0] == '.' && '.' !in sfx[1..] && ' ' !in sfx && Lower(sfx) == sfx
    ensures ClipFileName(name) == OutputFileName(name)
  {
    OutputFileNameSingleDot(name, stem, sfx);
    assert name[..|name| - |sfx|] == stem;
    NormalizeKeepsSuffix([], sfx);
    assert Normalize(sfx) == sfx by {
      assert [] + sfx == sfx;
    }
  }

  /** The output path evidently meant: the clip file name inside the whole output directory,
      which starts at the root `/` when `rooted` is set (an absolute directory such as
      `/data/out`) and is relative otherwise. */
  function IntendedOutputPath(inputPath: string, rooted: bool, outputDir: seq<string>): string {
    Join((if rooted then [""] else []) + outputDir + [ClipFileName(BaseName(inputPath))], '/')
  }

  /** The intended name of a name without `/` has no `/` either. */
  lemma ClipFileNameAvoidsSlash(name: string)
    requires '/' !in name
    ensures '/' !in ClipFileName(name)
  {
    var sfx := Suffix(name);
    var stem := name[..|name| - |sfx|];
    assert '/' !in stem && '/' !in sfx;
    NormalizeAvoids(stem, '/');
    NormalizeAvoids(sfx, '/');
  }

  /** Split on `/`, the intended path lists every directory component and then the file. */
  /** A file name under directory components, rooted or not, splits back into its pieces. */
  lemma DirectoryPathSplits(root: seq<string>, outputDir: seq<string>, file: string)
    requires root == [] || root == [""]
    requires forall i :: 0 <= i < |outputDir| ==> '/' !in outputDir[i]
    requires '/' !in file
    ensures Split(Join(root + outputDir + [file], '/'), '/') == root + outputDir + [file]
    ensures root == [""] ==> Join(root + outputDir + [file], '/')[0] == '/'
  {
    var parts := root + outputDir + [file];
    forall i | 0 <= i < |parts|
      ensures '/' !in parts[i]
    {
      if i < |root| {
        assert parts[i] == "";
      } else if i < |root| + |outputDir| {
        assert parts[i] == outputDir[i - |root|];
      }
    }
    SplitJoin(parts, '/');
    if root == [""] {
      assert parts[0] == "" && |parts| >= 2;
      assert Join(parts, '/') == "" + ['/'] + Join(parts[1..], '/');
    }
  }

  lemma IntendedOutputPathKeepsDirectory(inputPath: string, rooted: bool, outputDir: seq<string>)
    requires forall i :: 0 <= i < |outputDir| ==> '/' !in outputDir[i]
    ensures Split(IntendedOutputPath(inputPath, rooted, outputDir), '/')
      == (if rooted then [""] else []) + outputDir + [ClipFileName(BaseName(inputPath))]
    ensures rooted ==> IntendedOutputPath(inputPath, rooted, outputDir)[0] == '/'
  {
    ClipFileNameAvoidsSlash(BaseName(inputPath));
    DirectoryPathSplits(if rooted then [""] else [], outputDir, ClipFileName(BaseName(inputPath)));
  }
}
