/** The extraction script: which paths of a project survive the hidden-segment
    and exclusion filters, how each is made relative to the project root, and
    the single text document the survivors are rendered into. File contents
    are given as a map from path to the text a text-mode read returns; a path
    missing from the map is a file that cannot be opened. */
module ExtractRepoContent {
  import opened Seqs
  import opened PyStr

  /** The path separator, `os.sep` on a POSIX system. */
  const SEP: char := '/'

  /** Written after every file's contents. */
  const SEPARATOR_LINE: string := "\n-----------------\n"

  // ---------------------------------------------------------------------------
  // containsHiddenDir

  /** `any(x.startswith('.') for x in directory.split('/'))`: some segment of
      the path starts with a dot. */
  predicate ContainsHiddenDir(directory: string)
  {
    var segs := Split(directory, SEP);
    exists k :: 0 <= k < |segs| && StartsWithDot(segs[k])
  }

  /** `x.startswith('.')`. */
  predicate StartsWithDot(x: string)
  {
    |x| > 0 && x[0] == '.'
  }


  /** Character-level view: a dot at the start of the path or right after a `/`. */
  predicate DotOpensSegment(p: string, i: int)
  {
    0 <= i < |p| && p[i] == '.' && (i == 0 || p[i - 1] == SEP)
  }

  lemma HeadSegmentHidden(p: string)
    ensures StartsWithDot(Split(p, SEP)[0]) <==> DotOpensSegment(p, 0)
  {
  }

  /** Some segment after the first starts with a dot. */
  ghost predicate TailHidden(p: string)
  {
    var segs := Split(p, SEP);
    exists k :: 1 <= k < |segs| && StartsWithDot(segs[k])
  }

  /** A dot follows some slash. */
  ghost predicate DotAfterSlash(p: string)
  {
    exists i :: 1 <= i < |p| && DotOpensSegment(p, i)
  }

  /** A leading slash adds an empty first segment and moves the others down. */
  lemma TailHiddenAfterSlash(p: string)
    requires p != [] && p[0] == SEP
    requires TailHidden(p[1..]) <==> DotAfterSlash(p[1..])
    ensures TailHidden(p) <==> DotAfterSlash(p)
  {
    var s, q := Split(p, SEP), p[1..];
    var r := Split(q, SEP);
    assert s == [[]] + r;
    HeadSegmentHidden(q);
    if k :| 1 <= k < |s| && StartsWithDot(s[k]) {
      if k == 1 {
        assert DotOpensSegment(p, 1);
      } else {
        assert StartsWithDot(r[k - 1]);
        var i :| 1 <= i < |q| && DotOpensSegment(q, i);
        assert DotOpensSegment(p, i + 1);
      }
    }
    if i :| 1 <= i < |p| && DotOpensSegment(p, i) {
      if i == 1 {
        assert StartsWithDot(s[1]);
      } else {
        assert DotOpensSegment(q, i - 1);
        var k :| 1 <= k < |r| && StartsWithDot(r[k]);
        assert StartsWithDot(s[k + 1]);
      }
    }
  }

  /** Any other first character only lengthens the first segment. */
  lemma TailHiddenAfterOther(p: string)
    requires p != [] && p[0] != SEP
    requires TailHidden(p[1..]) <==> DotAfterSlash(p[1..])
    ensures TailHidden(p) <==> DotAfterSlash(p)
  {
    var s, q := Split(p, SEP), p[1..];
    var r := Split(q, SEP);
    assert s[1..] == r[1..];
    if k :| 1 <= k < |s| && StartsWithDot(s[k]) {
      assert StartsWithDot(r[k]);
      var i :| 1 <= i < |q| && DotOpensSegment(q, i);
      assert DotOpensSegment(p, i + 1);
    }
    if i :| 1 <= i < |p| && DotOpensSegment(p, i) {
      assert DotOpensSegment(q, i - 1);
      var k :| 1 <= k < |r| && StartsWithDot(r[k]);
      assert StartsWithDot(s[k]);
    }
  }

  lemma {:induction false} TailSegmentsHidden(p: string)
    ensures TailHidden(p) <==> DotAfterSlash(p)
    decreases |p|
  {
    if p != [] {
      TailSegmentsHidden(p[1..]);
      if p[0] == SEP {
        TailHiddenAfterSlash(p);
      } else {
        TailHiddenAfterOther(p);
      }
    }
  }

  /** A path is hidden exactly when a dot opens one of its segments; empty
      segments (the leading one of an absolute path, or the one after `//`)
      never do. */
  lemma ContainsHiddenDirIff(p: string)
    ensures ContainsHiddenDir(p) <==> exists i :: DotOpensSegment(p, i)
  {
    HeadSegmentHidden(p);
    TailSegmentsHidden(p);
    var s := Split(p, SEP);
    if ContainsHiddenDir(p) {
      var k :| 0 <= k < |s| && StartsWithDot(s[k]);
      if k == 0 {
        assert DotOpensSegment(p, 0);
      } else {
        var i :| 1 <= i < |p| && DotOpensSegment(p, i);
      }
    }
    if i :| DotOpensSegment(p, i) {
      if i == 0 {
        assert StartsWithDot(s[0]);
      } else {
        var k :| 1 <= k < |s| && StartsWithDot(s[k]);
      }
    }
  }

  // ---------------------------------------------------------------------------
  // filterFilesFromHiddenDir and filterExcludedFiles

  predicate NotHidden(p: string)
  {
    !ContainsHiddenDir(p)
  }

  /** `[x for x in filePaths if not containsHiddenDir(x)]`. */
  function FilterFilesFromHiddenDir(filePaths: seq<string>): (r: seq<string>)
    ensures forall p :: p in r <==> p in filePaths && !ContainsHiddenDir(p)
    ensures IsSubseq(r, filePaths)
  {
    KeepIsSubseq(filePaths, NotHidden);
    Keep(filePaths, NotHidden)
  }

  /** `path.split(os.sep)[-1]`: the longest suffix free of `/`, which starts
      at the beginning of the path or right after a `/`. */
  function BaseName(p: string): (b: string)
    ensures |b| <= |p| && p[|p| - |b|..] == b
    ensures SEP !in b
    ensures |b| == |p| || p[|p| - |b| - 1] == SEP
  {
    LastSegment(p, SEP);
    var segs := Split(p, SEP);
    segs[|segs| - 1]
  }

  /** The final segment that follows the last slash. */
  lemma BaseNameAfterSlash(p: string, i: int)
    requires 0 <= i < |p| && p[i] == SEP && SEP !in p[i + 1..]
    ensures BaseName(p) == p[i + 1..]
  {
    var b := BaseName(p);
    var k := |p| - |b|;
    assert forall j :: i + 1 <= j < |p| ==> p[j] != SEP by {
      forall j | i + 1 <= j < |p| ensures p[j] != SEP {
        assert p[j] == p[i + 1..][j - (i + 1)];
      }
    }
    assert forall j :: k <= j < |p| ==> p[j] != SEP by {
      forall j | k <= j < |p| ensures p[j] != SEP {
        assert p[j] == b[j - k];
      }
    }
    assert k == i + 1;
  }

  /** A path without a slash is its own final segment. */
  lemma BaseNameNoSlash(p: string)
    requires SEP !in p
    ensures BaseName(p) == p
  {
    assert forall j :: 0 <= j < |p| ==> p[j] != SEP;
  }

  /** The final segment is empty exactly for the empty path and for paths that
      end in a slash, so an empty entry in the exclusion list drops only those. */
  lemma EmptyBaseName(p: string)
    ensures BaseName(p) == [] <==> p == [] || p[|p| - 1] == SEP
  {
    var b := BaseName(p);
    if b != [] && p != [] {
      assert b[|b| - 1] == p[|p| - 1];
    }
  }

  /** `[x for x in filePaths if not x.split(os.sep)[-1] in excludedFiles]`. */
  function FilterExcludedFiles(filePaths: seq<string>, excludedFiles: seq<string>): (r: seq<string>)
    ensures forall p :: p in r <==> p in filePaths && BaseName(p) !in excludedFiles
    ensures IsSubseq(r, filePaths)
  {
    KeepIsSubseq(filePaths, p => BaseName(p) !in excludedFiles);
    Keep(filePaths, p => BaseName(p) !in excludedFiles)
  }

  /** Filtering hidden paths a second time removes nothing more. */
  lemma FilterHiddenIdempotent(filePaths: seq<string>)
    ensures FilterFilesFromHiddenDir(FilterFilesFromHiddenDir(filePaths)) == FilterFilesFromHiddenDir(filePaths)
  {
    KeepIdempotent(filePaths, NotHidden);
  }

  /** Filtering excluded names a second time removes nothing more. */
  lemma FilterExcludedIdempotent(filePaths: seq<string>, excludedFiles: seq<string>)
    ensures FilterExcludedFiles(FilterExcludedFiles(filePaths, excludedFiles), excludedFiles)
         == FilterExcludedFiles(filePaths, excludedFiles)
  {
    KeepIdempotent(filePaths, p => BaseName(p) !in excludedFiles);
  }

  /** The two filters can be applied in either order. */
  lemma FiltersCommute(filePaths: seq<string>, excludedFiles: seq<string>)
    ensures FilterExcludedFiles(FilterFilesFromHiddenDir(filePaths), excludedFiles)
         == FilterFilesFromHiddenDir(FilterExcludedFiles(filePaths, excludedFiles))
  {
    KeepCommute(filePaths, NotHidden, p => BaseName(p) !in excludedFiles);
  }

  /** A path survives both filters. */
  predicate Retained(p: string, excludedFiles: seq<string>)
  {
    !ContainsHiddenDir(p) && BaseName(p) !in excludedFiles
  }

  /** The two filters together are one filter by the conjunction. */
  lemma FiltersAsOne(filePaths: seq<string>, excludedFiles: seq<string>)
    ensures FilterExcludedFiles(FilterFilesFromHiddenDir(filePaths), excludedFiles)
         == Keep(filePaths, p => Retained(p, excludedFiles))
  {
    KeepKeep(filePaths, NotHidden, p => BaseName(p) !in excludedFiles, p => Retained(p, excludedFiles));
  }

  // ---------------------------------------------------------------------------
  // getProjectRelativePath

  /** `absolutePath.replace(projectRoot, "")`: every occurrence of the root is
      removed, not only a leading one. */
  function GetProjectRelativePath(absolutePath: string, projectRoot: string): (r: string)
    ensures |r| <= |absolutePath|
    ensures !Occurs(absolutePath, projectRoot) ==> r == absolutePath
    ensures projectRoot == [] ==> r == absolutePath
  {
    if !Occurs(absolutePath, projectRoot) then
      RemoveAllAbsent(absolutePath, projectRoot);
      RemoveAll(absolutePath, projectRoot)
    else
      RemoveAll(absolutePath, projectRoot)
  }

  /** A path made of a non-empty root and a remainder becomes exactly that
      remainder if and only if the root does not occur again in it; otherwise
      the later occurrences are removed too. */
  lemma RelativeToRoot(projectRoot: string, rest: string)
    requires projectRoot != []
    ensures GetProjectRelativePath(projectRoot + rest, projectRoot) == rest <==> !Occurs(rest, projectRoot)
  {
    RemoveAllLeading(projectRoot, rest);
    if Occurs(rest, projectRoot) {
      var i :| 0 <= i <= |rest| && OccursAt(rest, projectRoot, i);
      RemoveAllShrinks(rest, projectRoot, i);
    } else {
      RemoveAllAbsent(rest, projectRoot);
    }
  }

  // ---------------------------------------------------------------------------
  // writeContentToFile

  /** One file's block: its relative path, a blank line, its contents, the
      separator line. */
  function Block(rel: string, content: string): string
  {
    rel + "\n\n" + content + SEPARATOR_LINE
  }

  lemma PrefixOfAppend(x: string, y: string, n: nat)
    requires n <= |x|
    ensures (x + y)[..n] == x[..n]
  {
  }

  lemma SuffixOfAppend(x: string, y: string, n: nat)
    requires n <= |y|
    ensures (x + y)[|x + y| - n..] == y[|y| - n..]
  {
  }

  /** Each part of a block can be read back at a fixed offset. */
  lemma BlockParts(rel: string, content: string)
    ensures var b := Block(rel, content);
      |b| == |rel| + 2 + |content| + |SEPARATOR_LINE| &&
      b[..|rel|] == rel && b[|rel|..|rel| + 2] == "\n\n" &&
      b[|rel| + 2..|b| - |SEPARATOR_LINE|] == content &&
      b[|b| - |SEPARATOR_LINE|..] == SEPARATOR_LINE
  {
  }

  /** Every path can be opened. */
  predicate Readable(paths: seq<string>, files: map<string, string>)
  {
    forall p :: p in paths ==> p in files
  }

  /** The document for `paths`: their blocks one after another, in list order. */
  function Render(paths: seq<string>, files: map<string, string>, projectRoot: string): (doc: string)
    requires Readable(paths, files)
    ensures |doc| >= |paths| * (2 + |SEPARATOR_LINE|)
  {
    if paths == [] then []
    else
      Block(GetProjectRelativePath(paths[0], projectRoot), files[paths[0]])
        + Render(paths[1..], files, projectRoot)
  }

  /** A non-empty document starts with the first file's relative path. */
  lemma RenderStarts(paths: seq<string>, files: map<string, string>, projectRoot: string)
    requires Readable(paths, files) && paths != []
    ensures GetProjectRelativePath(paths[0], projectRoot) <= Render(paths, files, projectRoot)
  {
    var rel, content := GetProjectRelativePath(paths[0], projectRoot), files[paths[0]];
    var first, rest := Block(rel, content), Render(paths[1..], files, projectRoot);
    assert Render(paths, files, projectRoot) == first + rest;
    BlockParts(rel, content);
    PrefixOfAppend(first, rest, |rel|);
  }

  /** A non-empty document ends with the separator line. */
  lemma {:induction false} RenderEnds(paths: seq<string>, files: map<string, string>, projectRoot: string)
    requires Readable(paths, files) && paths != []
    ensures var doc := Render(paths, files, projectRoot);
      |doc| >= |SEPARATOR_LINE| && doc[|doc| - |SEPARATOR_LINE|..] == SEPARATOR_LINE
  {
    var rel, content := GetProjectRelativePath(paths[0], projectRoot), files[paths[0]];
    var first, rest := Block(rel, content), Render(paths[1..], files, projectRoot);
    if rest == [] {
      assert first + rest == first;
      SuffixOfAppend(rel + "\n\n" + content, SEPARATOR_LINE, |SEPARATOR_LINE|);
    } else {
      RenderEnds(paths[1..], files, projectRoot);
      SuffixOfAppend(first, rest, |SEPARATOR_LINE|);
    }
  }

  /** The document of two lists one after the other is the two documents joined. */
  lemma {:induction false} RenderAppend(a: seq<string>, b: seq<string>, files: map<string, string>, projectRoot: string)
    requires Readable(a, files) && Readable(b, files)
    ensures Readable(a + b, files)
    ensures Render(a + b, files, projectRoot) == Render(a, files, projectRoot) + Render(b, files, projectRoot)
  {
    if a == [] {
      assert a + b == b;
    } else {
      assert (a + b)[0] == a[0];
      assert (a + b)[1..] == a[1..] + b;
      RenderAppend(a[1..], b, files, projectRoot);
    }
  }

  /** The i-th file's block, with its contents verbatim, sits between the
      blocks of the files before it and those after it. */
  lemma RenderBlockAt(paths: seq<string>, files: map<string, string>, projectRoot: string, i: int)
    requires Readable(paths, files) && 0 <= i < |paths|
    ensures Render(paths, files, projectRoot)
         == Render(paths[..i], files, projectRoot)
          + Block(GetProjectRelativePath(paths[i], projectRoot), files[paths[i]])
          + Render(paths[i + 1..], files, projectRoot)
  {
    var front, back := paths[..i], paths[i + 1..];
    assert paths == front + ([paths[i]] + back);
    RenderAppend([paths[i]], back, files, projectRoot);
    RenderAppend(front, [paths[i]] + back, files, projectRoot);
    assert ([paths[i]] + back)[1..] == back;
  }

  /** `for line in inFile: outFile.write(line)`: appends the file's lines one
      at a time, which appends its contents unchanged. */
  method CopyLines(out: string, inFile: string) returns (written: string)
    ensures written == out + inFile
  {
    written := out;
    var lines := Lines(inFile);
    var j := 0;
    while j < |lines|
      invariant 0 <= j <= |lines|
      invariant written == out + Concat(lines[..j])
    {
      ConcatAppend(lines[..j], [lines[j]]);
      assert lines[..j + 1] == lines[..j] + [lines[j]];
      assert Concat([lines[j]]) == lines[j];
      written := written + lines[j];
      j := j + 1;
    }
    assert lines[..j] == lines;
    LinesConcat(inFile);
  }

  /** The writer stopped at `paths[n]`, the first file that cannot be opened,
      after writing the blocks of the files before it. */
  ghost predicate AbortedAt(paths: seq<string>, files: map<string, string>, projectRoot: string, out: string, n: int)
  {
    0 <= n < |paths| && paths[n] !in files && Readable(paths[..n], files)
    && out == Render(paths[..n], files, projectRoot)
  }

  /** Opens the output (truncating it), and for each path writes the relative
      path and a blank line, copies the file line by line, and writes the
      separator line. `out` is what the output holds afterwards; `ok` is false
      when a file could not be opened, which ends the run. */
  method WriteContentToFile(filePaths: seq<string>, files: map<string, string>, projectRoot: string)
    returns (out: string, ok: bool)
    ensures ok <==> Readable(filePaths, files)
    ensures ok ==> out == Render(filePaths, files, projectRoot)
    ensures !ok ==> exists n :: AbortedAt(filePaths, files, projectRoot, out, n)
  {
    out := [];
    ok := true;
    var i := 0;
    while i < |filePaths|
      invariant 0 <= i <= |filePaths|
      invariant Readable(filePaths[..i], files)
      invariant out == Render(filePaths[..i], files, projectRoot)
    {
      var path := filePaths[i];
      var relativePath := GetProjectRelativePath(path, projectRoot);
      if path !in files {
        ok := false;
        assert AbortedAt(filePaths, files, projectRoot, out, i);
        return;
      }
      var inFile := files[path];
      ghost var before := out;
      out := out + relativePath + "\n\n";
      out := CopyLines(out, inFile);
      out := out + SEPARATOR_LINE;
      assert out == before + Block(relativePath, inFile);
      assert filePaths[..i + 1] == filePaths[..i] + [path];
      RenderAppend(filePaths[..i], [path], files, projectRoot);
      i := i + 1;
    }
    assert filePaths[..i] == filePaths;
  }

  // ---------------------------------------------------------------------------
  // The entry point

  /** `sorted(filterExcludedFiles(filterFilesFromHiddenDir(allFiles), excluded))`:
      the retained paths, each as often as enumerated, in ascending order. */
  function FilteredFiles(allFiles: seq<string>, excludedFiles: seq<string>): (r: seq<string>)
    ensures IsSorted(r)
    ensures multiset(r) == multiset(Keep(allFiles, p => Retained(p, excludedFiles)))
    ensures forall p :: p in r <==> p in allFiles && Retained(p, excludedFiles)
  {
    var filtered := FilterExcludedFiles(FilterFilesFromHiddenDir(allFiles), excludedFiles);
    FiltersAsOne(allFiles, excludedFiles);
    var r := Sort(filtered);
    assert forall p :: p in r <==> p in multiset(filtered);
    r
  }

  /** The script's run with its configuration as parameters: `allFiles` is what
      enumerating `rootDir` returned, `files` the contents of the files. */
  method Run(allFiles: seq<string>, files: map<string, string>, rootDir: string, excludedFiles: seq<string>)
    returns (out: string, ok: bool)
    ensures ok <==> Readable(FilteredFiles(allFiles, excludedFiles), files)
    ensures ok ==> out == Render(FilteredFiles(allFiles, excludedFiles), files, rootDir)
    ensures !ok ==> exists n :: AbortedAt(FilteredFiles(allFiles, excludedFiles), files, rootDir, out, n)
  {
    var filteredFiles := FilteredFiles(allFiles, excludedFiles);
    out, ok := WriteContentToFile(filteredFiles, files, rootDir);
  }
}
