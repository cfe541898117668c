/** Concrete scenarios of the extraction pipeline: lemmas over small, fixed directory listings. */
module Scenarios {
  import opened Seqs
  import opened PyStr
  import opened ExtractRepoContent

  lemma HiddenFilterOfFour(w: string, x: string, y: string, z: string)
    requires NotHidden(w) && !NotHidden(x) && NotHidden(y) && NotHidden(z)
    ensures FilterFilesFromHiddenDir([w, x, y, z]) == [w, y, z]
  {
    var ps := [w, x, y, z];
    assert ps[1..] == [x, y, z] && ps[1..][1..] == [y, z];
    assert [y, z][1..] == [z] && [z][1..] == [];
    assert Keep([z], NotHidden) == [z];
    assert Keep([y, z], NotHidden) == [y, z];
    assert Keep([x, y, z], NotHidden) == [y, z];
    assert Keep(ps, NotHidden) == [w, y, z];
  }

  lemma ExcludedFilterOfThree(x: string, y: string, z: string, es: seq<string>)
    requires BaseName(x) !in es && BaseName(y) in es && BaseName(z) !in es
    ensures FilterExcludedFiles([x, y, z], es) == [x, z]
  {
    var f := p => BaseName(p) !in es;
    var ps := [x, y, z];
    assert ps[1..] == [y, z] && [y, z][1..] == [z] && [z][1..] == [];
    assert Keep([z], f) == [z];
    assert Keep([y, z], f) == [z];
    assert Keep(ps, f) == [x, z];
  }

  lemma ExcludedFilterOfTwo(x: string, y: string, es: seq<string>)
    requires BaseName(x) !in es && BaseName(y) in es
    ensures FilterExcludedFiles([x, y], es) == [x]
  {
    var f := p => BaseName(p) !in es;
    var ps := [x, y];
    assert ps[1..] == [y] && [y][1..] == [];
    assert Keep([y], f) == [];
    assert Keep(ps, f) == [x];
  }

  /** An exclusion entry only ever matches a final segment: `.github` keeps the
      file below a `.github` directory, and `''` drops the path ending in `/`. */
  lemma ExclusionMatchesFinalSegmentOnly()
    ensures FilterExcludedFiles(["/r/.github/ci.yml", "/r/docs/"], [".github", ""])
         == ["/r/.github/ci.yml"]
  {
    BaseNameCi();
    BaseNameDocs();
    ExcludedFilterOfTwo("/r/.github/ci.yml", "/r/docs/", [".github", ""]);
  }

  lemma BaseNameCi() ensures BaseName("/r/.github/ci.yml") == "ci.yml"
  {
    BaseNameAfterSlash("/r/.github/ci.yml", 10);
  }

  lemma BaseNameDocs() ensures BaseName("/r/docs/") == ""
  {
    EmptyBaseName("/r/docs/");
  }

  /** A path joined from segments none of which starts with a dot is not hidden. */
  lemma NotHiddenJoin(segs: seq<string>)
    requires |segs| >= 1
    requires forall k :: 0 <= k < |segs| ==> SEP !in segs[k] && !StartsWithDot(segs[k])
    ensures !ContainsHiddenDir(Join(segs, SEP))
  {
    SplitJoin(segs, SEP);
  }

  lemma NotHiddenA() ensures !ContainsHiddenDir("/r/a.py")
  {
    var segs := ["", "r", "a.py"];
    NotHiddenJoin(segs);
    assert Join(segs, SEP) == "/r/a.py";
  }

  lemma HiddenGit() ensures ContainsHiddenDir("/r/.git/ignored.py")
  {
    SplitJoin(["", "r", ".git", "ignored.py"], SEP);
    assert StartsWithDot(Split("/r/.git/ignored.py", SEP)[2]);
  }

  lemma NotHiddenB() ensures !ContainsHiddenDir("/r/sub/b.py")
  {
    var segs := ["", "r", "sub", "b.py"];
    NotHiddenJoin(segs);
    assert Join(segs, SEP) == "/r/sub/b.py";
  }

  lemma NotHiddenReadme() ensures !ContainsHiddenDir("/r/README.md")
  {
    var segs := ["", "r", "README.md"];
    NotHiddenJoin(segs);
    assert Join(segs, SEP) == "/r/README.md";
  }

  lemma RelativePaths()
    ensures GetProjectRelativePath("/r/a.py", "/r") == "/a.py"
    ensures GetProjectRelativePath("/r/sub/b.py", "/r") == "/sub/b.py"
  {
    var s := "/a.py";
    assert 'r' !in s;
    forall i | 0 <= i <= |s| ensures !OccursAt(s, "/r", i) {
      if i + 2 <= |s| { assert s[i..i + 2][1] == s[i + 1]; }
    }
    RelativeToRoot("/r", s);
    assert "/r" + s == "/r/a.py";
    var t := "/sub/b.py";
    assert 'r' !in t;
    forall i | 0 <= i <= |t| ensures !OccursAt(t, "/r", i) {
      if i + 2 <= |t| { assert t[i..i + 2][1] == t[i + 1]; }
    }
    RelativeToRoot("/r", t);
    assert "/r" + t == "/r/sub/b.py";
  }

  lemma BaseNameB() ensures BaseName("/r/sub/b.py") == "b.py"
  {
    BaseNameAfterSlash("/r/sub/b.py", 6);
  }

  lemma BaseNameReadme() ensures BaseName("/r/README.md") == "README.md"
  {
    BaseNameAfterSlash("/r/README.md", 2);
  }

  lemma BaseNameA() ensures BaseName("/r/a.py") == "a.py"
  {
    BaseNameAfterSlash("/r/a.py", 2);
  }

  lemma ScenarioHidden()
    ensures FilterFilesFromHiddenDir(["/r/sub/b.py", "/r/.git/ignored.py", "/r/README.md", "/r/a.py"])
         == ["/r/sub/b.py", "/r/README.md", "/r/a.py"]
  {
    NotHiddenA();
    HiddenGit();
    NotHiddenB();
    NotHiddenReadme();
    HiddenFilterOfFour("/r/sub/b.py", "/r/.git/ignored.py", "/r/README.md", "/r/a.py");
  }

  lemma ScenarioExcluded()
    ensures FilterExcludedFiles(["/r/sub/b.py", "/r/README.md", "/r/a.py"], ["README.md"])
         == ["/r/sub/b.py", "/r/a.py"]
  {
    BaseNameB();
    BaseNameReadme();
    BaseNameA();
    ExcludedFilterOfThree("/r/sub/b.py", "/r/README.md", "/r/a.py", ["README.md"]);
  }

  lemma ScenarioSorted()
    ensures Sort(["/r/sub/b.py", "/r/a.py"]) == ["/r/a.py", "/r/sub/b.py"]
  {
  }

  lemma ScenarioFiltered()
    ensures FilteredFiles(["/r/sub/b.py", "/r/.git/ignored.py", "/r/README.md", "/r/a.py"], ["README.md"])
         == ["/r/a.py", "/r/sub/b.py"]
  {
    ScenarioHidden();
    ScenarioExcluded();
    ScenarioSorted();
  }

  lemma RenderTwo(x: string, y: string, files: map<string, string>, projectRoot: string)
    requires x in files && y in files
    ensures Readable([x, y], files)
    ensures Render([x, y], files, projectRoot)
         == Block(GetProjectRelativePath(x, projectRoot), files[x])
          + Block(GetProjectRelativePath(y, projectRoot), files[y])
  {
    var ps := [x, y];
    assert ps[1..] == [y] && [y][1..] == [];
    var last := Block(GetProjectRelativePath(y, projectRoot), files[y]);
    assert Render([y], files, projectRoot) == last + [];
    assert last + [] == last;
  }

  lemma ScenarioRendered(ca: string, cg: string, cr: string, cb: string)
    ensures var files := map["/r/a.py" := ca, "/r/.git/ignored.py" := cg, "/r/README.md" := cr, "/r/sub/b.py" := cb];
      Readable(["/r/a.py", "/r/sub/b.py"], files) &&
      Render(["/r/a.py", "/r/sub/b.py"], files, "/r") == Block("/a.py", ca) + Block("/sub/b.py", cb)
  {
    var files := map["/r/a.py" := ca, "/r/.git/ignored.py" := cg, "/r/README.md" := cr, "/r/sub/b.py" := cb];
    RelativePaths();
    RenderTwo("/r/a.py", "/r/sub/b.py", files, "/r");
  }

  /** A project `/r` holding `a.py`, `.git/ignored.py`, `README.md` and
      `sub/b.py`, with `README.md` excluded: the document holds exactly the
      blocks of `/a.py` and `/sub/b.py`, in that order. */
  lemma EndToEnd(ca: string, cg: string, cr: string, cb: string)
    ensures var files := map["/r/a.py" := ca, "/r/.git/ignored.py" := cg, "/r/README.md" := cr, "/r/sub/b.py" := cb];
      var chosen := FilteredFiles(["/r/sub/b.py", "/r/.git/ignored.py", "/r/README.md", "/r/a.py"], ["README.md"]);
      Readable(chosen, files) &&
      Render(chosen, files, "/r") == Block("/a.py", ca) + Block("/sub/b.py", cb)
  {
    ScenarioFiltered();
    ScenarioRendered(ca, cg, cr, cb);
  }
}
