/** The Python string and list builtins the extraction script relies on,
    stated over `string` (= `seq<char>`): `str.split(sep)`, `str.replace(pat, "")`,
    iteration over the lines of a text file, and `sorted` on a list of strings. */
module PyStr {
  import opened Seqs

  // ---------------------------------------------------------------------------
  // str.split(sep) and its inverse sep.join(...)

  /** `sep.join(segs)`. */
  function Join(segs: seq<string>, sep: char): string
    requires |segs| >= 1
    decreases |segs|
  {
    if |segs| == 1 then segs[0] else segs[0] + [sep] + Join(segs[1..], sep)
  }

  /** `s.split(sep)`: the pieces between separators, always at least one (the
      empty string splits to `[""]`), empty pieces kept. */
  function Split(s: string, sep: char): (r: seq<string>)
    ensures |r| >= 1
    ensures forall k :: 0 <= k < |r| ==> sep !in r[k]
    ensures Join(r, sep) == s
    decreases |s|
  {
    if s == [] then [[]]
    else
      var rest := Split(s[1..], sep);
      if s[0] == sep then
        assert ([[]] + rest)[1..] == rest;
        [[]] + rest
      else
        var r := [[s[0]] + rest[0]] + rest[1..];
        assert r[1..] == rest[1..];
        assert |rest| > 1 ==> Join(rest, sep) == rest[0] + [sep] + Join(rest[1..], sep);
        assert s == [s[0]] + s[1..];
        r
  }

  /** The last segment of a join follows the last separator. */
  lemma {:induction false} JoinLast(segs: seq<string>, sep: char)
    requires |segs| >= 2
    ensures Join(segs, sep) == Join(segs[..|segs| - 1], sep) + [sep] + segs[|segs| - 1]
    decreases |segs|
  {
    var n := |segs|;
    if n > 2 {
      JoinLast(segs[1..], sep);
      assert segs[1..][..n - 2] == segs[..n - 1][1..];
      assert segs[1..][n - 2] == segs[n - 1];
    }
  }

  /** Splitting after a separator-free first piece and a separator yields
      that piece, then the split of the remainder. */
  lemma {:induction false} SplitAfterPiece(x: string, sep: char, y: string)
    requires sep !in x
    ensures Split(x + [sep] + y, sep) == [x] + Split(y, sep)
    decreases |x|
  {
    var s := x + [sep] + y;
    if x == [] {
      assert s == [sep] + y && s[1..] == y;
    } else {
      assert s[1..] == x[1..] + [sep] + y;
      SplitAfterPiece(x[1..], sep, y);
      assert x == [x[0]] + x[1..];
    }
  }

  /** Splitting undoes joining separator-free pieces. */
  lemma {:induction false} SplitJoin(segs: seq<string>, sep: char)
    requires |segs| >= 1
    requires forall k :: 0 <= k < |segs| ==> sep !in segs[k]
    ensures Split(Join(segs, sep), sep) == segs
    decreases |segs|
  {
    if |segs| == 1 {
      SplitSingle(segs[0], sep);
    } else {
      SplitJoin(segs[1..], sep);
      SplitAfterPiece(segs[0], sep, Join(segs[1..], sep));
    }
  }

  /** Splitting yields a single piece exactly when the separator does not occur. */
  lemma SplitSingle(s: string, sep: char)
    ensures |Split(s, sep)| == 1 <==> sep !in s
  {
    var r := Split(s, sep);
    if |r| > 1 {
      assert s == r[0] + [sep] + Join(r[1..], sep);
      assert s[|r[0]|] == sep;
    }
  }

  /** `s.split(sep)[-1]` is the longest suffix of `s` free of `sep`: it starts
      at the beginning of `s` or right after a separator. */
  lemma LastSegment(s: string, sep: char)
    ensures var b := Split(s, sep)[|Split(s, sep)| - 1];
      |b| <= |s| && s[|s| - |b|..] == b && sep !in b &&
      (|b| == |s| || s[|s| - |b| - 1] == sep)
  {
    var r := Split(s, sep);
    var n := |r|;
    if n >= 2 {
      JoinLast(r, sep);
      var front := Join(r[..n - 1], sep);
      assert s == front + [sep] + r[n - 1];
      assert s[|front| + 1..] == r[n - 1];
    }
  }

  // ---------------------------------------------------------------------------
  // str.replace(pat, "")

  /** `pat` occurs in `s` at index `i`. */
  predicate OccursAt(s: string, pat: string, i: int)
  {
    0 <= i && i + |pat| <= |s| && s[i..i + |pat|] == pat
  }

  predicate Occurs(s: string, pat: string)
  {
    exists i :: 0 <= i <= |s| && OccursAt(s, pat, i)
  }

  /** `s.replace(pat, "")`: scanning left to right, every non-overlapping
      occurrence of `pat` is deleted; an empty `pat` leaves `s` unchanged. */
  function RemoveAll(s: string, pat: string): (r: string)
    ensures |r| <= |s|
    ensures pat == [] ==> r == s
    decreases |s|
  {
    if pat == [] || |s| < |pat| then s
    else if s[..|pat|] == pat then RemoveAll(s[|pat|..], pat)
    else [s[0]] + RemoveAll(s[1..], pat)
  }

  /** Nothing is removed when the pattern never occurs. */
  lemma {:induction false} RemoveAllAbsent(s: string, pat: string)
    requires !Occurs(s, pat)
    ensures RemoveAll(s, pat) == s
    decreases |s|
  {
    assert !OccursAt(s, pat, 0);
    if pat != [] && |s| >= |pat| {
      forall i | OccursAt(s[1..], pat, i) ensures OccursAt(s, pat, i + 1) {
        assert s[i + 1..i + 1 + |pat|] == s[1..][i..i + |pat|];
      }
      RemoveAllAbsent(s[1..], pat);
      assert s == [s[0]] + s[1..];
    }
  }

  /** A leading occurrence is removed and scanning resumes right after it. */
  lemma RemoveAllLeading(pat: string, s: string)
    requires pat != []
    ensures RemoveAll(pat + s, pat) == RemoveAll(s, pat)
  {
    assert (pat + s)[..|pat|] == pat;
    assert (pat + s)[|pat|..] == s;
  }

  /** An occurrence in the tail is an occurrence one index further in `s`. */
  lemma OccursInTail(s: string, pat: string, j: int)
    requires s != [] && 0 <= j
    ensures OccursAt(s[1..], pat, j) <==> OccursAt(s, pat, j + 1)
  {
    if j + 1 + |pat| <= |s| {
      assert s[1..][j..j + |pat|] == s[j + 1..j + 1 + |pat|];
    }
  }

  /** A non-empty pattern that occurs is removed at least once, so the result is
      strictly shorter. */
  lemma {:induction false} RemoveAllShrinks(s: string, pat: string, i: int)
    requires pat != [] && OccursAt(s, pat, i)
    ensures |RemoveAll(s, pat)| < |s|
    decreases |s|
  {
    if s[..|pat|] != pat {
      OccursInTail(s, pat, i - 1);
      RemoveAllShrinks(s[1..], pat, i - 1);
    }
  }

  /** Where the pattern does not start at index 0, the first character is kept
      in front of what the tail comes to. */
  lemma RemoveAllKeepsHead(s: string, pat: string, i: int, rest: string)
    requires pat != [] && 0 < i <= |s| && !OccursAt(s, pat, 0)
    requires RemoveAll(s[1..], pat) == s[1..i] + rest
    ensures RemoveAll(s, pat) == s[..i] + rest
  {
    assert s[..i] == [s[0]] + s[1..i];
  }

  /** No occurrence before `i` in `s` means none before `i - 1` in its tail. */
  lemma NoEarlierInTail(s: string, pat: string, i: int)
    requires s != [] && 0 < i
    requires forall j :: 0 <= j < i ==> !OccursAt(s, pat, j)
    ensures forall j :: 0 <= j < i - 1 ==> !OccursAt(s[1..], pat, j)
  {
    forall j | 0 <= j < i - 1 ensures !OccursAt(s[1..], pat, j) {
      OccursInTail(s, pat, j);
    }
  }

  /** Everything before the first occurrence is kept, that occurrence is
      removed, and scanning resumes right after it. With RemoveAllAbsent this
      fixes the result for every non-empty pattern; the empty pattern is the
      identity (RemoveAll's own contract). */
  lemma {:induction false} RemoveAllFirstOccurrence(s: string, pat: string, i: int)
    requires pat != [] && OccursAt(s, pat, i)
    requires forall j :: 0 <= j < i ==> !OccursAt(s, pat, j)
    ensures RemoveAll(s, pat) == s[..i] + RemoveAll(s[i + |pat|..], pat)
    decreases i
  {
    if i == 0 {
      assert s[..|pat|] == pat;
    } else {
      var t := s[1..];
      OccursInTail(s, pat, i - 1);
      NoEarlierInTail(s, pat, i);
      RemoveAllFirstOccurrence(t, pat, i - 1);
      assert t[i - 1 + |pat|..] == s[i + |pat|..] && t[..i - 1] == s[1..i];
      RemoveAllKeepsHead(s, pat, i, RemoveAll(s[i + |pat|..], pat));
    }
  }

  /** Removal is not confined to a prefix: an occurrence in the middle goes too,
      and overlapping occurrences are taken leftmost first. */
  lemma RemoveAllEveryOccurrence()
    ensures RemoveAll("/p/a/p/b", "/p") == "/a/b"
    ensures RemoveAll("aaa", "aa") == "a"
  {
    var s := "/p/a/p/b";
    assert s[..2] == "/p";
    assert s[2..][..2] == "/a" != "/p";
    assert s[2..][1..] == "a/p/b";
    assert s[2..][1..][..2] == "a/" != "/p";
    assert s[2..][1..][1..] == "/p/b";
    assert s[2..][1..][1..][..2] == "/p";
    assert s[2..][1..][1..][2..] == "/b";
    assert "/b"[..2] == "/b" != "/p";
    assert "/b"[1..] == "b";
    assert RemoveAll("b", "/p") == "b";
    assert RemoveAll("/b", "/p") == "/b";
    assert RemoveAll("/p/b", "/p") == "/b";
    assert RemoveAll("a/p/b", "/p") == "a/b";
    assert RemoveAll("/a/p/b", "/p") == "/a/b";
    assert "aaa"[..2] == "aa";
    assert "aaa"[2..] == "a";
  }

  // ---------------------------------------------------------------------------
  // Iterating over a text file: `for line in f` yields lines with their '\n'

  /** Length of the first line of `s`, its '\n' included if it has one. */
  function LineLength(s: string): (n: nat)
    requires s != []
    ensures 1 <= n <= |s|
    ensures '\n' !in s[..n - 1]
    ensures n < |s| ==> s[n - 1] == '\n'
  {
    if s[0] == '\n' || |s| == 1 then 1
    else
      var m := LineLength(s[1..]);
      assert s[..m] == [s[0]] + s[1..][..m - 1];
      m + 1
  }

  /** The lines a text-mode file with contents `s` yields, in order. */
  function Lines(s: string): (r: seq<string>)
    ensures forall k :: 0 <= k < |r| ==> r[k] != []
    ensures forall k :: 0 <= k < |r| - 1 ==> r[k][|r[k]| - 1] == '\n'
    ensures forall k :: 0 <= k < |r| ==> '\n' !in r[k][..|r[k]| - 1]
    decreases |s|
  {
    if s == [] then []
    else
      var n := LineLength(s);
      var rest := Lines(s[n..]);
      assert n < |s| ==> rest != [];
      assert ([s[..n]] + rest)[1..] == rest;
      [s[..n]] + rest
  }

  /** Copying a file line by line reproduces its contents verbatim. */
  lemma {:induction false} LinesConcat(s: string)
    ensures Concat(Lines(s)) == s
    decreases |s|
  {
    if s != [] {
      var n := LineLength(s);
      LinesConcat(s[n..]);
      assert Lines(s)[1..] == Lines(s[n..]);
      assert s == s[..n] + s[n..];
    }
  }

  // ---------------------------------------------------------------------------
  // Ordering of strings and `sorted`

  /** `a` and `b` first differ at an index where `a` has the smaller character. */
  predicate FirstDifferenceLess(a: string, b: string)
  {
    exists k :: 0 <= k < |a| && k < |b| && a[..k] == b[..k] && a[k] < b[k]
  }

  lemma FirstDifferenceTail(a: string, b: string)
    requires a != [] && b != []
    ensures FirstDifferenceLess(a, b)
        <==> a[0] < b[0] || (a[0] == b[0] && FirstDifferenceLess(a[1..], b[1..]))
  {
    if k :| 0 <= k < |a| && k < |b| && a[..k] == b[..k] && a[k] < b[k] {
      if k > 0 {
        assert a[0] == a[..k][0] == b[..k][0] == b[0];
        assert a[1..][..k - 1] == a[1..k] == b[1..k] == b[1..][..k - 1];
        assert a[1..][k - 1] < b[1..][k - 1];
      }
    }
    if a[0] == b[0] && FirstDifferenceLess(a[1..], b[1..]) {
      var k :| 0 <= k < |a[1..]| && k < |b[1..]| && a[1..][..k] == b[1..][..k] && a[1..][k] < b[1..][k];
      assert a[..k + 1] == [a[0]] + a[1..][..k];
      assert b[..k + 1] == [b[0]] + b[1..][..k];
    }
    if a[0] < b[0] {
      assert a[..0] == b[..0];
    }
  }

  /** `a <= b` on Python strings, compared character by character. */
  predicate LexLe(a: string, b: string)
  {
    a == [] || (b != [] && (a[0] < b[0] || (a[0] == b[0] && LexLe(a[1..], b[1..]))))
  }

  /** The order is Python's: `a` is a prefix of `b`, or at the first index where
      they differ `a` has the smaller code point. */
  lemma {:induction false} LexLeFirstDifference(a: string, b: string)
    ensures LexLe(a, b) <==> a <= b || FirstDifferenceLess(a, b)
  {
    if a != [] && b != [] {
      FirstDifferenceTail(a, b);
      LexLeFirstDifference(a[1..], b[1..]);
    }
  }

  lemma {:induction false} LexLeTotal(a: string, b: string)
    ensures LexLe(a, b) || LexLe(b, a)
  {
    if a != [] && b != [] && a[0] == b[0] {
      LexLeTotal(a[1..], b[1..]);
    }
  }

  lemma {:induction false} LexLeTrans(a: string, b: string, c: string)
    requires LexLe(a, b) && LexLe(b, c)
    ensures LexLe(a, c)
  {
    if a != [] && a[0] == b[0] && b[0] == c[0] {
      LexLeTrans(a[1..], b[1..], c[1..]);
    }
  }

  lemma {:induction false} LexLeAntisym(a: string, b: string)
    requires LexLe(a, b) && LexLe(b, a)
    ensures a == b
  {
    if a != [] {
      LexLeAntisym(a[1..], b[1..]);
      assert a == [a[0]] + a[1..] && b == [b[0]] + b[1..];
    }
  }

  predicate IsSorted(s: seq<string>)
  {
    forall i, j :: 0 <= i < j < |s| ==> LexLe(s[i], s[j])
  }

  /** Insertion of `x` before the first element it does not exceed. */
  function Insert(x: string, s: seq<string>): seq<string>
  {
    if s == [] || LexLe(x, s[0]) then [x] + s else [s[0]] + Insert(x, s[1..])
  }

  /** `sorted(s)` for a list of strings: ordered, and a permutation of `s`.
      Equal strings are indistinguishable, so any sorting algorithm gives this
      same list (see SortedUnique). */
  function Sort(s: seq<string>): (r: seq<string>)
    ensures IsSorted(r)
    ensures multiset(r) == multiset(s)
  {
    if s == [] then []
    else
      InsertSorted(s[0], Sort(s[1..]));
      assert s == [s[0]] + s[1..];
      Insert(s[0], Sort(s[1..]))
  }

  /** A lower bound of `x` and of every element of `s` bounds every element of
      any list with the multiset of `s` plus `x`. */
  lemma BoundsInsert(lo: string, x: string, s: seq<string>, t: seq<string>)
    requires LexLe(lo, x) && forall j :: 0 <= j < |s| ==> LexLe(lo, s[j])
    requires multiset(t) == multiset(s) + multiset{x}
    ensures forall j :: 0 <= j < |t| ==> LexLe(lo, t[j])
  {
    forall j | 0 <= j < |t| ensures LexLe(lo, t[j]) {
      assert t[j] in multiset(t);
      if t[j] != x {
        var k :| 0 <= k < |s| && s[k] == t[j];
      }
    }
  }

  lemma {:induction false} InsertSorted(x: string, s: seq<string>)
    requires IsSorted(s)
    ensures IsSorted(Insert(x, s))
    ensures multiset(Insert(x, s)) == multiset(s) + multiset{x}
  {
    if s == [] {
    } else if LexLe(x, s[0]) {
      forall j | 0 < j < |s| ensures LexLe(x, s[j]) {
        LexLeTrans(x, s[0], s[j]);
      }
    } else {
      LexLeTotal(x, s[0]);
      InsertSorted(x, s[1..]);
      BoundsInsert(s[0], x, s[1..], Insert(x, s[1..]));
      assert s == [s[0]] + s[1..];
    }
  }

  /** The head of an ordered list is not greater than anything in it. */
  lemma HeadIsLeast(a: seq<string>, x: string)
    requires IsSorted(a) && x in multiset(a)
    ensures LexLe(a[0], x)
  {
    var i :| 0 <= i < |a| && a[i] == x;
    if i == 0 { LexLeTotal(x, x); }
  }

  lemma MultisetTail(a: seq<string>, b: seq<string>)
    requires a != [] && multiset(a) == multiset(b) && a[0] == b[0]
    ensures multiset(a[1..]) == multiset(b[1..])
  {
    assert |b| == |multiset(b)| == |a|;
    assert a == [a[0]] + a[1..] && b == [b[0]] + b[1..];
    assert multiset(a[1..]) == multiset(a) - multiset{a[0]};
    assert multiset(b[1..]) == multiset(b) - multiset{b[0]};
  }

  /** There is only one ordered arrangement of a multiset of strings. */
  lemma {:induction false} SortedUnique(a: seq<string>, b: seq<string>)
    requires IsSorted(a) && IsSorted(b)
    requires multiset(a) == multiset(b)
    ensures a == b
  {
    if a != [] {
      assert |b| == |multiset(b)| == |a|;
      assert a[0] in multiset(b) && b[0] in multiset(a);
      HeadIsLeast(b, a[0]);
      HeadIsLeast(a, b[0]);
      LexLeAntisym(a[0], b[0]);
      MultisetTail(a, b);
      SortedUnique(a[1..], b[1..]);
      assert a == [a[0]] + a[1..] && b == [b[0]] + b[1..];
    }
  }
}
