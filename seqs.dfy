/** Generic facts about sequences: the order-preserving filter that a Python
    list comprehension `[x for x in s if f(x)]` computes, the subsequence
    relation, and concatenation of a sequence of sequences. */
module Seqs {

  /** `[x for x in s if f(x)]`: the elements of `s` that satisfy `f`, in order. */
  function Keep<T>(s: seq<T>, f: T -> bool): (r: seq<T>)
    ensures |r| <= |s|
    ensures forall x :: x in r ==> x in s && f(x)
    ensures forall i :: 0 <= i < |s| && f(s[i]) ==> s[i] in r
  {
    if s == [] then []
    else if f(s[0]) then [s[0]] + Keep(s[1..], f)
    else
      assert forall i :: 1 <= i < |s| ==> s[i] == s[1..][i - 1];
      Keep(s[1..], f)
  }

  /** `r` can be obtained from `s` by deleting elements (order is kept). */
  predicate IsSubseq<T(==)>(r: seq<T>, s: seq<T>)
    decreases |s|
  {
    r == [] ||
    (s != [] && ((r[0] == s[0] && IsSubseq(r[1..], s[1..])) || IsSubseq(r, s[1..])))
  }

  /** The filter deletes elements and never reorders them. */
  lemma {:induction false} KeepIsSubseq<T>(s: seq<T>, f: T -> bool)
    ensures IsSubseq(Keep(s, f), s)
  {
    if s != [] {
      KeepIsSubseq(s[1..], f);
      if f(s[0]) {
        var r := Keep(s, f);
        assert r[0] == s[0] && r[1..] == Keep(s[1..], f);
      }
    }
  }

  /** Each element occurs in the result exactly as often as in the input when
      it satisfies `f`, and not at all otherwise. */
  lemma {:induction false} KeepCount<T>(s: seq<T>, f: T -> bool, x: T)
    ensures multiset(Keep(s, f))[x] == if f(x) then multiset(s)[x] else 0
  {
    if s != [] {
      KeepCount(s[1..], f, x);
      assert s == [s[0]] + s[1..];
      assert multiset(s) == multiset{s[0]} + multiset(s[1..]);
      if f(s[0]) {
        assert multiset(Keep(s, f)) == multiset{s[0]} + multiset(Keep(s[1..], f));
      }
    }
  }

  /** Filtering with a predicate every element already satisfies changes nothing. */
  lemma {:induction false} KeepAll<T>(s: seq<T>, f: T -> bool)
    requires forall x :: x in s ==> f(x)
    ensures Keep(s, f) == s
  {
    if s != [] {
      assert forall x :: x in s[1..] ==> x in s;
      KeepAll(s[1..], f);
      assert s == [s[0]] + s[1..];
    }
  }

  /** Filtering twice with the same predicate is filtering once. */
  lemma KeepIdempotent<T>(s: seq<T>, f: T -> bool)
    ensures Keep(Keep(s, f), f) == Keep(s, f)
  {
    KeepAll(Keep(s, f), f);
  }

  /** Two filters in sequence are one filter by the conjunction `both`. */
  lemma {:induction false} KeepKeep<T>(s: seq<T>, f: T -> bool, g: T -> bool, both: T -> bool)
    requires forall x :: both(x) == (f(x) && g(x))
    ensures Keep(Keep(s, f), g) == Keep(s, both)
  {
    if s != [] {
      KeepKeep(s[1..], f, g, both);
      if f(s[0]) {
        assert Keep(s, f) == [s[0]] + Keep(s[1..], f);
        assert ([s[0]] + Keep(s[1..], f))[1..] == Keep(s[1..], f);
      }
    }
  }

  /** The order in which two filters are applied does not matter. */
  lemma {:induction false} KeepCommute<T>(s: seq<T>, f: T -> bool, g: T -> bool)
    ensures Keep(Keep(s, f), g) == Keep(Keep(s, g), f)
  {
    if s != [] {
      KeepCommute(s[1..], f, g);
      var fs, gs := Keep(s[1..], f), Keep(s[1..], g);
      if f(s[0]) {
        assert Keep(s, f) == [s[0]] + fs;
        assert ([s[0]] + fs)[1..] == fs;
      }
      if g(s[0]) {
        assert Keep(s, g) == [s[0]] + gs;
        assert ([s[0]] + gs)[1..] == gs;
      }
    }
  }

  /** `''.join(ls)`: the sequences of `ls` one after another. */
  function Concat<T>(ls: seq<seq<T>>): seq<T>
  {
    if ls == [] then [] else ls[0] + Concat(ls[1..])
  }

  /** Concatenation distributes over appending lists of pieces. */
  lemma {:induction false} ConcatAppend<T>(a: seq<seq<T>>, b: seq<seq<T>>)
    ensures Concat(a + b) == Concat(a) + Concat(b)
  {
    if a != [] {
      assert (a + b)[0] == a[0];
      assert (a + b)[1..] == a[1..] + b;
      ConcatAppend(a[1..], b);
      calc {
        Concat(a + b);
        a[0] + Concat(a[1..] + b);
        a[0] + (Concat(a[1..]) + Concat(b));
        (a[0] + Concat(a[1..])) + Concat(b);
      }
    } else {
      assert a + b == b;
    }
  }
}
