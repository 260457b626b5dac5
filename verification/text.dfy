/** Strings as character sequences, and the one splitting rule all three
    applications rely on.

    C#'s `String.Split(new string[] { sep }, StringSplitOptions.None)` and
    Python's `str.split(sep)` both scan left to right, cut at every
    non-overlapping occurrence of a non-empty separator, and keep empty
    pieces. `Split` below is that rule; `Join` is its inverse. */
module Text {
  import opened Wrappers

  type String = seq<char>

  /** `pat` occurs in `s` starting at index `i`. */
  predicate OccursAt(s: String, pat: String, i: nat) {
    i + |pat| <= |s| && s[i..i + |pat|] == pat
  }

  /** No occurrence of `pat` starts before index `k`. */
  predicate NoneBefore(s: String, pat: String, k: nat) {
    forall i: nat :: i < k ==> !OccursAt(s, pat, i)
  }

  /** `pat` occurs nowhere in `s`. */
  predicate Free(s: String, pat: String) {
    NoneBefore(s, pat, |s| + 1)
  }

  /** `pat` occurs in `s` only as its suffix: the record shape "body]}". */
  predicate OnlyAtEnd(s: String, pat: String) {
    |pat| <= |s| && OccursAt(s, pat, |s| - |pat|) && NoneBefore(s, pat, |s| - |pat|)
  }

  function Split(s: String, sep: String): (r: seq<String>)
    requires |sep| > 0
    ensures |r| >= 1
    decreases |s|
  {
    if |s| < |sep| then [s]
    else if s[..|sep|] == sep then [""] + Split(s[|sep|..], sep)
    else
      var rest := Split(s[1..], sep);
      [[s[0]] + rest[0]] + rest[1..]
  }

  /** The pieces glued back together with the separator between them. */
  function Join(ps: seq<String>, sep: String): String {
    if |ps| == 0 then []
    else if |ps| == 1 then ps[0]
    else ps[0] + sep + Join(ps[1..], sep)
  }

  /** Plain concatenation, as `File.AppendAllText` builds a file. */
  function Concat(ps: seq<String>): String {
    if |ps| == 0 then [] else ps[0] + Concat(ps[1..])
  }

  /** `Join` unfolded by one piece. */
  lemma JoinCons(ps: seq<String>, sep: String)
    requires |ps| >= 2
    ensures Join(ps, sep) == ps[0] + sep + Join(ps[1..], sep)
  {
  }

  /** `Concat` of a list with a first piece in front. */
  lemma ConcatCons(x: String, rest: seq<String>)
    ensures Concat([x] + rest) == x + Concat(rest)
  {
    assert ([x] + rest)[1..] == rest;
  }

  /** Number of non-overlapping, leftmost-first matches of a literal pattern:
      what `Regex.Matches(s, pat).Count` counts for a pattern without
      metacharacters. */
  function CountMatches(s: String, pat: String): (n: nat)
    requires |pat| > 0
    ensures n <= |s|
    decreases |s|
  {
    if |s| < |pat| then 0
    else if s[..|pat|] == pat then 1 + CountMatches(s[|pat|..], pat)
    else CountMatches(s[1..], pat)
  }

  /** `s.IndexOf(c)`, with None for C#'s -1. */
  function IndexOfChar(s: String, c: char): (r: Option<nat>)
    ensures r.Some? ==> r.value < |s| && s[r.value] == c && c !in s[..r.value]
    ensures r.None? ==> c !in s
  {
    if |s| == 0 then None
    else if s[0] == c then Some(0)
    else match IndexOfChar(s[1..], c)
      case None => None
      case Some(k) => Some(k + 1)
  }

  lemma JoinFirst(ps: seq<String>, sep: String)
    requires |ps| >= 1
    ensures |Join(ps, sep)| >= |ps[0]|
    ensures Join(ps, sep)[..|ps[0]|] == ps[0]
  {
    if |ps| > 1 {
      assert Join(ps, sep) == ps[0] + (sep + Join(ps[1..], sep));
    }
  }

  /** Dropping the first character moves every occurrence one place left. */
  lemma OccursShift(s: String, pat: String, i: nat)
    requires |s| >= 1
    ensures OccursAt(s[1..], pat, i) <==> OccursAt(s, pat, i + 1)
  {
    if i + 1 + |pat| <= |s| {
      assert s[1..][i..i + |pat|] == s[i + 1..i + 1 + |pat|];
    }
  }

  /** Splitting and joining again gives the original string back. */
  lemma {:induction false} SplitJoin(s: String, sep: String)
    requires |sep| > 0
    ensures Join(Split(s, sep), sep) == s
    decreases |s|
  {
    if |s| < |sep| {
    } else if s[..|sep|] == sep {
      SplitJoin(s[|sep|..], sep);
      JoinEmptyHead(Split(s[|sep|..], sep), sep);
      assert s == s[..|sep|] + s[|sep|..];
    } else {
      SplitJoin(s[1..], sep);
      JoinConsChar(s[0], Split(s[1..], sep), sep);
      assert s == [s[0]] + s[1..];
    }
  }

  /** An empty first piece contributes only the separator after it. */
  lemma JoinEmptyHead(ps: seq<String>, sep: String)
    requires |ps| >= 1
    ensures Join([""] + ps, sep) == sep + Join(ps, sep)
  {
    assert ([""] + ps)[1..] == ps;
  }

  /** A character put in front of the first piece ends up in front of the
      joined text. */
  lemma JoinConsChar(c: char, ps: seq<String>, sep: String)
    requires |ps| >= 1
    ensures Join([[c] + ps[0]] + ps[1..], sep) == [c] + Join(ps, sep)
  {
    var q := [[c] + ps[0]] + ps[1..];
    if |ps| > 1 {
      assert q[1..] == ps[1..];
      var j := Join(ps[1..], sep);
      assert Join(q, sep) == ([c] + ps[0]) + sep + j;
      assert Join(ps, sep) == ps[0] + sep + j;
      Assoc4([c], ps[0], sep, j);
    }
  }

  lemma Assoc4(a: String, b: String, c: String, d: String)
    ensures (a + b) + c + d == a + (b + c + d)
  {
  }

  /** No piece of a split contains the separator. */
  lemma {:induction false} SplitPiecesFree(s: String, sep: String)
    requires |sep| > 0
    ensures forall i :: 0 <= i < |Split(s, sep)| ==> Free(Split(s, sep)[i], sep)
    decreases |s|
  {
    var r := Split(s, sep);
    if |s| < |sep| {
      assert forall i: nat :: !OccursAt(s, sep, i);
    } else if s[..|sep|] == sep {
      SplitPiecesFree(s[|sep|..], sep);
      assert forall i: nat :: !OccursAt("", sep, i);
      assert r == [""] + Split(s[|sep|..], sep);
    } else {
      var rest := Split(s[1..], sep);
      SplitPiecesFree(s[1..], sep);
      var x := [s[0]] + rest[0];
      assert r == [x] + rest[1..];
      SplitJoin(s[1..], sep);
      JoinFirst(rest, sep);
      assert x == s[..|x|] by {
        assert s == [s[0]] + s[1..];
        assert s[1..][..|rest[0]|] == rest[0];
      }
      forall i: nat
        ensures !OccursAt(x, sep, i)
      {
        if i == 0 {
          if |x| >= |sep| {
            assert x[..|sep|] == s[..|sep|];
          }
        } else {
          assert x[1..] == rest[0];
          OccursShift(x, sep, i - 1);
        }
      }
      assert Free(x, sep);
      forall i | 0 <= i < |r|
        ensures Free(r[i], sep)
      {
        if i > 0 {
          assert r[i] == rest[i];
        }
      }
    }
  }

  /** A string without the separator is not cut. */
  lemma {:induction false} SplitFree(s: String, sep: String)
    requires |sep| > 0
    requires Free(s, sep)
    ensures Split(s, sep) == [s]
    decreases |s|
  {
    if |s| >= |sep| {
      assert !OccursAt(s, sep, 0);
      var rest := Split(s[1..], sep);
      forall i: nat
        ensures !OccursAt(s[1..], sep, i)
      {
        OccursShift(s, sep, i);
      }
      SplitFree(s[1..], sep);
      assert [s[0]] + s[1..] == s;
    }
  }

  /** A single piece means no separator at all. */
  lemma SplitSingleFree(s: String, sep: String)
    requires |sep| > 0
    requires |Split(s, sep)| == 1
    ensures Free(s, sep)
  {
    SplitJoin(s, sep);
    SplitPiecesFree(s, sep);
    assert Join(Split(s, sep), sep) == Split(s, sep)[0];
  }

  /** When the first occurrence of `sep` in `p + sep` is the one at |p|, the
      split of `p + sep + t` begins with the piece `p` and continues as the
      split of `t`. */
  lemma {:induction false} SplitAtFirst(p: String, sep: String, t: String)
    requires |sep| > 0
    requires NoneBefore(p + sep, sep, |p|)
    ensures Split(p + sep + t, sep) == [p] + Split(t, sep)
    decreases |p|
  {
    var s := p + sep + t;
    if |p| == 0 {
      assert s == sep + t;
      assert s[..|sep|] == sep;
      assert s[|sep|..] == t;
    } else {
      NoneBeforeTail(p, sep, t);
      SplitAtFirst(p[1..], sep, t);
      SplitAtFirstStep(p, sep, t);
    }
  }

  /** The first occurrence of `sep` stays the one after `p` when the first
      character of `p` is dropped, and `p + sep + t` does not start with it. */
  lemma NoneBeforeTail(p: String, sep: String, t: String)
    requires |sep| > 0 && |p| > 0
    requires NoneBefore(p + sep, sep, |p|)
    ensures NoneBefore(p[1..] + sep, sep, |p[1..]|)
    ensures |p + sep + t| >= |sep| && (p + sep + t)[..|sep|] != sep
  {
    var s := p + sep + t;
    assert !OccursAt(p + sep, sep, 0);
    assert (p + sep)[..|sep|] == s[..|sep|];
    forall i: nat | i < |p| - 1
      ensures !OccursAt(p[1..] + sep, sep, i)
    {
      assert (p + sep)[1..] == p[1..] + sep;
      OccursShift(p + sep, sep, i);
    }
  }

  /** The step of `SplitAtFirst`: the first character joins the first
      piece. */
  lemma SplitAtFirstStep(p: String, sep: String, t: String)
    requires |sep| > 0 && |p| > 0
    requires |p + sep + t| >= |sep| && (p + sep + t)[..|sep|] != sep
    requires Split(p[1..] + sep + t, sep) == [p[1..]] + Split(t, sep)
    ensures Split(p + sep + t, sep) == [p] + Split(t, sep)
  {
    PrefixedParts(p, sep, t);
    SplitCharStep(p + sep + t, sep, p[1..], Split(t, sep));
  }

  lemma PrefixedParts(p: String, sep: String, t: String)
    requires |p| > 0
    ensures (p + sep + t)[1..] == p[1..] + sep + t
    ensures [(p + sep + t)[0]] + p[1..] == p
  {
  }

  /** When `s` does not start with the separator, its first character is
      put in front of the first piece of the split of the rest. */
  lemma SplitCharStep(s: String, sep: String, q: String, rest: seq<String>)
    requires |sep| > 0 && |s| >= |sep| && s[..|sep|] != sep
    requires Split(s[1..], sep) == [q] + rest
    ensures Split(s, sep) == [[s[0]] + q] + rest
  {
    assert ([q] + rest)[1..] == rest;
  }

  /** `Regex.Matches(...).Count` and the number of cuts agree. */
  lemma {:induction false} CountMatchesIsCuts(s: String, pat: String)
    requires |pat| > 0
    ensures |Split(s, pat)| == CountMatches(s, pat) + 1
    decreases |s|
  {
    if |s| < |pat| {
    } else if s[..|pat|] == pat {
      CountMatchesIsCuts(s[|pat|..], pat);
    } else {
      CountMatchesIsCuts(s[1..], pat);
    }
  }

  /** If no occurrence starts before `k`, the first piece keeps `s[..k]`. */
  lemma {:induction false} SplitFirstKeeps(s: String, sep: String, k: nat)
    requires |sep| > 0
    requires k <= |s|
    requires NoneBefore(s, sep, k)
    ensures |Split(s, sep)[0]| >= k
    ensures Split(s, sep)[0][..k] == s[..k]
    decreases |s|
  {
    if k > 0 {
      assert !OccursAt(s, sep, 0);
      if |s| >= |sep| {
        assert s[..|sep|] != sep;
        forall i: nat | i < k - 1
          ensures !OccursAt(s[1..], sep, i)
        {
          OccursShift(s, sep, i);
        }
        SplitFirstKeeps(s[1..], sep, k - 1);
        var rest := Split(s[1..], sep);
        assert Split(s, sep)[0] == [s[0]] + rest[0];
        assert s[..k] == [s[0]] + s[1..][..k - 1];
      }
    }
  }

  /** Pieces that glue back unambiguously: no occurrence of the separator
      starts inside a piece, even across the boundary with the next
      separator, and the last piece is free of it. */
  predicate CleanPieces(ps: seq<String>, sep: String) {
    |ps| >= 1 &&
    (forall i :: 0 <= i < |ps| - 1 ==> NoneBefore(ps[i] + sep, sep, |ps[i]|)) &&
    Free(ps[|ps| - 1], sep)
  }

  /** Joining clean pieces and splitting again gives the pieces back. */
  lemma {:induction false} JoinSplit(ps: seq<String>, sep: String)
    requires |sep| > 0
    requires CleanPieces(ps, sep)
    ensures Split(Join(ps, sep), sep) == ps
    decreases |ps|
  {
    if |ps| == 1 {
      SplitFree(ps[0], sep);
    } else {
      var rest := ps[1..];
      assert CleanPieces(rest, sep) by {
        assert forall i :: 0 <= i < |rest| - 1 ==> rest[i] == ps[i + 1];
        assert rest[|rest| - 1] == ps[|ps| - 1];
      }
      JoinSplit(rest, sep);
      assert NoneBefore(ps[0] + sep, sep, |ps[0]|);
      SplitAtFirst(ps[0], sep, Join(rest, sep));
      assert Join(ps, sep) == ps[0] + sep + Join(rest, sep);
      assert [ps[0]] + rest == ps;
    }
  }
}
