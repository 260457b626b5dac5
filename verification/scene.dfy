/** Scene objects reduced to what the route logic reads, and the ordering of
    path objects by their `PathHandler.id`. */
module Scene {
  import opened Geometry

  /** The Unity tags the route logic tests with `CompareTag`. */
  datatype Tag = Hint | Goal | Dodge | Checkpoint | LookAway | Untagged

  /** A GameObject as the route logic sees it: `key` stands for the
      object's reference identity, `id` for its `PathHandler.id` (0 when it
      has none) and `pos` for `transform.position`. */
  datatype Placed = Placed(key: nat, tag: Tag, id: int, pos: Point)

  /** Hints and Goals take part in the path; every other object does not. */
  predicate OnPath(t: Tag) {
    t == Hint || t == Goal
  }

  function Ids(s: seq<Placed>): (r: seq<int>)
    ensures |r| == |s|
    ensures forall i :: 0 <= i < |s| ==> r[i] == s[i].id
  {
    if |s| == 0 then [] else Ids(s[..|s| - 1]) + [s[|s| - 1].id]
  }

  function Keys(s: seq<Placed>): (r: seq<nat>)
    ensures |r| == |s|
    ensures forall i :: 0 <= i < |s| ==> r[i] == s[i].key
  {
    if |s| == 0 then [] else Keys(s[..|s| - 1]) + [s[|s| - 1].key]
  }

  predicate SortedById(s: seq<Placed>) {
    forall i, j :: 0 <= i < j < |s| ==> s[i].id <= s[j].id
  }

  predicate DistinctIds(s: seq<Placed>) {
    forall i, j :: 0 <= i < j < |s| ==> s[i].id != s[j].id
  }

  /** The integers 1..n in order. */
  function OneTo(n: nat): (r: seq<int>)
    ensures |r| == n
    ensures forall i :: 0 <= i < n ==> r[i] == i + 1
  {
    if n == 0 then [] else OneTo(n - 1) + [n]
  }

  /** The ids are a permutation of 1..N. */
  predicate IdsArePermutation(s: seq<Placed>) {
    multiset(Ids(s)) == multiset(OneTo(|s|))
  }

  /** The state the phone keeps its path list in: position i holds id i+1. */
  predicate Canonical(s: seq<Placed>) {
    forall i :: 0 <= i < |s| ==> s[i].id == i + 1
  }

  /** Inserts `x` after every element whose id is not larger. */
  function Insert(x: Placed, s: seq<Placed>): (r: seq<Placed>)
    requires SortedById(s)
    ensures SortedById(r)
    ensures multiset(r) == multiset(s) + multiset{x}
  {
    if |s| == 0 then [x]
    else if x.id < s[0].id then [x] + s
    else
      var rest := Insert(x, s[1..]);
      InsertStep(x, s, rest);
      [s[0]] + rest
  }

  /** The head of a sorted list stays in front of the insertion into its
      tail. */
  lemma InsertStep(x: Placed, s: seq<Placed>, rest: seq<Placed>)
    requires |s| > 0 && SortedById(s) && s[0].id <= x.id
    requires SortedById(rest) && multiset(rest) == multiset(s[1..]) + multiset{x}
    ensures SortedById([s[0]] + rest)
    ensures multiset([s[0]] + rest) == multiset(s) + multiset{x}
  {
    forall k | 0 <= k < |rest|
      ensures s[0].id <= rest[k].id
    {
      assert rest[k] in multiset(rest);
      if rest[k] != x {
        assert rest[k] in multiset(s[1..]);
        var j :| 0 <= j < |s[1..]| && s[1..][j] == rest[k];
        assert s[j + 1] == rest[k];
      }
    }
    var r := [s[0]] + rest;
    forall i, j | 0 <= i < j < |r|
      ensures r[i].id <= r[j].id
    {
      assert r[j] == rest[j - 1];
      if i > 0 {
        assert r[i] == rest[i - 1];
      }
    }
    assert s == [s[0]] + s[1..];
  }

  /** `List.Sort` by `PathHandler.id`, as a stable insertion sort. The C#
      sort is not stable, but on distinct ids every sorting order agrees
      (`SortedUnique`). */
  function SortById(s: seq<Placed>): (r: seq<Placed>)
    ensures |r| == |s|
    ensures SortedById(r)
    ensures multiset(r) == multiset(s)
  {
    if |s| == 0 then []
    else
      assert s == s[..|s| - 1] + [s[|s| - 1]];
      var r := Insert(s[|s| - 1], SortById(s[..|s| - 1]));
      assert |r| == |multiset(r)| == |multiset(s)|;
      r
  }

  lemma {:induction false} MultisetIds(s: seq<Placed>, t: seq<Placed>)
    requires multiset(s) == multiset(t)
    ensures multiset(Ids(s)) == multiset(Ids(t))
    decreases |s|
  {
    if |s| == 0 {
      assert |t| == |multiset(t)| == 0;
    } else {
      var x := s[|s| - 1];
      var init := s[..|s| - 1];
      assert x in multiset(t);
      var j :| 0 <= j < |t| && t[j] == x;
      var t' := t[..j] + t[j + 1..];
      RemoveAt(t, j);
      assert s == init + [x];
      assert multiset(s) == multiset(init) + multiset{x};
      MultisetCancel(multiset(init), multiset(t'), x);
      MultisetIds(init, t');
      IdsRemoveAt(t, j);
      assert Ids(s) == Ids(init) + [x.id];
    }
  }

  lemma RemoveAt<T>(t: seq<T>, j: nat)
    requires j < |t|
    ensures multiset(t) == multiset(t[..j] + t[j + 1..]) + multiset{t[j]}
  {
    assert t == t[..j] + [t[j]] + t[j + 1..];
  }

  lemma IdsRemoveAt(t: seq<Placed>, j: nat)
    requires j < |t|
    ensures multiset(Ids(t)) == multiset(Ids(t[..j] + t[j + 1..])) + multiset{t[j].id}
  {
    var u := t[..j] + t[j + 1..];
    var ids := Ids(t);
    var w := ids[..j] + ids[j + 1..];
    var iu := Ids(u);
    assert |iu| == |w|;
    forall k | 0 <= k < |w|
      ensures iu[k] == w[k]
    {
      if k < j {
        assert u[k] == t[k];
      } else {
        assert u[k] == t[k + 1];
      }
    }
    assert iu == w;
    RemoveAt(ids, j);
  }

  lemma MultisetCancel<T>(a: multiset<T>, b: multiset<T>, x: T)
    requires a + multiset{x} == b + multiset{x}
    ensures a == b
  {
    forall y
      ensures a[y] == b[y]
    {
      assert (a + multiset{x})[y] == (b + multiset{x})[y];
    }
  }

  lemma IdsAppend(a: seq<Placed>, b: seq<Placed>)
    ensures Ids(a + b) == Ids(a) + Ids(b)
  {
  }

  /** Sorting keeps the multiset of ids, so it keeps a permutation of 1..N. */
  lemma SortKeepsPermutation(s: seq<Placed>)
    ensures multiset(Ids(SortById(s))) == multiset(Ids(s))
    ensures IdsArePermutation(s) ==> IdsArePermutation(SortById(s))
  {
    MultisetIds(SortById(s), s);
    assert |SortById(s)| == |s| by {
      assert |multiset(SortById(s))| == |multiset(s)|;
    }
  }

  /** A sorted list is left as it is. */
  lemma {:induction false} SortSorted(s: seq<Placed>)
    requires SortedById(s)
    ensures SortById(s) == s
  {
    if |s| > 0 {
      var init := s[..|s| - 1];
      SortSorted(init);
      InsertLast(s[|s| - 1], init);
      assert init + [s[|s| - 1]] == s;
    }
  }

  lemma {:induction false} InsertLast(x: Placed, s: seq<Placed>)
    requires SortedById(s)
    requires forall i :: 0 <= i < |s| ==> s[i].id <= x.id
    ensures Insert(x, s) == s + [x]
  {
    if |s| > 0 {
      InsertLast(x, s[1..]);
      assert [s[0]] + (s[1..] + [x]) == s + [x];
    }
  }

  /** Two sorted lists with the same elements and distinct ids are equal: the
      sort the original uses cannot matter on such lists. */
  lemma {:induction false} SortedUnique(r: seq<Placed>, w: seq<Placed>)
    requires SortedById(r) && SortedById(w)
    requires DistinctIds(r)
    requires multiset(r) == multiset(w)
    ensures r == w
    decreases |r|
  {
    assert |r| == |multiset(r)| == |w|;
    if |r| > 0 {
      SameHead(r, w);
      assert r == [r[0]] + r[1..];
      assert w == [w[0]] + w[1..];
      assert multiset(r) == multiset(r[1..]) + multiset{r[0]};
      assert multiset(w) == multiset(w[1..]) + multiset{r[0]};
      MultisetCancel(multiset(r[1..]), multiset(w[1..]), r[0]);
      SortedUnique(r[1..], w[1..]);
    }
  }

  /** Two sorted lists with the same elements and distinct ids start with
      the same element. */
  lemma SameHead(r: seq<Placed>, w: seq<Placed>)
    requires |r| > 0 && |w| > 0
    requires SortedById(r) && SortedById(w)
    requires DistinctIds(r)
    requires multiset(r) == multiset(w)
    ensures r[0] == w[0]
  {
    assert r[0] in multiset(w);
    var j :| 0 <= j < |w| && w[j] == r[0];
    assert w[0] in multiset(r);
    var i :| 0 <= i < |r| && r[i] == w[0];
    assert r[0].id <= r[i].id;
    assert w[0].id <= w[j].id;
    assert i == 0;
  }

  /** Canonical lists are sorted, with distinct ids forming 1..N. */
  lemma CanonicalProperties(s: seq<Placed>)
    requires Canonical(s)
    ensures SortedById(s) && DistinctIds(s)
    ensures Ids(s) == OneTo(|s|)
    ensures IdsArePermutation(s)
  {
  }

  /** And conversely a sorted list whose ids are a permutation of 1..N is
      canonical: after `List.Sort` the id of the object at position i is
      i+1. */
  lemma {:induction false} SortedPermutationIsCanonical(s: seq<Placed>)
    requires SortedById(s)
    requires IdsArePermutation(s)
    ensures Canonical(s)
    decreases |s|
  {
    var n := |s|;
    if n > 0 {
      var init := s[..n - 1];
      InitIsPermutation(s);
      SortedPermutationIsCanonical(init);
      LastIsLargest(s);
      CanonicalFromInit(s);
    }
  }

  /** A list whose prefix is canonical and whose last id is its length is
      canonical. */
  lemma CanonicalFromInit(s: seq<Placed>)
    requires |s| > 0 && Canonical(s[..|s| - 1]) && s[|s| - 1].id == |s|
    ensures Canonical(s)
  {
    forall i | 0 <= i < |s| - 1
      ensures s[i].id == i + 1
    {
      assert s[..|s| - 1][i] == s[i];
    }
  }

  /** Dropping the last element of a sorted permutation of 1..N leaves a
      sorted permutation of 1..N-1. */
  lemma InitIsPermutation(s: seq<Placed>)
    requires |s| > 0
    requires SortedById(s)
    requires IdsArePermutation(s)
    ensures SortedById(s[..|s| - 1])
    ensures IdsArePermutation(s[..|s| - 1])
  {
    var n := |s|;
    var init := s[..n - 1];
    LastIsLargest(s);
    IdsSnoc(s);
    OneToSnoc(n);
    MultisetCancel(multiset(Ids(init)), multiset(OneTo(n - 1)), n);
  }

  lemma IdsSnoc(s: seq<Placed>)
    requires |s| > 0
    ensures multiset(Ids(s)) == multiset(Ids(s[..|s| - 1])) + multiset{s[|s| - 1].id}
  {
    assert Ids(s) == Ids(s[..|s| - 1]) + [s[|s| - 1].id];
  }

  lemma OneToSnoc(n: nat)
    requires n > 0
    ensures multiset(OneTo(n)) == multiset(OneTo(n - 1)) + multiset{n}
  {
    assert OneTo(n) == OneTo(n - 1) + [n];
  }

  /** In a sorted permutation of 1..N the last id is N. */
  lemma LastIsLargest(s: seq<Placed>)
    requires |s| > 0
    requires SortedById(s)
    requires IdsArePermutation(s)
    ensures s[|s| - 1].id == |s|
  {
    var n := |s|;
    var ids := Ids(s);
    var one := OneTo(n);
    assert n == one[n - 1];
    assert n in multiset(one);
    assert n in multiset(ids);
    var i :| 0 <= i < n && ids[i] == n;
    assert s[i].id <= s[n - 1].id;
    assert ids[n - 1] in multiset(ids);
    assert ids[n - 1] in multiset(one);
    var k :| 0 <= k < n && one[k] == ids[n - 1];
  }

  /** Hence sorting a list whose ids are a permutation of 1..N makes it
      canonical. */
  lemma SortMakesCanonical(s: seq<Placed>)
    requires IdsArePermutation(s)
    ensures Canonical(SortById(s))
  {
    SortKeepsPermutation(s);
    SortedPermutationIsCanonical(SortById(s));
  }
}
