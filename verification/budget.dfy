/** The desktop's anchor budget (`numOfAnchors`): how many anchors may still
    be placed, and which entry of the list read by `setFile` each placed
    anchor takes its pose from. In cloud mode the save button is enabled
    only once the budget is spent, and `writeInFile` then gives the j-th
    anchor the id of the j-th entry. */
module Budget {
  import opened Wrappers
  import PathIds

  /** The file-mode budget. */
  const MaxAnchors: nat := 20

  /** The placed anchors, each as the index of the `anchor_ids` entry it was
      placed from, and the remaining budget. */
  datatype Budget = Budget(anchors: seq<int>, num: int)

  /** `setFile`: the count of anchors read from the file in cloud mode,
      twenty otherwise; nothing placed yet. */
  function Start(cloud: bool, count: nat): (b: Budget)
    ensures b.anchors == []
    ensures b.num == if cloud then count else MaxAnchors
  {
    Budget([], if cloud then count else MaxAnchors)
  }

  /** Placed anchors and remaining budget add up to the starting budget,
      and the budget is never negative. */
  predicate Inv(b: Budget, total: nat) {
    0 <= b.num && |b.anchors| + b.num == total
  }

  /** Space in `Update`, as written: with budget left, the new anchor takes
      its pose from entry `anchor_ids.Count - numOfAnchors` and the budget
      drops by one; with none left nothing happens. The entry index means
      something only in cloud mode: in file mode the anchor is placed at the
      origin and no entry is read. */
  function PlaceAsWritten(b: Budget, total: nat): (r: Budget)
    ensures b.num <= 0 ==> r == b
    ensures b.num > 0 ==> r.num == b.num - 1 && |r.anchors| == |b.anchors| + 1 && r.anchors[..|b.anchors|] == b.anchors
    ensures Inv(b, total) && b.num > 0 ==> r.anchors[|b.anchors|] == |b.anchors| && 0 <= |b.anchors| < total
    ensures Inv(b, total) ==> Inv(r, total)
  {
    if b.num > 0 then Budget(b.anchors + [total - b.num], b.num - 1) else b
  }

  /** `remove` in the anchor modes: the first selected anchor, if any, is
      taken out and the budget grows by one. */
  function RemoveAnchor(b: Budget, sel: Option<nat>): (r: Budget)
    ensures sel.None? || sel.value >= |b.anchors| ==> r == b
    ensures sel.Some? && sel.value < |b.anchors| ==>
              r.num == b.num + 1 && r.anchors == PathIds.Delete(b.anchors, sel.value)
    ensures forall total: nat :: Inv(b, total) ==> Inv(r, total)
  {
    match sel
    case None => b
    case Some(p) => if p < |b.anchors| then Budget(PathIds.Delete(b.anchors, p), b.num + 1) else b
  }

  /** Placing k anchors from the start, with no removal, takes entries
      0..k-1 in order. */
  lemma {:induction false} PlacingOnlyTakesInOrder(total: nat, k: nat)
    requires k <= total
    ensures PlaceTimes(Budget([], total), total, k) == Budget(seq(k, i => i), total - k)
    decreases k
  {
    if k > 0 {
      PlacingOnlyTakesInOrder(total, k - 1);
      assert seq(k - 1, i => i) + [k - 1] == seq(k, i => i);
    }
  }

  /** k presses of Space. */
  function PlaceTimes(b: Budget, total: nat, k: nat): Budget {
    if k == 0 then b else PlaceAsWritten(PlaceTimes(b, total, k - 1), total)
  }

  /** Taking out any but the last of a full set of anchors and placing one
      again re-uses the last entry: two anchors stand at the last entry's
      pose, and the anchor at position p, which `writeInFile` saves under
      the id of entry p, stands at entry p+1's pose. */
  lemma AsWrittenReusesEntry(n: nat, p: nat)
    requires p + 1 < n
    ensures var r := PlaceAsWritten(RemoveAnchor(Budget(seq(n, i => i), 0), Some(p)), n);
            r.num == 0 && |r.anchors| == n &&
            r.anchors[n - 2] == r.anchors[n - 1] == n - 1 &&
            r.anchors[p] == p + 1
  {
    var d := RemoveAnchor(Budget(seq(n, i => i), 0), Some(p));
    assert |d.anchors| == n - 1 && d.num == 1;
    assert d.anchors[n - 2] == n - 1;
    assert d.anchors[p] == p + 1;
  }

  // ---------------------------------------------------------------------
  // Corrected placement

  /** Placed entries are listed in strictly increasing order and within the
      list read from the file. */
  predicate Proper(b: Budget, total: nat) {
    (forall i, j :: 0 <= i < j < |b.anchors| ==> b.anchors[i] < b.anchors[j]) &&
    (forall i :: 0 <= i < |b.anchors| ==> 0 <= b.anchors[i] < total)
  }

  /** In a proper list, the entry at position i is at least i. */
  lemma {:induction false} AtLeastPosition(s: seq<int>, i: nat)
    requires forall a, b :: 0 <= a < b < |s| ==> s[a] < s[b]
    requires forall a :: 0 <= a < |s| ==> 0 <= s[a]
    requires i < |s|
    ensures s[i] >= i
    decreases i
  {
    if i > 0 {
      AtLeastPosition(s, i - 1);
    }
  }

  /** The first position from k on where the entry is not its own
      position: every earlier entry is its position, so the position itself
      is unused. */
  function FirstFreeFrom(s: seq<int>, k: nat): (f: nat)
    requires k <= |s|
    requires forall i :: 0 <= i < k ==> s[i] == i
    ensures k <= f <= |s|
    ensures forall i :: 0 <= i < f ==> s[i] == i
    ensures f < |s| ==> s[f] != f
    decreases |s| - k
  {
    if k < |s| && s[k] == k then FirstFreeFrom(s, k + 1) else k
  }

  function FirstFree(s: seq<int>): (f: nat)
    ensures f <= |s|
    ensures forall i :: 0 <= i < f ==> s[i] == i
    ensures f < |s| ==> s[f] != f
  {
    FirstFreeFrom(s, 0)
  }

  /** The corrected Space: the new anchor takes the first entry no placed
      anchor uses, and is listed at that entry's position. */
  function PlaceAnchor(b: Budget, total: nat): (r: Budget)
    requires Proper(b, total)
    ensures b.num <= 0 ==> r == b
    ensures b.num > 0 ==> r.num == b.num - 1 && |r.anchors| == |b.anchors| + 1
    ensures b.num > 0 ==> multiset(r.anchors) == multiset(b.anchors) + multiset{FirstFree(b.anchors)}
    ensures b.num > 0 ==> FirstFree(b.anchors) !in b.anchors
    ensures Inv(b, total) ==> Inv(r, total) && Proper(r, total)
  {
    if b.num > 0 then
      var f := FirstFree(b.anchors);
      FreeIsFree(b.anchors, total);
      var s := b.anchors[..f] + [f] + b.anchors[f..];
      InsertFree(b.anchors, total);
      Budget(s, b.num - 1)
    else b
  }

  /** The first free entry is used nowhere: the entries before its position
      are smaller, those from it on larger. */
  lemma FreeIsFree(s: seq<int>, total: nat)
    requires Proper(Budget(s, 0), total)
    ensures FirstFree(s) !in s
    ensures forall i :: 0 <= i < FirstFree(s) ==> s[i] < FirstFree(s)
    ensures forall i :: FirstFree(s) <= i < |s| ==> s[i] > FirstFree(s)
  {
    var f := FirstFree(s);
    forall i | f <= i < |s|
      ensures s[i] > f
    {
      AtLeastPosition(s, f);
      assert s[f] > f;
    }
  }

  /** Listing the first free entry at its own position keeps the list
      proper, and adds just that entry. */
  lemma InsertFree(s: seq<int>, total: nat)
    requires Proper(Budget(s, 0), total)
    ensures var f := FirstFree(s);
            var t := s[..f] + [f] + s[f..];
            multiset(t) == multiset(s) + multiset{f} &&
            (|s| < total ==> Proper(Budget(t, 0), total))
  {
    var f := FirstFree(s);
    var t := s[..f] + [f] + s[f..];
    InsertMultiset(s, f);
    if |s| < total {
      InsertFreeIncreasing(s, total);
      forall i | 0 <= i < |t|
        ensures 0 <= t[i] < total
      {
        InsertAt(s, f, i);
      }
    }
  }

  lemma InsertFreeIncreasing(s: seq<int>, total: nat)
    requires Proper(Budget(s, 0), total)
    ensures var f := FirstFree(s);
            var t := s[..f] + [f] + s[f..];
            forall i, j :: 0 <= i < j < |t| ==> t[i] < t[j]
  {
    var f := FirstFree(s);
    FreeIsFree(s, total);
    var t := s[..f] + [f] + s[f..];
    forall i, j | 0 <= i < j < |t|
      ensures t[i] < t[j]
    {
      InsertAt(s, f, i);
      InsertAt(s, f, j);
      if j <= f {
      } else if i <= f {
      } else {
        assert s[i - 1] < s[j - 1];
      }
    }
  }

  /** Listing x at position f adds x to the multiset. */
  lemma InsertMultiset(s: seq<int>, f: nat)
    requires f <= |s|
    ensures multiset(s[..f] + [f] + s[f..]) == multiset(s) + multiset{f}
  {
    assert s == s[..f] + s[f..];
  }

  /** Position i of the list with f listed at position f. */
  lemma InsertAt(s: seq<int>, f: nat, i: nat)
    requires f <= |s| && i <= |s|
    ensures (s[..f] + [f] + s[f..])[i] == if i < f then s[i] else if i == f then f else s[i - 1]
  {
  }

  /** Removal keeps a proper list proper. */
  lemma RemoveKeepsProper(b: Budget, total: nat, sel: Option<nat>)
    requires Proper(b, total)
    ensures Proper(RemoveAnchor(b, sel), total)
  {
  }

  /** With the budget spent, a proper list holds entries 0..total-1 in
      order, so `writeInFile` saves every anchor under the id of the entry
      it was placed from. */
  lemma {:induction false} FullIsInOrder(b: Budget, total: nat)
    requires Inv(b, total) && Proper(b, total) && b.num == 0
    ensures forall j :: 0 <= j < |b.anchors| ==> b.anchors[j] == j
  {
    forall j | 0 <= j < |b.anchors|
      ensures b.anchors[j] == j
    {
      AtLeastPosition(b.anchors, j);
      AtMostFromEnd(b.anchors, total, j);
    }
  }

  /** In a proper list of length total, the entry at position j leaves room
      for the total-1-j larger entries after it. */
  lemma {:induction false} AtMostFromEnd(s: seq<int>, total: nat, j: nat)
    requires Proper(Budget(s, 0), total) && |s| == total
    requires j < |s|
    ensures s[j] <= j
    decreases |s| - j
  {
    if j + 1 < |s| {
      AtMostFromEnd(s, total, j + 1);
      assert s[j] < s[j + 1];
    }
  }

  /** Without removals the corrected placement takes the same entries as
      the code as written. */
  lemma PlaceAgreesInOrder(b: Budget, total: nat)
    requires Inv(b, total) && b.num > 0
    requires forall i :: 0 <= i < |b.anchors| ==> b.anchors[i] == i
    ensures Proper(b, total)
    ensures PlaceAnchor(b, total) == PlaceAsWritten(b, total)
  {
    var s := b.anchors;
    assert FirstFree(s) == |s|;
    assert s[..|s|] + [|s|] + s[|s|..] == s + [|s|];
  }
}
