/** The path builder of both applications: `fillGoalsAndControls` and
    `DrawNCurve`, which evaluates one Bézier segment per Goal. */
module Curve {
  import opened Geometry
  import opened Scene
  import Bezier

  /** The objects of `s` with tag `t`, in order. */
  function WithTag(s: seq<Placed>, t: Tag): (r: seq<Placed>)
    ensures |r| <= |s|
    ensures forall k :: 0 <= k < |r| ==> r[k].tag == t
    ensures forall x :: x in s && x.tag == t <==> x in r
  {
    if |s| == 0 then []
    else
      var init := WithTag(s[..|s| - 1], t);
      assert s == s[..|s| - 1] + [s[|s| - 1]];
      if s[|s| - 1].tag == t then init + [s[|s| - 1]] else init
  }

  /** `fillGoalsAndControls`: one pass that appends every Hint to `controls`
      and every Goal to `goals`. */
  method FillGoalsAndControls(goS: seq<Placed>) returns (controls: seq<Placed>, goals: seq<Placed>)
    ensures controls == WithTag(goS, Hint)
    ensures goals == WithTag(goS, Goal)
  {
    controls := [];
    goals := [];
    for k := 0 to |goS|
      invariant controls == WithTag(goS[..k], Hint)
      invariant goals == WithTag(goS[..k], Goal)
    {
      assert goS[..k + 1][..k] == goS[..k];
      var go := goS[k];
      if go.tag == Hint {
        controls := controls + [go];
      } else if go.tag == Goal {
        goals := goals + [go];
      }
    }
    assert goS[..|goS|] == goS;
  }

  /** The number of path objects (Hints and Goals) in a list. */
  function CountOnPath(s: seq<Placed>): nat {
    if |s| == 0 then 0
    else CountOnPath(s[..|s| - 1]) + (if OnPath(s[|s| - 1].tag) then 1 else 0)
  }

  /** Every path object lands in exactly one of the two lists. */
  lemma {:induction false} CountOnPathSplit(s: seq<Placed>)
    ensures |WithTag(s, Hint)| + |WithTag(s, Goal)| == CountOnPath(s)
  {
    if |s| > 0 {
      CountOnPathSplit(s[..|s| - 1]);
    }
  }

  /** The helper that opens the first segment: id 0, at the height of the
      first goal, above `origin` (the phone uses the world origin, the
      desktop the player's start marker). */
  function StartHelper(goal0: Placed, origin: Point): (h: Placed)
    ensures h.id == 0 && !OnPath(h.tag)
    ensures h.pos.y == goal0.pos.y && h.pos.x == origin.x && h.pos.z == origin.z
  {
    Placed(0, Untagged, 0, Point(origin.x, goal0.pos.y, origin.z))
  }

  /** The lower id bound of segment j. */
  function Lo(goals: seq<Placed>, j: nat): int
    requires j < |goals|
  {
    if j == 0 then 0 else goals[j - 1].id
  }

  /** A hint with id `h` belongs to segment j. */
  predicate InSegment(goals: seq<Placed>, j: nat, h: int)
    requires j < |goals|
  {
    Lo(goals, j) < h < goals[j].id
  }

  /** The controls whose id lies strictly between `lo` and `hi`, in order. */
  function Between(cs: seq<Placed>, lo: int, hi: int): (r: seq<Placed>)
    ensures forall x :: x in r <==> x in cs && lo < x.id < hi
  {
    if |cs| == 0 then []
    else
      var init := Between(cs[..|cs| - 1], lo, hi);
      var c := cs[|cs| - 1];
      assert cs == cs[..|cs| - 1] + [c];
      if lo < c.id < hi then init + [c] else init
  }

  /** The `foreach (var control in controls)` loop that builds `inBetween`:
      every control in range is added and the list re-sorted by id. */
  function Gather(start: Placed, cs: seq<Placed>, lo: int, hi: int): seq<Placed> {
    if |cs| == 0 then [start]
    else
      var prev := Gather(start, cs[..|cs| - 1], lo, hi);
      var c := cs[|cs| - 1];
      if lo < c.id < hi then SortById(prev + [c]) else prev
  }

  /** The point list of segment j: the previous goal (or the start helper),
      the gathered controls, and goal j. */
  function SegmentList(goals: seq<Placed>, controls: seq<Placed>, origin: Point, j: nat): seq<Placed>
    requires j < |goals|
  {
    var start := if j > 0 then goals[j - 1] else StartHelper(goals[0], origin);
    Gather(start, controls, start.id, goals[j].id) + [goals[j]]
  }

  /** Re-sorting after every insertion amounts to one sort after the start. */
  lemma {:induction false} GatherIsSorted(start: Placed, cs: seq<Placed>, lo: int, hi: int)
    requires start.id <= lo
    ensures Gather(start, cs, lo, hi) == [start] + SortById(Between(cs, lo, hi))
  {
    if |cs| > 0 {
      var init := cs[..|cs| - 1];
      var c := cs[|cs| - 1];
      GatherIsSorted(start, init, lo, hi);
      var b := Between(init, lo, hi);
      if lo < c.id < hi {
        assert Between(cs, lo, hi) == b + [c];
        ResortAfterStart(start, b, c, lo);
      }
    }
  }

  /** Adding one control to [start] + sorted and re-sorting. */
  lemma ResortAfterStart(start: Placed, b: seq<Placed>, c: Placed, lo: int)
    requires start.id <= lo < c.id
    requires forall x :: x in b ==> lo < x.id
    ensures SortById([start] + SortById(b) + [c]) == [start] + SortById(b + [c])
  {
    var sb := SortById(b);
    var prev := [start] + sb;
    assert forall x :: x in sb ==> x in multiset(b);
    StartFirstSorted(start, sb, lo);
    SortSorted(prev);
    SortAppend(prev, c);
    SortAppend(b, c);
    InsertAfterHead(start, sb, c);
  }

  /** An element no smaller than the head is inserted into the tail. */
  lemma InsertAfterHead(start: Placed, s: seq<Placed>, c: Placed)
    requires SortedById([start] + s) && start.id <= c.id
    ensures SortedById(s)
    ensures Insert(c, [start] + s) == [start] + Insert(c, s)
  {
    var prev := [start] + s;
    assert prev[1..] == s;
    assert forall i, j :: 0 <= i < j < |s| ==> s[i] == prev[i + 1] && s[j] == prev[j + 1];
  }

  lemma SortAppend(x: seq<Placed>, c: Placed)
    ensures SortById(x + [c]) == Insert(c, SortById(x))
  {
    assert (x + [c])[..|x|] == x;
  }

  lemma StartFirstSorted(start: Placed, s: seq<Placed>, lo: int)
    requires SortedById(s)
    requires start.id <= lo
    requires forall x :: x in s ==> lo < x.id
    ensures SortedById([start] + s)
  {
    var r := [start] + s;
    forall i, j | 0 <= i < j < |r|
      ensures r[i].id <= r[j].id
    {
      if i == 0 {
        assert r[j] in s;
      }
    }
  }

  /** Segment j is [start, every control with id strictly between start.id
      and goals[j].id in ascending id order, goals[j]]. */
  lemma SegmentShape(goals: seq<Placed>, controls: seq<Placed>, origin: Point, j: nat)
    requires j < |goals|
    ensures var start := if j > 0 then goals[j - 1] else StartHelper(goals[0], origin);
            var mid := SortById(Between(controls, start.id, goals[j].id));
            && SegmentList(goals, controls, origin, j) == [start] + mid + [goals[j]]
            && SortedById(mid)
            && (forall x :: x in mid <==> x in controls && start.id < x.id < goals[j].id)
  {
    var start := if j > 0 then goals[j - 1] else StartHelper(goals[0], origin);
    GatherIsSorted(start, controls, start.id, goals[j].id);
    var b := Between(controls, start.id, goals[j].id);
    assert forall x :: x in SortById(b) <==> x in multiset(b);
  }

  predicate StrictlyIncreasing(goals: seq<Placed>) {
    forall i, j :: 0 <= i < j < |goals| ==> goals[i].id < goals[j].id
  }

  /** With strictly increasing goal ids, an id in (0, last goal id) that is no
      goal's id falls in exactly one segment. */
  lemma {:induction false} ExactlyOneSegment(goals: seq<Placed>, h: int)
    requires |goals| > 0
    requires StrictlyIncreasing(goals)
    requires 0 < h < goals[|goals| - 1].id
    requires forall j :: 0 <= j < |goals| ==> goals[j].id != h
    ensures exists j :: 0 <= j < |goals| && InSegment(goals, j, h)
    ensures forall j1, j2 :: (0 <= j1 < |goals| && 0 <= j2 < |goals|
              && InSegment(goals, j1, h) && InSegment(goals, j2, h)) ==> j1 == j2
  {
    var j := FirstAbove(goals, h, 0);
    assert InSegment(goals, j, h);
    forall j1, j2 | 0 <= j1 < |goals| && 0 <= j2 < |goals|
        && InSegment(goals, j1, h) && InSegment(goals, j2, h)
      ensures j1 == j2
    {
      LoOrder(goals, j1, j2);
      LoOrder(goals, j2, j1);
    }
  }

  lemma LoOrder(goals: seq<Placed>, j1: nat, j2: nat)
    requires j1 < |goals| && j2 < |goals|
    requires StrictlyIncreasing(goals)
    ensures j1 < j2 ==> goals[j1].id <= Lo(goals, j2)
  {
  }

  /** The first goal from index `from` on whose id exceeds h. */
  function FirstAbove(goals: seq<Placed>, h: int, from: nat): (j: nat)
    requires from < |goals|
    requires h < goals[|goals| - 1].id
    requires StrictlyIncreasing(goals)
    requires 0 < h
    requires forall k :: 0 <= k < |goals| ==> goals[k].id != h
    requires from == 0 || goals[from - 1].id < h
    ensures from <= j < |goals| && InSegment(goals, j, h)
    decreases |goals| - from
  {
    if h < goals[from].id then from else FirstAbove(goals, h, from + 1)
  }

  /** A hint is drawn in segment j exactly when its id is in that segment's
      range; with increasing goal ids, each such hint is drawn exactly once. */
  lemma HintInExactlyOneSegment(goals: seq<Placed>, controls: seq<Placed>, origin: Point, c: Placed)
    requires |goals| > 0
    requires StrictlyIncreasing(goals)
    requires forall g :: g in goals ==> g.tag == Goal
    requires c in controls && c.tag == Hint
    requires 0 < c.id < goals[|goals| - 1].id
    requires forall j :: 0 <= j < |goals| ==> goals[j].id != c.id
    ensures forall j :: 0 <= j < |goals| ==> (c in SegmentList(goals, controls, origin, j) <==> InSegment(goals, j, c.id))
    ensures exists j :: 0 <= j < |goals| && c in SegmentList(goals, controls, origin, j)
    ensures forall j1, j2 :: (0 <= j1 < |goals| && 0 <= j2 < |goals|
              && c in SegmentList(goals, controls, origin, j1)
              && c in SegmentList(goals, controls, origin, j2)) ==> j1 == j2
  {
    forall j | 0 <= j < |goals|
      ensures c in SegmentList(goals, controls, origin, j) <==> InSegment(goals, j, c.id)
    {
      HintInSegmentIff(goals, controls, origin, c, j);
    }
    ExactlyOneSegment(goals, c.id);
  }

  lemma HintInSegmentIff(goals: seq<Placed>, controls: seq<Placed>, origin: Point, c: Placed, j: nat)
    requires j < |goals|
    requires forall g :: g in goals ==> g.tag == Goal
    requires c in controls && c.tag == Hint
    ensures c in SegmentList(goals, controls, origin, j) <==> InSegment(goals, j, c.id)
  {
    SegmentShape(goals, controls, origin, j);
    assert goals[j] in goals;
    if j > 0 {
      assert goals[j - 1] in goals;
    }
  }

  /** Sample i (1..numPoints) of segment j: the Bézier point at i/numPoints. */
  function Sample(goals: seq<Placed>, controls: seq<Placed>, origin: Point, numPoints: nat, j: nat, i: nat): Point
    requires j < |goals|
    requires 1 <= i <= numPoints
  {
    var seg := SegmentList(goals, controls, origin, j);
    Bezier.Evaluate(i as real / numPoints as real, PositionsOf(seg))
  }

  function PositionsOf(s: seq<Placed>): (r: seq<Point>)
    ensures |r| == |s|
    ensures forall k :: 0 <= k < |s| ==> r[k] == s[k].pos
  {
    if |s| == 0 then [] else PositionsOf(s[..|s| - 1]) + [s[|s| - 1].pos]
  }

  lemma MulMono(a: int, b: int, n: nat)
    ensures a <= b ==> a * n <= b * n
  {
    if a <= b {
      assert b * n - a * n == (b - a) * n;
    }
  }

  lemma DivMod(j: nat, r: nat, n: nat)
    requires r < n
    ensures (j * n + r) / n == j && (j * n + r) % n == r
  {
    var x := j * n + r;
    var q := x / n;
    assert x == q * n + x % n;
    MulMono(j + 1, q, n);
    MulMono(q + 1, j, n);
    assert (j + 1) * n == j * n + n;
    assert (q + 1) * n == q * n + n;
  }

  /** The sample at flat position k of the line. */
  function SampleAt(goals: seq<Placed>, controls: seq<Placed>, origin: Point, numPoints: nat, k: nat): Point
    requires numPoints >= 1
    requires k / numPoints < |goals|
  {
    Sample(goals, controls, origin, numPoints, k / numPoints, k % numPoints + 1)
  }

  /** `DrawNCurve(m)`: numPoints samples per segment, written at slot
      (i - 1) + j * numPoints; the segment start itself is never emitted. */
  method DrawNCurve(goals: seq<Placed>, controls: seq<Placed>, origin: Point, numPoints: nat, m: nat)
    returns (positions: seq<Point>)
    requires m <= |goals|
    ensures |positions| == numPoints * m
    ensures numPoints >= 1 ==> forall k :: 0 <= k < |positions| ==>
              k / numPoints < m && positions[k] == SampleAt(goals, controls, origin, numPoints, k)
  {
    positions := [];
    for j := 0 to m
      invariant |positions| == j * numPoints
      invariant numPoints >= 1 ==> forall k :: 0 <= k < |positions| ==>
                  k / numPoints < j && positions[k] == SampleAt(goals, controls, origin, numPoints, k)
    {
      var before := positions;
      positions := DrawSegment(goals, controls, origin, numPoints, j, positions);
      assert (j + 1) * numPoints == j * numPoints + numPoints;
      if numPoints >= 1 {
        forall k | |before| <= k < |positions|
          ensures k / numPoints == j
          ensures positions[k] == SampleAt(goals, controls, origin, numPoints, k)
        {
          DivMod(j, k - |before|, numPoints);
        }
      }
    }
  }

  /** The inner loop of `DrawNCurve` for segment j: samples i = 1..numPoints
      at t = i / numPoints, appended after the earlier segments. */
  method DrawSegment(goals: seq<Placed>, controls: seq<Placed>, origin: Point, numPoints: nat, j: nat,
                     before: seq<Point>) returns (positions: seq<Point>)
    requires j < |goals|
    ensures |positions| == |before| + numPoints
    ensures positions[..|before|] == before
    ensures forall i :: 1 <= i <= numPoints ==>
              positions[|before| + i - 1] == Sample(goals, controls, origin, numPoints, j, i)
  {
    var inBetween := SegmentList(goals, controls, origin, j);
    var pts := PositionsOf(inBetween);
    positions := before;
    for i := 1 to numPoints + 1
      invariant |positions| == |before| + i - 1
      invariant positions[..|before|] == before
      invariant forall i' :: 1 <= i' < i ==>
                  positions[|before| + i' - 1] == Sample(goals, controls, origin, numPoints, j, i')
    {
      var t := i as real / numPoints as real;
      var p := Bezier.CalculateNBezierPoint(t, |pts| - 1, pts);
      assert pts[..|pts|] == pts;
      positions := positions + [p];
    }
  }

  /** Slot (i - 1) + j * numPoints holds sample i of segment j. */
  lemma SlotOfSample(goals: seq<Placed>, controls: seq<Placed>, origin: Point, numPoints: nat, m: nat,
                     positions: seq<Point>, j: nat, i: nat)
    requires m <= |goals|
    requires |positions| == numPoints * m
    requires forall k :: 0 <= k < |positions| ==>
               k / numPoints < m && positions[k] == SampleAt(goals, controls, origin, numPoints, k)
    requires j < m && 1 <= i <= numPoints
    ensures (i - 1) + j * numPoints < |positions|
    ensures positions[(i - 1) + j * numPoints] == Sample(goals, controls, origin, numPoints, j, i)
  {
    var k := (i - 1) + j * numPoints;
    SlotBound(j, i - 1, m, numPoints);
    SampleAtSlot(goals, controls, origin, numPoints, j, i);
    assert positions[k] == SampleAt(goals, controls, origin, numPoints, k);
  }

  lemma SampleAtSlot(goals: seq<Placed>, controls: seq<Placed>, origin: Point, numPoints: nat, j: nat, i: nat)
    requires j < |goals| && 1 <= i <= numPoints
    ensures ((i - 1) + j * numPoints) / numPoints == j
    ensures SampleAt(goals, controls, origin, numPoints, (i - 1) + j * numPoints) ==
            Sample(goals, controls, origin, numPoints, j, i)
  {
    DivMod(j, i - 1, numPoints);
  }

  lemma SlotBound(j: nat, r: nat, m: nat, n: nat)
    requires j < m && r < n
    ensures r + j * n < n * m
  {
    MulMono(j + 1, m, n);
    assert (j + 1) * n == j * n + n;
    assert m * n == n * m;
  }

  /** The last sample of segment j is goal j itself. */
  lemma LastSampleIsGoal(goals: seq<Placed>, controls: seq<Placed>, origin: Point, numPoints: nat, j: nat)
    requires j < |goals|
    requires numPoints >= 1
    ensures Sample(goals, controls, origin, numPoints, j, numPoints) == goals[j].pos
  {
    var seg := SegmentList(goals, controls, origin, j);
    assert numPoints as real / numPoints as real == 1.0;
    Bezier.EndsAtLast(PositionsOf(seg));
  }
}
