/** The phone's two scoring rules that depend on distances alone: the
    off-road penalty checked every frame, and the bonus a checkpoint earns
    in the static modes. Distances are given as non-negative reals; the
    square roots and the rounding that produce them are not modelled. */
module Rules {

  /** The smallest of `init` and the values in `ds`: the scan that starts
      from a large sentinel and keeps every strictly smaller value. */
  function MinOver(init: real, ds: seq<real>): (m: real)
    ensures m <= init
    ensures forall i :: 0 <= i < |ds| ==> m <= ds[i]
    ensures m == init || exists i :: 0 <= i < |ds| && m == ds[i]
  {
    if |ds| == 0 then init
    else
      var rest := MinOver(init, ds[..|ds| - 1]);
      var d := ds[|ds| - 1];
      assert forall i :: 0 <= i < |ds| - 1 ==> ds[..|ds| - 1][i] == ds[i];
      if d < rest then d else rest
  }

  /** The sentinels the two scans start from. */
  const LineSentinel: real := 999999.0
  const DodgeSentinel: real := 99999.0

  /** Within this distance of a dodge object a frame is exempt. */
  const DodgeRadius: real := 2.2
  /** From this distance to the route on, the player is off the road. */
  const RoadHalfWidth: real := 0.75
  /** The off-road penalty. */
  const OffRoadPenalty: int := 50

  /** What one frame of `Update` looks at: whether a route is drawn, whether
      a spotlight check is pending (`IsInvoking("Lookaway")`), the distances
      to the Dodge objects and to the route's points. */
  datatype Frame = Frame(hasLine: bool, lookaway: bool, dodgeDists: seq<real>, lineDists: seq<real>)

  /** The frame does not count: a spotlight check is pending or a dodge
      object is close. */
  predicate Exempt(f: Frame) {
    f.lookaway || MinOver(DodgeSentinel, f.dodgeDists) < DodgeRadius
  }

  /** The frame is off the road. */
  predicate Far(f: Frame) {
    MinOver(LineSentinel, f.lineDists) >= RoadHalfWidth
  }

  /** The off-road block for one frame: (penalty charged, new flag). */
  function OffRoadStep(outOfRoad: bool, f: Frame): (r: (bool, bool))
    ensures r.0 <==> f.hasLine && !Exempt(f) && Far(f) && !outOfRoad
    ensures r.0 ==> r.1
    ensures !f.hasLine ==> r.1 == outOfRoad
    ensures f.hasLine && Exempt(f) ==> r.1
    ensures f.hasLine && !Exempt(f) ==> (r.1 <==> Far(f))
  {
    if !f.hasLine then (false, outOfRoad)
    else if !f.lookaway && !(MinOver(DodgeSentinel, f.dodgeDists) < DodgeRadius) then
      if MinOver(LineSentinel, f.lineDists) >= RoadHalfWidth then
        if !outOfRoad then (true, true) else (false, outOfRoad)
      else (false, false)
    else (false, true)
  }

  /** A frame that brings the player back onto the road. */
  predicate Clears(f: Frame) {
    f.hasLine && !Exempt(f) && !Far(f)
  }

  /** A run of frames: the number of penalties and the final flag. */
  function Run(outOfRoad: bool, frames: seq<Frame>): (r: (nat, bool))
    decreases |frames|
  {
    if |frames| == 0 then (0, outOfRoad)
    else
      var s := OffRoadStep(outOfRoad, frames[0]);
      var rest := Run(s.1, frames[1..]);
      (rest.0 + (if s.0 then 1 else 0), rest.1)
  }

  /** Number of frames that clear the flag. */
  function ClearCount(frames: seq<Frame>): nat {
    if |frames| == 0 then 0 else (if Clears(frames[0]) then 1 else 0) + ClearCount(frames[1..])
  }

  function Clear(b: bool): nat {
    if b then 0 else 1
  }

  /** Once per excursion: every penalty after the first needs a frame back
      on the road since the previous one, so the penalties number at most
      the returns to the road, plus one when the run starts on the road. */
  lemma {:induction false} OncePerExcursion(outOfRoad: bool, frames: seq<Frame>)
    ensures Run(outOfRoad, frames).0 + Clear(Run(outOfRoad, frames).1) <= ClearCount(frames) + Clear(outOfRoad)
    decreases |frames|
  {
    if |frames| > 0 {
      var s := OffRoadStep(outOfRoad, frames[0]);
      OncePerExcursion(s.1, frames[1..]);
    }
  }

  /** The score after the run: fifty off per penalty. */
  function ScoreAfterRun(score: int, outOfRoad: bool, frames: seq<Frame>): (r: int)
    ensures r <= score
    ensures r == score - OffRoadPenalty * Run(outOfRoad, frames).0
    ensures score - r <= OffRoadPenalty * (ClearCount(frames) + Clear(outOfRoad))
  {
    OncePerExcursion(outOfRoad, frames);
    score - OffRoadPenalty * Run(outOfRoad, frames).0
  }

  /** A run with no frame back on the road costs at most one penalty, and
      none when it starts off the road. */
  lemma OneExcursionOnePenalty(outOfRoad: bool, frames: seq<Frame>)
    requires forall i :: 0 <= i < |frames| ==> !Clears(frames[i])
    ensures Run(outOfRoad, frames).0 <= Clear(outOfRoad)
  {
    NoClears(frames);
    OncePerExcursion(outOfRoad, frames);
  }

  lemma {:induction false} NoClears(frames: seq<Frame>)
    requires forall i :: 0 <= i < |frames| ==> !Clears(frames[i])
    ensures ClearCount(frames) == 0
    decreases |frames|
  {
    if |frames| > 0 {
      assert forall i :: 0 <= i < |frames| - 1 ==> frames[1..][i] == frames[i + 1];
      NoClears(frames[1..]);
    }
  }

  // ---------------------------------------------------------------------
  // Static checkpoint bonus

  /** The bonus a checkpoint starts from. */
  const BonusStart: int := 500
  /** Samples per route segment. */
  const NumPoints: nat := 50

  /** The deduction for one sample, given its distance to the walked path
      already rounded to one decimal: 10 from 1 on, otherwise the tenths,
      truncated. */
  function Deduction(d: real): (n: int)
    requires d >= 0.0
    ensures 0 <= n <= 10
    ensures d >= 1.0 ==> n == 10
    ensures d < 1.0 ==> n as real <= d * 10.0 < n as real + 1.0
  {
    if d >= 1.0 then 10 else (d * 10.0).Floor
  }

  /** A larger distance never deducts less. */
  lemma DeductionMonotone(d: real, e: real)
    requires 0.0 <= d <= e
    ensures Deduction(d) <= Deduction(e)
  {
  }

  predicate NonNeg(ds: seq<real>) {
    forall i :: 0 <= i < |ds| ==> ds[i] >= 0.0
  }

  /** Sum of the deductions. */
  function Deductions(ds: seq<real>): (n: int)
    requires NonNeg(ds)
    ensures 0 <= n <= 10 * |ds|
  {
    if |ds| == 0 then 0 else Deductions(ds[..|ds| - 1]) + Deduction(ds[|ds| - 1])
  }

  /** What the checkpoint adds to the score in a static mode. */
  function StaticBonus(ds: seq<real>): (b: int)
    requires NonNeg(ds)
    ensures BonusStart - 10 * |ds| <= b <= BonusStart
    ensures |ds| == NumPoints ==> 0 <= b <= BonusStart
  {
    BonusStart - Deductions(ds)
  }

  /** A path walked exactly along the route keeps the whole bonus; one
      walked at least a metre away everywhere earns 500 - 10 per sample. */
  lemma {:induction false} BonusExtremes(ds: seq<real>)
    requires NonNeg(ds)
    ensures (forall i :: 0 <= i < |ds| ==> ds[i] < 0.1) ==> StaticBonus(ds) == BonusStart
    ensures (forall i :: 0 <= i < |ds| ==> ds[i] >= 1.0) ==> StaticBonus(ds) == BonusStart - 10 * |ds|
    decreases |ds|
  {
    if |ds| > 0 {
      BonusExtremes(ds[..|ds| - 1]);
    }
  }

  /** Walking closer at every sample never earns less. */
  lemma {:induction false} BonusMonotone(ds: seq<real>, es: seq<real>)
    requires NonNeg(ds) && |es| == |ds|
    requires forall i :: 0 <= i < |ds| ==> ds[i] <= es[i]
    ensures NonNeg(es)
    ensures StaticBonus(es) <= StaticBonus(ds)
    decreases |ds|
  {
    if |ds| > 0 {
      var n := |ds| - 1;
      BonusMonotone(ds[..n], es[..n]);
      DeductionMonotone(ds[n], es[n]);
    }
  }
}
