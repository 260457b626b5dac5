/** The N-degree Bézier evaluation shared by the phone and the desktop
    applications: `binomialCoeffienct`, `CalculateNBezierPoint` and the
    `Mathf.Pow` it relies on, over exact reals. */
module Bezier {
  import opened Geometry

  /** `Mathf.Pow` for a natural exponent. */
  function Pow(b: real, e: nat): real {
    if e == 0 then 1.0 else b * Pow(b, e - 1)
  }

  function Fact(n: nat): (r: nat)
    ensures r >= 1
  {
    if n == 0 then 1 else n * Fact(n - 1)
  }

  /** `binomialCoeffienct`: 0 above the diagonal, 1 on the borders, and the
      Pascal sum elsewhere. The original takes C# ints; every call passes
      0 <= j <= n, and a negative argument would recurse without end, so the
      model takes naturals. */
  function Binomial(n: nat, k: nat): (c: nat)
    ensures k <= n ==> c >= 1
    decreases n
  {
    if k > n then 0
    else if k == 0 || k == n then 1
    else Binomial(n - 1, k - 1) + Binomial(n - 1, k)
  }

  /** The recursion computes n! / (k! (n-k)!). */
  lemma {:induction false} BinomialFactorial(n: nat, k: nat)
    requires k <= n
    ensures Binomial(n, k) * Fact(k) * Fact(n - k) == Fact(n)
    decreases n
  {
    if k == 0 || k == n {
    } else {
      var m := n - k;
      BinomialFactorial(n - 1, k - 1);
      BinomialFactorial(n - 1, k);
      assert n - 1 - (k - 1) == m;
      assert n - 1 - k == m - 1;
      PascalArith(Binomial(n - 1, k - 1), Binomial(n - 1, k), k, m,
                  Fact(k - 1), Fact(m - 1), Fact(n - 1));
    }
  }

  /** The arithmetic step of the induction above, on plain integers. */
  lemma PascalArith(a: int, b: int, k: int, m: int, fk1: int, fm1: int, fn1: int)
    requires a * fk1 * (m * fm1) == fn1
    requires b * (k * fk1) * fm1 == fn1
    ensures (a + b) * (k * fk1) * (m * fm1) == (k + m) * fn1
  {
    assert (a + b) * (k * fk1) * (m * fm1)
        == k * (a * fk1 * (m * fm1)) + m * (b * (k * fk1) * fm1);
  }

  /** C(n, k) = C(n, n - k). */
  lemma {:induction false} BinomialSymmetric(n: nat, k: nat)
    requires k <= n
    ensures Binomial(n, k) == Binomial(n, n - k)
    decreases n
  {
    if k == 0 || k == n {
    } else {
      BinomialSymmetric(n - 1, k - 1);
      BinomialSymmetric(n - 1, k);
      assert n - 1 - (k - 1) == n - k;
      assert n - 1 - k == n - k - 1;
    }
  }

  /** The weight `result * Mathf.Pow(1 - t, n - j) * Mathf.Pow(t, j)` of
      point j in a curve of degree n. */
  function Weight(n: nat, j: nat, t: real): real
    requires j <= n
  {
    Binomial(n, j) as real * Pow(1.0 - t, n - j) * Pow(t, j)
  }

  /** Term j of the Bernstein sum over `pts`, of degree |pts| - 1. */
  function Term(t: real, pts: seq<Point>, j: nat): Point
    requires 1 <= j < |pts|
  {
    Scale(Weight(|pts| - 1, j, t), pts[j])
  }

  /** The running value `p` after the loop of `CalculateNBezierPoint` has
      added terms 1..k. */
  function Partial(t: real, pts: seq<Point>, k: nat): Point
    requires k < |pts|
  {
    if k == 0 then Scale(Pow(1.0 - t, |pts| - 1), pts[0])
    else Add(Partial(t, pts, k - 1), Term(t, pts, k))
  }

  /** The Bézier point of the control list at parameter t. */
  function Evaluate(t: real, pts: seq<Point>): Point
    requires |pts| >= 1
  {
    Partial(t, pts, |pts| - 1)
  }

  /** `CalculateNBezierPoint(t, n, list)`: uses list[0..n]. */
  method CalculateNBezierPoint(t: real, n: nat, list: seq<Point>) returns (p: Point)
    requires n < |list|
    ensures p == Evaluate(t, list[..n + 1])
    ensures t == 0.0 ==> p == list[0]
    ensures t == 1.0 ==> p == list[n]
  {
    var pts := list[..n + 1];
    p := Scale(Pow(1.0 - t, n), list[0]);
    var j := 1;
    while j <= n
      invariant 1 <= j <= n + 1
      invariant p == Partial(t, pts, j - 1)
    {
      assert |pts| - 1 == n && pts[j] == list[j];
      p := Add(p, Scale(Weight(n, j, t), list[j]));
      j := j + 1;
    }
    if t == 0.0 {
      StartsAtFirst(pts);
    }
    if t == 1.0 {
      EndsAtLast(pts);
    }
  }

  lemma PowOne(e: nat)
    ensures Pow(1.0, e) == 1.0
  {
  }

  lemma PowZero(e: nat)
    requires e >= 1
    ensures Pow(0.0, e) == 0.0
  {
  }

  /** Every running value at t = 0 is the first control point. */
  lemma {:induction false} PartialAtZero(pts: seq<Point>, k: nat)
    requires k < |pts|
    ensures Partial(0.0, pts, k) == pts[0]
  {
    if k == 0 {
      PowOne(|pts| - 1);
    } else {
      PartialAtZero(pts, k - 1);
      PowZero(k);
    }
  }

  /** At t = 0 the curve starts at the first point of the list. */
  lemma StartsAtFirst(pts: seq<Point>)
    requires |pts| >= 1
    ensures Evaluate(0.0, pts) == pts[0]
  {
    PartialAtZero(pts, |pts| - 1);
  }

  /** At t = 1 every term but the last vanishes. */
  lemma {:induction false} PartialAtOne(pts: seq<Point>, k: nat)
    requires k < |pts| - 1
    ensures Partial(1.0, pts, k) == Zero
  {
    if k == 0 {
      PowZero(|pts| - 1);
    } else {
      PartialAtOne(pts, k - 1);
      PowZero(|pts| - 1 - k);
    }
  }

  /** At t = 1 the curve ends at the last point of the list. */
  lemma EndsAtLast(pts: seq<Point>)
    requires |pts| >= 1
    ensures Evaluate(1.0, pts) == pts[|pts| - 1]
  {
    var n := |pts| - 1;
    if n > 0 {
      PartialAtOne(pts, n - 1);
      PowOne(n);
      assert Weight(n, n, 1.0) == 1.0;
      assert Term(1.0, pts, n) == pts[n];
    }
  }

  /** Two points give the straight segment (1 - t) P0 + t P1. */
  lemma Linear(t: real, p0: Point, p1: Point)
    ensures Evaluate(t, [p0, p1]) == Add(Scale(1.0 - t, p0), Scale(t, p1))
  {
    var pts := [p0, p1];
    assert Pow(t, 1) == t;
    assert Weight(1, 1, t) == t;
    assert Term(t, pts, 1) == Scale(t, p1);
    assert Partial(t, pts, 0) == Scale(1.0 - t, p0);
  }
}
