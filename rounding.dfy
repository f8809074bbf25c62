/** Decimal rounding to a fixed number of digits after the point, half up.
    A value rounded to precision `p` is represented by the integer count of
    least units (units of 10^-p) it stands for. */
module Rounding {

  /** 10^p, the number of least units in one whole unit at precision p. */
  function Pow10(p: nat): (r: nat)
    ensures r >= 1
  {
    if p == 0 then 1 else 10 * Pow10(p - 1)
  }

  /** `x` measured in least units at precision p: x * 10^p. */
  function Scale(x: real, p: nat): real
  {
    x * Pow10(p) as real
  }

  /** The value of `k` least units at precision `p`. */
  function OnGrid(k: int, p: nat): (v: real)
    ensures Scale(v, p) == k as real
  {
    k as real / Pow10(p) as real
  }

  /** Half of one least unit at precision p. */
  function HalfUnit(p: nat): (h: real)
    ensures h > 0.0 && Scale(h, p) == 0.5 && Scale(-h, p) == -0.5
  {
    0.5 / Pow10(p) as real
  }

  /** Rounds `x` to `p` digits: to the nearest multiple of 10^-p, a tie going up.
      The result is the number of least units, the integer k with
      k - 1/2 <= x * 10^p < k + 1/2. */
  function RoundHalfUp(x: real, p: nat): (k: int)
    ensures k as real - 0.5 <= Scale(x, p) < k as real + 0.5
  {
    (Scale(x, p) + 0.5).Floor
  }

  /** The characterisation of RoundHalfUp in the other direction: any integer
      within [-1/2, +1/2) of x * 10^p is the rounded result. */
  lemma RoundHalfUpUnique(x: real, p: nat, k: int)
    requires k as real - 0.5 <= Scale(x, p) < k as real + 0.5
    ensures RoundHalfUp(x, p) == k
  {
    var r := RoundHalfUp(x, p);
    assert r - 1 < k < r + 1 by {
      assert r as real - 1.0 < k as real < r as real + 1.0;
    }
  }

  /** Measuring in least units keeps the order, both ways. */
  lemma ScaleOrder(a: real, b: real, p: nat)
    ensures a < b <==> Scale(a, p) < Scale(b, p)
    ensures a <= b <==> Scale(a, p) <= Scale(b, p)
  {
    var s := Pow10(p) as real;
    if a < b {
      assert (b - a) * s > 0.0;
    } else {
      assert (a - b) * s >= 0.0;
    }
  }

  /** Measuring in least units is additive. */
  lemma ScaleAdd(a: real, b: real, p: nat)
    ensures Scale(a + b, p) == Scale(a, p) + Scale(b, p)
    ensures Scale(a - b, p) == Scale(a, p) - Scale(b, p)
  {
  }

  /** The rounded value is within half a least unit of the raw value:
      below it by less than half a unit, above it by at most half a unit. */
  lemma RoundHalfUpError(x: real, p: nat)
    ensures -HalfUnit(p) < OnGrid(RoundHalfUp(x, p), p) - x <= HalfUnit(p)
  {
    var h := HalfUnit(p);
    var d := OnGrid(RoundHalfUp(x, p), p) - x;
    ScaleAdd(OnGrid(RoundHalfUp(x, p), p), x, p);
    ScaleOrder(d, h, p);
    ScaleOrder(-h, d, p);
  }

  /** A value already at precision p is left unchanged: rounding is the
      identity on the grid, hence idempotent. */
  lemma RoundOnGrid(k: int, p: nat)
    ensures RoundHalfUp(OnGrid(k, p), p) == k
  {
    RoundHalfUpUnique(OnGrid(k, p), p, k);
  }

  /** A tie, exactly half a least unit above k units, rounds up to k + 1. */
  lemma RoundTieGoesUp(k: int, p: nat)
    ensures RoundHalfUp(OnGrid(k, p) + HalfUnit(p), p) == k + 1
  {
    ScaleAdd(OnGrid(k, p), HalfUnit(p), p);
    RoundHalfUpUnique(OnGrid(k, p) + HalfUnit(p), p, k + 1);
  }

  /** Any value strictly less than half a least unit in size rounds to zero
      (minus half a least unit is a tie and also goes up, to zero). */
  lemma RoundBelowHalfUnit(x: real, p: nat)
    requires -HalfUnit(p) <= x < HalfUnit(p)
    ensures RoundHalfUp(x, p) == 0
  {
    ScaleOrder(x, HalfUnit(p), p);
    ScaleOrder(-HalfUnit(p), x, p);
    RoundHalfUpUnique(x, p, 0);
  }

  /** Rounding is monotone: a larger raw value never rounds to fewer units. */
  lemma RoundMonotone(x: real, y: real, p: nat)
    requires x <= y
    ensures RoundHalfUp(x, p) <= RoundHalfUp(y, p)
  {
    ScaleOrder(x, y, p);
  }

  /** The distance of x from zero. */
  function Abs(x: real): real
  {
    if x < 0.0 then -x else x
  }

  /** Distances measured in least units. */
  lemma ScaleAbs(d: real, p: nat)
    ensures Scale(Abs(d), p) == Abs(Scale(d, p))
  {
    ScaleOrder(d, 0.0, p);
  }

  /** RoundHalfUp picks a nearest grid point: no k units lie closer to x, and
      a grid point as close as the result but different from it lies below it
      (a tie goes up). */
  lemma RoundIsNearest(x: real, p: nat, k: int)
    ensures Abs(OnGrid(RoundHalfUp(x, p), p) - x) <= Abs(OnGrid(k, p) - x)
    ensures Abs(OnGrid(RoundHalfUp(x, p), p) - x) == Abs(OnGrid(k, p) - x) ==> k <= RoundHalfUp(x, p)
  {
    var r := RoundHalfUp(x, p);
    var dr, dk := OnGrid(r, p) - x, OnGrid(k, p) - x;
    ScaleAdd(OnGrid(r, p), x, p);
    ScaleAdd(OnGrid(k, p), x, p);
    ScaleAbs(dr, p);
    ScaleAbs(dk, p);
    ScaleOrder(Abs(dr), Abs(dk), p);
    assert k <= r - 1 || k == r || k >= r + 1;
  }

  /** Two grid points are equal exactly when their unit counts are. */
  lemma OnGridInjective(j: int, k: int, p: nat)
    ensures OnGrid(j, p) == OnGrid(k, p) <==> j == k
  {
  }

  /** Grid values add exactly: j units plus k units is j + k units. */
  lemma OnGridAdd(j: int, k: int, p: nat)
    ensures OnGrid(j, p) + OnGrid(k, p) == OnGrid(j + k, p)
  {
  }

  /** A whole number n is n * 10^p least units. */
  lemma OnGridWhole(n: int, p: nat)
    ensures OnGrid(n * Pow10(p), p) == n as real
  {
    var s := Pow10(p) as real;
    assert (n * Pow10(p)) as real == n as real * s;
  }
}
