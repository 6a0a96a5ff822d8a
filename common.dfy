/** Small building blocks shared by the modules of the model: an Option type for
    the nullable columns of the data store, powers of two, and the integer form of
    JavaScript's `Math.round(n / d)` used by every utilisation figure. */
module Common {

  /** A nullable value (SQL NULL / JavaScript null or undefined). */
  datatype Option<T> = None | Some(value: T)

  /** 2^k. */
  function Pow2(k: nat): (r: nat)
    ensures r >= 1
    ensures k >= 1 ==> r >= 2
  {
    if k == 0 then 1 else 2 * Pow2(k - 1)
  }

  lemma {:induction false} Pow2Monotone(j: nat, k: nat)
    requires j <= k
    ensures Pow2(j) <= Pow2(k)
    decreases k
  {
    if j < k {
      Pow2Monotone(j, k - 1);
    }
  }

  /** `Math.round(n / d)` computed without floating point: the integer r with
      r - 1/2 <= n/d < r + 1/2 (ties go up, as Math.round does). */
  function RoundDiv(n: int, d: int): (r: int)
    requires d != 0
    ensures d > 0 ==> (2 * r - 1) * d <= 2 * n < (2 * r + 1) * d
    ensures d < 0 ==> (2 * r - 1) * d >= 2 * n > (2 * r + 1) * d
  {
    if d > 0 then (2 * n + d) / (2 * d) else (-2 * n - d) / (-2 * d)
  }

  /** `Math.round(x / y * 100)`: a percentage rounded to the nearest integer. */
  function Percent(x: int, y: int): int
    requires y != 0
  {
    RoundDiv(100 * x, y)
  }

  /** A share of a positive whole is a percentage between 0 and 100. */
  lemma PercentBounds(x: int, y: int)
    requires 0 <= x <= y && y > 0
    ensures 0 <= Percent(x, y) <= 100
  {
    var r := Percent(x, y);
    assert (2 * r - 1) * y <= 200 * x <= 200 * y;
    assert 0 <= 200 * x < (2 * r + 1) * y;
    CancelPositive(2 * r - 1, 200, y);
    CancelPositive(0, 2 * r + 1, y);
  }

  /** Nothing of a positive whole is zero percent. */
  lemma PercentOfNothing(y: int)
    requires y > 0
    ensures Percent(0, y) == 0
  {
    var r := Percent(0, y);
    CancelPositive(2 * r - 1, 0, y);
    CancelPositive(0, 2 * r + 1, y);
  }

  /** Dividing both sides of a * c <= b * c by a positive c. */
  lemma CancelPositive(a: int, b: int, c: int)
    requires c > 0
    ensures a * c <= b * c ==> a <= b
    ensures a * c < b * c ==> a < b
  {
    if a > b {
      assert a * c - b * c == (a - b) * c;
    }
    if a >= b {
      assert a * c - b * c == (a - b) * c;
    }
  }

  /** The rounded average of values that all lie in [0, 100] lies in [0, 100]. */
  lemma RoundedAverageBounds(total: int, count: int)
    requires count > 0 && 0 <= total <= 100 * count
    ensures 0 <= RoundDiv(total, count) <= 100
  {
    var r := RoundDiv(total, count);
    assert (2 * r - 1) * count <= 2 * total <= 200 * count;
    assert 0 <= 2 * total < (2 * r + 1) * count;
    CancelPositive(2 * r - 1, 200, count);
    CancelPositive(0, 2 * r + 1, count);
  }
}
