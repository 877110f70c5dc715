/** Integer arithmetic as the C++ code performs it, over unbounded integers.

    Dafny's `/` is Euclidean: for a positive divisor it rounds down, which is C++'s `>>`.
    C++'s `/` rounds toward zero and is written `Quot` here. */
module Arithmetic {

  function Abs(a: int): (r: nat)
    ensures r == a || r == -a
  {
    if a < 0 then -a else a
  }

  function Min(a: int, b: int): (r: int)
    ensures r <= a && r <= b && (r == a || r == b)
  {
    if a < b then a else b
  }

  function Max(a: int, b: int): (r: int)
    ensures r >= a && r >= b && (r == a || r == b)
  {
    if a > b then a else b
  }

  /** `1 << n` */
  function Pow2(n: nat): (r: nat)
    ensures r >= 1
  {
    if n == 0 then 1 else 2 * Pow2(n - 1)
  }

  /** C++ integer division: rounds toward zero. */
  function Quot(a: int, b: int): (q: int)
    requires b != 0
    ensures a >= 0 && b > 0 ==> q == a / b
    ensures a <= 0 && b > 0 ==> q == -((-a) / b)
  {
    if b > 0 then
      if a >= 0 then a / b else -((-a) / b)
    else
      if a >= 0 then -(a / (-b)) else (-a) / (-b)
  }

  /** C++ remainder: has the sign of the dividend. */
  function Rem(a: int, b: int): (r: int)
    requires b != 0
  {
    a - b * Quot(a, b)
  }

  /** `a >> n` on a signed integer: rounds down. */
  function Shr(a: int, n: nat): (r: int)
    ensures a >= 0 ==> r >= 0
  {
    DivSign(a, Pow2(n));
    a / Pow2(n)
  }

  /** The `bound` template of utils.h. */
  function Bound(min: int, value: int, max: int): (r: int)
    ensures min <= max ==> min <= r <= max
    ensures min <= value <= max ==> r == value
  {
    if value < min then min else if value > max then max else value
  }

  /** The `mod` template of utils.h. */
  function Mod(value: int, m: int): (r: int)
    requires m != 0
  {
    Rem(Rem(value, m) + m, m)
  }

  lemma DivSign(a: int, d: int)
    requires d > 0
    ensures a >= 0 ==> a / d >= 0
  {
    if a >= 0 {
      DivAtLeast(a, d, 0);
    }
  }

  lemma DivBounds(a: int, d: int)
    requires d > 0
    ensures d * (a / d) <= a < d * (a / d) + d
  {
  }

  lemma DivIs(a: int, d: int, q: int)
    requires d > 0
    requires d * q <= a < d * q + d
    ensures a / d == q
  {
    var e := a / d;
    DivBounds(a, d);
    if e < q {
      MulLe(d, e + 1, q);
    } else if e > q {
      MulLe(d, q + 1, e);
    }
  }

  lemma DivAtLeast(a: int, d: int, q: int)
    requires d > 0
    requires d * q <= a
    ensures q <= a / d
  {
    DivBounds(a, d);
    if a / d < q {
      MulLe(d, a / d + 1, q);
    }
  }

  lemma DivAtMost(a: int, d: int, q: int)
    requires d > 0
    requires a < d * q + d
    ensures a / d <= q
  {
    DivBounds(a, d);
    if q < a / d {
      MulLe(d, q + 1, a / d);
    }
  }

  lemma DivMonotone(a: int, b: int, d: int)
    requires d > 0 && a <= b
    ensures a / d <= b / d
  {
    DivBounds(a, d);
    DivAtLeast(b, d, a / d);
  }

  lemma MulLe(d: int, a: int, b: int)
    requires d >= 0 && a <= b
    ensures d * a <= d * b
  {
  }

  lemma MulNonNeg(a: int, b: int)
    requires a >= 0 && b >= 0
    ensures a * b >= 0
  {
  }

  /** Cancels a positive factor. */
  lemma MulCancelLe(d: int, a: int, b: int)
    requires d > 0
    requires d * a <= d * b
    ensures a <= b
  {
    if a > b {
      MulLe(d, b + 1, a);
    }
  }

  lemma Pow2Add(a: nat, b: nat)
    ensures Pow2(a + b) == Pow2(a) * Pow2(b)
  {
    if a == 0 {
    } else {
      Pow2Add(a - 1, b);
      assert Pow2(a + b) == 2 * Pow2(a - 1 + b);
    }
  }

  lemma Pow2Monotone(a: nat, b: nat)
    requires a <= b
    ensures Pow2(a) <= Pow2(b)
    ensures a < b ==> 2 * Pow2(a) <= Pow2(b)
  {
    if a < b {
      Pow2Monotone(a, b - 1);
    }
  }

  lemma ModRange(value: int, m: int)
    requires m > 0
    ensures 0 <= Mod(value, m) < m
    ensures 0 <= value < m ==> Mod(value, m) == value
  {
    var r := Rem(value, m);
    if value >= 0 {
      DivBounds(value, m);
    } else {
      DivBounds(-value, m);
      assert m * -((-value) / m) == -(m * ((-value) / m));
    }
    assert -m < r < m;
    ModOfRemainder(r, m);
    if 0 <= value < m {
      DivIs(value, m, 0);
    }
  }

  lemma ModOfRemainder(r: int, m: int)
    requires m > 0 && -m < r < m
    ensures Rem(r + m, m) == if r >= 0 then r else r + m
  {
    DivIs(r + m, m, if r >= 0 then 1 else 0);
  }
}
