/** The f64 operations the program relies on, stated over mathematical reals:
    `powi(2)`, `floor`, `ceil`, `round`, `sqrt` and the saturating float-to-usize cast. */
module RealOps {

  /** `x.powi(2)`. */
  function Square(x: real): (r: real)
    ensures r >= 0.0
  {
    x * x
  }

  /** `x.floor()`: the largest integer not above `x`. */
  function Floor(x: real): (r: int)
    ensures r as real <= x < r as real + 1.0
  {
    x.Floor
  }

  /** `x.ceil()`: the smallest integer not below `x`. */
  function Ceil(x: real): (r: int)
    ensures r as real - 1.0 < x <= r as real
  {
    -((-x).Floor)
  }

  /** `x.round()`: the nearest integer, halfway cases rounded away from zero. */
  function Round(x: real): (r: int)
    ensures x - 0.5 <= r as real <= x + 0.5
    ensures r as real == x + 0.5 ==> x > 0.0
    ensures r as real == x - 0.5 ==> x < 0.0
  {
    if x >= 0.0 then (x + 0.5).Floor else -((-x + 0.5).Floor)
  }

  /** Rounding never lands past the first integer strictly above `x`. */
  lemma RoundAtMostNextInteger(x: real)
    ensures Round(x) <= Floor(x) + 1
  {
  }

  /** A float-to-usize `as` cast on an integral value: negative values saturate to 0. */
  function ToUsize(x: int): (r: nat)
    ensures x >= 0 ==> r == x
    ensures x < 0 ==> r == 0
  {
    if x < 0 then 0 else x
  }

  /** `sqrt` is a correct square root on the non-negative reals (`f64::sqrt`, taken as given). */
  ghost predicate IsSqrt(sqrt: real -> real)
  {
    forall x: real :: 0.0 <= x ==> 0.0 <= sqrt(x) && sqrt(x) * sqrt(x) == x
  }

  /** A square below the square of a non-negative bound puts the value strictly within it. */
  lemma SquareBelow(a: real, r: real)
    requires 0.0 <= r && Square(a) < Square(r)
    ensures -r < a < r
  {
    if a >= r {
      SquareMonotone(r, a);
    } else if -a >= r {
      SquareMonotone(r, -a);
    }
  }

  lemma SquareMonotone(a: real, b: real)
    requires 0.0 <= a <= b
    ensures Square(a) <= Square(b)
  {
    assert a * (b - a) >= 0.0 && b * (b - a) >= 0.0;
    assert b * b - a * a == a * (b - a) + b * (b - a);
  }

  /** Scaling by `a` a value `o = a * d` scales its square by `a * a`. */
  lemma ScaledSquare(a: real, d: real, dd: real, o: real)
    requires d * d == dd && a * d == o
    ensures o * o == (a * a) * dd
  {
  }

  /** Two shares of a positive whole that add up to the whole sum to one. */
  lemma SharesSum(p: real, q: real, s: real, sx: real, sy: real)
    requires s > 0.0 && sx == p * s && sy == q * s && sx + sy == s
    ensures p + q == 1.0
  {
    assert (p + q) * s == s;
  }

  /** Multiplying a quotient `a / b` scaled by `c` back by `b` gives `a * c`. */
  lemma QuotientScaled(a: real, b: real, c: real)
    requires b != 0.0
    ensures a / b * c * b == a * c
  {
    var q := a / b;
    assert q * b == a;
    assert q * c * b == (q * b) * c;
  }

  /** A non-zero common factor cancels. */
  lemma CancelFactor(x: real, y: real, t: real)
    requires t != 0.0 && x * t == y * t
    ensures x == y
  {
    assert (x - y) * t == 0.0;
  }

  /** The product of two non-negative numbers is non-negative. */
  lemma NonNegativeProduct(a: real, b: real)
    requires a >= 0.0 && b >= 0.0
    ensures a * b >= 0.0
  {
  }
}
