/** Division, rounding and two's complement facts shared by the other modules. */
module Arithmetic {

  /** A number lies in exactly one block of `d`. */
  lemma DivModUnique(x: int, d: int, q: int, r: int)
    requires 0 < d && 0 <= r < d && x == q * d + r
    ensures x / d == q && x % d == r
  {
    var k := x / d - q;
    assert x == d * (x / d) + x % d;
    assert k * d == r - x % d by {
      assert k * d == (x / d) * d - q * d;
    }
    assert k >= 1 ==> k * d >= d;
    assert k <= -1 ==> k * d <= -d;
  }

  /** Consuming `x` and then `y` crosses as many blocks as consuming both at once. */
  lemma SplitDivMod(x: nat, y: nat, d: int)
    requires 0 < d
    ensures (x + y) / d == x / d + (x % d + y) / d
    ensures (x + y) % d == (x % d + y) % d
  {
    var q, r := (x % d + y) / d, (x % d + y) % d;
    assert x + y == (x / d + q) * d + r by {
      assert x == (x / d) * d + x % d;
      assert x % d + y == q * d + r;
      assert (x / d + q) * d == (x / d) * d + q * d;
    }
    DivModUnique(x + y, d, x / d + q, r);
  }

  /** `x` has crossed at least `q` blocks exactly when it is at least `q * d`. */
  lemma DivAtLeast(x: int, d: int, q: int)
    requires 0 < d
    ensures x / d >= q <==> x >= q * d
  {
    assert x == (x / d) * d + x % d;
    if x / d >= q {
      assert (x / d) * d >= q * d;
    } else {
      assert (x / d + 1) * d <= q * d;
      assert (x / d + 1) * d == (x / d) * d + d;
    }
  }

  function CeilDiv(x: int, d: int): int
    requires 0 < d
  {
    (x + d - 1) / d
  }

  /** The rounded up quotient is the least number of steps of `d` that covers `x`. */
  lemma CeilDivLeast(x: int, d: int, n: int)
    requires 0 < d
    ensures n >= CeilDiv(x, d) <==> n * d >= x
  {
    DivAtLeast(x + d - 1, d, n + 1);
    assert (n + 1) * d == n * d + d;
  }

  /** Whole steps already taken can be subtracted after rounding up. */
  lemma CeilDivShift(x: int, d: int, n: int)
    requires 0 < d
    ensures CeilDiv(x - n * d, d) == CeilDiv(x, d) - n
  {
    var y := x + d - 1;
    assert x - n * d + d - 1 == (y / d - n) * d + y % d by {
      assert y == (y / d) * d + y % d;
      assert (y / d - n) * d == (y / d) * d - n * d;
    }
    DivModUnique(y - n * d, d, y / d - n, y % d);
  }

  lemma ProductSign(x: int, y: int)
    requires 0 <= x && 0 <= y
    ensures 0 <= x * y
  {
  }

  lemma MulBelow(a: int, r: int, b: int)
    requires 0 < a && r < b
    ensures a * r <= a * b - a
  {
    ProductSign(a, b - r - 1);
    assert a * (b - r - 1) == a * b - a * r - a;
  }

  lemma MulRegroup(a: int, q: int, b: int, r: int)
    ensures a * (q * b + r) == q * (a * b) + a * r
  {
  }

  lemma DivDiv(x: nat, a: nat, b: nat)
    requires a > 0 && b > 0
    ensures a * b > 0 && (x / a) / b == x / (a * b)
  {
    var y, c := x / a, x % a;
    var q, r := y / b, y % b;
    assert x == a * y + c && y == q * b + r;
    MulRegroup(a, q, b, r);
    MulBelow(a, r, b);
    MulBelow(a, 0, b);
    DivModUnique(x, a * b, q, a * r + c);
  }

  lemma ModShift(x: int, q: int, d: int)
    requires 0 < d
    ensures (x - q * d) % d == x % d
  {
    assert x - q * d == (x / d - q) * d + x % d by {
      assert x == (x / d) * d + x % d;
      assert (x / d - q) * d == (x / d) * d - q * d;
    }
    DivModUnique(x - q * d, d, x / d - q, x % d);
  }

  /** The next number is in the same block, or the first of the next one. */
  lemma NextDivMod(x: int, d: nat)
    requires d > 0
    ensures (x + 1) % d == if x % d == d - 1 then 0 else x % d + 1
    ensures (x + 1) / d == x / d + if (x + 1) % d == 0 then 1 else 0
  {
    var q, r := x / d, x % d;
    assert x == q * d + r;
    if r == d - 1 {
      assert (q + 1) * d == q * d + d;
      DivModUnique(x + 1, d, q + 1, 0);
    } else {
      DivModUnique(x + 1, d, q, r + 1);
    }
  }

  function Pow2(n: nat): (p: nat)
    ensures p > 0
  {
    if n == 0 then 1 else 2 * Pow2(n - 1)
  }
}
