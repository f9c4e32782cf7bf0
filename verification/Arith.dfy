/** Powers of two, bitwise or, and facts about multiplication and division. */
module Arith {

  function Pow2(n: nat): (r: nat)
    ensures r > 0
  {
    if n == 0 then 1 else 2 * Pow2(n - 1)
  }

  lemma {:induction false} Pow2Sum(a: nat, b: nat)
    ensures Pow2(a + b) == Pow2(a) * Pow2(b)
  {
    if a == 0 {
      assert Pow2(0) == 1;
    } else {
      Pow2Sum(a - 1, b);
      Pow2Next(a - 1);
      Pow2Next(a - 1 + b);
      hide Pow2;
      Reassociate(2, Pow2(a - 1), Pow2(b));
    }
  }

  lemma Pow2Next(n: nat)
    ensures Pow2(n + 1) == 2 * Pow2(n)
  {
  }

  lemma {:induction false} Pow2Grows(a: nat, b: nat)
    ensures a <= b <==> Pow2(a) <= Pow2(b)
  {
    if a > 0 && b > 0 {
      Pow2Grows(a - 1, b - 1);
    }
  }

  lemma Reassociate(a: nat, b: nat, c: nat)
    ensures a * (b * c) == (a * b) * c
  {
  }

  /** Bitwise or. */
  function Or(x: nat, y: nat): nat
  {
    if x == 0 then y
    else if y == 0 then x
    else 2 * Or(x / 2, y / 2) + (if x % 2 == 1 || y % 2 == 1 then 1 else 0)
  }

  function Div(a: nat, d: nat): nat
    requires d > 0
  {
    a / d
  }

  lemma DivIs(a: nat, d: nat)
    requires d > 0
    ensures Div(a, d) == a / d
  {
  }

  lemma MulMonotone(a: nat, b: nat, c: nat)
    requires a <= b
    ensures a * c <= b * c
  {
    assert b * c == a * c + (b - a) * c;
  }

  /** The quotient and remainder are unique. */
  lemma QuotientOf(a: nat, d: nat, q: nat, r: nat)
    requires d > 0 && a == q * d + r && r < d
    ensures a / d == q && a % d == r
  {
    var e := a / d;
    assert a == e * d + a % d && a % d < d;
    assert (q - e) * d == q * d - e * d;
    if q > e {
      MulMonotone(1, q - e, d);
    } else if q < e {
      MulMonotone(1, e - q, d);
    }
  }

  /** A greater high part outweighs any low part below the unit. */
  lemma HighPartDecides(low: nat, unit: nat, x: nat, low': nat, y: nat)
    requires low < unit && x < y
    ensures low + unit * x < low' + unit * y
  {
    MulMonotone(x + 1, y, unit);
    assert (x + 1) * unit == unit * x + unit && y * unit == unit * y;
  }

  /** Adding the negation is subtracting, modulo m. */
  lemma ModNegate(a: nat, b: nat, m: nat)
    requires a < m && b < m
    ensures (a + (if b == 0 then 0 else m - b)) % m == (a - b) % m
    ensures (a - b) % m == if b <= a then a - b else a - b + m
  {
    if b <= a {
      QuotientOf(a - b, m, 0, a - b);
      if b > 0 {
        QuotientOf(a + (m - b), m, 1, a - b);
      }
    } else {
      QuotientOf(a + (m - b), m, 0, a + (m - b));
      NegativeMod(a - b, m);
    }
  }

  lemma NegativeMod(x: int, m: nat)
    requires x < 0 < x + m
    ensures x % m == x + m
  {
    var q, r := x / m, x % m;
    assert x == q * m + r && 0 <= r < m;
    if q >= 0 {
      MulMonotone(0, q, m);
    } else if q <= -2 {
      MulMonotone(2, -q, m);
    }
  }

  lemma QuotientLess(n: nat, b: nat)
    requires n > 0 && b > 1
    ensures Div(n, b) < n
  {
    var q := n / b;
    assert n == q * b + n % b;
    MulMonotone(2, b, q);
  }

  lemma DivMod(n: nat, b: nat)
    requires b > 0
    ensures n == Div(n, b) * b + n % b && n % b < b
  {
  }
}
