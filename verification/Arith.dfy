/** Arithmetic the rest of the project leans on: powers, floor division and
    products.  Floor division is always used through these lemmas, so that the
    solver never has to reason about a quotient and a product at once. */
module Arith {

  function SaturatingSub(a: nat, b: nat): nat {
    if a > b then a - b else 0
  }

  function Pow(b: nat, n: nat): (p: nat)
    ensures b > 0 ==> p > 0
  {
    if n == 0 then 1 else b * Pow(b, n - 1)
  }

  lemma {:induction false} PowAdd(b: nat, m: nat, n: nat)
    ensures Pow(b, m + n) == Pow(b, m) * Pow(b, n)
  {
    if m > 0 {
      PowAdd(b, m - 1, n);
      MulAssoc(b, Pow(b, m - 1), Pow(b, n));
    }
  }

  /** Powers of a positive base grow with the exponent. */
  lemma {:induction false} PowMonotone(b: nat, m: nat, n: nat)
    requires b > 0 && m <= n
    ensures Pow(b, m) <= Pow(b, n)
  {
    if m < n {
      PowMonotone(b, m, n - 1);
      MulMonotone(1, b, Pow(b, n - 1));
    }
  }

  lemma MulAssoc(a: int, b: int, c: int)
    ensures a * b * c == a * (b * c)
  {
  }

  lemma MulMonotone(a: int, b: int, c: int)
    requires a <= b && 0 <= c
    ensures a * c <= b * c && c * a <= c * b
  {
  }

  lemma MulCancel(a: int, b: int, c: int)
    requires a * c <= b * c && 0 < c
    ensures a <= b
  {
    if b < a {
      MulMonotone(b + 1, a, c);
    }
  }

  /** The two bounds that characterise the floor quotient. */
  lemma DivBounds(a: int, d: int)
    requires d > 0
    ensures (a / d) * d <= a < (a / d) * d + d
    ensures a == (a / d) * d + a % d
    ensures a >= 0 ==> a / d >= 0
  {
    assert a == (a / d) * d + a % d;
    if a >= 0 && a / d < 0 {
      MulMonotone(a / d, -1, d);
    }
  }

  lemma MulSucc(q: int, d: int)
    ensures (q + 1) * d == q * d + d
  {
  }

  /** A number within those bounds is the floor quotient. */
  lemma DivUnique(a: int, d: int, q: int)
    requires d > 0 && q * d <= a < q * d + d
    ensures a / d == q && a % d == a - q * d
  {
    DivBounds(a, d);
    if a / d < q {
      MulMonotone(a / d + 1, q, d);
      MulSucc(a / d, d);
    } else if q < a / d {
      MulMonotone(q + 1, a / d, d);
      MulSucc(q, d);
    }
  }

  lemma DivMonotone(a: int, b: int, d: int)
    requires d > 0 && a <= b
    ensures a / d <= b / d
  {
    DivBounds(a, d);
    DivBounds(b, d);
    if b / d < a / d {
      MulMonotone(b / d + 1, a / d, d);
      MulSucc(b / d, d);
    }
  }

  /** Dividing twice is dividing by the product. */
  lemma DivDiv(a: nat, d: nat, e: nat)
    requires d > 0 && e > 0
    ensures d * e > 0 && a / (d * e) == a / d / e
  {
    var q := a / d;
    var r := q / e;
    DivBounds(a, d);
    DivBounds(q, e);
    MulMonotone(r * e, q, d);
    MulMonotone(q + 1, r * e + e, d);
    MulSucc(q, d);
    assert r * (d * e) == r * e * d;
    assert (r * e + e) * d == r * e * d + d * e;
    assert d * e > 0 by { MulMonotone(1, d, e); }
    DivUnique(a, d * e, r);
  }

  /** Adding a multiple of the modulus does not change the residue. */
  lemma ModShift(a: int, k: int, d: int)
    requires d > 0
    ensures (a + k * d) % d == a % d
  {
    DivBounds(a, d);
    assert (a / d + k) * d == (a / d) * d + k * d;
    DivUnique(a + k * d, d, a / d + k);
  }

  /** Floors of two parts never exceed the floor of the whole, and lose at
      most one. */
  lemma FloorAdd(a: int, b: int, d: int)
    requires d > 0
    ensures a / d + b / d <= (a + b) / d <= a / d + b / d + 1
  {
    DivBounds(a, d);
    DivBounds(b, d);
    var s := a / d + b / d;
    assert s * d == (a / d) * d + (b / d) * d;
    if a % d + b % d < d {
      DivUnique(a + b, d, s);
    } else {
      MulSucc(s, d);
      DivUnique(a + b, d, s + 1);
    }
  }

  lemma DivAtLeast(a: int, d: int, q: int)
    requires d > 0 && q * d <= a
    ensures a / d >= q
  {
    DivBounds(a, d);
    if a / d < q {
      MulMonotone(a / d + 1, q, d);
      MulSucc(a / d, d);
    }
  }

  lemma DivAtMost(a: int, d: int, q: int)
    requires d > 0 && a < q * d + d
    ensures a / d <= q
  {
    DivBounds(a, d);
    if q < a / d {
      MulMonotone(q + 1, a / d, d);
      MulSucc(q, d);
    }
  }
}
