/** Powers of two and the division facts that address arithmetic rests on. */
module Power {
  function Pow2(n: nat): (r: nat)
    ensures r >= 1
  {
    if n == 0 then 1 else 2 * Pow2(n - 1)
  }

  lemma {:induction false} Pow2Add(a: nat, b: nat)
    ensures Pow2(a + b) == Pow2(a) * Pow2(b)
  {
    if a > 0 {
      Pow2Add(a - 1, b);
      assert Pow2(a + b) == 2 * Pow2(a - 1 + b);
      MulAssoc(2, Pow2(a - 1), Pow2(b));
    }
  }

  lemma {:induction false} Pow2Monotone(a: nat, b: nat)
    requires a <= b
    ensures Pow2(a) <= Pow2(b)
  {
    if a < b {
      Pow2Monotone(a, b - 1);
    }
  }

  lemma {:induction false} DivTwice(x: nat, a: nat, b: nat)
    requires a > 0 && b > 0
    ensures a * b > 0 && x / (a * b) == (x / a) / b
  {
    DivDiv(x, a, b);
  }

  /** The digit of `x / a` below the quotient by a product. */
  lemma {:induction false} MiddleDigit(x: nat, a: nat, b: nat)
    requires a > 0 && b > 0
    ensures a * b > 0 && x / a == (x / (a * b)) * b + (x / a) % b
  {
    DivTwice(x, a, b);
    DigitsOf(x / a, b);
  }

  lemma {:induction false} MulMonotone(a: nat, b: nat, c: nat)
    requires a <= b
    ensures a * c <= b * c
  {
    assert (b - a) * c >= 0;
    assert b * c == a * c + (b - a) * c;
  }

  lemma {:induction false} MulAssoc(a: int, b: int, c: int)
    ensures (a * b) * c == a * (b * c)
  {
  }

  /** The only multiple of `d` strictly between `-d` and `d` is zero. */
  lemma {:induction false} SmallMultiple(e: int, d: int)
    requires d > 0 && -d < e * d < d
    ensures e == 0
  {
    if e > 0 {
      MulAtLeast(e, d);
    } else if e < 0 {
      assert (-e) * d == -(e * d);
      MulAtLeast(-e, d);
    }
  }

  /** Quotient and remainder are determined by the equation they satisfy. */
  lemma {:induction false} DivModUnique(x: nat, d: nat, q: nat, r: nat)
    requires d > 0 && r < d && x == q * d + r
    ensures x / d == q && x % d == r
  {
    var q0, r0 := x / d, x % d;
    DistributeDiff(q, q0, d);
    SmallMultiple(q - q0, d);
  }

  lemma {:induction false} DistributeDiff(a: int, b: int, d: int)
    ensures (a - b) * d == a * d - b * d
  {
  }

  lemma {:induction false} MulAtLeast(a: nat, b: nat)
    requires a >= 1
    ensures a * b >= b
  {
    assert a * b == (a - 1) * b + b;
  }

  /** A two-digit number with digits `q2`, `d` above a remainder `r`, regrouped. */
  lemma {:induction false} Regroup(a: nat, b: nat, q2: nat, d: nat, r: nat)
    requires a > 0 && d < b && r < a
    ensures (q2 * b + d) * a + r == q2 * (a * b) + (d * a + r)
    ensures d * a + r < a * b
  {
    assert (q2 * b + d) * a == (q2 * b) * a + d * a;
    assert (q2 * b) * a == q2 * (b * a) by { MulAssoc(q2, b, a); }
    assert (b - d) * a >= a by { MulAtLeast(b - d, a); }
    assert (b - d) * a == b * a - d * a;
  }

  lemma {:induction false} TwoDigits(x: nat, a: nat, b: nat, q2: nat, d: nat, r: nat)
    requires a > 0 && d < b && r < a && x == (q2 * b + d) * a + r
    ensures a * b > 0 && x / (a * b) == q2 && x % (a * b) == d * a + r
  {
    MulAtLeast(b, a);
    Regroup(a, b, q2, d, r);
    DivModUnique(x, a * b, q2, d * a + r);
  }

  /** Dividing by a product is dividing twice; the middle digit is the remainder in between. */
  lemma {:induction false} DivDiv(x: nat, a: nat, b: nat)
    requires a > 0 && b > 0
    ensures a * b > 0
    ensures x / (a * b) == (x / a) / b
    ensures x % (a * b) == ((x / a) % b) * a + x % a
  {
    var q := x / a;
    var r := x % a;
    DigitsOf(x, a);
    var q2 := q / b;
    var d := q % b;
    DigitsOf(q, b);
    TwoDigits(x, a, b, q2, d, r);
  }

  lemma {:induction false} DigitsOf(x: nat, d: nat)
    requires d > 0
    ensures x == (x / d) * d + x % d && x % d < d
  {
  }

  /** The largest multiple of `d` not above `v`. */
  function AlignDown(v: nat, d: nat): (r: nat)
    requires d > 0
    ensures r <= v < r + d
    ensures r == v - v % d
    ensures r == (v / d) * d
  {
    assert v == (v / d) * d + v % d;
    v - v % d
  }

  lemma {:induction false} QuotientBound(v: nat, d: nat, n: nat)
    requires d > 0 && v < n * d
    ensures v / d < n
  {
    var q := v / d;
    assert v == q * d + v % d;
    if q >= n {
      MulMonotone(n, q, d);
    }
  }

  /** A multiple of a product is a multiple of each factor. */
  lemma {:induction false} ModOfMultiple(x: nat, a: nat, b: nat)
    requires a > 0 && b > 0 && a * b > 0 && x % (a * b) == 0
    ensures x % a == 0
  {
    DivDiv(x, a, b);
    var k := (x / a) % b;
    if k > 0 { MulAtLeast(k, a); }
  }

  lemma {:induction false} MultipleMod(k: nat, d: nat)
    requires d > 0
    ensures (k * d) % d == 0 && (k * d) / d == k
  {
    DivModUnique(k * d, d, k, 0);
  }

  /** Adding a multiple of `d` does not change the remainder. */
  lemma {:induction false} AddMultipleMod(x: nat, k: nat, d: nat)
    requires d > 0
    ensures (x + k * d) % d == x % d && (x + k * d) / d == x / d + k
  {
    assert x == (x / d) * d + x % d;
    assert x + k * d == (x / d + k) * d + x % d;
    DivModUnique(x + k * d, d, x / d + k, x % d);
  }

  lemma {:induction false} Pow2Order(a: nat, b: nat)
    ensures Pow2(a) <= Pow2(b) <==> a <= b
  {
    if a <= b {
      Pow2Monotone(a, b);
    } else {
      Pow2Monotone(b + 1, a);
    }
  }

  lemma {:induction false} Pow2Divides(a: nat, b: nat)
    requires a <= b
    ensures Pow2(b) % Pow2(a) == 0
    ensures Pow2(b) == Pow2(b - a) * Pow2(a)
  {
    Pow2Add(b - a, a);
    MultipleMod(Pow2(b - a), Pow2(a));
  }
}
