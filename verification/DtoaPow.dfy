/** Powers and the few facts about division that the limb arithmetic needs. */
module DtoaPow {
  function Pow(b: nat, k: nat): (r: nat)
    ensures b > 0 ==> r > 0
  {
    if k == 0 then 1 else b * Pow(b, k - 1)
  }

  lemma {:induction false} PowAdd(b: nat, j: nat, k: nat)
    ensures Pow(b, j + k) == Pow(b, j) * Pow(b, k)
  {
    if j > 0 {
      PowAdd(b, j - 1, k);
      Assoc(b, Pow(b, j - 1), Pow(b, k));
    }
  }

  lemma {:induction false} PowNext(b: nat, k: nat)
    ensures Pow(b, k + 1) == Pow(b, k) * b && Pow(b, 1) == b && Pow(b, 0) == 1
  {}

  lemma {:induction false} Assoc(a: int, b: int, c: int)
    ensures a * (b * c) == (a * b) * c
  {}

  lemma {:induction false} Congruent(a: int, b: int, c: int)
    requires b == c
    ensures a * b == a * c
  {}

  lemma {:induction false} Interchange(a: int, b: int, x: int, y: int)
    ensures (a * b) * (x * y) == (a * x) * (b * y)
  {}

  lemma {:induction false} PowMul(a: nat, b: nat, k: nat)
    ensures Pow(a * b, k) == Pow(a, k) * Pow(b, k)
  {
    if k > 0 {
      PowMul(a, b, k - 1);
      var x, y := Pow(a, k - 1), Pow(b, k - 1);
      Congruent(a * b, Pow(a * b, k - 1), x * y);
      Interchange(a, b, x, y);
    }
  }

  lemma {:induction false} PowPow(b: nat, j: nat, k: nat)
    ensures Pow(b, j * k) == Pow(Pow(b, j), k)
  {
    if k > 0 {
      PowPow(b, j, k - 1);
      assert j * k == j + j * (k - 1);
      PowAdd(b, j, j * (k - 1));
    }
  }

  lemma {:induction false} PowMonotone(b: nat, j: nat, k: nat)
    requires b >= 1 && j <= k
    ensures Pow(b, j) <= Pow(b, k)
  {
    if j < k {
      PowMonotone(b, j, k - 1);
      MulAtLeast(b, Pow(b, k - 1));
    }
  }

  lemma {:induction false} PowStrict(b: nat, j: nat, k: nat)
    requires b >= 2 && j < k
    ensures b * Pow(b, j) <= Pow(b, k)
    ensures Pow(b, j) < Pow(b, k)
  {
    PowMonotone(b, j + 1, k);
  }

  lemma {:induction false} MulAtLeast(b: nat, x: nat)
    requires b >= 1
    ensures x <= b * x
  {}

  lemma {:induction false} MulMonotone(a: nat, b: nat, c: nat)
    requires a <= b
    ensures a * c <= b * c && c * a <= c * b
  {}

  // ----- division -----

  lemma {:induction false} EuclidOrder(d: int, q1: int, r1: int, q2: int, r2: int)
    requires q1 * d + r1 == q2 * d + r2 && 0 <= r1 < d && 0 <= r2 < d
    ensures q1 <= q2
  {
    if q1 > q2 {
      LargeMultiple(q1 - q2, d);
      Distribute(d, q1 - q2, q2);
    }
  }

  lemma {:induction false} LargeMultiple(k: int, d: int)
    requires k >= 1 && d >= 0
    ensures k * d >= d
  {}

  /** Quotient and remainder are determined by the equation. */
  lemma {:induction false} DivModUnique(n: nat, d: nat, q: nat, r: nat)
    requires d > 0 && n == q * d + r && r < d
    ensures n / d == q && n % d == r
  {
    Euclid(n, d);
    EuclidOrder(d, q, r, n / d, n % d);
    EuclidOrder(d, n / d, n % d, q, r);
  }

  lemma {:induction false} Euclid(n: nat, d: nat)
    requires d > 0
    ensures n == (n / d) * d + n % d && 0 <= n % d < d
  {}

  lemma {:induction false} Distribute(d: int, x: int, y: int)
    ensures d * (x + y) == d * x + d * y && (x + y) * d == x * d + y * d
  {}

  /** Dividing twice is dividing by the product, remainders included. */
  lemma {:induction false} DivDiv(n: nat, a: nat, b: nat)
    requires a > 0 && b > 0
    ensures a * b > 0
    ensures (n / a) / b == n / (a * b)
    ensures n % (a * b) == n % a + a * ((n / a) % b)
    ensures n % (a * b) == 0 <==> n % a == 0 && (n / a) % b == 0
  {
    var q, r := n / a, n % a;
    var q2, r2 := q / b, q % b;
    TwoDigits(n, a, b, q, r, q2, r2);
    DivModUnique(n, a * b, q2, a * r2 + r);
  }

  lemma {:induction false} TwoDigits(n: nat, a: nat, b: nat, q: nat, r: nat, q2: nat, r2: nat)
    requires a > 0 && b > 0 && n == a * q + r && q == b * q2 + r2 && r < a && r2 < b
    ensures a * b > 0 && n == q2 * (a * b) + (a * r2 + r) && a * r2 + r < a * b
    ensures a * r2 >= r2
  {
    Congruent(a, q, b * q2 + r2);
    Distribute(a, b * q2, r2);
    Assoc(a, b, q2);
    MulMonotone(r2 + 1, b, a);
    Distribute(a, r2, 1);
    MulAtLeast(a, r2);
    MulAtLeast(a, b);
  }

  /** A common factor cancels. */
  lemma {:induction false} DivCancel(n: nat, d: nat, k: nat)
    requires d > 0 && k > 0
    ensures d * k > 0 && (n * k) / (d * k) == n / d && (n * k) % (d * k) == (n % d) * k
  {
    var q, r := n / d, n % d;
    Congruent(k, n, q * d + r);
    Distribute(k, q * d, r);
    Assoc(q, d, k);
    MulMonotone(r + 1, d, k);
    Distribute(k, r, 1);
    MulAtLeast(k, d);
    DivModUnique(n * k, d * k, q, r * k);
  }

  /** Adding a multiple of the divisor moves only the quotient. */
  lemma {:induction false} DivOffset(n: nat, d: nat, k: nat)
    requires d > 0
    ensures (n + k * d) / d == n / d + k && (n + k * d) % d == n % d
  {
    Distribute(d, n / d, k);
    DivModUnique(n + k * d, d, n / d + k, n % d);
  }

  // ----- the same division as named functions, to be treated abstractly -----

  function Quo(n: nat, d: nat): nat
    requires d > 0
  {
    n / d
  }

  function Rem(n: nat, d: nat): (r: nat)
    requires d > 0
    ensures r < d
  {
    n % d
  }

  lemma {:induction false} QuoRemOf(n: nat, d: nat)
    requires d > 0
    ensures n == Quo(n, d) * d + Rem(n, d)
  {
    Euclid(n, d);
  }

  lemma {:induction false} QuoRemUnique(n: nat, d: nat, q: nat, r: nat)
    requires d > 0 && n == q * d + r && r < d
    ensures Quo(n, d) == q && Rem(n, d) == r
  {
    DivModUnique(n, d, q, r);
  }

  lemma {:induction false} QuoQuo(n: nat, a: nat, b: nat)
    requires a > 0 && b > 0
    ensures a * b > 0
    ensures Quo(Quo(n, a), b) == Quo(n, a * b)
    ensures Rem(n, a * b) == Rem(n, a) + a * Rem(Quo(n, a), b)
  {
    DivDiv(n, a, b);
  }

  // ----- the same powers by squaring, for evaluating large constants -----

  function FastPow(b: nat, k: nat): nat {
    if k == 0 then 1
    else
      var h := FastPow(b, k / 2);
      if k % 2 == 0 then h * h else h * h * b
  }

  lemma {:induction false} FastPowIsPow(b: nat, k: nat)
    ensures FastPow(b, k) == Pow(b, k)
  {
    if k > 0 {
      FastPowIsPow(b, k / 2);
      PowAdd(b, k / 2, k / 2);
      if k % 2 == 1 {
        assert k == 1 + (k / 2 + k / 2);
        assert Pow(b, k) == b * Pow(b, k / 2 + k / 2);
      } else {
        assert k == k / 2 + k / 2;
      }
    }
  }
}
