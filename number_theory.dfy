/** Elementary number theory over the naturals: primality, powers, divisibility,
    Euclid's lemma and the multiplicity of a prime in a number.  The prime store
    and the exponent vectors are specified in these terms. */
module NumberTheory {

  /** `n` is prime: at least 2 and without a divisor strictly between 1 and `n`. */
  ghost predicate IsPrime(n: nat)
  {
    n >= 2 && forall d :: 2 <= d < n ==> n % d != 0
  }

  function Pow(b: nat, e: nat): nat
    decreases e
  {
    if e == 0 then 1 else b * Pow(b, e - 1)
  }

  // ---------------------------------------------------------------------------
  // Arithmetic helpers

  lemma MulSign(d: int, k: int)
    requires d > 0
    ensures k >= 1 ==> d * k >= d
    ensures k <= -1 ==> d * k <= -d
  {
  }

  lemma MulMono(a: int, b: int, c: int)
    requires 0 <= a <= b && c >= 0
    ensures a * c <= b * c
  {
  }

  lemma MulDistributes(x: int, y: int, k: int)
    ensures (x + y) * k == x * k + y * k
  {
  }

  lemma MulAssociates3(x: int, j: int, k: int)
    ensures x * j * k == x * (j * k)
  {
  }

  /** A number whose square is below `m * m` is below `m`. */
  lemma SquareBelow(p: nat, m: nat)
    requires p * p < m * m
    ensures p < m
  {
  }

  lemma MulRotate(w: int, p: int, q: int)
    ensures w * (p * q) == (w * q) * p
  {
  }

  /** Quotient and remainder are determined by the division identity. */
  lemma DivModUnique(n: int, d: int, q: int, r: int)
    requires d > 0 && 0 <= r < d && n == d * q + r
    ensures n / d == q && n % d == r
  {
    MulSign(d, q - n / d);
  }

  lemma MulDiv(d: nat, k: int)
    requires d > 0
    ensures (d * k) % d == 0 && (d * k) / d == k
  {
    DivModUnique(d * k, d, k, 0);
  }

  /** A divisor of a divisor divides. */
  lemma DividesTrans(a: nat, b: nat, c: nat)
    requires a > 0 && b > 0 && b % a == 0 && c % b == 0
    ensures c % a == 0
  {
    var x, y := b / a, c / b;
    assert c == a * (x * y) by {
      assert c == b * y && b == a * x;
    }
    MulDiv(a, x * y);
  }

  /** A divisor of `a` divides every multiple of `a`. */
  lemma DividesMultiple(d: nat, a: nat, c: nat)
    requires d > 0 && a % d == 0
    ensures (a * c) % d == 0
  {
    var x := a / d;
    assert a * c == d * (x * c) by {
      assert a == d * x;
    }
    MulDiv(d, x * c);
  }

  /** A common divisor of `b` and `r` divides `b * q + r`. */
  lemma DividesCombination(g: nat, b: nat, q: nat, r: nat)
    requires g > 0 && b % g == 0 && r % g == 0
    ensures (b * q + r) % g == 0
  {
    DividesMultiple(g, b, q);
    var x, y := (b * q) / g, r / g;
    MulDistributes(x, y, g);
    assert b * q + r == g * (x + y);
    MulDiv(g, x + y);
  }

  /** A positive multiple of `d` is at least `d`. */
  lemma DivisorAtMost(d: nat, n: nat)
    requires d > 0 && n > 0 && n % d == 0
    ensures d <= n
  {
    MulSign(d, n / d);
  }

  /** Dividing a positive multiple of `p >= 2` by `p` gives a smaller positive number. */
  lemma QuotientBounds(p: int, n: int)
    requires p >= 2 && n >= 1 && n % p == 0
    ensures n == p * (n / p) && 1 <= n / p < n
  {
    var q := n / p;
    assert n == p * q;
    MulSign(p, q);
    assert p * q >= 2 * q;
  }

  /** The cofactor of a proper divisor `p` of `n` is a divisor of `n` of at least 2. */
  lemma Cofactor(n: nat, p: nat)
    requires 2 <= p < n && n % p == 0
    ensures n / p >= 2 && n == (n / p) * p && n % (n / p) == 0
  {
    var m := n / p;
    assert n == p * m;
    MulSign(p, m - 1);
    MulDiv(m, p);
  }

  lemma PowPositive(b: nat, e: nat)
    requires b >= 1
    ensures Pow(b, e) >= 1
    decreases e
  {
    if e > 0 {
      PowPositive(b, e - 1);
      MulMono(1, b, Pow(b, e - 1));
    }
  }

  lemma {:induction false} PowAdd(b: nat, x: nat, y: nat)
    ensures Pow(b, x + y) == Pow(b, x) * Pow(b, y)
    decreases x
  {
    if x > 0 {
      PowAdd(b, x - 1, y);
      assert Pow(b, x + y) == b * Pow(b, x - 1 + y);
    }
  }

  /** `Pow` grows with its base and with its exponent (for bases >= 2). */
  lemma {:induction false} PowMono(a: nat, b: nat, x: nat, y: nat)
    requires 1 <= a <= b && x <= y
    ensures Pow(a, x) <= Pow(b, y)
    decreases y
  {
    if y > 0 {
      PowPositive(b, y - 1);
      if x == y {
        PowMono(a, b, x - 1, y - 1);
        PowPositive(a, x - 1);
        MulMono(a, b, Pow(a, x - 1));
        MulMono(Pow(a, x - 1), Pow(b, y - 1), b);
      } else {
        PowMono(a, b, x, y - 1);
        MulMono(1, b, Pow(b, y - 1));
      }
    }
  }

  lemma TwoPow64()
    ensures Pow(2, 64) == 0x1_0000_0000_0000_0000
  {
    assert Pow(2, 8) == 256;
    PowAdd(2, 8, 8);
    PowAdd(2, 16, 16);
    PowAdd(2, 32, 32);
  }

  // ---------------------------------------------------------------------------
  // Least divisors and prime factors

  /** No number from 2 up to `d - 1` divides `n`. */
  ghost predicate NoDivisorBelow(n: nat, d: nat)
    decreases d
  {
    d <= 2 || (n % (d - 1) != 0 && NoDivisorBelow(n, d - 1))
  }

  lemma {:induction false} NoDivisorBelowIff(n: nat, d: nat)
    ensures NoDivisorBelow(n, d) <==> forall k :: 2 <= k < d ==> n % k != 0
    decreases d
  {
    if d > 2 {
      NoDivisorBelowIff(n, d - 1);
    }
  }

  /** The least divisor of `n` from `d` on, when none below `d` divides it. */
  ghost function LeastDivisorFrom(n: nat, d: nat): (r: nat)
    requires 2 <= d <= n && NoDivisorBelow(n, d)
    ensures d <= r <= n && n % r == 0 && NoDivisorBelow(n, r)
    decreases n - d
  {
    if n % d == 0 then d else LeastDivisorFrom(n, d + 1)
  }

  /** Every `n >= 2` has a prime factor; a composite one has a prime factor whose
      square is at most `n`. */
  lemma PrimeFactor(n: nat) returns (p: nat)
    requires n >= 2
    ensures IsPrime(p) && p <= n && n % p == 0
    ensures !IsPrime(n) ==> p * p <= n
  {
    p := LeastDivisorFrom(n, 2);
    NoDivisorBelowIff(n, p);
    forall k | 2 <= k < p
      ensures p % k != 0
    {
      if p % k == 0 {
        DividesTrans(k, p, n);
      }
    }
    if !IsPrime(n) {
      var k :| 2 <= k < n && n % k == 0;
      Cofactor(n, p);
      var m := n / p;
      assert m >= p;
      MulMono(p, m, p);
    }
  }

  /** A prime that divides a prime is that prime. */
  lemma PrimeDividesPrime(p: nat, q: nat)
    requires IsPrime(p) && IsPrime(q) && q % p == 0
    ensures p == q
  {
    DivisorAtMost(p, q);
  }

  // ---------------------------------------------------------------------------
  // Greatest common divisor, Bezout and Euclid

  function Gcd(a: nat, b: nat): nat
    decreases b
  {
    if b == 0 then a else Gcd(b, a % b)
  }

  lemma {:induction false} GcdDivides(a: nat, b: nat)
    requires a > 0 || b > 0
    ensures Gcd(a, b) > 0 && a % Gcd(a, b) == 0 && b % Gcd(a, b) == 0
    decreases b
  {
    if b == 0 {
      MulDiv(a, 1);
    } else {
      GcdDivides(b, a % b);
      DividesCombination(Gcd(a, b), b, a / b, a % b);
      assert a == b * (a / b) + a % b;
    }
  }

  lemma {:induction false} Bezout(a: nat, b: nat) returns (x: int, y: int)
    ensures a * x + b * y == Gcd(a, b)
    decreases b
  {
    if b == 0 {
      x, y := 1, 0;
    } else {
      var x', y' := Bezout(b, a % b);
      x, y := y', x' - (a / b) * y';
      BezoutStep(a, b, a / b, a % b, x', y');
    }
  }

  /** The coefficients for `(b, a % b)` rearranged into coefficients for `(a, b)`. */
  lemma BezoutStep(a: int, b: int, q: int, r: int, x: int, y: int)
    requires a == b * q + r
    ensures a * y + b * (x - q * y) == b * x + r * y
  {
    calc {
      a * y + b * (x - q * y);
      (b * q + r) * y + b * x - b * (q * y);
      { MulAssociates3(b, q, y); }
      b * x + r * y;
    }
  }

  lemma EuclidStep(p: int, a: int, b: int, x: int, y: int, k: int)
    requires p * x + a * y == 1 && a * b == p * k
    ensures b == p * (b * x + k * y)
  {
    calc {
      b;
      b * (p * x + a * y);
      p * (b * x) + (a * b) * y;
      p * (b * x) + (p * k) * y;
      p * (b * x + k * y);
    }
  }

  /** Euclid's lemma: a prime that divides a product divides one of its factors. */
  lemma Euclid(p: nat, a: nat, b: nat)
    requires IsPrime(p) && (a * b) % p == 0
    ensures a % p == 0 || b % p == 0
  {
    if a % p != 0 {
      GcdDivides(p, a);
      var g := Gcd(p, a);
      DivisorAtMost(g, p);
      assert g == 1;
      var x, y := Bezout(p, a);
      var k := (a * b) / p;
      EuclidStep(p, a, b, x, y, k);
      MulDiv(p, b * x + k * y);
    }
  }

  // ---------------------------------------------------------------------------
  // Multiplicity

  /** How many times `p` divides `n`. */
  function Mult(p: nat, n: nat): nat
    requires p >= 2 && n >= 1
    decreases n
  {
    if n % p == 0 then
      QuotientBounds(p, n);
      1 + Mult(p, n / p)
    else 0
  }

  /** `p` raised to its multiplicity divides `n` and is at most `n`. */
  lemma {:induction false} MultPowAtMost(p: nat, n: nat)
    requires p >= 2 && n >= 1
    ensures Pow(p, Mult(p, n)) <= n
    decreases n
  {
    if n % p == 0 {
      DivisorAtMost(p, n);
      MultPowAtMost(p, n / p);
      MulMono(Pow(p, Mult(p, n / p)), n / p, p);
    }
  }

  /** Dividing `a * b` by a divisor `p` of `a` divides `a`. */
  lemma ProductQuotient(p: nat, a: nat, b: nat)
    requires p >= 2 && a >= 1 && b >= 1 && a % p == 0
    ensures a * b >= 1 && (a * b) % p == 0 && (a * b) / p == (a / p) * b
  {
    QuotientBounds(p, a);
    var a' := a / p;
    assert a * b == p * (a' * b);
    MulDiv(p, a' * b);
    MulMono(1, a, b);
  }

  lemma ProductQuotientRight(p: nat, a: nat, b: nat)
    requires p >= 2 && a >= 1 && b >= 1 && b % p == 0
    ensures a * b >= 1 && (a * b) % p == 0 && (a * b) / p == a * (b / p)
  {
    QuotientBounds(p, b);
    var b' := b / p;
    assert a * b == p * (a * b');
    MulDiv(p, a * b');
    MulMono(1, b, a);
  }

  /** Multiplicity is additive over products, for a prime. */
  lemma {:induction false} MultMul(p: nat, a: nat, b: nat)
    requires IsPrime(p) && a >= 1 && b >= 1
    ensures a * b >= 1
    ensures Mult(p, a * b) == Mult(p, a) + Mult(p, b)
    decreases a + b
  {
    MulMono(1, a, b);
    if a % p == 0 {
      QuotientBounds(p, a);
      ProductQuotient(p, a, b);
      MultMul(p, a / p, b);
    } else if b % p == 0 {
      QuotientBounds(p, b);
      ProductQuotientRight(p, a, b);
      MultMul(p, a, b / p);
    } else if (a * b) % p == 0 {
      Euclid(p, a, b);
    }
  }

  /** The multiplicity of a prime `p` in a power of a prime `q`. */
  lemma {:induction false} MultPrimePow(p: nat, q: nat, k: nat)
    requires IsPrime(p) && IsPrime(q)
    ensures Pow(q, k) >= 1
    ensures Mult(p, Pow(q, k)) == if p == q then k else 0
    decreases k
  {
    PowPositive(q, k);
    if k > 0 {
      MultPrimePow(p, q, k - 1);
      PowPositive(q, k - 1);
      MultMul(p, q, Pow(q, k - 1));
      assert Mult(p, q) == if p == q then 1 else 0 by {
        MulDiv(q, 1);
        if q % p == 0 {
          PrimeDividesPrime(p, q);
        }
      }
    }
  }
}
