/** `Urat`: a positive rational number stored as the vector of its prime
    exponents.  Entry `i` is the exponent of the `i`-th prime of the store;
    positions past the end of the vector stand for exponent 0, and a vector in
    canonical form has no trailing zero.  Multiplication and division add and
    subtract exponents, a power scales them, and conversion from a non-zero
    `u64` factorises the number against the prime store. */
module Pration {
  import opened NumberTheory
  import opened Primes

  // ---------------------------------------------------------------------------
  // Exponent vectors

  /** The exponent at position `i`: 0 past the end of the vector. */
  function At(e: seq<int>, i: nat): int
  {
    if i < |e| then e[i] else 0
  }

  /** Canonical form (`reduce` leaves vectors in it): no trailing zero. */
  predicate IsCanonical(e: seq<int>)
  {
    |e| == 0 || e[|e| - 1] != 0
  }

  predicate NonNegative(e: seq<int>)
  {
    forall i :: 0 <= i < |e| ==> e[i] >= 0
  }

  /** Every exponent fits the `i8` exponent type the tests use. */
  predicate FitsI8(e: seq<int>)
  {
    forall i :: 0 <= i < |e| ==> -128 <= e[i] <= 127
  }

  function Max(a: nat, b: nat): nat
  {
    if a < b then b else a
  }

  /** Two canonical vectors with the same exponent everywhere are equal. */
  lemma CanonicalUnique(a: seq<int>, b: seq<int>)
    requires IsCanonical(a) && IsCanonical(b)
    requires forall i: nat :: At(a, i) == At(b, i)
    ensures a == b
  {
    var n := Max(|a|, |b|);
    if n > 0 {
      assert At(a, n - 1) == At(b, n - 1);
    }
    forall i | 0 <= i < |a|
      ensures a[i] == b[i]
    {
      assert At(a, i) == At(b, i);
    }
  }

  /** The vector with its trailing zeros dropped: the same number in canonical form. */
  function Reduced(e: seq<int>): (r: seq<int>)
    ensures IsCanonical(r) && r <= e
    ensures forall i :: |r| <= i < |e| ==> e[i] == 0
    decreases |e|
  {
    if |e| > 0 && e[|e| - 1] == 0 then Reduced(e[..|e| - 1]) else e
  }

  /** Reducing keeps every exponent. */
  lemma ReducedAt(e: seq<int>)
    ensures forall i: nat :: At(Reduced(e), i) == At(e, i)
  {
    var r := Reduced(e);
    forall i: nat
      ensures At(r, i) == At(e, i)
    {
      if i < |r| {
        assert r[i] == e[i];
      }
    }
  }

  /** A vector is its own reduction exactly when it is canonical. */
  lemma ReducedFixpoint(e: seq<int>)
    ensures Reduced(e) == e <==> IsCanonical(e)
  {
    if IsCanonical(e) {
      ReducedAt(e);
      CanonicalUnique(Reduced(e), e);
    }
  }

  /** `reduce` is idempotent. */
  lemma ReducedIdempotent(e: seq<int>)
    ensures Reduced(Reduced(e)) == Reduced(e)
  {
    ReducedFixpoint(Reduced(e));
  }

  /** The vector whose exponents are those of `f` at each position below `n`. */
  function Tabulate(n: nat, f: nat -> int): seq<int>
  {
    seq(n, i requires 0 <= i => f(i))
  }

  // ---------------------------------------------------------------------------
  // Multiplication, division and powers on exponents

  /** The element operation `rfr` applies: the closures of `*=` and `/=`. */
  datatype Op = Add | Sub

  function Apply(op: Op, x: int, y: int): int
  {
    match op
    case Add => x + y
    case Sub => x - y
  }

  /** The canonical vector holding `op` of the two exponents at every position:
      the result of `rfr`. */
  function Combined(a: seq<int>, b: seq<int>, op: Op): (r: seq<int>)
    ensures IsCanonical(r)
    ensures forall i: nat :: At(r, i) == Apply(op, At(a, i), At(b, i))
  {
    var t := Tabulate(Max(|a|, |b|), (i: nat) => Apply(op, At(a, i), At(b, i)));
    ReducedAt(t);
    Reduced(t)
  }

  /** The canonical vector holding every exponent times `k`: the result of `pow`. */
  function Scaled(e: seq<int>, k: int): (r: seq<int>)
    ensures IsCanonical(r)
    ensures forall i: nat :: At(r, i) == At(e, i) * k
  {
    var t := Tabulate(|e|, (i: nat) => At(e, i) * k);
    ReducedAt(t);
    Reduced(t)
  }

  /** Multiplication is commutative. */
  lemma MulCommutes(a: seq<int>, b: seq<int>)
    ensures Combined(a, b, Add) == Combined(b, a, Add)
  {
    CanonicalUnique(Combined(a, b, Add), Combined(b, a, Add));
  }

  /** Multiplication is associative. */
  lemma MulAssociates(a: seq<int>, b: seq<int>, c: seq<int>)
    ensures Combined(Combined(a, b, Add), c, Add) == Combined(a, Combined(b, c, Add), Add)
  {
    CanonicalUnique(Combined(Combined(a, b, Add), c, Add), Combined(a, Combined(b, c, Add), Add));
  }

  /** The empty vector (the number 1) is the identity; multiplying by it reduces. */
  lemma MulByOne(a: seq<int>)
    ensures Combined(a, [], Add) == Reduced(a)
  {
    ReducedAt(a);
    CanonicalUnique(Combined(a, [], Add), Reduced(a));
  }

  /** Dividing by what was multiplied gives back the reduced original. */
  lemma DivUndoesMul(a: seq<int>, b: seq<int>)
    ensures Combined(Combined(a, b, Add), b, Sub) == Reduced(a)
  {
    ReducedAt(a);
    CanonicalUnique(Combined(Combined(a, b, Add), b, Sub), Reduced(a));
  }

  /** A number divided by itself is 1, the empty vector. */
  lemma DivSelf(a: seq<int>)
    ensures Combined(a, a, Sub) == []
  {
    CanonicalUnique(Combined(a, a, Sub), []);
  }

  /** The zeroth power is 1, the empty vector. */
  lemma PowZero(e: seq<int>)
    ensures Scaled(e, 0) == []
  {
    CanonicalUnique(Scaled(e, 0), []);
  }

  /** The first power reduces. */
  lemma PowOne(e: seq<int>)
    ensures Scaled(e, 1) == Reduced(e)
  {
    ReducedAt(e);
    CanonicalUnique(Scaled(e, 1), Reduced(e));
  }

  /** One more power is one more multiplication by the base. */
  lemma PowSucc(e: seq<int>, k: int)
    ensures Scaled(e, k + 1) == Combined(Scaled(e, k), e, Add)
  {
    forall i: nat
      ensures At(Scaled(e, k + 1), i) == At(Combined(Scaled(e, k), e, Add), i)
    {
      MulDistributes(k, 1, At(e, i));
    }
    CanonicalUnique(Scaled(e, k + 1), Combined(Scaled(e, k), e, Add));
  }

  /** A power of a product is the product of the powers. */
  lemma PowDistributes(a: seq<int>, b: seq<int>, k: int)
    ensures Scaled(Combined(a, b, Add), k) == Combined(Scaled(a, k), Scaled(b, k), Add)
  {
    forall i: nat
      ensures At(Scaled(Combined(a, b, Add), k), i) == At(Combined(Scaled(a, k), Scaled(b, k), Add), i)
    {
      PowDistributesAt(a, b, k, i);
    }
    CanonicalUnique(Scaled(Combined(a, b, Add), k), Combined(Scaled(a, k), Scaled(b, k), Add));
  }

  lemma PowDistributesAt(a: seq<int>, b: seq<int>, k: int, i: nat)
    ensures At(Scaled(Combined(a, b, Add), k), i) == At(Combined(Scaled(a, k), Scaled(b, k), Add), i)
  {
    var x, y := At(a, i), At(b, i);
    assert At(Combined(a, b, Add), i) == x + y;
    assert At(Scaled(Combined(a, b, Add), k), i) == (x + y) * k;
    assert At(Combined(Scaled(a, k), Scaled(b, k), Add), i) == x * k + y * k;
    MulDistributes(x, y, k);
  }

  /** A power of a power multiplies the exponents. */
  lemma PowPow(e: seq<int>, j: int, k: int)
    ensures Scaled(Scaled(e, j), k) == Scaled(e, j * k)
  {
    forall i: nat
      ensures At(Scaled(Scaled(e, j), k), i) == At(Scaled(e, j * k), i)
    {
      MulAssociates3(At(e, i), j, k);
    }
    CanonicalUnique(Scaled(Scaled(e, j), k), Scaled(e, j * k));
  }

  // ---------------------------------------------------------------------------
  // The whole number a non-negative vector stands for

  /** Distinct primes in increasing order, as the store holds them. */
  ghost predicate PrimeBasis(ps: seq<nat>)
  {
    StrictlyIncreasing(ps) && forall i :: 0 <= i < |ps| ==> IsPrime(ps[i])
  }

  /** The positive part of an exponent: how often the prime appears in the
      numerator. */
  function PosPart(x: int): nat
  {
    if x > 0 then x else 0
  }

  /** The numerator of the number the first `k` positions of `e` stand for: the
      product of `ps[j]` raised to the positive part of exponent `j`.  For a
      non-negative vector it is the whole number itself. */
  function Numerator(ps: seq<nat>, e: seq<int>, k: nat): nat
    requires k <= |ps|
    decreases k
  {
    if k == 0 then 1 else Numerator(ps, e, k - 1) * Pow(ps[k - 1], PosPart(At(e, k - 1)))
  }

  /** The numerator depends only on the bases and the exponents below `k`. */
  lemma {:induction false} NumeratorAgree(ps: seq<nat>, ps': seq<nat>, a: seq<int>, b: seq<int>, k: nat)
    requires k <= |ps| && k <= |ps'|
    requires forall j :: 0 <= j < k ==> ps[j] == ps'[j] && At(a, j) == At(b, j)
    ensures Numerator(ps, a, k) == Numerator(ps', b, k)
    decreases k
  {
    if k > 0 {
      NumeratorAgree(ps, ps', a, b, k - 1);
    }
  }

  /** Positions past the end of the vector contribute nothing. */
  lemma {:induction false} NumeratorPastEnd(ps: seq<nat>, e: seq<int>, k: nat)
    requires |e| <= k <= |ps|
    ensures Numerator(ps, e, k) == Numerator(ps, e, |e|)
    decreases k
  {
    if k > |e| {
      NumeratorPastEnd(ps, e, k - 1);
    }
  }

  lemma Rearrange(a: int, b: int, x: int, y: int)
    ensures (a * b) * (x * y) == (a * x) * (b * y)
  {
  }

  /** Multiplying two non-negative vectors multiplies the numbers they stand for. */
  lemma {:induction false} NumeratorMul(ps: seq<nat>, a: seq<int>, b: seq<int>, k: nat)
    requires k <= |ps| && NonNegative(a) && NonNegative(b)
    ensures NonNegative(Combined(a, b, Add))
    ensures Numerator(ps, Combined(a, b, Add), k) == Numerator(ps, a, k) * Numerator(ps, b, k)
    decreases k
  {
    var c := Combined(a, b, Add);
    assert NonNegative(c) by {
      forall i | 0 <= i < |c|
        ensures c[i] >= 0
      {
        assert At(c, i) == At(a, i) + At(b, i);
      }
    }
    if k > 0 {
      NumeratorMul(ps, a, b, k - 1);
      var x, y := At(a, k - 1), At(b, k - 1);
      assert x >= 0 && y >= 0 && At(c, k - 1) == x + y;
      PowAdd(ps[k - 1], x, y);
      Rearrange(Numerator(ps, a, k - 1), Numerator(ps, b, k - 1), Pow(ps[k - 1], x), Pow(ps[k - 1], y));
    }
  }

  /** Raising a non-negative exponent at the last position by one multiplies by
      that prime. */
  lemma NumeratorBump(ps: seq<nat>, e: seq<int>, i: nat)
    requires i < |ps| && |e| == i + 1 && e[i] >= 0
    ensures Numerator(ps, e[i := e[i] + 1], i + 1) == Numerator(ps, e, i + 1) * ps[i]
  {
    var e' := e[i := e[i] + 1];
    NumeratorAgree(ps, ps, e, e', i);
    var w, x, p := Numerator(ps, e, i), e[i], ps[i];
    assert At(e', i) == x + 1 && At(e, i) == x;
    assert Pow(p, x + 1) == p * Pow(p, x);
    assert Numerator(ps, e', i + 1) == w * Pow(p, x + 1);
    assert Numerator(ps, e, i + 1) == w * Pow(p, x);
    MulRotate(w, p, Pow(p, x));
  }

  /** The multiplicity of the `j`-th basis prime in the numerator is the
      positive part of its exponent. */
  lemma {:induction false} MultNumerator(ps: seq<nat>, e: seq<int>, j: nat, k: nat)
    requires PrimeBasis(ps) && j < |ps| && k <= |ps|
    ensures Numerator(ps, e, k) >= 1
    ensures Mult(ps[j], Numerator(ps, e, k)) == if j < k then PosPart(At(e, j)) else 0
    decreases k
  {
    var p := ps[j];
    assert IsPrime(p);
    if k == 0 {
      DivModUnique(1, p, 0, 1);
    } else {
      MultNumerator(ps, e, j, k - 1);
      var q, x := ps[k - 1], PosPart(At(e, k - 1));
      assert IsPrime(q);
      MultPrimePow(p, q, x);
      MultMul(p, Numerator(ps, e, k - 1), Pow(q, x));
      assert p == q <==> j == k - 1 by {
        if j != k - 1 {
          assert p != q;
        }
      }
    }
  }

  /** The exponents of the prime factorisation of `n` over the basis `ps`. */
  ghost function Exponents(ps: seq<nat>, n: nat): (e: seq<int>)
    requires n >= 1 && PrimeBasis(ps)
    ensures IsCanonical(e) && NonNegative(e) && |e| <= |ps|
    ensures forall j {:trigger At(e, j)} :: 0 <= j < |ps| ==> At(e, j) == Mult(ps[j], n)
  {
    var t := Tabulate(|ps|, (j: nat) => if j < |ps| then Mult(ps[j], n) else 0);
    ReducedAt(t);
    Reduced(t)
  }

  /** Factorising the number a canonical non-negative vector stands for gives
      the vector back. */
  lemma ExponentsOfNumerator(ps: seq<nat>, e: seq<int>)
    requires PrimeBasis(ps) && NonNegative(e) && IsCanonical(e) && |e| <= |ps|
    ensures Numerator(ps, e, |e|) >= 1
    ensures Exponents(ps, Numerator(ps, e, |e|)) == e
  {
    var n := Numerator(ps, e, |e|);
    if |ps| > 0 {
      MultNumerator(ps, e, 0, |e|);
    } else {
      assert n == 1;
    }
    var f := Exponents(ps, n);
    forall i: nat
      ensures At(f, i) == At(e, i)
    {
      if i < |ps| {
        MultNumerator(ps, e, i, |e|);
      }
    }
    CanonicalUnique(f, e);
  }

  /** Conversion is a homomorphism: the factorisation of a product is the
      product, by `*`, of the factorisations. */
  lemma ExponentsMul(ps: seq<nat>, x: nat, y: nat)
    requires PrimeBasis(ps) && x >= 1 && y >= 1
    ensures x * y >= 1
    ensures Exponents(ps, x * y) == Combined(Exponents(ps, x), Exponents(ps, y), Add)
  {
    MulMono(1, x, y);
    var ex, ey := Exponents(ps, x), Exponents(ps, y);
    var lhs, rhs := Exponents(ps, x * y), Combined(ex, ey, Add);
    forall i: nat
      ensures At(lhs, i) == At(rhs, i)
    {
      if i < |ps| {
        assert IsPrime(ps[i]);
        MultMul(ps[i], x, y);
      }
    }
    CanonicalUnique(lhs, rhs);
  }

  /** A factorisation over the same basis does not change when the basis grows. */
  lemma ExponentsGrow(ps: seq<nat>, ps': seq<nat>, n: nat)
    requires PrimeBasis(ps) && PrimeBasis(ps') && ps <= ps' && n >= 1
    requires |Exponents(ps', n)| <= |ps|
    ensures Exponents(ps, n) == Exponents(ps', n)
  {
    var e, e' := Exponents(ps, n), Exponents(ps', n);
    forall i: nat
      ensures At(e, i) == At(e', i)
    {
      if i < |ps| {
        assert ps[i] == ps'[i];
      }
    }
    CanonicalUnique(e, e');
  }

  /** Every exponent in the factorisation of a `u64` is at most 63, so it fits
      an `i8`. */
  lemma ExponentsAtMost63(ps: seq<nat>, n: nat)
    requires PrimeBasis(ps) && 1 <= n <= U64Max
    ensures forall j :: 0 <= j < |Exponents(ps, n)| ==> Exponents(ps, n)[j] <= 63
    ensures FitsI8(Exponents(ps, n))
  {
    var e := Exponents(ps, n);
    forall j | 0 <= j < |e|
      ensures e[j] <= 63
    {
      assert At(e, j) == e[j];
      var p := ps[j];
      assert IsPrime(p);
      MultPowAtMost(p, n);
      if e[j] >= 64 {
        PowMono(2, p, 64, e[j]);
        TwoPow64();
      }
    }
  }

  // ---------------------------------------------------------------------------
  // The number type

  /** How many zeros end `s`: the `take_while` count in `reduce`. */
  method TrailingZeros(s: seq<int>) returns (k: nat)
    ensures k <= |s| && forall i :: |s| - k <= i < |s| ==> s[i] == 0
    ensures k < |s| ==> s[|s| - 1 - k] != 0
    ensures s[..|s| - k] == Reduced(s)
  {
    k := 0;
    while k < |s| && s[|s| - 1 - k] == 0
      invariant k <= |s| && forall i :: |s| - k <= i < |s| ==> s[i] == 0
    {
      k := k + 1;
    }
    var r := s[..|s| - k];
    forall i: nat
      ensures At(r, i) == At(s, i)
    {
    }
    ReducedAt(s);
    CanonicalUnique(r, Reduced(s));
  }

  /** `Urat`: a non-zero positive rational as the exponents of the store's primes. */
  class Urat {
    var inner: seq<int>

    /** `Urat::new` / `Default`: the number 1, with no exponents. */
    constructor ()
      ensures inner == []
    {
      inner := [];
    }

    /** `reserve`: pads with zero exponents up to `uptoExcl` entries. */
    method Reserve(uptoExcl: nat)
      modifies this
      ensures |inner| == Max(|old(inner)|, uptoExcl) && old(inner) <= inner
      ensures forall i: nat :: At(inner, i) == At(old(inner), i)
    {
      if |inner| < uptoExcl {
        inner := inner + seq(uptoExcl - |inner|, _ => 0);
      }
    }

    /** `reduce`: truncates the trailing zero exponents. */
    method Reduce()
      modifies this
      ensures inner == Reduced(old(inner))
    {
      var k := TrailingZeros(inner);
      inner := inner[..|inner| - k];
    }

    /** `rfr`: reserves room for `rhs`, applies `op` to each pair of exponents
        in place and reduces. */
    method Rfr(rhs: seq<int>, op: Op)
      modifies this
      ensures inner == Combined(old(inner), rhs, op)
    {
      ghost var a := inner;
      Reserve(|rhs|);
      var i := 0;
      while i < |rhs|
        invariant i <= |rhs| <= |inner| == Max(|a|, |rhs|)
        invariant forall j :: 0 <= j < i ==> inner[j] == Apply(op, At(a, j), rhs[j])
        invariant forall j :: i <= j < |inner| ==> inner[j] == At(a, j)
      {
        inner := inner[i := Apply(op, inner[i], rhs[i])];
        i := i + 1;
      }
      ghost var t := Tabulate(Max(|a|, |rhs|), (j: nat) => Apply(op, At(a, j), At(rhs, j)));
      assert inner == t;
      Reduce();
    }

    /** `*=`: adds the exponents of `rhs`. */
    method MulAssign(rhs: Urat)
      modifies this
      ensures inner == Combined(old(inner), old(rhs.inner), Add)
    {
      Rfr(rhs.inner, Add);
    }

    /** `*`: multiplies in place and hands the receiver back. */
    method Mul(rhs: Urat) returns (r: Urat)
      modifies this
      ensures r == this && inner == Combined(old(inner), old(rhs.inner), Add)
    {
      MulAssign(rhs);
      r := this;
    }

    /** `/=`: subtracts the exponents of `rhs`. */
    method DivAssign(rhs: Urat)
      modifies this
      ensures inner == Combined(old(inner), old(rhs.inner), Sub)
    {
      Rfr(rhs.inner, Sub);
    }

    /** `/`: divides in place and hands the receiver back. */
    method Div(rhs: Urat) returns (r: Urat)
      modifies this
      ensures r == this && inner == Combined(old(inner), old(rhs.inner), Sub)
    {
      DivAssign(rhs);
      r := this;
    }

    /** `pow`: multiplies every exponent by `k` in place, reduces and hands the
        receiver back. */
    method Power(k: int) returns (r: Urat)
      modifies this
      ensures r == this && inner == Scaled(old(inner), k)
    {
      ghost var a := inner;
      var i := 0;
      while i < |inner|
        invariant i <= |inner| == |a|
        invariant forall j :: 0 <= j < i ==> inner[j] == a[j] * k
        invariant forall j :: i <= j < |inner| ==> inner[j] == a[j]
      {
        inner := inner[i := inner[i] * k];
        i := i + 1;
      }
      ghost var t := Tabulate(|a|, (j: nat) => At(a, j) * k);
      assert inner == t;
      Reduce();
      r := this;
    }
  }

  // ---------------------------------------------------------------------------
  // Conversion from a non-zero `u64`

  /** The `j`-th stored prime is at least `j + 2`. */
  lemma {:induction false} EntryAtLeast(ps: seq<nat>, j: nat)
    requires IsPrimePrefix(ps) && j < |ps|
    ensures ps[j] >= j + 2
    decreases j
  {
    if j > 0 {
      EntryAtLeast(ps, j - 1);
    }
  }

  /** A prime no larger than the last stored one is stored. */
  lemma StoredIndex(ps: seq<nat>, q: nat) returns (k: nat)
    requires IsPrimePrefix(ps) && IsPrime(q) && q <= Last(ps)
    ensures k < |ps| && ps[k] == q
  {
    k :| 0 <= k < |ps| && ps[k] == q;
  }

  /** None of the first `k` stored primes divides `inp`. */
  ghost predicate NoStoredFactor(ps: seq<nat>, k: nat, inp: nat)
    requires k <= |ps|
    decreases k
  {
    k == 0 || (ps[k - 1] > 0 && inp % ps[k - 1] != 0 && NoStoredFactor(ps, k - 1, inp))
  }

  lemma {:induction false} NoStoredFactorIff(ps: seq<nat>, k: nat, inp: nat)
    requires k <= |ps|
    ensures NoStoredFactor(ps, k, inp) <==> forall j :: 0 <= j < k ==> ps[j] > 0 && inp % ps[j] != 0
    decreases k
  {
    if k > 0 {
      NoStoredFactorIff(ps, k - 1, inp);
    }
  }

  /** While the remainder `inp` is above 1 and none of the first `pidx` stored
      primes divides it, it has a prime factor above all of them, and it is
      larger than `pidx + 1`. */
  lemma UnconsumedFactor(ps: seq<nat>, pidx: nat, inp: nat) returns (q: nat)
    requires IsPrimePrefix(ps) && pidx <= |ps| && inp >= 2
    requires NoStoredFactor(ps, pidx, inp)
    ensures IsPrime(q) && q <= inp && inp % q == 0
    ensures pidx > 0 ==> q > ps[pidx - 1]
    ensures inp >= pidx + 2
  {
    NoStoredFactorIff(ps, pidx, inp);
    q := PrimeFactor(inp);
    if pidx > 0 {
      if q <= Last(ps) {
        var k := StoredIndex(ps, q);
        assert k >= pidx;
      }
      EntryAtLeast(ps, pidx - 1);
    }
  }

  /** The three numbers above `u64::MAX - 3` are composite, so no prime factor of
      a `u64` lies beyond the store's range. */
  lemma TopOfRangeComposite()
    ensures !IsPrime(U64Max) && !IsPrime(U64Max - 1) && !IsPrime(U64Max - 2)
  {
    assert U64Max % 3 == 0;
    assert (U64Max - 1) % 2 == 0;
    assert (U64Max - 2) % 13 == 0;
  }

  /** When the iterator has consumed every stored prime and a prime factor of a
      `u64` is still unaccounted for, a prime lies between the last stored one
      and `u64::MAX - 2`, so `find_next` cannot run out of range. */
  lemma RangeNotExhausted(ps: seq<nat>, pidx: nat, q: nat)
    requires IsPrimePrefix(ps) && pidx <= |ps| && IsPrime(q) && q <= U64Max
    requires pidx > 0 ==> q > ps[pidx - 1]
    ensures pidx == |ps| ==> !NoPrimeBetween(Last(ps), U64Max - 2)
  {
    TopOfRangeComposite();
  }

  /** Dividing the remainder by a factor moves that factor into the numerator. */
  lemma DivideOutStep(inp: nat, p: nat, w: nat)
    requires p >= 2 && inp >= 1 && inp % p == 0
    ensures 1 <= inp / p < inp && (inp / p) * (w * p) == inp * w
  {
    QuotientBounds(p, inp);
    assert (inp / p) * (w * p) == (p * (inp / p)) * w;
  }

  /** A number that does not divide `inp` does not divide a quotient of it. */
  lemma QuotientIndivisible(inp: nat, p: nat, d: nat)
    requires p >= 2 && d >= 1 && inp % p == 0 && inp % d != 0
    ensures (inp / p) % d != 0
  {
    if (inp / p) % d == 0 {
      DividesMultiple(d, inp / p, p);
      QuotientBounds(p, inp);
    }
  }

  /** The state of `from` before the prime at position `pidx` is taken: none
      of the primes consumed so far divides the remainder `inp`, and the
      exponents counted so far times the remainder give back `n`. */
  ghost predicate Progress(ps: seq<nat>, e: seq<int>, pidx: nat, inp: nat, n: nat)
  {
    && pidx <= |ps| && |e| <= pidx && NonNegative(e) && IsCanonical(e)
    && 1 <= inp && inp * Numerator(ps, e, |e|) == n
    && NoStoredFactor(ps, pidx, inp)
  }

  /** Growing the store keeps the progress made on its prefix. */
  lemma ProgressOnLargerStore(ps: seq<nat>, ps': seq<nat>, e: seq<int>, pidx: nat, inp: nat, n: nat)
    requires ps <= ps' && Progress(ps, e, pidx, inp, n)
    ensures Progress(ps', e, pidx, inp, n)
  {
    NumeratorAgree(ps, ps', e, e, |e|);
    NoStoredFactorIff(ps, pidx, inp);
    NoStoredFactorIff(ps', pidx, inp);
  }

  /** A prime that does not divide the remainder is passed over. */
  lemma ProgressPastPrime(ps: seq<nat>, e: seq<int>, pidx: nat, inp: nat, n: nat)
    requires pidx < |ps| && ps[pidx] > 0 && inp % ps[pidx] != 0 && Progress(ps, e, pidx, inp, n)
    ensures Progress(ps, e, pidx + 1, inp, n)
  {
  }

  /** While the remainder is above 1 the iterator has a prime to give: either
      an unconsumed stored prime, or, on the store's last prime, room in the
      `u64` range for `find_next` to find one. */
  lemma PrimeAvailable(ps: seq<nat>, e: seq<int>, pidx: nat, inp: nat, n: nat)
    requires IsPrimePrefix(ps) && 2 <= inp && n <= U64Max && Progress(ps, e, pidx, inp, n)
    ensures pidx == |ps| ==> !NoPrimeBetween(Last(ps), U64Max - 2)
  {
    var q := UnconsumedFactor(ps, pidx, inp);
    MultNumerator(ps, e, 0, |e|);
    MulMono(1, Numerator(ps, e, |e|), inp);
    RangeNotExhausted(ps, pidx, q);
  }

  /** One round of the inner `while` of `from`: dividing the remainder by the
      prime at `pidx` and bumping its exponent keeps their product at `n`. */
  lemma DivideOutRound(ps: seq<nat>, e: seq<int>, pidx: nat, rest: nat, n: nat)
    requires PrimeBasis(ps) && pidx < |ps| && |e| == pidx + 1 && NonNegative(e)
    requires 1 <= rest && rest % ps[pidx] == 0 && rest * Numerator(ps, e, pidx + 1) == n
    requires forall j :: 0 <= j < pidx ==> rest % ps[j] != 0
    ensures NonNegative(e[pidx := e[pidx] + 1])
    ensures 1 <= rest / ps[pidx] < rest
    ensures (rest / ps[pidx]) * Numerator(ps, e[pidx := e[pidx] + 1], pidx + 1) == n
    ensures Mult(ps[pidx], rest / ps[pidx]) + 1 == Mult(ps[pidx], rest)
    ensures forall j :: 0 <= j < pidx ==> (rest / ps[pidx]) % ps[j] != 0
  {
    var pval := ps[pidx];
    assert IsPrime(pval);
    NumeratorBump(ps, e, pidx);
    DivideOutStep(rest, pval, Numerator(ps, e, pidx + 1));
    forall j | 0 <= j < pidx
      ensures (rest / pval) % ps[j] != 0
    {
      QuotientIndivisible(rest, pval, ps[j]);
    }
  }

  /** The body of `from` for a prime `ps[pidx]` dividing the remainder: reserves
      its position, then divides it out of the remainder as often as it goes,
      counting each division in the exponent. */
  method CountFactor(u: Urat, ps: seq<nat>, pidx: nat, inp: nat, n: nat) returns (rest: nat)
    requires PrimeBasis(ps) && pidx < |ps|
    requires Progress(ps, u.inner, pidx, inp, n) && inp % ps[pidx] == 0
    modifies u
    ensures Progress(ps, u.inner, pidx + 1, rest, n) && rest < inp
    ensures |u.inner| == pidx + 1 && u.inner[..|old(u.inner)|] == old(u.inner)
    ensures u.inner[pidx] == Mult(ps[pidx], inp)
  {
    var pval := ps[pidx];
    assert IsPrime(pval);
    NoStoredFactorIff(ps, pidx, inp);
    ghost var e0 := u.inner;
    u.Reserve(pidx + 1);
    forall i | 0 <= i < |u.inner|
      ensures u.inner[i] >= 0
    {
      assert At(u.inner, i) == At(e0, i);
    }
    NumeratorAgree(ps, ps, e0, u.inner, pidx + 1);
    NumeratorPastEnd(ps, e0, pidx + 1);
    assert u.inner[pidx] == 0;
    rest := inp;
    while rest % pval == 0
      invariant |u.inner| == pidx + 1 && NonNegative(u.inner) && u.inner[..|e0|] == e0
      invariant rest % pval == 0 || u.inner[pidx] >= 1
      invariant 1 <= rest <= inp && rest * Numerator(ps, u.inner, pidx + 1) == n
      invariant u.inner[pidx] + Mult(pval, rest) == Mult(pval, inp)
      invariant forall j :: 0 <= j < pidx ==> rest % ps[j] != 0
      decreases rest
    {
      DivideOutRound(ps, u.inner, pidx, rest, n);
      u.inner := u.inner[pidx := u.inner[pidx] + 1];
      rest := rest / pval;
    }
    NoStoredFactorIff(ps, pidx + 1, rest);
  }

  /** One round of the `for` loop of `from`: takes the next prime from the
      iterator and, when it divides the remainder, divides it out. */
  method FactorRound(it: PrimeIter, u: Urat, pidx: nat, inp: nat, n: nat) returns (rest: nat)
    requires it.Valid() && it.pos == pidx && 2 <= inp && n <= U64Max
    requires Progress(it.store.inner, u.inner, pidx, inp, n)
    modifies it, it.store, u
    ensures it.Valid() && it.pos == pidx + 1 && rest <= inp
    ensures old(it.store.inner) <= it.store.inner
    ensures |it.store.inner| == Max(|old(it.store.inner)|, pidx + 1)
    ensures Progress(it.store.inner, u.inner, pidx + 1, rest, n)
    ensures rest == 1 ==> |u.inner| == pidx + 1
  {
    var store := it.store;
    PrimeAvailable(store.inner, u.inner, pidx, inp, n);
    ghost var before := store.inner;
    var r := it.Next();
    assert r.Done?;
    var pval := r.value;
    ProgressOnLargerStore(before, store.inner, u.inner, pidx, inp, n);
    if inp % pval == 0 {
      rest := CountFactor(u, store.inner, pidx, inp, n);
    } else {
      rest := inp;
      ProgressPastPrime(store.inner, u.inner, pidx, inp, n);
    }
  }

  /** When the remainder reaches 1, the counted exponents are the factorisation. */
  lemma Factored(ps: seq<nat>, e: seq<int>, pidx: nat, n: nat)
    requires PrimeBasis(ps) && Progress(ps, e, pidx, 1, n) && |e| == pidx
    ensures |e| <= |ps| && n >= 1 && Numerator(ps, e, |e|) == n
    ensures e == Exponents(ps, n)
  {
    ExponentsOfNumerator(ps, e);
  }

  /** The `for` loop of `from` on a remainder `n` above 1: takes primes from
      the iterator until the remainder is 1.  The store grows exactly as far as
      the largest prime factor. */
  method FactorAll(it: PrimeIter, u: Urat, n: nat)
    requires it.Valid() && it.pos == 0 && 2 <= n <= U64Max && u.inner == []
    modifies it, it.store, u
    ensures it.Valid() && old(it.store.inner) <= it.store.inner
    ensures |it.store.inner| == Max(|old(it.store.inner)|, |u.inner|)
    ensures Progress(it.store.inner, u.inner, |u.inner|, 1, n)
  {
    var inp := n;
    var pidx: nat := 0;
    ghost var ps0 := it.store.inner;
    while true
      invariant it.Valid() && it.pos == pidx
      invariant ps0 <= it.store.inner && |it.store.inner| == Max(|ps0|, pidx)
      invariant 2 <= inp && Progress(it.store.inner, u.inner, pidx, inp, n)
      decreases inp - pidx
    {
      ghost var _ := UnconsumedFactor(it.store.inner, pidx, inp);
      inp := FactorRound(it, u, pidx, inp, n);
      pidx := pidx + 1;
      if inp == 1 {
        break;
      }
    }
  }

  /** `From<NonZeroU64>`: the exponent vector of `n` over the store's primes,
      growing the store as far as the largest prime factor of `n`. */
  method FromU64(store: Store, n: nat) returns (u: Urat)
    requires store.Valid() && 1 <= n <= U64Max
    modifies store
    ensures fresh(u) && store.Valid() && old(store.inner) <= store.inner
    ensures |u.inner| <= |store.inner| && NonNegative(u.inner) && IsCanonical(u.inner)
    ensures Numerator(store.inner, u.inner, |u.inner|) == n
    ensures u.inner == Exponents(store.inner, n)
    ensures |store.inner| == Max(|old(store.inner)|, |u.inner|)
  {
    u := new Urat();
    if n == 1 {
      ExponentsOfNumerator(store.inner, []);
      return;
    }
    var it := new PrimeIter(store);
    FactorAll(it, u, n);
    Factored(store.inner, u.inner, |u.inner|, n);
  }

  // ---------------------------------------------------------------------------
  // Scenarios

  /** `u64::MAX / 2 + 1` is two to the 63rd. */
  lemma HalfRangeIsPowerOfTwo()
    ensures U64Max / 2 + 1 == Pow(2, 63)
  {
    TwoPow64();
    assert Pow(2, 64) == 2 * Pow(2, 63);
  }

  /** 2 and 4 have exponent vectors `[1]` and `[2]` over any prime basis
      starting with 2. */
  lemma PowerOfTwoExponents(ps: seq<nat>)
    requires PrimeBasis(ps) && |ps| >= 1 && ps[0] == 2
    ensures Exponents(ps, 2) == [1] && Exponents(ps, 4) == [2]
  {
    ExponentsOfNumerator(ps, [1]);
    ExponentsOfNumerator(ps, [2]);
  }

  /** The numerator of a two-entry vector. */
  lemma NumeratorOfPair(ps: seq<nat>, a: nat, b: nat)
    requires |ps| >= 2
    ensures Numerator(ps, [a, b], 2) == Pow(ps[0], a) * Pow(ps[1], b)
  {
    assert At([a, b], 0) == a && At([a, b], 1) == b;
    assert Numerator(ps, [a, b], 1) == Pow(ps[0], a);
  }

  /** 3 and 6 have exponent vectors `[0, 1]` and `[1, 1]` over any prime basis
      starting with 2 and 3. */
  lemma MultipleOfThreeExponents(ps: seq<nat>)
    requires PrimeBasis(ps) && |ps| >= 2 && ps[0] == 2 && ps[1] == 3
    ensures Exponents(ps, 3) == [0, 1] && Exponents(ps, 6) == [1, 1]
  {
    NumeratorOfPair(ps, 0, 1);
    ExponentsOfNumerator(ps, [0, 1]);
    NumeratorOfPair(ps, 1, 1);
    ExponentsOfNumerator(ps, [1, 1]);
  }

  /** `u64::MAX / 2 + 1` has exponent vector `[63]` over any prime basis
      starting with 2. */
  lemma HalfRangeExponents(ps: seq<nat>)
    requires PrimeBasis(ps) && |ps| >= 1 && ps[0] == 2
    ensures Exponents(ps, U64Max / 2 + 1) == [63]
  {
    ExponentsOfNumerator(ps, [63]);
    HalfRangeIsPowerOfTwo();
  }

  /** `From<NonZeroU64>` on a fresh store: the result stands for `n` over the
      store's primes, which start with 2 and 3. */
  method ConvertFresh(n: nat) returns (e: seq<int>, ghost ps: seq<nat>)
    requires 1 <= n <= U64Max
    ensures IsPrimePrefix(ps) && PrimeBasis(ps) && |ps| >= 2 && ps[0] == 2 && ps[1] == 3
    ensures |e| <= |ps| && Numerator(ps, e, |e|) == n
    ensures e == Exponents(ps, n)
  {
    var store := new Store();
    var u := FromU64(store, n);
    e, ps := u.inner, store.inner;
    FirstTwoPrimes(ps);
  }

  /** The `tconv_basic` test: converting 1, 2, 3, 4, 6 and `u64::MAX / 2 + 1`
      yields the listed exponent vectors. */
  method ConversionExamples() returns (one: seq<int>, two: seq<int>, three: seq<int>,
                                       four: seq<int>, six: seq<int>, half: seq<int>)
    ensures one == [] && two == [1] && three == [0, 1] && four == [2] && six == [1, 1]
    ensures half == [63]
  {
    ghost var ps: seq<nat>;
    one, ps := ConvertFresh(1);
    ExponentsOfNumerator(ps, []);
    two, ps := ConvertFresh(2);
    PowerOfTwoExponents(ps);
    three, ps := ConvertFresh(3);
    MultipleOfThreeExponents(ps);
    four, ps := ConvertFresh(4);
    PowerOfTwoExponents(ps);
    six, ps := ConvertFresh(6);
    MultipleOfThreeExponents(ps);
    half, ps := ConvertFresh(U64Max / 2 + 1);
    HalfRangeExponents(ps);
  }

  /** The `fnzu64_always_reduced` test: a converted value is left unchanged by
      `reduce`. */
  method AlwaysReduced(n: nat) returns (converted: seq<int>, reduced: seq<int>)
    requires 1 <= n <= U64Max
    ensures converted == reduced
  {
    var store := new Store();
    var u := FromU64(store, n);
    converted := u.inner;
    u.Reduce();
    reduced := u.inner;
    ReducedFixpoint(converted);
  }
}
