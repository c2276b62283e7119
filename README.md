# pration in Dafny

A model of the `pration` crate. The crate represents a positive rational number
as the vector of its prime exponents. Entry `i` of the vector is the exponent
of the `i`-th prime, and the primes come from a shared, growable prime store.

- `primes.dfy` (module `Primes`) models `src/primes.rs`:
  - the prime store (`Store::new`, `get`, `find_next`, `get_at`), as a class
    over a sequence of naturals;
  - the never-ending prime cursor `OuterIter` and `iter()`, as a class with a
    position and a read/write guard mode.
- `urat.dfy` (module `Pration`) models `src/lib.rs`:
  - `Urat`, as a class whose `inner` exponent sequence the methods update in
    place (`new`, `reserve`, `reduce`, `rfr`, `*=`, `*`, `/=`, `/`, `pow`);
  - `From<NonZeroU64>`, which factorises a `u64` against the store through
    the cursor;
  - the two tests of the file, as scenario methods.
- `number_theory.dfy` (module `NumberTheory`) holds the arithmetic that both
  modules are specified in: primality, powers, divisibility, Euclid's lemma,
  and the multiplicity `Mult(p, n)` of a prime in a number.

The state-changing operations are proved against specification functions:
- `Reduced`: trims trailing zeros;
- `Combined`: pointwise sum or difference, with absent positions read as 0, then reduced;
- `Scaled`: pointwise product, then reduced;
- `Exponents`: the multiplicity of each stored prime;
- `IsNextPrime`: the least prime above a number.

The algebra of the number type is then proved about those functions as
lemmas: commutativity, associativity, `a / a == 1`, the power laws, and the
round trip between a vector and the number it stands for.

Two points where the model follows what the code does rather than a reading
of its intent:
- `get_at` grows the store only while it is shorter than `n`, then reads
  `inner[n]` (src/primes.rs:68-73). Returning `inner[n]` evidently intends
  position `n` to exist afterwards; when the store was short, the code reads
  one past the end instead (see Findings).
- `From<NonZeroU64>` never calls `reduce` (src/lib.rs:105-136); the
  `fnzu64_always_reduced` test (src/lib.rs:164-172) checks only that the
  result is already reduced. `Pration.FromU64` proves that the result is
  canonical, and `Pration.AlwaysReduced` proves that a following `reduce`
  leaves it unchanged.

## Model

| member | source | states |
|---|---|---|
| Primes.SeedIsPrimesBelow100 | src/primes.rs:25-38 | the seed list has 25 entries, starts with 2, strictly increases, holds only primes, and a number below 100 is in it exactly when it is prime |
| Primes.SeedIsPrimePrefix | src/primes.rs:25-38 | the seed is a prefix of the primes: every prime up to its last entry is in it |
| Primes.FirstTwoPrimes | src/primes.rs:29-30 | every prefix of the primes with at least two entries starts with 2 and 3 |
| Primes.AfterSeed | src/primes.rs:29-35 | the prime stored after the seed is 101, and a store holding only the seed can still grow within `u64` |
| Primes.Store.constructor | src/primes.rs:25-38 | `Store::new` holds exactly the seed primes, which is a valid store |
| Primes.Store.Get | src/primes.rs:40-42 | `get` returns the cached primes unchanged; they are a prefix of the primes that starts with the seed |
| Primes.ValidContentStartsWithSeed | src/primes.rs:25-38 | every valid store content starts with the 25 seed primes |
| Primes.PrimePrefixesAgree | src/lib.rs:19-21 | two prefixes of the primes agree at every position both hold, so a position stands for the same prime whatever the store's length |
| Primes.SquareAtMostPrefix | src/primes.rs:58 | the `take_while`: the count of leading divisors whose square is at most `t`; every counted one qualifies and the next one does not |
| Primes.AnyDivides | src/primes.rs:55-59 | the trial-division loop answers true exactly when a divisor among those with square at most `t` divides `t` |
| Primes.RejectedIsComposite | src/primes.rs:55-62 | a candidate that trial division by the stored odd primes rejects is not prime |
| Primes.NothingSkipped | src/primes.rs:50-62 | when every odd candidate between the last entry and `t` was rejected, no prime lies strictly between them |
| Primes.StoredFactorIsTried | src/primes.rs:47-59 | a stored odd prime dividing `t` whose square is at most `t` is among the divisors tried on `t` |
| Primes.AcceptedIsNextPrime | src/primes.rs:50-63 | the accepted candidate, odd and above the last entry after rejecting all odd candidates before it, is the least prime above the last entry |
| Primes.ExtendPrimePrefix | src/primes.rs:65 | pushing the next prime onto a prefix of the primes gives a prefix of the primes |
| Primes.AppendNextPrime | src/primes.rs:52-54 | pushing the next prime, when it stays within `u64::MAX - 3`, keeps the store valid |
| Primes.SearchCandidate | src/primes.rs:50-63 | the candidate loop steps by two to an odd `t` above `last`; every odd number skipped on the way was rejected; it either accepts a `t` within `u64::MAX - 3` that passes trial division, or stops past that bound |
| Primes.Store.FindNext | src/primes.rs:45-66 | on success it appends exactly one entry, keeps the old entries, and the new entry is the least prime above the old last entry, passes trial division, and every odd number skipped was rejected; on the panic it leaves the store unchanged, and no prime lies between the last entry and `u64::MAX - 2` |
| Primes.Store.GetAt | src/primes.rs:68-73 | as written: a cached position is returned with the store unchanged; for `n` at or past the length, the store either grows to exactly `n` entries and the read panics out of bounds, or it runs out of `u64` primes first |
| Primes.Store.GetAtFixed | src/primes.rs:68-73 | as intended: a returned value is the entry at position `n`, which now exists; a cached position leaves the store unchanged; the only panic is running out of `u64` primes |
| Primes.PrimeIter.constructor | src/primes.rs:105-110 | `iter()` starts at position 0 holding the read guard |
| Primes.PrimeIter.Next | src/primes.rs:76-103 | `next` yields the entry at `pos` and advances by one. Below the length the store and mode are unchanged. At the length it takes the write guard and grows the store by exactly one prime, so `pos` is the new length. The write guard is never given back. It never yields `None`; its only failure is the `find_next` panic |
| Primes.PrimePrefixHasNoEarlierDivisor | src/primes.rs:114-127 | in a prefix of the primes no entry divides a later one |
| Primes.ExtendAndCheck | src/primes.rs:114-127 | the `primes1000` test: after `count` calls of `find_next` on a fresh store, the store starts with the seed, holds `25 + count` entries unless the `u64` primes ran out, and no entry divides a later one |
| Primes.GetAtPastSeed | src/primes.rs:68-73 | `get_at(25)` on a fresh store panics out of bounds |
| Primes.GetAtFixedPastSeed | src/primes.rs:68-73 | the corrected `get_at(25)` on a fresh store yields 101 |
| Pration.CanonicalUnique | src/lib.rs:16-22 | two canonical exponent vectors that agree at every position, with absent positions read as 0, are equal, so the derived equality is equality of values |
| Pration.Reduced | src/lib.rs:44-55 | the trimmed vector is canonical and a prefix of the input, and everything cut off is zero |
| Pration.ReducedAt | src/lib.rs:44-55 | trimming keeps the exponent at every position, so the number is unchanged |
| Pration.ReducedFixpoint | src/lib.rs:44-55 | trimming leaves a vector unchanged exactly when it is canonical |
| Pration.ReducedIdempotent | src/lib.rs:44-55 | trimming twice equals trimming once |
| Pration.TrailingZeros | src/lib.rs:46-53 | the `take_while` count: the last `k` entries are zero, the entry before them is not, and dropping them gives the trimmed vector |
| Pration.Combined | src/lib.rs:57-61 | the combination is canonical, and each position is the sum or difference of the two exponents, with absent positions read as 0 |
| Pration.Scaled | src/lib.rs:96-103 | the scaled vector is canonical, and each position is the exponent times `k` |
| Pration.MulCommutes | src/lib.rs:64-78 | multiplication commutes |
| Pration.MulAssociates | src/lib.rs:64-78 | multiplication associates |
| Pration.MulByOne | src/lib.rs:25-36 | multiplying by the default value 1 only trims |
| Pration.DivUndoesMul | src/lib.rs:64-94 | dividing by `b` after multiplying by `b` gives back the trimmed original |
| Pration.DivSelf | src/lib.rs:80-85 | `a / a` is the empty vector |
| Pration.PowZero | src/lib.rs:96-103 | `pow(0)` is the empty vector |
| Pration.PowOne | src/lib.rs:96-103 | `pow(1)` only trims |
| Pration.PowSucc | src/lib.rs:96-103 | `pow(k + 1)` equals `pow(k)` times the base |
| Pration.PowDistributes | src/lib.rs:96-103 | a power of a product is the product of the powers |
| Pration.PowPow | src/lib.rs:96-103 | `pow(k)` of `pow(j)` is `pow(j * k)` |
| Pration.Urat.constructor | src/lib.rs:25-36 | `new` / `Default` is the empty vector, the number 1 |
| Pration.Urat.Reserve | src/lib.rs:38-42 | the length becomes the larger of the old length and the request, old entries are kept, and new ones are zero |
| Pration.Urat.Reduce | src/lib.rs:44-55 | the vector becomes its trimmed form |
| Pration.Urat.Rfr | src/lib.rs:57-61 | the vector becomes the pointwise combination with `rhs`, zero-extended, then trimmed |
| Pration.Urat.MulAssign | src/lib.rs:64-69 | the vector becomes the pointwise sum with `rhs`, trimmed |
| Pration.Urat.Mul | src/lib.rs:71-78 | `*` multiplies the receiver in place and returns it |
| Pration.Urat.DivAssign | src/lib.rs:80-85 | the vector becomes the pointwise difference with `rhs`, trimmed, with no check against negative exponents |
| Pration.Urat.Div | src/lib.rs:87-94 | `/` divides the receiver in place and returns it |
| Pration.Urat.Power | src/lib.rs:96-103 | every exponent is multiplied by `k`, then the vector is trimmed, and the receiver is returned |
| Pration.NumeratorAgree | src/lib.rs:19-21 | the number a vector stands for depends only on the primes at its positions, so a longer store gives the same number |
| Pration.NumeratorMul | src/lib.rs:64-69 | for non-negative vectors, the number the product vector stands for is the product of the two numbers |
| Pration.NumeratorBump | src/lib.rs:124 | adding one to the exponent at `i` multiplies the number by the `i`-th prime |
| Pration.MultNumerator | src/lib.rs:105-136 | the multiplicity of the `j`-th prime in the number a vector stands for is that vector's exponent at `j` (its positive part) |
| Pration.Exponents | src/lib.rs:105-136 | the factorisation of `n` over the store: canonical, non-negative, no longer than the store, and each position is the multiplicity of that prime in `n` |
| Pration.ExponentsOfNumerator | src/lib.rs:105-136 | round trip: factorising the number that a canonical non-negative vector stands for gives back that vector |
| Pration.ExponentsMul | src/lib.rs:64-69 | conversion turns multiplication of numbers into `*` of vectors: the factorisation of `x * y` is the pointwise sum of the factorisations of `x` and `y` |
| Pration.ExponentsGrow | src/lib.rs:19-21 | a factorisation that fits the shorter of two stores is the same over both |
| Pration.ExponentsAtMost63 | src/lib.rs:122-123 | every exponent of a `u64` is at most 63, so it fits an `i8` |
| Pration.UnconsumedFactor | src/lib.rs:114-133 | a remainder of at least 2 with no factor among the primes already passed has a prime factor above them |
| Pration.TopOfRangeComposite | src/primes.rs:52-54 | `u64::MAX`, `u64::MAX - 1` and `u64::MAX - 2` are composite |
| Pration.RangeNotExhausted | src/lib.rs:114-133 | when a prime factor of a `u64` lies beyond the store, the store can still grow, so the cursor in `from` never panics |
| Pration.PrimeAvailable | src/lib.rs:114 | while the remainder is at least 2, the cursor at the end of the store can still grow it |
| Pration.DivideOutStep | src/lib.rs:126-128 | dividing the remainder by a prime factor leaves a quotient of at least 1 that is strictly smaller, and keeps the product with the exponent's number |
| Pration.ProgressPastPrime | src/lib.rs:115-117 | skipping a prime that does not divide the remainder keeps the loop invariant |
| Pration.DivideOutRound | src/lib.rs:121-129 | one turn of the inner `while`: the remainder shrinks but stays at least 1, the product of remainder and number stays `n`, the prime's multiplicity in the remainder drops by one, and no earlier prime divides it |
| Pration.CountFactor | src/lib.rs:118-129 | `reserve` then the inner `while`: the exponent at `pidx` becomes the multiplicity of that prime in the remainder, earlier entries are kept, and the smaller remainder times the number is still `n` |
| Pration.FactorRound | src/lib.rs:114-133 | one turn of the `for` loop: the cursor advances by one, the store grows only up to that position, and the invariant holds for the next prime |
| Pration.FactorAll | src/lib.rs:114-133 | the `for` loop ends with remainder 1, and the store is no longer than the larger of its old length and the result's length |
| Pration.Factored | src/lib.rs:130-135 | when the remainder is 1 the vector stands for `n` and is its factorisation |
| Pration.FromU64 | src/lib.rs:105-136 | the result is canonical, non-negative, stands for `n`, and equals the factorisation of `n`. The store grows only as far as the result needs it (not at all for 1) and keeps its old entries |
| Pration.ConvertFresh | src/lib.rs:154 | converting on a fresh store yields a vector that stands for `n` over the store's primes, a prefix of the primes starting with 2 and 3, and equals the factorisation of `n` over them |
| Pration.HalfRangeIsPowerOfTwo | src/lib.rs:151 | `u64::MAX / 2 + 1` is 2 to the 63rd |
| Pration.PowerOfTwoExponents | src/lib.rs:147-149 | 2 and 4 factorise as `[1]` and `[2]` |
| Pration.MultipleOfThreeExponents | src/lib.rs:148-150 | 3 and 6 factorise as `[0, 1]` and `[1, 1]` |
| Pration.HalfRangeExponents | src/lib.rs:151 | `u64::MAX / 2 + 1` factorises as `[63]` |
| Pration.ConversionExamples | src/lib.rs:143-162 | the `tconv_basic` test: 1, 2, 3, 4, 6 and `u64::MAX / 2 + 1` convert to `[]`, `[1]`, `[0, 1]`, `[2]`, `[1, 1]` and `[63]` |
| Pration.AlwaysReduced | src/lib.rs:164-172 | the `fnzu64_always_reduced` test: `reduce` leaves every converted value unchanged, for every non-zero `u64` |

## Left out

- The global `PRIMES` (a `Lazy<RwLock<Store>>`) and its lock guards are not modelled. One store is passed explicitly and has a single caller. Concurrent growth, and the `expect` on a poisoned lock, are outside the model.
- The read and write guards of `OuterIter` are reduced to the two-valued `Mode`. The model keeps only that a cursor moves from read to write and never back.
- A Rust panic becomes the `Panicked` outcome, or `ok == false` in `FindNext`. Unwinding is not modelled.
- The `serde` derive, and the `Clone` and `Debug` derives, are not modelled. The derived equality is sequence equality.
- The generic exponent type `E` is modelled as an unbounded `int`. The arithmetic of `*`, `/` and `pow` cannot overflow in the model:
  - Pration.Urat.MulAssign: does not model `E` overflow of the exponent sum (a panic in debug builds, wrap-around in release).
  - Pration.Urat.DivAssign: does not model `E` overflow of the exponent difference.
  - Pration.Urat.Rfr: does not model `E` overflow in the combining closure.
  - Pration.Urat.Power: does not model `E` overflow of the exponent product.
  - Pration.Urat.Mul: inherits the overflow gap of `MulAssign`.
  - Pration.Urat.Div: inherits the overflow gap of `DivAssign`.
- Pration.FromU64: counts exponents in an unbounded `int`. `ExponentsAtMost63` proves that every count fits an `i8`, so no overflow can happen.
- `*`, `/` and `pow` take `self` by value in Rust. The model updates the receiver in place and returns it. Aliasing between the receiver and the right-hand side is not excluded, and the contracts are stated on the old contents of both.
- Primes.SquareAtMostPrefix: computes `i * i` on unbounded naturals. It does not model `u64` overflow of that square for stored primes above 2^32.
- Primes.AnyDivides: inherits the square-overflow gap of `SquareAtMostPrefix`.
- `usize` widths of positions and lengths are unbounded naturals.

## Findings

| source | as written | input that shows it | evidently intended | confidence | as-written member | corrected member |
|---|---|---|---|---|---|---|
| src/primes.rs:68-73 | `get_at` grows the store while `len < n`, then reads `inner[n]` | `get_at(25)` on a fresh store of 25 primes: the loop does not run, and `inner[25]` is out of bounds | grow while `len <= n`, so that `get_at(25)` yields 101 | high (not executed) | Primes.GetAtPastSeed | Primes.GetAtFixedPastSeed |
