/** The prime store: a growable list of primes seeded with the primes below 100,
    extended one prime at a time by trial division, and a forward cursor over it
    that grows the store when it runs past the cached primes.

    The process-wide lock around the store is not modelled: one store is passed
    explicitly and has one caller at a time.  The iterator's read guard and write
    guard become the two values of `Mode`. */
module Primes {
  import opened NumberTheory

  /** `u64::MAX`, the largest value a stored prime can hold. */
  const U64Max: nat := 0xFFFF_FFFF_FFFF_FFFF

  /** Why an operation of the store aborts (a Rust panic). */
  datatype Fault = PrimeRangeExhausted | IndexOutOfBounds

  /** The result of an operation that may abort. */
  datatype Outcome<T> = Done(value: T) | Panicked(fault: Fault)

  /** Which guard on the store the iterator holds. */
  datatype Mode = Read | Write

  /** The primes between 1 and 100 the store starts with. */
  function SeedPrimes(): seq<nat>
  {
    [2, 3, 5, 7,
     11, 13, 17, 19,
     23, 29, 31, 37,
     41, 43, 47, 53, 59,
     61, 67, 71, 73, 79,
     83, 89, 97]
  }

  function Last(s: seq<nat>): nat
    requires |s| > 0
  {
    s[|s| - 1]
  }

  ghost predicate StrictlyIncreasing(s: seq<nat>)
  {
    forall i, j :: 0 <= i < j < |s| ==> s[i] < s[j]
  }

  /** `s` holds exactly the first `|s|` primes, in increasing order. */
  ghost predicate IsPrimePrefix(s: seq<nat>)
  {
    && |s| >= 1
    && s[0] == 2
    && StrictlyIncreasing(s)
    && (forall i :: 0 <= i < |s| ==> IsPrime(s[i]))
    && (forall p: nat :: IsPrime(p) && p <= Last(s) ==> p in s)
  }

  /** No prime lies strictly between `lo` and `hi`. */
  ghost predicate NoPrimeBetween(lo: nat, hi: nat)
  {
    forall c: nat :: lo < c < hi ==> !IsPrime(c)
  }

  /** `t` is the least prime above `last`. */
  ghost predicate IsNextPrime(last: nat, t: nat)
  {
    last < t && IsPrime(t) && NoPrimeBetween(last, t)
  }

  /** No entry divides a later entry. */
  ghost predicate NoEarlierDivisor(s: seq<nat>)
  {
    forall i, j :: 0 <= j < i < |s| ==> s[j] > 0 && s[i] % s[j] != 0
  }

  // ---------------------------------------------------------------------------
  // The seed, checked against a sieve

  /** Not a multiple of 2, 3, 5 or 7 other than those four themselves. */
  predicate SurvivesSmallSieve(n: nat)
  {
    && n >= 2
    && (n == 2 || n % 2 != 0)
    && (n == 3 || n % 3 != 0)
    && (n == 5 || n % 5 != 0)
    && (n == 7 || n % 7 != 0)
  }

  /** Below 121 = 11 * 11, sieving by 2, 3, 5 and 7 finds exactly the primes. */
  lemma SmallPrimeIff(n: nat)
    requires n < 121
    ensures IsPrime(n) <==> SurvivesSmallSieve(n)
  {
    if IsPrime(n) {
      assert n > 2 ==> n % 2 != 0;
      assert n > 3 ==> n % 3 != 0;
      assert n > 5 ==> n % 5 != 0;
      assert n > 7 ==> n % 7 != 0;
    } else if n >= 2 {
      var p := PrimeFactor(n);
      SquareBelow(p, 11);
      PrimeBelow11(p);
    }
  }

  /** The primes below 11 are 2, 3, 5 and 7. */
  lemma PrimeBelow11(p: nat)
    requires IsPrime(p) && p < 11
    ensures p == 2 || p == 3 || p == 5 || p == 7
  {
    assert p > 2 ==> p % 2 != 0;
    assert p > 3 ==> p % 3 != 0;
  }

  lemma SeedSurvivesSmallSieve()
    ensures forall i :: 0 <= i < |SeedPrimes()| ==> SurvivesSmallSieve(SeedPrimes()[i])
  {
  }

  /** Between neighbouring seed entries every number is caught by the small
      sieve; stated in four ranges of neighbours. */
  lemma SeedGaps0To6()
    ensures forall i, c :: 0 <= i < 6 && SeedPrimes()[i] < c < SeedPrimes()[i + 1] ==> !SurvivesSmallSieve(c)
  {
  }

  lemma SeedGaps6To12()
    ensures forall i, c :: 6 <= i < 12 && SeedPrimes()[i] < c < SeedPrimes()[i + 1] ==> !SurvivesSmallSieve(c)
  {
  }

  lemma SeedGaps12To18()
    ensures forall i, c :: 12 <= i < 18 && SeedPrimes()[i] < c < SeedPrimes()[i + 1] ==> !SurvivesSmallSieve(c)
  {
  }

  lemma SeedGaps18To24()
    ensures forall i, c :: 18 <= i < 24 && SeedPrimes()[i] < c < SeedPrimes()[i + 1] ==> !SurvivesSmallSieve(c)
  {
  }

  lemma SeedNeighboursIncrease()
    ensures forall i :: 0 <= i < |SeedPrimes()| ==> SeedPrimes()[i] < 100
    ensures forall i :: 0 <= i < |SeedPrimes()| - 1 ==> SeedPrimes()[i] < SeedPrimes()[i + 1]
  {
  }

  /** A list whose neighbours increase is strictly increasing. */
  lemma {:induction false} NeighboursIncreasing(s: seq<nat>)
    requires forall i :: 0 <= i < |s| - 1 ==> s[i] < s[i + 1]
    ensures StrictlyIncreasing(s)
  {
    if |s| > 1 {
      var s' := s[..|s| - 1];
      NeighboursIncreasing(s');
      forall i, j | 0 <= i < j < |s|
        ensures s[i] < s[j]
      {
        if j < |s| - 1 {
          assert s'[i] < s'[j];
        } else if i < |s| - 2 {
          assert s'[i] < s'[|s| - 2];
        }
      }
    }
  }

  /** An increasing list with no prime strictly between neighbours contains every
      prime between its first and its last entry. */
  lemma {:induction false} GapsHoldNoPrime(s: seq<nat>, p: nat)
    requires |s| >= 1 && StrictlyIncreasing(s)
    requires forall i :: 0 <= i < |s| - 1 ==> NoPrimeBetween(s[i], s[i + 1])
    requires IsPrime(p) && s[0] <= p <= Last(s)
    ensures p in s
  {
    if p != Last(s) {
      var s' := s[..|s| - 1];
      if p <= Last(s') {
        GapsHoldNoPrime(s', p);
      }
    }
  }

  /** The seed holds exactly the 25 primes below 100, in increasing order. */
  lemma SeedIsPrimesBelow100()
    ensures |SeedPrimes()| == 25 && SeedPrimes()[0] == 2
    ensures StrictlyIncreasing(SeedPrimes())
    ensures forall i :: 0 <= i < |SeedPrimes()| ==> IsPrime(SeedPrimes()[i])
    ensures forall n: nat :: n < 100 ==> (n in SeedPrimes() <==> IsPrime(n))
  {
    var s := SeedPrimes();
    SeedSurvivesSmallSieve();
    SeedGaps0To6();
    SeedGaps6To12();
    SeedGaps12To18();
    SeedGaps18To24();
    SeedNeighboursIncrease();
    NeighboursIncreasing(s);
    forall i | 0 <= i < |s|
      ensures IsPrime(s[i])
    {
      SmallPrimeIff(s[i]);
    }
    forall i | 0 <= i < |s| - 1
      ensures NoPrimeBetween(s[i], s[i + 1])
    {
      forall c: nat | s[i] < c < s[i + 1]
        ensures !IsPrime(c)
      {
        SmallPrimeIff(c);
      }
    }
    forall n: nat | n < 100 && IsPrime(n)
      ensures n in s
    {
      SmallPrimeIff(98);
      SmallPrimeIff(99);
      GapsHoldNoPrime(s, n);
    }
  }

  /** The seed is a valid store content. */
  lemma SeedIsPrimePrefix()
    ensures IsPrimePrefix(SeedPrimes())
  {
    var s := SeedPrimes();
    SeedIsPrimesBelow100();
    forall p: nat | IsPrime(p) && p <= Last(s)
      ensures p in s
    {
    }
  }

  /** A prefix of the primes has no entry dividing a later one (what the
      `primes1000` test checks after 10 000 extensions). */
  lemma PrimePrefixHasNoEarlierDivisor(s: seq<nat>)
    requires IsPrimePrefix(s)
    ensures NoEarlierDivisor(s)
  {
    forall i, j | 0 <= j < i < |s|
      ensures s[j] > 0 && s[i] % s[j] != 0
    {
      assert IsPrime(s[i]) && IsPrime(s[j]);
    }
  }

  // ---------------------------------------------------------------------------
  // Trial division

  /** How many leading entries of `divisors` have a square of at most `t`
      (what `take_while(|&i| i * i <= t)` lets through). */
  function SquareAtMostPrefix(divisors: seq<nat>, t: nat): (k: nat)
    ensures k <= |divisors|
    ensures forall i :: 0 <= i < k ==> divisors[i] * divisors[i] <= t
    ensures k < |divisors| ==> divisors[k] * divisors[k] > t
  {
    if divisors == [] || divisors[0] * divisors[0] > t then 0
    else 1 + SquareAtMostPrefix(divisors[1..], t)
  }

  /** Some entry among the leading ones whose square is at most `t` divides `t`. */
  ghost predicate TrialDivisible(divisors: seq<nat>, t: nat)
  {
    exists i :: 0 <= i < SquareAtMostPrefix(divisors, t) && divisors[i] > 0 && t % divisors[i] == 0
  }

  /** The trial division in `find_next`: walks `divisors` while the square of the
      entry is at most `t` and reports whether one of them divides `t`. */
  method AnyDivides(divisors: seq<nat>, t: nat) returns (found: bool)
    requires forall i :: 0 <= i < |divisors| ==> divisors[i] > 0
    ensures found <==> TrialDivisible(divisors, t)
  {
    var i := 0;
    while i < |divisors| && divisors[i] * divisors[i] <= t
      invariant i <= SquareAtMostPrefix(divisors, t)
      invariant forall j :: 0 <= j < i ==> t % divisors[j] != 0
    {
      if t % divisors[i] == 0 {
        return true;
      }
      i := i + 1;
    }
    return false;
  }

  /** A candidate that trial division rejects is not prime. */
  lemma RejectedIsComposite(s: seq<nat>, c: nat)
    requires IsPrimePrefix(s) && |s| >= 2
    requires TrialDivisible(s[1..], c)
    ensures !IsPrime(c)
  {
    var odd := s[1..];
    var i :| 0 <= i < SquareAtMostPrefix(odd, c) && odd[i] > 0 && c % odd[i] == 0;
    var d := odd[i];
    assert s[0] < s[i + 1];
    MulMono(2, d, d);
  }

  /** Every number strictly between the old last entry and a candidate `t` is
      composite when every odd one among them was rejected. */
  lemma NothingSkipped(s: seq<nat>, t: nat)
    requires IsPrimePrefix(s) && |s| >= 2
    requires forall c :: Last(s) < c < t && c % 2 == 1 ==> TrialDivisible(s[1..], c)
    ensures NoPrimeBetween(Last(s), t)
  {
    forall c: nat | Last(s) < c < t
      ensures !IsPrime(c)
    {
      if c % 2 == 1 {
        RejectedIsComposite(s, c);
      } else {
        assert s[0] < s[|s| - 1];
      }
    }
  }

  /** A stored odd prime whose square is at most `t` is among those tried on `t`. */
  lemma StoredFactorIsTried(s: seq<nat>, t: nat, k: nat)
    requires IsPrimePrefix(s) && 1 <= k < |s|
    requires s[k] * s[k] <= t && t % s[k] == 0
    ensures TrialDivisible(s[1..], t)
  {
    var odd := s[1..];
    var bound := SquareAtMostPrefix(odd, t);
    if bound <= k - 1 {
      assert odd[bound] <= odd[k - 1];
      MulMono(odd[bound], s[k], odd[bound]);
      MulMono(odd[bound], s[k], s[k]);
    }
    assert odd[k - 1] == s[k] && s[k] > 0;
  }

  /** The candidate `find_next` accepts is the next prime after the last entry.
      No Bertrand-style fact is needed: a composite candidate's least prime
      factor is below it, so it is either a stored prime tried by the trial
      division or a skipped number, and neither can be. */
  lemma AcceptedIsNextPrime(s: seq<nat>, t: nat)
    requires IsPrimePrefix(s) && |s| >= 2
    requires Last(s) < t && t % 2 == 1
    requires forall c :: Last(s) < c < t && c % 2 == 1 ==> TrialDivisible(s[1..], c)
    requires !TrialDivisible(s[1..], t)
    ensures IsNextPrime(Last(s), t)
  {
    NothingSkipped(s, t);
    if !IsPrime(t) {
      var p := PrimeFactor(t);
      MulMono(2, p, p);
      if p <= Last(s) {
        var k :| 0 <= k < |s| && s[k] == p;
        StoredFactorIsTried(s, t, k);
      }
    }
  }

  /** Appending the next prime keeps a prefix of the primes. */
  lemma ExtendPrimePrefix(s: seq<nat>, t: nat)
    requires IsPrimePrefix(s) && IsNextPrime(Last(s), t)
    ensures IsPrimePrefix(s + [t])
  {
    var s' := s + [t];
    forall p: nat | IsPrime(p) && p <= t
      ensures p in s'
    {
      if p <= Last(s) {
        assert p in s;
      }
    }
  }

  // ---------------------------------------------------------------------------
  // The store

  /** What the store may hold: the seed followed by the next primes, in order,
      each fitting below the `u64::MAX - 3` bound. */
  ghost predicate ValidContent(s: seq<nat>)
  {
    && |s| >= 25
    && IsPrimePrefix(s)
    && Last(s) <= U64Max - 3
  }

  /** Two prefixes of the primes agree wherever both are defined: the `i`-th
      entry of either is the `i`-th prime. */
  lemma {:induction false} PrimePrefixesAgree(s: seq<nat>, t: seq<nat>, i: nat)
    requires IsPrimePrefix(s) && IsPrimePrefix(t) && i < |s| && i < |t|
    ensures s[i] == t[i]
    decreases i
  {
    forall j | 0 <= j < i
      ensures s[j] == t[j]
    {
      PrimePrefixesAgree(s, t, j);
    }
    PrimePrefixEntryAtMost(s, t, i);
    PrimePrefixEntryAtMost(t, s, i);
  }

  /** Where two prefixes of the primes agree below `i`, the `i`-th entry of one
      is no larger than that of the other: it is stored in the other at `i` or
      later. */
  lemma PrimePrefixEntryAtMost(s: seq<nat>, t: seq<nat>, i: nat)
    requires IsPrimePrefix(s) && IsPrimePrefix(t) && i < |s| && i < |t|
    requires forall j :: 0 <= j < i ==> s[j] == t[j]
    ensures t[i] <= s[i]
  {
    if s[i] <= Last(t) {
      assert IsPrime(s[i]);
      var k :| 0 <= k < |t| && t[k] == s[i];
      assert k >= i;
    }
  }

  /** Valid content starts with the seed. */
  lemma ValidContentStartsWithSeed(s: seq<nat>)
    requires ValidContent(s)
    ensures s[..|SeedPrimes()|] == SeedPrimes()
  {
    SeedIsPrimePrefix();
    SeedIsPrimesBelow100();
    forall i | 0 <= i < |SeedPrimes()|
      ensures s[i] == SeedPrimes()[i]
    {
      PrimePrefixesAgree(s, SeedPrimes(), i);
    }
  }

  /** Appending the next prime, below the bound, keeps the content valid. */
  lemma AppendNextPrime(s: seq<nat>, t: nat)
    requires ValidContent(s) && IsNextPrime(Last(s), t) && t <= U64Max - 3
    ensures ValidContent(s + [t])
  {
    ExtendPrimePrefix(s, t);
  }

  /** The shape of valid content that the candidate search relies on: at least
      two entries, an odd last entry and positive entries after the first. */
  lemma ValidContentShape(s: seq<nat>)
    requires ValidContent(s)
    ensures |s| >= 2 && Last(s) % 2 == 1 && Last(s) <= U64Max - 3
    ensures forall i :: 0 <= i < |s[1..]| ==> s[1..][i] > 0
  {
    assert s[0] < s[|s| - 1];
    assert IsPrime(Last(s));
    assert forall i :: 0 <= i < |s| ==> IsPrime(s[i]);
  }

  /** The candidate loop of `find_next`: steps by two from `last`, rejecting
      every trial-divisible candidate, until one survives (`accepted`) or the
      candidate passes `u64::MAX - 3`. */
  method SearchCandidate(odd: seq<nat>, last: nat) returns (t: nat, accepted: bool)
    requires forall i :: 0 <= i < |odd| ==> odd[i] > 0
    requires last <= U64Max - 3 && last % 2 == 1
    ensures last < t && t % 2 == 1
    ensures forall c :: last < c < t && c % 2 == 1 ==> TrialDivisible(odd, c)
    ensures accepted ==> t <= U64Max - 3 && !TrialDivisible(odd, t)
    ensures !accepted ==> t > U64Max - 3
  {
    t := last;
    while true
      invariant last <= t <= U64Max - 3 && t % 2 == 1
      invariant forall c :: last < c <= t && c % 2 == 1 ==> TrialDivisible(odd, c)
      decreases U64Max - t
    {
      var prev := t;
      t := t + 2;
      OddStep(prev);
      if t > U64Max - 3 {
        return t, false;
      }
      var found := AnyDivides(odd, t);
      if !found {
        return t, true;
      }
      forall c | last < c <= t && c % 2 == 1
        ensures TrialDivisible(odd, c)
      {
        if c > prev {
          assert c == prev + 1 || c == t;
        }
      }
    }
  }

  /** Stepping by two from an odd number skips one even number. */
  lemma OddStep(t: int)
    requires t % 2 == 1
    ensures (t + 1) % 2 == 0 && (t + 2) % 2 == 1
  {
    DivModUnique(t, 2, t / 2, 1);
    DivModUnique(t + 1, 2, t / 2 + 1, 0);
    DivModUnique(t + 2, 2, t / 2 + 1, 1);
  }

  class Store {
    var inner: seq<nat>

    ghost predicate Valid()
      reads this
    {
      ValidContent(inner)
    }

    /** `Store::new`: the seed primes. */
    constructor ()
      ensures Valid() && inner == SeedPrimes()
    {
      inner := SeedPrimes();
      SeedIsPrimePrefix();
      SeedIsPrimesBelow100();
    }

    /** `Store::get`: the cached primes, without growing. */
    function Get(): (view: seq<nat>)
      reads this
      requires Valid()
      ensures view == inner
      ensures IsPrimePrefix(view) && view[..|SeedPrimes()|] == SeedPrimes()
    {
      ValidContentStartsWithSeed(inner);
      inner
    }

    /** `Store::find_next`: appends the next prime, stepping odd candidates up from
        the last entry and trial-dividing each by the stored odd primes up to its
        square root.  Panics, leaving the store as it was, when the candidate
        passes `u64::MAX - 3`. */
    method FindNext() returns (ok: bool)
      requires Valid()
      modifies this
      ensures Valid()
      ensures ok ==> |inner| == |old(inner)| + 1 && inner[..|old(inner)|] == old(inner)
      ensures ok ==> IsNextPrime(Last(old(inner)), Last(inner))
      ensures ok ==> !TrialDivisible(old(inner)[1..], Last(inner))
      ensures ok ==> forall c :: Last(old(inner)) < c < Last(inner) && c % 2 == 1 ==>
                       TrialDivisible(old(inner)[1..], c)
      ensures !ok ==> inner == old(inner) && NoPrimeBetween(Last(old(inner)), U64Max - 2)
    {
      var s := inner;
      ValidContentShape(s);
      var t, accepted := SearchCandidate(s[1..], Last(s));
      if !accepted {
        NothingSkipped(s, t);
        return false;
      }
      AcceptedIsNextPrime(s, t);
      AppendNextPrime(s, t);
      inner := s + [t];
      assert inner[..|s|] == s;
      return true;
    }

    /** `Store::get_at` as written: grows the store while it is SHORTER than `n`,
        then reads position `n`.  Position `n` exists only if it did already,
        so a request for a position not yet cached stops with `n` entries and
        panics on the out-of-bounds read. */
    method GetAt(n: nat) returns (r: Outcome<nat>)
      requires Valid()
      modifies this
      ensures Valid() && old(inner) <= inner
      ensures n < |old(inner)| ==> inner == old(inner) && r == Done(inner[n])
      ensures n >= |old(inner)| ==>
        || (r == Panicked(IndexOutOfBounds) && |inner| == n)
        || (r == Panicked(PrimeRangeExhausted) && |inner| < n && NoPrimeBetween(Last(inner), U64Max - 2))
    {
      while |inner| < n
        invariant Valid() && old(inner) <= inner
        invariant n < |old(inner)| ==> inner == old(inner)
        invariant n >= |old(inner)| ==> |inner| <= n
        decreases n - |inner|
      {
        var ok := FindNext();
        if !ok {
          return Panicked(PrimeRangeExhausted);
        }
      }
      if n < |inner| {
        r := Done(inner[n]);
      } else {
        r := Panicked(IndexOutOfBounds);
      }
    }

    /** `Store::get_at` as evidently intended: grows the store until position `n`
        exists, then reads it. */
    method GetAtFixed(n: nat) returns (r: Outcome<nat>)
      requires Valid()
      modifies this
      ensures Valid() && old(inner) <= inner
      ensures n < |old(inner)| ==> inner == old(inner) && r == Done(inner[n])
      ensures r.Done? ==> n < |inner| && r.value == inner[n]
      ensures r.Panicked? ==> r.fault == PrimeRangeExhausted && |inner| <= n &&
                              NoPrimeBetween(Last(inner), U64Max - 2)
    {
      while |inner| <= n
        invariant Valid() && old(inner) <= inner
        invariant n < |old(inner)| ==> inner == old(inner)
        decreases n + 1 - |inner|
      {
        var ok := FindNext();
        if !ok {
          return Panicked(PrimeRangeExhausted);
        }
      }
      r := Done(inner[n]);
    }
  }

  // ---------------------------------------------------------------------------
  // The iterator

  /** `OuterIter`: a never-ending cursor over the store. */
  class PrimeIter {
    const store: Store
    var pos: nat
    var mode: Mode

    ghost predicate Valid()
      reads this, store
    {
      store.Valid() && pos <= |store.inner|
    }

    /** `iter()`: a fresh cursor at position 0 holding the read guard. */
    constructor (store: Store)
      requires store.Valid()
      ensures Valid() && this.store == store && pos == 0 && mode == Read
    {
      this.store := store;
      pos := 0;
      mode := Read;
    }

    /** `OuterIter::next`: yields the prime at `pos` and advances.  It never
        yields `None`; it grows the store by exactly one prime, after switching
        from the read guard to the write guard, when `pos` has reached the end. */
    method Next() returns (r: Outcome<nat>)
      requires Valid()
      modifies this, store
      ensures Valid() && old(store.inner) <= store.inner
      ensures old(mode) == Write ==> mode == Write
      ensures r.Done? ==> pos == old(pos) + 1 && r.value == store.inner[old(pos)]
      ensures old(pos) < |old(store.inner)| ==>
                r.Done? && store.inner == old(store.inner) && mode == old(mode)
      ensures old(pos) == |old(store.inner)| ==> mode == Write
      ensures old(pos) == |old(store.inner)| && r.Done? ==>
                |store.inner| == |old(store.inner)| + 1 && pos == |store.inner|
      ensures r.Panicked? ==>
                r.fault == PrimeRangeExhausted && store.inner == old(store.inner) &&
                pos == old(pos) && NoPrimeBetween(Last(store.inner), U64Max - 2)
    {
      if mode == Read {
        if pos < |store.inner| {
          r := Done(store.inner[pos]);
          pos := pos + 1;
          return;
        }
        // release the read guard and take the write guard
        mode := Write;
      }
      var y: nat;
      if pos < |store.inner| {
        y := store.inner[pos];
      } else {
        var ok := store.FindNext();
        if !ok {
          return Panicked(PrimeRangeExhausted);
        }
        assert pos == |store.inner| - 1;
        y := Last(store.inner);
      }
      pos := pos + 1;
      r := Done(y);
    }
  }

  // ---------------------------------------------------------------------------
  // Scenarios

  /** Every prefix of the primes with two entries starts with 2 and 3. */
  lemma FirstTwoPrimes(s: seq<nat>)
    requires IsPrimePrefix(s) && |s| >= 2
    ensures s[0] == 2 && s[1] == 3
  {
    SeedIsPrimePrefix();
    PrimePrefixesAgree(s, SeedPrimes(), 0);
    PrimePrefixesAgree(s, SeedPrimes(), 1);
  }

  /** The `primes1000` test: extend a fresh store `count` times; no stored
      prime divides a later one, and every extension succeeded unless the
      `u64` range ran out of primes. */
  method ExtendAndCheck(count: nat) returns (ps: seq<nat>)
    ensures NoEarlierDivisor(ps) && SeedPrimes() <= ps
    ensures |ps| == |SeedPrimes()| + count || NoPrimeBetween(Last(ps), U64Max - 2)
  {
    var store := new Store();
    var i := 0;
    while i < count
      invariant 0 <= i <= count && store.Valid()
      invariant |store.inner| == |SeedPrimes()| + i || NoPrimeBetween(Last(store.inner), U64Max - 2)
    {
      var ok := store.FindNext();
      i := i + 1;
    }
    ps := store.Get();
    PrimePrefixHasNoEarlierDivisor(ps);
  }

  /** `get_at(25)` on a fresh store asks for the 26th prime, 101, and panics. */
  method GetAtPastSeed() returns (r: Outcome<nat>)
    ensures r == Panicked(IndexOutOfBounds)
  {
    var store := new Store();
    r := store.GetAt(25);
  }

  /** The prime after the seed is 101, and it lies in range. */
  lemma AfterSeed(s: seq<nat>)
    requires IsPrimePrefix(s) && SeedPrimes() <= s
    ensures |s| > 25 ==> s[25] == 101
    ensures |s| == 25 ==> !NoPrimeBetween(Last(s), U64Max - 2)
  {
    SeedIsPrimesBelow100();
    SmallPrimeIff(101);
    assert s[24] == 97;
    if |s| > 25 {
      var p := s[25];
      assert s[24] < p && IsPrime(p);
      SmallPrimeIff(p);
    }
  }

  /** The corrected `get_at(25)` on a fresh store yields 101. */
  method GetAtFixedPastSeed() returns (r: Outcome<nat>)
    ensures r == Done(101)
  {
    var store := new Store();
    r := store.GetAtFixed(25);
    AfterSeed(store.inner);
  }
}
