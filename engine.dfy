/** The factorisation engine of prime_factor.py: `get_prime_factors`
    consults the cache, and on a miss runs trial division over 2..n-1,
    keeps the divisors that are prime, persists the list and returns it. */
module Engine {
  import opened Primality
  import opened FactorCache

  /** The prime divisors of n among 2..k-1, ascending: what the trial
      division loop has collected once it reaches k. */
  ghost function PrimeDivisorsBelow(n: int, k: int): seq<int>
    decreases k
  {
    if k <= 2 then []
    else PrimeDivisorsBelow(n, k - 1) + (if Divides(k - 1, n) && IsPrimeSpec(k - 1) then [k - 1] else [])
  }

  /** The collected list is strictly ascending and holds exactly the primes
      in [2, k) that divide n. */
  lemma {:induction false} PrimeDivisorsBelowSpec(n: int, k: int)
    ensures StrictlyAscending(PrimeDivisorsBelow(n, k))
    ensures forall x :: x in PrimeDivisorsBelow(n, k) <==> 2 <= x < k && Divides(x, n) && IsPrimeSpec(x)
    decreases k
  {
    if k > 2 {
      PrimeDivisorsBelowSpec(n, k - 1);
      var prefix := PrimeDivisorsBelow(n, k - 1);
      assert forall i :: 0 <= i < |prefix| ==> prefix[i] < k - 1 by {
        forall i | 0 <= i < |prefix| ensures prefix[i] < k - 1 {
          assert prefix[i] in prefix;
        }
      }
    }
  }

  /** The range stops before n, so n itself is never reported: a prime
      input, and every input up to 2, yields the empty list. */
  lemma PrimeInputYieldsEmpty(n: int)
    ensures n !in PrimeDivisorsBelow(n, n)
    ensures IsPrimeSpec(n) || n <= 2 ==> PrimeDivisorsBelow(n, n) == []
  {
    PrimeDivisorsBelowSpec(n, n);
    var l := PrimeDivisorsBelow(n, n);
    assert |l| > 0 ==> l[0] in l;
  }

  /** get_prime_factors on a file state: the returned value (or the error
      persist_factors raised) and the file state afterwards. A stored list
      counts as a hit only when it is non-empty, because `get_prime_factors`
      tests the lookup's truthiness. */
  ghost function Factorise(f: CacheFile, n: int): (Result<seq<int>, PersistError>, CacheFile) {
    var cached := Lookup(f, n);
    if cached.Some? && cached.value != [] then (Success(cached.value), f)
    else
      var fs := PrimeDivisorsBelow(n, n);
      match Persisted(f, n, fs)
      case Success(g) => (Success(fs), g)
      case Failure(e) => (Failure(e), f)
  }

  /** get_prime_factors: the cache check, the trial division loop calling
      is_prime on every divisor, and the write-back. */
  method GetPrimeFactors(n: int, file: FactorFile) returns (r: Result<seq<int>, PersistError>)
    modifies file
    ensures (r, file.state) == Factorise(old(file.state), n)
  {
    var primeFactors: seq<int> := [];
    var cached := file.PreviouslyFoundFactors(n);
    if cached.Some? && cached.value != [] {
      // get_prime_factors looks the key up a second time to return it
      var again := file.PreviouslyFoundFactors(n);
      return Success(again.value);
    }
    var d := 2;
    while d < n
      invariant 2 <= d <= if n >= 2 then n else 2
      invariant primeFactors == PrimeDivisorsBelow(n, d)
      invariant file.state == old(file.state)
    {
      if n % d == 0 {
        var isPrime := IsPrime(d);
        if isPrime {
          primeFactors := primeFactors + [d];
        }
      }
      d := d + 1;
    }
    var persisted := file.PersistFactors(n, primeFactors);
    if persisted.Failure? {
      return Failure(persisted.error);
    }
    r := Success(primeFactors);
  }

  /** A non-empty stored list is returned as it is, and the file is left
      untouched. */
  lemma FactoriseHit(f: CacheFile, n: int)
    requires Lookup(f, n).Some? && Lookup(f, n).value != []
    ensures Factorise(f, n) == (Success(f.entries[n]), f)
  {
  }

  /** On a miss (no entry, or a stored empty list, which is falsy) in a
      loadable file: the result is the ascending list of exactly the primes
      in [2, n) dividing n, the file now maps n to it, and every other key
      reads as before. */
  lemma {:induction false} FactoriseMiss(f: CacheFile, n: int)
    requires Lookup(f, n).None? || Lookup(f, n) == Some([])
    requires f.Absent? || f.Valid?
    ensures Factorise(f, n).0.Success?
    ensures StrictlyAscending(Factorise(f, n).0.value)
    ensures forall x :: x in Factorise(f, n).0.value <==> 2 <= x < n && Divides(x, n) && IsPrimeSpec(x)
    ensures Lookup(Factorise(f, n).1, n) == Some(Factorise(f, n).0.value)
    ensures forall j :: j != n ==> Lookup(Factorise(f, n).1, j) == Lookup(f, j)
  {
    PrimeDivisorsBelowSpec(n, n);
  }

  /** A miss on a file that exists but cannot be loaded ends in the error
      persist_factors raises, with the file unchanged. */
  lemma FactoriseUnreadable(f: CacheFile, n: int)
    requires f.Empty? || f.Corrupt?
    ensures Factorise(f, n) == (Failure(UnboundFactorsDict), f)
  {
  }

  /** Calling get_prime_factors again after a successful call returns the
      same list and leaves the file as the first call left it; when that
      list is non-empty the second call is a pure cache hit. */
  lemma {:induction false} FactoriseIdempotent(f: CacheFile, n: int)
    requires Factorise(f, n).0.Success?
    ensures Factorise(Factorise(f, n).1, n) == Factorise(f, n)
    ensures Factorise(f, n).0.value != [] ==> Lookup(Factorise(f, n).1, n) == Some(Factorise(f, n).0.value)
  {
    var cached := Lookup(f, n);
    if !(cached.Some? && cached.value != []) {
      var fs := PrimeDivisorsBelow(n, n);
      var g := Persisted(f, n, fs).value;
      assert Lookup(g, n) == Some(fs);
      if fs == [] {
        assert g.entries[n := fs] == g.entries;
      }
    }
  }

  /** Every stored list is the one the trial division computes for its key. */
  ghost predicate CacheSound(f: CacheFile) {
    f.Valid? ==> forall k :: k in f.entries ==> f.entries[k] == PrimeDivisorsBelow(k, k)
  }

  /** Memoisation is sound: from a cache holding only computed answers,
      get_prime_factors returns what trial division gives, hit or miss, and
      the cache still holds only computed answers. */
  lemma FactorisePreservesSoundness(f: CacheFile, n: int)
    requires CacheSound(f)
    requires Factorise(f, n).0.Success?
    ensures Factorise(f, n).0.value == PrimeDivisorsBelow(n, n)
    ensures CacheSound(Factorise(f, n).1)
  {
  }

  /** Trial division finds the single prime factor 3 of 27. */
  lemma PrimeFactorsOf27()
    ensures PrimeDivisorsBelow(27, 27) == [3]
  {
    assert DivisorsBelow(3, 4) == [1, 3];
    DivisorPairIffPrime(3);
    assert Divides(3, 9);
    assert PrimeDivisorsBelow(27, 10) == [3];
    assert PrimeDivisorsBelow(27, 20) == [3];
  }

  /** The prime divisors 2, 3 and 7 of 42 all lie below 8. */
  lemma PrimeFactorsOf42Below8()
    ensures PrimeDivisorsBelow(42, 8) == [2, 3, 7]
  {
    assert DivisorsBelow(2, 3) == [1, 2];
    DivisorPairIffPrime(2);
    assert DivisorsBelow(3, 4) == [1, 3];
    DivisorPairIffPrime(3);
    assert DivisorsBelow(7, 8) == [1, 7];
    DivisorPairIffPrime(7);
    assert Divides(2, 6);
  }

  /** Trial division finds the prime factors 2, 3 and 7 of 42. */
  lemma PrimeFactorsOf42()
    ensures PrimeDivisorsBelow(42, 42) == [2, 3, 7]
  {
    PrimeFactorsOf42Below8();
    assert Divides(2, 14) && Divides(3, 21);
    assert PrimeDivisorsBelow(42, 15) == [2, 3, 7];
    assert PrimeDivisorsBelow(42, 22) == [2, 3, 7];
    assert PrimeDivisorsBelow(42, 32) == [2, 3, 7];
  }

  /** 27 has the prime factor 3 and 42 the prime factors 2, 3 and 7; both
      calls on a fresh file persist their answers, and afterwards 27 and 42
      are found while 43 is not. */
  lemma FactoriseExamples()
    ensures Factorise(Absent, 27) == (Success([3]), Valid(map[27 := [3]]))
    ensures Factorise(Valid(map[27 := [3]]), 42) == (Success([2, 3, 7]), Valid(map[27 := [3], 42 := [2, 3, 7]]))
    ensures Lookup(Valid(map[27 := [3], 42 := [2, 3, 7]]), 27) == Some([3])
    ensures Lookup(Valid(map[27 := [3], 42 := [2, 3, 7]]), 43) == None
  {
    PrimeFactorsOf27();
    PrimeFactorsOf42();
    var afterFirst := Valid(map[27 := [3]]);
    assert Lookup(afterFirst, 42) == None;
  }
}
