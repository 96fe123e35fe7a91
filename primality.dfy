/** The primality tester of prime_factor.py: `is_prime` collects every divisor
    of its input in 1..n and answers whether that list is exactly [1, n]. */
module Primality {

  /** d divides n (d is never zero where `is_prime` or
      `get_prime_factors` asks). */
  predicate Divides(d: int, n: int) {
    d != 0 && n % d == 0
  }

  /** The mathematical definition of a prime: at least 2, and its only
      positive divisors up to itself are 1 and itself. */
  ghost predicate IsPrimeSpec(n: int) {
    n >= 2 && forall d :: 1 <= d <= n && Divides(d, n) ==> d == 1 || d == n
  }

  /** Strictly ascending, hence also free of duplicates. */
  ghost predicate StrictlyAscending(s: seq<int>) {
    forall i, j :: 0 <= i < j < |s| ==> s[i] < s[j]
  }

  /** The divisors of n among 1..k-1, in the order the loop of `is_prime`
      appends them. */
  ghost function DivisorsBelow(n: int, k: int): seq<int>
    decreases k
  {
    if k <= 1 then []
    else DivisorsBelow(n, k - 1) + (if Divides(k - 1, n) then [k - 1] else [])
  }

  /** The divisor list is strictly ascending and holds exactly the divisors
      of n in [1, k). */
  lemma {:induction false} DivisorsBelowSpec(n: int, k: int)
    ensures StrictlyAscending(DivisorsBelow(n, k))
    ensures forall d :: d in DivisorsBelow(n, k) <==> 1 <= d < k && Divides(d, n)
    decreases k
  {
    if k > 1 {
      DivisorsBelowSpec(n, k - 1);
      var prefix := DivisorsBelow(n, k - 1);
      // every earlier divisor is below the one that may be appended
      assert forall i :: 0 <= i < |prefix| ==> prefix[i] < k - 1 by {
        forall i | 0 <= i < |prefix| ensures prefix[i] < k - 1 {
          assert prefix[i] in prefix;
        }
      }
    }
  }

  /** When n is prime, 1 is its only divisor below any k in 2..n. */
  lemma {:induction false} PrimeHasOnlyOneBelow(n: int, k: int)
    requires IsPrimeSpec(n) && 2 <= k <= n
    ensures DivisorsBelow(n, k) == [1]
    decreases k
  {
    if k > 2 {
      PrimeHasOnlyOneBelow(n, k - 1);
      assert !Divides(k - 1, n);
    }
  }

  /** The test `is_prime` performs, `factors == [1, n]` on the full divisor
      list of 1..n, decides exactly the mathematical definition of a prime,
      for every integer n (0, 1 and negatives included). */
  lemma DivisorPairIffPrime(n: int)
    ensures DivisorsBelow(n, n + 1) == [1, n] <==> IsPrimeSpec(n)
  {
    var l := DivisorsBelow(n, n + 1);
    DivisorsBelowSpec(n, n + 1);
    if l == [1, n] {
      assert l[0] < l[1];
      forall d | 1 <= d <= n && Divides(d, n)
        ensures d == 1 || d == n
      {
        assert d in l;
      }
    }
    if IsPrimeSpec(n) {
      PrimeHasOnlyOneBelow(n, n);
      assert Divides(n, n);
    }
  }

  /** is_prime: collects the divisors of n in 1..n step by step, then
      compares the list with [1, n]. */
  method IsPrime(n: int) returns (b: bool)
    ensures b <==> IsPrimeSpec(n)
  {
    var factors: seq<int> := [];
    var d := 1;
    while d <= n
      invariant 1 <= d <= if n >= 0 then n + 1 else 1
      invariant factors == DivisorsBelow(n, d)
    {
      if n % d == 0 {
        factors := factors + [d];
      }
      d := d + 1;
    }
    DivisorPairIffPrime(n);
    b := factors == [1, n];
  }

  /** Sample answers of is_prime, including the edge cases 1, 0 and a
      negative input. */
  lemma IsPrimeExamples()
    ensures !IsPrimeSpec(27) && IsPrimeSpec(43) && IsPrimeSpec(2)
    ensures !IsPrimeSpec(1) && !IsPrimeSpec(0) && !IsPrimeSpec(-7)
  {
    assert Divides(3, 27);
    assert DivisorsBelow(43, 10) == [1];
    assert DivisorsBelow(43, 20) == [1];
    assert DivisorsBelow(43, 30) == [1];
    assert DivisorsBelow(43, 40) == [1];
    assert DivisorsBelow(43, 44) == [1, 43];
    DivisorPairIffPrime(43);
    assert DivisorsBelow(2, 3) == [1, 2];
    DivisorPairIffPrime(2);
  }
}
