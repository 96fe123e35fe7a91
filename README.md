# prime_factor in Dafny

A model of `prime_factor.py`. This small tool returns the prime factors of an integer and memoises each answer in a pickled dictionary kept in one file. The model has three modules. Each module is one component of that file.

- `Primality` (`primality.dfy`) models `is_prime`. The function collects every divisor of `n` in `1..n` into a list, then asks whether the list is exactly `[1, n]`. The model is a method with the same loop. It is proved to decide the mathematical definition `IsPrimeSpec` for every integer, including 1, 0 and negative inputs.
- `FactorCache` (`factor_cache.dfy`) models the cache file as a `FactorFile` object. Its state is one of four cases:
  - `Absent`: no file.
  - `Empty`: a zero-length file.
  - `Corrupt`: content that does not unpickle to a dictionary.
  - `Valid(entries)`: a readable dictionary.

  `PreviouslyFoundFactors` reads this state. `PersistFactors` does a whole-dictionary read-modify-write of it. The pure functions `Lookup` and `Persisted` give the same two operations on values, and the lemmas use them.
- `Engine` (`engine.dfy`) models `get_prime_factors`. It checks the cache and tests the returned list for truthiness, so a stored empty list counts as a miss. On a miss it runs trial division over `2..n-1` and calls `IsPrime` on each divisor. It then persists the list and returns it. The method is proved against the function `Factorise`, which gives the result and the new file state. The lemmas state what `Factorise` promises: hits, misses, the error path, idempotence, and soundness of the memo.

Python's `%` floors. Dafny's `%` is Euclidean. Both agree when the divisor is positive, and that is the only case here. For `n <= 0` the loop in `is_prime` does not run. For `n <= 2` the loop in `get_prime_factors` does not run.

Two behaviours of the code are kept as written:
- **Unloadable file on write.** `persist_factors` does not fall back to an empty dictionary. When the file exists but cannot be unpickled, `factors_dict` is never bound (prime_factor.py:64-70), so line 73 raises UnboundLocalError. The model returns `Failure(UnboundFactorsDict)` and leaves the file unchanged. `get_prime_factors` passes that error on.
- **Prime inputs.** Trial division runs over `range(2, input_int)` (prime_factor.py:154), which stops before `n`. So `n` is never its own factor, and a prime input yields `[]` (`Engine.PrimeInputYieldsEmpty`).

## Model

| member | source | states |
|---|---|---|
| `Primality.DivisorsBelowSpec` | prime_factor.py:118-122 | The divisor list built by `is_prime`'s loop, once it reaches `k`, is strictly ascending. It holds exactly the `d` in `[1, k)` that divide `n`. |
| `Primality.DivisorPairIffPrime` | prime_factor.py:118-124 | For every integer `n`, the full divisor list equals `[1, n]` iff `n >= 2` and `n`'s only divisors in `[1, n]` are 1 and `n`. |
| `Primality.PrimeHasOnlyOneBelow` | prime_factor.py:120-122 | For a prime `n`, the divisor list collected below any `k` in `2..n` is `[1]`. |
| `Primality.IsPrime` | prime_factor.py:103-124 | `is_prime(n)` is true exactly when `n` is prime in the mathematical sense. It is therefore false for 1, 0 and every negative `n`. |
| `Primality.IsPrimeExamples` | tests/test_prime_factor.py:14-18 | 27 is not prime and 43 is prime, as the doctests and the tests say. 2 is prime. 1, 0 and -7 are not. |
| `FactorCache.Persisted` | prime_factor.py:64-77 | Persisting succeeds exactly from an absent or readable file. On success the file is a readable dictionary in which `k` maps to the persisted list, and every other key reads as before. On failure the error is the unbound `factors_dict`. |
| `FactorCache.LookupMisses` | prime_factor.py:93-101 | A lookup returns "not found" exactly when the file is absent, empty or corrupt, or when the key is not stored. |
| `FactorCache.PersistThenLookup` | tests/test_prime_factor.py:83-99 | From an absent or readable file, persisting `k` and then looking it up returns the persisted list. The keys are then the old keys plus `k`. |
| `FactorCache.PersistKeepsEarlierEntries` | prime_factor.py:73-77 | Persisting a second, different key keeps the entry for the first key. |
| `FactorCache.PersistOnUnreadableFileFails` | prime_factor.py:64-73 | On a zero-length or corrupt file, persisting fails with the unbound-`factors_dict` error. |
| `FactorCache.FactorFile.PreviouslyFoundFactors` | prime_factor.py:79-101 | Returns a list exactly when the file holds a dictionary containing the key. That list is the stored one. Otherwise it returns "not found" (the `False` of `previously_found_factors`). |
| `FactorCache.FactorFile.PersistFactors` | prime_factor.py:44-77 | Succeeds exactly from an absent or readable file. The new state is the old dictionary (empty for an absent file) updated at `k`, and a lookup of `k` returns `fs`. On failure the file is unchanged. |
| `Engine.PrimeDivisorsBelowSpec` | prime_factor.py:154-158 | The list built by the trial-division loop, once it reaches `k`, is strictly ascending. It holds exactly the primes in `[2, k)` that divide `n`. |
| `Engine.PrimeInputYieldsEmpty` | prime_factor.py:154 | `n` is never in its own factor list. A prime `n`, or any `n <= 2`, yields `[]`. |
| `Engine.GetPrimeFactors` | prime_factor.py:126-160 | The returned value (or error) and the new file state are exactly those of `Factorise` on the old file state. |
| `Engine.FactoriseHit` | prime_factor.py:150-151 | A non-empty cached list is returned unchanged, and the file is untouched. |
| `Engine.FactoriseMiss` | prime_factor.py:148-160 | On a miss (no entry, or a cached empty list) in an absent or readable file, the result is the strictly ascending list of exactly the primes `d` with `2 <= d < n` dividing `n`. The file then maps `n` to it, and every other key reads as before. |
| `Engine.FactoriseUnreadable` | prime_factor.py:150-160 | On a zero-length or corrupt file, `get_prime_factors` ends in persist's error. The file is unchanged. |
| `Engine.FactoriseIdempotent` | prime_factor.py:150-160 | After a successful call, a second call returns the same list and leaves the same file state. When the list is non-empty, the second call is a cache hit. |
| `Engine.FactorisePreservesSoundness` | prime_factor.py:150-160 | If every cached list is the one trial division computes for its key, the call returns the trial-division answer, and the cache keeps that property. |
| `Engine.PrimeFactorsOf27` | prime_factor.py:141-142 | Trial division gives `[3]` for 27. |
| `Engine.PrimeFactorsOf42Below8` | prime_factor.py:154-158 | The primes below 8 that divide 42 are `[2, 3, 7]`. |
| `Engine.PrimeFactorsOf42` | prime_factor.py:143-144 | Trial division gives `[2, 3, 7]` for 42. |
| `Engine.FactoriseExamples` | tests/test_prime_factor.py:36-56 | On a fresh file, `get_prime_factors(27)` returns `[3]` and `get_prime_factors(42)` returns `[2, 3, 7]`, each persisting its answer. Afterwards 27 is found and 43 is not. |

## Left out

- The interactive prompt and its integer-parsing retry loop (prime_factor.py:162-176). This is console I/O.
- The pickle byte format, `open`, `Path.touch` and `os.path.exists`. They are replaced by the four-case file state. The short-lived empty file that `Path.touch` creates is not a separate state, because the same call overwrites it.
- A file that unpickles to something other than a dictionary is folded into `Corrupt`. For lookups this is exact: `.keys()` raises `AttributeError`, which `previously_found_factors` turns into `False`. For persists it is not. With a pickled list, `factors_dict[input_int] = factors` raises `IndexError` when `k` is outside the list's bounds. When `k` is a valid index, the assignment succeeds and line 77 rewrites the file with the modified list. Other objects raise other exceptions, such as `TypeError`. The model's `Corrupt` persist always fails with `UnboundFactorsDict` and leaves the state unchanged. So it does not capture the cases where `persist_factors` succeeds on non-dictionary content, and it does not distinguish exception kinds.
- I/O failures other than unpickling, such as a full disk or a missing permission, are not modelled.
- Running time: the linear and quadratic complexity noted in prime_factor.py is not behaviour the model states.
- Lists are stored by value. Python's sharing of the same list object between the dictionary and the caller is not modelled.
