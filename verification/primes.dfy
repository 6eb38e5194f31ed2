/** The `primes` program: a Sieve of Eratosthenes over a boolean array indexed
    0..max, where `true` marks a value already known to be composite. */
module Primes {

  /** n is prime: at least 2 and without a divisor strictly between 1 and n. */
  predicate IsPrime(n: int) {
    n >= 2 && forall d :: 2 <= d < n ==> n % d != 0
  }

  predicate StrictlyIncreasing(s: seq<int>) {
    forall i, j :: 0 <= i < j < |s| ==> s[i] < s[j]
  }

  /** Some value already in `found`, smaller than k, divides k: the condition
      under which the sieve has marked cell k. */
  predicate HasFoundDivisor(found: seq<int>, k: int) {
    exists j :: 0 <= j < |found| && 0 < found[j] < k && k % found[j] == 0
  }

  lemma MulAtLeast(c: int, t: int)
    requires c > 0 && t >= 1
    ensures c * t >= c
  {
    assert c * t == c * (t - 1) + c;
  }

  /** Euclidean division is determined by quotient and remainder. */
  lemma DivModUnique(x: int, c: int, q: int, r: int)
    requires c > 0 && 0 <= r < c && x == c * q + r
    ensures x / c == q && x % c == r
  {
    var q' := x / c;
    var r' := x % c;
    assert c * q + r == c * q' + r';
    assert c * q - c * q' == c * (q - q');
    if q > q' {
      MulAtLeast(c, q - q');
      assert false;
    }
    if q < q' {
      MulAtLeast(c, q' - q);
      assert false;
    }
  }

  /** No multiple of c lies strictly between two consecutive multiples. */
  lemma BetweenMultiples(m: int, c: int, k: int)
    requires c > 0 && m % c == 0 && m < k < m + c
    ensures k % c != 0
  {
    DivModUnique(k, c, m / c, k - m);
  }

  lemma StepMod(x: int, c: int)
    requires c > 0
    ensures (x + c) % c == x % c
  {
    DivModUnique(x + c, c, x / c + 1, x % c);
  }

  lemma DivisorTransitive(n: int, d: int, e: int)
    requires 0 < e && 0 < d
    requires n % d == 0 && d % e == 0
    ensures n % e == 0
  {
    var a := n / d;
    var b := d / e;
    assert n == d * a;
    assert d == e * b;
    assert n == e * (b * a);
    DivModUnique(n, e, b * a, 0);
  }

  /** A number with a proper divisor d has a prime divisor no larger than d. */
  lemma {:induction false} PrimeDivisor(n: int, d: int)
    requires 2 <= d < n && n % d == 0
    ensures exists p :: 2 <= p <= d && IsPrime(p) && n % p == 0
    decreases d
  {
    if !IsPrime(d) {
      var e :| 2 <= e < d && d % e == 0;
      DivisorTransitive(n, d, e);
      PrimeDivisor(n, e);
    }
  }

  /** A proper multiple of c is at least twice c. */
  lemma MultipleAbove(k: int, c: int)
    requires 0 < c < k && k % c == 0
    ensures k >= 2 * c
  {
    var q := k / c;
    assert k == c * q;
  }

  /** The inner loop of the sieve: marks every multiple of c from 2*c upward
      and leaves every other cell as it was. */
  method MarkMultiples(sieve: array<bool>, c: int)
    requires c >= 1
    modifies sieve
    ensures forall k :: 0 <= k < sieve.Length ==>
              sieve[k] == (old(sieve[k]) || (k % c == 0 && k >= 2 * c))
  {
    var composite := c * 2;
    while composite < sieve.Length
      invariant composite >= 2 * c && composite % c == 0
      invariant forall k :: 0 <= k < sieve.Length ==>
                  sieve[k] == (old(sieve[k]) || (k % c == 0 && 2 * c <= k < composite))
      decreases sieve.Length - composite
    {
      forall k | composite < k < composite + c
        ensures k % c != 0
      {
        BetweenMultiples(composite, c, k);
      }
      StepMod(composite, c);
      sieve[composite] := true;
      composite := composite + c;
    }
  }

  /** Under the sieve's invariant a candidate is prime exactly when no found
      prime divides it: a composite has a prime divisor below it, and every
      found value is itself prime. */
  lemma CandidateIsPrimeIff(found: seq<int>, c: int)
    requires c >= 2
    requires forall v :: v in found <==> 2 <= v < c && IsPrime(v)
    ensures IsPrime(c) <==> !HasFoundDivisor(found, c)
  {
    if !IsPrime(c) {
      var d :| 2 <= d < c && c % d == 0;
      PrimeDivisor(c, d);
      var p :| 2 <= p <= d && IsPrime(p) && c % p == 0;
      assert p in found;
      var j :| 0 <= j < |found| && found[j] == p;
      assert HasFoundDivisor(found, c);
    }
    if HasFoundDivisor(found, c) {
      var j :| 0 <= j < |found| && 0 < found[j] < c && c % found[j] == 0;
      assert found[j] in found;
    }
  }

  /** Adding the prime c to `found` adds exactly the proper multiples of c to
      the cells that have a found divisor. */
  lemma ExtendFound(found: seq<int>, c: int, k: int)
    requires c >= 2 && k >= 2
    ensures HasFoundDivisor(found + [c], k) <==>
              (HasFoundDivisor(found, k) || (k % c == 0 && k >= 2 * c))
  {
    var found' := found + [c];
    if HasFoundDivisor(found', k) && !HasFoundDivisor(found, k) {
      var j :| 0 <= j < |found'| && 0 < found'[j] < k && k % found'[j] == 0;
      if j == |found| {
        MultipleAbove(k, c);
      }
    }
    if HasFoundDivisor(found, k) {
      var j :| 0 <= j < |found| && 0 < found[j] < k && k % found[j] == 0;
      assert found'[j] == found[j];
    }
    if k % c == 0 && k >= 2 * c {
      assert found'[|found|] == c;
    }
  }

  /** primes(max): every prime up to max, in increasing order; nothing when
      max <= 1. */
  method Sieve(max: int) returns (found: seq<int>)
    ensures max <= 1 ==> found == []
    ensures StrictlyIncreasing(found)
    ensures forall v :: v in found <==> 2 <= v <= max && IsPrime(v)
  {
    if max <= 1 {
      return [];
    }
    var sieve := new bool[max + 1](_ => false);
    found := [];
    var candidate := 2;
    while candidate < sieve.Length
      invariant 2 <= candidate <= sieve.Length
      invariant StrictlyIncreasing(found)
      invariant forall j :: 0 <= j < |found| ==> found[j] < candidate
      invariant forall v :: v in found <==> 2 <= v < candidate && IsPrime(v)
      invariant forall k :: 2 <= k < sieve.Length ==> (sieve[k] <==> HasFoundDivisor(found, k))
    {
      CandidateIsPrimeIff(found, candidate);
      if !sieve[candidate] {
        MarkMultiples(sieve, candidate);
        forall k | 2 <= k < sieve.Length
          ensures sieve[k] <==> HasFoundDivisor(found + [candidate], k)
        {
          ExtendFound(found, candidate, k);
        }
        found := found + [candidate];
      }
      candidate := candidate + 1;
    }
  }
}
