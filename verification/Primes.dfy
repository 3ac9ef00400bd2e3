/** The primes whose cube roots give SHA-256 its round constants (section 4.2.2 of FIPS 180-4). */
module Primes {
  import opened Multiples

  /** The first sixty-four primes, eight to a row. */
  function PrimeRow(r: nat): (row: seq<nat>)
    requires r < 8
    ensures |row| == 8
  {
    if r == 0 then [2, 3, 5, 7, 11, 13, 17, 19]
    else if r == 1 then [23, 29, 31, 37, 41, 43, 47, 53]
    else if r == 2 then [59, 61, 67, 71, 73, 79, 83, 89]
    else if r == 3 then [97, 101, 103, 107, 109, 113, 127, 131]
    else if r == 4 then [137, 139, 149, 151, 157, 163, 167, 173]
    else if r == 5 then [179, 181, 191, 193, 197, 199, 211, 223]
    else if r == 6 then [227, 229, 233, 239, 241, 251, 257, 263]
    else [269, 271, 277, 281, 283, 293, 307, 311]
  }

  function Prime(t: nat): nat
    requires t < 64
  {
    PrimeRow(t / 8)[t % 8]
  }

  ghost predicate IsPrime(n: nat) {
    n >= 2 && forall d :: 2 <= d < n ==> n % d != 0
  }

  // ---- trial division ----

  /** One of the primes up to 17 is a proper divisor. */
  predicate Divisible(n: nat) {
    (n > 2 && n % 2 == 0) || (n > 3 && n % 3 == 0) || (n > 5 && n % 5 == 0) || (n > 7 && n % 7 == 0)
    || (n > 11 && n % 11 == 0) || (n > 13 && n % 13 == 0) || (n > 17 && n % 17 == 0)
  }

  /** Below 19 squared this decides primality. */
  predicate Passes(n: nat) {
    n >= 2 && !Divisible(n)
  }

  lemma Factored(n: nat, d: nat, e: nat, p: nat)
    requires n == d * e && p >= 2 && d % p == 0 && d >= 2 && e >= 2
    ensures n % p == 0 && p < n
  {
    var k := d / p;
    assert d == p * k && k >= 1;
    assert d * e >= d * 2;
    assert n == p * (k * e);
    MultipleMod(k * e, p);
  }

  lemma Witnessed(n: nat, p: nat)
    requires p in [2, 3, 5, 7, 11, 13, 17] && n % p == 0 && p < n
    ensures Divisible(n)
  {
  }

  lemma SmallDivisor(d: nat)
    requires 2 <= d <= 18
    ensures exists p :: p in [2, 3, 5, 7, 11, 13, 17] && p <= d && d % p == 0
  {
    if
    case d % 2 == 0 => assert 2 in [2, 3, 5, 7, 11, 13, 17];
    case d % 3 == 0 => assert 3 in [2, 3, 5, 7, 11, 13, 17];
    case d in [5, 7, 11, 13, 17] => assert d in [2, 3, 5, 7, 11, 13, 17] && d % d == 0;
  }

  lemma SmallFactor(n: nat, d: nat, e: nat)
    requires n == d * e && 2 <= d <= 18 && e >= 2
    ensures Divisible(n)
  {
    hide Divisible;
    SmallDivisor(d);
    var p :| p in [2, 3, 5, 7, 11, 13, 17] && p <= d && d % p == 0;
    Factored(n, d, e, p);
    Witnessed(n, p);
  }

  lemma OneFactorSmall(d: nat, e: nat)
    requires d * e < 361
    ensures d <= 18 || e <= 18
  {
  }

  lemma AtLeastTwo(n: nat, d: nat, e: nat)
    requires d < n && n == d * e
    ensures e >= 2
  {
  }

  lemma CompositeDivisible(n: nat, d: nat)
    requires n < 361 && 2 <= d < n && n % d == 0
    ensures Divisible(n)
  {
    var e := n / d;
    assert n == d * e;
    AtLeastTwo(n, d, e);
    OneFactorSmall(d, e);
    if d <= 18 {
      SmallFactor(n, d, e);
    } else {
      SmallFactor(n, e, d);
    }
  }

  lemma PassesIffPrime(n: nat)
    requires n < 361
    ensures Passes(n) <==> IsPrime(n)
  {
    if n >= 2 && !IsPrime(n) {
      var d :| 2 <= d < n && n % d == 0;
      CompositeDivisible(n, d);
    }
    if Divisible(n) {
      var p :| p in [2, 3, 5, 7, 11, 13, 17] && p < n && n % p == 0;
      assert !IsPrime(n);
    }
  }

  // ---- the table ----

  lemma OddThirds(n: nat)
    ensures var r := n % 6; (r == 0 || r == 2 || r == 4 ==> n % 2 == 0) && (r == 3 ==> n % 3 == 0)
  {
    var k, r := n / 6, n % 6;
    if
    case r == 0 => assert n == 2 * (3 * k);
    case r == 2 => assert n == 2 * (3 * k + 1);
    case r == 4 => assert n == 2 * (3 * k + 2);
    case r == 3 => assert n == 3 * (2 * k + 1);
    case r == 1 || r == 5 =>
  }

  /** What passes, seen from the multiples of six beside it. */
  lemma Wheel(n: nat)
    requires n > 4 && Passes(n)
    ensures n == 6 * (n / 6) + 1 || n == 6 * (n / 6) + 5
    ensures (n == 5 || n % 5 != 0) && (n <= 7 || n % 7 != 0) && (n <= 11 || n % 11 != 0)
    ensures (n <= 13 || n % 13 != 0) && (n <= 17 || n % 17 != 0)
  {
    OddThirds(n);
  }

  lemma Row0(n: nat)
    requires 5 <= n < 23 && Passes(n)
    ensures n in PrimeRow(0)
  {
    hide Passes;
    Wheel(n);
    assert n / 6 in [0, 1, 2, 3];
  }

  lemma Row1(n: nat)
    requires 23 <= n < 59 && Passes(n)
    ensures n in PrimeRow(1)
  {
    hide Passes;
    Wheel(n);
    assert n / 6 in [3, 4, 5, 6, 7, 8, 9];
  }

  lemma Row2(n: nat)
    requires 59 <= n < 97 && Passes(n)
    ensures n in PrimeRow(2)
  {
    hide Passes;
    Wheel(n);
    assert n / 6 in [9, 10, 11, 12, 13, 14, 15, 16];
  }

  lemma Row3(n: nat)
    requires 97 <= n < 137 && Passes(n)
    ensures n in PrimeRow(3)
  {
    hide Passes;
    Wheel(n);
    assert n / 6 in [16, 17, 18, 19, 20, 21, 22];
  }

  lemma Row4(n: nat)
    requires 137 <= n < 179 && Passes(n)
    ensures n in PrimeRow(4)
  {
    hide Passes;
    Wheel(n);
    assert n / 6 in [22, 23, 24, 25, 26, 27, 28, 29];
  }

  lemma Row5(n: nat)
    requires 179 <= n < 227 && Passes(n)
    ensures n in PrimeRow(5)
  {
    hide Passes;
    Wheel(n);
    assert n / 6 in [29, 30, 31, 32, 33, 34, 35, 36, 37];
  }

  lemma Row6(n: nat)
    requires 227 <= n < 269 && Passes(n)
    ensures n in PrimeRow(6)
  {
    hide Passes;
    Wheel(n);
    assert n / 6 in [37, 38, 39, 40, 41, 42, 43, 44];
  }

  lemma Row7(n: nat)
    requires 269 <= n < 312 && Passes(n)
    ensures n in PrimeRow(7)
  {
    hide Passes;
    Wheel(n);
    assert n / 6 in [44, 45, 46, 47, 48, 49, 50, 51];
  }

  /** The row whose range holds `n`. */
  function RowOf(n: nat): (r: nat)
    ensures r < 8
  {
    if n < 23 then 0 else if n < 59 then 1 else if n < 97 then 2 else if n < 137 then 3
    else if n < 179 then 4 else if n < 227 then 5 else if n < 269 then 6 else 7
  }

  lemma TinyPasses(n: nat)
    requires n <= 4 && Passes(n)
    ensures n in PrimeRow(0)
  {
  }

  lemma InRow(n: nat)
    requires n < 312 && Passes(n)
    ensures n in PrimeRow(RowOf(n))
  {
    hide Passes, PrimeRow;
    if
    case n <= 4 => TinyPasses(n);
    case 5 <= n < 23 => Row0(n);
    case 23 <= n < 59 => Row1(n);
    case 59 <= n < 97 => Row2(n);
    case 97 <= n < 137 => Row3(n);
    case 137 <= n < 179 => Row4(n);
    case 179 <= n < 227 => Row5(n);
    case 227 <= n < 269 => Row6(n);
    case 269 <= n => Row7(n);
  }

  lemma TableIndex(n: nat, r: nat, i: nat) returns (t: nat)
    requires r < 8 && i < 8 && PrimeRow(r)[i] == n
    ensures t < 64 && Prime(t) == n
  {
    hide PrimeRow;
    t := 8 * r + i;
  }

  /** Every prime below 312 is in the table. */
  lemma InTable(n: nat) returns (t: nat)
    requires n < 312 && IsPrime(n)
    ensures t < 64 && Prime(t) == n
  {
    hide Passes, IsPrime, Prime;
    PassesIffPrime(n);
    var r := RowOf(n);
    InRow(n);
    var i :| 0 <= i < 8 && PrimeRow(r)[i] == n;
    t := TableIndex(n, r, i);
  }

  lemma RowPasses(r: nat, i: nat)
    requires r < 8 && i < 8
    ensures PrimeRow(r)[i] < 312 && Passes(PrimeRow(r)[i])
  {
  }

  lemma Entry(t: nat)
    requires t < 64
    ensures Prime(t) < 312 && Passes(Prime(t))
  {
    hide Passes, PrimeRow;
    RowPasses(t / 8, t % 8);
  }

  lemma RowAscends(r: nat)
    requires r < 8
    ensures forall i :: 0 <= i < 7 ==> PrimeRow(r)[i] < PrimeRow(r)[i + 1]
    ensures r < 7 ==> PrimeRow(r)[7] < PrimeRow(r + 1)[0]
  {
  }

  lemma Ascending(t: nat)
    requires t < 63
    ensures Prime(t) < Prime(t + 1)
  {
    hide PrimeRow;
    var r, i := t / 8, t % 8;
    RowAscends(r);
    if i < 7 {
      assert t + 1 == 8 * r + (i + 1);
    } else {
      assert t + 1 == 8 * (r + 1);
    }
  }

  /** The table ascends and holds exactly the primes below 312, so it is the first sixty-four. */
  lemma TableIsPrimes(n: nat)
    requires n < 312
    ensures IsPrime(n) <==> exists t :: 0 <= t < 64 && Prime(t) == n
    ensures forall t :: 0 <= t < 63 ==> Prime(t) < Prime(t + 1)
  {
    hide Passes, IsPrime, Prime;
    if IsPrime(n) {
      var t := InTable(n);
    }
    if t :| 0 <= t < 64 && Prime(t) == n {
      Entry(t);
      PassesIffPrime(n);
    }
    forall t | 0 <= t < 63
      ensures Prime(t) < Prime(t + 1)
    {
      Ascending(t);
    }
  }
}
