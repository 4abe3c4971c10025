/** The sieve of Eratosthenes. */
module Sieve {
  import opened Arithmetic

  ghost predicate Divides(d: nat, n: nat)
    requires d >= 1
  {
    n % d == 0
  }

  ghost predicate Prime(n: nat) {
    n >= 2 && forall d :: 2 <= d < n ==> !Divides(d, n)
  }

  ghost function PrimesUpTo(n: nat): nat {
    if n == 0 then 0 else PrimesUpTo(n - 1) + if Prime(n) then 1 else 0
  }

  /** PrimesUpTo(n) is the number of primes up to n. */
  lemma {:induction false} PrimesAreCounted(n: nat)
    ensures PrimesUpTo(n) == |set i: nat | i <= n && Prime(i)|
  {
    hide Prime;
    if n == 0 {
      assert !Prime(0) by { ZeroNotPrime(); }
      assert (set i: nat | i <= 0 && Prime(i)) == {};
    } else {
      PrimesAreCounted(n - 1);
      var before := set i: nat | i <= n - 1 && Prime(i);
      assert (set i: nat | i <= n && Prime(i)) == before + if Prime(n) then {n} else {};
    }
  }

  lemma ZeroNotPrime()
    ensures !Prime(0)
  {
  }

  /** Some prime below p, whose square is at most i, divides i. */
  ghost predicate CrossedOut(i: nat, p: nat) {
    exists q :: 2 <= q < p && Prime(q) && q * q <= i && Divides(q, i)
  }

  lemma DividesTrans(a: nat, b: nat, n: nat)
    requires a >= 1 && b >= 1 && Divides(a, b) && Divides(b, n)
    ensures Divides(a, n)
  {
    var x, y := b / a, n / b;
    assert n == y * b && b == x * a;
    assert n == (y * x) * a + 0 by {
      assert y * (x * a) == (y * x) * a;
    }
    Quotient(n, a, y * x, 0);
  }

  /** Every number from 2 on has a prime divisor. */
  lemma {:induction false} PrimeDivisor(n: nat) returns (q: nat)
    requires n >= 2
    ensures Prime(q) && q <= n && Divides(q, n)
    decreases n
  {
    if Prime(n) {
      q := n;
      Quotient(n, n, 1, 0);
    } else {
      var d :| 2 <= d < n && Divides(d, n);
      q := PrimeDivisor(d);
      DividesTrans(q, d, n);
    }
  }

  lemma Cofactor(d: nat, n: nat) returns (e: nat)
    requires 2 <= d < n && Divides(d, n)
    ensures n == d * e && e >= 2 && Divides(e, n)
  {
    e := n / d;
    assert n == e * d;
    MulMonotone(e, 1, d);
    Quotient(n, e, d, 0);
  }

  lemma SmallerFactor(d: nat, e: nat, n: nat) returns (s: nat)
    requires n == d * e
    ensures (s == d || s == e) && s * s <= n
  {
    s := if d <= e then d else e;
    MulMonotone(s, e, d);
    MulMonotone(s, d, e);
  }

  /** A composite has a prime divisor whose square does not exceed it. */
  lemma SmallPrimeDivisor(n: nat) returns (q: nat)
    requires n >= 2 && !Prime(n)
    ensures Prime(q) && q < n && q * q <= n && Divides(q, n)
  {
    hide Divides;
    var d :| 2 <= d < n && Divides(d, n);
    var e := Cofactor(d, n);
    var s := SmallerFactor(d, e, n);
    q := PrimeDivisor(s);
    DividesTrans(q, s, n);
    MulMonotone(q, s, q);
    MulMonotone(q, s, s);
    MulMonotone(2, q, q);
  }

  /** Once the square of p exceeds i, crossing out by primes below p has decided i. */
  lemma CrossingDecides(i: nat, p: nat)
    requires i >= 2 && p >= 2 && (i < p * p)
    ensures CrossedOut(i, p) <==> !Prime(i)
  {
    if CrossedOut(i, p) {
      var q :| 2 <= q < p && Prime(q) && q * q <= i && Divides(q, i);
      MulMonotone(2, q, q);
    } else if !Prime(i) {
      var q := SmallPrimeDivisor(i);
      MulMonotone(p, q, p);
      MulMonotone(p, q, q);
    }
  }

  /** Between two consecutive multiples of p there is no third. */
  lemma MultiplesApart(p: nat, k: nat, j: nat)
    requires p >= 1 && k * p <= j < k * p + p
    ensures Divides(p, j) <==> j == k * p
  {
    Quotient(j, p, k, j - k * p);
  }

  /** The inner loop for a prime p crosses out every multiple from p * p on. */
  method CrossOut(ip: array<bool>, p: nat, lim: nat)
    requires 1 <= lim < ip.Length && Prime(p)
    requires forall j: nat :: 2 <= j <= lim ==> ip[j] == !CrossedOut(j, p)
    modifies ip
    ensures forall j: nat :: 2 <= j <= lim ==> ip[j] == !CrossedOut(j, p + 1)
    ensures ip[..2] == old(ip[..2]) && ip[lim + 1..] == old(ip[lim + 1..])
  {
    var i := p * p;
    ghost var k := p;
    MulMonotone(2, p, p);
    while i <= lim
      invariant i == k * p && k >= p && i >= p * p >= 2 * p
      invariant forall j: nat :: 2 <= j <= lim ==> ip[j] == !(CrossedOut(j, p) || (p * p <= j < i && Divides(p, j)))
      invariant ip[..2] == old(ip[..2]) && ip[lim + 1..] == old(ip[lim + 1..])
      decreases lim + p - i
    {
      forall j: nat | i <= j < i + p ensures Divides(p, j) <==> j == i {
        MultiplesApart(p, k, j);
      }
      ip[i] := false;
      assert (k + 1) * p == k * p + p;
      i, k := i + p, k + 1;
    }
    forall j: nat | 2 <= j <= lim ensures CrossedOut(j, p + 1) <==> CrossedOut(j, p) || (p * p <= j && Divides(p, j)) {
      OneMorePrime(j, p);
    }
  }

  lemma OneMorePrime(j: nat, p: nat)
    requires p >= 2
    ensures CrossedOut(j, p + 1) <==> CrossedOut(j, p) || (Prime(p) && p * p <= j && Divides(p, j))
  {
  }

  /** sieve: the flags up to lim mark exactly the primes, and the result is their number,
      although only multiples from p * p on are crossed out and only while p * p <= lim. */
  method Sieve(ip: array<bool>, lim: nat) returns (c: nat)
    requires 1 <= lim < ip.Length
    modifies ip
    ensures forall i: nat :: i <= lim ==> (ip[i] <==> Prime(i))
    ensures c == |set i: nat | i <= lim && Prime(i)|
    ensures ip[lim + 1..] == old(ip[lim + 1..])
  {
    hide Divides;
    forall i | 0 <= i <= lim {
      ip[i] := true;
    }
    ip[0], ip[1] := false, false;
    assert ip[lim + 1..] == old(ip[lim + 1..]);
    var p := 2;
    while p * p <= lim
      invariant p >= 2 && !ip[0] && !ip[1]
      invariant forall j: nat :: 2 <= j <= lim ==> ip[j] == !CrossedOut(j, p)
      invariant ip[lim + 1..] == old(ip[lim + 1..])
      decreases lim + 2 - p
    {
      MulMonotone(2, p, p);
      CrossingDecides(p, p);
      if ip[p] {
        ghost var low := ip[..2];
        CrossOut(ip, p, lim);
        assert !ip[0] && !ip[1] by {
          assert ip[0] == ip[..2][0] && ip[1] == ip[..2][1];
        }
      }
      forall j: nat | 2 <= j <= lim ensures ip[j] == !CrossedOut(j, p + 1) {
        OneMorePrime(j, p);
      }
      p := p + 1;
    }
    forall i: nat | i <= lim ensures ip[i] <==> Prime(i) {
      if i >= 2 {
        CrossingDecides(i, p);
      }
    }
    c := CountFlags(ip, lim);
    PrimesAreCounted(lim);
  }

  /** The counting loop at the end. */
  method CountFlags(ip: array<bool>, lim: nat) returns (c: nat)
    requires 1 <= lim < ip.Length && forall i: nat :: i <= lim ==> (ip[i] <==> Prime(i))
    ensures c == PrimesUpTo(lim)
  {
    hide Prime;
    c := 0;
    NoSmallPrimes();
    for i := 2 to lim + 1
      invariant c == PrimesUpTo(i - 1)
    {
      if ip[i] {
        c := c + 1;
      }
    }
  }

  lemma NoSmallPrimes()
    ensures PrimesUpTo(1) == 0
  {
    assert !Prime(0) && !Prime(1);
  }
}
