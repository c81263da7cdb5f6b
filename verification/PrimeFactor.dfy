/** find_largest_prime_factor of xv6/proc.c. */
module PrimeFactor {
  const INT_MAX := 0x7FFF_FFFF

  predicate Divides(d: nat, n: nat)
    requires d > 0
  {
    n % d == 0
  }

  ghost predicate Prime(p: int) {
    p >= 2 && forall d | 2 <= d < p :: !Divides(d, p)
  }

  /** No number from 2 up to i divides n. */
  ghost predicate Rough(n: nat, i: nat) {
    forall d | 2 <= d < i :: !Divides(d, n)
  }

  ghost predicate IsFactor(q: int, n: nat) {
    Prime(q) && Divides(q, n)
  }

  /** The largest prime that divides n; -1 if none does. */
  ghost predicate Largest(r: int, n: nat) {
    (r == -1 || IsFactor(r, n)) && forall q | IsFactor(q, n) :: q <= r
  }

  // ---------------------------------------------------------------------------------------
  // Divisibility
  // ---------------------------------------------------------------------------------------

  lemma {:induction false} AtLeastOnce(d: nat, x: nat)
    requires x >= 1
    ensures d * x >= d
    decreases x
  {
    if x > 1 {
      AtLeastOnce(d, x - 1);
      assert d * x == d * (x - 1) + d;
    }
  }

  /** The only multiple of d from 0 up to d is 0. */
  lemma SmallMultiple(d: nat, x: int, m: int)
    requires m == d * x && 0 <= m < d
    ensures m == 0
  {
    if x >= 1 { AtLeastOnce(d, x); }
    if x <= -1 {
      AtLeastOnce(d, -x);
      assert d * x == -(d * -x);
    }
  }

  lemma Multiple(d: nat, k: int)
    requires d > 0
    ensures (d * k) % d == 0
  {
    var p := d * k;
    var t, m := p / d, p % d;
    assert p == t * d + m;
    assert d * (k - t) == d * k - t * d;
    SmallMultiple(d, k - t, m);
  }

  lemma Quotient(d: nat, n: nat) returns (k: nat)
    requires d > 0 && Divides(d, n)
    ensures n == d * k && k == n / d
  {
    k := n / d;
  }

  lemma DividesTrans(a: nat, b: nat, c: nat)
    requires a > 0 && b > 0 && Divides(a, b) && Divides(b, c)
    ensures Divides(a, c)
  {
    var k := Quotient(a, b);
    var l := Quotient(b, c);
    assert c == a * (k * l);
    Multiple(a, k * l);
  }

  /** If q is prime and divides r * b for some r below q, it divides b. */
  lemma {:induction false} EuclidBelow(q: nat, r: nat, b: nat)
    requires Prime(q) && 0 < r < q && Divides(q, r * b)
    ensures Divides(q, b)
    decreases r
  {
    if r > 1 {
      assert !Divides(r, q);
      var k := Quotient(q, r * b);
      var s := q % r;
      assert q == q / r * r + s;
      calc {
        s * b;
        (q - q / r * r) * b;
        q * b - q / r * (r * b);
        q * b - q / r * (q * k);
        q * (b - q / r * k);
      }
      Multiple(q, b - q / r * k);
      EuclidBelow(q, s, b);
    }
  }

  lemma Euclid(q: nat, a: nat, b: nat)
    requires Prime(q) && Divides(q, a * b) && !Divides(q, a)
    ensures Divides(q, b)
  {
    var r := a % q;
    var k := Quotient(q, a * b);
    assert a == a / q * q + r;
    calc {
      r * b;
      (a - a / q * q) * b;
      a * b - a / q * (q * b);
      q * k - a / q * (q * b);
      q * (k - a / q * b);
    }
    Multiple(q, k - a / q * b);
    EuclidBelow(q, r, b);
  }

  // ---------------------------------------------------------------------------------------
  // The loops
  // ---------------------------------------------------------------------------------------

  /** n is what trial division has left of whole, with largest factor found r; nothing below i divides
      it. */
  ghost predicate Divided(whole: nat, n: nat, r: int, i: nat) {
    && n > 0 && Divides(n, whole) && Rough(n, i)
    && (r == -1 || (IsFactor(r, whole) && r <= i))
    && (forall q | IsFactor(q, whole) :: q <= r || IsFactor(q, n))
  }

  /** The smallest divisor of a number is prime. */
  lemma FirstDivisorIsPrime(n: nat, p: nat)
    requires n > 0 && p >= 2 && Rough(n, p) && Divides(p, n)
    ensures Prime(p)
  {
    forall d | 2 <= d < p ensures !Divides(d, p) {
      if Divides(d, p) { DividesTrans(d, p, n); }
    }
  }

  lemma IsFactorIntro(q: nat, n: nat)
    requires q > 0 && Prime(q) && Divides(q, n)
    ensures IsFactor(q, n)
  {
  }

  lemma Halved(n: nat, i: nat, k: nat)
    requires n > 0 && i >= 2 && n == i * k
    ensures 0 < k < n && Divides(k, n)
  {
    AtLeastOnce(k, i - 1);
    assert i * k == k * (i - 1) + k;
    assert n == k * i;
    Multiple(k, i);
  }

  /** A prime above i that divides i * k divides k. */
  lemma FactorStays(q: int, n: nat, i: nat, k: nat)
    requires IsFactor(q, n) && q > i >= 2 && n == i * k
    ensures IsFactor(q, k)
  {
    assert i % q == i;
    Euclid(q, i, k);
  }

  /** One division by the smallest divisor. */
  lemma DivideOut(whole: nat, n: nat, r: int, i: nat) returns (k: nat)
    requires Divided(whole, n, r, i) && i >= 2 && Divides(i, n)
    ensures k == n / i < n && Divided(whole, k, i, i)
  {
    hide Prime, Divides, IsFactor;
    FirstDivisorIsPrime(n, i);
    DividesTrans(i, n, whole);
    IsFactorIntro(i, whole);
    k := Quotient(i, n);
    Halved(n, i, k);
    DividesTrans(k, n, whole);
    forall d | 2 <= d < i ensures !Divides(d, k) {
      if Divides(d, k) { DividesTrans(d, k, n); }
    }
    forall q | IsFactor(q, whole) ensures q <= i || IsFactor(q, k) {
      if q > i { FactorStays(q, n, i, k); }
    }
  }

  /** The inner loop: every factor i goes. */
  method Remove(n0: nat, r0: int, i: nat, ghost whole: nat) returns (n: nat, r: int)
    requires Divided(whole, n0, r0, i) && i >= 2
    ensures Divided(whole, n, r, i + 1) && n <= n0 && r == if Divides(i, n0) then i else r0
  {
    n, r := n0, r0;
    while n % i == 0
      invariant 0 < n <= n0 && Divided(whole, n, r, i)
      invariant if n == n0 then r == r0 else Divides(i, n0) && r == i
      decreases n
    {
      ghost var k := DivideOut(whole, n, r, i);
      r := i;
      n := n / i;
    }
  }

  /** A number that has a divisor among the small ones is no divisor. */
  lemma NextRough(whole: nat, n: nat, r: int, i: nat, p: nat)
    requires Divided(whole, n, r, i) && 2 <= p < i && Divides(p, i)
    ensures Divided(whole, n, r, i + 1)
  {
    if Divides(i, n) { DividesTrans(p, i, n); }
  }

  /** i + 1, i + 3 and i + 5 are even and i + 4 is a multiple of 3, if i leaves 5 when divided by 6. */
  lemma SkipOne(whole: nat, n: nat, r: int, i: nat)
    requires Divided(whole, n, r, i + 1) && i >= 5 && i % 6 == 5
    ensures Divided(whole, n, r, i + 2)
  {
    NextRough(whole, n, r, i + 1, 2);
  }

  lemma SkipThree(whole: nat, n: nat, r: int, i: nat)
    requires Divided(whole, n, r, i + 3) && i >= 5 && i % 6 == 5
    ensures Divided(whole, n, r, i + 6)
  {
    NextRough(whole, n, r, i + 3, 2);
    NextRough(whole, n, r, i + 4, 3);
    NextRough(whole, n, r, i + 5, 2);
  }

  /** When the counter has passed n, nothing is left. */
  lemma AllDivided(whole: nat, n: nat, r: int, i: nat)
    requires Divided(whole, n, r, i) && i > n
    ensures n == 1 && Largest(r, whole)
  {
    assert n >= 2 ==> Divides(n, n);
    forall q | IsFactor(q, whole) ensures q <= r {
      assert q > 1 ==> 1 % q == 1;
    }
  }

  lemma SmallRemainder(a: nat, b: nat)
    requires a < b
    ensures a % b == a
  {
  }

  /** The counter, an int, stays in range for every argument but 2147483647. */
  lemma CounterFits(whole: nat, n: nat, r: int, i: nat)
    requires Divided(whole, n, r, i) && 0 < whole < INT_MAX && 5 <= i <= n && i % 6 == 5
    ensures i + 6 <= INT_MAX
  {
    if whole < n { SmallRemainder(whole, n); }
    assert i > 5 ==> !Divides(2, n) && !Divides(5, n);
  }

  lemma DivisionStart(n: nat)
    requires n > 0
    ensures Divided(n, n, -1, 2)
  {
  }

  /** Taking out the 2s leaves the 3s. */
  lemma ThreeStays(whole: nat, n: nat, r: int)
    requires Divided(whole, n, r, 3) && r <= 2
    ensures Divides(3, n) <==> Divides(3, whole)
  {
    assert Prime(3);
    if Divides(3, n) { DividesTrans(3, n, whole); }
    if Divides(3, whole) { assert IsFactor(3, whole); }
  }

  /** find_largest_prime_factor: the largest prime factor of a positive number, -1 for 1. Division in C
      truncates, so a negative number is reduced by its magnitude, and the loop over larger factors is
      not entered. The argument 0 would keep the first loop running for ever, and for the largest int the
      counter of the source overflows. */
  method LargestPrimeFactor(number: int) returns (r: int)
    requires number != 0
    ensures 0 < number < INT_MAX ==> Largest(r, number)
    ensures number < 0 ==> r == if Divides(3, -number) then 3 else if Divides(2, -number) then 2 else -1
  {
    hide Divided, Largest;
    var whole: nat := if number < 0 then -number else number;
    DivisionStart(whole);
    var n := whole;
    r := -1;
    n, r := Remove(n, r, 2, whole);
    ThreeStays(whole, n, r);
    n, r := Remove(n, r, 3, whole);
    NextRough(whole, n, r, 4, 2);
    var i := 5;
    while number > 0 && i <= n
      invariant i >= 5 && i % 6 == 5 && Divided(whole, n, r, i)
      invariant number < INT_MAX ==> i <= INT_MAX
      invariant number < 0 ==> r == if Divides(3, whole) then 3 else if Divides(2, whole) then 2 else -1
      decreases n as int + 6 - i as int
    {
      if number < INT_MAX { CounterFits(whole, n, r, i); }
      n, r := Remove(n, r, i, whole);
      SkipOne(whole, n, r, i);
      n, r := Remove(n, r, i + 2, whole);
      SkipThree(whole, n, r, i);
      i := i + 6;
    }
    if number > 0 {
      AllDivided(whole, n, r, i);
      if n > 4 {
        r := n;
      }
    }
  }
}
