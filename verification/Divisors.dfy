/** Divisors, primes, products and powers. */
module Divisors {
  import opened Bits

  const HALF_LIMIT := 0x1_0000_0000
  const WIDE_LIMIT := 0x1_0000_0000_0000_0000

  // ---------- divisors, primes and products ----------

  predicate Divides(d: nat, n: nat)
  {
    d > 0 && n % d == 0
  }

  ghost predicate Prime(p: nat)
  {
    p >= 2 && NoDivisor(p, p)
  }

  /** n has no divisor from 2 up to but not including b. */
  ghost predicate NoDivisor(n: nat, b: nat)
  {
    forall d: nat | 2 <= d < b :: !Divides(d, n)
  }

  function Power(n: nat, k: nat): nat
  {
    if k == 0 then 1 else n * Power(n, k - 1)
  }

  function Product(s: seq<nat>): nat
  {
    if s == [] then 1 else Product(s[..|s| - 1]) * s[|s| - 1]
  }

  predicate Ascending(s: seq<nat>)
  {
    forall i, j | 0 <= i < j < |s| :: s[i] <= s[j]
  }

  /** Prime divisors of n. */
  ghost predicate PrimeDivisors(s: seq<nat>, n: nat)
  {
    forall i | 0 <= i < |s| :: Prime(s[i]) && Divides(s[i], n)
  }

  /** The prime factorisation of the rep-th power of n, in ascending order. */
  ghost predicate Factorisation(s: seq<nat>, n: nat, rep: nat)
  {
    Ascending(s) && PrimeDivisors(s, n) && Product(s) == Power(n, rep)
  }

  lemma DividesMul(d: nat, q: nat)
    requires d > 0
    ensures Divides(d, q * d)
  {
    var n := q * d;
    var e, r := n / d, n % d;
    assert n == d * e + r;
    assert (q - e) * d == r;
    if q > e {
      Multiple(q - e, d);
    } else if q < e {
      Multiple(e - q, d);
    }
  }

  lemma Multiple(k: nat, d: nat)
    requires k > 0
    ensures k * d >= d
  {
  }

  lemma Quotient(d: nat, n: nat)
    requires Divides(d, n)
    ensures n / d * d == n
  {
  }

  lemma DividesTrans(a: nat, b: nat, c: nat)
    requires Divides(a, b) && Divides(b, c)
    ensures Divides(a, c)
  {
    if b == 0 {
      return;
    }
    Quotient(a, b);
    Quotient(b, c);
    assert c == (c / b * (b / a)) * a;
    DividesMul(a, c / b * (b / a));
  }

  /** A divisor above the square root comes with one below it. */
  lemma Codivisor(d: nat, n: nat, b: nat)
    requires Divides(d, n) && 2 <= d < n && b * b > n && d >= b
    ensures Divides(n / d, n) && 2 <= n / d < b
  {
    var e := n / d;
    Quotient(d, n);
    assert n == d * e;
    DividesMul(e, d);
    if e >= b {
      Products(d, e, b);
    }
  }

  lemma Products(d: nat, e: nat, b: nat)
    requires d >= b && e >= b
    ensures d * e >= b * b
  {
    assert d * e >= b * e;
  }

  /** Without a divisor up to its square root a number is prime. */
  lemma PrimeByRoot(n: nat, b: nat)
    requires n >= 2 && NoDivisor(n, b) && b * b > n
    ensures Prime(n)
  {
    hide Divides;
    forall d: nat | 2 <= d < n ensures !Divides(d, n) {
      if Divides(d, n) && d >= b { Codivisor(d, n, b); }
    }
  }

  lemma {:induction false} ProductConcat(a: seq<nat>, b: seq<nat>)
    ensures Product(a + b) == Product(a) * Product(b)
  {
    if b == [] {
      assert a + b == a;
    } else {
      var c := b[..|b| - 1];
      assert (a + b)[..|a + b| - 1] == a + c;
      ProductConcat(a, c);
      assert Product(a) * (Product(c) * b[|b| - 1]) == Product(a) * Product(c) * b[|b| - 1];
    }
  }

  /** A power of a product is the product of the powers. */
  lemma {:induction false} PowerMul(a: nat, b: nat, k: nat)
    ensures Power(a * b, k) == Power(a, k) * Power(b, k)
  {
    if k > 0 {
      PowerMul(a, b, k - 1);
      var x, y := Power(a, k - 1), Power(b, k - 1);
      Regroup(a, b, x, y);
    }
  }

  lemma Regroup(a: nat, b: nat, x: nat, y: nat)
    ensures a * b * (x * y) == a * x * (b * y)
  {
    assert a * b * (x * y) == a * (b * (x * y));
    assert b * (x * y) == x * (b * y);
    assert a * (x * (b * y)) == a * x * (b * y);
  }

  lemma ProductsUpTo(a: nat, b: nat, x: nat, y: nat)
    requires a <= b && x <= y
    ensures a * x <= b * y
  {
    assert a * x <= b * x;
    assert b * x <= b * y;
  }

  lemma {:induction false} PowerSquare(a: nat, k: nat)
    ensures Power(a, 2 * k) == Power(a * a, k)
  {
    if k > 0 {
      PowerSquare(a, k - 1);
      assert Power(a, 2 * k) == a * (a * Power(a, 2 * k - 2));
      assert a * (a * Power(a, 2 * k - 2)) == a * a * Power(a, 2 * (k - 1));
    }
  }

  lemma {:induction false} PowerMonotone(a: nat, b: nat, k: nat)
    requires a <= b
    ensures Power(a, k) <= Power(b, k)
  {
    if k > 0 {
      PowerMonotone(a, b, k - 1);
      ProductsUpTo(a, b, Power(a, k - 1), Power(b, k - 1));
    }
  }

  lemma {:induction false} PowerTwo(k: nat)
    ensures Power(2, k) == Pow2(k)
  {
    if k > 0 { PowerTwo(k - 1); }
  }

  lemma WideLimit()
    ensures Pow2(64) == WIDE_LIMIT
  {
    Pow2Values();
    PowerTwo(32);
    PowerTwo(64);
    PowerSquare(2, 32);
    PowerMul(2, 2, 32);
  }

  /** How often anything but 1 can be repeated in a 64-bit number. */
  lemma RepeatBound(n: nat, k: nat)
    requires n >= 2 && Power(n, k) < WIDE_LIMIT
    ensures k < 64
  {
    PowerMonotone(2, n, k);
    PowerTwo(k);
    if k >= 64 {
      Pow2Monotone(64, k);
      WideLimit();
    }
  }

  /** n printed k times. */
  function Copies(n: nat, k: nat): (s: seq<nat>)
    ensures |s| == k && forall i | 0 <= i < k :: s[i] == n
  {
    if k == 0 then [] else Copies(n, k - 1) + [n]
  }

  lemma {:induction false} CopiesProduct(n: nat, k: nat)
    ensures Product(Copies(n, k)) == Power(n, k)
  {
    if k > 0 {
      CopiesProduct(n, k - 1);
      assert Copies(n, k)[..k - 1] == Copies(n, k - 1);
    }
  }

  lemma PrimeTwo(p: nat)
    requires Prime(p)
    ensures p >= 2
  {
  }

  lemma PrimeCopies(n: nat, rep: nat)
    requires Prime(n)
    ensures Factorisation(Copies(n, rep), n, rep)
  {
    hide Prime, Copies;
    PrimeTwo(n);
    CopiesProduct(n, rep);
    DividesMul(n, 1);
  }

  // ---------- greatest common divisors ----------

  ghost function Gcd(a: nat, b: nat): nat
    decreases b
  {
    if b == 0 then a else Gcd(b, a % b)
  }

  lemma {:induction false} GcdDivides(a: nat, b: nat)
    requires a > 0 || b > 0
    ensures Divides(Gcd(a, b), a) && Divides(Gcd(a, b), b)
    decreases b
  {
    hide Divides;
    if b == 0 {
      DividesMul(a, 1);
      DividesMul(a, 0);
    } else {
      GcdDivides(b, a % b);
      DividesWhole(Gcd(a, b), a, b);
    }
  }

  lemma DividesWhole(g: nat, a: nat, b: nat)
    requires b > 0 && Divides(g, b) && Divides(g, a % b)
    ensures Divides(g, a)
  {
    hide Divides;
    DividesSum(g, b, a / b, a % b);
  }

  lemma DividesSum(g: nat, b: nat, q: nat, r: nat)
    requires Divides(g, b) && Divides(g, r)
    ensures Divides(g, q * b + r)
  {
    Quotient(g, b);
    Quotient(g, r);
    assert q * b == q * (b / g) * g;
    assert q * b + r == (q * (b / g) + r / g) * g;
    DividesMul(g, q * (b / g) + r / g);
  }

  /** The greatest common divisor as a combination. */
  lemma {:induction false} Bezout(a: nat, b: nat) returns (x: int, y: int)
    requires a > 0 || b > 0
    ensures x * a + y * b == Gcd(a, b)
    decreases b
  {
    if b == 0 { return 1, 0; }
    var u, v := Bezout(b, a % b);
    x, y := v, u - v * (a / b);
    var q, r := a / b, a % b;
    Combine(a, b, u, v, q, r);
  }

  lemma Combine(a: int, b: int, u: int, v: int, q: int, r: int)
    requires a == q * b + r
    ensures v * a + (u - v * q) * b == u * b + v * r
  {
    assert v * a == v * (q * b) + v * r;
    assert v * (q * b) == v * q * b;
    assert (u - v * q) * b == u * b - v * q * b;
  }

  lemma DivisorUpTo(g: nat, d: nat)
    requires Divides(g, d) && d >= 1
    ensures g <= d
  {
    Quotient(g, d);
    var q := d / g;
    assert q != 0;
    Multiple(q, g);
  }

  /** Anything from 1 up to a prime has an inverse modulo the prime. */
  lemma Inverse(d: nat, p: nat) returns (x: int, y: int)
    requires Prime(p) && 1 <= d < p
    ensures x * d + y * p == 1
  {
    var g := Gcd(d, p);
    GcdDivides(d, p);
    x, y := Bezout(d, p);
    DivisorUpTo(g, d);
  }

  // ---------- factorisations are unique ----------

  /** A prime that divides a product divides one of its factors. */
  lemma Euclid(p: nat, a: nat, b: nat)
    requires Prime(p) && Divides(p, a * b)
    ensures Divides(p, a) || Divides(p, b)
  {
    var g := Gcd(a, p);
    GcdDivides(a, p);
    PrimeDivisor(g, p);
    if g == 1 {
      var x, y := Bezout(a, p);
      Quotient(p, a * b);
      EuclidSum(p, a, b, x, y, a * b / p);
    }
  }

  lemma PrimeDivisor(g: nat, p: nat)
    requires Prime(p) && Divides(g, p)
    ensures g == 1 || g == p
  {
    DivisorUpTo(g, p);
  }

  lemma EuclidSum(p: nat, a: nat, b: nat, x: int, y: int, q: nat)
    requires p > 0 && x * a + y * p == 1 && q * p == a * b
    ensures Divides(p, b)
  {
    var k := x * q + y * b;
    assert x * (a * b) + y * p * b == (x * a + y * p) * b;
    assert x * (q * p) == x * q * p;
    assert y * p * b == y * b * p;
    assert k * p == x * q * p + y * b * p;
    NonNegative(k, p);
    DividesMul(p, k);
  }

  lemma NonNegative(k: int, p: nat)
    requires p > 0 && k * p >= 0
    ensures k >= 0
  {
  }

  ghost predicate AllPrime(s: seq<nat>)
  {
    forall i | 0 <= i < |s| :: Prime(s[i])
  }

  lemma {:induction false} PrimeFactor(p: nat, s: seq<nat>) returns (i: nat)
    requires Prime(p) && AllPrime(s) && Divides(p, Product(s))
    ensures i < |s| && s[i] == p
  {
    if s == [] {
      DivisorUpTo(p, 1);
      assert false;
    } else {
      var last := |s| - 1;
      Euclid(p, Product(s[..last]), s[last]);
      if Divides(p, s[last]) {
        DivisorUpTo(p, s[last]);
        i := last;
      } else {
        i := PrimeFactor(p, s[..last]);
      }
    }
  }

  lemma {:induction false} PrimeProduct(s: seq<nat>)
    requires AllPrime(s)
    ensures Product(s) >= 1 && (s != [] ==> Product(s) >= 2)
  {
    hide NoDivisor;
    if s != [] {
      PrimeProduct(s[..|s| - 1]);
      ProductsUpTo(1, Product(s[..|s| - 1]), 2, s[|s| - 1]);
    }
  }

  /** Two ascending lists of primes with the same product are the same. */
  lemma {:induction false} FactorisationUnique(s: seq<nat>, t: seq<nat>)
    requires Ascending(s) && AllPrime(s) && Ascending(t) && AllPrime(t) && Product(s) == Product(t)
    ensures s == t
    decreases |s|
  {
    hide Prime, Divides;
    PrimeProduct(s);
    PrimeProduct(t);
    if s != [] && t != [] {
      var m, n := |s| - 1, |t| - 1;
      LastDivides(s);
      LastDivides(t);
      var i := PrimeFactor(s[m], t);
      var j := PrimeFactor(t[n], s);
      assert s[m] == t[n];
      SameFactor(Product(s[..m]), Product(t[..n]), s[m]);
      FactorisationUnique(s[..m], t[..n]);
      assert s == s[..m] + [s[m]] && t == t[..n] + [t[n]];
    }
  }

  lemma LastDivides(s: seq<nat>)
    requires s != [] && AllPrime(s)
    ensures Divides(s[|s| - 1], Product(s)) && s[|s| - 1] > 0
  {
    hide NoDivisor;
    DividesMul(s[|s| - 1], Product(s[..|s| - 1]));
  }

  lemma SameFactor(a: nat, b: nat, p: nat)
    requires p > 0 && a * p == b * p
    ensures a == b
  {
  }
}
