/** dpkg's double hashing: stepping down by a fixed amount through a table of prime size. */
module Probing {
  import opened Divisors

  const NAME_HASH_PRIME := 16381
  const PACKAGE_HASH_PRIME := 10007
  const STATUS_HASH_PRIME := 8191

  // ---------- the table sizes are primes ----------

  /** No odd number from d on below b divides n. */
  predicate NoOdd(n: nat, d: nat, b: nat)
    decreases if d < b then b - d else 0
  {
    d >= b || (d > 0 && n % d != 0 && NoOdd(n, d + 2, b))
  }

  lemma {:induction false} NoOddAt(n: nat, d: nat, b: nat, k: nat)
    requires NoOdd(n, d, b) && d % 2 == 1 && k % 2 == 1 && d <= k < b
    ensures n % k != 0
    decreases if d < b then b - d else 0
  {
    if d < k { NoOddAt(n, d + 2, b, k); }
  }

  lemma OddPrime(n: nat, b: nat)
    requires n >= 2 && n % 2 == 1 && NoOdd(n, 3, b) && b * b > n
    ensures Prime(n)
  {
    forall d: nat | 2 <= d < b ensures !Divides(d, n) {
      if d % 2 == 1 {
        NoOddAt(n, 3, b, d);
      } else if Divides(d, n) {
        assert d == d / 2 * 2;
        DividesMul(2, d / 2);
        DividesTrans(2, d, n);
      }
    }
    PrimeByRoot(n, b);
  }

  lemma NoOddEnd(n: nat, b: nat)
    ensures NoOdd(n, b, b)
  {
  }

  lemma NoOddFive(n: nat, d: nat, b: nat)
    requires d > 0 && n % d != 0 && n % (d + 2) != 0 && n % (d + 4) != 0 && n % (d + 6) != 0 && n % (d + 8) != 0
    requires NoOdd(n, d + 10, b)
    ensures NoOdd(n, d, b)
  {
    assert NoOdd(n, d + 8, b);
    assert NoOdd(n, d + 6, b);
    assert NoOdd(n, d + 4, b);
  }

  lemma NameSizePrime()
    ensures Prime(NAME_HASH_PRIME)
  {
    hide Prime, NoOdd;
    NoOddEnd(16381, 133);
    NoOddFive(16381, 123, 133);
    NoOddFive(16381, 113, 133);
    NoOddFive(16381, 103, 133);
    NoOddFive(16381, 93, 133);
    NoOddFive(16381, 83, 133);
    NoOddFive(16381, 73, 133);
    NoOddFive(16381, 63, 133);
    NoOddFive(16381, 53, 133);
    NoOddFive(16381, 43, 133);
    NoOddFive(16381, 33, 133);
    NoOddFive(16381, 23, 133);
    NoOddFive(16381, 13, 133);
    NoOddFive(16381, 3, 133);
    OddPrime(16381, 133);
  }

  lemma PackageSizePrime()
    ensures Prime(PACKAGE_HASH_PRIME)
  {
    hide Prime, NoOdd;
    NoOddEnd(10007, 103);
    NoOddFive(10007, 93, 103);
    NoOddFive(10007, 83, 103);
    NoOddFive(10007, 73, 103);
    NoOddFive(10007, 63, 103);
    NoOddFive(10007, 53, 103);
    NoOddFive(10007, 43, 103);
    NoOddFive(10007, 33, 103);
    NoOddFive(10007, 23, 103);
    NoOddFive(10007, 13, 103);
    NoOddFive(10007, 3, 103);
    OddPrime(10007, 103);
  }

  lemma StatusSizePrime()
    ensures Prime(STATUS_HASH_PRIME)
  {
    hide Prime, NoOdd;
    NoOddEnd(8191, 93);
    NoOddFive(8191, 83, 93);
    NoOddFive(8191, 73, 93);
    NoOddFive(8191, 63, 93);
    NoOddFive(8191, 53, 93);
    NoOddFive(8191, 43, 93);
    NoOddFive(8191, 33, 93);
    NoOddFive(8191, 23, 93);
    NoOddFive(8191, 13, 93);
    NoOddFive(8191, 3, 93);
    OddPrime(8191, 93);
  }

  // ---------- every slot is probed ----------

  /** Where the k-th probe looks. */
  function Probe(start: nat, dec: nat, p: nat, k: nat): (a: nat)
    requires start < p
    ensures a < p
  {
    (start - k * dec) % p
  }

  lemma ProbeFirst(start: nat, dec: nat, p: nat)
    requires start < p
    ensures Probe(start, dec, p, 0) == start
  {
  }

  /** One step of the loops: down by the decrement, and round to the top below 0. */
  lemma ProbeStep(start: nat, dec: nat, p: nat, k: nat)
    requires start < p && 1 <= dec < p
    ensures var a := Probe(start, dec, p, k) - dec;
            Probe(start, dec, p, k + 1) == if a < 0 then a + p else a
  {
    var v := start - k * dec;
    var q, a := v / p, v % p - dec;
    assert start - (k + 1) * dec == v - dec == q * p + a;
    ModAt(v - dec, p, if a < 0 then q - 1 else q, if a < 0 then a + p else a);
  }

  lemma ModAt(v: int, p: nat, q: int, r: nat)
    requires v == q * p + r && r < p
    ensures v % p == r
  {
    var e, s := v / p, v % p;
    assert (q - e) * p == s - r;
    if q > e { Multiple(q - e, p); } else if e > q { assert (e - q) * p == r - s; Multiple(e - q, p); }
  }

  /** Stepping through a table of prime size reaches every slot within as many probes as there are slots. */
  lemma ProbeReaches(start: nat, dec: nat, p: nat, slot: nat) returns (k: nat)
    requires Prime(p) && start < p && 1 <= dec < p && slot < p
    ensures k < p && Probe(start, dec, p, k) == slot
  {
    var x, y := Inverse(dec, p);
    var m := (start - slot) * x;
    k := m % p;
    var q := m / p;
    assert m == q * p + k;
    assert m * dec == q * p * dec + k * dec;
    assert m * dec == (start - slot) * (x * dec);
    assert x * dec == 1 - y * p;
    assert (start - slot) * (1 - y * p) == (start - slot) - (start - slot) * (y * p);
    assert (start - slot) * (y * p) == (start - slot) * y * p;
    assert q * p * dec == q * dec * p;
    var e := (start - slot) * y + q * dec;
    assert e * p == (start - slot) * y * p + q * dec * p;
    ModAt(start - k * dec, p, e, slot);
  }

  // ---------- searching ----------

  /** The slots a search stops at. */
  type Stops = seq<bool>

  /** No probe before the k-th stops the search. */
  ghost predicate Passed(stops: Stops, start: nat, dec: nat, k: nat)
    requires start < |stops|
  {
    forall j: nat | j < k :: !stops[Probe(start, dec, |stops|, j)]
  }

  /** The search ends at slot a, with the k-th probe. */
  ghost predicate EndsAt(stops: Stops, start: nat, dec: nat, a: nat, k: nat)
    requires start < |stops|
  {
    a == Probe(start, dec, |stops|, k) && stops[a] && Passed(stops, start, dec, k)
  }

  ghost predicate Ends(stops: Stops, start: nat, dec: nat)
    requires start < |stops|
  {
    exists a: nat, k: nat :: EndsAt(stops, start, dec, a, k)
  }

  /** A search that has not stopped yet has seen fewer slots than there are, if one of them would stop it. */
  lemma PassedBound(stops: Stops, start: nat, dec: nat, k: nat, slot: nat)
    requires Prime(|stops|) && start < |stops| && 1 <= dec < |stops| && Passed(stops, start, dec, k)
    requires slot < |stops| && stops[slot]
    ensures k < |stops|
  {
    hide Prime, Probe;
    var at := ProbeReaches(start, dec, |stops|, slot);
  }

  lemma {:induction false} FirstEnd(stops: Stops, start: nat, dec: nat, k: nat)
    requires start < |stops| && stops[Probe(start, dec, |stops|, k)]
    ensures Ends(stops, start, dec)
  {
    hide Probe;
    if j: nat :| j < k && stops[Probe(start, dec, |stops|, j)] {
      FirstEnd(stops, start, dec, j);
    } else {
      assert EndsAt(stops, start, dec, Probe(start, dec, |stops|, k), k);
    }
  }

  /** A search ends if and only if the table has a slot to stop at, wherever it starts and however it steps. */
  lemma EndsIff(stops: Stops, start: nat, dec: nat)
    requires Prime(|stops|) && start < |stops| && 1 <= dec < |stops|
    ensures Ends(stops, start, dec) <==> exists slot | 0 <= slot < |stops| :: stops[slot]
  {
    hide Prime, Probe;
    if slot :| 0 <= slot < |stops| && stops[slot] {
      var k := ProbeReaches(start, dec, |stops|, slot);
      FirstEnd(stops, start, dec, k);
    }
  }

  /** Two searches of the same table from the same place end at the same slot. */
  lemma EndUnique(stops: Stops, start: nat, dec: nat, a: nat, k: nat, b: nat, m: nat)
    requires start < |stops| && EndsAt(stops, start, dec, a, k) && EndsAt(stops, start, dec, b, m)
    ensures a == b
  {
    hide Probe;
  }
}
