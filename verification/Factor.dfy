/** factor: trial division along the wheel, with perfect squares taken apart recursively. */
module Factor {
  import opened Bits
  import opened Divisors
  import opened Wheel

  // ---------- progress of the trial division ----------

  /** The factors found so far and the rest account for n0; the rest has no divisor below the current one. */
  ghost predicate Progress(found: seq<nat>, n0: nat, n: nat, factor: nat, rep: nat)
  {
    && n >= 1 && factor >= 2 && NoDivisor(n, factor) && Divides(n, n0)
    && Ascending(found) && PrimeDivisors(found, n0) && (forall i | 0 <= i < |found| :: found[i] <= factor)
    && Product(found) * Power(n, rep) == Power(n0, rep)
  }

  lemma StartProgress(n: nat, rep: nat)
    requires n >= 1
    ensures Progress([], n, n, 2, rep)
  {
    hide Power;
    DividesMul(n, 1);
  }

  /** What divides a number without small divisors is no smaller. */
  lemma NoDivisorOf(n: nat, m: nat, b: nat)
    requires NoDivisor(n, b) && Divides(m, n)
    ensures NoDivisor(m, b)
  {
    hide Divides;
    forall d: nat | 2 <= d < b ensures !Divides(d, m) {
      if Divides(d, m) { DividesTrans(d, m, n); }
    }
  }

  /** A divisor found is prime, since no smaller one was. */
  lemma FoundPrime(n: nat, factor: nat)
    requires factor >= 2 && NoDivisor(n, factor) && Divides(factor, n)
    ensures Prime(factor)
  {
    NoDivisorOf(n, factor, factor);
  }

  /** Factors in ascending order, followed by those of what is left. */
  lemma Append(found: seq<nat>, r: seq<nat>, n0: nat, n: nat, factor: nat)
    requires Ascending(found) && PrimeDivisors(found, n0) && (forall i | 0 <= i < |found| :: found[i] <= factor)
    requires Ascending(r) && PrimeDivisors(r, n) && NoDivisor(n, factor) && Divides(n, n0)
    ensures Ascending(found + r) && PrimeDivisors(found + r, n0)
  {
    hide Prime, Divides;
    forall i | 0 <= i < |r| ensures r[i] >= factor && Divides(r[i], n0) {
      PrimeTwo(r[i]);
      DividesTrans(r[i], n, n0);
    }
  }

  lemma Finish(found: seq<nat>, r: seq<nat>, n0: nat, n: nat, factor: nat, rep: nat)
    requires Progress(found, n0, n, factor, rep) && Factorisation(r, n, rep)
    ensures Factorisation(found + r, n0, rep)
  {
    hide Prime, Divides, NoDivisor, Ascending, PrimeDivisors;
    ProductConcat(found, r);
    Append(found, r, n0, n, factor);
  }

  /** Dividing by a divisor found. */
  lemma Divided(found: seq<nat>, n0: nat, n: nat, factor: nat, rep: nat)
    requires Progress(found, n0, n, factor, rep) && Divides(factor, n)
    ensures Progress(found + Copies(factor, rep), n0, n / factor, factor, rep)
    ensures 1 <= n / factor < n
  {
    hide Prime, Ascending, PrimeDivisors, Copies, NoDivisor, Power, Product, Divides;
    FoundPrime(n, factor);
    var m := n / factor;
    Smaller(n, factor);
    NoDivisorOf(n, m, factor);
    DividesTrans(m, n, n0);
    CopiesFit(found, n0, n, factor, rep);
    ProductConcat(found, Copies(factor, rep));
    CopiesProduct(factor, rep);
    PowerMul(factor, m, rep);
    Associate(Product(found), Power(factor, rep), Power(m, rep));
  }

  lemma Associate(x: nat, y: nat, z: nat)
    ensures x * y * z == x * (y * z)
  {
  }

  lemma Smaller(n: nat, d: nat)
    requires n >= 1 && d >= 2 && Divides(d, n)
    ensures 1 <= n / d < n && d * (n / d) == n && Divides(n / d, n)
  {
    Quotient(d, n);
    assert d * (n / d) == n;
    DividesMul(n / d, d);
  }

  lemma CopiesFit(found: seq<nat>, n0: nat, n: nat, factor: nat, rep: nat)
    requires Progress(found, n0, n, factor, rep) && Divides(factor, n) && Prime(factor)
    ensures var s := found + Copies(factor, rep);
            Ascending(s) && PrimeDivisors(s, n0) && forall i | 0 <= i < |s| :: s[i] <= factor
  {
    hide Prime, Divides, Copies, NoDivisor, Power, Product;
    DividesTrans(factor, n, n0);
  }

  // ---------- when the rest is prime ----------

  /** s is the largest odd number whose square may be below n. */
  ghost predicate OddRoot(s: nat, n: nat)
  {
    s % 2 == 1 && s < HALF_LIMIT && n < (s + 2) * (s + 2)
  }

  /** Trying odd divisors up to the odd square root is enough once 2 is out. */
  lemma RestIsPrime(n: nat, s: nat, factor: nat)
    requires n >= 2 && OddRoot(s, n) && factor >= s && factor >= 2 && NoDivisor(n, factor + 1)
    ensures Prime(n)
  {
    forall d: nat | 2 <= d < s + 2 ensures !Divides(d, n) {
      if d == s + 1 && Divides(d, n) {
        assert d == d / 2 * 2;
        DividesMul(2, d / 2);
        DividesTrans(2, d, n);
      }
    }
    PrimeByRoot(n, s + 2);
  }

  /** A divisor too large for half the width is above the square root. */
  lemma RestIsPrimeWide(n: nat, b: nat)
    requires 2 <= n < WIDE_LIMIT && b >= HALF_LIMIT && NoDivisor(n, b)
    ensures Prime(n)
  {
    Products(b, b, HALF_LIMIT);
    PrimeByRoot(n, b);
  }

  // ---------- the wheel skips no divisor ----------

  /** Where the wheel stands in its t-th turn. */
  ghost predicate AtStep(w: nat, t: nat, factor: nat)
  {
    w < WHEEL_SIZE && factor == Pos(w) + 2310 * t && (w < WHEEL_START ==> t == 0)
  }

  lemma SmallDivisor(k: nat, n: nat, b: nat)
    requires Small(k) && NoDivisor(n, b) && b >= 12
    ensures !Divides(k, n)
  {
    if Divides(k, n) {
      if k % 2 == 0 { SmallOne(2, k, n); }
      else if k % 3 == 0 { SmallOne(3, k, n); }
      else if k % 5 == 0 { SmallOne(5, k, n); }
      else if k % 7 == 0 { SmallOne(7, k, n); }
      else { SmallOne(11, k, n); }
    }
  }

  lemma SmallOne(p: nat, k: nat, n: nat)
    requires p > 0 && k % p == 0 && Divides(k, n)
    ensures Divides(p, n)
  {
    assert Divides(p, k);
    DividesTrans(p, k, n);
  }

  /** The first five steps go from prime to prime. */
  lemma FirstAdvance(n: nat, w: nat)
    requires w < WHEEL_START && NoDivisor(n, Pos(w) + 1)
    ensures Pos(w) >= 2 && Pos(w + 1) == Pos(w) + Gap(w) && NoDivisor(n, Pos(w + 1))
  {
    hide Pos, Divides, Prime;
    FirstSteps();
    PosNext(w);
    forall k: nat | Pos(w) < k < Pos(w + 1) ensures !Divides(k, n) {
      if Divides(k, n) {
        assert k % 2 == 0 || k % 3 == 0;
        if k % 2 == 0 { SmallOne(2, k, n); } else { SmallOne(3, k, n); }
      }
    }
  }

  lemma TurnAdvance(n: nat, w: nat, t: nat)
    requires WHEEL_START <= w < WHEEL_SIZE && Pos(w) >= 13 && NoDivisor(n, Pos(w) + 2310 * t + 1)
    ensures Pos(w + 1) == Pos(w) + Gap(w) && NoDivisor(n, Pos(w + 1) + 2310 * t)
  {
    hide Pos, Divides, Gap;
    StepAt(w);
    var factor := Pos(w) + 2310 * t;
    forall k: nat | factor < k < Pos(w + 1) + 2310 * t ensures !Divides(k, n) {
      Skipped(Pos(w), Pos(w + 1), k - 2310 * t);
      SmallLater(k - 2310 * t, t);
      SmallDivisor(k, n, factor + 1);
    }
  }

  lemma SmallLater(k: nat, t: nat)
    requires Small(k)
    ensures Small(k + 2310 * t)
  {
    hide Divides, OddSmall, Small;
    SmallDivides(k);
    if Divides(2, k) { PlusMultiple(k, 2, 1155 * t); }
    else if Divides(3, k) { PlusMultiple(k, 3, 770 * t); }
    else if Divides(5, k) { PlusMultiple(k, 5, 462 * t); }
    else if Divides(7, k) { PlusMultiple(k, 7, 330 * t); }
    else { PlusMultiple(k, 11, 210 * t); }
    SmallDivides(k + 2310 * t);
  }

  lemma SmallDivides(k: nat)
    ensures Small(k) == (Divides(2, k) || Divides(3, k) || Divides(5, k) || Divides(7, k) || Divides(11, k))
  {
  }

  lemma PlusMultiple(k: nat, p: nat, c: nat)
    requires Divides(p, k)
    ensures Divides(p, k + c * p)
  {
    Quotient(p, k);
    assert (k / p + c) * p == k + c * p;
    DividesMul(p, k / p + c);
  }

  lemma {:induction false} PosLow(w: nat)
    requires WHEEL_START <= w <= WHEEL_SIZE
    ensures Pos(w) >= 13
  {
    hide Gap;
    if w == WHEEL_START { FirstSteps(); } else { PosLow(w - 1); }
  }

  /** One step of the wheel passes over no divisor, and the wheel stands at a step again. */
  lemma Advance(n: nat, w: nat, t: nat, factor: nat)
    requires AtStep(w, t, factor) && NoDivisor(n, factor + 1)
    ensures factor >= 2 && NoDivisor(n, factor + Gap(w)) && 0 < Gap(w) <= 14
    ensures if w + 1 < WHEEL_SIZE then AtStep(w + 1, t, factor + Gap(w))
            else AtStep(WHEEL_START, t + 1, factor + Gap(w))
  {
    hide Pos, NoDivisor, Gap;
    FirstSteps();
    if w < WHEEL_START {
      FirstAdvance(n, w);
    } else {
      PosLow(w);
      TurnAdvance(n, w, t);
      StepAt(w);
      Turn();
    }
  }

  // ---------- the integer square root ----------

  lemma {:induction false} ShrQuarter(v: nat, k: nat)
    ensures Shr(v, k + 2) == Shr(v, k) / 4
  {
    if k == 0 {
      ShrTwo(v, 0);
    } else {
      ShrQuarter(v / 2, k - 1);
      assert k - 1 + 2 == k + 1;
    }
  }

  /** Two more bits of the number, one more of its root. */
  lemma RootStep(x: nat, q: nat)
    requires x * x <= q / 4 < (x + 1) * (x + 1)
    ensures 2 * x * (2 * x) <= q < (2 * x + 2) * (2 * x + 2)
  {
    assert 2 * x * (2 * x) == 4 * (x * x);
    assert (2 * x + 2) * (2 * x + 2) == 4 * ((x + 1) * (x + 1));
  }

  lemma RootFits(x: nat, v: nat)
    requires x * x <= v / 4 && v < WIDE_LIMIT
    ensures 2 * x + 1 < HALF_LIMIT && (2 * x + 1) * (2 * x + 1) < WIDE_LIMIT
  {
    if x >= HALF_LIMIT / 2 { Products(x, x, HALF_LIMIT / 2); }
    ProductsUpTo(2 * x + 1, HALF_LIMIT - 1, 2 * x + 1, HALF_LIMIT - 1);
  }

  lemma {:induction false} ShrLow(v: nat, k: nat)
    ensures Shr(v, k) <= v
  {
    if k > 0 { ShrLow(v / 2, k - 1); }
  }

  /** isqrt: one bit of the root for two bits of the number; the square never overflows 64 bits. */
  method Isqrt(n: nat) returns (x: nat)
    requires n < WIDE_LIMIT
    ensures x < HALF_LIMIT && x * x <= n < (x + 1) * (x + 1)
  {
    hide Shr, Pow2;
    var shift := 62;
    x := 0;
    WideLimit();
    ShrSmall(n, 64);
    while shift >= 0
      invariant -2 <= shift <= 62 && shift % 2 == 0
      invariant x * x <= Shr(n, shift + 2) < (x + 1) * (x + 1)
    {
      var q := Shr(n, shift);
      ShrQuarter(n, shift);
      ShrLow(n, shift);
      RootStep(x, q);
      RootFits(x, q);
      x := 2 * x + 1;
      if x * x % WIDE_LIMIT > q { x := x - 1; }
      shift := shift - 2;
    }
    RootEnd(n, x);
  }

  lemma RootEnd(n: nat, x: nat)
    requires x * x <= Shr(n, 0) && n < WIDE_LIMIT
    ensures Shr(n, 0) == n && x < HALF_LIMIT
  {
    if x >= HALF_LIMIT { Products(x, x, HALF_LIMIT); }
  }

  // ---------- the program ----------

  /** n, to be printed rep times, comes from a 64-bit number. */
  ghost predicate Room(n: nat, rep: nat)
  {
    rep >= 1 && n < WIDE_LIMIT && Power(n, rep) < WIDE_LIMIT
  }

  lemma RoomWide(n: nat, rep: nat)
    requires Room(n, rep)
    ensures n < WIDE_LIMIT
  {
  }

  lemma RoomDown(n: nat, m: nat, rep: nat)
    requires Room(n, rep) && m <= n
    ensures Room(m, rep)
  {
    PowerMonotone(m, n, rep);
  }

  lemma RoomSquare(s: nat, rep: nat)
    requires s >= 1 && Room(s * s, rep)
    ensures Room(s, 2 * rep) && s <= s * s && rep >= 1
  {
    hide Power;
    PowerSquare(s, rep);
    ProductsUpTo(1, s, s, s);
  }

  /** What is printed for a root twice as often is printed for its square. */
  lemma SquareFactors(r: seq<nat>, s: nat, rep: nat)
    requires Factorisation(r, s, 2 * rep) && s >= 1
    ensures Factorisation(r, s * s, rep)
  {
    hide Power, Prime, Divides;
    PowerSquare(s, rep);
    DividesMul(s, s);
    forall i | 0 <= i < |r| ensures Divides(r[i], s * s) { DividesTrans(r[i], s, s * s); }
  }

  lemma SmallFactors(n: nat, rep: nat)
    requires n < 4
    ensures n > 1 ==> Factorisation(Copies(n, rep), n, rep)
    ensures n == 1 ==> Factorisation([], n, rep)
  {
    if n > 1 {
      assert NoDivisor(n, n);
      PrimeCopies(n, rep);
    } else if n == 1 {
      PowerOne(rep);
    }
  }

  lemma {:induction false} PowerOne(k: nat)
    ensures Power(1, k) == 1
  {
    if k > 0 { PowerOne(k - 1); }
  }

  /** The finished line r follows start; what was printed before is unchanged. */
  ghost predicate Printed(before: seq<seq<nat>>, start: seq<nat>, r: seq<nat>, lines: seq<seq<nat>>, line: seq<nat>)
  {
    lines == before + [start + r] && line == []
  }

  lemma RoomRepeat(n: nat, rep: nat)
    requires Room(n, rep) && n >= 2
    ensures 1 <= rep < 64
  {
    RepeatBound(n, rep);
  }

  lemma NotSquare(n: nat, root: nat)
    requires n >= 1 && root < HALF_LIMIT && root * root < n < (root + 1) * (root + 1)
    ensures root >= 1 && n >= 2 && OddRoot((root - 1) / 2 * 2 + 1, n)
  {
    var s := (root - 1) / 2 * 2 + 1;
    ProductsUpTo(root + 1, s + 2, root + 1, s + 2);
  }

  lemma FactorLow(found: seq<nat>, n0: nat, n: nat, factor: nat, rep: nat)
    requires Progress(found, n0, n, factor, rep)
    ensures factor >= 2
  {
  }

  lemma IsDivisor(d: nat, n: nat)
    requires d > 0
    ensures Divides(d, n) <==> n % d == 0
  {
  }

  lemma Tried(found: seq<nat>, n0: nat, n: nat, factor: nat, rep: nat)
    requires Progress(found, n0, n, factor, rep) && !Divides(factor, n)
    ensures NoDivisor(n, factor + 1) && factor >= 2
  {
  }

  lemma NextProgress(found: seq<nat>, n0: nat, n: nat, factor: nat, next: nat, rep: nat)
    requires Progress(found, n0, n, factor, rep) && NoDivisor(n, next) && factor <= next
    ensures Progress(found, n0, n, next, rep)
  {
  }

  lemma StartStep()
    ensures AtStep(0, 0, 2)
  {
    FirstSteps();
  }

  class Factorizer {
    var squareCount: nat
    const wheelTab: array<nat>
    var line: seq<nat>
    var lines: seq<seq<nat>>

    ghost predicate WheelReady()
      reads wheelTab
    {
      wheelTab.Length == WHEEL_SIZE && forall w | 0 <= w < WHEEL_SIZE :: wheelTab[w] == Gap(w)
    }

    constructor ()
      ensures WheelReady() && fresh(wheelTab) && line == [] && lines == []
    {
      hide Gap;
      var tab := UnpackWheel();
      wheelTab := tab;
      squareCount := 1;
      line := [];
      lines := [];
    }

    /** print_w. */
    method PrintW(n: nat)
      requires squareCount >= 1
      modifies this`line
      ensures line == old(line) + Copies(n, squareCount)
    {
      var rep := squareCount - 1;
      line := line + [n];
      assert Copies(n, 1) == [] + [n];
      while rep != 0
        invariant 0 <= rep < squareCount && line == old(line) + Copies(n, squareCount - rep)
        decreases rep
      {
        line := line + [n];
        rep := rep - 1;
      }
    }

    method EndLine()
      modifies this`line, this`lines
      ensures Printed(old(lines), old(line), [], lines, line)
    {
      lines := lines + [line];
      line := [];
      assert old(line) + [] == old(line);
    }

    /** isqrt_odd: either n is a square and all its factors are printed, or the odd number to stop at. */
    method IsqrtOdd(n: nat) returns (s: nat, ghost r: seq<nat>)
      requires WheelReady() && n >= 1 && squareCount < 64 && Room(n, squareCount)
      modifies this
      ensures s == 0 ==> Printed(old(lines), old(line), r, lines, line) && Factorisation(r, n, old(squareCount))
      ensures s != 0 ==> unchanged(this) && OddRoot(s, n) && n >= 2
      decreases n, 0
    {
      hide Gap, Room, Factorisation;
      RoomWide(n, squareCount);
      var root := Isqrt(n);
      if root * root == n {
        r := Square(root);
        return 0, r;
      }
      s := (root - 1) / 2 * 2 + 1;
      r := [];
      NotSquare(n, root);
    }

    /** Each factor of the root is printed twice as often; the byte that counts this does not overflow. */
    method Square(root: nat) returns (ghost r: seq<nat>)
      requires WheelReady() && root >= 1 && squareCount < 64 && Room(root * root, squareCount)
      modifies this
      ensures Printed(old(lines), old(line), r, lines, line) && Factorisation(r, root * root, old(squareCount))
      decreases if root < 4 then 0 else root, 3
    {
      hide Gap, Room, Factorisation, Printed;
      RoomSquare(root, squareCount);
      squareCount := squareCount * 2 % 256;
      r := Factorize(root);
      SquareFactors(r, root, old(squareCount));
    }

    /** The inner loop of factorize. */
    method DivideOut(ghost n0: nat, n: nat, factor: nat, max: nat, ghost found: seq<nat>, ghost start: seq<nat>)
        returns (m: nat, s: nat, ghost all: seq<nat>)
      requires WheelReady() && n >= 2 && squareCount < 64 && Room(n, squareCount)
      requires line == start + found && Progress(found, n0, n, factor, squareCount) && OddRoot(max, n) && max != 0
      modifies this
      ensures s == 0 ==> Printed(old(lines), start, all, lines, line) && Factorisation(all, n0, old(squareCount))
      ensures s != 0 ==> line == start + all && lines == old(lines) && squareCount == old(squareCount)
      ensures s != 0 ==> 2 <= m <= n && Progress(all, n0, m, factor, squareCount) && OddRoot(s, m)
                         && !Divides(factor, m)
      decreases n, 1
    {
      hide Gap, Room, Factorisation, Progress, OddRoot, Divides, Copies;
      m, s, all := n, max, found;
      FactorLow(found, n0, n, factor, squareCount);
      while m % factor == 0
        invariant 2 <= m <= n && line == start + all && lines == old(lines) && squareCount == old(squareCount) && s != 0
        invariant Progress(all, n0, m, factor, squareCount) && OddRoot(s, m)
        decreases m
      {
        IsDivisor(factor, m);
        Divided(all, n0, m, factor, squareCount);
        m := m / factor;
        RoomDown(n, m, squareCount);
        PrintW(factor);
        all := all + Copies(factor, squareCount);
        assert line == start + all;
        ghost var r;
        s, r := IsqrtOdd(m);
        if s == 0 {
          Finish(all, r, n0, m, factor, old(squareCount));
          assert start + all + r == start + (all + r);
          all := all + r;
          return;
        }
      }
      IsDivisor(factor, m);
    }

    /** factorize: the prime factors of n in ascending order, each squareCount times, on one line. */
    method Factorize(n: nat) returns (ghost r: seq<nat>)
      requires WheelReady() && 1 <= squareCount < 256 && Room(n, squareCount)
      modifies this
      ensures Printed(old(lines), old(line), r, lines, line)
      ensures if n == 0 then r == [] else Factorisation(r, n, old(squareCount))
      decreases if n < 4 then 0 else n, 2
    {
      hide Gap, Room, Factorisation, Progress, OddRoot, Divides, Copies;
      if n < 4 {
        r := if n > 1 then Copies(n, squareCount) else [];
        SmallFactors(n, squareCount);
        End(n);
        return;
      }
      RoomRepeat(n, squareCount);
      ghost var start, rep := line, squareCount;
      var max;
      max, r := IsqrtOdd(n);
      if max == 0 { return; }
      var m: nat, factor: nat, w: nat := n, 2, 0;
      ghost var found: seq<nat>, t: nat := [], 0;
      StartProgress(n, rep);
      StartStep();
      while true
        invariant 2 <= m <= n && factor < HALF_LIMIT && max != 0
        invariant line == start + found && lines == old(lines) && squareCount == rep
        invariant Progress(found, n, m, factor, rep) && OddRoot(max, m) && AtStep(w, t, factor)
        decreases HALF_LIMIT - factor
      {
        RoomDown(n, m, rep);
        m, max, found := DivideOut(n, m, factor, max, found, start);
        if max == 0 { return found; }
        Tried(found, n, m, factor, rep);
        if factor >= max {
          RestIsPrime(m, max, factor);
          break;
        }
        Advance(m, w, t, factor);
        var fw := (factor + wheelTab[w]) % HALF_LIMIT;
        if fw < factor {
          RestIsPrimeWide(m, factor + Gap(w));
          break;
        }
        NextProgress(found, n, m, factor, fw, rep);
        factor := fw;
        w := w + 1;
        if w < WHEEL_SIZE { continue; }
        w, t := WHEEL_START, t + 1;
      }
      PrimeCopies(m, rep);
      Finish(found, Copies(m, rep), n, m, factor, rep);
      r := found + Copies(m, rep);
      assert start + found + Copies(m, rep) == start + r;
      End(m);
    }

    /** The end of factorize. */
    method End(n: nat)
      requires squareCount >= 1
      modifies this`line, this`lines
      ensures Printed(old(lines), old(line), if n > 1 then Copies(n, squareCount) else [], lines, line)
    {
      hide Copies;
      if n > 1 { PrintW(n); }
      EndLine();
      assert forall s: seq<nat> :: s + [] == s;
    }

    /** factorize_numstr, once the number is read: for 0 nothing is printed. */
    method FactorizeNumber(n: nat) returns (ghost r: seq<nat>)
      requires WheelReady() && n < WIDE_LIMIT && line == []
      modifies this
      ensures lines == old(lines) + [r] && line == []
      ensures n == 0 ==> r == []
      ensures n >= 1 ==> Ascending(r) && PrimeDivisors(r, n) && Product(r) == n
    {
      hide Gap, Ascending, PrimeDivisors, Product;
      squareCount := 1;
      assert Power(n, 1) == n;
      r := Factorize(n);
      assert [] + r == r;
    }
  }
}
