/** The last pass of gen_bitlen: giving the corrected lengths out, longest first, to the
    symbols in order of increasing frequency. */
module Reassign {
  import opened Bits
  import opened Sums
  import opened Canonical
  import opened Heap
  import opened HuffmanShape
  import opened LengthLimit
  import opened CutLengths
  import opened LengthCounts

  /** How many leaves are still to come. */
  ghost function LeavesFrom(s: seq<nat>, elems: nat, i: nat): nat
    decreases |s| - i
  {
    if i >= |s| then 0 else (if s[i] < elems then 1 else 0) + LeavesFrom(s, elems, i + 1)
  }

  /** `given` holds the lengths given out so far: those of the leaves before position i. */
  ghost predicate Given(t: seq<CtData>, t0: seq<CtData>, s: seq<nat>, elems: nat, given: seq<nat>, i: nat)
  {
    && |given| == elems <= |t| == |t0| && Below(s, |t|) && i <= |s|
    && (forall n | 0 <= n < |t| :: t[n].fc == t0[n].fc)
    && (forall n | 0 <= n < elems :: t[n].dl == if given[n] >= 1 then given[n] else t0[n].dl)
    && (forall n | 0 <= n < elems && given[n] >= 1 :: n in s) && (forall n | 0 <= n < elems :: given[n] <= MAX_BITS)
    && (forall j | 0 <= j < i && s[j] < elems :: given[s[j]] >= 1)
    && (forall j | i <= j < |s| && s[j] < elems :: given[s[j]] == 0)
  }

  lemma GivenStep(t: seq<CtData>, t0: seq<CtData>, s: seq<nat>, elems: nat, given: seq<nat>, i: nat, b: nat)
    requires Given(t, t0, s, elems, given, i) && i < |s| && Distinct(s) && 1 <= b <= MAX_BITS
    ensures s[i] < |t| && |given| == elems
    ensures if s[i] < elems then Given(t[s[i] := t[s[i]].(dl := b)], t0, s, elems, given[s[i] := b], i + 1)
            else Given(t, t0, s, elems, given, i + 1)
  {
    var n := s[i];
    if n < elems {
      var g := given[n := b];
      forall j | i + 1 <= j < |s| && s[j] < elems
        ensures g[s[j]] == 0
      {
        assert s[j] != n;
      }
    }
  }

  /** All lengths above b are given out, and all but n of length b. */
  ghost predicate Spent(count: seq<nat>, given: seq<nat>, b: nat, n: nat)
  {
    && b < |count| && n <= count[b]
    && forall l | 1 <= l < |count| ::
         CountLen(given, l) == if l > b then count[l] else if l == b then count[b] - n else 0
  }

  lemma SpentStep(count: seq<nat>, given: seq<nat>, b: nat, n: nat, m: nat)
    requires Spent(count, given, b, n) && m < |given| && given[m] == 0 && 1 <= b && 1 <= n
    ensures Spent(count, given[m := b], b, n - 1)
  {
    hide CountLen;
    forall l | 1 <= l < |count|
      ensures CountLen(given[m := b], l) == if l > b then count[l] else if l == b then count[b] - (n - 1) else 0
    {
      CountLenUpdate(given, m, b, l);
    }
  }

  /** Longest first: what was given out before position i does not grow along s, and is no shorter than len. */
  ghost predicate Falling(given: seq<nat>, s: seq<nat>, elems: nat, i: nat, len: nat)
  {
    && |given| == elems && i <= |s|
    && (forall j | 0 <= j < i && s[j] < elems :: given[s[j]] >= len)
    && (forall j, k | 0 <= j < k < i && s[j] < elems && s[k] < elems :: given[s[j]] >= given[s[k]])
  }

  lemma FallingStep(given: seq<nat>, s: seq<nat>, elems: nat, i: nat, len: nat)
    requires Falling(given, s, elems, i, len) && Distinct(s) && i < |s|
    ensures Falling(if s[i] < elems then given[s[i] := len] else given, s, elems, i + 1, len)
  {
    if s[i] < elems {
      var g := given[s[i] := len];
      forall j | 0 <= j < i && s[j] < elems
        ensures g[s[j]] == given[s[j]]
      {
        assert s[j] != s[i];
      }
    }
  }

  lemma FallingLess(given: seq<nat>, s: seq<nat>, elems: nat, i: nat, len: nat, len': nat)
    requires Falling(given, s, elems, i, len) && len' <= len
    ensures Falling(given, s, elems, i, len')
  {
  }

  lemma FallingStart(s: seq<nat>, elems: nat, len: nat)
    ensures Falling(seq(elems, _ => 0), s, elems, 0, len)
  {
  }

  /** A symbol that occurs less often never has a shorter length. */
  ghost predicate RarerLonger(f: seq<nat>, lens: seq<nat>, leaves: set<nat>)
  {
    forall a, b | a in leaves && b in leaves && a < |f| && b < |f| && a < |lens| && b < |lens| && f[a] < f[b] ::
      lens[a] >= lens[b]
  }

  /** Given out along the order of removal, the lengths fall as the frequencies grow. */
  lemma FallingRarer(given: seq<nat>, s: seq<nat>, f: seq<nat>, elems: nat, leaves: set<nat>, i: nat)
    requires Shape(s, f, elems, leaves) && Falling(given, s, elems, i, 0) && LeavesFrom(s, elems, i) == 0
    ensures RarerLonger(f, given, leaves)
  {
    NoLeavesLeft(s, elems, i);
    LeavesInShape(s, f, elems, leaves);
    forall a, b | a in leaves && b in leaves && a < |f| && b < |f| && a < |given| && b < |given| && f[a] < f[b]
      ensures given[a] >= given[b]
    {
      var j :| 0 <= j < |s| && s[j] == a;
      var k :| 0 <= k < |s| && s[k] == b;
      if k <= j { SortedUp(s, f, k, j); }
    }
  }

  lemma {:induction false} SortedUp(s: seq<nat>, f: seq<nat>, i: nat, j: nat)
    requires i <= j < |s| && Below(s, |f|) && Sorted(s, f)
    ensures f[s[i]] <= f[s[j]]
  {
    if i < j { SortedUp(s, f, i, j - 1); }
  }

  /** What the occurrences of all symbols cost. */
  ghost function Paid(f: seq<nat>, t: seq<CtData>, extra: seq<nat>, elems: nat): int
    requires elems <= |t| && elems <= |extra| && elems <= |f|
  {
    Sum(Pay(f, LensOf(t, elems), extra, elems), 0, elems)
  }

  ghost function LensOf(t: seq<CtData>, n: nat): (l: seq<nat>)
    requires n <= |t|
    ensures |l| == n
  {
    seq(n, i requires 0 <= i < n => t[i].dl)
  }

  lemma PaidStep(f: seq<nat>, t: seq<CtData>, extra: seq<nat>, elems: nat, m: nat, b: ush)
    requires elems <= |t| && elems <= |extra| && elems <= |f| && m < elems
    ensures Paid(f, t[m := t[m].(dl := b)], extra, elems) == Paid(f, t, extra, elems) + (b - t[m].dl) * f[m]
  {
    var t' := t[m := t[m].(dl := b)];
    var g, g' := Pay(f, LensOf(t, elems), extra, elems), Pay(f, LensOf(t', elems), extra, elems);
    PayDifference(f[m], b, t[m].dl, extra[m]);
    assert g' == g[m := g'[m]];
    SumUpdate(g, m, g'[m], 0, elems);
  }

  lemma PayDifference(f: nat, b: int, l: int, x: int)
    ensures f * (b + x) == f * (l + x) + (b - l) * f
  {
  }

  lemma LeavesFromStep(s: seq<nat>, elems: nat, i: nat)
    requires i < |s|
    ensures LeavesFrom(s, elems, i) == (if s[i] < elems then 1 else 0) + LeavesFrom(s, elems, i + 1)
  {
  }

  lemma LeavesLeft(s: seq<nat>, elems: nat, i: nat)
    requires LeavesFrom(s, elems, i) > 0
    ensures i < |s|
  {
  }

  lemma {:induction false} NoLeavesLeft(s: seq<nat>, elems: nat, i: nat)
    requires i <= |s| && LeavesFrom(s, elems, i) == 0
    ensures forall j | i <= j < |s| :: s[j] >= elems
    decreases |s| - i
  {
    if i < |s| { NoLeavesLeft(s, elems, i + 1); }
  }

  lemma GivenStart(t: seq<CtData>, s: seq<nat>, elems: nat, count: seq<nat>, max: nat)
    requires elems <= |t| && Below(s, |t|) && max < |count| && forall b | max < b < |count| :: count[b] == 0
    ensures Given(t, t, s, elems, seq(elems, _ => 0), 0)
    ensures Spent(count, seq(elems, _ => 0), max, count[max])
  {
    var none: seq<nat> := seq(elems, _ => 0);
    forall l | 1 <= l < |count|
      ensures CountLen(none, l) == 0
    {
      CountNone(none, l);
    }
  }

  lemma {:induction false} CountNone(lens: seq<nat>, l: nat)
    requires l >= 1 && forall i | 0 <= i < |lens| :: lens[i] == 0
    ensures CountLen(lens, l) == 0
  {
    if lens != [] { CountNone(lens[..|lens| - 1], l); }
  }

  lemma GivenEnd(t: seq<CtData>, t0: seq<CtData>, s: seq<nat>, elems: nat, given: seq<nat>, i: nat)
    requires Given(t, t0, s, elems, given, i) && LeavesFrom(s, elems, i) == 0
    ensures Given(t, t0, s, elems, given, |s|)
  {
    NoLeavesLeft(s, elems, i);
  }

  lemma GivenFields(t: seq<CtData>, t0: seq<CtData>, s: seq<nat>, elems: nat, given: seq<nat>, i: nat, m: nat)
    requires Given(t, t0, s, elems, given, i) && i < |s| && m == s[i] < elems
    ensures m < |t| == |t0| && t[m].fc == t0[m].fc && given[m] == 0
  {
  }

  lemma GivenFreqs(t: seq<CtData>, t0: seq<CtData>, s: seq<nat>, elems: nat, given: seq<nat>, i: nat)
    requires Given(t, t0, s, elems, given, i)
    ensures |t| == |t0| && forall n | 0 <= n < |t| :: t[n].fc == t0[n].fc
  {
  }

  lemma SpentNext(count: seq<nat>, given: seq<nat>, b: nat)
    requires Spent(count, given, b, 0) && b >= 1
    ensures Spent(count, given, b - 1, count[b - 1])
  {
  }

  lemma TotalStep(count: seq<nat>, l: nat)
    requires l < |count|
    ensures l == 0 ==> Total(count, l) == 0
    ensures l >= 1 ==> Total(count, l) == Total(count, l - 1) + count[l]
  {
  }

  /** The leaves are the symbols that have a length. */
  lemma LeavesAreUsed(s: seq<nat>, f: seq<nat>, bits: seq<nat>, elems: nat, leaves: set<nat>, max: nat)
    requires Shape(s, f, elems, leaves) && Depths(bits, s, elems, max) && |bits| == |f| && max >= 1
    ensures LeavesFrom(s, elems, 0) == Used(bits[..elems])
  {
    DepthsBounded(bits, s, f, elems, leaves, max);
    ShapeDistinct(s, f, elems, leaves);
    LeavesInShape(s, f, elems, leaves);
    var g := seq(|bits|, n requires 0 <= n < |bits| => if n < elems && bits[n] >= 1 then 1 else 0);
    assert s[0..] == s;
    assert forall n: nat | n < elems && n in s :: bits[n] >= 1;
    LeavesFromIsSum(s, g, bits, elems, 0);
    SumFromAll(s, g, 0);
    SumSplit(g, 0, elems, |g|);
    SumZero(g, elems, |g|);
    UsedIsSum(bits, g, elems, elems);
  }

  lemma {:induction false} LeavesFromIsSum(s: seq<nat>, g: seq<int>, bits: seq<nat>, elems: nat, i: nat)
    requires Below(s, |g|) && |g| == |bits| && i <= |s|
    requires forall n | 0 <= n < |g| :: g[n] == if n < elems && bits[n] >= 1 then 1 else 0
    requires forall n: nat | n < elems && n in s :: n < |bits| && bits[n] >= 1
    ensures LeavesFrom(s, elems, i) == SumFrom(s, g, i)
    decreases |s| - i
  {
    if i < |s| {
      assert s[i] in s;
      LeavesFromIsSum(s, g, bits, elems, i + 1);
    }
  }

  lemma {:induction false} UsedIsSum(bits: seq<nat>, g: seq<int>, elems: nat, n: nat)
    requires n <= elems <= |bits| == |g|
    requires forall n | 0 <= n < |g| :: g[n] == if n < elems && bits[n] >= 1 then 1 else 0
    ensures Used(bits[..n]) == Sum(g, 0, n)
    decreases n
  {
    if n > 0 {
      UsedIsSum(bits, g, elems, n - 1);
      assert bits[..n][..n - 1] == bits[..n - 1];
    }
  }

  /** When every leaf has been given a length, the counts are those of the lengths. */
  lemma AllGiven(t: seq<CtData>, t0: seq<CtData>, s: seq<nat>, f: seq<nat>, elems: nat, leaves: set<nat>,
                 given: seq<nat>,
                 count: seq<nat>)
    requires Shape(s, f, elems, leaves) && Given(t, t0, s, elems, given, |s|) && elems <= |t0|
    requires forall n: nat | n < elems && n !in leaves :: t0[n].dl == 0
    requires Spent(count, given, 0, 0) && count[0] == 0 && |count| == MAX_BITS + 1
    ensures LensOf(t, elems) == given && CountsOf(count, given)
    ensures forall n | 0 <= n < |given| :: given[n] <= MAX_BITS
    ensures forall n: nat | n < elems :: n in leaves <==> given[n] >= 1
  {
    hide Shape;
    LeavesInShape(s, f, elems, leaves);
    forall n: nat | n < elems
      ensures (n in leaves <==> given[n] >= 1) && t[n].dl == given[n]
    {
      if n in leaves {
        var j :| 0 <= j < |s| && s[j] == n;
      }
    }
  }

  // ---------- putting the passes together ----------

  lemma {:induction false} CountLenMember(lens: seq<nat>, i: nat)
    requires i < |lens|
    ensures CountLen(lens, lens[i]) >= 1
  {
    if i < |lens| - 1 { CountLenMember(lens[..|lens| - 1], i); }
  }

  /** Counts that fill the space are those of a complete code. */
  lemma CountsComplete(count: seq<nat>, lens: seq<nat>, max: nat)
    requires CountsOf(count, lens) && 1 <= max <= MAX_BITS && Kraft(count, max) == Pow2(max)
    requires forall b | max < b <= MAX_BITS :: count[b] == 0
    requires forall n | 0 <= n < |lens| :: lens[n] <= MAX_BITS
    ensures Complete(lens, max)
  {
    CountsKraft(count, lens, max);
    forall n | 0 <= n < |lens|
      ensures lens[n] <= max
    {
      CountLenMember(lens, n);
    }
  }

  lemma {:induction false} CountAbove(lens: seq<nat>, b: nat)
    requires forall n | 0 <= n < |lens| :: lens[n] < b
    ensures CountLen(lens, b) == 0
  {
    if lens != [] { CountAbove(lens[..|lens| - 1], b); }
  }

  /** A length that is counted is used. */
  lemma LengthUsed(count: seq<nat>, lens: seq<nat>, b: nat) returns (n: nat)
    requires CountsOf(count, lens) && 1 <= b <= MAX_BITS && count[b] >= 1
    ensures n < |lens| && lens[n] == b
  {
    n := LengthFound(lens, b);
  }

  lemma {:induction false} LengthFound(lens: seq<nat>, b: nat) returns (n: nat)
    requires CountLen(lens, b) >= 1
    ensures n < |lens| && lens[n] == b
  {
    if lens[|lens| - 1] == b { n := |lens| - 1; } else { n := LengthFound(lens[..|lens| - 1], b); }
  }

  /** What holds between the passes. */
  ghost predicate BetweenPasses(count: seq<nat>, lens: seq<nat>, max: nat, overflow: nat)
    requires 1 <= max <= MAX_BITS
  {
    && CountsOf(count, lens) && (forall n | 0 <= n < |lens| :: lens[n] <= max)
    && 2 * Kraft(count, max) == 2 * Pow2(max) + overflow && Total(count, max) <= |lens|
    && Total(count, max) == Used(lens)
    && (overflow > 0 ==> 2 * count[max] > overflow)
    && (forall b | max < b <= MAX_BITS :: count[b] == 0)
  }

  lemma FirstPassDone(t: seq<CtData>, t0: seq<CtData>, count: seq<nat>, s: seq<nat>, f: seq<nat>, bits: seq<nat>,
                      elems: nat, leaves: set<nat>, max: nat, overflow: nat)
    requires Shape(s, f, elems, leaves) && Depths(bits, s, elems, max) && |bits| == |f| <= |t| && 1 <= max <= MAX_BITS
    requires Passed(t, t0, s, bits, 0) && Below(s, |bits|) && Counted(count, s, bits, elems, 0)
    requires |count| == MAX_BITS + 1
    requires overflow == CutFrom(bits, elems, max, 0)
    requires forall n: nat | n < elems && n !in leaves :: t0[n].dl == 0
    ensures BetweenPasses(count, bits[..elems], max, overflow) && LensOf(t, elems) == bits[..elems]
    ensures count[0] == 0 && forall n: nat | n < elems && n !in leaves :: t[n].dl == 0
    ensures forall n: nat | n < elems :: n in leaves <==> bits[n] >= 1
  {
    DepthsBounded(bits, s, f, elems, leaves, max);
    CountedAll(count, s, f, bits, elems, leaves, max);
    CutKraft(count, s, f, bits, elems, leaves, max);
    CountsKraft(count, bits[..elems], max);
    TotalIsUsed(bits[..elems], max);
    if overflow > 0 { EnoughAtMax(count, s, f, bits, elems, leaves, max); }
    LeavesInShape(s, f, elems, leaves);
    forall b | max < b <= MAX_BITS
      ensures count[b] == 0
    {
      CountAbove(bits[..elems], b);
    }
    forall n: nat | n < elems
      ensures t[n].dl == bits[n]
    {
      if n in s {
        var i :| 0 <= i < |s| && s[i] == n;
      }
    }
  }

  /** If nothing was cut off, the depths are the lengths and cost what the inner nodes weigh. */
  lemma NothingCut(s: seq<nat>, f: seq<nat>, bits: seq<nat>, elems: nat, leaves: set<nat>, max: nat)
    requires Shape(s, f, elems, leaves) && Depths(bits, s, elems, max) && |bits| == |f| && max >= 1
    requires CutFrom(bits, elems, max, 0) == 0
    requires forall n: nat | n < elems && n !in leaves :: f[n] == 0
    ensures Sum(Cost(f[..elems], bits[..elems]), 0, elems) == Sum(f, elems, |f|)
    ensures forall u | elems <= u < |bits| :: bits[u] < max
  {
    DepthsBounded(bits, s, f, elems, leaves, max);
    LeavesInShape(s, f, elems, leaves);
    CutTwice(bits, elems, max, elems);
    var c := AtMax(bits, max);
    forall u | elems <= u < |bits|
      ensures bits[u] < max
    {
      if bits[u] == max { SumPositive(c, elems, u, |bits|); }
    }
    LeafCost(bits, s, f, elems, leaves, max);
    SumCongruence(Cost(f, bits), Cost(f[..elems], bits[..elems]), 0, elems);
  }

  lemma {:induction false} SumPositive(g: seq<int>, lo: nat, u: nat, hi: nat)
    requires lo <= u < hi <= |g| && (forall i | 0 <= i < |g| :: g[i] >= 0) && g[u] > 0
    ensures Sum(g, lo, hi) > 0
    decreases hi
  {
    if u < hi - 1 {
      SumPositive(g, lo, u, hi - 1);
    } else {
      SumNonNegative(g, lo, hi - 1);
    }
  }

  lemma {:induction false} SumNonNegative(g: seq<int>, lo: nat, hi: nat)
    requires lo <= hi <= |g| && forall i | 0 <= i < |g| :: g[i] >= 0
    ensures Sum(g, lo, hi) >= 0
    decreases hi
  {
    if lo < hi { SumNonNegative(g, lo, hi - 1); }
  }
}
