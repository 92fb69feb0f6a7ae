/** From sums over the nodes of the merge tree to facts about the code lengths of its symbols. */
module LengthCounts {
  import opened Bits
  import opened Sums
  import opened Canonical
  import opened HuffmanShape
  import opened LengthLimit
  import opened CutLengths

  // ---------- counting lengths ----------

  lemma {:induction false} CountLenPush(lens: seq<nat>, x: nat, b: nat)
    ensures CountLen(lens + [x], b) == CountLen(lens, b) + (if x == b then 1 else 0)
  {
    assert (lens + [x])[..|lens|] == lens;
  }

  lemma {:induction false} CountLenUpdate(lens: seq<nat>, m: nat, v: nat, b: nat)
    requires m < |lens|
    ensures CountLen(lens[m := v], b) == CountLen(lens, b) - (if lens[m] == b then 1 else 0) + (if v == b then 1 else 0)
  {
    if m == |lens| - 1 {
      assert lens[m := v][..m] == lens[..m];
    } else {
      assert lens[m := v][..|lens| - 1] == lens[..|lens| - 1][m := v];
      CountLenUpdate(lens[..|lens| - 1], m, v, b);
    }
  }

  /** Counting by length is summing marks. */
  lemma {:induction false} CountLenIsSum(bits: seq<nat>, elems: nat, b: nat, n: nat)
    requires n <= elems <= |bits|
    ensures Sum(LenIs(bits, elems, b), 0, n) == CountLen(bits[..n], b)
    decreases n
  {
    if n > 0 {
      CountLenIsSum(bits, elems, b, n - 1);
      assert bits[..n] == bits[..n - 1] + [bits[n - 1]];
      CountLenPush(bits[..n - 1], bits[n - 1], b);
    }
  }

  lemma {:induction false} KraftSumPush(lens: seq<nat>, x: nat, l: nat)
    ensures KraftSum(lens + [x], l) == KraftSum(lens, l) + (if 1 <= x <= l then Pow2(l - x) else 0)
  {
    if l != 0 {
      KraftSumPush(lens, x, l - 1);
      CountLenPush(lens, x, l);
      if x == l { assert Pow2(0) == 1; }
    }
  }

  /** The space of a code is that of its codewords. */
  lemma {:induction false} KraftSumIsSpace(bits: seq<nat>, s: seq<nat>, max: nat, n: nat)
    requires n <= |bits| && forall i | 0 <= i < |bits| :: bits[i] <= max
    requires forall i | 0 <= i < n :: i in s <==> bits[i] >= 1
    ensures KraftSum(bits[..n], max) == Sum(Space(bits, s, max), 0, n)
    decreases n
  {
    hide KraftSum, Space, Pow2;
    if n == 0 {
      assert bits[..0] == [];
      KraftSumEmpty(max);
    } else {
      KraftSumIsSpace(bits, s, max, n - 1);
      SpaceAt(bits, s, max, n - 1);
      assert bits[..n] == bits[..n - 1] + [bits[n - 1]];
      KraftSumPush(bits[..n - 1], bits[n - 1], max);
    }
  }

  lemma SpaceAt(bits: seq<nat>, s: seq<nat>, max: nat, n: nat)
    requires n < |bits| && bits[n] <= max && (n in s <==> bits[n] >= 1)
    requires forall i | 0 <= i < |bits| :: bits[i] <= max
    ensures Space(bits, s, max)[n] == if bits[n] >= 1 then Pow2(max - bits[n]) else 0
  {
    assert s[0..] == s;
  }

  lemma {:induction false} KraftSumEmpty(l: nat)
    ensures KraftSum([], l) == 0
  {
    if l != 0 { KraftSumEmpty(l - 1); }
  }

  function TotalLen(lens: seq<nat>, l: nat): nat
  {
    if l == 0 then 0 else TotalLen(lens, l - 1) + CountLen(lens, l)
  }

  lemma {:induction false} TotalLenPush(lens: seq<nat>, x: nat, l: nat)
    ensures TotalLen(lens + [x], l) == TotalLen(lens, l) + (if 1 <= x <= l then 1 else 0)
  {
    if l != 0 {
      TotalLenPush(lens, x, l - 1);
      CountLenPush(lens, x, l);
    }
  }

  /** How many symbols have a codeword. */
  function Used(lens: seq<nat>): (c: nat)
    ensures c <= |lens|
  {
    if lens == [] then 0 else Used(lens[..|lens| - 1]) + (if lens[|lens| - 1] >= 1 then 1 else 0)
  }

  lemma {:induction false} TotalIsUsed(lens: seq<nat>, l: nat)
    requires forall i | 0 <= i < |lens| :: lens[i] <= l
    ensures TotalLen(lens, l) == Used(lens)
  {
    if lens == [] {
      TotalEmpty(l);
    } else {
      TotalIsUsed(lens[..|lens| - 1], l);
      TotalLenPush(lens[..|lens| - 1], lens[|lens| - 1], l);
      assert lens == lens[..|lens| - 1] + [lens[|lens| - 1]];
    }
  }

  lemma {:induction false} TotalEmpty(l: nat)
    ensures TotalLen([], l) == 0
  {
    if l != 0 { TotalEmpty(l - 1); }
  }

  /** The array of counts holds the number of symbols of every length but 0. */
  ghost predicate CountsOf(count: seq<nat>, lens: seq<nat>)
  {
    |count| == MAX_BITS + 1 && count[0] == 0 && forall b | 1 <= b <= MAX_BITS :: count[b] == CountLen(lens, b)
  }

  lemma {:induction false} CountsKraft(count: seq<nat>, lens: seq<nat>, l: nat)
    requires CountsOf(count, lens) && l <= MAX_BITS
    ensures Kraft(count, l) == KraftSum(lens, l) && Total(count, l) == TotalLen(lens, l)
  {
    if l != 0 { CountsKraft(count, lens, l - 1); }
  }

  // ---------- the first pass ----------

  lemma CountedAll(count: seq<nat>, s: seq<nat>, f: seq<nat>, bits: seq<nat>, elems: nat, leaves: set<nat>, max: nat)
    requires Shape(s, f, elems, leaves) && Depths(bits, s, elems, max) && |bits| == |f| && max >= 1
    requires Below(s, |bits|) && Counted(count, s, bits, elems, 0) && |count| == MAX_BITS + 1
    ensures CountsOf(count, bits[..elems])
  {
    hide Shape, Depths, SumFrom;
    DepthsBounded(bits, s, f, elems, leaves, max);
    ShapeDistinct(s, f, elems, leaves);
    LeavesInShape(s, f, elems, leaves);
    assert s[0..] == s;
    forall b | 1 <= b <= MAX_BITS
      ensures count[b] == CountLen(bits[..elems], b)
    {
      var g := LenIs(bits, elems, b);
      SumFromAll(s, g, 0);
      CountLenIsSum(bits, elems, b, elems);
      SumSplit(g, 0, elems, |g|);
      SumZero(g, elems, |g|);
    }
    LengthsPositive(s, bits, elems, 0);
  }

  lemma LeavesInShape(s: seq<nat>, f: seq<nat>, elems: nat, leaves: set<nat>)
    requires Shape(s, f, elems, leaves)
    ensures forall n: nat | n < elems :: n in s <==> n in leaves
  {
  }

  lemma {:induction false} LengthsPositive(s: seq<nat>, bits: seq<nat>, elems: nat, i: nat)
    requires Below(s, |bits|) && i <= |s| && forall n | 0 <= n < elems && n < |bits| && n in s :: bits[n] >= 1
    ensures SumFrom(s, LenIs(bits, elems, 0), i) == 0
    decreases |s| - i
  {
    if i < |s| {
      assert s[i] in s;
      LengthsPositive(s, bits, elems, i + 1);
    }
  }

  lemma PayAll(s: seq<nat>, f: seq<nat>, lens: seq<nat>, extra: seq<nat>, elems: nat, leaves: set<nat>)
    requires Shape(s, f, elems, leaves) && elems <= |lens| && elems <= |extra| && Below(s, |f|)
    requires forall n: nat | n < elems && n !in leaves :: f[n] == 0
    ensures PayFrom(s, f, lens, extra, elems, 0) == Sum(Pay(f, lens, extra, elems), 0, elems)
  {
    ShapeDistinct(s, f, elems, leaves);
    LeavesInShape(s, f, elems, leaves);
    var g := Pay(f, lens, extra, elems);
    assert s[0..] == s;
    assert forall n | 0 <= n < |g| && g[n] != 0 :: n in s;
    SumFromAll(s, g, 0);
    SumSplit(g, 0, elems, |g|);
    SumZero(g, elems, |g|);
  }

  /** The cut-off lengths overfill the code by half the number of nodes cut off. */
  lemma CutKraft(count: seq<nat>, s: seq<nat>, f: seq<nat>, bits: seq<nat>, elems: nat, leaves: set<nat>, max: nat)
    requires Shape(s, f, elems, leaves) && Depths(bits, s, elems, max) && |bits| == |f| && 1 <= max <= MAX_BITS
    requires CountsOf(count, bits[..elems])
    ensures 2 * Kraft(count, max) == 2 * Pow2(max) + CutFrom(bits, elems, max, 0)
    ensures Total(count, max) <= elems
  {
    hide Shape, Depths;
    DepthsBounded(bits, s, f, elems, leaves, max);
    LeavesInShape(s, f, elems, leaves);
    LeafSpace(bits, s, f, elems, leaves, max);
    CountsKraft(count, bits[..elems], max);
    KraftSumIsSpace(bits, s, max, elems);
    CutTwice(bits, elems, max, elems);
    TotalIsUsed(bits[..elems], max);
  }

  /** The sons of fathers at the last two lengths have the last length. */
  ghost function NearMax(bits: seq<nat>, max: nat): (c: seq<int>)
    ensures |c| == |bits|
  {
    seq(|bits|, n requires 0 <= n < |bits| => if bits[n] == max || bits[n] + 1 == max then 2 else 0)
  }

  lemma PairAtMax(bits: seq<nat>, s: seq<nat>, f: seq<nat>, elems: nat, leaves: set<nat>, max: nat, u: nat)
    requires Shape(s, f, elems, leaves) && Depths(bits, s, elems, max) && elems <= u < |f|
    requires |bits| == |f| && bits[u] <= max && max >= 1
    ensures Below(s, |AtMax(bits, max)|) && PairIs(s, AtMax(bits, max), NearMax(bits, max), elems, u)
  {
    hide Shape, Depths;
    PairFacts(bits, s, f, elems, leaves, max, u);
  }

  /** If an inner node has the last length, some father has the last but one. */
  lemma {:induction false} FatherNearMax(bits: seq<nat>, s: seq<nat>, f: seq<nat>, elems: nat, leaves: set<nat>,
                                         max: nat, u: nat)
    returns (v: nat)
    requires Shape(s, f, elems, leaves) && Depths(bits, s, elems, max) && elems <= u < |f|
    requires |bits| == |f| && bits[u] == max && max >= 1 && forall n | 0 <= n < |bits| :: bits[n] <= max
    ensures elems <= v < |f| && bits[v] + 1 == max
    decreases |f| - u
  {
    ShapeMember(s, f, elems, leaves, u);
    var q :| 0 <= q < |s| && s[q] == u;
    assert q < |s| - 1;
    DepthAt(bits, s, elems, max, q);
    var w := elems + q / 2;
    assert Father(s, f, elems, w);
    assert w > u;
    if bits[w] == max { v := FatherNearMax(bits, s, f, elems, leaves, max, w); } else { v := w; }
  }

  /** There are more codewords of the greatest length than units to give up. */
  lemma EnoughAtMax(count: seq<nat>, s: seq<nat>, f: seq<nat>, bits: seq<nat>, elems: nat, leaves: set<nat>, max: nat)
    requires Shape(s, f, elems, leaves) && Depths(bits, s, elems, max) && |bits| == |f| && 1 <= max <= MAX_BITS
    requires CountsOf(count, bits[..elems]) && CutFrom(bits, elems, max, 0) > 0
    ensures 2 * count[max] > CutFrom(bits, elems, max, 0)
  {
    hide Shape, Depths, PairIs, Distinct, SumFrom, NearMax;
    var g, p := AtMax(bits, max), NearMax(bits, max);
    DepthsBounded(bits, s, f, elems, leaves, max);
    ShapeDistinct(s, f, elems, leaves);
    RootDepth(bits, s, elems, max);
    AtMaxInShape(bits, s, f, elems, leaves, max);
    forall u | elems <= u < |f|
      ensures PairIs(s, g, p, elems, u)
    {
      PairAtMax(bits, s, f, elems, leaves, max, u);
    }
    CutTwice(bits, elems, max, elems);
    var u := SomeNonZero(g, elems, |f|);
    var v := FatherNearMax(bits, s, f, elems, leaves, max, u);
    SumFromPairs(s, g, p, elems, 0, |f| - elems);
    SumFromAll(s, g, 0);
    SumSplit(g, 0, elems, |g|);
    AtMaxLeaves(bits, elems, max, elems);
    NearSum(bits, elems, max, v, |bits|);
    SumFromEnd(s, g);
  }

  lemma SumFromEnd(s: seq<nat>, g: seq<int>)
    requires Below(s, |g|) && |s| >= 1 && g[s[|s| - 1]] == 0
    ensures SumFrom(s, g, |s| - 1) == 0
  {
    LastTerm(s, g);
  }

  lemma AtMaxInShape(bits: seq<nat>, s: seq<nat>, f: seq<nat>, elems: nat, leaves: set<nat>, max: nat)
    requires Shape(s, f, elems, leaves) && Depths(bits, s, elems, max) && |bits| == |f| && max >= 1
    ensures forall n | 0 <= n < |bits| && AtMax(bits, max)[n] != 0 :: n in s[0..]
    ensures AtMax(bits, max)[s[|s| - 1]] == 0
  {
    assert s[0..] == s;
  }

  lemma {:induction false} SomeNonZero(g: seq<int>, lo: nat, hi: nat) returns (u: nat)
    requires lo <= hi <= |g| && Sum(g, lo, hi) != 0
    ensures lo <= u < hi && g[u] != 0
    decreases hi
  {
    if g[hi - 1] != 0 { u := hi - 1; } else { u := SomeNonZero(g, lo, hi - 1); }
  }

  lemma {:induction false} AtMaxLeaves(bits: seq<nat>, elems: nat, max: nat, n: nat)
    requires n <= elems <= |bits|
    ensures Sum(AtMax(bits, max), 0, n) == CountLen(bits[..n], max)
    decreases n
  {
    if n > 0 {
      AtMaxLeaves(bits, elems, max, n - 1);
      assert bits[..n] == bits[..n - 1] + [bits[n - 1]];
      CountLenPush(bits[..n - 1], bits[n - 1], max);
    }
  }

  lemma {:induction false} NearSum(bits: seq<nat>, elems: nat, max: nat, v: nat, hi: nat)
    requires elems <= hi <= |bits| && elems <= v < |bits| && bits[v] + 1 == max
    ensures Sum(NearMax(bits, max), elems, hi) >= 2 * Sum(AtMax(bits, max), elems, hi) + (if v < hi then 2 else 0)
    decreases hi
  {
    if elems < hi { NearSum(bits, elems, max, v, hi - 1); }
  }
}
