/** The codes of a block are built from lists of symbols: no code takes fewer bits for the list. */
module ShortestCodes {
  import opened Bits
  import opened Sums
  import opened Canonical
  import opened Heap
  import opened HuffmanShape
  import opened LengthCounts
  import opened Reassign
  import opened CodeGen
  import opened BuildStart
  import opened Optimal
  import opened Shallow
  import opened HuffmanTree
  import opened Counting
  import opened TrimCodes

  // ---------- what a list costs ----------

  /** All of the list have a codeword. */
  ghost predicate Covers(l: seq<nat>, codes: seq<nat>)
  {
    forall i | 0 <= i < |codes| :: codes[i] < |l| && l[codes[i]] >= 1
  }

  /** Lengths that a prefix code can have: at most m, and within Kraft's inequality. */
  ghost predicate Possible(l: seq<nat>, m: nat)
  {
    (forall i | 0 <= i < |l| :: l[i] <= m) && KraftSum(l, m) <= Pow2(m)
  }

  ghost function ListCost(codes: seq<nat>, l: seq<nat>): nat
    requires Below(codes, |l|)
  {
    if codes == [] then 0 else ListCost(codes[..|codes| - 1], l) + l[codes[|codes| - 1]]
  }

  /** No possible code for the list takes fewer bits. */
  ghost predicate Shortest(codes: seq<nat>, l: seq<nat>)
    requires Below(codes, |l|)
  {
    forall other: seq<nat>, m: nat :: Covers(other, codes) && Possible(other, m) ==>
      Below(codes, |other|) && ListCost(codes, l) <= ListCost(codes, other)
  }

  lemma {:induction false} ListCostSum(codes: seq<nat>, l: seq<nat>)
    requires Below(codes, |l|)
    ensures Sum(Cost(Histogram(codes, |l|), l), 0, |l|) == ListCost(codes, l)
  {
    hide Sum;
    if codes == [] {
      SumZero(Cost(Histogram(codes, |l|), l), 0, |l|);
    } else {
      var rest, c := codes[..|codes| - 1], codes[|codes| - 1];
      ListCostSum(rest, l);
      var f := Histogram(rest, |l|);
      var g, g' := Cost(f, l), Cost(AddOne(f, c), l);
      assert (f[c] + 1) * l[c] == f[c] * l[c] + l[c];
      assert g' == g[c := g[c] + l[c]];
      SumUpdate(g, c, g[c] + l[c], 0, |l|);
    }
  }

  /** Lengths beyond those of the list do not matter. */
  lemma {:induction false} ListCostSame(codes: seq<nat>, l: seq<nat>, l': seq<nat>)
    requires Below(codes, |l|) && Below(codes, |l'|) && forall i | 0 <= i < |codes| :: l[codes[i]] == l'[codes[i]]
    ensures ListCost(codes, l) == ListCost(codes, l')
  {
    if codes != [] { ListCostSame(codes[..|codes| - 1], l, l'); }
  }

  lemma {:induction false} ListCostOnes(codes: seq<nat>, l: seq<nat>, other: seq<nat>)
    requires Covers(l, codes) && Covers(other, codes) && forall i | 0 <= i < |codes| :: l[codes[i]] == 1
    ensures Below(codes, |l|) && Below(codes, |other|) && ListCost(codes, l) <= ListCost(codes, other)
  {
    if codes != [] { ListCostOnes(codes[..|codes| - 1], l, other); }
  }

  // ---------- lengths of other codes ----------

  lemma {:induction false} KraftSumFront(l: seq<nat>, n: nat, m: nat)
    requires n <= |l|
    ensures KraftSum(l[..n], m) <= KraftSum(l, m)
    decreases |l|
  {
    hide KraftSum;
    if n == |l| {
      assert l[..n] == l;
    } else {
      var front := l[..|l| - 1];
      KraftSumFront(front, n, m);
      assert front[..n] == l[..n] && front + [l[|l| - 1]] == l;
      KraftSumPush(front, l[|l| - 1], m);
    }
  }

  /** As many lengths as asked for: 0 where there are none. */
  ghost function Padded(l: seq<nat>, n: nat): (p: seq<nat>)
    ensures |p| == n
  {
    (l + seq(n, _ => 0))[..n]
  }

  lemma PaddedPossible(l: seq<nat>, n: nat, m: nat)
    requires Possible(l, m)
    ensures Possible(Padded(l, n), m)
  {
    hide KraftSum, Pow2;
    var zeros: seq<nat> := seq(n, _ => 0);
    KraftSumTrim(l + zeros, |l|, m);
    assert (l + zeros)[..|l|] == l;
    KraftSumFront(l + zeros, n, m);
  }

  lemma PaddedList(codes: seq<nat>, l: seq<nat>, n: nat)
    requires Covers(l, codes) && Below(codes, n)
    ensures Covers(Padded(l, n), codes) && Below(codes, |l|) && ListCost(codes, l) == ListCost(codes, Padded(l, n))
  {
    ListCostSame(codes, l, Padded(l, n));
  }

  lemma {:induction false} HistogramListed(codes: seq<nat>, elems: nat, c: nat) returns (i: nat)
    requires c < elems && Histogram(codes, elems)[c] > 0
    ensures i < |codes| && codes[i] == c
  {
    if codes[|codes| - 1] == c { i := |codes| - 1; } else { i := HistogramListed(codes[..|codes| - 1], elems, c); }
  }

  /** Lengths that are cheapest for the counts are so for the list. */
  lemma CheapestShortest(codes: seq<nat>, l: seq<nat>)
    requires Below(codes, |l|) && Cheapest(Histogram(codes, |l|), l)
    ensures Shortest(codes, l)
  {
    hide Histogram, Sum, KraftSum, Pow2, Cost, Padded, ListCost;
    var f := Histogram(codes, |l|);
    forall other: seq<nat>, m: nat | Covers(other, codes) && Possible(other, m)
      ensures Below(codes, |other|) && ListCost(codes, l) <= ListCost(codes, other)
    {
      var p := Padded(other, |l|);
      PaddedPossible(other, |l|, m);
      PaddedList(codes, other, |l|);
      assert Encodes(f, p, m) by {
        forall n | 0 <= n < |f| && f[n] > 0
          ensures p[n] >= 1
        {
          var i := HistogramListed(codes, |l|, n);
        }
      }
      ListCostSum(codes, l);
      ListCostSum(codes, p);
    }
  }

  /** With two symbols in all, both take one bit. */
  lemma OnlyTwoShortest(codes: seq<nat>, f: seq<nat>, l: seq<nat>, max: nat, a: nat, b: nat)
    requires Covers(l, codes) && Complete(l, max) && max >= 1 && |f| == |l| && OnlyTwo(f, a, b)
    requires forall n | 0 <= n < |l| :: f[n] > 0 <==> l[n] >= 1
    ensures Below(codes, |l|) && Shortest(codes, l)
  {
    hide Complete, KraftSum, Pow2;
    TwoSymbols(l, max, a, b);
    forall other: seq<nat>, m: nat | Covers(other, codes) && Possible(other, m)
      ensures Below(codes, |other|) && ListCost(codes, l) <= ListCost(codes, other)
    {
      ListCostOnes(codes, l, other);
    }
  }

  /** The lengths that build_tree gives to the symbols of a list, when none had to be cut. */
  lemma BuiltShortest(codes: seq<nat>, f: seq<nat>, l: seq<nat>, max: nat)
    requires Covers(l, codes) && Complete(l, max) && max >= 1
    requires AtLeastTwo(Histogram(codes, |l|), f) && Best(f, l) && forall n | 0 <= n < |l| :: f[n] > 0 <==> l[n] >= 1
    ensures Below(codes, |l|) && Shortest(codes, l)
  {
    hide Complete, Histogram, Cheapest, Shallowest, OnlyTwo, TwoOccur, Shortest;
    if TwoOccur(Histogram(codes, |l|)) {
      CheapestShortest(codes, l);
    } else {
      var a: nat, b: nat :| OnlyTwo(f, a, b);
      OnlyTwoShortest(codes, f, l, max, a, b);
    }
  }

  lemma TrimmedShortest(codes: seq<nat>, l: seq<nat>, n: nat)
    requires Below(codes, |l|) && Shortest(codes, l) && n <= |l| && Below(codes, n)
    ensures Shortest(codes, l[..n])
  {
    hide Covers, Possible;
    ListCostSame(codes, l, l[..n]);
  }

  // ---------- building ----------

  /** No length is the greatest allowed. */
  ghost predicate Uncut(l: seq<nat>, max: nat)
  {
    forall n | 0 <= n < |l| :: l[n] < max
  }

  /** Uncut lengths are shortest for the list. */
  ghost predicate Tight(codes: seq<nat>, l: seq<nat>, max: nat)
  {
    Below(codes, |l|) && (Uncut(l, max) ==> Shortest(codes, l))
  }

  lemma CarriesCovers(t: seq<CtData>, l: seq<nat>, codes: seq<nat>, max: nat)
    requires Carries(t, l, codes, max)
    ensures Covers(l, codes) && Below(codes, |l|)
  {
    hide Complete, CodesFor;
  }

  lemma TrimmedUncut(all: seq<nat>, l: seq<nat>, max: nat)
    requires l <= all && max >= 1 && forall n | |l| <= n < |all| :: all[n] == 0
    ensures Uncut(l, max) ==> Uncut(all, max)
  {
  }

  /** build_tree, for symbols that were counted from a list. */
  method BuildCode(builder: TreeBuilder, desc: TreeDesc, ghost codes: seq<nat>) returns (ghost lens: seq<nat>)
    requires builder.Valid() && desc.Valid() && Below(codes, desc.elems) && |codes| < 0xfffe
    requires Freqs(desc.dynTree[..], desc.elems) == Histogram(codes, desc.elems)
    modifies builder, builder.heap, builder.depth, builder.blCount, desc, desc.dynTree
    ensures |lens| == desc.elems && Carries(desc.dynTree[..], lens, codes, desc.maxLength)
    ensures Tight(codes, lens, desc.maxLength)
    ensures 0 <= desc.maxCode < desc.elems && forall n | desc.maxCode < n < desc.elems :: lens[n] == 0
    ensures builder.optLen == old(builder.optLen) + CodesCost(codes, desc.dynTree[..], desc.Extra(), desc.elems)
    ensures builder.staticLen == old(builder.staticLen) +
              (if desc.staticTree == null then 0 else CodesCost(codes, desc.staticTree[..], desc.Extra(), desc.elems))
  {
    hide Histogram, CodesCost, Paid, Complete, CodesFor, Sum, AtLeastTwo, Best, MergeOf, TooDeep, Shortest;
    HistogramSum(codes, desc.elems);
    ghost var f, g := builder.BuildTree(desc);
    lens := LensOf(desc.dynTree[..], desc.elems);
    PaidHistogram(codes, desc.dynTree[..], desc.Extra(), desc.elems);
    if desc.staticTree != null { PaidHistogram(codes, desc.staticTree[..], desc.Extra(), desc.elems); }
    forall i | 0 <= i < |codes|
      ensures codes[i] < |lens| && lens[codes[i]] >= 1
    {
      HistogramHas(codes, desc.elems, i);
    }
    if Uncut(lens, desc.maxLength) { BuiltShortest(codes, f, lens, desc.maxLength); }
  }

  /** ... with the lengths that are 0 at the end left off. */
  method BuildTrimmed(builder: TreeBuilder, desc: TreeDesc, ghost codes: seq<nat>) returns (ghost lens: seq<nat>)
    requires builder.Valid() && desc.Valid() && Below(codes, desc.elems) && |codes| < 0xfffe
    requires Freqs(desc.dynTree[..], desc.elems) == Histogram(codes, desc.elems)
    modifies builder, builder.heap, builder.depth, builder.blCount, desc, desc.dynTree
    ensures 1 <= |lens| == desc.maxCode + 1 <= desc.elems && Carries(desc.dynTree[..], lens, codes, desc.maxLength)
    ensures Tight(codes, lens, desc.maxLength)
    ensures builder.optLen == old(builder.optLen) + CodesCost(codes, desc.dynTree[..], desc.Extra(), desc.elems)
    ensures builder.staticLen == old(builder.staticLen) +
              (if desc.staticTree == null then 0 else CodesCost(codes, desc.staticTree[..], desc.Extra(), desc.elems))
  {
    hide Histogram, CodesCost, Carries, Sum, Shortest;
    ghost var all := BuildCode(builder, desc, codes);
    CarriesTrim(desc.dynTree[..], all, codes, desc.maxLength, desc.maxCode + 1);
    lens := all[..desc.maxCode + 1];
    CarriesCovers(desc.dynTree[..], all, codes, desc.maxLength);
    CarriesCovers(desc.dynTree[..], lens, codes, desc.maxLength);
    TrimmedUncut(all, lens, desc.maxLength);
    if Uncut(lens, desc.maxLength) { TrimmedShortest(codes, all, desc.maxCode + 1); }
  }
}
