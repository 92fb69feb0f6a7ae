/** The start of build_tree: which symbols go into the heap, and the codes that are forced. */
module BuildStart {
  import opened Bits
  import opened Sums
  import opened Canonical
  import opened Heap
  import opened MergeTree
  import opened HuffmanShape
  import opened CutLengths
  import opened LengthCounts
  import opened Reassign
  import opened BuildSteps

  /** The front of the array lists the symbols below n that occur, each once. */
  ghost predicate Listed(h: seq<ush>, len: nat, t: seq<CtData>, n: nat)
  {
    && len <= n && len < |h| && n <= |t|
    && (forall x: int {:trigger Active(h, len)[x]} :: Active(h, len)[x] == if 0 <= x < n && t[x].fc != 0 then 1 else 0)
  }

  lemma ActivePush(h: seq<ush>, len: nat, n: ush)
    requires len + 1 < |h|
    ensures Active(h[len + 1 := n], len + 1) == Active(h, len) + multiset{n as int}
  {
    var g := h[len + 1 := n];
    assert g[1..len + 2] == h[1..len + 1] + [n];
  }

  lemma ListedEmpty(h: seq<ush>, t: seq<CtData>)
    requires 0 < |h|
    ensures Listed(h, 0, t, 0)
  {
    assert h[1..1] == [];
  }

  lemma ListedStep(h: seq<ush>, len: nat, t: seq<CtData>, n: nat)
    requires Listed(h, len, t, n) && n < |t| && n < 0x1_0000 && len + 1 < |h|
    ensures t[n].fc != 0 ==> Listed(h[len + 1 := n], len + 1, t, n + 1)
    ensures t[n].fc == 0 ==> Listed(h, len, t, n + 1)
  {
    hide Active;
    if t[n].fc != 0 {
      ActivePush(h, len, n);
      var g := h[len + 1 := n];
      forall x: int
        ensures Active(g, len + 1)[x] == if 0 <= x < n + 1 && t[x].fc != 0 then 1 else 0
      {
        assert Active(h, len)[x] == if 0 <= x < n && t[x].fc != 0 then 1 else 0;
      }
    }
  }

  /** A symbol that does not occur can be added. */
  lemma ListedForce(h: seq<ush>, len: nat, t: seq<CtData>, elems: nat, n: nat)
    requires Listed(h, len, t, elems) && n < elems <= |t| && n < 0x1_0000 && len + 1 < |h| && t[n].fc == 0
    requires len + 1 <= elems
    ensures Listed(h[len + 1 := n], len + 1, t[n := t[n].(fc := 1)], elems)
  {
    hide Active;
    ActivePush(h, len, n);
    var g, t' := h[len + 1 := n], t[n := t[n].(fc := 1)];
    forall x: int
      ensures Active(g, len + 1)[x] == if 0 <= x < elems && t'[x].fc != 0 then 1 else 0
    {
      assert Active(h, len)[x] == if 0 <= x < elems && t[x].fc != 0 then 1 else 0;
    }
  }

  lemma ListedSame(h: seq<ush>, len: nat, t: seq<CtData>, t': seq<CtData>, n: nat)
    requires Listed(h, len, t, n) && n <= |t'| && forall x | 0 <= x < n :: t'[x].fc == t[x].fc
    ensures Listed(h, len, t', n)
  {
  }

  /** Two symbols that occur make a heap of two. */
  lemma ListedTwo(h: seq<ush>, len: nat, t: seq<CtData>, elems: nat, a: nat, b: nat)
    requires Listed(h, len, t, elems) && a < elems <= |t| && b < elems && a != b && t[a].fc != 0 && t[b].fc != 0
    ensures len >= 2
  {
    var m := Active(h, len);
    assert m[a] == 1 && m[b] == 1;
    assert multiset{a as int, b as int} <= m;
    assert |m| == |multiset{a as int, b as int}| + |m - multiset{a as int, b as int}|;
    assert |m| == |h[1..len + 1]|;
  }

  /** Conversely, the only member of a heap of one is the only symbol that occurs. */
  lemma ListedNodes(h: seq<ush>, len: nat, t: seq<CtData>, elems: nat)
    requires Listed(h, len, t, elems) && elems <= |t|
    ensures Nodes(h, len, |t|) && forall j | 1 <= j <= len :: h[j] < elems && t[h[j]].fc != 0
  {
    forall j | 1 <= j <= len
      ensures h[j] < elems && t[h[j]].fc != 0
    {
      ActiveHas(h, len, j);
      assert Active(h, len)[h[j] as int] >= 1;
    }
  }

  /** The symbols that occur. */
  ghost function Occurring(t: seq<CtData>, elems: nat): (l: set<nat>)
    requires elems <= |t|
  {
    set n: nat | n < elems && t[n].fc != 0
  }

  lemma ListedPartition(h: seq<ush>, len: nat, t: seq<CtData>, elems: nat)
    requires Listed(h, len, t, elems) && elems < |t|
    ensures Merging(t, Active(h, len), [], elems, Occurring(t, elems))
  {
    assert forall x: int :: Occurs([], x) == 0;
  }

  lemma ListedTotal(h: seq<ush>, len: nat, t: seq<CtData>, elems: nat)
    requires Listed(h, len, t, elems) && elems < |t|
    ensures Sum(ActiveFreqs(t, Active(h, len)), 0, |t|) == Sum(Freqs(t, elems), 0, elems)
  {
    var g, a := ActiveFreqs(t, Active(h, len)), Active(h, len);
    forall n | 0 <= n < |t|
      ensures g[n] == if n < elems then t[n].fc else 0
    {
      assert a[n] == if 0 <= n < elems && t[n].fc != 0 then 1 else 0;
    }
    SumSplit(g, 0, elems, |t|);
    SumZero(g, elems, |t|);
    SumCongruence(g, Freqs(t, elems), 0, elems);
  }

  /** The heap that was just filled starts the first round. */
  lemma FirstRound(h: seq<ush>, h0: seq<ush>, len: nat, t: seq<CtData>, elems: nat)
    requires Listed(h0, len, t, elems) && |h0| == |h| == HEAP_SIZE && Active(h, len) == Active(h0, len)
    requires 3 <= elems <= L_CODES && |t| == 2 * elems + 1 && 1 <= len
    requires Sum(Freqs(t, elems), 0, elems) < 0x1_0000
    ensures Round(t, h, len, [], elems, Occurring(t, elems))
  {
    ListedPartition(h0, len, t, elems);
    ListedTotal(h0, len, t, elems);
  }

  /** The heap holds the symbols that occur, which have frequencies f; none is above maxCode. */
  ghost predicate Starts(t: seq<CtData>, h: seq<ush>, len: nat, f: seq<nat>, elems: nat, maxCode: int)
  {
    && |f| == elems <= |t| && maxCode < elems && (forall n | 0 <= n < elems && n > maxCode :: f[n] == 0)
    && (forall n | 0 <= n < elems && f[n] == 0 :: t[n].dl == 0)
    && f == Freqs(t, elems) && Round(t, h, len, [], elems, Occurring(t, elems))
  }

  // ---------- what forced codes cost ----------

  /** Giving one occurrence to a symbol without any costs its length. */
  lemma PaidForce(f: seq<nat>, t: seq<CtData>, extra: seq<nat>, elems: nat, n: nat)
    requires elems <= |t| && elems <= |extra| && elems <= |f| && n < elems && f[n] == 0
    ensures Paid(f[n := 1], t, extra, elems) == Paid(f, t, extra, elems) + t[n].dl + extra[n]
  {
    var l := LensOf(t, elems);
    var g, g' := Pay(f, l, extra, elems), Pay(f[n := 1], l, extra, elems);
    assert g' == g[n := l[n] + extra[n]];
    SumUpdate(g, n, l[n] + extra[n], 0, elems);
  }

  /** Frequencies with one occurrence given to each forced symbol. */
  ghost function ForceFreqs(f: seq<nat>, forced: seq<nat>): (r: seq<nat>)
    requires Below(forced, |f|)
    ensures |r| == |f|
  {
    if forced == [] then f else ForceFreqs(f, forced[..|forced| - 1])[forced[|forced| - 1] := 1]
  }

  /** The forced symbols are different and did not occur. */
  ghost predicate Forcible(f: seq<nat>, forced: seq<nat>)
  {
    Below(forced, |f|) && Distinct(forced) && forall i | 0 <= i < |forced| :: forced[i] < 3 && f[forced[i]] == 0
  }

  lemma {:induction false} ForceFreqsElsewhere(f: seq<nat>, forced: seq<nat>, n: nat)
    requires Below(forced, |f|) && n < |f|
    ensures n !in forced ==> ForceFreqs(f, forced)[n] == f[n]
    ensures n in forced ==> ForceFreqs(f, forced)[n] == 1
  {
    if forced != [] {
      ForceFreqsElsewhere(f, forced[..|forced| - 1], n);
      assert forced == forced[..|forced| - 1] + [forced[|forced| - 1]];
    }
  }

  lemma StillAbsent(f: seq<nat>, forced: seq<nat>, n: nat)
    requires Forcible(f, forced) && n < |f| && ForceFreqs(f, forced)[n] == 0
    ensures f[n] == 0
  {
    ForceFreqsElsewhere(f, forced, n);
  }

  lemma NoneForced(f: seq<nat>, t: seq<CtData>)
    ensures Forcible(f, []) && ForceFreqs(f, []) == f && ForcedLens(t, []) == 0
  {
  }

  lemma ForceOneMore(f: seq<nat>, forced: seq<nat>, n: nat)
    requires Forcible(f, forced) && n < |f| && n < 3 && ForceFreqs(f, forced)[n] == 0
    ensures Forcible(f, forced + [n]) && ForceFreqs(f, forced + [n]) == ForceFreqs(f, forced)[n := 1]
  {
    ForceFreqsElsewhere(f, forced, n);
    assert (forced + [n])[..|forced|] == forced;
  }

  /** The lengths that the forced symbols have in a tree. */
  ghost function ForcedLens(t: seq<CtData>, forced: seq<nat>): nat
    requires Below(forced, |t|)
  {
    if forced == [] then 0 else ForcedLens(t, forced[..|forced| - 1]) + t[forced[|forced| - 1]].dl
  }

  lemma ForcedLensPush(t: seq<CtData>, forced: seq<nat>, n: nat)
    requires Below(forced, |t|) && n < |t|
    ensures ForcedLens(t, forced + [n]) == ForcedLens(t, forced) + t[n].dl
  {
    assert (forced + [n])[..|forced|] == forced;
  }

  /** Forced symbols, which have no extra bits, cost their lengths. */
  lemma {:induction false} PaidForced(f: seq<nat>, forced: seq<nat>, t: seq<CtData>, extra: seq<nat>, elems: nat)
    requires elems <= |t| && elems == |extra| == |f| && Forcible(f, forced)
    requires forall n | 0 <= n < 3 && n < elems :: extra[n] == 0
    ensures Paid(ForceFreqs(f, forced), t, extra, elems) == Paid(f, t, extra, elems) + ForcedLens(t, forced)
  {
    if forced != [] {
      var rest, n := forced[..|forced| - 1], forced[|forced| - 1];
      PaidForced(f, rest, t, extra, elems);
      ForceFreqsElsewhere(f, rest, n);
      PaidForce(ForceFreqs(f, rest), t, extra, elems, n);
    }
  }

  lemma {:induction false} ForcedLensOnes(t: seq<CtData>, forced: seq<nat>)
    requires Below(forced, |t|) && forall i | 0 <= i < |forced| :: t[forced[i]].dl == 1
    ensures ForcedLens(t, forced) == |forced|
  {
    if forced != [] { ForcedLensOnes(t, forced[..|forced| - 1]); }
  }

  /** A sum with at most two terms that are not zero. */
  lemma PairSum(g: seq<int>, a: nat, b: nat)
    requires a < |g| && b < |g| && a != b && forall n | 0 <= n < |g| && n != a && n != b :: g[n] == 0
    ensures Sum(g, 0, |g|) == g[a] + g[b]
  {
    SumUpdate(g, a, 0, 0, |g|);
    SumUpdate(g[a := 0], b, 0, 0, |g|);
    SumZero(g[a := 0][b := 0], 0, |g|);
  }

  lemma TwoSymbolSpace(lens: seq<nat>, max: nat, a: nat, b: nat)
    requires Complete(lens, max) && a < |lens| && b < |lens| && a != b
    requires forall n | 0 <= n < |lens| :: lens[n] >= 1 <==> n == a || n == b
    ensures lens[a] <= max && lens[b] <= max && Pow2(max - lens[a]) + Pow2(max - lens[b]) == Pow2(max)
  {
    hide KraftSum, Pow2, Space;
    var s: seq<nat> := [a, b];
    var g := Space(lens, s, max);
    assert lens[..|lens|] == lens;
    forall n | 0 <= n < |lens|
      ensures n in s <==> lens[n] >= 1
      ensures g[n] == if lens[n] >= 1 then Pow2(max - lens[n]) else 0
    {
      SpaceAt(lens, s, max, n);
    }
    KraftSumIsSpace(lens, s, max, |lens|);
    PairSum(g, a, b);
  }

  /** A complete code of two symbols gives both one bit. */
  lemma TwoSymbols(lens: seq<nat>, max: nat, a: nat, b: nat)
    requires Complete(lens, max) && max >= 1 && a < |lens| && b < |lens| && a != b
    requires forall n | 0 <= n < |lens| :: lens[n] >= 1 <==> n == a || n == b
    ensures lens[a] == 1 && lens[b] == 1
  {
    TwoSymbolSpace(lens, max, a, b);
    TwoHalves(lens[a], lens[b], max);
  }

  lemma TwoHalves(x: nat, y: nat, max: nat)
    requires 1 <= x <= max && 1 <= y <= max && Pow2(max - x) + Pow2(max - y) == Pow2(max)
    ensures x == 1 && y == 1
  {
    assert Pow2(max) == 2 * Pow2(max - 1);
    Pow2Monotone(max - x, max - 1);
    Pow2Monotone(max - y, max - 1);
    if x >= 2 { Pow2Monotone(max - x, max - 2); }
    if y >= 2 { Pow2Monotone(max - y, max - 2); }
  }

  /** A heap of two holds the only two symbols that occur. */
  lemma ListedPair(h: seq<ush>, t: seq<CtData>, elems: nat) returns (a: nat, b: nat)
    requires Listed(h, 2, t, elems) && elems <= |t|
    ensures a < elems && b < elems && a != b && forall n: nat | n < elems :: t[n].fc != 0 <==> n == a || n == b
  {
    a, b := h[1], h[2];
    ListedNodes(h, 2, t, elems);
    assert h[1..3] == [h[1], h[2]];
    assert Active(h, 2)[a] <= 1;
    forall n: nat | n < elems
      ensures t[n].fc != 0 <==> n == a || n == b
    {
      assert Active(h, 2)[n] == if t[n].fc != 0 then 1 else 0;
    }
  }

  /** When codes had to be forced, all lengths are one and the forced ones cost one bit each. */
  lemma ForcedCostOne(h: seq<ush>, t: seq<CtData>, elems: nat, after: seq<CtData>, max: nat, f: seq<nat>,
                      forced: seq<nat>)
    requires Listed(h, 2, t, elems) && elems <= |t| && elems <= |after| && max >= 1 && |f| == elems
    requires Complete(LensOf(after, elems), max)
    requires forall n: nat | n < elems :: t[n].fc != 0 <==> after[n].dl >= 1
    requires Forcible(f, forced) && Freqs(t, elems) == ForceFreqs(f, forced)
    ensures Below(forced, |after|) && ForcedLens(after, forced) == |forced|
  {
    hide Complete, Listed;
    var a, b := ListedPair(h, t, elems);
    var lens := LensOf(after, elems);
    TwoSymbols(lens, max, a, b);
    forall i | 0 <= i < |forced|
      ensures after[forced[i]].dl == 1
    {
      ForceFreqsElsewhere(f, forced, forced[i]);
      assert Freqs(t, elems)[forced[i]] == 1;
    }
    ForcedLensOnes(after, forced);
  }

  ghost predicate TwoOccur(f: seq<nat>)
  {
    exists a, b | 0 <= a < b < |f| :: f[a] > 0 && f[b] > 0
  }

  ghost predicate OnlyTwo(f: seq<nat>, a: nat, b: nat)
  {
    a < |f| && b < |f| && a != b && forall n | 0 <= n < |f| :: f[n] > 0 <==> n == a || n == b
  }

  /** f is what build_tree works with when the symbols occur f0 times: if fewer than two do, there are exactly two,
      and what had to be added to them occurs once. */
  ghost predicate AtLeastTwo(f0: seq<nat>, f: seq<nat>)
  {
    && |f| == |f0| && (forall n | 0 <= n < |f| :: f[n] == f0[n] || (f0[n] == 0 && f[n] == 1 && n < 3))
    && if TwoOccur(f0) then f == f0 else exists a: nat, b: nat :: OnlyTwo(f, a, b)
  }

  lemma {:induction false} ForcedSum(f: seq<nat>, forced: seq<nat>)
    requires Forcible(f, forced)
    ensures Sum(ForceFreqs(f, forced), 0, |f|) == Sum(f, 0, |f|) + |forced|
  {
    if forced != [] {
      var rest, n := forced[..|forced| - 1], forced[|forced| - 1];
      ForcedSum(f, rest);
      ForceFreqsElsewhere(f, rest, n);
      SumUpdate(ForceFreqs(f, rest), n, 1, 0, |f|);
    }
  }
}
