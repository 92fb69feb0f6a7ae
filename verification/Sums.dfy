/** Sums over lists of indices and over ranges. */
module Sums {

  predicate Below(s: seq<nat>, n: nat)
  {
    forall i | 0 <= i < |s| :: s[i] < n
  }

  predicate Distinct(s: seq<nat>)
  {
    forall i, j | 0 <= i < j < |s| :: s[i] != s[j]
  }

  /** Sum of g[s[i]] over i from h on. */
  function SumFrom(s: seq<nat>, g: seq<int>, h: nat): int
    requires Below(s, |g|) && h <= |s|
    decreases |s| - h
  {
    if h == |s| then 0 else g[s[h]] + SumFrom(s, g, h + 1)
  }

  /** Sum of g[lo..hi]. */
  function Sum(g: seq<int>, lo: nat, hi: nat): int
    requires lo <= hi <= |g|
    decreases hi
  {
    if lo == hi then 0 else Sum(g, lo, hi - 1) + g[hi - 1]
  }

  lemma {:induction false} SumFromCongruence(s: seq<nat>, g: seq<int>, k: seq<int>, h: nat)
    requires Below(s, |g|) && Below(s, |k|) && h <= |s|
    requires forall i | h <= i < |s| :: g[s[i]] == k[s[i]]
    ensures SumFrom(s, g, h) == SumFrom(s, k, h)
    decreases |s| - h
  {
    if h < |s| { SumFromCongruence(s, g, k, h + 1); }
  }

  lemma {:induction false} SumCongruence(g: seq<int>, h: seq<int>, lo: nat, hi: nat)
    requires lo <= hi <= |g| && hi <= |h|
    requires forall i | lo <= i < hi :: g[i] == h[i]
    ensures Sum(g, lo, hi) == Sum(h, lo, hi)
    decreases hi
  {
    if lo < hi { SumCongruence(g, h, lo, hi - 1); }
  }

  lemma {:induction false} SumSplit(g: seq<int>, lo: nat, mid: nat, hi: nat)
    requires lo <= mid <= hi <= |g|
    ensures Sum(g, lo, hi) == Sum(g, lo, mid) + Sum(g, mid, hi)
    decreases hi
  {
    if mid < hi { SumSplit(g, lo, mid, hi - 1); }
  }

  lemma {:induction false} SumZero(g: seq<int>, lo: nat, hi: nat)
    requires lo <= hi <= |g| && forall i | lo <= i < hi :: g[i] == 0
    ensures Sum(g, lo, hi) == 0
    decreases hi
  {
    if lo < hi { SumZero(g, lo, hi - 1); }
  }

  lemma {:induction false} SumUpdate(g: seq<int>, i: nat, v: int, lo: nat, hi: nat)
    requires lo <= i < hi <= |g|
    ensures Sum(g[i := v], lo, hi) == Sum(g, lo, hi) - g[i] + v
    decreases hi
  {
    if i < hi - 1 {
      SumUpdate(g, i, v, lo, hi - 1);
    } else {
      SumCongruence(g, g[i := v], lo, hi - 1);
    }
  }

  lemma {:induction false} SumAdd(g: seq<int>, h: seq<int>, k: seq<int>, lo: nat, hi: nat)
    requires lo <= hi <= |g| == |h| == |k|
    requires forall i | lo <= i < hi :: k[i] == g[i] + h[i]
    ensures Sum(k, lo, hi) == Sum(g, lo, hi) + Sum(h, lo, hi)
    decreases hi
  {
    if lo < hi { SumAdd(g, h, k, lo, hi - 1); }
  }

  /** A list without repetitions that holds every index with a non-zero term sums the whole range. */
  lemma {:induction false} SumFromAll(s: seq<nat>, g: seq<int>, h: nat)
    requires Below(s, |g|) && Distinct(s) && h <= |s|
    requires forall n | 0 <= n < |g| && g[n] != 0 :: n in s[h..]
    ensures SumFrom(s, g, h) == Sum(g, 0, |g|)
    decreases |s| - h
  {
    if h == |s| {
      SumZero(g, 0, |g|);
    } else {
      var k := g[s[h] := 0];
      forall n | 0 <= n < |k| && k[n] != 0
        ensures n in s[h + 1..]
      {
        var i :| 0 <= i < |s[h..]| && s[h..][i] == n;
        assert s[h + 1..][i - 1] == n;
      }
      SumFromAll(s, k, h + 1);
      SumUpdate(g, s[h], 0, 0, |g|);
      SumFromCongruence(s, g, k, h + 1);
    }
  }

  /** Term u of `pair` is the sum of the u-th pair of the list. */
  ghost predicate PairIs(s: seq<nat>, g: seq<int>, pair: seq<int>, lo: nat, u: nat)
    requires Below(s, |g|) && lo <= u < |pair|
  {
    var i := 2 * (u - lo);
    i + 1 < |s| && g[s[i]] + g[s[i + 1]] == pair[u]
  }

  /** Summing a list two by two. */
  lemma {:induction false} SumFromPairs(s: seq<nat>, g: seq<int>, pair: seq<int>, lo: nat, k: nat, m: nat)
    requires Below(s, |g|) && k <= m && 2 * m <= |s| && lo + m <= |pair|
    requires forall u | lo + k <= u < lo + m :: PairIs(s, g, pair, lo, u)
    ensures SumFrom(s, g, 2 * k) == Sum(pair, lo + k, lo + m) + SumFrom(s, g, 2 * m)
    decreases m - k
  {
    if k < m {
      SumFromPairs(s, g, pair, lo, k + 1, m);
      SumSplit(pair, lo + k, lo + k + 1, lo + m);
      assert PairIs(s, g, pair, lo, lo + k);
      assert SumFrom(s, g, 2 * k) == g[s[2 * k]] + SumFrom(s, g, 2 * k + 1);
      assert SumFrom(s, g, 2 * k + 1) == g[s[2 * k + 1]] + SumFrom(s, g, 2 * k + 2);
      assert Sum(pair, lo + k, lo + k + 1) == Sum(pair, lo + k, lo + k) + pair[lo + k];
    }
  }
}
