/** What the second part of the heap order is for: among the cheapest trees the one built is least deep. */
module Shallow {
  import opened Bits
  import opened Sums
  import opened Canonical
  import opened HuffmanShape
  import opened Optimal

  /** h holds the heights of the nodes: a father is one higher than the higher of his sons. */
  ghost predicate Heights(s: seq<nat>, elems: nat, h: seq<nat>, u: nat)
    requires Below(s, |h|)
  {
    elems <= u < |h| && 2 * (u - elems) + 1 < |s| &&
    var a, b := h[s[2 * (u - elems)]], h[s[2 * (u - elems) + 1]];
    h[u] == 1 + if a >= b then a else b
  }

  /** Rarer, or as rare and no higher. */
  predicate Before(f: seq<nat>, h: seq<nat>, x: nat, y: nat)
    requires x < |f| == |h| && y < |f|
  {
    f[x] < f[y] || (f[x] == f[y] && h[x] <= h[y])
  }

  /** The nodes were taken out of the heap by frequency, and nodes of the same frequency by height. */
  ghost predicate Tied(s: seq<nat>, f: seq<nat>, elems: nat, h: seq<nat>)
  {
    && |h| == |f| && Below(s, |f|) && (forall u | elems <= u < |f| :: Heights(s, elems, h, u))
    && forall i | 1 <= i < |s| :: Before(f, h, s[i - 1], s[i])
  }

  lemma {:induction false} BeforeFrom(s: seq<nat>, f: seq<nat>, elems: nat, h: seq<nat>, i: nat, j: nat)
    requires Tied(s, f, elems, h) && i <= j < |s|
    ensures Before(f, h, s[i], s[j])
    decreases j
  {
    hide Heights;
    if i < j { BeforeFrom(s, f, elems, h, i, j - 1); }
  }

  /** Some leaf is so deep that what hangs below it reaches down to depth d. */
  ghost predicate Reaches(l: seq<nat>, h: seq<nat>, leaves: set<nat>, d: nat)
  {
    exists n: nat :: n in leaves && n < |l| && n < |h| && l[n] + h[n] >= d
  }

  /** Cheaper, or as cheap and no deeper. */
  ghost predicate NoWorse(f: seq<nat>, h: seq<nat>, leaves: set<nat>, k: seq<nat>, l: seq<nat>)
    requires |f| == |k| == |l|
  {
    Spend(f, k, leaves) < Spend(f, l, leaves)
    || (Spend(f, k, leaves) == Spend(f, l, leaves)
        && forall d: nat | Reaches(k, h, leaves, d) :: Reaches(l, h, leaves, d))
  }

  lemma ShorterNoWorse(f: seq<nat>, h: seq<nat>, leaves: set<nat>, k: seq<nat>, l: seq<nat>)
    requires |f| == |k| == |l| && Spend(f, k, leaves) <= Spend(f, l, leaves) && forall n | 0 <= n < |l| :: k[n] <= l[n]
    ensures NoWorse(f, h, leaves, k, l)
  {
    hide Spend;
    forall d: nat | Reaches(k, h, leaves, d)
      ensures Reaches(l, h, leaves, d)
    {
      var n: nat :| n in leaves && n < |k| && n < |h| && k[n] + h[n] >= d;
      assert l[n] + h[n] >= d;
    }
  }

  /** Exchanging two leaves so that the later one in the order is less deep. */
  lemma ExchangeNoWorse(f: seq<nat>, h: seq<nat>, l: seq<nat>, leaves: set<nat>, m: nat, a: nat, x: nat)
    returns (k: seq<nat>)
    requires |f| == |l| == |h| && Roomy(l, leaves, m) && a in leaves && x in leaves && a < |f| && x < |f|
    requires Before(f, h, a, x) && l[a] <= l[x]
    ensures |k| == |l| && Roomy(k, leaves, m) && NoWorse(f, h, leaves, k, l) && k == l[a := l[x]][x := l[a]]
  {
    hide Spend, Roomy;
    k := Exchange(f, l, leaves, m, a, x);
    if l[a] == l[x] {
      assert k == l;
    } else if f[a] < f[x] {
      StrictlyCheaper(f, l, leaves, a, x);
    } else {
      forall d: nat | Reaches(k, h, leaves, d)
        ensures Reaches(l, h, leaves, d)
      {
        var n: nat :| n in leaves && n < |k| && n < |h| && k[n] + h[n] >= d;
        assert l[n] + h[n] >= d || l[x] + h[x] >= d;
      }
    }
  }

  lemma StrictlyCheaper(f: seq<nat>, l: seq<nat>, leaves: set<nat>, a: nat, x: nat)
    requires |f| == |l| && a in leaves && x in leaves && a < |f| && x < |f| && f[a] < f[x] && l[a] < l[x]
    ensures Spend(f, l[a := l[x]][x := l[a]], leaves) < Spend(f, l, leaves)
  {
    hide Spend;
    SpendUpdate(f, l, leaves, a, l[x]);
    SpendUpdate(f, l[a := l[x]], leaves, x, l[a]);
    Strictly(f[a], f[x], l[a], l[x]);
  }

  lemma Strictly(fa: nat, fx: nat, la: nat, lx: nat)
    requires fa < fx && la < lx
    ensures fa * lx + fx * la < fa * la + fx * lx
  {
    assert (fx - fa) * (lx - la) > 0;
  }

  lemma NoWorseTrans(f: seq<nat>, h: seq<nat>, leaves: set<nat>, j: seq<nat>, k: seq<nat>, l: seq<nat>)
    requires |f| == |j| == |k| == |l| && NoWorse(f, h, leaves, j, k) && NoWorse(f, h, leaves, k, l)
    ensures NoWorse(f, h, leaves, j, l)
  {
    hide Spend, Reaches;
  }

  /** The first two leaves in the order can be the deepest. */
  lemma FirstDeepest(f: seq<nat>, h: seq<nat>, l: seq<nat>, leaves: set<nat>, m: nat, a: nat, b: nat)
    returns (k: seq<nat>, d: nat)
    requires |f| == |l| == |h| && Roomy(l, leaves, m) && a in leaves && b in leaves && a != b
    requires forall n: nat | n in leaves :: n < |f| && Before(f, h, a, n) && (n != a ==> Before(f, h, b, n))
    ensures |k| == |l| && Roomy(k, leaves, d) && NoWorse(f, h, leaves, k, l) && k[a] == d && k[b] == d
  {
    hide Spend, Reaches, NoWorse, Before;
    var l1, d1, x, y := TwoDeepest(f, l, leaves, m, a, b);
    ShorterNoWorse(f, h, leaves, l1, l);
    d := d1;
    if y == a { x, y := y, x; }
    var l2 := ExchangeNoWorse(f, h, l1, leaves, d, a, x);
    assert l2[a] == d && l2[y] == d;
    k := ExchangeNoWorse(f, h, l2, leaves, d, b, y);
    NoWorseTrans(f, h, leaves, l2, l1, l);
    NoWorseTrans(f, h, leaves, k, l2, l);
  }

  /** A father in place of his sons reaches as deep. */
  lemma JoinReaches(k: seq<nat>, h: seq<nat>, leaves: set<nat>, d: nat, a: nat, b: nat, u: nat, deep: nat)
    requires a in leaves && b in leaves && a < |k| == |h| && b < |k| && u < |k| && d >= 1 && k[a] == d && k[b] == d
    requires h[u] == 1 + if h[a] >= h[b] then h[a] else h[b]
    requires Reaches(k[u := d - 1], h, leaves - {a, b} + {u}, deep)
    ensures Reaches(k, h, leaves, deep)
  {
    var n: nat :| n in leaves - {a, b} + {u} && n < |k| && k[u := d - 1][n] + h[n] >= deep;
    if n == u {
      assert k[a] + h[a] >= deep || k[b] + h[b] >= deep;
    } else {
      assert k[n] + h[n] >= deep;
    }
  }

  lemma TiedTail(s: seq<nat>, f: seq<nat>, elems: nat, h: seq<nat>)
    requires Tied(s, f, elems, h) && |s| >= 3
    ensures Tied(s[2..], f, elems + 1, h)
  {
    var t, e1 := s[2..], elems + 1;
    forall u | e1 <= u < |f|
      ensures Heights(t, e1, h, u)
    {
      assert Heights(s, elems, h, u);
      assert t[2 * (u - e1)] == s[2 * (u - elems)] && t[2 * (u - e1) + 1] == s[2 * (u - elems) + 1];
    }
    forall i | 1 <= i < |t|
      ensures Before(f, h, t[i - 1], t[i])
    {
      assert Before(f, h, s[i + 1], s[i + 2]);
    }
  }

  lemma FirstTwoBefore(s: seq<nat>, f: seq<nat>, elems: nat, h: seq<nat>, leaves: set<nat>)
    requires Shape(s, f, elems, leaves) && Tied(s, f, elems, h) && forall n | n in leaves :: n < elems
    ensures forall n: nat | n in leaves :: n < |f| && Before(f, h, s[0], n) && (n != s[0] ==> Before(f, h, s[1], n))
    ensures Heights(s, elems, h, elems)
  {
    hide Before;
    forall n: nat | n in leaves
      ensures n < |f| && Before(f, h, s[0], n) && (n != s[0] ==> Before(f, h, s[1], n))
    {
      ShapeMember(s, f, elems, leaves, n);
      var j :| 0 <= j < |s| && s[j] == n;
      BeforeFrom(s, f, elems, h, 0, j);
      if j >= 1 { BeforeFrom(s, f, elems, h, 1, j); }
    }
  }

  /** Whatever lengths leave room for all the leaves cost more than the merge tree, or reach as deep. */
  lemma {:induction false} MergeTreeShallow(s: seq<nat>, f: seq<nat>, elems: nat, leaves: set<nat>, h: seq<nat>,
                                            l: seq<nat>, m: nat)
    requires Shape(s, f, elems, leaves) && Tied(s, f, elems, h) && |l| == |f| && Roomy(l, leaves, m)
    requires forall n | n in leaves :: n < elems
    ensures Spend(f, l, leaves) >= Sum(f, elems, |f|)
    ensures Spend(f, l, leaves) == Sum(f, elems, |f|) ==> Reaches(l, h, leaves, h[|f| - 1])
    decreases |f| - elems
  {
    hide Sum, Spend, Roomy, Tied, Before, Reaches, Shape, NoWorse;
    FirstPair(s, f, elems, leaves);
    SameLength(s, f, elems, h);
    var a, b := s[0], s[1];
    assert Roomy(l, leaves, m);
    FirstTwoBefore(s, f, elems, h, leaves);
    var k, d := FirstDeepest(f, h, l, leaves, m, a, b);
    TwoNeedRoom(k, leaves, d, a, b);
    var j := JoinLeaves(f, k, leaves, d, a, b, elems);
    var rest := leaves - {a, b} + {elems};
    SumSplit(f, elems, elems + 1, |f|);
    SumOne(f, elems);
    if elems + 1 < |f| {
      ShapeTail(s, f, elems, leaves);
      TiedTail(s, f, elems, h);
      MergeTreeShallow(s[2..], f, elems + 1, rest, h, j, d);
    } else {
      SpendNonNegative(f, j, rest);
      SumNone(f, elems + 1);
      OnlyRoot(j, h, rest, elems);
    }
    if Reaches(j, h, rest, h[|f| - 1]) { JoinReaches(k, h, leaves, d, a, b, elems, h[|f| - 1]); }
    NoWorseThan(f, h, leaves, k, l, Sum(f, elems, |f|), h[|f| - 1]);
  }

  lemma NoWorseThan(f: seq<nat>, h: seq<nat>, leaves: set<nat>, k: seq<nat>, l: seq<nat>, w: int, d: nat)
    requires |f| == |k| == |l| && NoWorse(f, h, leaves, k, l)
    requires Spend(f, k, leaves) >= w && (Spend(f, k, leaves) == w ==> Reaches(k, h, leaves, d))
    ensures Spend(f, l, leaves) >= w && (Spend(f, l, leaves) == w ==> Reaches(l, h, leaves, d))
  {
    hide Spend, Reaches;
  }

  lemma SameLength(s: seq<nat>, f: seq<nat>, elems: nat, h: seq<nat>)
    requires Tied(s, f, elems, h)
    ensures |h| == |f| && Below(s, |f|)
  {
  }

  lemma OnlyRoot(j: seq<nat>, h: seq<nat>, leaves: set<nat>, root: nat)
    requires root in leaves && root < |j| == |h|
    ensures Reaches(j, h, leaves, h[root])
  {
    assert j[root] + h[root] >= h[root];
  }

  // ---------- in terms of codes ----------

  /** Some symbol that occurs has a length of at least d. */
  ghost predicate AsLong(f: seq<nat>, lens: seq<nat>, d: nat)
  {
    exists n | 0 <= n < |f| && n < |lens| :: f[n] > 0 && lens[n] >= d
  }

  /** Lengths that cost the same are no shorter at their longest. */
  ghost predicate Shallowest(f: seq<nat>, lens: seq<nat>)
  {
    && |lens| == |f|
    && forall other: seq<nat>, m: nat | Encodes(f, other, m)
         && Sum(Cost(f, other), 0, |f|) == Sum(Cost(f, lens), 0, |f|) ::
         forall n | 0 <= n < |lens| :: AsLong(f, other, lens[n])
  }

  /** No node lies deeper than the tree is high. */
  lemma {:induction false} DepthBelowHeight(s: seq<nat>, f: seq<nat>, elems: nat, leaves: set<nat>, h: seq<nat>,
                                            bits: seq<nat>, max: nat, i: nat)
    requires Shape(s, f, elems, leaves) && Tied(s, f, elems, h) && Depths(bits, s, elems, max) && |bits| == |f|
    requires i < |s|
    ensures bits[s[i]] + h[s[i]] <= h[|f| - 1]
    decreases |s| - i
  {
    hide Before;
    if i < |s| - 1 {
      var u := elems + i / 2;
      DepthAt(bits, s, elems, max, i);
      ShapeMember(s, f, elems, leaves, u);
      var j :| 0 <= j < |s| && s[j] == u;
      if j < |s| - 1 { assert Father(s, f, elems, elems + j / 2); }
      assert Heights(s, elems, h, u);
      DepthBelowHeight(s, f, elems, leaves, h, bits, max, j);
    }
  }

  /** The depths in the merge tree are no greater than the longest of any lengths that cost as little. */
  lemma TreeShallow(s: seq<nat>, f: seq<nat>, elems: nat, leaves: set<nat>, h: seq<nat>, bits: seq<nat>, max: nat)
    requires Shape(s, f, elems, leaves) && Tied(s, f, elems, h) && Depths(bits, s, elems, max) && |bits| == |f|
    requires forall n: nat | n in leaves :: n < elems && f[n] > 0 && h[n] == 0
    requires forall n: nat | n < elems && n !in leaves :: f[n] == 0
    requires Sum(Cost(f[..elems], bits[..elems]), 0, elems) == Sum(f, elems, |f|)
    ensures Shallowest(f[..elems], bits[..elems])
  {
    hide Shape, Tied, Depths, Sum, Cost, AsLong, KraftSum;
    ShapeDistinct(s, f, elems, leaves);
    forall other: seq<nat>, m: nat, n: nat |
      Encodes(f[..elems], other, m) && Sum(Cost(f[..elems], other), 0, elems) == Sum(f, elems, |f|) && n < elems
      ensures AsLong(f[..elems], other, bits[n])
    {
      NodeBelowHeight(s, f, elems, leaves, h, bits, max, n);
      OtherReaches(s, f, elems, leaves, h, other, m, bits[n]);
    }
  }

  lemma NodeBelowHeight(s: seq<nat>, f: seq<nat>, elems: nat, leaves: set<nat>, h: seq<nat>, bits: seq<nat>, max: nat,
                        n: nat)
    requires Shape(s, f, elems, leaves) && Tied(s, f, elems, h) && Depths(bits, s, elems, max) && |bits| == |f|
    requires n < |bits|
    ensures bits[n] <= h[|f| - 1]
  {
    hide Before, Heights;
    if n in s {
      var i :| 0 <= i < |s| && s[i] == n;
      DepthBelowHeight(s, f, elems, leaves, h, bits, max, i);
    }
  }

  lemma OtherReaches(s: seq<nat>, f: seq<nat>, elems: nat, leaves: set<nat>, h: seq<nat>, other: seq<nat>, m: nat,
                     d: nat)
    requires Shape(s, f, elems, leaves) && Tied(s, f, elems, h) && elems <= |f| && Encodes(f[..elems], other, m)
    requires forall n: nat | n in leaves :: n < elems && f[n] > 0 && h[n] == 0
    requires forall n: nat | n < elems && n !in leaves :: f[n] == 0
    requires Sum(Cost(f[..elems], other), 0, elems) == Sum(f, elems, |f|) && d <= h[|f| - 1]
    ensures AsLong(f[..elems], other, d)
  {
    hide Shape, Tied, KraftSum, Pow2, Sum, Charge, Cost, Room;
    var e := Extended(other, |f|);
    SameLength(s, f, elems, h);
    ShapeDistinct(s, f, elems, leaves);
    ExtendedRoomy(f[..elems], other, leaves, m, |f|);
    MergeTreeShallow(s, f, elems, leaves, h, e, m);
    ExtendedSpend(f, other, leaves, elems);
    var n: nat :| n in leaves && n < |e| && n < |h| && e[n] + h[n] >= h[|f| - 1];
    assert f[..elems][n] == f[n] && other[n] == e[n];
  }
}
