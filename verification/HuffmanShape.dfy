/** Facts about the finished merge tree: the depth of its nodes, the space their lengths take,
    and what the lengths cost. */
module HuffmanShape {
  import opened Bits
  import opened Sums
  import opened Heap
  import opened MergeTree

  /** Node u, with u - elems = j, is the father of s[2j] and s[2j + 1]. */
  ghost predicate Father(s: seq<nat>, f: seq<nat>, elems: nat, u: nat)
    requires elems <= u < |f| && Below(s, |f|)
  {
    var i := 2 * (u - elems);
    i + 1 < |s| && s[i] < u && s[i + 1] < u && f[u] == f[s[i]] + f[s[i + 1]]
  }

  ghost predicate Sorted(s: seq<nat>, f: seq<nat>)
    requires Below(s, |f|)
  {
    forall i | 1 <= i < |s| :: f[s[i - 1]] <= f[s[i]]
  }

  ghost predicate Holds(s: seq<nat>, elems: nat, leaves: set<nat>, n: nat)
  {
    forall x: nat | x < n :: x in s <==> x in leaves || x >= elems
  }

  /** The nodes in the order of removal from the heap, root last: every node once,
      frequencies not decreasing, each pair the sons of the next inner node. */
  ghost predicate Shape(s: seq<nat>, f: seq<nat>, elems: nat, leaves: set<nat>)
  {
    && |f| > elems && |s| == 2 * (|f| - elems) + 1 && s[|s| - 1] == |f| - 1
    && Below(s, |f|) && Distinct(s) && Holds(s, elems, leaves, |f|) && Sorted(s, f)
    && (forall u | elems <= u < |f| :: Father(s, f, elems, u))
  }

  ghost function Freqs(tree: seq<CtData>, n: nat): (f: seq<nat>)
    requires n <= |tree|
    ensures |f| == n
  {
    seq(n, i requires 0 <= i < n => tree[i].fc)
  }

  /** When one node is left in the heap, the order of removal has that shape. */
  lemma MergingDone(tree: seq<CtData>, root: nat, rem: seq<nat>, elems: nat, leaves: set<nat>)
    requires Merging(tree, multiset{root}, rem, elems, leaves) && |rem| >= 2
    ensures Shape(rem + [root], Freqs(tree, elems + |rem| / 2), elems, leaves)
    ensures root == elems + |rem| / 2 - 1
  {
    hide Partition, Distinct, Holds, Sorted;
    PartitionDone(rem, elems, leaves, root);
    AscendingDone(tree, multiset{root}, rem, root, elems);
    var s, f := rem + [root], Freqs(tree, elems + |rem| / 2);
    forall u | elems <= u < |f|
      ensures Father(s, f, elems, u)
    {
      var i := 2 * (u - elems);
      var y, z := rem[i], rem[i + 1];
      assert s[i] == y && s[i + 1] == z;
      assert tree[u].fc == tree[y].fc + tree[z].fc;
    }
  }

  lemma AscendingDone(tree: seq<CtData>, active: multiset<int>, rem: seq<nat>, root: nat, elems: nat)
    requires Below(rem, |tree|) && Ascending(tree, active, rem) && root in active && root < elems + |rem| / 2 <= |tree|
    requires forall i | 0 <= i < |rem| :: rem[i] < elems + i / 2
    ensures var s, f := rem + [root], Freqs(tree, elems + |rem| / 2);
            Below(s, |f|) && Sorted(s, f)
  {
  }

  lemma PartitionDone(rem: seq<nat>, elems: nat, leaves: set<nat>, root: nat)
    requires Partition(multiset{root}, rem, elems, leaves) && |rem| >= 2
    requires forall i | 0 <= i < |rem| :: rem[i] < elems + i / 2
    ensures root == elems + |rem| / 2 - 1 && |rem| % 2 == 0
    ensures Distinct(rem + [root]) && Holds(rem + [root], elems, leaves, elems + |rem| / 2)
  {
    var one: multiset<int> := multiset{root};
    var last := elems + |rem| / 2 - 1;
    assert one[last] + Occurs(rem, last) == 1;
    assert last !in rem;
    forall x: nat | x < elems + |rem| / 2
      ensures x in rem + [root] <==> x in leaves || x >= elems
    {
      assert one[x] + Occurs(rem, x) == if x in leaves || elems <= x < elems + |rem| / 2 then 1 else 0;
    }
    assert one[root] == 1;
    assert Occurs(rem, root) == 0;
    forall i, j | 0 <= i < j < |rem|
      ensures rem[i] != rem[j]
    {
      TwiceOccurs(rem, i, j);
      assert one[rem[i]] + Occurs(rem, rem[i]) <= 1;
    }
  }

  lemma TwiceOccurs(s: seq<nat>, i: nat, j: nat)
    requires i < j < |s|
    ensures s[i] == s[j] ==> Occurs(s, s[i]) >= 2
  {
    assert s == s[..j] + s[j..];
    assert s[..j][i] == s[i] && s[j..][0] == s[j];
    assert multiset(s) == multiset(s[..j]) + multiset(s[j..]);
  }

  // ---------- depths ----------

  function Min(a: int, b: int): int { if a <= b then a else b }

  /** The sons of u are one deeper than u, but no deeper than max. */
  ghost predicate SonsDeeper(bits: seq<nat>, s: seq<nat>, elems: nat, max: nat, u: nat)
    requires elems <= u < |bits| && Below(s, |bits|)
  {
    var i := 2 * (u - elems);
    i + 1 < |s| && bits[s[i]] == Min(bits[u] + 1, max) && bits[s[i + 1]] == Min(bits[u] + 1, max)
  }

  ghost predicate ZeroOutside(bits: seq<nat>, s: seq<nat>)
  {
    forall n | 0 <= n < |bits| && n !in s :: bits[n] == 0
  }

  /** Depths by node number, cut off at max, of u and its followers' sons; nodes not in the tree have 0. */
  ghost predicate DepthsFrom(bits: seq<nat>, s: seq<nat>, elems: nat, max: nat, u: nat)
  {
    && elems <= u <= |bits| && |s| == 2 * (|bits| - elems) + 1 && Below(s, |bits|)
    && bits[s[|s| - 1]] == 0 && ZeroOutside(bits, s)
    && (forall v | u <= v < |bits| :: SonsDeeper(bits, s, elems, max, v))
  }

  ghost predicate Depths(bits: seq<nat>, s: seq<nat>, elems: nat, max: nat)
  {
    DepthsFrom(bits, s, elems, max, elems)
  }

  lemma {:induction false} DepthsExistFrom(s: seq<nat>, f: seq<nat>, elems: nat, leaves: set<nat>, max: nat, u: nat)
    returns (bits: seq<nat>)
    requires Shape(s, f, elems, leaves) && elems <= u <= |f|
    ensures |bits| == |f| && DepthsFrom(bits, s, elems, max, u)
    decreases |f| - u
  {
    if u == |f| {
      bits := seq(|f|, i => 0);
    } else {
      var b := DepthsExistFrom(s, f, elems, leaves, max, u + 1);
      bits := DeepenSons(s, f, elems, leaves, max, u, b);
    }
  }

  lemma DeepenSons(s: seq<nat>, f: seq<nat>, elems: nat, leaves: set<nat>, max: nat, u: nat, b: seq<nat>)
    returns (bits: seq<nat>)
    requires Shape(s, f, elems, leaves) && elems <= u < |f| == |b|
    requires DepthsFrom(b, s, elems, max, u + 1)
    ensures |bits| == |f| && DepthsFrom(bits, s, elems, max, u)
  {
    hide Sorted, Holds;
    var i, d := 2 * (u - elems), Min(b[u] + 1, max);
    assert Father(s, f, elems, u);
    bits := b[s[i] := d][s[i + 1] := d];
    forall v | u <= v < |bits|
      ensures SonsDeeper(bits, s, elems, max, v)
    {
      assert Father(s, f, elems, v);
      if v > u { assert SonsDeeper(b, s, elems, max, v); }
    }
  }

  lemma DepthsExist(s: seq<nat>, f: seq<nat>, elems: nat, leaves: set<nat>, max: nat) returns (bits: seq<nat>)
    requires Shape(s, f, elems, leaves)
    ensures |bits| == |f| && Depths(bits, s, elems, max)
  {
    bits := DepthsExistFrom(s, f, elems, leaves, max, elems);
  }

  /** The depth of any node but the root, by its position in the list. */
  lemma DepthAt(bits: seq<nat>, s: seq<nat>, elems: nat, max: nat, i: nat)
    requires Depths(bits, s, elems, max) && i < |s| - 1
    ensures elems + i / 2 < |bits| && bits[s[i]] == Min(bits[elems + i / 2] + 1, max)
  {
    assert SonsDeeper(bits, s, elems, max, elems + i / 2);
  }

  /** Depths stay within 1..max below the root, and only there. */
  lemma DepthsBounded(bits: seq<nat>, s: seq<nat>, f: seq<nat>, elems: nat, leaves: set<nat>, max: nat)
    requires Shape(s, f, elems, leaves) && Depths(bits, s, elems, max) && max >= 1
    ensures |bits| == |f|
    ensures forall n | 0 <= n < |bits| :: bits[n] <= max
    ensures forall n: nat | n < elems :: n in leaves <==> bits[n] >= 1
  {
    forall n | 0 <= n < |bits|
      ensures bits[n] <= max && (n < elems ==> (n in leaves <==> bits[n] >= 1))
    {
      ShapeMember(s, f, elems, leaves, n);
      if n in s {
        var i :| 0 <= i < |s| && s[i] == n;
        if i < |s| - 1 { DepthAt(bits, s, elems, max, i); }
      }
    }
  }

  lemma ShapeMember(s: seq<nat>, f: seq<nat>, elems: nat, leaves: set<nat>, n: nat)
    requires Shape(s, f, elems, leaves) && n < |f|
    ensures n in s <==> n in leaves || n >= elems
  {
  }

  // ---------- space ----------

  /** The space of each node: 2^(max - depth) for those in the tree. */
  ghost function Space(bits: seq<nat>, s: seq<nat>, max: nat): (g: seq<int>)
    requires forall n | 0 <= n < |bits| :: bits[n] <= max
    ensures |g| == |bits|
  {
    seq(|bits|, n requires 0 <= n < |bits| => if n in s then Pow2(max - bits[n]) else 0)
  }

  /** Marks the nodes at depth max, whose sons are cut off. */
  ghost function AtMax(bits: seq<nat>, max: nat): (c: seq<int>)
    ensures |c| == |bits|
  {
    seq(|bits|, n requires 0 <= n < |bits| => if bits[n] == max then 1 else 0)
  }

  /** Marks the nodes that are cut off, by father. */
  ghost function Plus(g: seq<int>, c: seq<int>): (p: seq<int>)
    requires |g| == |c|
    ensures |p| == |g|
  {
    seq(|g|, n requires 0 <= n < |g| => g[n] + c[n])
  }

  /** What the shape and the depths say of the father u and his two sons. */
  lemma PairFacts(bits: seq<nat>, s: seq<nat>, f: seq<nat>, elems: nat, leaves: set<nat>, max: nat, u: nat)
    requires Shape(s, f, elems, leaves) && Depths(bits, s, elems, max) && elems <= u < |f|
    ensures |bits| == |f| && Below(s, |f|) && u in s && 2 * (u - elems) + 1 < |s|
    ensures var l, r := s[2 * (u - elems)], s[2 * (u - elems) + 1];
            && l in s && r in s && f[u] == f[l] + f[r]
            && bits[l] == Min(bits[u] + 1, max) && bits[r] == Min(bits[u] + 1, max)
  {
    hide Distinct, Sorted, ZeroOutside;
    ShapeMember(s, f, elems, leaves, u);
    assert Father(s, f, elems, u);
    assert SonsDeeper(bits, s, elems, max, u);
  }

  /** Two sons take their father's space, plus one unit when the father is at the greatest depth. */
  lemma PairSpace(bits: seq<nat>, s: seq<nat>, f: seq<nat>, elems: nat, leaves: set<nat>, max: nat, u: nat)
    requires Shape(s, f, elems, leaves) && Depths(bits, s, elems, max) && elems <= u < |f|
    requires forall n | 0 <= n < |bits| :: bits[n] <= max
    ensures var g := Space(bits, s, max);
            |bits| == |f| && Below(s, |g|) && PairIs(s, g, Plus(g, AtMax(bits, max)), elems, u)
  {
    hide Shape, Depths;
    PairFacts(bits, s, f, elems, leaves, max, u);
    if bits[u] < max {
      assert Pow2(max - bits[u]) == 2 * Pow2(max - (bits[u] + 1));
    } else {
      assert Pow2(0) == 1;
    }
  }

  /** The leaves take 2^max units, plus one for every inner node at the greatest depth. */
  lemma LeafSpace(bits: seq<nat>, s: seq<nat>, f: seq<nat>, elems: nat, leaves: set<nat>, max: nat)
    requires Shape(s, f, elems, leaves) && Depths(bits, s, elems, max)
    requires forall n | 0 <= n < |bits| :: bits[n] <= max
    ensures elems <= |bits|
    ensures Sum(Space(bits, s, max), 0, elems) == Pow2(max) + Sum(AtMax(bits, max), elems, |bits|)
  {
    hide Space, AtMax, Pow2;
    var g, c, k := Space(bits, s, max), AtMax(bits, max), |f| - elems;
    var p := Plus(g, c);
    ShapeDistinct(s, f, elems, leaves);
    forall u | elems <= u < elems + k
      ensures PairIs(s, g, p, elems, u)
    {
      PairSpace(bits, s, f, elems, leaves, max, u);
    }
    SumFromPairs(s, g, p, elems, 0, k);
    SumAdd(g, c, p, elems, |bits|);
    LastTerm(s, g);
    SpaceOutside(bits, s, max);
    SumFromAll(s, g, 0);
    SumSplit(g, 0, elems, |bits|);
  }

  lemma SpaceOutside(bits: seq<nat>, s: seq<nat>, max: nat)
    requires forall n | 0 <= n < |bits| :: bits[n] <= max
    requires |s| >= 1 && Below(s, |bits|) && bits[s[|s| - 1]] == 0
    ensures forall n | 0 <= n < |bits| && Space(bits, s, max)[n] != 0 :: n in s[0..]
    ensures Space(bits, s, max)[s[|s| - 1]] == Pow2(max)
  {
    assert s[0..] == s;
  }

  lemma ShapeDistinct(s: seq<nat>, f: seq<nat>, elems: nat, leaves: set<nat>)
    requires Shape(s, f, elems, leaves)
    ensures Distinct(s) && |s| == 2 * (|f| - elems) + 1 && s[|s| - 1] == |f| - 1
    ensures Below(s, |f|)
  {
  }

  lemma LastTerm(s: seq<nat>, g: seq<int>)
    requires Below(s, |g|) && |s| >= 1
    ensures SumFrom(s, g, |s| - 1) == g[s[|s| - 1]]
  {
    assert SumFrom(s, g, |s|) == 0;
  }

  // ---------- cost ----------

  /** Frequency times depth. */
  ghost function Cost(f: seq<nat>, bits: seq<nat>): (g: seq<int>)
    requires |f| == |bits|
    ensures |g| == |f|
  {
    seq(|f|, n requires 0 <= n < |f| => f[n] * bits[n])
  }

  /** While nothing is cut off, the leaves cost what all the inner nodes weigh. */
  lemma LeafCost(bits: seq<nat>, s: seq<nat>, f: seq<nat>, elems: nat, leaves: set<nat>, max: nat)
    requires Shape(s, f, elems, leaves) && Depths(bits, s, elems, max) && |f| == |bits|
    requires forall u | elems <= u < |bits| :: bits[u] < max
    requires forall n | 0 <= n < elems && n !in s :: f[n] == 0
    ensures Sum(Cost(f, bits), 0, elems) == Sum(f, elems, |f|)
  {
    hide Shape, Depths, Cost, Plus, PairIs, Distinct;
    var g, k := Cost(f, bits), |f| - elems;
    var p := Plus(g, f);
    ShapeDistinct(s, f, elems, leaves);
    RootDepth(bits, s, elems, max);
    CostOutside(bits, s, f, elems, leaves);
    forall u | elems <= u < elems + k
      ensures PairIs(s, g, p, elems, u)
    {
      PairCost(bits, s, f, elems, leaves, max, u);
    }
    SumFromPairs(s, g, p, elems, 0, k);
    PlusIs(g, f);
    SumAdd(g, f, p, elems, |bits|);
    LastTerm(s, g);
    SumFromAll(s, g, 0);
    SumSplit(g, 0, elems, |bits|);
  }

  lemma PlusIs(g: seq<int>, f: seq<nat>)
    requires |g| == |f|
    ensures forall n | 0 <= n < |g| :: Plus(g, f)[n] == g[n] + f[n]
  {
  }

  lemma RootDepth(bits: seq<nat>, s: seq<nat>, elems: nat, max: nat)
    requires Depths(bits, s, elems, max)
    ensures |s| >= 1 && Below(s, |bits|) && bits[s[|s| - 1]] == 0
  {
  }

  lemma CostOutside(bits: seq<nat>, s: seq<nat>, f: seq<nat>, elems: nat, leaves: set<nat>)
    requires Shape(s, f, elems, leaves) && |f| == |bits| && bits[s[|s| - 1]] == 0
    requires forall n | 0 <= n < elems && n !in s :: f[n] == 0
    ensures forall n | 0 <= n < |bits| && Cost(f, bits)[n] != 0 :: n in s[0..]
    ensures Cost(f, bits)[s[|s| - 1]] == 0
  {
    assert s[0..] == s;
    forall n | 0 <= n < |bits| && Cost(f, bits)[n] != 0
      ensures n in s
    {
      ShapeMember(s, f, elems, leaves, n);
    }
  }

  lemma PairCost(bits: seq<nat>, s: seq<nat>, f: seq<nat>, elems: nat, leaves: set<nat>, max: nat, u: nat)
    requires Shape(s, f, elems, leaves) && Depths(bits, s, elems, max) && elems <= u < |f| == |bits|
    requires bits[u] < max
    ensures var g := Cost(f, bits);
            Below(s, |g|) && PairIs(s, g, Plus(g, f), elems, u)
  {
    hide Shape, Depths;
    PairFacts(bits, s, f, elems, leaves, max, u);
    Distribute(f[s[2 * (u - elems)]], f[s[2 * (u - elems) + 1]], bits[u]);
  }

  lemma Distribute(a: nat, b: nat, d: nat)
    ensures a * (d + 1) + b * (d + 1) == (a + b) * d + (a + b)
  {
  }
}
