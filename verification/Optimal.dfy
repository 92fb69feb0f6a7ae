/** Why the merge tree is the best one: no assignment of lengths that leaves room for all the
    symbols costs less. */
module Optimal {
  import opened Bits
  import opened Sums
  import opened Canonical
  import opened HuffmanShape
  import opened LengthCounts
  import opened BuildSteps

  /** Space that the leaves take at 2^(m - length) each. */
  ghost function Room(l: seq<nat>, leaves: set<nat>, m: nat): (g: seq<int>)
    ensures |g| == |l|
  {
    seq(|l|, n requires 0 <= n < |l| => if n in leaves && l[n] <= m then Pow2(m - l[n]) else 0)
  }

  /** What the leaves cost. */
  ghost function Charge(f: seq<nat>, l: seq<nat>, leaves: set<nat>): (g: seq<int>)
    requires |f| == |l|
    ensures |g| == |f|
  {
    seq(|f|, n requires 0 <= n < |f| => if n in leaves then f[n] * l[n] else 0)
  }

  ghost function Spend(f: seq<nat>, l: seq<nat>, leaves: set<nat>): int
    requires |f| == |l|
  {
    Sum(Charge(f, l, leaves), 0, |f|)
  }

  /** The lengths are at most m and satisfy Kraft's inequality. */
  ghost predicate Roomy(l: seq<nat>, leaves: set<nat>, m: nat)
  {
    && (forall n: nat | n in leaves :: n < |l| && l[n] <= m)
    && Sum(Room(l, leaves, m), 0, |l|) <= Pow2(m)
  }

  // ---------- changing one length ----------

  lemma RoomUpdate(l: seq<nat>, leaves: set<nat>, m: nat, n: nat, v: nat)
    requires n < |l| && n in leaves && l[n] <= m && v <= m
    ensures Sum(Room(l[n := v], leaves, m), 0, |l|) == Sum(Room(l, leaves, m), 0, |l|) - Pow2(m - l[n]) + Pow2(m - v)
  {
    hide Pow2, Sum, Room;
    var g, k := Room(l, leaves, m), l[n := v];
    forall i | 0 <= i < |l|
      ensures Room(k, leaves, m)[i] == g[n := Pow2(m - v)][i]
    {
      RoomAt(l, leaves, m, i);
      RoomAt(k, leaves, m, i);
    }
    assert Room(k, leaves, m) == g[n := Pow2(m - v)];
    RoomAt(l, leaves, m, n);
    SumUpdate(g, n, Pow2(m - v), 0, |l|);
  }

  lemma RoomAt(l: seq<nat>, leaves: set<nat>, m: nat, n: nat)
    requires n < |l|
    ensures Room(l, leaves, m)[n] == if n in leaves && l[n] <= m then Pow2(m - l[n]) else 0
  {
  }

  lemma SpendUpdate(f: seq<nat>, l: seq<nat>, leaves: set<nat>, n: nat, v: nat)
    requires |f| == |l| && n < |l| && n in leaves
    ensures Spend(f, l[n := v], leaves) == Spend(f, l, leaves) - f[n] * l[n] + f[n] * v
  {
    var g := Charge(f, l, leaves);
    assert Charge(f, l[n := v], leaves) == g[n := f[n] * v];
    SumUpdate(g, n, f[n] * v, 0, |l|);
  }

  /** Exchanging the lengths of two leaves, the longer one going to the rarer symbol. */
  lemma Exchange(f: seq<nat>, l: seq<nat>, leaves: set<nat>, m: nat, a: nat, x: nat) returns (k: seq<nat>)
    requires |f| == |l| && Roomy(l, leaves, m) && a in leaves && x in leaves
    requires f[a] <= f[x] && l[a] <= l[x]
    ensures |k| == |l| && Roomy(k, leaves, m) && Spend(f, k, leaves) <= Spend(f, l, leaves)
    ensures k == l[a := l[x]][x := l[a]]
  {
    hide Pow2, Sum, Room, Charge, Spend;
    k := l[a := l[x]][x := l[a]];
    if a != x {
      RoomUpdate(l, leaves, m, a, l[x]);
      RoomUpdate(l[a := l[x]], leaves, m, x, l[a]);
      SpendUpdate(f, l, leaves, a, l[x]);
      SpendUpdate(f, l[a := l[x]], leaves, x, l[a]);
      Crossing(f[a], f[x], l[a], l[x]);
    } else {
      assert k == l;
    }
  }

  lemma Crossing(fa: nat, fx: nat, la: nat, lx: nat)
    requires fa <= fx && la <= lx
    ensures fa * lx + fx * la <= fa * la + fx * lx
  {
    assert (fx - fa) * (lx - la) >= 0;
  }

  // ---------- two leaves at the greatest length ----------

  /** Without a leaf at length m the space at m is twice that at m - 1. */
  lemma RoomHalved(l: seq<nat>, leaves: set<nat>, m: nat)
    requires m >= 1 && Roomy(l, leaves, m) && forall n: nat | n in leaves :: l[n] < m
    ensures Roomy(l, leaves, m - 1)
  {
    var g, h := Room(l, leaves, m), Room(l, leaves, m - 1);
    forall n | 0 <= n < |l|
      ensures g[n] == h[n] + h[n]
    {
      if n in leaves { assert Pow2(m - l[n]) == 2 * Pow2(m - 1 - l[n]); }
    }
    SumAdd(h, h, g, 0, |l|);
    assert Pow2(m) == 2 * Pow2(m - 1);
  }

  /** A single leaf at the greatest length can be one bit shorter. */
  lemma SingleShortened(f: seq<nat>, l: seq<nat>, leaves: set<nat>, m: nat, x: nat) returns (k: seq<nat>)
    requires |f| == |l| && m >= 1 && Roomy(l, leaves, m) && x in leaves && l[x] == m
    requires forall n: nat | n in leaves && n != x :: l[n] < m
    ensures |k| == |l| && Roomy(k, leaves, m - 1) && Spend(f, k, leaves) <= Spend(f, l, leaves)
    ensures forall n | 0 <= n < |l| :: k[n] <= l[n]
  {
    hide Room, Charge, Spend, Sum;
    k := l[x := m - 1];
    SpendUpdate(f, l, leaves, x, m - 1);
    Shorter(f[x], m);
    OddRoom(l, leaves, m, x);
    assert Pow2(m - m) == 1 && Pow2(m - (m - 1)) == 2;
    RoomUpdate(l, leaves, m, x, m - 1);
    RoomHalved(k, leaves, m);
  }

  /** With one leaf at the greatest length the space taken is odd, so one unit is free. */
  lemma OddRoom(l: seq<nat>, leaves: set<nat>, m: nat, x: nat)
    requires m >= 1 && Roomy(l, leaves, m) && x in leaves && l[x] == m
    requires forall n: nat | n in leaves && n != x :: l[n] < m
    ensures Sum(Room(l, leaves, m), 0, |l|) + 1 <= Pow2(m)
  {
    hide Sum, Room, Pow2;
    var g := Room(l, leaves, m);
    var e := g[x := 0];
    RoomAt(l, leaves, m, x);
    Pow2Values();
    forall n | 0 <= n < |e|
      ensures e[n] % 2 == 0
    {
      RoomAt(l, leaves, m, n);
      if n in leaves && n != x { PowerEven(m - l[n]); }
    }
    PowerEven(m);
    SumUpdate(g, x, 0, 0, |l|);
    SumEven(e, |e|);
  }

  lemma PowerEven(n: nat)
    requires n >= 1
    ensures Pow2(n) % 2 == 0
  {
  }

  lemma {:induction false} SumEven(g: seq<int>, hi: nat)
    requires hi <= |g| && forall n | 0 <= n < |g| :: g[n] % 2 == 0
    ensures Sum(g, 0, hi) % 2 == 0
  {
    if hi > 0 { SumEven(g, hi - 1); }
  }

  lemma Shorter(f: nat, m: nat)
    requires m >= 1
    ensures f * (m - 1) <= f * m
  {
  }

  /** Lengths no worse than the given ones with two leaves at the greatest length. */
  lemma {:induction false} TwoDeepest(f: seq<nat>, l: seq<nat>, leaves: set<nat>, m: nat, a: nat, b: nat)
    returns (k: seq<nat>, d: nat, x: nat, y: nat)
    requires |f| == |l| && Roomy(l, leaves, m) && a in leaves && b in leaves && a != b
    ensures |k| == |l| && Roomy(k, leaves, d) && Spend(f, k, leaves) <= Spend(f, l, leaves)
    ensures x in leaves && y in leaves && x != y && k[x] == d && k[y] == d
    ensures forall n | 0 <= n < |l| :: k[n] <= l[n]
    decreases m
  {
    hide Sum, Room, Charge, Spend, Pow2;
    if z, w: nat :| z in leaves && w in leaves && z != w && l[z] == m && l[w] == m {
      k, d, x, y := l, m, z, w;
    } else if z: nat :| z in leaves && l[z] == m {
      var l1 := SingleShortened(f, l, leaves, m, z);
      k, d, x, y := TwoDeepest(f, l1, leaves, m - 1, a, b);
    } else {
      RoomHalved(l, leaves, m);
      k, d, x, y := TwoDeepest(f, l, leaves, m - 1, a, b);
    }
  }

  /** ... and the two rarest symbols there. */
  lemma RarestDeepest(f: seq<nat>, l: seq<nat>, leaves: set<nat>, m: nat, a: nat, b: nat)
    returns (k: seq<nat>, d: nat)
    requires |f| == |l| && Roomy(l, leaves, m) && a in leaves && b in leaves && a != b
    requires forall n: nat | n in leaves :: n < |f| && f[a] <= f[n] && (n != a ==> f[b] <= f[n])
    ensures |k| == |l| && Roomy(k, leaves, d) && Spend(f, k, leaves) <= Spend(f, l, leaves)
    ensures k[a] == d && k[b] == d
  {
    var l1, d1, x, y := TwoDeepest(f, l, leaves, m, a, b);
    d := d1;
    // y is to be the one that is not a
    if y == a { x, y := y, x; }
    var l2 := Exchange(f, l1, leaves, d, a, x);
    assert l2[a] == d;
    assert l2[y] == d;
    k := Exchange(f, l2, leaves, d, b, y);
  }

  // ---------- the theorem ----------

  /** Joining the two rarest symbols into one whose length is one less. */
  lemma JoinLeaves(f: seq<nat>, k: seq<nat>, leaves: set<nat>, d: nat, a: nat, b: nat, u: nat) returns (j: seq<nat>)
    requires |f| == |k| && Roomy(k, leaves, d) && a in leaves && b in leaves && a != b && k[a] == d && k[b] == d
    requires u < |f| && u !in leaves && f[u] == f[a] + f[b] && d >= 1
    ensures |j| == |f| && Roomy(j, leaves - {a, b} + {u}, d)
    ensures Spend(f, j, leaves - {a, b} + {u}) == Spend(f, k, leaves) - f[u] && j == k[u := d - 1]
  {
    hide Room, Charge;
    hide Sum;
    j := k[u := d - 1];
    var rest := leaves - {a, b} + {u};
    var g, c := Room(k, leaves, d), Charge(f, k, leaves);
    RoomJoin(k, leaves, d, a, b, u);
    ChargeJoin(f, k, leaves, d, a, b, u);
    ThreeUpdates(g, a, b, u, 2);
    ThreeUpdates(c, a, b, u, f[u] * (d - 1));
    Joined(f[a], f[b], d);
  }

  lemma RoomJoin(k: seq<nat>, leaves: set<nat>, d: nat, a: nat, b: nat, u: nat)
    requires a < |k| && b < |k| && a in leaves && b in leaves && a != b && k[a] == d && k[b] == d
    requires u < |k| && u !in leaves && d >= 1
    ensures var g := Room(k, leaves, d);
            g[a] == 1 && g[b] == 1 && g[u] == 0
            && Room(k[u := d - 1], leaves - {a, b} + {u}, d) == g[a := 0][b := 0][u := 2]
  {
    hide Pow2;
    Pow2Values();
    var g, j, rest := Room(k, leaves, d), k[u := d - 1], leaves - {a, b} + {u};
    var r := g[a := 0][b := 0][u := 2];
    forall i | 0 <= i < |k|
      ensures Room(j, rest, d)[i] == r[i]
    {
      if i == u {
      } else if i == a || i == b {
      } else {
        assert i in rest <==> i in leaves;
      }
    }
    assert Room(j, rest, d) == r;
  }

  lemma ChargeJoin(f: seq<nat>, k: seq<nat>, leaves: set<nat>, d: nat, a: nat, b: nat, u: nat)
    requires |f| == |k| && a < |k| && b < |k| && a in leaves && b in leaves && a != b && k[a] == d && k[b] == d
    requires u < |k| && u !in leaves && d >= 1
    ensures var c := Charge(f, k, leaves);
            c[a] == f[a] * d && c[b] == f[b] * d && c[u] == 0
            && Charge(f, k[u := d - 1], leaves - {a, b} + {u}) == c[a := 0][b := 0][u := f[u] * (d - 1)]
  {
  }

  lemma Joined(x: nat, y: nat, d: nat)
    requires d >= 1
    ensures (x + y) * (d - 1) == x * d + y * d - (x + y)
  {
  }

  lemma ThreeUpdates(g: seq<int>, a: nat, b: nat, u: nat, v: int)
    requires a < |g| && b < |g| && u < |g| && a != b && a != u && b != u && g[u] == 0
    ensures Sum(g[a := 0][b := 0][u := v], 0, |g|) == Sum(g, 0, |g|) - g[a] - g[b] + v
  {
    var g1 := g[a := 0];
    var g2 := g1[b := 0];
    SumUpdate(g, a, 0, 0, |g|);
    SumUpdate(g1, b, 0, 0, |g|);
    SumUpdate(g2, u, v, 0, |g|);
  }

  /** Two leaves cannot both have the empty codeword. */
  lemma TwoNeedRoom(k: seq<nat>, leaves: set<nat>, d: nat, a: nat, b: nat)
    requires Roomy(k, leaves, d) && a in leaves && b in leaves && a != b && k[a] == d && k[b] == d
    ensures d >= 1
  {
    var g := Room(k, leaves, d);
    assert Pow2(0) == 1;
    SumAtLeast(g, a, b, |k|);
  }

  /** The rest of the tree, with the first inner node as a leaf. */
  lemma ShapeTail(s: seq<nat>, f: seq<nat>, elems: nat, leaves: set<nat>)
    requires Shape(s, f, elems, leaves) && elems + 1 < |f| && forall n | n in leaves :: n < elems
    ensures |s| >= 3 && s[0] in leaves && s[1] in leaves && s[0] != s[1] && f[elems] == f[s[0]] + f[s[1]]
    ensures Shape(s[2..], f, elems + 1, leaves - {s[0], s[1]} + {elems})
    ensures forall n | n in leaves :: f[s[0]] <= f[n] && (n != s[0] ==> f[s[1]] <= f[n])
  {
    hide Holds, Sorted, Distinct, Father;
    FirstTwo(s, f, elems, leaves);
    TailHolds(s, f, elems, leaves);
    TailFathers(s, f, elems, leaves, s[2..], elems + 1);
    AllRarer(s, f, elems, leaves);
  }

  lemma FirstTwo(s: seq<nat>, f: seq<nat>, elems: nat, leaves: set<nat>)
    requires Shape(s, f, elems, leaves) && elems + 1 < |f| && forall n | n in leaves :: n < elems
    ensures |s| >= 3 && s[0] in leaves && s[1] in leaves && s[0] != s[1] && f[elems] == f[s[0]] + f[s[1]]
  {
    assert Father(s, f, elems, elems);
    ShapeMember(s, f, elems, leaves, s[0]);
    ShapeMember(s, f, elems, leaves, s[1]);
  }

  lemma TailFathers(s: seq<nat>, f: seq<nat>, elems: nat, leaves: set<nat>, t: seq<nat>, e1: nat)
    requires Shape(s, f, elems, leaves) && elems + 1 < |f| && |s| >= 3 && t == s[2..] && Below(t, |f|)
    requires e1 == elems + 1
    ensures forall u | e1 <= u < |f| :: Father(t, f, e1, u)
  {
    hide Holds, Sorted, Distinct;
    forall u | e1 <= u < |f|
      ensures Father(t, f, e1, u)
    {
      assert Father(s, f, elems, u);
      assert t[2 * (u - e1)] == s[2 * (u - elems)] && t[2 * (u - e1) + 1] == s[2 * (u - elems) + 1];
    }
  }

  lemma AllRarer(s: seq<nat>, f: seq<nat>, elems: nat, leaves: set<nat>)
    requires Shape(s, f, elems, leaves) && elems + 1 < |f| && |s| >= 3 && Below(s, |f|)
    requires forall n | n in leaves :: n < elems
    ensures forall n | n in leaves :: n < |f| && f[s[0]] <= f[n] && (n != s[0] ==> f[s[1]] <= f[n])
  {
    hide Shape;
    forall n | n in leaves
      ensures f[s[0]] <= f[n] && (n != s[0] ==> f[s[1]] <= f[n])
    {
      RareFirst(s, f, elems, leaves, n);
    }
  }

  lemma TailHolds(s: seq<nat>, f: seq<nat>, elems: nat, leaves: set<nat>)
    requires Shape(s, f, elems, leaves) && elems + 1 < |f| && |s| >= 3 && s[0] != s[1] && s[0] < elems && s[1] < elems
    ensures Holds(s[2..], elems + 1, leaves - {s[0], s[1]} + {elems}, |f|)
    ensures Below(s[2..], |f|) && Distinct(s[2..]) && Sorted(s[2..], f)
  {
    var t, rest := s[2..], leaves - {s[0], s[1]} + {elems};
    forall x: nat | x < |f|
      ensures x in t <==> x in rest || x >= elems + 1
    {
      ShapeMember(s, f, elems, leaves, x);
      if x in s {
        var i :| 0 <= i < |s| && s[i] == x;
        if i >= 2 { assert t[i - 2] == x; }
      }
    }
    forall i | 1 <= i < |t|
      ensures f[t[i - 1]] <= f[t[i]]
    {
      assert t[i - 1] == s[i + 1] && t[i] == s[i + 2];
    }
  }

  lemma {:induction false} SortedFrom(s: seq<nat>, f: seq<nat>, i: nat, j: nat)
    requires Below(s, |f|) && Sorted(s, f) && i <= j < |s|
    ensures f[s[i]] <= f[s[j]]
    decreases j
  {
    if i < j { SortedFrom(s, f, i, j - 1); }
  }

  lemma RareFirst(s: seq<nat>, f: seq<nat>, elems: nat, leaves: set<nat>, n: nat)
    requires Shape(s, f, elems, leaves) && n in leaves && n < elems && |s| >= 2
    ensures f[s[0]] <= f[n] && (n != s[0] ==> f[s[1]] <= f[n])
  {
    ShapeMember(s, f, elems, leaves, n);
    var j :| 0 <= j < |s| && s[j] == n;
    SortedFrom(s, f, 0, j);
    if j >= 1 { SortedFrom(s, f, 1, j); }
  }

  /** Huffman's theorem: whatever lengths leave room for all the leaves, they cost at least as
      much as all the inner nodes of the merge tree weigh. */
  lemma {:induction false} MergeTreeBest(s: seq<nat>, f: seq<nat>, elems: nat, leaves: set<nat>, l: seq<nat>, m: nat)
    requires Shape(s, f, elems, leaves) && |l| == |f| && Roomy(l, leaves, m) && forall n | n in leaves :: n < elems
    ensures Spend(f, l, leaves) >= Sum(f, elems, |f|)
    decreases |f| - elems
  {
    hide Sum, Spend, Roomy;
    FirstPair(s, f, elems, leaves);
    var a, b := s[0], s[1];
    assert Roomy(l, leaves, m);
    var k, d := RarestDeepest(f, l, leaves, m, a, b);
    TwoNeedRoom(k, leaves, d, a, b);
    var j := JoinLeaves(f, k, leaves, d, a, b, elems);
    SumSplit(f, elems, elems + 1, |f|);
    SumOne(f, elems);
    if elems + 1 < |f| {
      ShapeTail(s, f, elems, leaves);
      MergeTreeBest(s[2..], f, elems + 1, leaves - {a, b} + {elems}, j, d);
    } else {
      SpendNonNegative(f, j, leaves - {a, b} + {elems});
      SumNone(f, elems + 1);
    }
  }

  lemma FirstPair(s: seq<nat>, f: seq<nat>, elems: nat, leaves: set<nat>)
    requires Shape(s, f, elems, leaves) && forall n | n in leaves :: n < elems
    ensures |s| >= 3 && s[0] in leaves && s[1] in leaves && s[0] != s[1] && elems < |f| && f[elems] == f[s[0]] + f[s[1]]
    ensures forall n | n in leaves :: n < |f| && f[s[0]] <= f[n] && (n != s[0] ==> f[s[1]] <= f[n])
  {
    assert Father(s, f, elems, elems);
    ShapeMember(s, f, elems, leaves, s[0]);
    ShapeMember(s, f, elems, leaves, s[1]);
    forall n | n in leaves
      ensures f[s[0]] <= f[n] && (n != s[0] ==> f[s[1]] <= f[n])
    {
      RareFirst(s, f, elems, leaves, n);
    }
  }

  lemma SumOne(f: seq<int>, i: nat)
    requires i < |f|
    ensures Sum(f, i, i + 1) == f[i]
  {
    assert Sum(f, i, i) == 0;
  }

  lemma SumNone(f: seq<int>, i: nat)
    requires i <= |f|
    ensures Sum(f, i, i) == 0
  {
  }

  lemma SpendNonNegative(f: seq<nat>, l: seq<nat>, leaves: set<nat>)
    requires |f| == |l|
    ensures Spend(f, l, leaves) >= 0
  {
    SumIsNonNegative(Charge(f, l, leaves), |f|);
  }

  // ---------- in terms of codes ----------

  /** Lengths with which every symbol that occurs can have a codeword of at most m bits,
      none beginning another: they satisfy Kraft's inequality. */
  ghost predicate Encodes(f: seq<nat>, lens: seq<nat>, m: nat)
  {
    && |lens| == |f| && (forall n | 0 <= n < |f| :: lens[n] <= m && (f[n] > 0 ==> lens[n] >= 1))
    && KraftSum(lens, m) <= Pow2(m)
  }

  /** No such lengths cost less. */
  ghost predicate Cheapest(f: seq<nat>, lens: seq<nat>)
  {
    && |lens| == |f|
    && forall other: seq<nat>, m: nat :: Encodes(f, other, m) ==>
         |other| == |f| && Sum(Cost(f, lens), 0, |f|) <= Sum(Cost(f, other), 0, |f|)
  }

  /** The lengths of the symbols, with nothing for the inner nodes. */
  ghost function Extended(l: seq<nat>, n: nat): (e: seq<nat>)
    requires |l| <= n
    ensures |e| == n
  {
    l + seq(n - |l|, i => 0)
  }

  lemma {:induction false} RoomBelowKraft(l: seq<nat>, e: seq<nat>, leaves: set<nat>, m: nat, n: nat)
    requires n <= |l| <= |e| && (forall i | 0 <= i < |l| :: e[i] == l[i] <= m) && forall i: nat | i in leaves
             && i < |l| :: l[i] >= 1
    ensures Sum(Room(e, leaves, m), 0, n) <= KraftSum(l[..n], m)
    decreases n
  {
    hide KraftSum, Pow2, Room;
    if n > 0 {
      RoomBelowKraft(l, e, leaves, m, n - 1);
      assert l[..n] == l[..n - 1] + [l[n - 1]];
      KraftSumPush(l[..n - 1], l[n - 1], m);
      RoomOfOne(e, leaves, m, n - 1);
    }
  }

  lemma RoomOfOne(e: seq<nat>, leaves: set<nat>, m: nat, n: nat)
    requires n < |e| && (n in leaves ==> e[n] >= 1)
    ensures Room(e, leaves, m)[n] <= if 1 <= e[n] <= m then Pow2(m - e[n]) else 0
  {
  }

  /** The lengths of an uncut merge tree are the cheapest. */
  lemma TreeCheapest(s: seq<nat>, f: seq<nat>, elems: nat, leaves: set<nat>, lens: seq<nat>)
    requires Shape(s, f, elems, leaves) && |lens| == elems <= |f|
    requires forall n: nat | n in leaves :: n < elems && f[n] > 0
    requires forall n: nat | n < elems && n !in leaves :: f[n] == 0
    requires Sum(Cost(f[..elems], lens), 0, elems) == Sum(f, elems, |f|)
    ensures Cheapest(f[..elems], lens)
  {
    forall other: seq<nat>, m: nat | Encodes(f[..elems], other, m)
      ensures |other| == elems && Sum(Cost(f[..elems], lens), 0, elems) <= Sum(Cost(f[..elems], other), 0, elems)
    {
      OtherCostsMore(s, f, elems, leaves, other, m);
    }
  }

  lemma OtherCostsMore(s: seq<nat>, f: seq<nat>, elems: nat, leaves: set<nat>, other: seq<nat>, m: nat)
    requires Shape(s, f, elems, leaves) && elems <= |f| && Encodes(f[..elems], other, m)
    requires forall n: nat | n in leaves :: n < elems && f[n] > 0
    requires forall n: nat | n < elems && n !in leaves :: f[n] == 0
    ensures |other| == elems && Sum(f, elems, |f|) <= Sum(Cost(f[..elems], other), 0, elems)
  {
    hide Shape, KraftSum, Pow2, Sum, Charge, Cost, Room;
    var e := Extended(other, |f|);
    ExtendedRoomy(f[..elems], other, leaves, m, |f|);
    MergeTreeBest(s, f, elems, leaves, e, m);
    ExtendedSpend(f, other, leaves, elems);
  }

  lemma ExtendedRoomy(f: seq<nat>, other: seq<nat>, leaves: set<nat>, m: nat, n: nat)
    requires Encodes(f, other, m) && |f| <= n && forall i: nat | i in leaves :: i < |f| && f[i] > 0
    ensures Roomy(Extended(other, n), leaves, m)
  {
    hide KraftSum, Pow2, Sum;
    var e := Extended(other, n);
    assert other[..|f|] == other;
    RoomBelowKraft(other, e, leaves, m, |f|);
    var g := Room(e, leaves, m);
    SumSplit(g, 0, |f|, |g|);
    SumZero(g, |f|, |g|);
  }

  lemma ExtendedSpend(f: seq<nat>, other: seq<nat>, leaves: set<nat>, elems: nat)
    requires |other| == elems <= |f| && forall n: nat | n in leaves :: n < elems
    requires forall n: nat | n < elems && n !in leaves :: f[n] == 0
    ensures Spend(f, Extended(other, |f|), leaves) == Sum(Cost(f[..elems], other), 0, elems)
  {
    hide Sum;
    var c, d := Charge(f, Extended(other, |f|), leaves), Cost(f[..elems], other);
    SumSplit(c, 0, elems, |c|);
    SumZero(c, elems, |c|);
    SumCongruence(c, d, 0, elems);
  }

  /** In the cheapest lengths a symbol that occurs less often has no shorter one: exchanging the two would save bits. */
  lemma CheapestRarer(f: seq<nat>, l: seq<nat>, m: nat, a: nat, b: nat)
    requires Cheapest(f, l) && Encodes(f, l, m) && a < |f| && b < |f| && 0 < f[a] < f[b]
    ensures l[a] >= l[b]
  {
    if l[a] < l[b] {
      var other := l[a := l[b]][b := l[a]];
      SwapKraft(l, a, b, m);
      SwapCost(f, l, a, b);
      assert Encodes(f, other, m);
      LessBits(f[a], f[b], l[a], l[b]);
      assert false;
    }
  }

  lemma LessBits(x: nat, y: nat, p: nat, q: nat)
    requires x < y && p < q
    ensures x * q + y * p < x * p + y * q
  {
    assert (y - x) * (q - p) > 0;
    assert (y - x) * (q - p) == y * q - y * p - x * q + x * p;
  }

  lemma {:induction false} SwapKraft(l: seq<nat>, a: nat, b: nat, m: nat)
    requires a < |l| && b < |l|
    ensures KraftSum(l[a := l[b]][b := l[a]], m) == KraftSum(l, m)
  {
    if m > 0 {
      SwapKraft(l, a, b, m - 1);
      CountLenUpdate(l, a, l[b], m);
      CountLenUpdate(l[a := l[b]], b, l[a], m);
    }
  }

  lemma SwapCost(f: seq<nat>, l: seq<nat>, a: nat, b: nat)
    requires |f| == |l| && a < |l| && b < |l| && a != b
    ensures Sum(Cost(f, l[a := l[b]][b := l[a]]), 0, |f|) ==
            Sum(Cost(f, l), 0, |f|) - f[a] * l[a] - f[b] * l[b] + f[a] * l[b] + f[b] * l[a]
  {
    hide Sum;
    var g := Cost(f, l);
    assert Cost(f, l[a := l[b]][b := l[a]]) == g[a := f[a] * l[b]][b := f[b] * l[a]];
    SumUpdate(g, a, f[a] * l[b], 0, |f|);
    SumUpdate(g[a := f[a] * l[b]], b, f[b] * l[a], 0, |f|);
  }
}
