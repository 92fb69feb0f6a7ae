/** How build_tree breaks ties: nodes of the same frequency leave the heap by the height of their trees. */
module TieBreak {
  import opened Bits
  import opened Sums
  import opened Heap
  import opened MergeTree
  import opened HuffmanShape
  import opened Shallow

  /** The least frequency that a tree of height h can have. */
  function Least(h: nat): (n: nat)
    ensures n >= 1
  {
    if h == 0 then 1 else if h == 1 then 2 else Least(h - 1) + Least(h - 2)
  }

  lemma {:induction false} LeastGrows(a: nat, b: nat)
    requires a <= b
    ensures Least(a) <= Least(b)
  {
    if a < b { LeastGrows(a, b - 1); }
  }

  /** Heights stay far below what a byte can hold. */
  lemma HeightBound(h: nat)
    requires Least(h) < 0x1_0000
    ensures h < 23
  {
    assert Least(6) == 21 && Least(7) == 34;
    assert Least(10) == 144 && Least(11) == 233;
    assert Least(14) == 987 && Least(15) == 1597;
    assert Least(18) == 6765 && Least(19) == 10946;
    assert Least(22) == 46368 && Least(23) == 75025;
    if h >= 23 { LeastGrows(23, h); }
  }

  function Key(t: seq<CtData>, d: seq<byte>, x: nat): nat
    requires x < |t| && x < |d|
  {
    t[x].fc * 0x100 + d[x]
  }

  /** One more than the greater of two heights. */
  function Deeper(a: nat, b: nat): nat
  {
    1 + if a >= b then a else b
  }

  /** Node u is one higher than the higher of his sons. */
  ghost predicate Higher(d: seq<byte>, rem: seq<nat>, elems: nat, u: nat)
    requires Below(rem, |d|)
  {
    elems <= u < |d| && 2 * (u - elems) + 1 < |rem| &&
    d[u] == Deeper(d[rem[2 * (u - elems)]], d[rem[2 * (u - elems) + 1]])
  }

  ghost predicate KeyOrder(t: seq<CtData>, d: seq<byte>, active: multiset<int>, rem: seq<nat>)
    requires Below(rem, |t|) && |t| <= |d|
  {
    && (forall i | 1 <= i < |rem| :: Key(t, d, rem[i - 1]) <= Key(t, d, rem[i]))
    && (forall x: int | x in active && rem != [] && 0 <= x < |t| :: Key(t, d, rem[|rem| - 1]) <= Key(t, d, x))
  }

  ghost predicate Heavy(t: seq<CtData>, d: seq<byte>, active: multiset<int>, rem: seq<nat>)
    requires |t| <= |d|
  {
    forall x: nat | x < |t| && (x in active || x in rem) :: Least(d[x]) <= t[x].fc
  }

  /** Between two merges: what is in depth, and that the order of removal respects it. */
  ghost predicate Ties(t: seq<CtData>, d: seq<byte>, active: multiset<int>, rem: seq<nat>, elems: nat, leaves: set<nat>)
  {
    && |t| <= |d| && Below(rem, |t|) && elems + |rem| / 2 <= |t|
    && (forall n: nat | n in leaves :: n < |t| && d[n] == 0)
    && (forall u | elems <= u < elems + |rem| / 2 :: Higher(d, rem, elems, u))
    && KeyOrder(t, d, active, rem) && Heavy(t, d, active, rem)
  }

  lemma KeyFreq(t: seq<CtData>, d: seq<byte>, x: nat, y: nat)
    requires x < |t| <= |d| && y < |t| && Key(t, d, x) <= Key(t, d, y)
    ensures t[x].fc <= t[y].fc
  {
  }

  lemma {:induction false} KeyChain(t: seq<CtData>, d: seq<byte>, active: multiset<int>, rem: seq<nat>, i: nat, j: nat)
    requires Below(rem, |t|) && |t| <= |d| && KeyOrder(t, d, active, rem) && i <= j < |rem|
    ensures Key(t, d, rem[i]) <= Key(t, d, rem[j])
    decreases j
  {
    hide Key;
    if i < j { KeyChain(t, d, active, rem, i, j - 1); }
  }

  /** What was removed is no more frequent than what is left. */
  lemma RemovedRarer(t: seq<CtData>, d: seq<byte>, active: multiset<int>, rem: seq<nat>, i: nat, x: nat)
    requires Below(rem, |t|) && |t| <= |d| && KeyOrder(t, d, active, rem) && i < |rem| && x in active && x < |t|
    ensures t[rem[i]].fc <= t[x].fc
  {
    hide Key;
    KeyChain(t, d, active, rem, i, |rem| - 1);
    KeyFreq(t, d, rem[i], x);
  }

  /** A father's tree is as heavy as its height asks for. */
  lemma HeavySum(t: seq<CtData>, d: seq<byte>, active: multiset<int>, rem: seq<nat>, elems: nat, leaves: set<nat>,
                 c: nat, o: nat)
    requires Ties(t, d, active, rem, elems, leaves) && c in active && o in active && c < |t| && o < |t|
    requires c in leaves || elems <= c < elems + |rem| / 2
    ensures Least(1 + d[c] as nat) <= t[c].fc + t[o].fc
  {
    hide KeyOrder;
    if d[c] == 0 {
      assert Least(d[o]) <= t[o].fc;
    } else {
      assert Higher(d, rem, elems, c);
      var i := 2 * (c - elems);
      var y := if d[rem[i]] >= d[rem[i + 1]] then i else i + 1;
      assert rem[y] in rem && d[rem[y]] == d[c] - 1;
      RemovedRarer(t, d, active, rem, y, o);
    }
  }

  /** The height of the new node. */
  lemma NewHeight(t: seq<CtData>, d: seq<byte>, active: multiset<int>, rem: seq<nat>, elems: nat, leaves: set<nat>,
                  n: nat, m: nat)
    returns (e: nat)
    requires Ties(t, d, active, rem, elems, leaves) && n in active && m in active && n < |t| && m < |t|
    requires n in leaves || elems <= n < elems + |rem| / 2
    requires m in leaves || elems <= m < elems + |rem| / 2
    requires t[n].fc + t[m].fc < 0x1_0000
    ensures e == Deeper(d[n], d[m]) < 23 && Least(e) <= t[n].fc + t[m].fc
  {
    hide Least, KeyOrder, Heavy;
    e := Deeper(d[n], d[m]);
    HeavySum(t, d, active, rem, elems, leaves, n, m);
    HeavySum(t, d, active, rem, elems, leaves, m, n);
    HeightBound(e);
  }

  lemma ActiveKind(active: multiset<int>, rem: seq<nat>, elems: nat, leaves: set<nat>, n: nat)
    requires Partition(active, rem, elems, leaves) && n in active
    ensures n in leaves || elems <= n < elems + |rem| / 2
  {
    assert active[n] + Occurs(rem, n) >= 1;
  }

  /** n and m come first in the order of keys. */
  ghost predicate FirstTwo(t: seq<CtData>, d: seq<byte>, active: multiset<int>, n: nat, m: nat)
    requires n < |t| <= |d| && m < |t|
  {
    && n in active && m in active && n != m && active[n] <= 1 && t[n].fc + t[m].fc < 0x1_0000
    && forall x: int | x in active && 0 <= x < |t| :: Key(t, d, n) <= Key(t, d, x)
                                                      && (x != n ==> Key(t, d, m) <= Key(t, d, x))
  }

  /** Only the height of the new node has changed. */
  ghost predicate NodeAdded(d: seq<byte>, d': seq<byte>, n: nat, m: nat, node: nat)
    requires n < |d| && m < |d|
  {
    && |d'| == |d| && node < |d| && (forall i | 0 <= i < |d| && i != node :: d'[i] == d[i])
    && d'[node] == Deeper(d[n], d[m]) % 0x100
  }

  /** One merge of the two first nodes in the order of keys. */
  lemma TiesStep(t: seq<CtData>, d: seq<byte>, d': seq<byte>, active: multiset<int>, rem: seq<nat>, elems: nat,
                 leaves: set<nat>,
                 n: nat, m: nat, node: nat)
    requires Ties(t, d, active, rem, elems, leaves) && Merging(t, active, rem, elems, leaves)
    requires node == elems + |rem| / 2
    requires n < node && m < node < |t| <= |d| && node < 0x1_0000 && FirstTwo(t, d, active, n, m)
    requires NodeAdded(d, d', n, m, node)
    ensures Ties(Merged(t, n, m, node), d', active - multiset{n, m} + multiset{node}, rem + [n, m], elems, leaves)
  {
    hide Merged, Least, Partition, Fathers, Ascending, Weighted;
    ActiveKind(active, rem, elems, leaves, n);
    ActiveKind(active, rem, elems, leaves, m);
    var e := NewHeight(t, d, active, rem, elems, leaves, n, m);
    RemBelow(t, active, rem, elems, leaves);
    MergedFields(t, n, m, node);
    var u := Merged(t, n, m, node);
    KeyOrderStep(t, u, d, d', active, rem, n, m, node);
    HeavyStep(t, u, d, d', active, rem, n, m, node);
    HigherStep(d, d', rem, elems, n, m);
  }

  lemma RemBelow(t: seq<CtData>, active: multiset<int>, rem: seq<nat>, elems: nat, leaves: set<nat>)
    requires Merging(t, active, rem, elems, leaves)
    ensures |rem| % 2 == 0 && (forall x: nat | x in leaves :: x < elems)
    ensures forall i | 0 <= i < |rem| :: rem[i] < elems + |rem| / 2
  {
    hide Ascending, Weighted;
  }

  lemma KeyOrderStep(t: seq<CtData>, u: seq<CtData>, d: seq<byte>, d': seq<byte>, active: multiset<int>, rem: seq<nat>,
                     n: nat, m: nat, node: nat)
    requires |u| == |t| <= |d| == |d'| && Below(rem, |t|) && KeyOrder(t, d, active, rem) && n < node && m < node < |t|
    requires n in active && m in active && n != m && active[n] <= 1 && t[n].fc >= 1 && u[node].fc == t[n].fc + t[m].fc
    requires forall x {:trigger u[x]} | 0 <= x < |t| && x != node :: u[x].fc == t[x].fc
    requires forall i | 0 <= i < |d| && i != node :: d'[i] == d[i]
    requires forall i | 0 <= i < |rem| :: rem[i] < node
    requires forall x: int | x in active && 0 <= x < |t| :: Key(t, d, n) <= Key(t, d, x)
                                                            && (x != n ==> Key(t, d, m) <= Key(t, d, x))
    ensures Below(rem + [n, m], |u|) && KeyOrder(u, d', active - multiset{n, m} + multiset{node}, rem + [n, m])
  {
    var a, r := active - multiset{n, m} + multiset{node}, rem + [n, m];
    forall x: nat | x < |t| && x != node
      ensures Key(u, d', x) == Key(t, d, x)
    {
      var y := u[x];
    }
    assert Key(u, d', node) >= Key(t, d, m);
    hide Key;
    forall x: int | x in a && 0 <= x < |u|
      ensures Key(u, d', m) <= Key(u, d', x)
    {
      assert x == node || (x in active && x != n);
    }
    forall i | 1 <= i < |r|
      ensures Key(u, d', r[i - 1]) <= Key(u, d', r[i])
    {
      assert r[i] < node && r[i - 1] < node;
    }
  }

  lemma HeavyStep(t: seq<CtData>, u: seq<CtData>, d: seq<byte>, d': seq<byte>, active: multiset<int>, rem: seq<nat>,
                  n: nat, m: nat, node: nat)
    requires |u| == |t| <= |d| == |d'| && Heavy(t, d, active, rem) && n < node && m < node < |t| && n in active
    requires m in active
    requires forall x {:trigger u[x]} | 0 <= x < |t| && x != node :: u[x].fc == t[x].fc
    requires forall i | 0 <= i < |d| && i != node :: d'[i] == d[i]
    requires Least(d'[node]) <= u[node].fc
    ensures Heavy(u, d', active - multiset{n, m} + multiset{node}, rem + [n, m])
  {
    hide Least;
    forall x: nat | x < |u| && (x in active - multiset{n, m} + multiset{node} || x in rem + [n, m])
      ensures Least(d'[x]) <= u[x].fc
    {
      if x != node { assert x in active || x in rem; }
    }
  }

  lemma HigherStep(d: seq<byte>, d': seq<byte>, rem: seq<nat>, elems: nat, n: nat, m: nat)
    requires |rem| % 2 == 0 && Below(rem, |d|) && |d'| == |d| && n < elems + |rem| / 2 < |d| && m < elems + |rem| / 2
    requires forall i | 0 <= i < |d| && i != elems + |rem| / 2 :: d'[i] == d[i]
    requires forall i | 0 <= i < |rem| :: rem[i] < elems + |rem| / 2
    requires forall u | elems <= u < elems + |rem| / 2 :: Higher(d, rem, elems, u)
    requires d'[elems + |rem| / 2] == Deeper(d[n], d[m])
    ensures Below(rem + [n, m], |d'|)
            && forall u | elems <= u <= elems + |rem| / 2 :: Higher(d', rem + [n, m], elems, u)
  {
    var r := rem + [n, m];
    forall u | elems <= u <= elems + |rem| / 2
      ensures Higher(d', r, elems, u)
    {
      if u < elems + |rem| / 2 {
        assert Higher(d, rem, elems, u);
        assert r[2 * (u - elems)] == rem[2 * (u - elems)] && r[2 * (u - elems) + 1] == rem[2 * (u - elems) + 1];
      }
    }
  }

  /** The heap that was just filled: all heights are 0. */
  lemma FirstTies(t: seq<CtData>, d: seq<byte>, active: multiset<int>, elems: nat, leaves: set<nat>)
    requires elems <= |t| <= |d| && forall n: nat | n in leaves :: n < elems && d[n] == 0 && t[n].fc >= 1
    requires forall x: int | x in active :: x >= 0 && x in leaves
    ensures Ties(t, d, active, [], elems, leaves)
  {
  }

  /** One node left: the order of removal is by frequency and height. */
  lemma TiesDone(t: seq<CtData>, d: seq<byte>, root: nat, rem: seq<nat>, elems: nat, leaves: set<nat>)
    returns (h: seq<nat>)
    requires Ties(t, d, multiset{root}, rem, elems, leaves) && root < |t| && |rem| % 2 == 0
    requires Below(rem + [root], elems + |rem| / 2)
    ensures Tied(rem + [root], Freqs(t, elems + |rem| / 2), elems, h) && |h| == elems + |rem| / 2
    ensures forall n: nat | n in leaves && n < |h| :: h[n] == 0
  {
    var s, f := rem + [root], Freqs(t, elems + |rem| / 2);
    h := seq(|f|, i requires 0 <= i < |f| => d[i]);
    forall u | elems <= u < |f|
      ensures Heights(s, elems, h, u)
    {
      assert Higher(d, rem, elems, u);
      assert s[2 * (u - elems)] == rem[2 * (u - elems)] && s[2 * (u - elems) + 1] == rem[2 * (u - elems) + 1];
    }
    forall i | 1 <= i < |s|
      ensures Before(f, h, s[i - 1], s[i])
    {
      assert Key(t, d, s[i - 1]) <= Key(t, d, s[i]);
    }
  }
}
