/** Sequence-level facts about the steps of build_tree: taking the least frequent node out of
    the heap, and putting the father of two nodes back in. */
module BuildSteps {
  import opened Bits
  import opened Sums
  import opened Heap
  import opened MergeTree
  import opened HuffmanShape
  import opened CutLengths

  /** The nodes in the heap. */
  ghost function Active(h: seq<ush>, len: nat): multiset<int>
    requires len < |h|
  {
    multiset(h[1..len + 1])
  }

  lemma SameActive(g: seq<ush>, h: seq<ush>, len: nat)
    requires len < |g| == |h| && multiset(g[1..len + 1]) == multiset(h[1..len + 1])
    ensures Active(g, len) == Active(h, len)
  {
    var a, b: multiset<int> := multiset(g[1..len + 1]), multiset(h[1..len + 1]);
  }

  lemma TailSame(g: seq<ush>, h: seq<ush>, len: nat)
    requires len < |g| == |h| && g[len + 1..] == h[len + 1..]
    ensures len + 2 <= |g| ==> g[len + 2..] == h[len + 2..]
  {
    if len + 2 <= |g| {
      assert g[len + 2..] == g[len + 1..][1..] && h[len + 2..] == h[len + 1..][1..];
    }
  }

  lemma ActiveMember(h: seq<ush>, len: nat, x: int)
    requires len < |h| && x in Active(h, len)
    ensures exists j :: 1 <= j <= len && h[j] == x
  {
    assert x in h[1..len + 1];
    var i :| 0 <= i < len && h[1..len + 1][i] == x;
    assert h[i + 1] == x;
  }

  lemma ActiveHas(h: seq<ush>, len: nat, j: nat)
    requires 1 <= j <= len < |h|
    ensures h[j] in Active(h, len)
  {
    assert h[1..len + 1][j - 1] == h[j];
  }

  /** The first node of a heap has the least frequency. */
  lemma FirstLeast(h: seq<ush>, tree: seq<CtData>, depth: seq<byte>, len: nat)
    requires |tree| <= |depth| && Nodes(h, len, |tree|) && len >= 1
    requires HeapFrom(h, Keys(tree, depth), 1, len)
    ensures h[1] < |tree|
    ensures forall x: int | x in Active(h, len) && 0 <= x < |tree| :: tree[h[1]].fc <= tree[x].fc
  {
    hide Active;
    forall x: int | x in Active(h, len) && 0 <= x < |tree|
      ensures tree[h[1]].fc <= tree[x].fc
    {
      ActiveMember(h, len, x);
      var j :| 1 <= j <= len && h[j] == x;
      RootSmallest(h, Keys(tree, depth), len, j);
    }
  }

  /** Taking out the first node and moving the last one to the front. */
  lemma TakeFirst(h: seq<ush>, g: seq<ush>, len: nat)
    requires 2 <= len < |h| && g == h[1 := h[len]]
    ensures Active(g, len - 1) == Active(h, len) - multiset{h[1] as int}
    ensures g[len + 1..] == h[len + 1..]
  {
    var a, mid := h[1..len + 1], h[2..len];
    assert a == [h[1]] + mid + [h[len]];
    assert multiset(a) == multiset{h[1]} + multiset(mid) + multiset{h[len]};
    assert g[1..len] == [h[len]] + mid;
    assert multiset(g[1..len]) == multiset{h[len]} + multiset(mid);
  }

  lemma TakeFirstHeap(h: seq<ush>, g: seq<ush>, key: seq<nat>, len: nat)
    requires 2 <= len < |h| && g == h[1 := h[len]] && Nodes(h, len, |key|) && HeapFrom(h, key, 1, len)
    ensures Nodes(g, len - 1, |key|) && HeapFrom(g, key, 2, len - 1)
  {
    forall j {:trigger g[j]} | 2 <= j <= len - 1 && 2 <= j / 2
      ensures key[g[j / 2]] <= key[g[j]]
    {
      var x := h[j];
    }
  }

  /** Replacing the first node, whose key may change, leaves the rest a heap. */
  lemma PutFirst(h: seq<ush>, g: seq<ush>, len: nat, node: ush)
    requires 1 <= len < |h| && |g| == |h| && forall j | 2 <= j <= len :: g[j] == h[j]
    requires g[1] == node
    ensures Active(g, len) == Active(h, len) - multiset{h[1] as int} + multiset{node as int}
  {
    var rest := h[2..len + 1];
    FirstAndRest(h, len);
    FirstAndRest(g, len);
    assert g[2..len + 1] == rest;
    assert multiset([h[1]] + rest) == multiset{h[1]} + multiset(rest);
    assert multiset([node] + rest) == multiset{node} + multiset(rest);
  }

  lemma FirstAndRest(h: seq<ush>, len: nat)
    requires 1 <= len < |h|
    ensures h[1..len + 1] == [h[1]] + h[2..len + 1]
  {
    var a := h[1..len + 1];
    assert a[0] == h[1] && a[1..] == h[2..len + 1];
    assert a == [a[0]] + a[1..];
  }

  lemma PutFirstHeap(h: seq<ush>, g: seq<ush>, key: seq<nat>, key': seq<nat>, len: nat, node: ush)
    requires 1 <= len < |h| && |g| == |h| && Nodes(h, len, |key|) && HeapFrom(h, key, 1, len)
    requires g[1] == node && forall j | 2 <= j <= len :: g[j] == h[j]
    requires |key'| == |key| && node < |key| && forall j | 2 <= j <= len :: h[j] != node
    requires forall n | 0 <= n < |key| && n != node :: key'[n] == key[n]
    ensures Nodes(g, len, |key|) && HeapFrom(g, key', 2, len)
  {
    forall j {:trigger g[j]} | 2 <= j <= len && 2 <= j / 2
      ensures key'[g[j / 2]] <= key'[g[j]]
    {
      var x, y := h[j], h[j / 2];
    }
  }

  // ---------- the total frequency ----------

  lemma {:induction false} SumAtLeast(g: seq<int>, n: nat, m: nat, hi: nat)
    requires n != m && n < hi && m < hi && hi <= |g| && forall i | 0 <= i < |g| :: g[i] >= 0
    ensures Sum(g, 0, hi) >= g[n] + g[m]
    decreases hi
  {
    var top := hi - 1;
    if n == top {
      SumAtLeastOne(g, m, top);
    } else if m == top {
      SumAtLeastOne(g, n, top);
    } else {
      SumAtLeast(g, n, m, top);
    }
  }

  lemma {:induction false} SumAtLeastOne(g: seq<int>, n: nat, hi: nat)
    requires n < hi <= |g| && forall i | 0 <= i < |g| :: g[i] >= 0
    ensures Sum(g, 0, hi) >= g[n]
    ensures hi >= 1 ==> Sum(g, 0, hi - 1) >= 0
    decreases hi
  {
    if n == hi - 1 {
      SumIsNonNegative(g, hi - 1);
    } else {
      SumAtLeastOne(g, n, hi - 1);
    }
  }

  lemma {:induction false} SumIsNonNegative(g: seq<int>, hi: nat)
    requires hi <= |g| && forall i | 0 <= i < |g| :: g[i] >= 0
    ensures Sum(g, 0, hi) >= 0
    decreases hi
  {
    if hi > 0 { SumIsNonNegative(g, hi - 1); }
  }

  lemma MergedMembers(active: multiset<int>, n: nat, m: nat, node: nat)
    requires n != m && n != node && m != node && active[n] == 1 && active[m] == 1 && active[node] == 0
    ensures var a := active - multiset{n, m} + multiset{node};
            forall x: int :: x in a <==> x == node || (x in active && x != n && x != m)
  {
  }

  lemma ActiveFreqsStep(tree: seq<CtData>, t: seq<CtData>, active: multiset<int>, a: multiset<int>, n: nat, m: nat,
                        node: nat)
    requires n < node && m < node < |tree| == |t| && node in a && node !in active
    requires forall x: int :: x in a <==> x == node || (x in active && x != n && x != m)
    requires forall x {:trigger t[x]} | 0 <= x < |tree| && x != node :: t[x].fc == tree[x].fc
    ensures ActiveFreqs(t, a) == ActiveFreqs(tree, active)[n := 0][m := 0][node := t[node].fc]
  {
  }

  lemma SumMove(g: seq<int>, n: nat, m: nat, node: nat, sum: int)
    requires n < node && m < node < |g| && n != m && g[node] == 0 && sum == g[n] + g[m]
    ensures Sum(g[n := 0][m := 0][node := sum], 0, |g|) == Sum(g, 0, |g|)
  {
    var g1 := g[n := 0];
    var g2 := g1[m := 0];
    SumUpdate(g, n, 0, 0, |g|);
    SumUpdate(g1, m, 0, 0, |g|);
    SumUpdate(g2, node, sum, 0, |g|);
  }

  lemma ActiveFreqsAt(tree: seq<CtData>, active: multiset<int>, n: nat)
    requires n < |tree|
    ensures ActiveFreqs(tree, active)[n] == if n in active then tree[n].fc else 0
  {
  }

  /** Two nodes of the heap weigh no more than all of them. */
  lemma MergeBound(tree: seq<CtData>, active: multiset<int>, n: nat, m: nat)
    requires n < |tree| && m < |tree| && n != m && n in active && m in active
    ensures tree[n].fc + tree[m].fc <= Sum(ActiveFreqs(tree, active), 0, |tree|)
  {
    SumAtLeast(ActiveFreqs(tree, active), n, m, |tree|);
  }

  /** A merge keeps the total frequency of the heap. */
  lemma MergeTotal(tree: seq<CtData>, active: multiset<int>, n: nat, m: nat, node: nat)
    requires n < node && m < node < |tree| && n != m && node < 0x1_0000 && tree[n].fc + tree[m].fc < 0x1_0000
    requires active[n] == 1 && active[m] == 1 && active[node] == 0
    ensures Sum(ActiveFreqs(Merged(tree, n, m, node), active - multiset{n, m} + multiset{node}), 0, |tree|) ==
            Sum(ActiveFreqs(tree, active), 0, |tree|)
  {
    hide ActiveFreqs, Merged;
    var t, a := Merged(tree, n, m, node), active - multiset{n, m} + multiset{node};
    MergedFields(tree, n, m, node);
    MergedMembers(active, n, m, node);
    ActiveFreqsStep(tree, t, active, a, n, m, node);
    ActiveFreqsAt(tree, active, n);
    ActiveFreqsAt(tree, active, m);
    ActiveFreqsAt(tree, active, node);
    SumMove(ActiveFreqs(tree, active), n, m, node, t[node].fc);
  }

  // ---------- the end of the array ----------

  /** Two more nodes in front of the removed ones. */
  lemma Pushed(h: seq<ush>, g: seq<ush>, len: nat, rem: seq<nat>, n: ush, m: ush)
    requires InHeap(h, rem) && len + 1 + |rem| + 2 <= |h|
    requires g == h[|h| - |rem| - 1 := n][|h| - |rem| - 2 := m]
    ensures InHeap(g, rem + [n as nat, m as nat]) && g[..len + 1] == h[..len + 1]
  {
  }

  lemma InHeapTail(h: seq<ush>, g: seq<ush>, len: nat, rem: seq<nat>)
    requires InHeap(h, rem) && |g| == |h| && len + 1 + |rem| <= |h| && g[len + 1..] == h[len + 1..]
    ensures InHeap(g, rem)
  {
    forall i | 0 <= i < |rem|
      ensures g[|g| - 1 - i] == rem[i]
    {
      assert g[len + 1..][|g| - 1 - i - len - 1] == h[len + 1..][|g| - 1 - i - len - 1];
    }
  }

  lemma FrontSame(h: seq<ush>, g: seq<ush>, len: nat)
    requires len < |h| == |g| && g[..len + 1] == h[..len + 1]
    ensures Active(g, len) == Active(h, len) && forall j | 0 <= j <= len :: g[j] == h[j]
  {
    assert g[1..len + 1] == g[..len + 1][1..] && h[1..len + 1] == h[..len + 1][1..];
    forall j | 0 <= j <= len
      ensures g[j] == h[j]
    {
      assert g[..len + 1][j] == h[..len + 1][j];
    }
  }

  lemma FrontHeap(h: seq<ush>, g: seq<ush>, key: seq<nat>, len: nat)
    requires len < |h| == |g| && (forall j | 0 <= j <= len :: g[j] == h[j])
    requires Nodes(h, len, |key|) && HeapFrom(h, key, 1, len)
    ensures Nodes(g, len, |key|) && HeapFrom(g, key, 1, len)
  {
    forall j {:trigger g[j]} | 2 <= j <= len && 1 <= j / 2
      ensures key[g[j / 2]] <= key[g[j]]
    {
      var x := h[j];
    }
  }

  /** A node that is not in the heap is at none of its places. */
  lemma NotThere(h: seq<ush>, len: nat, node: nat)
    requires len < |h| && Active(h, len)[node] == 0
    ensures forall j | 1 <= j <= len :: h[j] != node
  {
    forall j | 1 <= j <= len
      ensures h[j] != node
    {
      ActiveHas(h, len, j);
    }
  }

  lemma KeysElsewhere(t: seq<CtData>, t': seq<CtData>, d: seq<byte>, d': seq<byte>, n: nat, m: nat, node: nat)
    requires n < node && m < node < |t| <= |d| == |d'| && n != m && node < 0x1_0000 && t[n].fc + t[m].fc < 0x1_0000
    requires t' == Merged(t, n, m, node) && forall i | 0 <= i < |d| && i != node :: d'[i] == d[i]
    ensures forall i | 0 <= i < |t| && i != node :: Keys(t', d')[i] == Keys(t, d)[i]
  {
  }

  // ---------- one round of build_tree ----------

  /** The heap between two rounds: active nodes in front, removed ones at the end. */
  ghost predicate Round(t: seq<CtData>, h: seq<ush>, len: nat, rem: seq<nat>, elems: nat, leaves: set<nat>)
  {
    && |h| == HEAP_SIZE && 1 <= len && 3 <= elems <= L_CODES && |t| == 2 * elems + 1 && len + |rem| / 2 <= elems
    && |rem| % 2 == 0 && InHeap(h, rem) && Merging(t, Active(h, len), rem, elems, leaves)
    && Sum(ActiveFreqs(t, Active(h, len)), 0, |t|) < 0x1_0000
  }

  /** The two least frequent nodes can be merged. */
  lemma RoundNodes(t: seq<CtData>, h: seq<ush>, len: nat, rem: seq<nat>, elems: nat, leaves: set<nat>, n: nat, m: nat)
    requires Round(t, h, len, rem, elems, leaves) && n in Active(h, len) && m in Active(h, len) - multiset{n}
    ensures var node := elems + |rem| / 2;
            && node < 2 * elems && n < node && m < node && n != m && t[n].fc + t[m].fc < 0x1_0000
            && Active(h, len)[n] == 1 && Active(h, len)[m] == 1 && Active(h, len)[node] == 0
  {
    var a := Active(h, len);
    var node := elems + |rem| / 2;
    assert a[n] >= 1 && a[m] >= 1;
    assert Partition(a, rem, elems, leaves);
    assert a[n] + Occurs(rem, n) <= 1 && a[m] + Occurs(rem, m) <= 1 && a[node] + Occurs(rem, node) == 0;
    PartitionStep(a, rem, elems, leaves, n, m);
    MergeBound(t, a, n, m);
  }

  /** The state after a round. */
  lemma RoundStep(t: seq<CtData>, h: seq<ush>, len: nat, rem: seq<nat>, elems: nat, leaves: set<nat>, n: nat, m: nat,
                  g: seq<ush>)
    requires Round(t, h, len, rem, elems, leaves) && len >= 2
    requires n in Active(h, len) && m in Active(h, len) - multiset{n}
    requires n < |t| && m < |t|
    requires forall x: int | x in Active(h, len) && 0 <= x < |t| :: t[n].fc <= t[x].fc
    requires forall x: int | x in Active(h, len) - multiset{n} && 0 <= x < |t| :: t[m].fc <= t[x].fc
    requires |g| == HEAP_SIZE && InHeap(g, rem + [n, m])
    requires Active(g, len - 1) == Active(h, len) - multiset{n, m} + multiset{elems + |rem| / 2}
    ensures n != m && n < elems + |rem| / 2 && m < elems + |rem| / 2 < |t| && t[n].fc + t[m].fc < 0x1_0000
    ensures Round(Merged(t, n, m, elems + |rem| / 2), g, len - 1, rem + [n, m], elems, leaves)
  {
    hide Merging, Active, ActiveFreqs, Merged, InHeap;
    var a, node := Active(h, len), elems + |rem| / 2;
    RoundNodes(t, h, len, rem, elems, leaves, n, m);
    assert forall x: int | x in a && x != n :: x in a - multiset{n};
    MergeStep(t, a, rem, elems, leaves, n, m);
    MergeTotal(t, a, n, m, node);
  }

  lemma RoundBounds(t: seq<CtData>, h: seq<ush>, len: nat, rem: seq<nat>, elems: nat, leaves: set<nat>)
    requires Round(t, h, len, rem, elems, leaves)
    ensures 1 <= len < |h| == HEAP_SIZE && len + |rem| / 2 <= elems <= L_CODES && |t| == 2 * elems + 1 && |rem| % 2 == 0
    ensures InHeap(h, rem) && len + |rem| + 2 <= HEAP_SIZE && (len >= 2 ==> len + |rem| + 3 <= HEAP_SIZE)
  {
    hide InHeap, Merging, Active, ActiveFreqs;
    assert |rem| == 2 * (|rem| / 2);
  }

  /** A merge changes no symbol's frequency, and nothing of the symbols that do not occur. */
  ghost predicate SameSymbols(t0: seq<CtData>, t: seq<CtData>, elems: nat, leaves: set<nat>)
  {
    && elems <= |t| == |t0| && (forall x | 0 <= x < elems :: t[x].fc == t0[x].fc)
    && forall x: nat | x < elems && x !in leaves :: t[x] == t0[x]
  }

  lemma MergedLeaves(t: seq<CtData>, n: nat, m: nat, node: nat, elems: nat, leaves: set<nat>)
    requires n < node && m < node < |t| && n != m && elems <= node < 0x1_0000 && t[n].fc + t[m].fc < 0x1_0000
    requires (n < elems ==> n in leaves) && (m < elems ==> m in leaves)
    ensures SameSymbols(t, Merged(t, n, m, node), elems, leaves)
  {
  }

  /** Only leaves and inner nodes are merged. */
  lemma RoundLeaves(t: seq<CtData>, h: seq<ush>, len: nat, rem: seq<nat>, elems: nat, leaves: set<nat>, n: nat, m: nat)
    requires Round(t, h, len, rem, elems, leaves) && n in Active(h, len) && m in Active(h, len) - multiset{n}
    ensures (n < elems ==> n in leaves) && (m < elems ==> m in leaves)
  {
    var a := Active(h, len);
    assert a[n] >= 1 && a[m] >= 1 && Partition(a, rem, elems, leaves);
    assert a[n] + Occurs(rem, n) == 1 && a[m] + Occurs(rem, m) == 1;
  }

  /** One node left: the merge tree is complete. */
  lemma RoundDone(t: seq<CtData>, h: seq<ush>, rem: seq<nat>, elems: nat, leaves: set<nat>)
    requires Round(t, h, 1, rem, elems, leaves) && |rem| >= 2
    ensures |h| == HEAP_SIZE && elems + |rem| / 2 <= |t|
    ensures Shape(rem + [h[1] as nat], Freqs(t, elems + |rem| / 2), elems, leaves)
    ensures Linked(t, rem + [h[1] as nat], elems)
  {
    hide Shape, Active, Partition, Ascending, Weighted, ActiveFreqs;
    var root: nat := h[1];
    ActiveOne(h);
    MergingDone(t, root, rem, elems, leaves);
    LinkedRoot(t, rem, root, elems);
  }

  lemma ActiveOne(h: seq<ush>)
    requires |h| >= 2
    ensures Active(h, 1) == multiset{h[1] as int}
  {
    assert h[1..2] == [h[1]];
  }

  lemma LinkedRoot(t: seq<CtData>, rem: seq<nat>, root: nat, elems: nat)
    requires Fathers(t, rem, elems) && root < |t|
    ensures Linked(t, rem + [root], elems)
  {
  }

  lemma SameSymbolsTrans(a: seq<CtData>, b: seq<CtData>, c: seq<CtData>, elems: nat, leaves: set<nat>)
    requires SameSymbols(a, b, elems, leaves) && SameSymbols(b, c, elems, leaves)
    ensures SameSymbols(a, c, elems, leaves)
  {
  }

  lemma PushedRoot(h: seq<ush>, g: seq<ush>, rem: seq<nat>)
    requires InHeap(h, rem) && 2 + |rem| + 1 <= |h| && g == h[|h| - |rem| - 1 := h[1]]
    ensures InHeap(g, rem + [h[1] as nat])
  {
  }
}
