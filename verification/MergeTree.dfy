/** What gzip's tree construction leaves behind: the nodes in the order in which they were
    taken from the heap, two by two, each pair the sons of the next new node. */
module MergeTree {
  import opened Sums
  import opened Heap

  ghost function Occurs(s: seq<int>, x: int): nat
  {
    multiset(s)[x]
  }

  /** Every node so far is either in the heap or taken out, once. */
  ghost predicate Partition(active: multiset<int>, rem: seq<nat>, elems: nat, leaves: set<nat>)
  {
    && |rem| % 2 == 0
    && (forall x: int {:trigger active[x]} {:trigger Occurs(rem, x)} :: active[x] + Occurs(rem, x)
          == if x in leaves || elems <= x < elems + |rem| / 2 then 1 else 0)
    && (forall x | x in leaves :: x < elems)
  }

  /** Node elems + j is the father of rem[2j] and rem[2j + 1]. */
  ghost predicate Fathers(tree: seq<CtData>, rem: seq<nat>, elems: nat)
  {
    forall i | 0 <= i < |rem| :: rem[i] < elems + i / 2 && rem[i] < |tree| && tree[rem[i]].dl == elems + i / 2
  }

  /** Nodes have been taken out in order of frequency, and the ones left come after them. */
  ghost predicate Ascending(tree: seq<CtData>, active: multiset<int>, rem: seq<nat>)
    requires Below(rem, |tree|)
  {
    && (forall i | 1 <= i < |rem| :: tree[rem[i - 1]].fc <= tree[rem[i]].fc)
    && (forall x: int | x in active && rem != [] && 0 <= x < |tree| :: tree[rem[|rem| - 1]].fc <= tree[x].fc)
  }

  ghost predicate Weighted(tree: seq<CtData>, rem: seq<nat>, elems: nat)
    requires Below(rem, |tree|) && elems + |rem| / 2 <= |tree|
  {
    forall u {:trigger tree[u]} | elems <= u < elems + |rem| / 2 ::
      tree[u].fc == tree[rem[2 * (u - elems)]].fc + tree[rem[2 * (u - elems) + 1]].fc
  }

  /** The state between two merges: `active` nodes are in the heap, `rem` have been taken out, in that order. */
  ghost predicate Merging(tree: seq<CtData>, active: multiset<int>, rem: seq<nat>, elems: nat, leaves: set<nat>)
  {
    && elems + |rem| / 2 < |tree| && Below(rem, |tree|)
    && Partition(active, rem, elems, leaves) && Fathers(tree, rem, elems)
    && Ascending(tree, active, rem) && Weighted(tree, rem, elems)
  }

  /** The frequencies of the active nodes, by node number. */
  ghost function ActiveFreqs(tree: seq<CtData>, active: multiset<int>): (g: seq<int>)
    ensures |g| == |tree|
  {
    seq(|tree|, i requires 0 <= i < |tree| => if i in active then tree[i].fc else 0)
  }

  /** Makes node `node` the father of n and m. */
  ghost function Merged(tree: seq<CtData>, n: nat, m: nat, node: nat): (t: seq<CtData>)
    requires n < |tree| && m < |tree| && node < |tree| && node < 0x1_0000
    requires tree[n].fc + tree[m].fc < 0x1_0000
    ensures |t| == |tree|
  {
    tree[node := tree[node].(fc := tree[n].fc + tree[m].fc)][n := tree[n].(dl := node)][m := tree[m].(dl := node)]
  }

  lemma PartitionStep(active: multiset<int>, rem: seq<nat>, elems: nat, leaves: set<nat>, n: nat, m: nat)
    requires Partition(active, rem, elems, leaves) && n in active && m in active && n != m
    ensures n < elems + |rem| / 2 && m < elems + |rem| / 2 && active[n] <= 1
    ensures forall i | 0 <= i < |rem| :: rem[i] != n && rem[i] != m
    ensures Partition(active - multiset{n, m} + multiset{elems + |rem| / 2}, rem + [n, m], elems, leaves)
  {
    var node := elems + |rem| / 2;
    var a, r := active - multiset{n, m} + multiset{node}, rem + [n, m];
    assert active[n] >= 1 && active[m] >= 1;
    forall x: int
      ensures a[x] + Occurs(r, x) == if x in leaves || elems <= x < elems + |r| / 2 then 1 else 0
    {
      assert Occurs(r, x) == Occurs(rem, x) + (if x == n then 1 else 0) + (if x == m then 1 else 0);
      assert active[x] + Occurs(rem, x) == if x in leaves || elems <= x < node then 1 else 0;
    }
    forall i | 0 <= i < |rem|
      ensures rem[i] != n && rem[i] != m
    {
      assert Occurs(rem, rem[i]) >= 1;
      assert active[rem[i]] + Occurs(rem, rem[i]) <= 1;
    }
  }

  /** What a merge changes: two fathers and one frequency. */
  lemma MergedFields(tree: seq<CtData>, n: nat, m: nat, node: nat)
    requires n < node && m < node < |tree| && n != m && node < 0x1_0000 && tree[n].fc + tree[m].fc < 0x1_0000
    ensures var t := Merged(tree, n, m, node);
            && (forall x {:trigger t[x]} | 0 <= x < |tree| && x != node :: t[x].fc == tree[x].fc)
            && (forall x {:trigger t[x]} | 0 <= x < |tree| && x != n && x != m :: t[x].dl == tree[x].dl)
            && t[node].fc == tree[n].fc + tree[m].fc && t[n].dl == node && t[m].dl == node
  {
  }

  lemma AscendingStep(tree: seq<CtData>, active: multiset<int>, rem: seq<nat>, n: nat, m: nat, node: nat)
    requires Below(rem, |tree|) && Ascending(tree, active, rem)
    requires forall i | 0 <= i < |rem| :: rem[i] < node
    requires n in active && m in active && n != m && n < node && m < node < |tree| && active[n] <= 1
    requires forall x: int | x in active && 0 <= x < |tree| :: tree[n].fc <= tree[x].fc
                                                               && (x != n ==> tree[m].fc <= tree[x].fc)
    requires node < 0x1_0000 && tree[n].fc + tree[m].fc < 0x1_0000
    ensures Below(rem + [n, m], |tree|)
    ensures Ascending(Merged(tree, n, m, node), active - multiset{n, m} + multiset{node}, rem + [n, m])
  {
    hide Merged;
    var t, a, r := Merged(tree, n, m, node), active - multiset{n, m} + multiset{node}, rem + [n, m];
    MergedFields(tree, n, m, node);
    forall x: int | x in a && 0 <= x < |tree|
      ensures t[m].fc <= t[x].fc
    {
      assert x == node || (x in active && x != n);
    }
    forall i | 1 <= i < |r|
      ensures t[r[i - 1]].fc <= t[r[i]].fc
    {
      assert r[i] < node && r[i - 1] < node;
    }
  }

  lemma WeightedStep(tree: seq<CtData>, rem: seq<nat>, elems: nat, n: nat, m: nat, node: nat)
    requires |rem| % 2 == 0 && node == elems + |rem| / 2 && node < |tree| && node < 0x1_0000
    requires Below(rem, |tree|) && Weighted(tree, rem, elems)
    requires n < node && m < node && n != m && tree[n].fc + tree[m].fc < 0x1_0000
    requires forall i | 0 <= i < |rem| :: rem[i] < node
    ensures Below(rem + [n, m], |tree|) && Weighted(Merged(tree, n, m, node), rem + [n, m], elems)
  {
    var t, r := Merged(tree, n, m, node), rem + [n, m];
    MergedFields(tree, n, m, node);
    forall u {:trigger t[u]} | elems <= u < elems + |r| / 2
      ensures t[u].fc == t[r[2 * (u - elems)]].fc + t[r[2 * (u - elems) + 1]].fc
    {
      if u < elems + |rem| / 2 {
        var y, z := rem[2 * (u - elems)], rem[2 * (u - elems) + 1];
        assert r[2 * (u - elems)] == y && r[2 * (u - elems) + 1] == z;
        assert tree[u].fc == tree[y].fc + tree[z].fc;
      }
    }
  }

  lemma FathersStep(tree: seq<CtData>, rem: seq<nat>, elems: nat, n: nat, m: nat, node: nat)
    requires |rem| % 2 == 0 && node == elems + |rem| / 2 && node < |tree| && node < 0x1_0000
    requires Fathers(tree, rem, elems)
    requires n < node && m < node && n != m && tree[n].fc + tree[m].fc < 0x1_0000
    requires forall i | 0 <= i < |rem| :: rem[i] != n && rem[i] != m
    ensures Fathers(Merged(tree, n, m, node), rem + [n, m], elems)
  {
    MergedFields(tree, n, m, node);
  }

  /** One merge of the two least frequent nodes. */
  lemma MergeStep(tree: seq<CtData>, active: multiset<int>, rem: seq<nat>, elems: nat, leaves: set<nat>, n: nat, m: nat)
    requires Merging(tree, active, rem, elems, leaves) && elems + |rem| / 2 + 1 < |tree| <= 0x1_0000
    requires n in active && m in active && n != m && n < |tree| && m < |tree|
    requires forall x: int | x in active && 0 <= x < |tree| :: tree[n].fc <= tree[x].fc
                                                               && (x != n ==> tree[m].fc <= tree[x].fc)
    requires tree[n].fc + tree[m].fc < 0x1_0000
    ensures var node := elems + |rem| / 2;
            Merging(Merged(tree, n, m, node), active - multiset{n, m} + multiset{node}, rem + [n, m], elems, leaves)
  {
    hide Merged, Ascending, Weighted;
    var node := elems + |rem| / 2;
    assert |rem| % 2 == 0 && forall i | 0 <= i < |rem| :: rem[i] < node;
    PartitionStep(active, rem, elems, leaves, n, m);
    AscendingStep(tree, active, rem, n, m, node);
    WeightedStep(tree, rem, elems, n, m, node);
    FathersStep(tree, rem, elems, n, m, node);
  }
}
