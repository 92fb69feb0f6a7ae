/** Construction of one Huffman tree in the arrays that gzip uses for all of them. */
module HuffmanTree {
  import opened Bits
  import opened Sums
  import opened Canonical
  import opened Heap
  import opened MergeTree
  import opened HuffmanShape
  import opened LengthLimit
  import opened CutLengths
  import opened LengthCounts
  import opened Reassign
  import opened CodeGen
  import opened BuildSteps
  import opened BuildStart
  import opened Optimal
  import opened Shallow
  import opened TieBreak

  /** A merge tree: its nodes in the order in which they left the heap, their frequencies and their depths, cut off
      at the greatest length. */
  datatype Merge = Merge(order: seq<nat>, freqs: seq<nat>, depths: seq<nat>)

  /** The merge tree of the symbols that occur, with frequencies f. */
  ghost predicate MergeOf(f: seq<nat>, max: nat, g: Merge)
  {
    && |f| <= |g.freqs| == |g.depths| && g.freqs[..|f|] == f
    && Shape(g.order, g.freqs, |f|, set n: nat | n < |f| && f[n] > 0) && Depths(g.depths, g.order, |f|, max)
  }

  /** How many nodes of the tree are too deep: twice the number of fathers at the greatest length. */
  ghost function TooDeep(g: Merge, elems: nat, max: nat): nat
  {
    CutFrom(g.depths, elems, max, 0)
  }

  /** No lengths cost less, and none that cost the same are shorter at their longest. */
  ghost predicate Best(f: seq<nat>, lens: seq<nat>)
  {
    Cheapest(f, lens) && Shallowest(f, lens)
  }

  class TreeDesc {
    const dynTree: array<CtData>
    const staticTree: array?<CtData>
    const extraBits: seq<nat>
    const extraBase: nat
    const elems: nat
    const maxLength: nat
    /** The largest code with a non-zero frequency. */
    var maxCode: int

    constructor (dynTree: array<CtData>, staticTree: array?<CtData>, extraBits: seq<nat>, extraBase: nat,
                 elems: nat, maxLength: nat)
      ensures this.dynTree == dynTree && this.staticTree == staticTree && this.extraBits == extraBits
      ensures this.extraBase == extraBase && this.elems == elems && this.maxLength == maxLength
    {
      this.dynTree, this.staticTree, this.extraBits := dynTree, staticTree, extraBits;
      this.extraBase, this.elems, this.maxLength := extraBase, elems, maxLength;
      maxCode := 0;
    }

    ghost predicate Valid()
    {
      && 3 <= elems <= L_CODES && dynTree.Length == 2 * elems + 1
      && extraBase <= elems == extraBase + |extraBits|
      && 2 <= maxLength <= MAX_BITS && elems <= Pow2(maxLength)
      && (staticTree != null ==> staticTree != dynTree && staticTree.Length >= elems)
      && (forall n | 0 <= n < 3 :: Extra()[n] == 0)
    }

    /** The extra bits of every symbol. */
    ghost function Extra(): (x: seq<nat>)
      requires elems <= extraBase + |extraBits|
      ensures |x| == elems
    {
      seq(elems, n requires 0 <= n < elems => if n >= extraBase then extraBits[n - extraBase] else 0)
    }
  }

  class TreeBuilder {
    const heap: array<ush>
    const depth: array<byte>
    const blCount: array<nat>
    var heapLen: nat
    var heapMax: nat
    var optLen: int
    var staticLen: int

    ghost predicate Valid()
    {
      heap.Length == HEAP_SIZE && depth.Length == HEAP_SIZE && blCount.Length == MAX_BITS + 1
    }

    constructor ()
      ensures Valid() && fresh(heap) && fresh(depth) && fresh(blCount)
      ensures forall b | 0 <= b <= MAX_BITS :: blCount[b] == 0
    {
      heap, depth := new ush[HEAP_SIZE](i => 0), new byte[HEAP_SIZE](i => 0);
      blCount := new nat[MAX_BITS + 1](i => 0);
      heapLen, heapMax, optLen, staticLen := 0, 0, 0, 0;
    }

    /** What the first pass of gen_bitlen has done when the nodes from position i on are dealt with. */
    ghost predicate FirstPass(desc: TreeDesc, s: seq<nat>, f: seq<nat>, bits: seq<nat>, t0: seq<CtData>,
                              opt0: int, static0: int, i: nat, overflow: nat)
      requires Valid() && desc.Valid() && i <= |s|
      reads this, desc.dynTree, desc.staticTree, blCount
    {
      && Passed(desc.dynTree[..], t0, s, bits, i) && Below(s, |f|) && desc.elems <= |bits|
      && Counted(blCount[..], s, bits, desc.elems, i)
      && overflow == CutFrom(bits, desc.elems, desc.maxLength, i)
      && optLen == opt0 + PayFrom(s, f, bits, desc.Extra(), desc.elems, i)
      && staticLen == (if desc.staticTree == null then static0
                       else static0 + PayFrom(s, f, LensOf(desc.staticTree[..], desc.elems), desc.Extra(), desc.elems,
                                              i))
    }

    /** Counts a leaf of the given length and what its occurrences cost. */
    method CountLeaf(desc: TreeDesc, n: nat, len: nat)
      requires Valid() && desc.Valid() && n < desc.elems && len <= MAX_BITS
      modifies this`optLen, this`staticLen, blCount
      ensures blCount[..] == old(blCount[..])[len := old(blCount[len]) + 1]
      ensures optLen == old(optLen) + desc.dynTree[n].fc * (len + desc.Extra()[n])
      ensures staticLen == old(staticLen) + (if desc.staticTree == null then 0
                                             else desc.dynTree[n].fc * (desc.staticTree[n].dl + desc.Extra()[n]))
    {
      blCount[len] := blCount[len] + 1;
      var xbits := 0;
      if n >= desc.extraBase { xbits := desc.extraBits[n - desc.extraBase]; }
      optLen := optLen + desc.dynTree[n].fc * (len + xbits);
      if desc.staticTree != null {
        staticLen := staticLen + desc.dynTree[n].fc * (desc.staticTree[n].dl + xbits);
      }
    }

    /** One node of the first pass: the i-th taken out of the heap. */
    method CutOne(desc: TreeDesc, h: nat, overflow0: nat, ghost s: seq<nat>, ghost f: seq<nat>, ghost leaves: set<nat>,
                  ghost bits: seq<nat>, ghost t0: seq<CtData>, ghost opt0: int, ghost static0: int, ghost i: nat)
      returns (overflow: nat)
      requires Valid() && desc.Valid() && i < |s| - 1 && h == HEAP_SIZE - 1 - i < HEAP_SIZE
      requires Shape(s, f, desc.elems, leaves) && Depths(bits, s, desc.elems, desc.maxLength) && |bits| == |f|
      requires |f| <= desc.dynTree.Length && heap[h] == s[i] && Linked(t0, s, desc.elems)
      requires forall n | 0 <= n < |f| :: t0[n].fc == f[n]
      requires s[i] <= desc.maxCode <==> s[i] < desc.elems
      requires forall n | 0 <= n < |bits| :: bits[n] <= desc.maxLength
      requires FirstPass(desc, s, f, bits, t0, opt0, static0, i + 1, overflow0)
      modifies this`optLen, this`staticLen, desc.dynTree, blCount
      ensures FirstPass(desc, s, f, bits, t0, opt0, static0, i, overflow)
    {
      hide SumFrom, Shape, Depths, Passed, Counted, PayFrom, CutFrom;
      var tree := desc.dynTree;
      var n := heap[h];
      ghost var t, count := tree[..], blCount[..];
      FatherPassed(t, t0, s, f, desc.elems, leaves, bits, desc.maxLength, i);
      PassedFields(t, t0, s, bits, i);
      CutStep(bits, desc.elems, desc.maxLength, i);
      PayStep(s, f, bits, desc.Extra(), desc.elems, i);
      ghost var slens := if desc.staticTree == null then bits else LensOf(desc.staticTree[..], desc.elems);
      PayStep(s, f, slens, desc.Extra(), desc.elems, i);
      ShapeDistinct(s, f, desc.elems, leaves);
      CountedStep(count, s, bits, desc.elems, i);
      PassedStep(t, t0, s, bits, i);

      var len := tree[tree[n].dl].dl + 1;
      overflow := overflow0;
      if len > desc.maxLength {
        len := desc.maxLength;
        overflow := overflow + 1;
      }
      tree[n] := tree[n].(dl := len);
      assert tree[..] == t[n := t[n].(dl := len)];
      if n <= desc.maxCode { CountLeaf(desc, n, len); }
      assert desc.staticTree != null ==> LensOf(desc.staticTree[..], desc.elems) == slens;
    }

    /** A finished merge tree in the arrays: nodes in the heap, fathers and frequencies in the tree. */
    ghost predicate Finished(desc: TreeDesc, s: seq<nat>, f: seq<nat>, leaves: set<nat>)
      reads this, heap, desc, desc.dynTree
    {
      && Valid() && desc.Valid() && heapMax + |s| == HEAP_SIZE
      && Shape(s, f, desc.elems, leaves) && |f| <= desc.dynTree.Length
      && InHeap(heap[..], s) && Linked(desc.dynTree[..], s, desc.elems)
      && (forall n | 0 <= n < |f| :: desc.dynTree[n].fc == f[n])
      && desc.maxCode < desc.elems && (forall n: nat | n in leaves :: n <= desc.maxCode)
      && (forall n: nat | n < desc.elems && n !in leaves :: desc.dynTree[n] == CtData(0, 0))
    }

    method ClearCounts()
      modifies blCount
      ensures forall b | 0 <= b < blCount.Length :: blCount[b] == 0
    {
      for b := 0 to blCount.Length
        invariant forall k | 0 <= k < b :: blCount[k] == 0
      {
        blCount[b] := 0;
      }
    }

    /** The first pass of gen_bitlen: lengths as in the tree, but no longer than maxLength.
        Returns the number of nodes that had to be cut off. */
    method AssignCutLengths(desc: TreeDesc, ghost s: seq<nat>, ghost f: seq<nat>, ghost leaves: set<nat>,
                            ghost bits: seq<nat>)
      returns (overflow: nat)
      requires Finished(desc, s, f, leaves) && Depths(bits, s, desc.elems, desc.maxLength) && |bits| == |f|
      modifies this`optLen, this`staticLen, desc.dynTree, blCount
      ensures FirstPass(desc, s, f, bits, old(desc.dynTree[..]), old(optLen), old(staticLen), 0, overflow)
    {
      hide SumFrom, Shape, Depths, Passed, Counted, PayFrom, CutFrom, InHeap, Linked;
      var tree := desc.dynTree;
      ghost var t0 := tree[..];
      ClearCounts();
      ShapeNodes(s, f, desc.elems, leaves);
      HeapEntry(heap[..], s, |s| - 1);
      tree[heap[heapMax]] := tree[heap[heapMax]].(dl := 0);
      assert heap[heapMax] == heap[..][HEAP_SIZE - 1 - (|s| - 1)] == s[|s| - 1];
      assert tree[..] == t0[s[|s| - 1] := t0[s[|s| - 1]].(dl := 0)];
      overflow := 0;
      PassStart(tree[..], t0, blCount[..], s, f, bits, desc.elems, leaves, desc.maxLength);
      DepthsBounded(bits, s, f, desc.elems, leaves, desc.maxLength);
      StartPay(s, f, bits, desc.Extra(), desc.elems);
      if desc.staticTree != null { StartPay(s, f, LensOf(desc.staticTree[..], desc.elems), desc.Extra(), desc.elems); }
      ghost var i := |s| - 1;
      var h := heapMax + 1;
      while h < HEAP_SIZE
        invariant i <= |s| - 1 && h == HEAP_SIZE - i && heapMax < h <= HEAP_SIZE
        invariant FirstPass(desc, s, f, bits, t0, old(optLen), old(staticLen), i, overflow)
      {
        i := i - 1;
        HeapEntry(heap[..], s, i);
        ShapeMember(s, f, desc.elems, leaves, s[i]);
        assert s[i] in s && (s[i] in leaves ==> s[i] <= desc.maxCode);
        overflow := CutOne(desc, h, overflow, s, f, leaves, bits, t0, old(optLen), old(staticLen), i);
        h := h + 1;
      }
    }

    /** Gives the next node, if it is a leaf, the length that is being given out. */
    method GiveNext(desc: TreeDesc, m: nat, len: nat, ghost s: seq<nat>, ghost f: seq<nat>, ghost leaves: set<nat>,
                    ghost t0: seq<CtData>, ghost given: seq<nat>, ghost i: nat, ghost count: seq<nat>, ghost n: nat)
      returns (leaf: bool, ghost next: seq<nat>)
      requires desc.Valid() && Shape(s, f, desc.elems, leaves) && i < |s| && m == s[i] && 1 <= len <= MAX_BITS
      requires |f| <= |t0| == desc.dynTree.Length && forall x | 0 <= x < |f| :: t0[x].fc == f[x]
      requires desc.maxCode < desc.elems && forall x: nat | x in leaves :: x <= desc.maxCode
      requires Given(desc.dynTree[..], t0, s, desc.elems, given, i) && Spent(count, given, len, n) && n >= 1
      modifies this`optLen, desc.dynTree
      ensures leaf <==> m < desc.elems
      ensures Given(desc.dynTree[..], t0, s, desc.elems, next, i + 1)
      ensures Spent(count, next, len, if leaf then n - 1 else n)
      ensures |given| == desc.elems && next == if leaf then given[m := len] else given
      ensures optLen - Paid(f, desc.dynTree[..], desc.Extra(), desc.elems) ==
              old(optLen - Paid(f, desc.dynTree[..], desc.Extra(), desc.elems))
    {
      hide Shape;
      hide Given, Spent, Paid;
      var tree := desc.dynTree;
      ghost var t := tree[..];
      ShapeDistinct(s, f, desc.elems, leaves);
      GivenStep(t, t0, s, desc.elems, given, i, len);
      ShapeMember(s, f, desc.elems, leaves, m);
      assert s[i] in s && (m in leaves ==> m <= desc.maxCode);
      leaf, next := m <= desc.maxCode, given;
      if leaf {
        GivenFields(t, t0, s, desc.elems, given, i, m);
        PaidStep(f, t, desc.Extra(), desc.elems, m, len);
        SpentStep(count, given, len, n, m);
        next := given[m := len];
        if tree[m].dl != len {
          optLen := optLen + (len - tree[m].dl) * tree[m].fc;
          tree[m] := tree[m].(dl := len);
        }
        assert tree[..] == t[m := t[m].(dl := len)];
      }
    }

    /** The last pass of gen_bitlen: the corrected lengths go to the symbols, longest first, in
        order of increasing frequency. */
    method GiveLengths(desc: TreeDesc, ghost s: seq<nat>, ghost f: seq<nat>, ghost leaves: set<nat>,
                       ghost bits: seq<nat>)
      requires Valid() && desc.Valid() && heapMax + |s| == HEAP_SIZE
      requires Shape(s, f, desc.elems, leaves) && Depths(bits, s, desc.elems, desc.maxLength) && |bits| == |f|
      requires InHeap(heap[..], s) && |f| <= desc.dynTree.Length
      requires forall n | 0 <= n < |f| :: desc.dynTree[n].fc == f[n]
      requires desc.maxCode < desc.elems && forall n: nat | n in leaves :: n <= desc.maxCode
      requires forall n: nat | n < desc.elems && n !in leaves :: desc.dynTree[n].dl == 0
      requires Total(blCount[..], desc.maxLength) == Used(bits[..desc.elems])
      requires blCount[0] == 0 && forall b | desc.maxLength < b <= MAX_BITS :: blCount[b] == 0
      modifies this`optLen, desc.dynTree
      ensures forall n | 0 <= n < desc.dynTree.Length :: desc.dynTree[n].fc == old(desc.dynTree[n].fc)
      ensures CountsOf(blCount[..], LensOf(desc.dynTree[..], desc.elems))
      ensures forall n | 0 <= n < desc.elems :: LensOf(desc.dynTree[..], desc.elems)[n] <= MAX_BITS
      ensures forall n: nat | n < desc.elems :: n in leaves <==> LensOf(desc.dynTree[..], desc.elems)[n] >= 1
      ensures RarerLonger(f, LensOf(desc.dynTree[..], desc.elems), leaves)
      ensures optLen == old(optLen) + Paid(f, desc.dynTree[..], desc.Extra(), desc.elems)
                                    - Paid(f, old(desc.dynTree[..]), desc.Extra(), desc.elems)
    {
      hide Shape, Depths, Given, Spent, Paid, Total, LeavesFrom, CountLen, CountsOf, InHeap, LensOf, Used, Falling;
      hide RarerLonger;
      var tree := desc.dynTree;
      ghost var t0, opt0 := tree[..], optLen;
      ghost var given: seq<nat>, i: nat := seq(desc.elems, _ => 0), 0;
      ghost var count := blCount[..];
      ShapeNodes(s, f, desc.elems, leaves);
      ShapeDistinct(s, f, desc.elems, leaves);
      GivenStart(t0, s, desc.elems, count, desc.maxLength);
      LeavesAreUsed(s, f, bits, desc.elems, leaves, desc.maxLength);
      FallingStart(s, desc.elems, desc.maxLength);
      var h := HEAP_SIZE;
      var len := desc.maxLength;
      while len != 0
        invariant 0 <= len <= desc.maxLength && h == HEAP_SIZE - i && i <= |s|
        invariant Falling(given, s, desc.elems, i, len)
        invariant Given(tree[..], t0, s, desc.elems, given, i) && Spent(count, given, len, count[len])
        invariant LeavesFrom(s, desc.elems, i) == Total(count, len)
        invariant optLen == opt0 + Paid(f, tree[..], desc.Extra(), desc.elems) - Paid(f, t0, desc.Extra(), desc.elems)
      {
        TotalStep(count, len);
        var n: nat := blCount[len];
        while n != 0
          invariant n <= count[len] && h == HEAP_SIZE - i && i <= |s|
          invariant Falling(given, s, desc.elems, i, len)
          invariant Given(tree[..], t0, s, desc.elems, given, i) && Spent(count, given, len, n)
          invariant LeavesFrom(s, desc.elems, i) == n + Total(count, len - 1)
          invariant optLen == opt0 + Paid(f, tree[..], desc.Extra(), desc.elems) - Paid(f, t0, desc.Extra(), desc.elems)
          decreases |s| - i
        {
          LeavesLeft(s, desc.elems, i);
          LeavesFromStep(s, desc.elems, i);
          h := h - 1;
          HeapEntry(heap[..], s, i);
          assert heap[h] == heap[..][h] == s[i];
          var leaf;
          FallingStep(given, s, desc.elems, i, len);
          leaf, given := GiveNext(desc, heap[h], len, s, f, leaves, t0, given, i, count, n);
          i := i + 1;
          if leaf { n := n - 1; }
        }
        SpentNext(count, given, len);
        FallingLess(given, s, desc.elems, i, len, len - 1);
        len := len - 1;
      }
      TotalStep(count, 0);
      FallingRarer(given, s, f, desc.elems, leaves, i);
      GivenEnd(tree[..], t0, s, desc.elems, given, i);
      AllGiven(tree[..], t0, s, f, desc.elems, leaves, given, count);
      GivenFreqs(tree[..], t0, s, desc.elems, given, |s|);
    }

    /** What the lengths in a tree must be: those of a complete code for exactly the given symbols. */
    ghost predicate LengthsFor(desc: TreeDesc, leaves: set<nat>)
      requires Valid() && desc.Valid()
      reads desc.dynTree, blCount
    {
      var lens := LensOf(desc.dynTree[..], desc.elems);
      && Complete(lens, desc.maxLength) && CountsOf(blCount[..], lens)
      && forall n: nat | n < desc.elems :: n in leaves <==> lens[n] >= 1
    }

    /** Replaces fathers by code lengths no greater than maxLength, and adds up what the symbols cost
        with these and with the static lengths. `cut` counts the nodes that were too deep; if there are any, some
        symbol gets a length of maxLength. */
    method GenBitlen(desc: TreeDesc, ghost s: seq<nat>, ghost f: seq<nat>, ghost leaves: set<nat>)
      returns (ghost cut: nat, ghost bits: seq<nat>)
      requires Finished(desc, s, f, leaves)
      modifies this`optLen, this`staticLen, desc.dynTree, blCount
      ensures forall n | 0 <= n < desc.dynTree.Length :: desc.dynTree[n].fc == old(desc.dynTree[n].fc)
      ensures LengthsFor(desc, leaves)
      ensures optLen == old(optLen) + Paid(f, desc.dynTree[..], desc.Extra(), desc.elems)
      ensures staticLen == old(staticLen) + (if desc.staticTree == null then 0
                                             else Paid(f, desc.staticTree[..], desc.Extra(), desc.elems))
      ensures |bits| == |f| && Depths(bits, s, desc.elems, desc.maxLength)
      ensures cut == CutFrom(bits, desc.elems, desc.maxLength, 0)
      ensures var elems := desc.elems;
              cut == 0 ==> Sum(Cost(f[..elems], LensOf(desc.dynTree[..], elems)), 0, elems) == Sum(f, elems, |f|)
      ensures cut == 0 ==> LensOf(desc.dynTree[..], desc.elems) == bits[..desc.elems]
      ensures cut != 0 ==> exists n | 0 <= n < desc.elems :: LensOf(desc.dynTree[..], desc.elems)[n] == desc.maxLength
      ensures cut != 0 ==> RarerLonger(f, LensOf(desc.dynTree[..], desc.elems), leaves)
    {
      hide Shape, Depths, SumFrom, PayFrom, Counted, CutFrom, Passed, Paid, Total, Used, Kraft, CountsOf, Complete;
      hide Cost, RarerLonger;
      hide InHeap, Linked, KraftSum, LensOf;
      ghost var t0 := desc.dynTree[..];
      bits := DepthsExist(s, f, desc.elems, leaves, desc.maxLength);
      var overflow := AssignCutLengths(desc, s, f, leaves, bits);
      cut := overflow;
      PassFields(desc.dynTree[..], t0, s, bits, 0);
      FirstPassDone(desc.dynTree[..], t0, blCount[..], s, f, bits, desc.elems, leaves, desc.maxLength, overflow);
      PaidFirst(desc.dynTree[..], s, f, bits, desc.Extra(), desc.elems, leaves);
      if desc.staticTree != null {
        PaidFirst(desc.staticTree[..], s, f, LensOf(desc.staticTree[..], desc.elems), desc.Extra(), desc.elems, leaves);
      }
      if overflow == 0 {
        NothingCut(s, f, bits, desc.elems, leaves, desc.maxLength);
        CountsComplete(blCount[..], bits[..desc.elems], desc.maxLength);
        return;
      }
      RepairCounts(blCount, desc.maxLength, overflow);
      GiveLengths(desc, s, f, leaves, bits);
      CountsComplete(blCount[..], LensOf(desc.dynTree[..], desc.elems), desc.maxLength);
      ghost var last := LengthUsed(blCount[..], LensOf(desc.dynTree[..], desc.elems), desc.maxLength);
    }

    // ---------- building the merge tree ----------

    /** The heap holds nodes of the tree, in heap order. */
    ghost predicate IsHeap(tree: array<CtData>)
      requires Valid() && tree.Length <= HEAP_SIZE
      reads this, heap, depth, tree
    {
      && 1 <= heapLen && Nodes(heap[..], heapLen, tree.Length)
      && HeapFrom(heap[..], Keys(tree[..], depth[..]), 1, heapLen)
    }

    /** PQREMOVE: takes the least frequent node out of the heap. */
    method RemoveLeast(tree: array<CtData>) returns (n: ush)
      requires Valid() && tree.Length <= HEAP_SIZE && IsHeap(tree) && heapLen >= 2
      modifies this`heapLen, heap
      ensures heapLen == old(heapLen) - 1 && IsHeap(tree)
      ensures n == old(heap[1]) && Active(heap[..], heapLen) == old(Active(heap[..], heapLen)) - multiset{n as int}
      ensures heap[old(heapLen) + 1..] == old(heap[heapLen + 1..])
    {
      hide Active, HeapFrom, Keys;
      ghost var h, key := heap[..], Keys(tree[..], depth[..]);
      n := heap[1];
      heap[1] := heap[heapLen];
      TakeFirst(h, heap[..], heapLen);
      TakeFirstHeap(h, heap[..], key, heapLen);
      heapLen := heapLen - 1;
      ghost var g := heap[..];
      Pqdownheap(tree, depth, heap, heapLen, 1);
      SameActive(g, heap[..], heapLen);
      TailSame(g, heap[..], heapLen);
    }

    /** Stores the two removed nodes, keeping the end of the array sorted by frequency. */
    method PushRemoved(n: ush, m: ush)
      requires Valid() && 2 <= heapMax <= HEAP_SIZE
      modifies this`heapMax, heap
      ensures heapMax == old(heapMax) - 2
      ensures heap[..] == old(heap[..])[old(heapMax) - 1 := n][old(heapMax) - 2 := m]
    {
      heapMax := heapMax - 1;
      heap[heapMax] := n;
      heapMax := heapMax - 1;
      heap[heapMax] := m;
    }

    /** Makes `node` the father of n and m. */
    method NewFather(tree: array<CtData>, n: nat, m: nat, node: nat)
      requires Valid() && n < node && m < node < tree.Length <= HEAP_SIZE && n != m
      requires tree[n].fc + tree[m].fc < 0x1_0000
      modifies tree, depth
      ensures tree[..] == Merged(old(tree[..]), n, m, node)
      ensures forall i | 0 <= i < depth.Length && i != node :: depth[i] == old(depth[i])
      ensures NodeAdded(old(depth[..]), depth[..], n, m, node)
    {
      tree[node] := tree[node].(fc := tree[n].fc + tree[m].fc);
      var deeper: int := if depth[n] >= depth[m] then depth[n] else depth[m];
      depth[node] := (deeper + 1) % 0x100;
      tree[n] := tree[n].(dl := node);
      tree[m] := tree[m].(dl := node);
    }

    /** Puts `node` in the place of the first node of the heap. */
    method ReplaceFirst(tree: array<CtData>, node: ush, ghost key: seq<nat>)
      requires Valid() && tree.Length <= HEAP_SIZE && 1 <= heapLen && Nodes(heap[..], heapLen, tree.Length)
      requires |key| == tree.Length && HeapFrom(heap[..], key, 1, heapLen)
      requires node < tree.Length && Active(heap[..], heapLen)[node as int] == 0
      requires forall i | 0 <= i < tree.Length && i != node :: Keys(tree[..], depth[..])[i] == key[i]
      modifies heap
      ensures IsHeap(tree) && heap[heapLen + 1..] == old(heap[heapLen + 1..])
      ensures Active(heap[..], heapLen)
              == old(Active(heap[..], heapLen)) - multiset{old(heap[1]) as int} + multiset{node as int}
    {
      hide Active, HeapFrom, Keys;
      ghost var h := heap[..];
      NotThere(h, heapLen, node);
      heap[1] := node;
      PutFirst(h, heap[..], heapLen, node);
      PutFirstHeap(h, heap[..], key, Keys(tree[..], depth[..]), heapLen, node);
      ghost var g := heap[..];
      Pqdownheap(tree, depth, heap, heapLen, 1);
      SameActive(g, heap[..], heapLen);
    }

    /** First half of a round: the least frequent node is taken out of the heap, the next one is
        left in its first place, and both are stored with the removed nodes. */
    method TakeTwo(desc: TreeDesc, ghost rem: seq<nat>, ghost leaves: set<nat>) returns (n: ush, m: ush)
      requires Valid() && desc.Valid() && IsHeap(desc.dynTree) && heapLen >= 2 && heapMax + |rem| == HEAP_SIZE
      requires Round(desc.dynTree[..], heap[..], heapLen, rem, desc.elems, leaves)
      modifies this`heapLen, this`heapMax, heap
      ensures heapLen == old(heapLen) - 1 && heapMax == old(heapMax) - 2
      ensures IsHeap(desc.dynTree) && heap[1] == m && InHeap(heap[..], rem + [n as nat, m as nat])
      ensures Active(heap[..], heapLen) == old(Active(heap[..], heapLen)) - multiset{n as int}
      ensures n in old(Active(heap[..], heapLen)) && m in Active(heap[..], heapLen)
      ensures n < desc.dynTree.Length && m < desc.dynTree.Length
      ensures forall x: int | x in old(Active(heap[..], heapLen)) && 0 <= x < desc.dynTree.Length ::
                desc.dynTree[n].fc <= desc.dynTree[x].fc
      ensures forall x: int | x in Active(heap[..], heapLen) && 0 <= x < desc.dynTree.Length ::
                desc.dynTree[m].fc <= desc.dynTree[x].fc
      ensures KeyLeast(desc.dynTree[..], depth[..], old(Active(heap[..], heapLen)), n)
      ensures KeyLeast(desc.dynTree[..], depth[..], Active(heap[..], heapLen), m)
    {
      hide Active, HeapFrom, Keys, Round, Merged, InHeap, KeyLeast;
      var tree := desc.dynTree;
      ghost var t, h, len, key := tree[..], heap[..], heapLen, Keys(tree[..], depth[..]);
      RoundBounds(t, h, len, rem, desc.elems, leaves);
      FirstLeast(h, t, depth[..], len);
      RootKeyLeast(h, t, depth[..], len);
      ActiveHas(h, len, 1);
      n := RemoveLeast(tree);
      ghost var h1 := heap[..];
      FirstLeast(h1, t, depth[..], heapLen);
      RootKeyLeast(h1, t, depth[..], heapLen);
      ActiveHas(h1, heapLen, 1);
      InHeapTail(h, h1, len, rem);
      m := heap[1];
      PushRemoved(n, m);
      Pushed(h1, heap[..], heapLen, rem, n, m);
      FrontSame(h1, heap[..], heapLen);
      FrontHeap(h1, heap[..], key, heapLen);
    }

    /** One round: the two least frequent nodes get a father, who takes their place. */
    method Combine(desc: TreeDesc, node: nat, ghost rem: seq<nat>, ghost leaves: set<nat>)
      returns (ghost more: seq<nat>)
      requires Valid() && desc.Valid() && IsHeap(desc.dynTree) && heapLen >= 2 && heapMax + |rem| == HEAP_SIZE
      requires Round(desc.dynTree[..], heap[..], heapLen, rem, desc.elems, leaves) && node == desc.elems + |rem| / 2
      requires Ties(desc.dynTree[..], depth[..], Active(heap[..], heapLen), rem, desc.elems, leaves)
      modifies this`heapLen, this`heapMax, heap, depth, desc.dynTree
      ensures IsHeap(desc.dynTree) && heapLen == old(heapLen) - 1 && heapMax + |more| == HEAP_SIZE
      ensures |more| == |rem| + 2
      ensures Round(desc.dynTree[..], heap[..], heapLen, more, desc.elems, leaves)
      ensures Ties(desc.dynTree[..], depth[..], Active(heap[..], heapLen), more, desc.elems, leaves)
      ensures SameSymbols(old(desc.dynTree[..]), desc.dynTree[..], desc.elems, leaves)
    {
      hide Active, HeapFrom, Keys, Round, Merged, InHeap, KeyLeast, Ties, NodeAdded;
      var tree := desc.dynTree;
      ghost var t, h, len, key := tree[..], heap[..], heapLen, Keys(tree[..], depth[..]);
      RoundBounds(t, h, len, rem, desc.elems, leaves);
      var n, m := TakeTwo(desc, rem, leaves);
      RoundNodes(t, h, len, rem, desc.elems, leaves, n, m);
      more := rem + [n as nat, m as nat];
      ghost var h2, d := heap[..], depth[..];
      NewFather(tree, n, m, node);
      RoundTies(t, d, depth[..], h, len, rem, desc.elems, leaves, n, m);
      KeysElsewhere(t, tree[..], d, depth[..], n, m, node);
      ReplaceFirst(tree, node, key);
      InHeapTail(h2, heap[..], heapLen, more);
      RoundStep(t, h, len, rem, desc.elems, leaves, n, m, heap[..]);
      RoundLeaves(t, h, len, rem, desc.elems, leaves, n, m);
      MergedLeaves(t, n, m, node, desc.elems, leaves);
    }

    /** The first loop of build_tree: the symbols that occur go into the array, the others get no length. */
    method CollectSymbols(desc: TreeDesc) returns (maxCode: int)
      requires Valid() && desc.Valid()
      modifies this`heapLen, this`heapMax, heap, depth, desc.dynTree
      ensures heapMax == HEAP_SIZE && Listed(heap[..], heapLen, desc.dynTree[..], desc.elems)
      ensures forall n | 0 <= n < desc.dynTree.Length :: desc.dynTree[n].fc == old(desc.dynTree[n].fc)
      ensures forall n | 0 <= n < desc.elems && desc.dynTree[n].fc == 0 :: desc.dynTree[n].dl == 0
      ensures forall n | 0 <= n < desc.elems && desc.dynTree[n].fc != 0 :: depth[n] == 0
      ensures -1 <= maxCode < desc.elems && (maxCode >= 0 ==> desc.dynTree[maxCode].fc != 0)
      ensures forall n | maxCode < n < desc.elems :: desc.dynTree[n].fc == 0
    {
      hide Listed;
      var tree := desc.dynTree;
      heapLen := 0;
      heapMax := HEAP_SIZE;
      maxCode := -1;
      ListedEmpty(heap[..], tree[..]);
      for n := 0 to desc.elems
        invariant heapMax == HEAP_SIZE && heapLen <= n && Listed(heap[..], heapLen, tree[..], n)
        invariant forall k | 0 <= k < tree.Length :: tree[k].fc == old(tree[k].fc)
        invariant forall k | 0 <= k < n && tree[k].fc == 0 :: tree[k].dl == 0
        invariant forall k | 0 <= k < n && tree[k].fc != 0 :: depth[k] == 0
        invariant -1 <= maxCode < n && (maxCode >= 0 ==> tree[maxCode].fc != 0)
        invariant forall k | maxCode < k < n :: tree[k].fc == 0
      {
        ListedStep(heap[..], heapLen, tree[..], n);
        ghost var t, h := tree[..], heap[..];
        if tree[n].fc != 0 {
          heapLen := heapLen + 1;
          heap[heapLen] := n;
          maxCode := n;
          depth[n] := 0;
          assert heap[..] == h[heapLen := n];
        } else {
          tree[n] := tree[n].(dl := 0);
          ListedSame(h, heapLen, t, tree[..], n + 1);
        }
      }
    }

    /** Adds a symbol that does not occur: the next one after the last code if that is below 3, else 0. */
    method ForceOne(desc: TreeDesc, maxCode0: int, ghost f: seq<nat>, ghost forced: seq<nat>)
      returns (maxCode: int, n: ush)
      requires Valid() && desc.Valid() && Listed(heap[..], heapLen, desc.dynTree[..], desc.elems) && heapLen < 2
      requires -1 <= maxCode0 < desc.elems && (maxCode0 >= 0 ==> desc.dynTree[maxCode0].fc != 0)
      requires forall k | maxCode0 < k < desc.elems :: desc.dynTree[k].fc == 0
      requires Forcible(f, forced) && Freqs(desc.dynTree[..], desc.elems) == ForceFreqs(f, forced)
      requires forall k | 0 <= k < desc.elems && desc.dynTree[k].fc != 0 :: depth[k] == 0
      modifies this`heapLen, this`optLen, this`staticLen, heap, depth, desc.dynTree
      ensures forall k | 0 <= k < desc.elems && desc.dynTree[k].fc != 0 :: depth[k] == 0
      ensures heapLen == old(heapLen) + 1 && Listed(heap[..], heapLen, desc.dynTree[..], desc.elems)
      ensures Forcible(f, forced + [n as nat])
      ensures Freqs(desc.dynTree[..], desc.elems) == ForceFreqs(f, forced + [n as nat])
      ensures n < desc.elems && desc.dynTree[..] == old(desc.dynTree[..])[n := old(desc.dynTree[n]).(fc := 1)]
      ensures optLen == old(optLen) - 1
      ensures staticLen == old(staticLen) - (if desc.staticTree == null then 0 else desc.staticTree[n].dl)
      ensures -1 <= maxCode < desc.elems && (maxCode >= 0 ==> desc.dynTree[maxCode].fc != 0)
      ensures forall k | maxCode < k < desc.elems :: desc.dynTree[k].fc == 0
    {
      hide Listed, ForceFreqs, Forcible;
      var tree := desc.dynTree;
      ghost var t, h := tree[..], heap[..];
      maxCode := maxCode0;
      if maxCode >= 2 && tree[0].fc != 0 {
        ListedTwo(h, heapLen, t, desc.elems, 0, maxCode);
        assert false;
      }
      if maxCode < 2 {
        maxCode := maxCode + 1;
        n := maxCode;
      } else {
        n := 0;
      }
      ListedForce(h, heapLen, t, desc.elems, n);
      assert Freqs(t, desc.elems)[n] == 0;
      ForceOneMore(f, forced, n);
      heapLen := heapLen + 1;
      heap[heapLen] := n;
      tree[n] := tree[n].(fc := 1);
      depth[n] := 0;
      optLen := optLen - 1;
      if desc.staticTree != null { staticLen := staticLen - desc.staticTree[n].dl; }
      assert heap[..] == h[heapLen := n] && tree[..] == t[n := t[n].(fc := 1)];
      assert Freqs(tree[..], desc.elems) == Freqs(t, desc.elems)[n := 1];
    }

    /** At least two codes are forced into the tree, so that there is always one bit to send. */
    method ForceTwo(desc: TreeDesc, maxCode0: int) returns (maxCode: int, ghost forced: seq<nat>)
      requires Valid() && desc.Valid() && Listed(heap[..], heapLen, desc.dynTree[..], desc.elems)
      requires -1 <= maxCode0 < desc.elems && (maxCode0 >= 0 ==> desc.dynTree[maxCode0].fc != 0)
      requires forall n | maxCode0 < n < desc.elems :: desc.dynTree[n].fc == 0
      requires forall n | 0 <= n < desc.elems && desc.dynTree[n].fc != 0 :: depth[n] == 0
      modifies this`heapLen, this`optLen, this`staticLen, heap, depth, desc.dynTree
      ensures forall n | 0 <= n < desc.elems && desc.dynTree[n].fc != 0 :: depth[n] == 0
      ensures Listed(heap[..], heapLen, desc.dynTree[..], desc.elems) && heapLen >= 2
      ensures Forcible(old(Freqs(desc.dynTree[..], desc.elems)), forced)
      ensures Freqs(desc.dynTree[..], desc.elems) == ForceFreqs(old(Freqs(desc.dynTree[..], desc.elems)), forced)
      ensures forall n | 0 <= n < desc.dynTree.Length :: desc.dynTree[n].dl == old(desc.dynTree[n].dl)
      ensures |forced| <= 2 && (forced != [] ==> heapLen == 2)
      ensures optLen == old(optLen) - |forced|
      ensures staticLen == old(staticLen) - (if desc.staticTree == null then 0
                                             else ForcedLens(desc.staticTree[..], forced))
      ensures -1 <= maxCode < desc.elems && forall n | maxCode < n < desc.elems :: desc.dynTree[n].fc == 0
    {
      hide Listed, ForceFreqs, ForcedLens, Distinct;
      ghost var f := Freqs(desc.dynTree[..], desc.elems);
      maxCode, forced := maxCode0, [];
      NoneForced(f, if desc.staticTree == null then [] else desc.staticTree[..]);
      while heapLen < 2
        invariant Listed(heap[..], heapLen, desc.dynTree[..], desc.elems)
        invariant Forcible(f, forced) && Freqs(desc.dynTree[..], desc.elems) == ForceFreqs(f, forced)
        invariant forall n | 0 <= n < desc.dynTree.Length :: desc.dynTree[n].dl == old(desc.dynTree[n].dl)
        invariant forall n | 0 <= n < desc.elems && desc.dynTree[n].fc != 0 :: depth[n] == 0
        invariant |forced| <= heapLen && (forced != [] ==> heapLen <= 2)
        invariant optLen == old(optLen) - |forced|
        invariant desc.staticTree == null ==> staticLen == old(staticLen)
        invariant desc.staticTree != null ==> staticLen == old(staticLen) - ForcedLens(desc.staticTree[..], forced)
        invariant -1 <= maxCode < desc.elems && (maxCode >= 0 ==> desc.dynTree[maxCode].fc != 0)
        invariant forall n | maxCode < n < desc.elems :: desc.dynTree[n].fc == 0
        decreases 2 - heapLen
      {
        var n;
        maxCode, n := ForceOne(desc, maxCode, f, forced);
        if desc.staticTree != null { ForcedLensPush(desc.staticTree[..], forced, n); }
        forced := forced + [n as nat];
      }
    }

    /** Establishes the heap order from the last father up. */
    method Heapify(tree: array<CtData>)
      requires Valid() && tree.Length <= HEAP_SIZE && 1 <= heapLen && Nodes(heap[..], heapLen, tree.Length)
      modifies heap
      ensures IsHeap(tree) && Active(heap[..], heapLen) == old(Active(heap[..], heapLen))
    {
      hide Active, Keys, HeapFrom;
      ghost var h := heap[..];
      var n := heapLen / 2;
      NoFathers(h, Keys(tree[..], depth[..]), n + 1, heapLen);
      while n >= 1
        invariant 0 <= n <= heapLen / 2 && HeapAfter(tree, n)
        invariant Active(heap[..], heapLen) == Active(h, heapLen)
      {
        SiftDown(tree, n);
        n := n - 1;
      }
    }

    /** The nodes of the heap, which behind position n are in order. */
    ghost predicate HeapAfter(tree: array<CtData>, n: nat)
      requires Valid() && tree.Length <= HEAP_SIZE
      reads this, heap, depth, tree
    {
      1 <= heapLen && Nodes(heap[..], heapLen, tree.Length)
        && HeapFrom(heap[..], Keys(tree[..], depth[..]), n + 1, heapLen)
    }

    method SiftDown(tree: array<CtData>, n: nat)
      requires Valid() && tree.Length <= HEAP_SIZE && 1 <= n <= heapLen && HeapAfter(tree, n)
      modifies heap
      ensures HeapAfter(tree, n - 1) && Active(heap[..], heapLen) == old(Active(heap[..], heapLen))
    {
      hide Active, Keys, HeapFrom;
      ghost var g := heap[..];
      Pqdownheap(tree, depth, heap, heapLen, n);
      SameActive(g, heap[..], heapLen);
    }

    /** Combines nodes until one is left. */
    method MergeAll(desc: TreeDesc, ghost leaves: set<nat>) returns (ghost rem: seq<nat>)
      requires Valid() && desc.Valid() && IsHeap(desc.dynTree) && heapLen >= 2 && heapMax == HEAP_SIZE
      requires Round(desc.dynTree[..], heap[..], heapLen, [], desc.elems, leaves)
      requires Ties(desc.dynTree[..], depth[..], Active(heap[..], heapLen), [], desc.elems, leaves)
      modifies this`heapLen, this`heapMax, heap, depth, desc.dynTree
      ensures heapLen == 1 && |rem| >= 2 && heapMax + |rem| == HEAP_SIZE
      ensures Round(desc.dynTree[..], heap[..], heapLen, rem, desc.elems, leaves)
      ensures Ties(desc.dynTree[..], depth[..], Active(heap[..], heapLen), rem, desc.elems, leaves)
      ensures SameSymbols(old(desc.dynTree[..]), desc.dynTree[..], desc.elems, leaves)
    {
      hide Round, HeapFrom, Keys, SameSymbols, Ties, Active;
      ghost var t0 := desc.dynTree[..];
      var node := desc.elems;
      rem := [];
      RoundBounds(t0, heap[..], heapLen, rem, desc.elems, leaves);
      SameSymbolsRefl(t0, desc.elems, leaves);
      while true
        invariant IsHeap(desc.dynTree) && heapLen >= 2 && heapMax + |rem| == HEAP_SIZE && node == desc.elems + |rem| / 2
        invariant Round(desc.dynTree[..], heap[..], heapLen, rem, desc.elems, leaves)
        invariant Ties(desc.dynTree[..], depth[..], Active(heap[..], heapLen), rem, desc.elems, leaves)
        invariant SameSymbols(t0, desc.dynTree[..], desc.elems, leaves)
        decreases heapLen
      {
        ghost var t := desc.dynTree[..];
        rem := Combine(desc, node, rem, leaves);
        SameSymbolsTrans(t0, t, desc.dynTree[..], desc.elems, leaves);
        node := node + 1;
        if heapLen < 2 { break; }
      }
    }

    /** The heap holds the symbols that occur, and they have frequencies f. */
    ghost predicate Heaped(desc: TreeDesc, f: seq<nat>)
      reads this, heap, depth, desc, desc.dynTree
    {
      && Valid() && desc.Valid() && IsHeap(desc.dynTree) && heapLen >= 2 && heapMax == HEAP_SIZE
      && Starts(desc.dynTree[..], heap[..], heapLen, f, desc.elems, desc.maxCode)
      && Ties(desc.dynTree[..], depth[..], Active(heap[..], heapLen), [], desc.elems,
              Occurring(desc.dynTree[..], desc.elems))
    }

    /** Merges everything in the heap, and puts the root in front of the nodes removed. The order of removal breaks
        ties by height. */
    method MergeHeap(desc: TreeDesc, ghost f0: seq<nat>)
      returns (ghost s: seq<nat>, ghost f: seq<nat>, ghost leaves: set<nat>, ghost heights: seq<nat>)
      requires Heaped(desc, f0)
      modifies this`heapLen, this`heapMax, heap, depth, desc.dynTree
      ensures Finished(desc, s, f, leaves) && MergedFrom(f0, s, f, leaves, heights)
      ensures leaves == Occurring(desc.dynTree[..], desc.elems) && Freqs(desc.dynTree[..], desc.elems) == f0
    {
      hide Round, HeapFrom, Keys, Shape, InHeap, Linked, Ties, Active, Tied;
      ghost var t0 := desc.dynTree[..];
      leaves := Occurring(t0, desc.elems);
      ghost var rem := MergeAll(desc, leaves);
      ghost var t, h := desc.dynTree[..], heap[..];
      RoundBounds(t, h, 1, rem, desc.elems, leaves);
      RoundDone(t, h, rem, desc.elems, leaves);
      s, f := rem + [h[1] as nat], Freqs(t, desc.elems + |rem| / 2);
      heapMax := heapMax - 1;
      heap[heapMax] := heap[1];
      PushedRoot(h, heap[..], rem);
      assert f[..desc.elems] == f0;
      FinishedSymbols(t0, t, f0, desc.elems, leaves);
      heights := RoundTied(t, depth[..], h, rem, desc.elems, leaves);
      assert Freqs(t, desc.elems) == f0;
    }

    /** From the heap to the lengths: merging, then gen_bitlen. */
    method LengthsFromHeap(desc: TreeDesc, ghost f0: seq<nat>) returns (ghost g: Merge)
      requires Heaped(desc, f0)
      modifies this, heap, depth, blCount, desc.dynTree
      ensures Freqs(desc.dynTree[..], desc.elems) == f0
      ensures LengthsFor(desc, Occurring(desc.dynTree[..], desc.elems))
      ensures optLen == old(optLen) + Paid(f0, desc.dynTree[..], desc.Extra(), desc.elems)
      ensures staticLen == old(staticLen) + (if desc.staticTree == null then 0
                                             else Paid(f0, desc.staticTree[..], desc.Extra(), desc.elems))
      ensures MergeOf(f0, desc.maxLength, g)
      ensures TooDeep(g, desc.elems, desc.maxLength) == 0 ==> Best(f0, LensOf(desc.dynTree[..], desc.elems))
      ensures TooDeep(g, desc.elems, desc.maxLength) != 0 ==>
                && (exists n | 0 <= n < desc.elems :: LensOf(desc.dynTree[..], desc.elems)[n] == desc.maxLength)
                && RarerLonger(f0, LensOf(desc.dynTree[..], desc.elems), Occurring(desc.dynTree[..], desc.elems))
    {
      hide Shape, InHeap, Linked, Paid, Complete, Best, Cost, CountsOf, MergedFrom, Depths, CutFrom, Occurring;
      hide RarerLonger;
      ghost var s, f, leaves, heights := MergeHeap(desc, f0);
      MergedPrefix(f0, s, f, leaves, heights);
      ghost var cut, bits := GenBitlen(desc, s, f, leaves);
      g := Merge(s, f, bits);
      MergeIs(f0, s, f, leaves, heights, bits, desc.maxLength);
      assert Freqs(desc.dynTree[..], desc.elems) == f0;
      OccurringSame(desc.dynTree[..], f0, s, f, leaves, heights);
      PaidSame(f, f0, desc.dynTree[..], desc.Extra(), desc.elems);
      if desc.staticTree != null { PaidSame(f, f0, desc.staticTree[..], desc.Extra(), desc.elems); }
      if cut != 0 { RarerFirst(f0, f, LensOf(desc.dynTree[..], desc.elems), leaves); }
      if cut == 0 { TreeBest(f0, s, f, leaves, heights, bits, desc.maxLength); }
    }

    /** The first half of build_tree: the heap of the symbols that occur, at least two of them. */
    method StartHeap(desc: TreeDesc, ghost f0: seq<nat>)
      returns (ghost f: seq<nat>, ghost forced: seq<nat>, ghost list: seq<ush>)
      requires Valid() && desc.Valid() && f0 == Freqs(desc.dynTree[..], desc.elems) && Sum(f0, 0, desc.elems) < 0xfffe
      modifies this, heap, depth, desc, desc.dynTree
      ensures Heaped(desc, f)
      ensures Forcible(f0, forced) && f == ForceFreqs(f0, forced) && |forced| <= 2
      ensures TwoOccur(f) && (forced != [] ==> Listed(list, 2, desc.dynTree[..], desc.elems))
      ensures 0 <= desc.maxCode < desc.elems && forall n | desc.maxCode < n < desc.elems :: f[n] == 0
      ensures optLen == old(optLen) - |forced|
      ensures staticLen == old(staticLen) - (if desc.staticTree == null then 0
                                             else ForcedLens(desc.staticTree[..], forced))
    {
      hide Listed, ForceFreqs, Forcible, ForcedLens, Sum, Active, Round, HeapFrom, Keys;
      var maxCode := CollectSymbols(desc);
      assert Freqs(desc.dynTree[..], desc.elems) == f0;
      maxCode, forced := ForceTwo(desc, maxCode);
      desc.maxCode := maxCode;
      f := Freqs(desc.dynTree[..], desc.elems);
      list := heap[..];
      ListedNodes(list, heapLen, desc.dynTree[..], desc.elems);
      assert list[1] <= maxCode;
      Heapify(desc.dynTree);
      ForcedSum(f0, forced);
      ListedTies(list, heapLen, desc.dynTree[..], depth[..], desc.elems);
      ListedTwoOccur(list, heapLen, desc.dynTree[..], desc.elems);
      FirstRound(heap[..], list, heapLen, desc.dynTree[..], desc.elems);
      forall n | 0 <= n < desc.elems && f[n] == 0
        ensures desc.dynTree[n].dl == 0
      {
        StillAbsent(f0, forced, n);
      }
    }

    /** What build_tree leaves behind for symbols that occurred f0 times: a complete code with its
        codewords, in which every symbol that occurred has one. */
    ghost predicate Built(desc: TreeDesc, f0: seq<nat>)
      requires desc.Valid()
      reads desc, desc.dynTree
    {
      var lens := LensOf(desc.dynTree[..], desc.elems);
      && |f0| == desc.elems && Complete(lens, desc.maxLength) && CodesFor(desc.dynTree[..], lens)
      && (forall n | 0 <= n < desc.elems && f0[n] > 0 :: lens[n] >= 1)
      && 0 <= desc.maxCode < desc.elems && (forall n | desc.maxCode < n < desc.elems :: lens[n] == 0)
    }

    /** Builds the tree for the frequencies in desc.dynTree. The bits that the symbols take up are added
        to optLen and staticLen, whatever codes had to be forced and lengths to be corrected. Unless some node of
        the merge tree was too deep, no prefix code is cheaper, and none that is as cheap has a shorter longest
        codeword; if one was, some length is the greatest allowed, so shorter lengths tell that none was. */
    method BuildTree(desc: TreeDesc) returns (ghost f: seq<nat>, ghost g: Merge)
      requires Valid() && desc.Valid() && Sum(Freqs(desc.dynTree[..], desc.elems), 0, desc.elems) < 0xfffe
      modifies this, heap, depth, blCount, desc, desc.dynTree
      ensures var f0 := old(Freqs(desc.dynTree[..], desc.elems));
              && Built(desc, f0) && AtLeastTwo(f0, f)
              && optLen == old(optLen) + Paid(f0, desc.dynTree[..], desc.Extra(), desc.elems)
              && staticLen == old(staticLen) + (if desc.staticTree == null then 0
                                                else Paid(f0, desc.staticTree[..], desc.Extra(), desc.elems))
      ensures MergeOf(f, desc.maxLength, g)
      ensures Rarer(f, LensOf(desc.dynTree[..], desc.elems))
      ensures |f| == desc.elems && forall n | 0 <= n < desc.elems :: f[n] > 0 <==>
                LensOf(desc.dynTree[..], desc.elems)[n] >= 1
      ensures TooDeep(g, desc.elems, desc.maxLength) == 0 ==> Best(f, LensOf(desc.dynTree[..], desc.elems))
      ensures (forall n | 0 <= n < desc.elems :: LensOf(desc.dynTree[..], desc.elems)[n] < desc.maxLength) ==>
                Best(f, LensOf(desc.dynTree[..], desc.elems))
    {
      hide Complete, CountsOf, Best, CodesFor, Paid, Listed, Forcible, ForceFreqs, ForcedLens, AtLeastTwo, Sum, Starts;
      hide MergeOf, TooDeep, Ties, Round;
      ghost var f0, opt0, static0 := Freqs(desc.dynTree[..], desc.elems), optLen, staticLen;
      ghost var forced, list;
      f, forced, list := StartHeap(desc, f0);
      ghost var t := desc.dynTree[..];
      assert Freqs(t, desc.elems) == f by { StartFreqs(t, heap[..], heapLen, f, desc.elems, desc.maxCode); }
      ForcedFew(f0, f, forced, list, t);
      g := LengthsFromHeap(desc, f);
      ghost var after, lens := desc.dynTree[..], LensOf(desc.dynTree[..], desc.elems);
      OccurringLens(t, after, f, desc.elems);
      TreeCosts(f0, forced, list, t, after, desc.staticTree, desc.Extra(), desc.elems, desc.maxLength);
      GenCodes(desc.dynTree, desc.maxCode, blCount, lens, desc.maxLength);
      PaidByLens(f0, after, desc.dynTree[..], desc.Extra(), desc.elems);
      OccurredLens(f0, forced, lens);
      LensRarer(f, lens, after, desc.elems, desc.maxLength, TooDeep(g, desc.elems, desc.maxLength));
    }
  }

  /** Of two symbols that occur, the one that does so less often has no shorter length. */
  ghost predicate Rarer(f: seq<nat>, lens: seq<nat>)
  {
    |lens| == |f| && forall a: nat, b: nat | a < |f| && b < |f| && 0 < f[a] < f[b] :: lens[a] >= lens[b]
  }

  lemma RarerFirst(f0: seq<nat>, f: seq<nat>, lens: seq<nat>, leaves: set<nat>)
    requires RarerLonger(f, lens, leaves) && |f0| <= |f| && f[..|f0|] == f0
    ensures RarerLonger(f0, lens, leaves)
  {
  }

  /** Whether the lengths were cut or not. */
  lemma LensRarer(f: seq<nat>, lens: seq<nat>, t: seq<CtData>, elems: nat, max: nat, cut: nat)
    requires |f| == |lens| == elems <= |t| && Freqs(t, elems) == f && Complete(lens, max)
    requires forall n | 0 <= n < elems :: f[n] > 0 <==> lens[n] >= 1
    requires if cut == 0 then Best(f, lens) else RarerLonger(f, lens, Occurring(t, elems))
    ensures Rarer(f, lens)
  {
    hide Complete, KraftSum, Cheapest, Shallowest, RarerLonger;
    forall a: nat, b: nat | a < |f| && b < |f| && 0 < f[a] < f[b]
      ensures lens[a] >= lens[b]
    {
      assert Freqs(t, elems)[a] == t[a].fc && Freqs(t, elems)[b] == t[b].fc;
      if cut == 0 {
        CompleteEncodes(f, lens, max);
        CheapestRarer(f, lens, max, a, b);
      } else {
        RarerHere(f, lens, Occurring(t, elems), a, b);
      }
    }
  }

  lemma RarerHere(f: seq<nat>, lens: seq<nat>, leaves: set<nat>, a: nat, b: nat)
    requires RarerLonger(f, lens, leaves) && a in leaves && b in leaves && a < |f| == |lens| && b < |f| && f[a] < f[b]
    ensures lens[a] >= lens[b]
  {
  }

  lemma CompleteEncodes(f: seq<nat>, lens: seq<nat>, max: nat)
    requires Complete(lens, max) && |f| == |lens| && forall n | 0 <= n < |f| :: f[n] > 0 <==> lens[n] >= 1
    ensures Encodes(f, lens, max)
  {
  }

  /** The merge tree of the symbols that occur, with its heights. */
  ghost predicate MergedFrom(f0: seq<nat>, s: seq<nat>, f: seq<nat>, leaves: set<nat>, heights: seq<nat>)
  {
    && |f0| <= |f| && f[..|f0|] == f0 && Shape(s, f, |f0|, leaves) && Tied(s, f, |f0|, heights) && |heights| == |f|
    && leaves == (set n: nat | n < |f0| && f0[n] > 0) && forall n: nat | n in leaves :: heights[n] == 0
  }

  lemma MergedPrefix(f0: seq<nat>, s: seq<nat>, f: seq<nat>, leaves: set<nat>, heights: seq<nat>)
    requires MergedFrom(f0, s, f, leaves, heights)
    ensures |f0| <= |f| && f[..|f0|] == f0
  {
  }

  lemma MergeIs(f0: seq<nat>, s: seq<nat>, f: seq<nat>, leaves: set<nat>, heights: seq<nat>, bits: seq<nat>, max: nat)
    requires MergedFrom(f0, s, f, leaves, heights) && |bits| == |f| && Depths(bits, s, |f0|, max)
    ensures MergeOf(f0, max, Merge(s, f, bits))
  {
    hide Shape, Depths, Tied;
  }

  lemma OccurringSame(t: seq<CtData>, f0: seq<nat>, s: seq<nat>, f: seq<nat>, leaves: set<nat>, heights: seq<nat>)
    requires MergedFrom(f0, s, f, leaves, heights) && |f0| <= |t| && Freqs(t, |f0|) == f0
    ensures Occurring(t, |f0|) == leaves
  {
    hide Shape, Tied;
    forall n: nat | n < |f0|
      ensures f0[n] == t[n].fc
    {
      assert f0[n] == Freqs(t, |f0|)[n];
    }
  }

  /** An uncut merge tree is a best one. */
  lemma TreeBest(f0: seq<nat>, s: seq<nat>, f: seq<nat>, leaves: set<nat>, heights: seq<nat>, bits: seq<nat>, max: nat)
    requires MergedFrom(f0, s, f, leaves, heights) && |bits| == |f| && Depths(bits, s, |f0|, max)
    requires Sum(Cost(f0, bits[..|f0|]), 0, |f0|) == Sum(f, |f0|, |f|)
    ensures Best(f0, bits[..|f0|])
  {
    hide Shape, Tied, Depths, Sum, Cost, Cheapest, Shallowest;
    assert f[..|f0|] == f0;
    forall n: nat | n < |f0|
      ensures f[n] == f0[n]
    {
      assert f[..|f0|][n] == f[n];
    }
    TreeCheapest(s, f, |f0|, leaves, bits[..|f0|]);
    TreeShallow(s, f, |f0|, leaves, heights, bits, max);
  }

  /** x comes first in the order of keys. */
  ghost predicate KeyLeast(t: seq<CtData>, d: seq<byte>, active: multiset<int>, x: nat)
  {
    x < |t| <= |d| && forall y: int | y in active && 0 <= y < |t| :: Key(t, d, x) <= Key(t, d, y)
  }

  lemma RootKeyLeast(h: seq<ush>, t: seq<CtData>, d: seq<byte>, len: nat)
    requires |t| <= |d| && Nodes(h, len, |t|) && len >= 1 && HeapFrom(h, Keys(t, d), 1, len)
    ensures KeyLeast(t, d, Active(h, len), h[1])
  {
    hide Active;
    forall x: int | x in Active(h, len) && 0 <= x < |t|
      ensures Key(t, d, h[1]) <= Key(t, d, x)
    {
      ActiveMember(h, len, x);
      var j :| 1 <= j <= len && h[j] == x;
      RootSmallest(h, Keys(t, d), len, j);
    }
  }

  /** The tie-break order over one round. */
  lemma RoundTies(t: seq<CtData>, d: seq<byte>, d': seq<byte>, h: seq<ush>, len: nat, rem: seq<nat>, elems: nat,
                  leaves: set<nat>,
                  n: nat, m: nat)
    requires Round(t, h, len, rem, elems, leaves) && Ties(t, d, Active(h, len), rem, elems, leaves)
    requires n in Active(h, len) && m in Active(h, len) - multiset{n}
    requires KeyLeast(t, d, Active(h, len), n) && KeyLeast(t, d, Active(h, len) - multiset{n}, m)
    requires NodeAdded(d, d', n, m, elems + |rem| / 2)
    ensures var node := elems + |rem| / 2;
            && n != m && n < node && m < node < |t| && node < 0x1_0000 && t[n].fc + t[m].fc < 0x1_0000
            && Ties(Merged(t, n, m, node), d', Active(h, len) - multiset{n, m} + multiset{node}, rem + [n, m], elems,
                    leaves)
  {
    hide Active, Ties, Merged, Merging, NodeAdded, ActiveFreqs;
    RoundNodes(t, h, len, rem, elems, leaves, n, m);
    var a := Active(h, len);
    assert forall x: int | x in a && x != n :: x in a - multiset{n};
    TiesStep(t, d, d', a, rem, elems, leaves, n, m, elems + |rem| / 2);
  }

  /** The tie-break order at the end. */
  lemma RoundTied(t: seq<CtData>, d: seq<byte>, h: seq<ush>, rem: seq<nat>, elems: nat, leaves: set<nat>)
    returns (heights: seq<nat>)
    requires Round(t, h, 1, rem, elems, leaves) && |rem| >= 2 && Ties(t, d, Active(h, 1), rem, elems, leaves)
    ensures elems + |rem| / 2 <= |t| && Tied(rem + [h[1] as nat], Freqs(t, elems + |rem| / 2), elems, heights)
    ensures |heights| == elems + |rem| / 2 && forall n: nat | n in leaves && n < |heights| :: heights[n] == 0
  {
    hide Active, Ties, Tied, Merging, ActiveFreqs, Father, Holds, Distinct, Sorted;
    RoundDone(t, h, rem, elems, leaves);
    ActiveOne(h);
    heights := TiesDone(t, d, h[1], rem, elems, leaves);
  }

  lemma ListedTwoOccur(h: seq<ush>, len: nat, t: seq<CtData>, elems: nat)
    requires Listed(h, len, t, elems) && elems <= |t| && len >= 2
    ensures TwoOccur(Freqs(t, elems))
  {
    ListedNodes(h, len, t, elems);
    var a: nat, b: nat := h[1], h[2];
    var f := Freqs(t, elems);
    assert Active(h, len)[a] <= 1;
    FirstTwoDiffer(h, len);
    assert f[a] > 0 && f[b] > 0;
    if a > b { a, b := b, a; }
    assert 0 <= a < b < |f|;
  }

  /** The first two places hold different nodes if the first node is there once. */
  lemma FirstTwoDiffer(h: seq<ush>, len: nat)
    requires 2 <= len < |h| && Active(h, len)[h[1] as int] <= 1
    ensures h[1] != h[2]
  {
    var rest := h[3..len + 1];
    assert h[1..len + 1] == [h[1], h[2]] + rest;
    assert multiset([h[1], h[2]] + rest) == multiset{h[1], h[2]} + multiset(rest);
  }

  lemma ListedTies(h: seq<ush>, len: nat, t: seq<CtData>, d: seq<byte>, elems: nat)
    requires Listed(h, len, t, elems) && elems <= |t| <= |d| && forall n | 0 <= n < elems && t[n].fc != 0 :: d[n] == 0
    ensures Ties(t, d, Active(h, len), [], elems, Occurring(t, elems))
  {
    forall x: int | x in Active(h, len)
      ensures x >= 0 && x in Occurring(t, elems)
    {
      assert Active(h, len)[x] >= 1;
    }
    FirstTies(t, d, Active(h, len), elems, Occurring(t, elems));
  }

  lemma FinishedSymbols(t0: seq<CtData>, t: seq<CtData>, f: seq<nat>, elems: nat, leaves: set<nat>)
    requires elems <= |t0| && SameSymbols(t0, t, elems, leaves) && leaves == Occurring(t0, elems)
    requires f == Freqs(t0, elems)
    requires forall n | 0 <= n < elems && f[n] == 0 :: t0[n].dl == 0
    ensures forall n: nat | n < elems && n !in leaves :: t[n] == CtData(0, 0)
    ensures forall n: nat | n in leaves :: n < elems && f[n] > 0
    ensures Occurring(t, elems) == leaves
  {
    forall n: nat | n < elems && n !in leaves
      ensures t[n] == CtData(0, 0)
    {
      assert t0[n].fc == 0 && f[n] == 0;
    }
  }

  lemma SameSymbolsRefl(t: seq<CtData>, elems: nat, leaves: set<nat>)
    requires elems <= |t|
    ensures SameSymbols(t, t, elems, leaves)
  {
  }

  lemma PaidSame(f: seq<nat>, g: seq<nat>, t: seq<CtData>, extra: seq<nat>, elems: nat)
    requires elems <= |t| && elems <= |extra| && elems <= |f| && |g| == elems && f[..elems] == g
    ensures Paid(f, t, extra, elems) == Paid(g, t, extra, elems)
  {
    var a, b := Pay(f, LensOf(t, elems), extra, elems), Pay(g, LensOf(t, elems), extra, elems);
    forall n | 0 <= n < elems
      ensures a[n] == b[n]
    {
      assert f[..elems][n] == f[n];
    }
    SumCongruence(a, b, 0, elems);
  }

  lemma PassFields(t: seq<CtData>, t0: seq<CtData>, s: seq<nat>, bits: seq<nat>, i: nat)
    requires Passed(t, t0, s, bits, i)
    ensures |t| == |t0| && Below(s, |bits|) && forall n | 0 <= n < |t| :: t[n].fc == t0[n].fc
    ensures forall n | 0 <= n < |t| && n !in s :: t[n].dl == t0[n].dl
  {
  }

  /** The sum built up over the nodes is what all the symbols cost. */
  lemma PaidFirst(t: seq<CtData>, s: seq<nat>, f: seq<nat>, lens: seq<nat>, extra: seq<nat>, elems: nat,
                  leaves: set<nat>)
    requires Shape(s, f, elems, leaves) && elems <= |t| && elems <= |extra| && elems <= |lens| && Below(s, |f|)
    requires forall n: nat | n < elems && n !in leaves :: f[n] == 0
    requires LensOf(t, elems) == lens[..elems]
    ensures elems <= |f| && PayFrom(s, f, lens, extra, elems, 0) == Paid(f, t, extra, elems)
  {
    PayAll(s, f, lens, extra, elems, leaves);
    assert Pay(f, lens, extra, elems) == Pay(f, LensOf(t, elems), extra, elems) by {
      forall n | 0 <= n < elems
        ensures lens[n] == LensOf(t, elems)[n]
      {
        assert lens[..elems][n] == lens[n];
      }
    }
  }

  lemma ShapeNodes(s: seq<nat>, f: seq<nat>, elems: nat, leaves: set<nat>)
    requires Shape(s, f, elems, leaves)
    ensures |s| >= 3 && Below(s, |f|) && s[|s| - 1] == |f| - 1 >= elems
  {
  }

  lemma HeapEntry(h: seq<ush>, s: seq<nat>, i: nat)
    requires InHeap(h, s) && i < |s|
    ensures |s| <= |h| && h[|h| - 1 - i] == s[i]
  {
  }

  lemma StartPay(s: seq<nat>, f: seq<nat>, lens: seq<nat>, extra: seq<nat>, elems: nat)
    requires Below(s, |f|) && elems <= |extra| && elems <= |lens| && |s| >= 1 && s[|s| - 1] >= elems
    ensures PayFrom(s, f, lens, extra, elems, |s| - 1) == 0
  {
    LastTerm(s, Pay(f, lens, extra, elems));
  }

  /** With the root's length set, the first pass can start. */
  lemma PassStart(t: seq<CtData>, t0: seq<CtData>, count: seq<nat>, s: seq<nat>, f: seq<nat>, bits: seq<nat>,
                  elems: nat, leaves: set<nat>, max: nat)
    requires Shape(s, f, elems, leaves) && Depths(bits, s, elems, max) && |bits| == |f| <= |t0|
    requires t == t0[s[|s| - 1] := t0[s[|s| - 1]].(dl := 0)]
    requires forall b | 0 <= b < |count| :: count[b] == 0
    ensures Below(s, |bits|) && Passed(t, t0, s, bits, |s| - 1) && Counted(count, s, bits, elems, |s| - 1)
    ensures CutFrom(bits, elems, max, |s| - 1) == 0
  {
    ShapeDistinct(s, f, elems, leaves);
    forall b | 0 <= b < |count|
      ensures count[b] == SumFrom(s, LenIs(bits, elems, b), |s| - 1)
    {
      LastTerm(s, LenIs(bits, elems, b));
    }
  }

  // ---------- build_tree as a whole ----------

  lemma StartFreqs(t: seq<CtData>, h: seq<ush>, len: nat, f: seq<nat>, elems: nat, maxCode: int)
    requires Starts(t, h, len, f, elems, maxCode)
    ensures elems <= |t| && Freqs(t, elems) == f
  {
    hide Round;
  }

  /** Codes are forced only when less than two symbols occur. */
  lemma ForcedFew(f0: seq<nat>, f: seq<nat>, forced: seq<nat>, list: seq<ush>, t: seq<CtData>)
    requires |f0| <= |t| && Forcible(f0, forced) && f == ForceFreqs(f0, forced) == Freqs(t, |f0|) && TwoOccur(f)
    requires forced != [] ==> Listed(list, 2, t, |f0|)
    ensures AtLeastTwo(f0, f)
  {
    hide Listed;
    forall n | 0 <= n < |f|
      ensures f[n] == f0[n] || (f0[n] == 0 && f[n] == 1 && n < 3)
    {
      ForceFreqsElsewhere(f0, forced, n);
    }
    if forced == [] {
      NoneForced(f0, []);
    } else {
      var a, b := ListedPair(list, t, |f0|);
      forall n | 0 <= n < |f|
        ensures f[n] > 0 <==> n == a || n == b
      {
        assert f[n] == t[n].fc;
      }
      assert OnlyTwo(f, a, b);
      var c := forced[0];
      ForceFreqsElsewhere(f0, forced, c);
      assert f[c] == 1 && f0[c] == 0;
      FewOccur(f0, f, a, b, c);
    }
  }

  lemma FewOccur(f0: seq<nat>, f: seq<nat>, a: nat, b: nat, c: nat)
    requires |f| == |f0| && OnlyTwo(f, a, b) && c < |f| && f[c] > 0 && f0[c] == 0
    requires forall n | 0 <= n < |f| && f0[n] > 0 :: f[n] > 0
    ensures !TwoOccur(f0)
  {
  }

  lemma OccurringLens(t: seq<CtData>, after: seq<CtData>, f: seq<nat>, elems: nat)
    requires elems <= |t| && elems <= |after| && f == Freqs(t, elems) == Freqs(after, elems)
    requires forall n: nat | n < elems :: n in Occurring(after, elems) <==> LensOf(after, elems)[n] >= 1
    ensures forall n: nat | n < elems :: t[n].fc != 0 <==> after[n].dl >= 1
    ensures forall n | 0 <= n < elems :: f[n] > 0 <==> LensOf(after, elems)[n] >= 1
  {
    forall n: nat | n < elems
      ensures t[n].fc != 0 <==> after[n].dl >= 1
      ensures f[n] > 0 <==> LensOf(after, elems)[n] >= 1
    {
      assert Freqs(t, elems)[n] == Freqs(after, elems)[n] == f[n];
      assert n in Occurring(after, elems) <==> after[n].fc != 0;
    }
  }

  /** What was subtracted for forced codes is what they cost, in the new tree and in the static one. */
  lemma TreeCosts(f0: seq<nat>, forced: seq<nat>, list: seq<ush>, t: seq<CtData>, after: seq<CtData>,
                  fixed: array?<CtData>, extra: seq<nat>, elems: nat, max: nat)
    requires Forcible(f0, forced) && |f0| == |extra| == elems <= |t| && elems <= |after|
    requires 3 <= elems && 1 <= max && forall n | 0 <= n < 3 :: extra[n] == 0
    requires fixed != null ==> elems <= fixed.Length
    requires forced != [] ==> Listed(list, 2, t, elems)
    requires Complete(LensOf(after, elems), max)
    requires forall n: nat | n < elems :: t[n].fc != 0 <==> after[n].dl >= 1
    requires Freqs(t, elems) == ForceFreqs(f0, forced)
    ensures Paid(ForceFreqs(f0, forced), after, extra, elems) == Paid(f0, after, extra, elems) + |forced|
    ensures fixed != null ==> Below(forced, fixed.Length)
                               && Paid(ForceFreqs(f0, forced), fixed[..], extra, elems) ==
                                  Paid(f0, fixed[..], extra, elems) + ForcedLens(fixed[..], forced)
  {
    hide Listed, Complete, Paid;
    PaidForced(f0, forced, after, extra, elems);
    if fixed != null { PaidForced(f0, forced, fixed[..], extra, elems); }
    if forced != [] {
      ForcedCostOne(list, t, elems, after, max, f0, forced);
    } else {
      NoneForced(f0, after);
    }
  }

  lemma PaidByLens(f: seq<nat>, t: seq<CtData>, t': seq<CtData>, extra: seq<nat>, elems: nat)
    requires elems <= |t| == |t'| && elems <= |extra| && elems <= |f|
    requires forall n | 0 <= n < |t| :: t[n].dl == t'[n].dl
    ensures LensOf(t, elems) == LensOf(t', elems) && Paid(f, t, extra, elems) == Paid(f, t', extra, elems)
  {
    assert LensOf(t, elems) == LensOf(t', elems);
  }

  lemma OccurredLens(f0: seq<nat>, forced: seq<nat>, lens: seq<nat>)
    requires Forcible(f0, forced) && |lens| == |f0|
    requires forall n | 0 <= n < |f0| :: ForceFreqs(f0, forced)[n] > 0 <==> lens[n] >= 1
    ensures forall n | 0 <= n < |f0| && f0[n] > 0 :: lens[n] >= 1
  {
    forall n | 0 <= n < |f0| && f0[n] > 0
      ensures lens[n] >= 1
    {
      ForceFreqsElsewhere(f0, forced, n);
    }
  }
}
