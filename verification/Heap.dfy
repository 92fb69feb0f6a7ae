/** The priority queue under gzip's tree construction: an array heap of node numbers
    ordered by frequency, then by depth. */
module Heap {
  import opened Bits

  /** One node of a code tree. The C fields are two unions: `fc` is the frequency and
      later the code, `dl` the father and later the code length. */
  datatype CtData = CtData(fc: ush, dl: ush)

  /** What SMALLER compares, as one number for each node. */
  ghost function Keys(tree: seq<CtData>, depth: seq<byte>): (k: seq<nat>)
    requires |tree| <= |depth|
    ensures |k| == |tree|
  {
    seq(|tree|, i requires 0 <= i < |tree| => tree[i].fc * 0x100 + depth[i])
  }

  predicate Smaller(tree: array<CtData>, depth: array<byte>, n: nat, m: nat)
    requires n < tree.Length <= depth.Length && m < tree.Length
    reads tree, depth
  {
    tree[n].fc < tree[m].fc || (tree[n].fc == tree[m].fc && depth[n] <= depth[m])
  }

  lemma SmallerIsKeyOrder(tree: array<CtData>, depth: array<byte>, n: nat, m: nat)
    requires n < tree.Length <= depth.Length && m < tree.Length
    ensures Smaller(tree, depth, n, m) <==>
            Keys(tree[..], depth[..])[n] <= Keys(tree[..], depth[..])[m]
  {
  }

  ghost predicate Nodes(h: seq<ush>, len: nat, count: nat)
  {
    len < |h| && forall i | 1 <= i <= len :: h[i] < count
  }

  /** Every father from position k on is no larger than its sons. */
  ghost predicate HeapFrom(h: seq<ush>, key: seq<nat>, k: nat, len: nat)
    requires Nodes(h, len, |key|)
  {
    forall j {:trigger h[j]} | 2 <= j <= len && k <= j / 2 :: key[h[j / 2]] <= key[h[j]]
  }

  /** The same, except for the sons of `hole`, which are only bounded by its father. */
  ghost predicate HeapExcept(h: seq<ush>, key: seq<nat>, k: nat, hole: nat, len: nat)
    requires Nodes(h, len, |key|)
  {
    && (forall j {:trigger h[j]} | 2 <= j <= len && k <= j / 2 && j / 2 != hole :: key[h[j / 2]] <= key[h[j]])
    && (hole / 2 >= k && hole >= 2 ==>
        forall j {:trigger h[j]} | 2 <= j <= len && j / 2 == hole :: key[h[hole / 2]] <= key[h[j]])
  }

  ghost function Swap(h: seq<ush>, i: nat, j: nat): seq<ush>
    requires i < |h| && j < |h|
  {
    h[i := h[j]][j := h[i]]
  }

  lemma SwapMultiset(h: seq<ush>, i: nat, j: nat, len: nat)
    requires 1 <= i < j <= len < |h|
    ensures multiset(Swap(h, i, j)[1..len + 1]) == multiset(h[1..len + 1])
  {
    var s := h[1..len + 1];
    assert Swap(h, i, j)[1..len + 1] == s[i - 1 := s[j - 1]][j - 1 := s[i - 1]];
  }

  /** Moving the smaller son up moves the hole down. */
  lemma SiftStep(h: seq<ush>, key: seq<nat>, k: nat, hole: nat, son: nat, len: nat)
    requires Nodes(h, len, |key|) && 1 <= k <= hole && son <= len && son / 2 == hole
    requires HeapExcept(h, key, k, hole, len)
    requires forall j {:trigger h[j]} | 2 <= j <= len && j / 2 == hole :: key[h[son]] <= key[h[j]]
    requires key[h[son]] <= key[h[hole]]
    ensures Nodes(Swap(h, hole, son), len, |key|)
    ensures HeapExcept(Swap(h, hole, son), key, k, son, len)
  {
    hide HeapExcept;
    SwapNodes(h, |key|, hole, son, len);
    var g := Swap(h, hole, son);
    forall j {:trigger g[j]} | 2 <= j <= len && k <= j / 2 && j / 2 != son
      ensures key[g[j / 2]] <= key[g[j]]
    {
      SiftedOther(h, key, k, hole, son, len, j);
    }
    forall j {:trigger g[j]} | 2 <= j <= len && j / 2 == son
      ensures key[g[son / 2]] <= key[g[j]]
    {
      SiftedSon(h, key, k, hole, son, len, j);
    }
    SiftedIs(g, key, k, son, len);
  }

  lemma SwapNodes(h: seq<ush>, n: nat, i: nat, j: nat, len: nat)
    requires Nodes(h, len, n) && 1 <= i <= len && 1 <= j <= len
    ensures Nodes(Swap(h, i, j), len, n)
  {
  }

  lemma SiftedOther(h: seq<ush>, key: seq<nat>, k: nat, hole: nat, son: nat, len: nat, j: nat)
    requires Nodes(h, len, |key|) && 1 <= k <= hole && son <= len && son / 2 == hole
    requires HeapExcept(h, key, k, hole, len)
    requires forall j {:trigger h[j]} | 2 <= j <= len && j / 2 == hole :: key[h[son]] <= key[h[j]]
    requires key[h[son]] <= key[h[hole]] && 2 <= j <= len && k <= j / 2 && j / 2 != son
    ensures Nodes(Swap(h, hole, son), len, |key|) && key[Swap(h, hole, son)[j / 2]] <= key[Swap(h, hole, son)[j]]
  {
    SwapNodes(h, |key|, hole, son, len);
    var a, b := h[j], h[j / 2];
    var c := h[son];
  }

  lemma SiftedSon(h: seq<ush>, key: seq<nat>, k: nat, hole: nat, son: nat, len: nat, j: nat)
    requires Nodes(h, len, |key|) && 1 <= k <= hole && son <= len && son / 2 == hole
    requires HeapExcept(h, key, k, hole, len) && 2 <= j <= len && j / 2 == son
    ensures Nodes(Swap(h, hole, son), len, |key|) && key[Swap(h, hole, son)[hole]] <= key[Swap(h, hole, son)[j]]
  {
    SwapNodes(h, |key|, hole, son, len);
    var a := h[j];
  }

  lemma SiftedIs(g: seq<ush>, key: seq<nat>, k: nat, hole: nat, len: nat)
    requires Nodes(g, len, |key|) && hole <= len
    requires forall j {:trigger g[j]} | 2 <= j <= len && k <= j / 2 && j / 2 != hole :: key[g[j / 2]] <= key[g[j]]
    requires 2 <= hole && forall j {:trigger g[j]} | 2 <= j <= len && j / 2 == hole :: key[g[hole / 2]] <= key[g[j]]
    ensures HeapExcept(g, key, k, hole, len)
  {
  }

  /** The smaller of the one or two sons that start at position j. */
  method SmallerSon(tree: array<CtData>, depth: array<byte>, heap: array<ush>, heapLen: nat, j: nat) returns (son: nat)
    requires tree.Length <= depth.Length && Nodes(heap[..], heapLen, tree.Length) && 2 <= j <= heapLen && j % 2 == 0
    ensures son == j || (son == j + 1 && j + 1 <= heapLen)
    ensures var key := Keys(tree[..], depth[..]);
            forall i {:trigger heap[i]} | 2 <= i <= heapLen && i / 2 == j / 2 :: key[heap[son]] <= key[heap[i]]
  {
    son := j;
    assert heap[j] == heap[..][j];
    if j < heapLen {
      assert heap[j + 1] == heap[..][j + 1];
      if Smaller(tree, depth, heap[j + 1], heap[j]) { son := j + 1; }
    }
  }

  /** Sifts heap[k] down: what was a heap below k becomes a heap from k on, with the same nodes. */
  method Pqdownheap(tree: array<CtData>, depth: array<byte>, heap: array<ush>, heapLen: nat, k: nat)
    requires tree.Length <= depth.Length && 1 <= k <= heapLen
    requires Nodes(heap[..], heapLen, tree.Length)
    requires HeapFrom(heap[..], Keys(tree[..], depth[..]), k + 1, heapLen)
    modifies heap
    ensures Nodes(heap[..], heapLen, tree.Length)
    ensures HeapFrom(heap[..], Keys(tree[..], depth[..]), k, heapLen)
    ensures multiset(heap[1..heapLen + 1]) == multiset(old(heap[1..heapLen + 1]))
    ensures heap[heapLen + 1..] == old(heap[heapLen + 1..])
  {
    hide Keys, HeapFrom, HeapExcept, Swap;
    ghost var key, start := Keys(tree[..], depth[..]), heap[..];
    var v := heap[k];
    var hole, j := k, 2 * k;
    ghost var full := start;
    HeapFromIsExcept(full, key, k, heapLen);
    while j <= heapLen
      invariant 1 <= k <= hole <= heapLen && j == 2 * hole
      invariant Sifting(full, heap[..], start, key, k, hole, v, heapLen)
      decreases heapLen - hole
    {
      j := SmallerSon(tree, depth, heap, heapLen, j);
      assert heap[..][j] == heap[j] == full[j];
      SonsInFull(full, heap[..], key, hole, j, v, heapLen);
      SmallerIsKeyOrder(tree, depth, v, heap[j]);
      if Smaller(tree, depth, v, heap[j]) {
        break;
      }
      ghost var before := heap[..];
      heap[hole] := heap[j];
      SiftSwap(full, before, heap[..], start, key, k, hole, j, v, heapLen);
      full := Swap(full, hole, j);
      hole := j;
      j := 2 * j;
    }
    HeapExceptIsFrom(full, key, k, hole, heapLen);
    heap[hole] := v;
    assert heap[..] == full;
  }

  /** The loop invariant: `full` is the heap with v in the hole. */
  ghost predicate Sifting(full: seq<ush>, h: seq<ush>, start: seq<ush>, key: seq<nat>, k: nat, hole: nat, v: ush,
                          len: nat)
  {
    && |full| == |h| == |start| && 1 <= k <= hole <= len < |h| && full == h[hole := v]
    && Nodes(h, len, |key|) && Nodes(full, len, |key|) && HeapExcept(full, key, k, hole, len)
    && multiset(full[1..len + 1]) == multiset(start[1..len + 1])
    && full[len + 1..] == start[len + 1..]
  }

  lemma HeapFromIsExcept(h: seq<ush>, key: seq<nat>, k: nat, len: nat)
    requires Nodes(h, len, |key|) && 1 <= k && HeapFrom(h, key, k + 1, len)
    ensures HeapExcept(h, key, k, k, len)
  {
  }

  lemma HeapExceptIsFrom(h: seq<ush>, key: seq<nat>, k: nat, hole: nat, len: nat)
    requires Nodes(h, len, |key|) && HeapExcept(h, key, k, hole, len)
    requires forall j {:trigger h[j]} | 2 <= j <= len && j / 2 == hole :: key[h[hole]] <= key[h[j]]
    ensures HeapFrom(h, key, k, len)
  {
  }

  lemma SonsInFull(full: seq<ush>, h: seq<ush>, key: seq<nat>, hole: nat, son: nat, v: ush, len: nat)
    requires 1 <= hole <= len < |h| && full == h[hole := v] && Nodes(full, len, |key|) && Nodes(h, len, |key|)
    requires son / 2 == hole && son <= len
    requires forall i {:trigger h[i]} | 2 <= i <= len && i / 2 == hole :: key[h[son]] <= key[h[i]]
    ensures full[son] == h[son]
    ensures forall i {:trigger full[i]} | 2 <= i <= len && i / 2 == hole :: key[full[son]] <= key[full[i]]
  {
    forall i {:trigger full[i]} | 2 <= i <= len && i / 2 == hole
      ensures key[full[son]] <= key[full[i]]
    {
      var x := h[i];
    }
  }

  lemma SiftSwap(full: seq<ush>, h: seq<ush>, after: seq<ush>, start: seq<ush>, key: seq<nat>,
                 k: nat, hole: nat, son: nat, v: ush, len: nat)
    requires Sifting(full, h, start, key, k, hole, v, len) && v < |key|
    requires son / 2 == hole && son <= len
    requires after == h[hole := h[son]]
    requires forall i {:trigger full[i]} | 2 <= i <= len && i / 2 == hole :: key[full[son]] <= key[full[i]]
    requires key[full[son]] <= key[v]
    ensures Sifting(Swap(full, hole, son), after, start, key, k, son, v, len)
  {
    hide HeapExcept;
    SwapMultiset(full, hole, son, len);
    SiftStep(full, key, k, hole, son, len);
    SwapTail(full, start, hole, son, len);
  }

  lemma SwapTail(full: seq<ush>, start: seq<ush>, a: nat, b: nat, len: nat)
    requires a <= len && b <= len < |full| == |start| && full[len + 1..] == start[len + 1..]
    ensures Swap(full, a, b)[len + 1..] == start[len + 1..]
  {
  }

  lemma NoFathers(h: seq<ush>, key: seq<nat>, k: nat, len: nat)
    requires Nodes(h, len, |key|) && len / 2 < k
    ensures HeapFrom(h, key, k, len)
  {
  }

  /** The root of a heap is its smallest node. */
  lemma {:induction false} RootSmallest(h: seq<ush>, key: seq<nat>, len: nat, j: nat)
    requires Nodes(h, len, |key|) && HeapFrom(h, key, 1, len) && 1 <= j <= len
    ensures key[h[1]] <= key[h[j]]
    decreases j
  {
    if j >= 2 {
      var x := h[j];
      RootSmallest(h, key, len, j / 2);
    }
  }
}
