/** The first pass of gen_bitlen: code lengths from a finished merge tree, computed in place. */
module CutLengths {
  import opened Bits
  import opened Sums
  import opened Heap
  import opened HuffmanShape

  const L_CODES := 286
  const HEAP_SIZE := 573
  const MAX_BITS := 15

  /** The end of the heap array lists the nodes: the first one taken out comes last. */
  ghost predicate InHeap(h: seq<ush>, s: seq<nat>)
  {
    |s| <= |h| && forall i | 0 <= i < |s| :: h[|h| - 1 - i] == s[i]
  }

  /** Every node but the root names its father. */
  ghost predicate Linked(t: seq<CtData>, s: seq<nat>, elems: nat)
  {
    |s| >= 1 && Below(s, |t|) && forall i | 0 <= i < |s| - 1 :: t[s[i]].dl == elems + i / 2
  }

  /** The state of the first pass: from position i on, fathers have been replaced by lengths. */
  ghost predicate Passed(t: seq<CtData>, t0: seq<CtData>, s: seq<nat>, bits: seq<nat>, i: nat)
  {
    && |t| == |t0| && Below(s, |t|) && Below(s, |bits|)
    && (forall n | 0 <= n < |t| :: t[n].fc == t0[n].fc)
    && (forall n | 0 <= n < |t| && n !in s :: t[n].dl == t0[n].dl)
    && (forall j | i <= j < |s| :: t[s[j]].dl == bits[s[j]])
    && (forall j | 0 <= j < i && j < |s| :: t[s[j]].dl == t0[s[j]].dl)
  }

  lemma PassedStep(t: seq<CtData>, t0: seq<CtData>, s: seq<nat>, bits: seq<nat>, i: nat)
    requires Passed(t, t0, s, bits, i + 1) && i < |s| && Distinct(s) && bits[s[i]] < 0x1_0000
    ensures Passed(t[s[i] := t[s[i]].(dl := bits[s[i]])], t0, s, bits, i)
  {
    var n := s[i];
    var t' := t[n := t[n].(dl := bits[n])];
    forall j | i <= j < |s|
      ensures t'[s[j]].dl == bits[s[j]]
    {
      if j > i { assert s[j] != n; }
    }
    forall j | 0 <= j < i
      ensures t'[s[j]].dl == t0[s[j]].dl
    {
      assert s[j] != n;
    }
  }

  /** The father's field already holds his length when his sons come up. */
  lemma FatherPassed(t: seq<CtData>, t0: seq<CtData>, s: seq<nat>, f: seq<nat>, elems: nat, leaves: set<nat>,
                     bits: seq<nat>, max: nat, i: nat)
    requires Passed(t, t0, s, bits, i + 1) && i < |s| - 1 && Linked(t0, s, elems)
    requires Shape(s, f, elems, leaves) && Depths(bits, s, elems, max)
    ensures var u := t[s[i]].dl;
            u < |bits| && u < |t| && t[u].dl == bits[u] && bits[s[i]] == Min(bits[u] + 1, max)
  {
    var u := elems + i / 2;
    DepthAt(bits, s, elems, max, i);
    assert t[s[i]].dl == u;
    ShapeMember(s, f, elems, leaves, u);
    var q :| 0 <= q < |s| && s[q] == u;
    if q < |s| - 1 { assert Father(s, f, elems, elems + q / 2); }
    assert q > i;
  }

  lemma PassedFields(t: seq<CtData>, t0: seq<CtData>, s: seq<nat>, bits: seq<nat>, i: nat)
    requires Passed(t, t0, s, bits, i + 1) && i < |s|
    ensures |t| == |t0| && s[i] < |t| && s[i] < |bits| && t[s[i]].dl == t0[s[i]].dl && t[s[i]].fc == t0[s[i]].fc
  {
  }

  // ---------- what the first pass adds up ----------

  /** 1 for the leaves of length b. */
  ghost function LenIs(bits: seq<nat>, elems: nat, b: nat): (g: seq<int>)
    ensures |g| == |bits|
  {
    seq(|bits|, n requires 0 <= n < |bits| => if n < elems && bits[n] == b then 1 else 0)
  }

  ghost predicate Counted(count: seq<nat>, s: seq<nat>, bits: seq<nat>, elems: nat, i: nat)
    requires Below(s, |bits|) && i <= |s|
  {
    forall b | 0 <= b < |count| :: count[b] == SumFrom(s, LenIs(bits, elems, b), i)
  }

  lemma CountedStep(count: seq<nat>, s: seq<nat>, bits: seq<nat>, elems: nat, i: nat)
    requires Below(s, |bits|) && i < |s| && Counted(count, s, bits, elems, i + 1) && bits[s[i]] < |count|
    ensures Counted(if s[i] < elems then count[bits[s[i]] := count[bits[s[i]]] + 1] else count, s, bits, elems, i)
  {
    var c := if s[i] < elems then count[bits[s[i]] := count[bits[s[i]]] + 1] else count;
    forall b | 0 <= b < |c|
      ensures c[b] == SumFrom(s, LenIs(bits, elems, b), i)
    {
      var g := LenIs(bits, elems, b);
      assert SumFrom(s, g, i) == g[s[i]] + SumFrom(s, g, i + 1);
    }
  }

  /** Frequency times length plus extra bits, for the leaves. */
  ghost function Pay(f: seq<nat>, lens: seq<nat>, extra: seq<nat>, elems: nat): (g: seq<int>)
    requires elems <= |extra| && elems <= |lens|
    ensures |g| == |f|
  {
    seq(|f|, n requires 0 <= n < |f| => if n < elems then f[n] * (lens[n] + extra[n]) else 0)
  }

  ghost function PayFrom(s: seq<nat>, f: seq<nat>, lens: seq<nat>, extra: seq<nat>, elems: nat, i: nat): int
    requires Below(s, |f|) && elems <= |extra| && elems <= |lens| && i <= |s|
  {
    SumFrom(s, Pay(f, lens, extra, elems), i)
  }

  lemma PayStep(s: seq<nat>, f: seq<nat>, lens: seq<nat>, extra: seq<nat>, elems: nat, i: nat)
    requires Below(s, |f|) && elems <= |extra| && elems <= |lens| && i < |s|
    ensures PayFrom(s, f, lens, extra, elems, i) ==
            PayFrom(s, f, lens, extra, elems, i + 1)
              + (if s[i] < elems then f[s[i]] * (lens[s[i]] + extra[s[i]]) else 0)
  {
  }

  lemma CutStep(bits: seq<nat>, elems: nat, max: nat, i: nat)
    requires elems <= |bits| && i < 2 * (|bits| - elems)
    ensures CutFrom(bits, elems, max, i)
            == CutFrom(bits, elems, max, i + 1) + (if bits[elems + i / 2] == max then 1 else 0)
  {
  }

  /** How many nodes from position i on are cut off: those whose father has length max. */
  ghost function CutFrom(bits: seq<nat>, elems: nat, max: nat, i: nat): nat
    decreases 2 * |bits| - i
  {
    if elems > |bits| || i >= 2 * (|bits| - elems) then 0
    else (if bits[elems + i / 2] == max then 1 else 0) + CutFrom(bits, elems, max, i + 1)
  }

  /** Both sons of a father at the greatest length are cut off. */
  lemma {:induction false} CutTwice(bits: seq<nat>, elems: nat, max: nat, u: nat)
    requires elems <= u <= |bits|
    ensures CutFrom(bits, elems, max, 2 * (u - elems)) == 2 * Sum(AtMax(bits, max), u, |bits|)
    decreases |bits| - u
  {
    if u < |bits| {
      CutTwice(bits, elems, max, u + 1);
      var i := 2 * (u - elems);
      assert i / 2 == u - elems && (i + 1) / 2 == u - elems;
      var c := AtMax(bits, max);
      SumSplit(c, u, u + 1, |bits|);
      assert Sum(c, u, u + 1) == Sum(c, u, u) + c[u];
      assert CutFrom(bits, elems, max, i) == c[u] + CutFrom(bits, elems, max, i + 1);
      assert CutFrom(bits, elems, max, i + 1) == c[u] + CutFrom(bits, elems, max, i + 2);
    }
  }
}
