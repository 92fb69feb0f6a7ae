/** Length limiting: how gen_bitlen turns the counts of cut-off lengths into those of a complete code. */
module LengthLimit {
  import opened Bits
  import opened Canonical

  function Total(count: seq<nat>, l: nat): nat
    requires l < |count|
  {
    if l == 0 then 0 else Total(count, l - 1) + count[l]
  }

  lemma {:induction false} KraftAgrees(a: seq<nat>, b: seq<nat>, l: nat)
    requires l < |a| && l < |b| && forall i | 1 <= i <= l :: a[i] == b[i]
    ensures Kraft(a, l) == Kraft(b, l) && Total(a, l) == Total(b, l)
  {
    if l != 0 { KraftAgrees(a, b, l - 1); }
  }

  /** One more codeword of b bits takes 2^(l - b) units. */
  lemma {:induction false} KraftAdd(a: seq<nat>, b: nat, l: nat)
    requires 1 <= b <= l < |a|
    ensures Kraft(a[b := a[b] + 1], l) == Kraft(a, l) + Pow2(l - b)
    ensures Total(a[b := a[b] + 1], l) == Total(a, l) + 1
  {
    if b == l {
      KraftAgrees(a, a[b := a[b] + 1], l - 1);
    } else {
      KraftAdd(a, b, l - 1);
    }
  }

  lemma KraftRemove(a: seq<nat>, b: nat, l: nat)
    requires 1 <= b <= l < |a| && a[b] >= 1
    ensures Kraft(a, l) == Kraft(a[b := a[b] - 1], l) + Pow2(l - b)
    ensures Total(a, l) == Total(a[b := a[b] - 1], l) + 1
  {
    var c := a[b := a[b] - 1];
    KraftAdd(c, b, l);
    assert c[b := c[b] + 1] == a;
  }

  lemma {:induction false} KraftOnlyLast(a: seq<nat>, l: nat)
    requires l < |a| && forall i | 1 <= i < l :: a[i] == 0
    ensures l >= 1 ==> Kraft(a, l) == a[l] && Total(a, l) == a[l]
    ensures l == 0 ==> Kraft(a, l) == 0 && Total(a, l) == 0
  {
    if l != 0 { KraftOnlyLast(a, l - 1); }
  }

  /** One repair step: a codeword of b bits gets a brother, and one of max bits is taken out. */
  function Repaired(a: seq<nat>, b: nat, max: nat): (r: seq<nat>)
    requires 1 <= b < max < |a| && a[b] >= 1 && a[max] >= 1
    ensures |r| == |a|
  {
    var a1 := a[b := a[b] - 1];
    var a2 := a1[b + 1 := a1[b + 1] + 2];
    a2[max := a2[max] - 1]
  }

  /** ... which takes one unit less. */
  lemma RepairStep(a: seq<nat>, b: nat, max: nat)
    requires 1 <= b < max < |a| && a[b] >= 1 && a[max] >= 1
    ensures Kraft(Repaired(a, b, max), max) == Kraft(a, max) - 1
    ensures Total(Repaired(a, b, max), max) == Total(a, max)
    ensures Repaired(a, b, max)[max] + 1 >= a[max]
    ensures Repaired(a, b, max)[0] == a[0]
  {
    hide Kraft, Total;
    var a1 := a[b := a[b] - 1];
    var a' := a1[b + 1 := a1[b + 1] + 1];
    var a2 := a1[b + 1 := a1[b + 1] + 2];
    KraftRemove(a, b, max);
    KraftAdd(a1, b + 1, max);
    KraftAdd(a', b + 1, max);
    assert a'[b + 1 := a'[b + 1] + 1] == a2;
    KraftRemove(a2, max, max);
    assert Pow2(max - b) == 2 * Pow2(max - (b + 1)) && Pow2(0) == 1;
  }

  /** Gives up as many units as needed. `overflow` counts twice the units in excess. */
  method RepairCounts(blCount: array<nat>, max: nat, excess: int)
    requires 2 <= max < blCount.Length && excess > 0 && excess % 2 == 0
    requires 2 * Kraft(blCount[..], max) == 2 * Pow2(max) + excess
    requires 2 * blCount[max] > excess && Total(blCount[..], max) <= Pow2(max)
    modifies blCount
    ensures Kraft(blCount[..], max) == Pow2(max)
    ensures Total(blCount[..], max) == Total(old(blCount[..]), max)
    ensures blCount[max] >= 1 && blCount[0] == old(blCount[0])
    ensures forall b | max < b < blCount.Length :: blCount[b] == old(blCount[b])
  {
    hide Kraft, Total, Pow2;
    var overflow := excess;
    while overflow > 0
      invariant overflow >= 0 && overflow % 2 == 0
      invariant 2 * Kraft(blCount[..], max) == 2 * Pow2(max) + overflow
      invariant 2 * blCount[max] > overflow
      invariant Total(blCount[..], max) == Total(old(blCount[..]), max)
      invariant blCount[0] == old(blCount[0])
      invariant forall b | max < b < blCount.Length :: blCount[b] == old(blCount[b])
    {
      ghost var a := blCount[..];
      var bits := FirstToLengthen(blCount, max);
      blCount[bits] := blCount[bits] - 1;
      blCount[bits + 1] := blCount[bits + 1] + 2;
      blCount[max] := blCount[max] - 1;
      RepairStep(a, bits, max);
      assert blCount[..] == Repaired(a, bits, max);
      overflow := overflow - 2;
    }
  }

  /** The scan for a length that can grow always finds one while there is an excess. */
  method FirstToLengthen(blCount: array<nat>, max: nat) returns (bits: nat)
    requires 2 <= max < blCount.Length
    requires Kraft(blCount[..], max) > Pow2(max) >= Total(blCount[..], max)
    ensures 1 <= bits < max && blCount[bits] >= 1
    ensures forall b | bits < b < max :: blCount[b] == 0
  {
    hide Kraft, Total, Pow2;
    bits := max - 1;
    while blCount[bits] == 0
      invariant 1 <= bits < max
      invariant forall b | bits < b < max :: blCount[b] == 0
      decreases bits
    {
      if bits == 1 {
        KraftOnlyLast(blCount[..], max);
        assert false;
      }
      bits := bits - 1;
    }
  }
}
