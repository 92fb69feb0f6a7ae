/** From code lengths to the codes that are sent: gen_codes and bi_reverse. */
module CodeGen {
  import opened Bits
  import opened Canonical
  import opened Heap
  import opened CutLengths
  import opened LengthCounts
  import opened Reassign

  /** The node holds a number whose low bits, first to last, are the codeword of symbol n. */
  ghost predicate Coded(t: seq<CtData>, lens: seq<nat>, n: nat)
    requires n < |lens| <= |t|
  {
    lens[n] >= 1 ==> t[n].fc < Pow2(lens[n]) && BitsOf(t[n].fc, lens[n]) == Codeword(lens, n)
  }

  /** Every symbol with a length has its codeword. */
  ghost predicate CodesFor(t: seq<CtData>, lens: seq<nat>)
  {
    && |lens| <= |t| && LensOf(t, |lens|) == lens
    && forall n | 0 <= n < |lens| :: Coded(t, lens, n)
  }

  /** Appending a bit at the end of the number, or in front of the reversed bits. */
  lemma {:induction false} MsbBitsFirst(c: nat, n: nat)
    requires n >= 1
    ensures MsbBits(c, n) == [Shr(c, n - 1) % 2 == 1] + MsbBits(c, n - 1)
  {
    if n == 1 {
      assert MsbBits(c / 2, 0) == [];
    } else {
      MsbBitsFirst(c / 2, n - 1);
    }
  }

  /** Reverses the len low bits of a code, so that sending it low bit first sends its top bit first. */
  method BiReverse(code0: nat, len: nat) returns (res: nat)
    requires 1 <= len <= MAX_BITS
    ensures res < Pow2(len) && BitsOf(res, len) == MsbBits(code0, len)
  {
    hide BitsOf, Pow2, Or, MsbLow, Shr, MsbBits;
    var code, left := code0, len;
    res := 0;
    ReverseStart(code0);
    ghost var done := 0;
    while true
      invariant done + left == len && left >= 1 && code == Shr(code0, done)
      invariant res % 2 == 0 && res / 2 < Pow2(done)
      invariant BitsOf(res / 2, done) == MsbLow(code0, done)
      decreases left
    {
      ReverseStep(code0, code, res, done);
      res := Or(res, code % 2);
      done := done + 1;
      left := left - 1;
      if left <= 0 {
        MsbLowAll(code0, len);
        return;
      }
      ShrHalf(code0, done - 1);
      code := code / 2;
      res := res * 2;
    }
  }

  lemma ReverseStart(code: nat)
    ensures code == Shr(code, 0) && BitsOf(0, 0) == MsbLow(code, 0) && Pow2(0) == 1
  {
  }

  lemma ShrHalf(code: nat, n: nat)
    ensures Shr(code, n + 1) == Shr(code, n) / 2
  {
    ShrLast(code, n);
  }

  /** One more bit at the front of the reversed code. */
  lemma ReverseStep(code0: nat, code: nat, res: nat, done: nat)
    requires code == Shr(code0, done) && res % 2 == 0 && res / 2 < Pow2(done)
    requires BitsOf(res / 2, done) == MsbLow(code0, done)
    ensures var r := Or(res, code % 2); r < Pow2(done + 1) && BitsOf(r, done + 1) == MsbLow(code0, done + 1)
  {
    hide Or, Shr, MsbLow;
    var half := res / 2;
    OrLastBit(half, code % 2);
    MsbLowStep(code0, done);
    var r := Or(res, code % 2);
    assert r / 2 == half && r % 2 == code % 2;
  }

  /** The n low bits of c, most significant first. */
  ghost function MsbLow(c: nat, n: nat): seq<bool>
  {
    if n == 0 then [] else [Shr(c, n - 1) % 2 == 1] + MsbLow(c, n - 1)
  }

  lemma MsbLowStep(c: nat, n: nat)
    ensures MsbLow(c, n + 1) == [Shr(c, n) % 2 == 1] + MsbLow(c, n)
  {
  }

  lemma {:induction false} MsbLowAll(c: nat, n: nat)
    ensures MsbLow(c, n) == MsbBits(c, n)
  {
    if n != 0 {
      MsbLowAll(c, n - 1);
      MsbBitsFirst(c, n);
    }
  }

  lemma OrLastBit(h: nat, b: nat)
    requires b < 2
    ensures Or(2 * h, b) == 2 * h + b
  {
    OrComm(2 * h, b);
    if b == 0 {
      OrZero(2 * h);
    } else {
      OrZero(h);
      assert Or(b, 2 * h) == 1 + 2 * Or(0, h);
    }
  }

  lemma OrComm(a: nat, b: nat)
    ensures Or(a, b) == Or(b, a)
    decreases a + b
  {
    if a != 0 || b != 0 { OrComm(a / 2, b / 2); }
  }

  lemma FirstCodeStep(count: seq<nat>, lens: seq<nat>, b: nat)
    requires CountsOf(count, lens) && 1 <= b <= MAX_BITS
    ensures FirstCode(lens, b) == 2 * (FirstCode(lens, b - 1) + count[b - 1])
  {
  }

  lemma FirstCodeZero(lens: seq<nat>)
    ensures FirstCode(lens, 0) == 0
  {
  }

  lemma RanksStart(lens: seq<nat>)
    ensures forall b: nat :: CountLen(lens[..0], b) == 0
  {
  }

  lemma RanksNext(lens: seq<nat>, n: nat)
    requires n < |lens|
    ensures forall b: nat :: CountLen(lens[..n + 1], b) == CountLen(lens[..n], b) + (if lens[n] == b then 1 else 0)
  {
    assert lens[..n + 1][..n] == lens[..n];
  }

  lemma LensAt(t: seq<CtData>, lens: seq<nat>, n: nat)
    requires |lens| <= |t| && LensOf(t, |lens|) == lens && n < |lens|
    ensures t[n].dl == lens[n]
  {
  }

  lemma CodeFits(lens: seq<nat>, n: nat, max: nat)
    requires n < |lens| && lens[n] >= 1 && Complete(lens, max)
    ensures Code(lens, n) == FirstCode(lens, lens[n]) + CountLen(lens[..n], lens[n]) < Pow2(lens[n]) && lens[n] <= max
  {
    CodeBelow(lens, n);
    KraftFits(lens, lens[n], max);
  }

  /** Gives every symbol with a length its canonical code, reversed. */
  method GenCodes(tree: array<CtData>, maxCode: nat, blCount: array<nat>, ghost lens: seq<nat>, ghost max: nat)
    requires maxCode < |lens| <= tree.Length && LensOf(tree[..], |lens|) == lens
    requires blCount.Length == MAX_BITS + 1 && CountsOf(blCount[..], lens)
    requires Complete(lens, max) && max <= MAX_BITS && forall n | maxCode < n < |lens| :: lens[n] == 0
    modifies tree
    ensures CodesFor(tree[..], lens)
    ensures forall n | 0 <= n < tree.Length :: tree[n].dl == old(tree[n].dl)
    ensures forall n | 0 <= n < tree.Length && (n >= |lens| || lens[n] == 0) :: tree[n] == old(tree[n])
  {
    hide CountsOf, Complete, CountLen, KraftSum, FirstCode, LensOf, BitsOf, Pow2, MsbBits;
    var nextCode := new nat[MAX_BITS + 1](_ => 0);
    var code := 0;
    FirstCodeZero(lens);
    for bits := 1 to MAX_BITS + 1
      invariant code == FirstCode(lens, bits - 1) && tree[..] == old(tree[..])
      invariant forall b | 1 <= b < bits :: nextCode[b] == FirstCode(lens, b)
    {
      FirstCodeStep(blCount[..], lens, bits);
      code := (code + blCount[bits - 1]) * 2;
      nextCode[bits] := code;
    }
    RanksStart(lens);
    for n := 0 to maxCode + 1
      invariant fresh(nextCode)
      invariant forall b | 1 <= b <= MAX_BITS :: nextCode[b] == FirstCode(lens, b) + CountLen(lens[..n], b)
      invariant forall k | 0 <= k < tree.Length :: tree[k].dl == old(tree[k].dl)
      invariant forall k | 0 <= k < tree.Length && (k >= n || lens[k] == 0) :: tree[k] == old(tree[k])
      invariant forall k | 0 <= k < n :: Coded(tree[..], lens, k)
    {
      assert tree[n].dl == lens[n] by { LensAt(old(tree[..]), lens, n); }
      ghost var t := tree[..];
      var len := tree[n].dl;
      RanksNext(lens, n);
      if len != 0 {
        CodeFits(lens, n, max);
        Pow2Monotone(len, MAX_BITS);
        Pow2Values();
        var rev := BiReverse(nextCode[len], len);
        tree[n] := tree[n].(fc := rev);
        nextCode[len] := nextCode[len] + 1;
      }
      forall k | 0 <= k < n + 1
        ensures Coded(tree[..], lens, k)
      {
        if k < n {
          assert Coded(t, lens, k) && tree[..][k] == t[k];
        }
      }
    }
    LensSame(old(tree[..]), tree[..], lens);
  }

  lemma LensSame(t0: seq<CtData>, t: seq<CtData>, lens: seq<nat>)
    requires |lens| <= |t0| == |t| && LensOf(t0, |lens|) == lens
    requires forall n | 0 <= n < |t| :: t[n].dl == t0[n].dl
    ensures LensOf(t, |lens|) == lens
  {
  }
}
