/** The tables that ct_init fills in: codes of lengths and distances, and the static trees. */
module Tables {
  import opened Bits
  import opened Canonical
  import opened Heap
  import opened CutLengths
  import opened LengthCounts
  import opened Reassign
  import opened CodeGen
  import opened RunLength
  import opened TreeCoding
  import opened Tokens
  import Inflate

  function ExtraLbits(): (s: seq<nat>)
    ensures |s| == LENGTH_CODES
  {
    [0, 0, 0, 0, 0, 0, 0, 0, 1, 1, 1, 1, 2, 2, 2, 2, 3, 3, 3, 3, 4, 4, 4, 4, 5, 5, 5, 5, 0]
  }

  function ExtraDbits(): (s: seq<nat>)
    ensures |s| == D_CODES
  {
    [0, 0, 0, 0, 1, 1, 2, 2, 3, 3, 4, 4, 5, 5, 6, 6, 7, 7, 8, 8, 9, 9, 10, 10, 11, 11, 12, 12, 13, 13]
  }

  function ExtraBlbits(): (s: seq<nat>)
    ensures |s| == BL_CODES
  {
    [0, 0, 0, 0, 0, 0, 0, 0, 0, 0, 0, 0, 0, 0, 0, 0, 2, 3, 7]
  }

  function BlOrder(): (s: seq<nat>)
    ensures |s| == BL_CODES
  {
    [16, 17, 18, 0, 8, 7, 9, 6, 10, 5, 11, 4, 12, 3, 13, 2, 14, 1, 15]
  }

  /** gzip's constant tables are those of the format. */
  lemma TablesAgree()
    ensures forall c | 0 <= c < LENGTH_CODES :: ExtraLbits()[c] == Inflate.LengthExtra(c)
    ensures forall c | 0 <= c < D_CODES :: ExtraDbits()[c] == Inflate.DistExtra(c)
    ensures forall c | 0 <= c < BL_CODES :: ExtraBlbits()[c] == RepeatWidth(c)
    ensures forall i | 0 <= i < BL_CODES :: BlOrder()[i] == Inflate.CodeLengthOrder(i)
  {
  }

  /** Where the normalized lengths of a code start. */
  ghost function LengthStart(c: nat): (r: nat)
    requires c < LENGTH_CODES
  {
    if c == 28 then 256 else Inflate.LengthBase(c) - MIN_MATCH
  }

  lemma LengthStartNext(c: nat)
    requires c < LENGTH_CODES - 1
    ensures LengthStart(c) + Pow2(ExtraLbits()[c]) == LengthStart(c + 1)
    ensures LengthStart(c) < LengthStart(c + 1) <= 256
  {
    hide ExtraLbits, Inflate.LengthBase, Inflate.LengthExtra;
    TablesAgree();
    LengthCodeNext(c);
    LastLengthBase();
    if c + 1 < 28 { LengthStartRises(c + 1); }
  }

  lemma {:induction false} LengthStartRises(c: nat)
    requires c < LENGTH_CODES - 1
    ensures Inflate.LengthBase(c) <= 227
    decreases LENGTH_CODES - c
  {
    hide Inflate.LengthBase;
    LastLengthBase();
    if c < 27 {
      LengthCodeNext(c);
      LengthStartRises(c + 1);
    }
  }

  lemma {:induction false} LengthBaseMonotone(c: nat, d: nat)
    requires c <= d < LENGTH_CODES
    ensures Inflate.LengthBase(c) <= Inflate.LengthBase(d)
  {
    hide Inflate.LengthBase;
    if c < d {
      LengthBaseMonotone(c, d - 1);
      LengthCodeNext(d - 1);
    }
  }

  lemma {:induction false} DistBaseMonotone(c: nat, d: nat)
    requires c <= d < D_CODES
    ensures Inflate.DistBase(c) <= Inflate.DistBase(d)
  {
    hide Inflate.DistBase, Inflate.DistExtra;
    if c < d {
      DistBaseMonotone(c, d - 1);
      DistCodeNext(d - 1);
    }
  }

  /** A length between the starts of two codes has the first one. */
  lemma LengthInRange(l: nat, c: nat)
    requires c < LENGTH_CODES - 1 && LengthStart(c) <= l < LengthStart(c + 1)
    ensures l < 255 ==> LengthCode(l + 3) == c
  {
    hide Inflate.LengthBase;
    LastLengthBase();
    forall k | c < k <= 27
      ensures l + 3 < Inflate.LengthBase(k)
    {
      LengthBaseMonotone(c + 1, k);
    }
    LengthCodeIs(l + 3, c, 27);
  }

  lemma DistInRange(d: nat, c: nat)
    requires c < D_CODES && Inflate.DistBase(c) <= d + 1 < Inflate.DistBase(c) + Pow2(Inflate.DistExtra(c))
    ensures DistCode(d + 1) == c
  {
    hide Inflate.DistBase, Inflate.DistExtra, Pow2;
    DistCodeNext(c);
    forall k | c < k < D_CODES
      ensures d + 1 < Inflate.DistBase(k)
    {
      DistBaseMonotone(c + 1, k);
    }
    DistCodeIs(d + 1, c, D_CODES - 1);
  }

  // ---------- the static codes ----------

  lemma {:induction false} CountLenRepeat(pre: seq<nat>, v: nat, n: nat, b: nat)
    ensures CountLen(pre + Inflate.Repeat(v, n), b) == CountLen(pre, b) + (if v == b then n else 0)
  {
    if n == 0 {
      assert pre + Inflate.Repeat(v, 0) == pre;
    } else {
      CountLenRepeat(pre, v, n - 1, b);
      var s := pre + Inflate.Repeat(v, n);
      assert s[..|s| - 1] == pre + Inflate.Repeat(v, n - 1);
    }
  }

  lemma FixedLiteralCounts(b: nat)
    ensures CountLen(Inflate.FixedLiterals(), b) == if b == 7 then 24 else if b == 8 then 152 else if b == 9 then 112
            else 0
  {
    var s1 := [] + Inflate.Repeat(8, 144);
    var s2 := s1 + Inflate.Repeat(9, 112);
    var s3 := s2 + Inflate.Repeat(7, 24);
    CountLenRepeat([], 8, 144, b);
    CountLenRepeat(s1, 9, 112, b);
    CountLenRepeat(s2, 7, 24, b);
    CountLenRepeat(s3, 8, 8, b);
    assert Inflate.FixedLiterals() == s3 + Inflate.Repeat(8, 8);
  }

  lemma FixedLiteralsComplete()
    ensures Complete(Inflate.FixedLiterals(), Inflate.MAX_BITS)
  {
    hide CountLen;
    var l := Inflate.FixedLiterals();
    assert forall i | 0 <= i < |l| :: l[i] <= Inflate.MAX_BITS;
    forall b: nat
      ensures CountLen(l, b) == if b == 7 then 24 else if b == 8 then 152 else if b == 9 then 112 else 0
    {
      FixedLiteralCounts(b);
    }
    assert KraftSum(l, 3) == 0;
    assert KraftSum(l, 6) == 0;
    assert KraftSum(l, 8) == 200;
    assert KraftSum(l, 10) == 1024;
    assert KraftSum(l, 12) == 4096;
    assert KraftSum(l, 14) == 16384;
    Pow2Values();
  }

  lemma FixedDistanceCounts(n: nat, b: nat)
    requires n <= 32
    ensures CountLen(Inflate.FixedDistances()[..n], b) == if b == 5 then n else 0
  {
    CountLenRepeat([], 5, n, b);
    assert Inflate.FixedDistances()[..n] == [] + Inflate.Repeat(5, n);
  }

  lemma FixedDistancesComplete()
    ensures Complete(Inflate.FixedDistances(), Inflate.MAX_BITS)
    ensures KraftSum(Inflate.FixedDistances(), 4) == 0
  {
    hide CountLen;
    var l := Inflate.FixedDistances();
    assert l[..32] == l;
    forall b: nat
      ensures CountLen(l, b) == if b == 5 then 32 else 0
    {
      FixedDistanceCounts(32, b);
    }
    assert KraftSum(l, 2) == 0;
    assert KraftSum(l, 4) == 0;
    assert KraftSum(l, 6) == 64;
    assert KraftSum(l, 8) == 256;
    assert KraftSum(l, 10) == 1024;
    assert KraftSum(l, 12) == 4096;
    assert KraftSum(l, 14) == 16384;
    Pow2Values();
  }

  /** The static distance codes are the numbers themselves. */
  lemma FixedDistanceCode(n: nat)
    requires n < 32
    ensures Code(Inflate.FixedDistances(), n) == n && Inflate.FixedDistances()[n] == 5
  {
    hide CountLen, KraftSum;
    FixedDistancesComplete();
    FixedDistanceCounts(n, 5);
    assert FirstCode(Inflate.FixedDistances(), 5) == 2 * KraftSum(Inflate.FixedDistances(), 4);
  }

  // ---------- the tables ----------

  ghost predicate LengthTable(codes: seq<byte>, base: seq<nat>)
  {
    && |codes| == 256 && (forall l | 0 <= l < 256 :: codes[l] == LengthCode(l + 3))
    && |base| == LENGTH_CODES && (forall c | 0 <= c < LENGTH_CODES - 1 :: base[c] == Inflate.LengthBase(c) - MIN_MATCH)
  }

  /** D_CODE: the code of a distance less one. */
  function DCode(codes: seq<byte>, dist: nat): nat
    requires |codes| == 512 && dist < 0x8000
  {
    if dist < 256 then codes[dist] else codes[256 + dist / 128]
  }

  ghost predicate DistTable(codes: seq<byte>, base: seq<nat>)
  {
    && |codes| == 512 && (forall d | 0 <= d < 0x8000 :: DCode(codes, d) == DistCode(d + 1))
    && |base| == D_CODES && (forall c | 0 <= c < D_CODES :: base[c] == Inflate.DistBase(c) - 1)
  }

  /** The static distance tree in its array form. */
  ghost predicate StaticDistances(t: seq<CtData>)
  {
    |t| == D_CODES && forall n | 0 <= n < D_CODES :: Ready(t, Inflate.FixedDistances(), n)
  }

  class CodeTables {
    const lengthCode: array<byte>
    const distCode: array<byte>
    const baseLength: array<nat>
    const baseDist: array<nat>
    const staticLtree: array<CtData>
    const staticDtree: array<CtData>

    /** The arrays exist, as after zeroing the globals. */
    ghost predicate Allocated()
    {
      && lengthCode.Length == 256 && distCode.Length == 512 && lengthCode != distCode
      && baseLength.Length == LENGTH_CODES && baseDist.Length == D_CODES && baseLength != baseDist
      && staticLtree.Length == 288 && staticDtree.Length == D_CODES && staticLtree != staticDtree
    }

    ghost predicate Valid()
      reads lengthCode, distCode, baseLength, baseDist, staticLtree, staticDtree
    {
      && Allocated() && LengthTable(lengthCode[..], baseLength[..]) && DistTable(distCode[..], baseDist[..])
      && CodesFor(staticLtree[..], Inflate.FixedLiterals()) && StaticDistances(staticDtree[..])
    }

    constructor ()
      ensures Allocated() && fresh(lengthCode) && fresh(distCode) && fresh(baseLength) && fresh(baseDist)
      ensures fresh(staticLtree) && fresh(staticDtree)
    {
      lengthCode, distCode := new byte[256](_ => 0), new byte[512](_ => 0);
      baseLength, baseDist := new nat[LENGTH_CODES](_ => 0), new nat[D_CODES](_ => 0);
      staticLtree := new CtData[288](_ => CtData(0, 0));
      staticDtree := new CtData[D_CODES](_ => CtData(0, 0));
    }

    /** Length 0..255, less three, to length code. */
    method InitLengths()
      requires Allocated()
      modifies lengthCode, baseLength
      ensures LengthTable(lengthCode[..], baseLength[..])
    {
      hide Inflate.LengthBase, Pow2, ExtraLbits, LengthStart, LengthCode;
      var length := 0;
      LengthStarts();
      for code := 0 to LENGTH_CODES - 1
        invariant length == LengthStart(code)
        invariant forall l | 0 <= l < length && l < 255 :: lengthCode[l] == LengthCode(l + 3)
        invariant forall c | 0 <= c < code :: baseLength[c] == LengthStart(c)
      {
        LengthStartNext(code);
        baseLength[code] := length;
        for n := 0 to Pow2(ExtraLbits()[code])
          invariant length == LengthStart(code) + n
          invariant forall l | 0 <= l < length && l < 255 :: lengthCode[l] == LengthCode(l + 3)
          invariant forall c | 0 <= c < code + 1 :: baseLength[c] == LengthStart(c)
        {
          LengthInRange(length, code);
          lengthCode[length] := code;
          length := length + 1;
        }
      }
      lengthCode[length - 1] := 28;
      LengthTableDone(lengthCode[..], baseLength[..]);
    }

    /** Distances up to 256 one by one, the others by their top eight bits. */
    method InitDistances()
      requires Allocated()
      modifies distCode, baseDist
      ensures DistTable(distCode[..], baseDist[..])
    {
      hide Inflate.DistBase, Pow2, ExtraDbits, DistCode, DistStart, Covers;
      DistStarts();
      var dist := 0;
      for code := 0 to 16
        invariant dist == DistStart(code) <= 256
        invariant forall d | 0 <= d < dist :: distCode[d] == DistCode(d + 1)
        invariant forall c | 0 <= c < code :: baseDist[c] == DistStart(c)
      {
        DistStartNext(code);
        baseDist[code] := dist;
        for n := 0 to Pow2(ExtraDbits()[code])
          invariant dist == DistStart(code) + n <= 256
          invariant forall d | 0 <= d < dist :: distCode[d] == DistCode(d + 1)
          invariant forall c | 0 <= c < code + 1 :: baseDist[c] == DistStart(c)
        {
          DistAt(dist, code);
          distCode[dist] := code;
          dist := dist + 1;
        }
      }
      dist := dist / 128;
      for code := 16 to D_CODES
        invariant 2 <= dist <= 256 && 128 * dist == DistStart(code)
        invariant forall d | 0 <= d < 256 :: distCode[d] == DistCode(d + 1)
        invariant forall i | 258 <= i < 256 + dist :: Covers(distCode[i], i - 256)
        invariant forall c | 0 <= c < code :: baseDist[c] == DistStart(c)
      {
        DistStartNext(code);
        baseDist[code] := dist * 128;
        for n := 0 to Pow2(ExtraDbits()[code] - 7)
          invariant 2 <= dist <= 256 && 128 * dist == DistStart(code) + 128 * n
          invariant forall d | 0 <= d < 256 :: distCode[d] == DistCode(d + 1)
          invariant forall i | 258 <= i < 256 + dist :: Covers(distCode[i], i - 256)
          invariant forall c | 0 <= c < code + 1 :: baseDist[c] == DistStart(c)
        {
          DistBlock(dist, code);
          distCode[256 + dist] := code;
          dist := dist + 1;
        }
      }
      DistTableDone(distCode[..], baseDist[..]);
    }

    /** The imposed lengths of the static literal tree. */
    method InitStaticLengths()
      requires Allocated()
      modifies staticLtree
      ensures LensOf(staticLtree[..], 288) == Inflate.FixedLiterals()
    {
      ghost var lens := Inflate.FixedLiterals();
      var n := 0;
      while n <= 143
        invariant 0 <= n <= 144 && forall k | 0 <= k < n :: staticLtree[k].dl == lens[k]
      {
        staticLtree[n] := staticLtree[n].(dl := 8);
        n := n + 1;
      }
      while n <= 255
        invariant 144 <= n <= 256 && forall k | 0 <= k < n :: staticLtree[k].dl == lens[k]
      {
        staticLtree[n] := staticLtree[n].(dl := 9);
        n := n + 1;
      }
      while n <= 279
        invariant 256 <= n <= 280 && forall k | 0 <= k < n :: staticLtree[k].dl == lens[k]
      {
        staticLtree[n] := staticLtree[n].(dl := 7);
        n := n + 1;
      }
      while n <= 287
        invariant 280 <= n <= 288 && forall k | 0 <= k < n :: staticLtree[k].dl == lens[k]
      {
        staticLtree[n] := staticLtree[n].(dl := 8);
        n := n + 1;
      }
    }

    /** The static literal codes. */
    method InitStaticLiterals(blCount: array<nat>)
      requires Allocated() && blCount.Length == MAX_BITS + 1
      requires forall b | 0 <= b <= MAX_BITS :: blCount[b] == 0
      modifies staticLtree, blCount
      ensures CodesFor(staticLtree[..], Inflate.FixedLiterals())
    {
      hide CountLen, Complete, CodesFor, Inflate.FixedLiterals;
      InitStaticLengths();
      blCount[7] := 279 - 255;
      blCount[8] := 143 + 1 + (287 - 279);
      blCount[9] := 255 - 143;
      FixedLiteralsComplete();
      FixedLiteralCountsOf(blCount[..]);
      GenCodes(staticLtree, 287, blCount, Inflate.FixedLiterals(), MAX_BITS);
    }

    /** The static distance tree is trivial. */
    method InitStaticDistances()
      requires Allocated()
      modifies staticDtree
      ensures StaticDistances(staticDtree[..])
    {
      hide Ready, BitsOf, MsbBits;
      for d := 0 to D_CODES
        invariant forall k | 0 <= k < d :: Ready(staticDtree[..], Inflate.FixedDistances(), k)
      {
        ghost var t := staticDtree[..];
        var rev := BiReverse(d, 5);
        Pow2Values();
        staticDtree[d] := CtData(rev, 5);
        StaticDistanceReady(staticDtree[..], d);
        forall k | 0 <= k < d
          ensures Ready(staticDtree[..], Inflate.FixedDistances(), k)
        {
          ReadySame(t, staticDtree[..], Inflate.FixedDistances(), k);
        }
      }
    }

    method CtInit(blCount: array<nat>)
      requires Allocated() && blCount.Length == MAX_BITS + 1 && blCount != baseLength && blCount != baseDist
      requires forall b | 0 <= b <= MAX_BITS :: blCount[b] == 0
      modifies lengthCode, distCode, baseLength, baseDist, staticLtree, staticDtree, blCount
      ensures Valid()
    {
      InitLengths();
      InitDistances();
      InitStaticLiterals(blCount);
      InitStaticDistances();
    }
  }

  lemma ReadySame(t: seq<CtData>, t': seq<CtData>, lens: seq<nat>, c: nat)
    requires Ready(t, lens, c) && c < |t'| && t'[c] == t[c]
    ensures Ready(t', lens, c)
  {
  }

  lemma StaticDistanceReady(t: seq<CtData>, d: nat)
    requires d < D_CODES == |t| && t[d].dl == 5 && t[d].fc < Pow2(5) && BitsOf(t[d].fc, 5) == MsbBits(d, 5)
    ensures Ready(t, Inflate.FixedDistances(), d)
  {
    hide BitsOf, MsbBits, Pow2, Code;
    FixedDistanceCode(d);
  }

  lemma FixedLiteralCountsOf(count: seq<nat>)
    requires |count| == MAX_BITS + 1
    requires forall b | 0 <= b <= MAX_BITS ::
               count[b] == if b == 7 then 24 else if b == 8 then 152 else if b == 9 then 112 else 0
    ensures CountsOf(count, Inflate.FixedLiterals())
  {
    hide CountLen;
    forall b: nat
      ensures CountLen(Inflate.FixedLiterals(), b) == if b == 7 then 24 else if b == 8 then 152
              else if b == 9 then 112 else 0
    {
      FixedLiteralCounts(b);
    }
  }

  // ---------- distances ----------

  /** Where the distances of a code, less one, start. */
  ghost function DistStart(c: nat): (r: nat)
    requires c <= D_CODES
  {
    if c == D_CODES then 0x8000 else Inflate.DistBase(c) - 1
  }

  lemma DistStarts()
    ensures DistStart(0) == 0 && DistStart(16) == 256 && DistStart(D_CODES) == 0x8000
  {
  }

  lemma DistStartNext(c: nat)
    requires c < D_CODES
    ensures DistStart(c) + Pow2(ExtraDbits()[c]) == DistStart(c + 1)
    ensures if c < 16 then DistStart(c + 1) <= 256 else
            ExtraDbits()[c] >= 7 && Pow2(ExtraDbits()[c]) == 128 * Pow2(ExtraDbits()[c] - 7)
              && DistStart(c + 1) <= 0x8000
  {
    hide Inflate.DistBase, Inflate.DistExtra, ExtraDbits, Pow2;
    TablesAgree();
    DistCodeNext(c);
    if c < 16 {
      DistStarts();
      DistBaseMonotone(c + 1, 16);
    } else {
      WideExtra(c);
      Pow2Seven(ExtraDbits()[c] - 7);
      if c < D_CODES - 1 { DistBaseMonotone(c + 1, 29); LastDistBase(); }
    }
  }

  lemma LastDistBase()
    ensures Inflate.DistBase(29) == 24577
  {
  }

  lemma WideExtra(c: nat)
    requires 16 <= c < D_CODES
    ensures ExtraDbits()[c] >= 7
  {
  }

  lemma Pow2Seven(n: nat)
    ensures Pow2(n + 7) == 128 * Pow2(n)
  {
    assert Pow2(n + 2) == 4 * Pow2(n);
    assert Pow2(n + 4) == 16 * Pow2(n);
    assert Pow2(n + 6) == 64 * Pow2(n);
  }

  lemma DistAt(d: nat, c: nat)
    requires c < D_CODES && DistStart(c) <= d < DistStart(c) + Pow2(ExtraDbits()[c])
    ensures DistCode(d + 1) == c
  {
    TablesAgree();
    DistInRange(d, c);
  }

  ghost predicate HasCode(d: nat, c: nat)
  {
    DistCode(d + 1) == c
  }

  /** All distances with these top bits have the code c. */
  ghost predicate Covers(c: byte, k: nat)
  {
    forall d: nat | 128 * k <= d < 128 * k + 128 :: HasCode(d, c)
  }

  lemma DistBlock(k: nat, c: nat)
    requires c < D_CODES && DistStart(c) <= 128 * k && 128 * k + 128 <= DistStart(c) + Pow2(ExtraDbits()[c])
    ensures Covers(c, k)
  {
    hide Pow2, ExtraDbits, DistStart;
    forall d: nat | 128 * k <= d < 128 * k + 128
      ensures HasCode(d, c)
    {
      DistAt(d, c);
    }
  }

  lemma DistTableDone(codes: seq<byte>, base: seq<nat>)
    requires |codes| == 512 && |base| == D_CODES && forall d | 0 <= d < 256 :: codes[d] == DistCode(d + 1)
    requires forall i | 258 <= i < 512 :: Covers(codes[i], i - 256)
    requires forall c | 0 <= c < D_CODES :: base[c] == DistStart(c)
    ensures DistTable(codes, base)
  {
    hide Inflate.DistBase, DistCode;
    forall d | 256 <= d < 0x8000
      ensures codes[256 + d / 128] == DistCode(d + 1)
    {
      var k := d / 128;
      assert Covers(codes[256 + k], k) && HasCode(d, codes[256 + k]);
    }
  }

  lemma LengthStarts()
    ensures LengthStart(0) == 0 && LengthStart(28) == 256
  {
  }

  lemma LengthTableDone(codes: seq<byte>, base: seq<nat>)
    requires |codes| == 256 && |base| == LENGTH_CODES && codes[255] == 28
    requires forall l | 0 <= l < 255 :: codes[l] == LengthCode(l + 3)
    requires forall c | 0 <= c < LENGTH_CODES - 1 :: base[c] == LengthStart(c)
    ensures LengthTable(codes, base)
  {
    hide Inflate.LengthBase;
    LastLengthBase();
    assert LengthCode(258) == 28;
  }
}
