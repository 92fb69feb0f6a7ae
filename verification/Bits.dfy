/** Bit strings, least significant bit first, and the unsigned C operators used on them. */
module Bits {

  type byte = x: int | 0 <= x < 0x100
  type ush = x: int | 0 <= x < 0x1_0000
  type ulg = x: int | 0 <= x < 0x1_0000_0000

  function Pow2(n: nat): (p: nat)
    ensures p >= 1
  {
    if n == 0 then 1 else 2 * Pow2(n - 1)
  }

  /** The n low bits of v. */
  function BitsOf(v: nat, n: nat): (s: seq<bool>)
    ensures |s| == n
  {
    if n == 0 then [] else [v % 2 == 1] + BitsOf(v / 2, n - 1)
  }

  /** The number whose bits are s. */
  function Value(s: seq<bool>): nat
  {
    if s == [] then 0 else (if s[0] then 1 else 0) + 2 * Value(s[1..])
  }

  function BytesToBits(bs: seq<byte>): (s: seq<bool>)
    ensures |s| == 8 * |bs|
  {
    if bs == [] then [] else BitsOf(bs[0], 8) + BytesToBits(bs[1..])
  }

  /** The C operators |, ^, << and >> on unsigned numbers, before any truncation. */
  function Or(a: nat, b: nat): nat
    decreases a + b
  {
    if a == 0 && b == 0 then 0
    else (if a % 2 == 1 || b % 2 == 1 then 1 else 0) + 2 * Or(a / 2, b / 2)
  }

  function Xor(a: nat, b: nat): nat
    decreases a + b
  {
    if a == 0 && b == 0 then 0
    else (if a % 2 != b % 2 then 1 else 0) + 2 * Xor(a / 2, b / 2)
  }

  function Shl(v: nat, k: nat): nat
  {
    if k == 0 then v else 2 * Shl(v, k - 1)
  }

  function Shr(v: nat, k: nat): nat
  {
    if k == 0 then v else Shr(v / 2, k - 1)
  }

  // ---------- shifts ----------

  lemma Pow2Monotone(a: nat, b: nat)
    requires a <= b
    ensures Pow2(a) <= Pow2(b)
  {
    if a < b { Pow2Monotone(a, b - 1); }
  }

  lemma Pow2Values()
    ensures Pow2(0) == 1 && Pow2(1) == 2 && Pow2(2) == 4 && Pow2(3) == 8 && Pow2(4) == 16 && Pow2(5) == 32
    ensures Pow2(6) == 64 && Pow2(7) == 128 && Pow2(8) == 256 && Pow2(13) == 8192 && Pow2(14) == 16384
    ensures Pow2(15) == 32768 && Pow2(16) == 65536 && Pow2(32) == 0x1_0000_0000
  {
    assert Pow2(3) == 8;
    assert Pow2(6) == 64;
    assert Pow2(9) == 512;
    assert Pow2(12) == 4096;
    assert Pow2(15) == 32768;
    assert Pow2(18) == 262144;
    assert Pow2(21) == 2097152;
    assert Pow2(24) == 16777216;
    assert Pow2(27) == 134217728;
    assert Pow2(30) == 1073741824;
  }

  lemma {:induction false} ShlAdd(a: nat, b: nat, k: nat)
    ensures Shl(a + b, k) == Shl(a, k) + Shl(b, k)
  {
    if k != 0 { ShlAdd(a, b, k - 1); }
  }

  lemma ShlOne(k: nat)
    ensures Shl(1, k) == Pow2(k)
  {
  }

  lemma ShlZero(k: nat)
    ensures Shl(0, k) == 0
  {
  }

  /** A number below 2^n shifted left by k is below 2^(n+k). */
  lemma {:induction false} ShlBound(v: nat, n: nat, k: nat)
    requires v < Pow2(n)
    ensures Shl(v, k) + Pow2(k) <= Pow2(n + k)
  {
    if k == 0 {
    } else {
      ShlBound(v, n, k - 1);
      assert n + k - 1 == n + (k - 1);
    }
  }

  // ---------- bits of a number ----------

  /** Bits from the n-th up do not matter. */
  lemma {:induction false} BitsOfHigh(a: nat, b: nat, n: nat)
    ensures BitsOf(a + Shl(b, n), n) == BitsOf(a, n)
  {
    if n != 0 {
      var m := Shl(b, n - 1);
      assert (a + 2 * m) % 2 == a % 2 && (a + 2 * m) / 2 == a / 2 + m;
      BitsOfHigh(a / 2, b, n - 1);
    }
  }

  /** A number's bits are its low bits followed by its high bits. */
  lemma {:induction false} BitsOfSplit(v: nat, k: nat, n: nat)
    ensures BitsOf(v, k + n) == BitsOf(v, k) + BitsOf(Shr(v, k), n)
  {
    if k == 0 {
    } else {
      BitsOfSplit(v / 2, k - 1, n);
    }
  }

  lemma {:induction false} ShrOfSum(a: nat, b: nat, k: nat)
    requires a < Pow2(k)
    ensures Shr(a + Shl(b, k), k) == b
  {
    if k != 0 {
      var m := Shl(b, k - 1);
      assert (a + 2 * m) / 2 == a / 2 + m;
      ShrOfSum(a / 2, b, k - 1);
    }
  }

  lemma BitsOfJoin(a: nat, b: nat, k: nat, n: nat)
    requires a < Pow2(k)
    ensures BitsOf(a + Shl(b, k), k + n) == BitsOf(a, k) + BitsOf(b, n)
  {
    BitsOfSplit(a + Shl(b, k), k, n);
    BitsOfHigh(a, b, k);
    ShrOfSum(a, b, k);
  }

  lemma Shl32(q: nat)
    ensures Shl(q, 8) == 0x100 * q && Shl(q, 16) == 0x1_0000 * q && Shl(q, 32) == 0x1_0000_0000 * q
  {
    ShlByte(q, 0);
    ShlByte(q, 8);
    ShlByte(q, 16);
    ShlByte(q, 24);
  }

  lemma ShlByte(q: nat, k: nat)
    ensures Shl(q, k + 8) == 0x100 * Shl(q, k)
  {
    assert Shl(q, k + 2) == 4 * Shl(q, k);
    assert Shl(q, k + 4) == 16 * Shl(q, k);
    assert Shl(q, k + 6) == 64 * Shl(q, k);
  }

  lemma {:induction false} ValueOfBits(v: nat, n: nat)
    requires v < Pow2(n)
    ensures Value(BitsOf(v, n)) == v
  {
    if n != 0 {
      ValueOfBits(v / 2, n - 1);
      assert BitsOf(v, n)[1..] == BitsOf(v / 2, n - 1);
    }
  }

  lemma {:induction false} ShrBound(v: nat, k: nat, n: nat)
    requires v < Pow2(k + n)
    ensures Shr(v, k) < Pow2(n)
  {
    if k != 0 { ShrBound(v / 2, k - 1, n); }
  }

  lemma ShrSmall(v: nat, k: nat)
    requires v < Pow2(k)
    ensures Shr(v, k) == 0
  {
    ShrOfSum(v, 0, k);
    ShlZero(k);
  }

  lemma ShrTwo(v: nat, k: nat)
    ensures Shr(v, k + 2) == Shr(v / 4, k)
  {
    assert Shr(v, k + 2) == Shr(v / 2, k + 1) == Shr(v / 2 / 2, k);
  }

  lemma ShrByte(v: nat)
    ensures Shr(v, 8) == v / 0x100 && Shr(v, 16) == v / 0x1_0000
  {
    ShrEight(v, 0);
    ShrEight(v, 8);
    ShrEight(v / 0x100, 0);
    assert v / 0x100 / 0x100 == v / 0x1_0000;
  }

  lemma ShrEight(v: nat, k: nat)
    ensures Shr(v, k + 8) == Shr(v / 0x100, k)
  {
    ShrTwo(v, k + 6);
    ShrTwo(v / 4, k + 4);
    ShrTwo(v / 4 / 4, k + 2);
    ShrTwo(v / 4 / 4 / 4, k);
    assert v / 4 / 4 / 4 / 4 == v / 0x100;
  }

  /** Splitting a 16-bit or wider value into its low byte and the rest. */
  lemma BitsOfByte(v: nat, n: nat)
    ensures BitsOf(v, 8 + n) == BitsOf(v % 0x100, 8) + BitsOf(v / 0x100, n)
  {
    BitsOfSplit(v, 8, n);
    ShrByte(v);
    Shl32(v / 0x100);
    BitsOfHigh(v % 0x100, v / 0x100, 8);
  }

  lemma BitsOfHalves(v: nat)
    ensures BitsOf(v, 32) == BitsOf(v % 0x1_0000, 16) + BitsOf(v / 0x1_0000, 16)
  {
    BitsOfSplit(v, 16, 16);
    ShrByte(v);
    Shl32(v / 0x1_0000);
    BitsOfHigh(v % 0x1_0000, v / 0x1_0000, 16);
  }

  lemma {:induction false} OrDisjoint(a: nat, b: nat, k: nat)
    requires a < Pow2(k)
    ensures Or(a, Shl(b, k)) == a + Shl(b, k)
  {
    if k == 0 {
      OrZero(b);
    } else {
      OrDisjoint(a / 2, b, k - 1);
      if a == 0 && Shl(b, k) == 0 {
      } else {
        assert Shl(b, k) % 2 == 0 && Shl(b, k) / 2 == Shl(b, k - 1);
      }
    }
  }

  lemma OrZero(b: nat)
    ensures Or(0, b) == b
  {
    if b != 0 { OrZero(b / 2); }
  }

  // ---------- exclusive or ----------

  lemma XorHalf(a: nat, b: nat)
    ensures Xor(a, b) / 2 == Xor(a / 2, b / 2)
    ensures Xor(a, b) % 2 == if a % 2 != b % 2 then 1 else 0
  {
  }

  lemma XorZero(a: nat)
    ensures Xor(a, 0) == a
  {
    if a != 0 { XorZero(a / 2); }
  }

  lemma XorCommutes(a: nat, b: nat)
    ensures Xor(a, b) == Xor(b, a)
    decreases a + b
  {
    if a != 0 || b != 0 { XorCommutes(a / 2, b / 2); }
  }

  lemma {:induction false} XorAssociates(a: nat, b: nat, c: nat)
    ensures Xor(Xor(a, b), c) == Xor(a, Xor(b, c))
    decreases a + b + c
  {
    hide Xor;
    if a == 0 && b == 0 && c == 0 {
      XorZero(0);
    } else {
      XorAssociates(a / 2, b / 2, c / 2);
      var l, r := Xor(Xor(a, b), c), Xor(a, Xor(b, c));
      XorHalf(a, b);
      XorHalf(b, c);
      XorHalf(Xor(a, b), c);
      XorHalf(a, Xor(b, c));
      assert l / 2 == r / 2 && l % 2 == r % 2;
    }
  }

  lemma XorSelf(a: nat)
    ensures Xor(a, a) == 0
  {
  }

  lemma XorCancels(a: nat, b: nat, c: nat)
    requires Xor(a, b) == Xor(a, c)
    ensures b == c
  {
    XorAssociates(a, a, b);
    XorAssociates(a, a, c);
    XorSelf(a);
    XorZero(b);
    XorZero(c);
    XorCommutes(0, b);
    XorCommutes(0, c);
  }

  lemma {:induction false} XorBound(a: nat, b: nat, n: nat)
    requires a < Pow2(n) && b < Pow2(n)
    ensures Xor(a, b) < Pow2(n)
  {
    if n == 0 {
    } else {
      XorBound(a / 2, b / 2, n - 1);
      XorHalf(a, b);
    }
  }

  lemma {:induction false} XorShr(a: nat, b: nat, k: nat)
    ensures Shr(Xor(a, b), k) == Xor(Shr(a, k), Shr(b, k))
  {
    if k != 0 {
      XorHalf(a, b);
      XorShr(a / 2, b / 2, k - 1);
    }
  }

  lemma {:induction false} XorDisjoint(a: nat, b: nat, k: nat)
    requires a < Pow2(k)
    ensures Xor(a, Shl(b, k)) == a + Shl(b, k)
  {
    if k == 0 {
      XorZero(b);
      XorCommutes(0, b);
    } else {
      XorDisjoint(a / 2, b, k - 1);
      XorHalf(a, Shl(b, k));
      assert Shl(b, k) % 2 == 0 && Shl(b, k) / 2 == Shl(b, k - 1);
    }
  }

  // ---------- bytes ----------

  lemma {:induction false} BytesToBitsConcat(a: seq<byte>, b: seq<byte>)
    ensures BytesToBits(a + b) == BytesToBits(a) + BytesToBits(b)
  {
    if a == [] {
      assert a + b == b;
    } else {
      assert (a + b)[1..] == a[1..] + b;
      BytesToBitsConcat(a[1..], b);
    }
  }

  lemma BytesToBitsPush(a: seq<byte>, b: byte)
    ensures BytesToBits(a + [b]) == BytesToBits(a) + BitsOf(b, 8)
  {
    BytesToBitsConcat(a, [b]);
    assert [b][1..] == [];
  }

  /** The bits of one byte sit at eight times its index. */
  lemma {:induction false} BytesToBitsAt(bs: seq<byte>, i: nat)
    requires i < |bs|
    ensures BytesToBits(bs)[8 * i..8 * i + 8] == BitsOf(bs[i], 8)
  {
    if i == 0 {
    } else {
      BytesToBitsAt(bs[1..], i - 1);
      assert BytesToBits(bs)[8..] == BytesToBits(bs[1..]);
      assert BytesToBits(bs)[8 * i..8 * i + 8] == BytesToBits(bs[1..])[8 * (i - 1)..8 * (i - 1) + 8];
    }
  }
}
