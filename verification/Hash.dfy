/** The rolling hash of three bytes. */
module Hash {
  import opened Bits
  import opened BitOutput

  const HASH_BITS := 13
  const HASH_SIZE := 0x2000
  const H_SHIFT := 5

  /** UPDATE_HASH: shifts the next byte in; the mask drops the oldest of four. */
  function UpdateHash(h: nat, c: byte): (r: nat)
    ensures r < HASH_SIZE
  {
    Pow2Values();
    Low(Xor(Shl(h, H_SHIFT), c), HASH_BITS)
  }

  ghost function Hash3(a: byte, b: byte, c: byte): (r: nat)
    ensures r < HASH_SIZE
  {
    UpdateHash(UpdateHash(UpdateHash(0, a), b), c)
  }

  /** The part of the running hash that the next two bytes do not push out. */
  ghost predicate Rolled(h: nat, a: byte, b: byte)
  {
    Low(h, 8) == Low(UpdateHash(UpdateHash(0, a), b), 8)
  }

  lemma {:induction false} XorLow(a: nat, b: nat, k: nat)
    ensures Low(Xor(a, b), k) == Xor(Low(a, k), Low(b, k))
  {
    hide Xor, Low;
    LowEnds(Xor(a, b), k);
    LowEnds(a, k);
    LowEnds(b, k);
    if k == 0 {
      XorZero(0);
    } else {
      XorHalf(a, b);
      XorLow(a / 2, b / 2, k - 1);
      XorHalf(Low(a, k), Low(b, k));
      var l, r := Low(Xor(a, b), k), Xor(Low(a, k), Low(b, k));
      assert l % 2 == r % 2 && l / 2 == r / 2;
    }
  }

  lemma LowEnds(v: nat, k: nat)
    ensures k == 0 ==> Low(v, k) == 0
    ensures k > 0 ==> Low(v, k) % 2 == v % 2 && Low(v, k) / 2 == Low(v / 2, k - 1)
  {
  }

  lemma {:induction false} LowShl(h: nat, s: nat, k: nat)
    requires s <= k
    ensures Low(Shl(h, s), k) == Shl(Low(h, k - s), s)
  {
    if s != 0 { LowShl(h, s - 1, k - 1); }
  }

  lemma {:induction false} LowLow(h: nat, j: nat, k: nat)
    requires j <= k
    ensures Low(Low(h, k), j) == Low(h, j)
  {
    if j != 0 { LowLow(h / 2, j - 1, k - 1); }
  }

  lemma {:induction false} LowSmall(v: nat, k: nat)
    requires v < Pow2(k)
    ensures Low(v, k) == v
  {
    if k != 0 { LowSmall(v / 2, k - 1); }
  }

  /** The low bits of an updated hash depend on the low bits of the hash alone. */
  lemma UpdateLow(h: nat, c: byte, j: nat)
    requires H_SHIFT <= j <= HASH_BITS
    ensures Low(UpdateHash(h, c), j) == Xor(Shl(Low(h, j - H_SHIFT), H_SHIFT), Low(c, j))
  {
    hide Low, Xor, Shl, Pow2;
    Pow2Values();
    LowLow(Xor(Shl(h, H_SHIFT), c), j, HASH_BITS);
    XorLow(Shl(h, H_SHIFT), c, j);
    LowShl(h, H_SHIFT, j);
  }

  lemma UpdateSame(h: nat, g: nat, c: byte, j: nat)
    requires H_SHIFT <= j <= HASH_BITS && Low(h, j - H_SHIFT) == Low(g, j - H_SHIFT)
    ensures Low(UpdateHash(h, c), j) == Low(UpdateHash(g, c), j)
  {
    hide Low, Xor, Shl, Pow2, UpdateHash;
    UpdateLow(h, c, j);
    UpdateLow(g, c, j);
  }

  /** The next byte completes the hash of the three bytes, whatever the older history. */
  lemma RolledUpdate(h: nat, a: byte, b: byte, c: byte)
    requires Rolled(h, a, b)
    ensures UpdateHash(h, c) == Hash3(a, b, c)
  {
    hide Low, Xor, Shl, Pow2, UpdateHash;
    var g := UpdateHash(UpdateHash(0, a), b);
    UpdateSame(h, g, c, HASH_BITS);
    UpdateWhole(h, c);
    UpdateWhole(g, c);
  }

  lemma UpdateWhole(h: nat, c: byte)
    ensures Low(UpdateHash(h, c), HASH_BITS) == UpdateHash(h, c)
  {
    hide Low, Xor, Shl, Pow2;
    Pow2Values();
    LowSmall(UpdateHash(h, c), HASH_BITS);
  }

  lemma RolledNext(h: nat, a: byte, b: byte, c: byte)
    requires Rolled(h, a, b)
    ensures Rolled(UpdateHash(h, c), b, c)
  {
    hide Low, Xor, Shl, Pow2, UpdateHash;
    var g := UpdateHash(UpdateHash(0, a), b);
    // three low bits of the hash before are those of b
    LowLow(h, 3, 8);
    LowLow(g, 3, 8);
    LastThree(UpdateHash(0, a), b);
    LastThree(0, b);
    UpdateSame(h, UpdateHash(0, b), c, 8);
  }

  lemma LastThree(h: nat, b: byte)
    ensures Low(UpdateHash(h, b), 3) == Low(b, 3)
  {
    hide Xor, Pow2, UpdateHash, Low, Shl;
    LowLow(UpdateHash(h, b), 3, H_SHIFT);
    UpdateLow(h, b, H_SHIFT);
    LowNone(h);
    XorCommutes(0, Low(b, H_SHIFT));
    XorZero(Low(b, H_SHIFT));
    LowLow(b, 3, H_SHIFT);
  }

  lemma LowNone(h: nat)
    ensures Low(h, 0) == 0 && Shl(0, H_SHIFT) == 0
  {
    ShlZero(H_SHIFT);
  }

  /** Starting the running hash. */
  lemma RolledStart(a: byte, b: byte)
    ensures Rolled(UpdateHash(UpdateHash(0, a), b), a, b)
  {
  }

  /** The third byte need not be compared: it is the same when the hash and the first two are. */
  lemma ThirdByte(a: byte, b: byte, c: byte, d: byte)
    requires Hash3(a, b, c) == Hash3(a, b, d)
    ensures c == d
  {
    hide Low, Xor, Shl, Pow2, UpdateHash;
    var h := UpdateHash(UpdateHash(0, a), b);
    UpdateLow(h, c, HASH_BITS);
    UpdateLow(h, d, HASH_BITS);
    UpdateWhole(h, c);
    UpdateWhole(h, d);
    Pow2Values();
    LowSmall(c, HASH_BITS);
    LowSmall(d, HASH_BITS);
    XorCancels(Shl(Low(h, HASH_BITS - H_SHIFT), H_SHIFT), c, d);
  }
}
