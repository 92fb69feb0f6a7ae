/** CRC-32 as in section 8 of RFC 1952, one bit at a time, and the table form that busybox runs. */
module Crc {
  import opened Bits

  const POLYNOMIAL: ulg := 0xedb88320

  function Shift(c: ulg): ulg
  {
    if c % 2 == 1 then Xor32(c / 2, POLYNOMIAL) else c / 2
  }

  function Shift8(c: ulg): ulg
  {
    Shift(Shift(Shift(Shift(Shift(Shift(Shift(Shift(c))))))))
  }

  function Xor32(a: ulg, b: ulg): ulg
  {
    Pow2Values();
    XorBound(a, b, 32);
    Xor(a, b)
  }

  /** The shift register after the bytes of `data`, from the state c. */
  function Update(c: ulg, data: seq<byte>): ulg
  {
    if data == [] then c else Shift8(Xor32(Update(c, data[..|data| - 1]), data[|data| - 1]))
  }

  function Crc32(data: seq<byte>): ulg
  {
    0xffff_ffff - Update(0xffff_ffff, data)
  }

  lemma {:induction false} UpdateConcat(c: ulg, a: seq<byte>, b: seq<byte>)
    ensures Update(c, a + b) == Update(Update(c, a), b)
  {
    hide Shift8, Xor32;
    if b == [] {
      assert a + b == a;
    } else {
      assert (a + b)[..|a + b| - 1] == a + b[..|b| - 1];
      UpdateConcat(c, a, b[..|b| - 1]);
    }
  }

  /** The register is linear over exclusive or. */
  lemma ShiftXor(a: ulg, b: ulg)
    ensures Shift(Xor32(a, b)) == Xor32(Shift(a), Shift(b))
  {
    hide Xor;
    XorHalf(a, b);
    var x, y, p: ulg := a / 2, b / 2, POLYNOMIAL;
    XorAssociates(x, y, p);
    XorAssociates(x, p, y);
    XorAssociates(x, p, Xor(y, p));
    XorAssociates(p, y, p);
    XorAssociates(p, p, y);
    XorCommutes(y, p);
    XorSelf(p);
    XorCommutes(0, y);
    XorZero(y);
  }

  lemma Shift8Xor(a: ulg, b: ulg)
    ensures Shift8(Xor32(a, b)) == Xor32(Shift8(a), Shift8(b))
  {
    hide Shift, Xor32;
    ShiftXor(a, b);
    var a1, b1 := Shift(a), Shift(b);
    ShiftXor(a1, b1);
    var a2, b2 := Shift(a1), Shift(b1);
    ShiftXor(a2, b2);
    var a3, b3 := Shift(a2), Shift(b2);
    ShiftXor(a3, b3);
    var a4, b4 := Shift(a3), Shift(b3);
    ShiftXor(a4, b4);
    var a5, b5 := Shift(a4), Shift(b4);
    ShiftXor(a5, b5);
    var a6, b6 := Shift(a5), Shift(b5);
    ShiftXor(a6, b6);
    ShiftXor(Shift(a6), Shift(b6));
  }

  lemma Shift8High(h: nat)
    requires h < 0x100_0000
    ensures Shift8(0x100 * h) == h
  {
    assert Shift(0x100 * h) == 0x80 * h;
    assert Shift(0x80 * h) == 0x40 * h;
    assert Shift(0x40 * h) == 0x20 * h;
    assert Shift(0x20 * h) == 0x10 * h;
    assert Shift(0x10 * h) == 8 * h;
    assert Shift(8 * h) == 4 * h;
    assert Shift(4 * h) == 2 * h;
    assert Shift(2 * h) == h;
  }

  /** Only the low byte of the register takes part in the feedback of eight shifts. */
  lemma Shift8Table(v: ulg)
    ensures Shift8(v) == Xor32(Shift8(v % 0x100), v / 0x100)
  {
    hide Shift8, Xor, Pow2, Shl;
    var lo, hi := v % 0x100, v / 0x100;
    Shl32(hi);
    Pow2Values();
    XorDisjoint(lo, hi, 8);
    Shift8Xor(lo, 0x100 * hi);
    Shift8High(hi);
  }

  /** Fills the table for the reversed polynomial. */
  method FillTable() returns (table: array<ulg>)
    ensures fresh(table) && table.Length == 256
    ensures forall i: ulg :: i < 256 ==> table[i] == Shift8(i)
  {
    hide Shift8, Xor32;
    table := new ulg[256];
    for i := 0 to 256
      invariant forall k: ulg :: k < i ==> table[k] == Shift8(k)
    {
      var c: ulg := i;
      var j := 8;
      ShiftEight(c);
      while j != 0
        invariant 0 <= j <= 8
        invariant ShiftN(c, j) == Shift8(i)
      {
        c := if c % 2 == 1 then Xor32(c / 2, POLYNOMIAL) else c / 2;
        j := j - 1;
      }
      table[i] := c;
    }
  }

  function ShiftN(c: ulg, n: nat): ulg
    decreases n
  {
    if n == 0 then c else ShiftN(Shift(c), n - 1)
  }

  lemma ShiftEight(c: ulg)
    ensures ShiftN(c, 8) == Shift8(c)
  {
    hide Shift;
  }

  lemma TableStep(r: ulg, b: byte)
    ensures Xor(r % 0x100, b) < 0x100
    ensures Xor32(Shift8(Xor(r % 0x100, b)), r / 0x100) == Shift8(Xor32(r, b))
  {
    hide Shift8, Xor, Pow2, Shl, Shr;
    Pow2Values();
    XorBound(r % 0x100, b, 8);
    var v := Xor32(r, b);
    ShrByte(r);
    ShrByte(b);
    ShrByte(v);
    XorShr(r, b, 8);
    XorZero(r / 0x100);
    // the low bytes of r and b give the low byte of their exclusive or
    var lo, hi := Xor(r % 0x100, b), r / 0x100;
    Shl32(hi);
    XorDisjoint(r % 0x100, hi, 8);
    XorCommutes(r % 0x100, 0x100 * hi);
    XorAssociates(0x100 * hi, r % 0x100, b);
    XorCommutes(0x100 * hi, lo);
    XorDisjoint(lo, hi, 8);
    assert v == lo + 0x100 * hi;
    Shift8Table(v);
  }

  /** crc32_block_endian0: one table look-up a byte computes the bitwise register. */
  method BlockEndian0(val: ulg, buf: array<byte>, start: nat, len: nat, table: array<ulg>) returns (r: ulg)
    requires start + len <= buf.Length && table.Length == 256
    requires forall i: ulg :: i < 256 ==> table[i] == Shift8(i)
    ensures r == Update(val, buf[start..start + len])
  {
    hide Shift8, Xor, Xor32;
    r := val;
    assert buf[start..start] == [];
    for i := 0 to len
      invariant r == Update(val, buf[start..start + i])
    {
      var b := buf[start + i];
      TableStep(r, b);
      r := Xor32(table[Xor(r % 0x100, b)], r / 0x100);
      assert buf[start..start + i + 1][..i] == buf[start..start + i];
    }
  }
}
