/** gzip's output side: a byte buffer that is flushed when full, and a 32-bit
    accumulator in front of it that collects codes from the low end up. */
module BitOutput {
  import opened Bits

  const OUTBUFSIZ := 8192
  const BUF_SIZE := 32

  /** Bits missing up to the next byte boundary. */
  function Padding(n: nat): (k: nat)
    ensures k < 8 && (n + k) % 8 == 0
  {
    (8 - n % 8) % 8
  }

  lemma ZeroBits(n: nat)
    ensures BitsOf(0, n) == seq(n, _ => false)
  {
    if n != 0 { ZeroBits(n - 1); }
  }

  /** What or-ing a value above the pending bits of the accumulator does when it fits. */
  lemma AccumulatorFits(buf: nat, valid: nat, value: nat, length: nat)
    requires valid + length < 32 && buf < Pow2(valid) && value < Pow2(length)
    ensures var acc := Or(buf, Shl(value, valid) % 0x1_0000_0000);
            && acc < Pow2(valid + length)
            && BitsOf(acc, valid + length) == BitsOf(buf, valid) + BitsOf(value, length)
  {
    hide *;
    Pow2Values();
    Pow2Monotone(length + valid, 32);
    ShlBound(value, length, valid);
    OrDisjoint(buf, value, valid);
    BitsOfJoin(buf, value, valid, length);
    assert length + valid == valid + length;
  }

  /** ... and when it does not: 32 bits are complete and `rest` is what is left of the value. */
  lemma AccumulatorSpills(buf: nat, valid: nat, value: nat, length: nat)
    requires valid < 32 <= valid + length && buf < Pow2(valid) && value < Pow2(length)
    ensures var acc, rest := Or(buf, Shl(value, valid) % 0x1_0000_0000), Shr(value, 32 - valid);
            && acc < 0x1_0000_0000 && rest < Pow2(valid + length - 32)
            && BitsOf(acc, 32) + BitsOf(rest, valid + length - 32) == BitsOf(buf, valid) + BitsOf(value, length)
  {
    hide *;
    Pow2Values();
    var keep := 32 - valid;
    var v0, v1 := Low(value, keep), Shr(value, keep);
    assert Shl(value, valid) % 0x1_0000_0000 == Shl(v0, valid) by { ShlTruncated(value, valid); }
    ShlBound(v0, keep, valid);
    assert keep + valid == 32;
    OrDisjoint(buf, v0, valid);
    BitsOfJoin(buf, v0, valid, keep);
    LowHigh(value, keep);
    BitsOfHigh(v0, v1, keep);
    BitsOfSplit(value, keep, length - keep);
    ShrBound(value, keep, length - keep);
    assert keep + (length - keep) == length && valid + keep == 32 && length - keep == valid + length - 32;
  }

  lemma ShlTruncated(value: nat, valid: nat)
    requires valid < 32
    ensures Shl(value, valid) % 0x1_0000_0000 == Shl(Low(value, 32 - valid), valid)
  {
    hide *;
    var keep := 32 - valid;
    var v0, v1 := Low(value, keep), Shr(value, keep);
    LowHigh(value, keep);
    ShlAdd(v0, Shl(v1, keep), valid);
    ShlShl(v1, keep, valid);
    assert keep + valid == 32;
    Shl32(v1);
    ShlBound(v0, keep, valid);
    Pow2Values();
    var r := Shl(v0, valid);
    assert Shl(value, valid) == r + 0x1_0000_0000 * v1 && r < 0x1_0000_0000;
  }

  function Low(v: nat, k: nat): (r: nat)
    ensures r < Pow2(k)
  {
    if k == 0 then 0 else v % 2 + 2 * Low(v / 2, k - 1)
  }

  lemma LowHigh(v: nat, k: nat)
    ensures v == Low(v, k) + Shl(Shr(v, k), k)
  {
  }

  lemma ShlShl(v: nat, a: nat, b: nat)
    ensures Shl(Shl(v, a), b) == Shl(v, a + b)
  {
    if b != 0 { ShlShl(v, a, b - 1); }
  }

  lemma EmptyAccumulator(bits: nat)
    ensures BitsOf(bits, 0) == [] && BitsOf(0, 0) == [] && Pow2(0) == 1
  {
  }

  /** Padding behind whole bytes and the pending bits completes the last byte. */
  lemma PendingPadded(done: seq<bool>, bytes: nat, buf: nat, valid: nat)
    requires |done| == 8 * bytes && buf < Pow2(valid)
    ensures var pad := Padding(|done + BitsOf(buf, valid)|);
            (valid + pad) % 8 == 0 && done + BitsOf(buf, valid + pad) == done + BitsOf(buf, valid) + BitsOf(0, pad)
  {
    hide BitsOf, Pow2, Shr;
    var pad := Padding(|done + BitsOf(buf, valid)|);
    BitsOfSplit(buf, valid, pad);
    ShrSmall(buf, valid);
    assert done + (BitsOf(buf, valid) + BitsOf(0, pad)) == done + BitsOf(buf, valid) + BitsOf(0, pad);
  }

  class BitWriter {
    const outbuf: array<byte>
    var outcnt: nat
    var biBuf: ulg
    var biValid: nat
    /** Everything handed to xwrite() so far. */
    var written: seq<byte>

    ghost predicate Valid()
      reads this, outbuf
    {
      && outbuf.Length == OUTBUFSIZ && outcnt < OUTBUFSIZ
      && biValid < BUF_SIZE && biBuf < Pow2(biValid)
    }

    /** The bytes completed so far, flushed or not. */
    ghost function Bytes(): seq<byte>
      requires outcnt <= outbuf.Length
      reads this, outbuf
    {
      written + outbuf[..outcnt]
    }

    /** The bits sent so far. */
    ghost function Sent(): seq<bool>
      requires outcnt <= outbuf.Length
      reads this, outbuf
    {
      BytesToBits(Bytes()) + BitsOf(biBuf, biValid)
    }

    constructor ()
      ensures Valid() && fresh(outbuf)
      ensures Bytes() == [] && Sent() == [] && biValid == 0
    {
      outbuf := new byte[OUTBUFSIZ];
      outcnt, biBuf, biValid, written := 0, 0, 0, [];
    }

    method FlushOutbuf()
      requires outbuf.Length == OUTBUFSIZ && outcnt <= OUTBUFSIZ
      modifies this`outcnt, this`written
      ensures outcnt == 0 && written == old(Bytes())
    {
      if outcnt == 0 { return; }
      written := written + outbuf[..outcnt];
      outcnt := 0;
    }

    method Put8bit(c: byte)
      requires outbuf.Length == OUTBUFSIZ && outcnt < OUTBUFSIZ
      modifies this`outcnt, this`written, outbuf
      ensures outcnt < OUTBUFSIZ && Bytes() == old(Bytes()) + [c]
    {
      outbuf[outcnt] := c;
      outcnt := outcnt + 1;
      assert Bytes() == old(Bytes()) + [c];
      if outcnt == OUTBUFSIZ { FlushOutbuf(); }
    }

    method Put16bit(w: ush)
      requires outbuf.Length == OUTBUFSIZ && outcnt < OUTBUFSIZ
      modifies this`outcnt, this`written, outbuf
      ensures outcnt < OUTBUFSIZ && Bytes() == old(Bytes()) + [w % 0x100, w / 0x100]
    {
      var n := outcnt;
      outbuf[n] := w % 0x100;
      if n < OUTBUFSIZ - 2 {
        outbuf[n + 1] := w / 0x100;
        outcnt := n + 2;
        assert outbuf[..n + 2] == old(outbuf[..n]) + [w % 0x100, w / 0x100];
        return;
      }
      outcnt := n + 1;
      assert outbuf[..n + 1] == old(outbuf[..n]) + [w % 0x100];
      ghost var half := Bytes();
      if outcnt == OUTBUFSIZ { FlushOutbuf(); }
      assert Bytes() == half;
      Put8bit(w / 0x100);
      assert old(Bytes()) + [w % 0x100, w / 0x100] == half + [w / 0x100];
    }

    method Put32bit(n: ulg)
      requires outbuf.Length == OUTBUFSIZ && outcnt < OUTBUFSIZ
      modifies this`outcnt, this`written, outbuf
      ensures outcnt < OUTBUFSIZ
      ensures Bytes() == old(Bytes()) + LittleEndian32(n)
    {
      Put16bit(n % 0x1_0000);
      Put16bit(n / 0x1_0000);
    }

    /** Appends the `length` low bits of `value`. */
    method SendBits(value: ulg, length: nat)
      requires Valid() && length <= 16 && value < Pow2(length)
      modifies this, outbuf
      ensures Valid() && Sent() == old(Sent()) + BitsOf(value, length)
    {
      hide Pow2, BitsOf, BytesToBits, Or, Shl, Shr;
      Pow2Values();
      if length + biValid < BUF_SIZE {
        AccumulatorFits(biBuf, biValid, value, length);
        Pow2Monotone(biValid + length, 32);
      } else {
        AccumulatorSpills(biBuf, biValid, value, length);
        Pow2Monotone(biValid + length - 32, 32);
      }
      ghost var done, pending, sent := BytesToBits(Bytes()), BitsOf(biBuf, biValid), BitsOf(value, length);
      assert (done + pending) + sent == done + (pending + sent);
      var newBuf := Or(biBuf, Shl(value, biValid) % 0x1_0000_0000);
      var len := length + biValid;
      var rest: nat := value;
      if len >= BUF_SIZE {
        rest := Shr(value, BUF_SIZE - biValid);
        ghost var bytes := Bytes();
        Put32bit(newBuf);
        LittleEndianBits(bytes, newBuf);
        ghost var acc, left := BitsOf(newBuf, 32), BitsOf(rest, len - BUF_SIZE);
        assert (done + acc) + left == done + (acc + left);
        newBuf := rest;
        len := len - BUF_SIZE;
      }
      biBuf := newBuf;
      biValid := len;
    }

    /** Completes the last byte with zero bits. */
    method BiWindup()
      requires Valid()
      modifies this, outbuf
      ensures Valid() && biValid == 0 && Sent() == BytesToBits(Bytes())
      ensures Sent() == old(Sent()) + BitsOf(0, Padding(|old(Sent())|))
    {
      hide Pow2, BitsOf, BytesToBits, Padding, Shr;
      var bits: nat, cnt: int := biBuf, biValid;
      ghost var pad := Padding(|Sent()|);
      ghost var left := biValid + pad;
      ghost var target := Sent() + BitsOf(0, pad);
      PendingPadded(BytesToBits(Bytes()), |Bytes()|, biBuf, biValid);
      while cnt > 0
        invariant outbuf.Length == OUTBUFSIZ && outcnt < OUTBUFSIZ && 0 <= bits
        invariant cnt <= left < cnt + 8 && left % 8 == 0 && left >= 0
        invariant BytesToBits(Bytes()) + BitsOf(bits, left) == target
      {
        BytesToBitsPush(Bytes(), bits % 0x100);
        BitsOfByte(bits, left - 8);
        Put8bit(bits % 0x100);
        bits := bits / 0x100;
        cnt := cnt - 8;
        left := left - 8;
      }
      EmptyAccumulator(bits);
      biBuf := 0;
      biValid := 0;
    }

    /** The length of a stored block and its complement. */
    method PutStoredLength(len: nat)
      requires Valid() && biValid == 0 && len < 0x1_0000
      modifies this, outbuf
      ensures Valid() && biValid == 0 && biBuf == old(biBuf)
      ensures Sent() == old(Sent()) + (BitsOf(len, 16) + BitsOf(0xffff - len, 16))
    {
      hide Pow2, BitsOf, BytesToBits, Or, Shl, LittleEndian32;
      var v := Or(len % 0x1_0000, Shl(0xffff_ffff - len, 16) % 0x1_0000_0000);
      StoredLengthWord(len);
      StoredLengthBits(Bytes(), len, v);
      EmptyAccumulator(biBuf);
      ghost var bytes, bits := Bytes(), BytesToBits(Bytes());
      Put32bit(v);
      assert Sent() == BytesToBits(bytes + LittleEndian32(v));
      assert old(Sent()) == bits;
    }

    /** Copies `len` bytes of the window as the body of a stored block, aligned to
        a byte and preceded, if asked, by the length and its complement. */
    method CopyBlock(buf: array<byte>, start: nat, len: nat, header: bool)
      requires Valid() && buf != outbuf && start + len <= buf.Length && len < 0x1_0000
      modifies this, outbuf
      ensures Valid() && biValid == 0
      ensures Sent() == old(Sent()) + BitsOf(0, Padding(|old(Sent())|))
                        + (if header then BitsOf(len, 16) + BitsOf(0xffff - len, 16) else [])
                        + BytesToBits(buf[start..start + len])
    {
      hide Pow2, BitsOf, BytesToBits, Padding;
      BiWindup();
      if header { PutStoredLength(len); }
      ghost var aligned, before := Bytes(), Sent();
      assert BitsOf(biBuf, 0) == [];
      assert buf[start..start] == [];
      for i := 0 to len
        invariant Valid() && biValid == 0
        invariant Bytes() == aligned + buf[start..start + i]
      {
        Put8bit(buf[start + i]);
        assert buf[start..start + i + 1] == buf[start..start + i] + [buf[start + i]];
      }
      BytesToBitsConcat(aligned, buf[start..start + len]);
    }
  }

  function LittleEndian32(n: ulg): (s: seq<byte>)
    ensures |s| == 4
  {
    var lo, hi := n % 0x1_0000, n / 0x1_0000;
    [lo % 0x100, lo / 0x100, hi % 0x100, hi / 0x100]
  }

  lemma LittleEndianBits(bytes: seq<byte>, n: ulg)
    ensures BytesToBits(bytes + LittleEndian32(n)) == BytesToBits(bytes) + BitsOf(n, 32)
  {
    hide BitsOf, BytesToBits;
    var lo, hi := n % 0x1_0000, n / 0x1_0000;
    var b0: byte, b1: byte, b2: byte, b3: byte := lo % 0x100, lo / 0x100, hi % 0x100, hi / 0x100;
    BytesToBitsPush([b0, b1, b2], b3);
    BytesToBitsPush([b0, b1], b2);
    BytesToBitsPush([b0], b1);
    assert [b0] == [] + [b0];
    BytesToBitsPush([], b0);
    assert BytesToBits([]) == [];
    BitsOfByte(lo, 8);
    BitsOfByte(hi, 8);
    BitsOfHalves(n);
    var w0, w1, w2, w3 := BitsOf(b0, 8), BitsOf(b1, 8), BitsOf(b2, 8), BitsOf(b3, 8);
    assert ((w0 + w1) + w2) + w3 == (w0 + w1) + (w2 + w3);
    BytesToBitsConcat(bytes, LittleEndian32(n));
    assert LittleEndian32(n) == [b0, b1, b2] + [b3];
    assert [b0, b1, b2] == [b0, b1] + [b2] && [b0, b1] == [b0] + [b1];
  }

  lemma StoredLengthBits(bytes: seq<byte>, len: nat, v: ulg)
    requires len < 0x1_0000 && v == len + 0x1_0000 * (0xffff - len)
    ensures BytesToBits(bytes + LittleEndian32(v)) == BytesToBits(bytes) + (BitsOf(len, 16) + BitsOf(0xffff - len, 16))
  {
    hide BitsOf, BytesToBits, LittleEndian32;
    LittleEndianBits(bytes, v);
    BitsOfHalves(v);
  }

  /** The word sent before a stored block is the length below its complement. */
  lemma StoredLengthWord(len: nat)
    requires len < 0x1_0000
    ensures Or(len % 0x1_0000, Shl(0xffff_ffff - len, 16) % 0x1_0000_0000) == len + 0x1_0000 * (0xffff - len)
  {
    hide Pow2, Or, Shl;
    Shl32(0xffff_ffff - len);
    Shl32(0xffff - len);
    var c := 0xffff - len;
    assert 0x1_0000 * (0xffff_ffff - len) == 0x1_0000 * c + 0x1_0000_0000 * 0xffff;
    assert 0 <= 0x1_0000 * c < 0x1_0000_0000;
    Pow2Values();
    OrDisjoint(len, c, 16);
  }
}
