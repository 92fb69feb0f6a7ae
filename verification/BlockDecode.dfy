/** What the decoder does with a block, and with the blocks after it. */
module BlockDecode {
  import opened Bits
  import opened Canonical
  import opened BitOutput
  import opened RunLength
  import opened TreeCoding
  import opened Tokens
  import opened BlockHeader
  import Inflate

  const STORED_BLOCK := 0
  const STATIC_TREES := 1
  const DYN_TREES := 2

  function EofBit(eof: bool): nat
  {
    if eof then 1 else 0
  }

  /** Decoding goes on behind the block with the new data, whatever follows. */
  ghost predicate Decodes(bits: seq<bool>, pos: nat, before: seq<byte>, end: nat, after: seq<byte>, eof: bool)
  {
    Inflate.InflateBlocks(bits, pos, before) == if eof then Got(after, end) else Inflate.InflateBlocks(bits, end, after)
  }

  ghost predicate CarriesIn(bits: seq<bool>, sent: seq<bool>, block: seq<bool>, eof: bool, before: seq<byte>,
                            after: seq<byte>)
  {
    Decodes(bits, |sent|, before, |sent| + |block|, after, eof)
  }

  /** The block bits, sent behind `sent`, turn `before` into `after` for every continuation. */
  ghost predicate BlockCarries(sent: seq<bool>, block: seq<bool>, eof: bool, before: seq<byte>, after: seq<byte>)
  {
    forall bits: seq<bool> | sent + block <= bits :: CarriesIn(bits, sent, block, eof, before, after)
  }

  /** The three bits in front of a block: is it the last one, and its type. */
  lemma TypeReads(bits: seq<bool>, pos: nat, kind: nat, eof: bool)
    requires kind < 3 && At(bits, pos, BitsOf(2 * kind + EofBit(eof), 3))
    ensures Inflate.ReadBits(bits, pos, 1) == Got(EofBit(eof), pos + 1)
    ensures Inflate.ReadBits(bits, pos + 1, 2) == Got(kind, pos + 3)
  {
    hide At, BitsOf, Pow2, Inflate.ReadBits, Shl;
    var v := 2 * kind + EofBit(eof);
    ShrOne(v);
    ShlOneBit(kind);
    BitsOfSplit(v, 1, 2);
    BitsOfHigh(EofBit(eof), kind, 1);
    AtSplit(bits, pos, BitsOf(EofBit(eof), 1), BitsOf(kind, 2));
    Pow2Values();
    ReadField(bits, pos, EofBit(eof), 1);
    ReadField(bits, pos + 1, kind, 2);
  }

  lemma ShrOne(v: nat)
    ensures Shr(v, 1) == v / 2
  {
  }

  lemma ShlOneBit(v: nat)
    ensures Shl(v, 1) == 2 * v
  {
  }

  lemma PrefixAt(bits: seq<bool>, sent: seq<bool>, block: seq<bool>)
    requires sent + block <= bits
    ensures At(bits, |sent|, block)
  {
    assert bits[|sent|..|sent| + |block|] == (sent + block)[|sent|..];
  }

  /** From the type and the body of a block to the whole. */
  lemma BodyDecodes(bits: seq<bool>, pos: nat, kind: nat, eof: bool, before: seq<byte>, body: Read<seq<byte>>)
    requires kind < 3 && At(bits, pos, BitsOf(2 * kind + EofBit(eof), 3)) && body.Got?
    requires kind == STORED_BLOCK ==> body == Inflate.InflateStored(bits, pos + 3, before)
    requires kind == STATIC_TREES ==>
               body == Inflate.InflateCodes(Inflate.FixedLiterals(), Inflate.FixedDistances(), bits, pos + 3, before)
    requires kind == DYN_TREES ==>
               (var codes := Inflate.ReadDynamicCodes(bits, pos + 3);
                codes.Got? && body == Inflate.InflateCodes(codes.value.0, codes.value.1, bits, codes.pos, before))
    ensures Decodes(bits, pos, before, body.pos, body.value, eof)
  {
    hide At, BitsOf, Inflate.ReadBits, Inflate.InflateCodes, Inflate.InflateStored, Inflate.ReadDynamicCodes;
    TypeReads(bits, pos, kind, eof);
  }

  // ---------- stored blocks ----------

  ghost function StoredBits(pos: nat, data: seq<byte>): seq<bool>
    requires |data| < 0x1_0000
  {
    BitsOf(0, Padding(pos)) + (BitsOf(|data|, 16) + (BitsOf(0xffff - |data|, 16) + BytesToBits(data)))
  }

  lemma {:induction false} BytesRead(bits: seq<bool>, pos: nat, data: seq<byte>)
    requires pos <= |bits| && At(bits, pos, BytesToBits(data))
    ensures Inflate.ReadBytes(bits, pos, |data|) == Got(data, pos + 8 * |data|)
    decreases |data|
  {
    hide At, BitsOf, Pow2, Inflate.ReadBits;
    if data != [] {
      AtSplit(bits, pos, BitsOf(data[0], 8), BytesToBits(data[1..]));
      Pow2Values();
      ReadField(bits, pos, data[0], 8);
      ReadBound(bits, pos, 8);
      BytesRead(bits, pos + 8, data[1..]);
      assert data == [data[0]] + data[1..];
    }
  }

  lemma ReadBound(bits: seq<bool>, pos: nat, n: nat)
    requires Inflate.ReadBits(bits, pos, n).Got?
    ensures pos + n <= |bits|
  {
  }

  lemma StoredReads(bits: seq<bool>, pos: nat, before: seq<byte>, data: seq<byte>)
    requires |data| < 0x1_0000 && At(bits, pos, StoredBits(pos, data))
    ensures Inflate.InflateStored(bits, pos, before) == Got(before + data, pos + |StoredBits(pos, data)|)
  {
    hide At, BitsOf, BytesToBits, Pow2, Padding, Inflate.ReadBits, Inflate.ReadBytes;
    var p := Padding(pos);
    var len, nlen, bytes := BitsOf(|data|, 16), BitsOf(0xffff - |data|, 16), BytesToBits(data);
    AtSplit(bits, pos, BitsOf(0, p), len + (nlen + bytes));
    AtSplit(bits, pos + p, len, nlen + bytes);
    AtSplit(bits, pos + p + 16, nlen, bytes);
    Pow2Values();
    ReadField(bits, pos + p, |data|, 16);
    ReadField(bits, pos + p + 16, 0xffff - |data|, 16);
    AtInside(bits, pos + p + 32, bytes);
    BytesRead(bits, pos + p + 32, data);
  }

  lemma StoredCarries(sent: seq<bool>, eof: bool, before: seq<byte>, data: seq<byte>)
    requires |data| < 0x1_0000
    ensures BlockCarries(sent, BitsOf(EofBit(eof), 3) + StoredBits(|sent| + 3, data), eof, before, before + data)
  {
    hide At, BitsOf, StoredBits, Decodes;
    var kind, body := BitsOf(EofBit(eof), 3), StoredBits(|sent| + 3, data);
    var block := kind + body;
    forall bits: seq<bool> | sent + block <= bits
      ensures CarriesIn(bits, sent, block, eof, before, before + data)
    {
      PrefixAt(bits, sent, block);
      AtSplit(bits, |sent|, kind, body);
      StoredReads(bits, |sent| + 3, before, data);
      assert 2 * STORED_BLOCK + EofBit(eof) == EofBit(eof);
      BodyDecodes(bits, |sent|, STORED_BLOCK, eof, before, Inflate.InflateStored(bits, |sent| + 3, before));
    }
  }

  // ---------- blocks with codes ----------

  lemma StaticCarries(sent: seq<bool>, eof: bool, before: seq<byte>, tokens: seq<Token>)
    requires Complete(Inflate.FixedLiterals(), Inflate.MAX_BITS) && Complete(Inflate.FixedDistances(), Inflate.MAX_BITS)
    requires AllEncodable(Inflate.FixedLiterals(), Inflate.FixedDistances(), tokens) && Reachable(tokens, before)
    ensures BlockCarries(sent, BitsOf(2 + EofBit(eof), 3)
                         + BlockBits(Inflate.FixedLiterals(), Inflate.FixedDistances(), tokens),
                         eof, before, Expand(tokens, before))
  {
    var ll, dl := Inflate.FixedLiterals(), Inflate.FixedDistances();
    assert ll[Inflate.END_OF_BLOCK] >= 1;
    StaticCarries1(sent, eof, before, tokens, ll, dl);
  }

  lemma StaticCarries1(sent: seq<bool>, eof: bool, before: seq<byte>, tokens: seq<Token>, ll: seq<nat>, dl: seq<nat>)
    requires ll == Inflate.FixedLiterals() && dl == Inflate.FixedDistances() && ll[Inflate.END_OF_BLOCK] >= 1
    requires Complete(ll, Inflate.MAX_BITS) && Complete(dl, Inflate.MAX_BITS)
    requires AllEncodable(ll, dl, tokens) && Reachable(tokens, before)
    ensures BlockCarries(sent, BitsOf(2 + EofBit(eof), 3) + BlockBits(ll, dl, tokens), eof, before,
                         Expand(tokens, before))
  {
    hide At, BitsOf, BlockBits, Decodes, Complete, AllEncodable, Reachable, Expand, Inflate.FixedLiterals;
    hide Inflate.FixedDistances;
    hide Inflate.InflateCodes;
    var kind, body := BitsOf(2 + EofBit(eof), 3), BlockBits(ll, dl, tokens);
    var block := kind + body;
    forall bits: seq<bool> | sent + block <= bits
      ensures CarriesIn(bits, sent, block, eof, before, Expand(tokens, before))
    {
      PrefixAt(bits, sent, block);
      AtSplit(bits, |sent|, kind, body);
      BlockDecodes(ll, dl, bits, |sent| + 3, before, tokens);
      BodyDecodes(bits, |sent|, STATIC_TREES, eof, before, Inflate.InflateCodes(ll, dl, bits, |sent| + 3, before));
    }
  }

  lemma DynamicCarries(sent: seq<bool>, eof: bool, before: seq<byte>, tokens: seq<Token>,
                       ll: seq<nat>, dl: seq<nat>, cl: seq<nat>, ncl: nat)
    requires 257 <= |ll| <= 286 && 1 <= |dl| <= 30 && 4 <= ncl <= BL_CODES && Trimmed(cl, ncl)
    requires Complete(ll, Inflate.MAX_BITS) && Complete(dl, Inflate.MAX_BITS) && Complete(cl, 7)
    requires ll[Inflate.END_OF_BLOCK] >= 1 && Coding(cl, Symbols(ll) + Symbols(dl))
    requires AllEncodable(ll, dl, tokens) && Reachable(tokens, before)
    ensures BlockCarries(sent, BitsOf(4 + EofBit(eof), 3) + (HeaderBits(ll, dl, cl, ncl) + BlockBits(ll, dl, tokens)),
                         eof, before, Expand(tokens, before))
  {
    hide At, BitsOf, BlockBits, HeaderBits, Decodes, Complete, AllEncodable, Reachable, Expand, Coding, Trimmed;
    hide Symbols;
    hide Inflate.InflateCodes, Inflate.ReadDynamicCodes;
    var kind, header, body := BitsOf(4 + EofBit(eof), 3), HeaderBits(ll, dl, cl, ncl), BlockBits(ll, dl, tokens);
    var block := kind + (header + body);
    forall bits: seq<bool> | sent + block <= bits
      ensures CarriesIn(bits, sent, block, eof, before, Expand(tokens, before))
    {
      PrefixAt(bits, sent, block);
      AtSplit(bits, |sent|, kind, header + body);
      AtSplit(bits, |sent| + 3, header, body);
      AtInside(bits, |sent| + 3, header);
      HeaderReads(ll, dl, cl, ncl, bits, |sent| + 3);
      BlockDecodes(ll, dl, bits, |sent| + 3 + |header|, before, tokens);
      BodyDecodes(bits, |sent|, DYN_TREES, eof, before,
                  Inflate.InflateCodes(ll, dl, bits, |sent| + 3 + |header|, before));
    }
  }

  // ---------- the file so far ----------

  /** Where the blocks start, behind the ten bytes of the header. */
  const BODY := 80

  /** The header that zip writes: no flags, no time, no extra flags, Unix. */
  function Header(): (h: seq<byte>)
    ensures |h| == 10
  {
    [Inflate.ID1, Inflate.ID2, Inflate.DEFLATED, 0, 0, 0, 0, 0, 0, 3]
  }

  /** The decoder, having read these bits, has this data; and goes on from here whatever follows. */
  ghost predicate Decoding(sent: seq<bool>, data: seq<byte>)
  {
    && BytesToBits(Header()) <= sent
    && forall bits: seq<bool> | sent <= bits :: Decodes(bits, BODY, [], |sent|, data, false)
  }

  /** The decoder is done: the last block ends here or before the padding. */
  ghost predicate Decoded(sent: seq<bool>, data: seq<byte>, end: nat)
  {
    && BytesToBits(Header()) <= sent && end <= |sent| == end + Padding(end)
    && forall bits: seq<bool> | sent <= bits :: Decodes(bits, BODY, [], end, data, true)
  }

  lemma DecodingStart(sent: seq<bool>)
    requires sent == BytesToBits(Header())
    ensures Decoding(sent, [])
  {
  }

  /** Sending a block takes the decoder from the old data to the new. */
  lemma DecodingStep(sent: seq<bool>, block: seq<bool>, before: seq<byte>, after: seq<byte>)
    requires Decoding(sent, before) && BlockCarries(sent, block, false, before, after)
    ensures Decoding(sent + block, after)
  {
    hide Inflate.InflateBlocks, BytesToBits;
    forall bits: seq<bool> | sent + block <= bits
      ensures Decodes(bits, BODY, [], |sent + block|, after, false)
    {
      PrefixTrans(sent, block, bits);
      assert CarriesIn(bits, sent, block, false, before, after);
      assert Decodes(bits, BODY, [], |sent|, before, false);
    }
  }

  lemma DecodingEnd(sent: seq<bool>, block: seq<bool>, before: seq<byte>, after: seq<byte>, pad: seq<bool>)
    requires Decoding(sent, before) && BlockCarries(sent, block, true, before, after)
    requires |pad| == Padding(|sent + block|)
    ensures Decoded(sent + block + pad, after, |sent + block|)
  {
    hide Inflate.InflateBlocks, BytesToBits;
    forall bits: seq<bool> | sent + block + pad <= bits
      ensures Decodes(bits, BODY, [], |sent + block|, after, true)
    {
      PrefixTrans(sent + block, pad, bits);
      PrefixTrans(sent, block, bits);
      assert CarriesIn(bits, sent, block, true, before, after);
      assert Decodes(bits, BODY, [], |sent|, before, false);
    }
  }

  lemma PrefixTrans(a: seq<bool>, b: seq<bool>, c: seq<bool>)
    requires a + b <= c
    ensures a <= c
  {
  }
}
