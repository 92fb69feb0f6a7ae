/** The decoder's side: the compressed data format of RFC 1951 and the member format of
    RFC 1952, written from those documents and used as the specification of gzip. */
module Inflate {
  import opened Bits
  import opened Canonical
  import opened Crc
  import BitOutput

  // ---------- section 3.2.5 of RFC 1951: lengths and distances ----------

  function LengthBase(code: nat): (r: nat)
    requires code < 29
    ensures 3 <= r <= 258
  {
    [3, 4, 5, 6, 7, 8, 9, 10, 11, 13, 15, 17, 19, 23, 27, 31, 35, 43, 51, 59, 67, 83, 99, 115, 131, 163, 195, 227,
     258][code]
  }

  function LengthExtra(code: nat): (r: nat)
    requires code < 29
    ensures r <= 5
  {
    [0, 0, 0, 0, 0, 0, 0, 0, 1, 1, 1, 1, 2, 2, 2, 2, 3, 3, 3, 3, 4, 4, 4, 4, 5, 5, 5, 5, 0][code]
  }

  function DistBase(code: nat): (r: nat)
    requires code < 30
    ensures 1 <= r <= 24577
  {
    [1, 2, 3, 4, 5, 7, 9, 13, 17, 25, 33, 49, 65, 97, 129, 193, 257, 385, 513, 769, 1025, 1537, 2049, 3073, 4097,
     6145, 8193, 12289, 16385, 24577][code]
  }

  function DistExtra(code: nat): (r: nat)
    requires code < 30
    ensures r <= 13
  {
    [0, 0, 0, 0, 1, 1, 2, 2, 3, 3, 4, 4, 5, 5, 6, 6, 7, 7, 8, 8, 9, 9, 10, 10, 11, 11, 12, 12, 13, 13][code]
  }

  const END_OF_BLOCK := 256
  const MAX_BITS := 15

  /** An unsigned field of n bits, least significant bit first. */
  function ReadBits(bits: seq<bool>, pos: nat, n: nat): (r: Read<nat>)
    ensures r.Got? ==> r.pos == pos + n <= |bits|
    ensures r.Got? && n == 8 ==> r.value < 0x100
  {
    if pos + n <= |bits| then
      ValueBelow(bits[pos..pos + n]);
      Pow2Values();
      Got(Value(bits[pos..pos + n]), pos + n)
    else Fail
  }

  lemma {:induction false} ValueBelow(s: seq<bool>)
    ensures Value(s) < Pow2(|s|)
  {
    if s != [] { ValueBelow(s[1..]); }
  }

  /** Copies len bytes from dist back, one at a time, so that source and target may overlap. */
  function CopyMatch(out: seq<byte>, len: nat, dist: nat): (r: seq<byte>)
    requires 1 <= dist <= |out|
    ensures |r| == |out| + len && out <= r
    decreases len
  {
    if len == 0 then out else CopyMatch(out + [out[|out| - dist]], len - 1, dist)
  }

  /** The literals and matches of one block, up to the end-of-block code. */
  function InflateCodes(ll: seq<nat>, dl: seq<nat>, bits: seq<bool>, pos: nat, out: seq<byte>): (r: Read<seq<byte>>)
    ensures r.Got? ==> pos < r.pos <= |bits| && out <= r.value
    decreases |bits| - pos
  {
    var s := DecodeSymbol(ll, MAX_BITS, bits, pos);
    if s.Fail? then Fail
    else if s.value < 256 then InflateCodes(ll, dl, bits, s.pos, out + [s.value])
    else if s.value == END_OF_BLOCK then Got(out, s.pos)
    else if s.value > 285 then Fail
    else
      var m := ReadMatch(s.value - 257, dl, bits, s.pos);
      if m.Fail? || m.value.1 > |out| then Fail
      else InflateCodes(ll, dl, bits, m.pos, CopyMatch(out, m.value.0, m.value.1))
  }

  /** The rest of a match after its length symbol: length and distance. */
  function ReadMatch(code: nat, dl: seq<nat>, bits: seq<bool>, pos: nat): (r: Read<(nat, nat)>)
    requires code < 29
    ensures r.Got? ==> pos <= r.pos <= |bits| && r.value.1 >= 1
  {
    var e := ReadBits(bits, pos, LengthExtra(code));
    if e.Fail? then Fail else
    var d := DecodeSymbol(dl, MAX_BITS, bits, e.pos);
    if d.Fail? || d.value > 29 then Fail else
    var x := ReadBits(bits, d.pos, DistExtra(d.value));
    if x.Fail? then Fail else Got((LengthBase(code) + e.value, DistBase(d.value) + x.value), x.pos)
  }

  // ---------- section 3.2.4: stored blocks ----------

  function InflateStored(bits: seq<bool>, pos: nat, out: seq<byte>): (r: Read<seq<byte>>)
    ensures r.Got? ==> pos < r.pos <= |bits| && out <= r.value
  {
    var len := ReadBits(bits, pos + BitOutput.Padding(pos), 16);
    if len.Fail? then Fail else
    var nlen := ReadBits(bits, len.pos, 16);
    if nlen.Fail? || nlen.value != 0xffff - len.value then Fail else
    var data := ReadBytes(bits, nlen.pos, len.value);
    if data.Fail? then Fail else Got(out + data.value, data.pos)
  }

  function ReadBytes(bits: seq<bool>, pos: nat, n: nat): (r: Read<seq<byte>>)
    ensures r.Got? ==> r.pos == pos + 8 * n <= |bits|
    decreases n
  {
    if n == 0 then (if pos <= |bits| then Got([], pos) else Fail) else
    var b := ReadBits(bits, pos, 8);
    if b.Fail? then Fail else
    var rest := ReadBytes(bits, b.pos, n - 1);
    if rest.Fail? then Fail else Got([b.value] + rest.value, rest.pos)
  }

  // ---------- section 3.2.6: fixed codes ----------

  function FixedLiterals(): (r: seq<nat>)
    ensures |r| == 288
  {
    seq(288, i => if i <= 143 then 8 else if i <= 255 then 9 else if i <= 279 then 7 else 8)
  }

  function FixedDistances(): (r: seq<nat>)
    ensures |r| == 32
  {
    seq(32, i => 5)
  }

  // ---------- section 3.2.7: dynamic codes ----------

  function CodeLengthOrder(i: nat): (r: nat)
    requires i < 19
    ensures r < 19
  {
    [16, 17, 18, 0, 8, 7, 9, 6, 10, 5, 11, 4, 12, 3, 13, 2, 14, 1, 15][i]
  }

  /** The first n lengths of the code length code, in the order of the format; the others are 0. */
  function ReadCodeLengthCode(bits: seq<bool>, pos: nat, n: nat): (r: Read<seq<nat>>)
    requires n <= 19
    ensures r.Got? ==> pos <= r.pos <= |bits| && |r.value| == 19
    decreases n
  {
    if n == 0 then (if pos <= |bits| then Got(seq(19, i => 0), pos) else Fail) else
    var before := ReadCodeLengthCode(bits, pos, n - 1);
    if before.Fail? then Fail else
    var l := ReadBits(bits, before.pos, 3);
    if l.Fail? then Fail else Got(before.value[CodeLengthOrder(n - 1) := l.value], l.pos)
  }

  function Repeat(v: nat, n: nat): (s: seq<nat>)
    ensures |s| == n
  {
    seq(n, i => v)
  }

  /** Reads run-length coded lengths after `acc` until there are `total` of them. */
  function ReadLengths(cl: seq<nat>, bits: seq<bool>, pos: nat, total: nat, acc: seq<nat>): (r: Read<seq<nat>>)
    ensures r.Got? ==> pos <= r.pos && |r.value| == total
    decreases |bits| - pos
  {
    if |acc| > total then Fail
    else if |acc| == total then Got(acc, pos)
    else
      var s := DecodeSymbol(cl, 7, bits, pos);
      if s.Fail? then Fail
      else if s.value < 16 then ReadLengths(cl, bits, s.pos, total, acc + [s.value])
      else if s.value > 18 then Fail
      else
        var n := ReadBits(bits, s.pos, if s.value == 16 then 2 else if s.value == 17 then 3 else 7);
        if n.Fail? || (s.value == 16 && acc == []) then Fail
        else ReadLengths(cl, bits, n.pos, total,
                         acc + (if s.value == 16 then Repeat(acc[|acc| - 1], 3 + n.value)
                                else if s.value == 17 then Repeat(0, 3 + n.value)
                                else Repeat(0, 11 + n.value)))
  }

  /** The header of a dynamic block: the literal/length and the distance code. */
  function ReadDynamicCodes(bits: seq<bool>, pos: nat): (r: Read<(seq<nat>, seq<nat>)>)
    ensures r.Got? ==> pos < r.pos
  {
    var hlit := ReadBits(bits, pos, 5);
    if hlit.Fail? then Fail else
    var hdist := ReadBits(bits, hlit.pos, 5);
    if hdist.Fail? then Fail else
    var hclen := ReadBits(bits, hdist.pos, 4);
    if hclen.Fail? then Fail else
    ReadCodes(bits, hclen.pos, hlit.value + 257, hdist.value + 1, hclen.value + 4)
  }

  /** ... given how many lengths of each kind it has. All codes must be complete, there may be no
      more symbols than the format has, and a block must be able to end. */
  function ReadCodes(bits: seq<bool>, pos: nat, nl: nat, nd: nat, ncl: nat): (r: Read<(seq<nat>, seq<nat>)>)
    requires nl >= 257
    ensures r.Got? ==> pos <= r.pos
  {
    if nl > 286 || nd > 30 || ncl > 19 then Fail else
    var cl := ReadCodeLengthCode(bits, pos, ncl);
    if cl.Fail? || !Complete(cl.value, 7) then Fail else
    var lens := ReadLengths(cl.value, bits, cl.pos, nl + nd, []);
    if lens.Fail? then Fail else
    var ll, dl := lens.value[..nl], lens.value[nl..];
    if ll[END_OF_BLOCK] == 0 || !Complete(ll, MAX_BITS) || !Complete(dl, MAX_BITS) then Fail
    else Got((ll, dl), lens.pos)
  }

  // ---------- section 3.2.3: blocks ----------

  /** One block after its final-block bit, given what the blocks before it decoded to. */
  function InflateBlock(bits: seq<bool>, pos: nat, out: seq<byte>): (r: Read<seq<byte>>)
    ensures r.Got? ==> pos < r.pos <= |bits| && out <= r.value
  {
    var kind := ReadBits(bits, pos, 2);
    if kind.Fail? then Fail
    else if kind.value == 0 then InflateStored(bits, kind.pos, out)
    else if kind.value == 1 then InflateCodes(FixedLiterals(), FixedDistances(), bits, kind.pos, out)
    else if kind.value == 2 then
      var codes := ReadDynamicCodes(bits, kind.pos);
      if codes.Fail? then Fail
      else InflateCodes(codes.value.0, codes.value.1, bits, codes.pos, out)
    else Fail
  }

  function InflateBlocks(bits: seq<bool>, pos: nat, out: seq<byte>): (r: Read<seq<byte>>)
    ensures r.Got? ==> pos < r.pos <= |bits| && out <= r.value
    decreases |bits| - pos
  {
    var last := ReadBits(bits, pos, 1);
    if last.Fail? then Fail else
    var block := InflateBlock(bits, last.pos, out);
    if block.Fail? then Fail
    else if last.value == 1 then block
    else InflateBlocks(bits, block.pos, block.value)
  }

  // ---------- section 2.3 of RFC 1952: a member without optional fields ----------

  const ID1: byte := 0x1f
  const ID2: byte := 0x8b
  const DEFLATED: byte := 8

  function LittleEndian(b: seq<byte>): nat
    requires |b| == 4
  {
    b[0] as int + 0x100 * b[1] as int + 0x1_0000 * b[2] as int + 0x100_0000 * b[3] as int
  }

  function Gunzip(file: seq<byte>): (r: Read<seq<byte>>)
  {
    if |file| < 18 || file[..4] != [ID1, ID2, DEFLATED, 0] then Fail else
    var data := InflateBlocks(BytesToBits(file), 80, []);
    if data.Got? && TrailerMatches(file, (data.pos + BitOutput.Padding(data.pos)) / 8, data.value) then data else Fail
  }

  /** The file ends with the checksum and the length, modulo 2^32, of the data. */
  predicate TrailerMatches(file: seq<byte>, end: nat, data: seq<byte>)
  {
    && |file| == end + 8
    && LittleEndian(file[end..end + 4]) == Crc32(data)
    && LittleEndian(file[end + 4..]) == |data| % 0x1_0000_0000
  }
}
