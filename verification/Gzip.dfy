/** zip: the whole compressor, against the decoder of RFC 1951 and RFC 1952. */
module Gzip {
  import opened Bits
  import opened Canonical
  import opened Crc
  import opened BitOutput
  import opened Chains
  import opened Tokens
  import opened Block
  import opened BlockDecode
  import opened Window
  import opened Deflate
  import Inflate

  // ---------- the file around the blocks ----------

  lemma {:induction false} BitsInjective(a: nat, b: nat, n: nat)
    requires a < Pow2(n) && b < Pow2(n) && BitsOf(a, n) == BitsOf(b, n)
    ensures a == b
  {
    hide BitsOf;
    ValueOfBits(a, n);
    ValueOfBits(b, n);
  }

  lemma {:induction false} BytesInjective(a: seq<byte>, b: seq<byte>)
    requires BytesToBits(a) == BytesToBits(b)
    ensures a == b
  {
    hide BitsOf, Pow2;
    if a != [] && b != [] {
      var x, y := BytesToBits(a), BytesToBits(b);
      assert x[..8] == BitsOf(a[0], 8) && y[..8] == BitsOf(b[0], 8);
      assert x[8..] == BytesToBits(a[1..]) && y[8..] == BytesToBits(b[1..]);
      Pow2Values();
      BitsInjective(a[0], b[0], 8);
      BytesInjective(a[1..], b[1..]);
      assert a == [a[0]] + a[1..] && b == [b[0]] + b[1..];
    }
  }

  /** Bits that begin with the header come from bytes that do. */
  lemma HeaderBytes(bytes: seq<byte>)
    requires BytesToBits(Header()) <= BytesToBits(bytes)
    ensures Header() <= bytes
  {
    hide BytesToBits, Header;
    var front, rest := bytes[..10], bytes[10..];
    assert bytes == front + rest;
    BytesToBitsConcat(front, rest);
    assert BytesToBits(bytes)[..80] == BytesToBits(front);
    assert BytesToBits(bytes)[..80] == BytesToBits(Header());
    BytesInjective(front, Header());
  }

  lemma LittleEndianBack(n: ulg)
    ensures Inflate.LittleEndian(LittleEndian32(n)) == n
  {
  }

  lemma SlicesOf(a: seq<byte>, b: seq<byte>, c: seq<byte>)
    requires |b| == 4 && |c| == 4
    ensures (a + b + c)[|a|..|a| + 4] == b && (a + b + c)[|a| + 4..] == c
  {
  }

  function Size32(data: seq<byte>): (n: ulg)
    ensures n == |data| % 0x1_0000_0000
  {
    |data| % 0x1_0000_0000
  }

  /** The blocks, and behind them the checksum and the size: the decoder accepts the file. */
  lemma FileDecodes(bytes: seq<byte>, data: seq<byte>, end: nat)
    requires Decoded(BytesToBits(bytes), data, end)
    ensures Header() <= bytes
    ensures Inflate.Gunzip(bytes + LittleEndian32(Crc32(data)) + LittleEndian32(Size32(data))) == Got(data, end)
  {
    hide BytesToBits, Inflate.InflateBlocks, Crc32, LittleEndian32, Inflate.LittleEndian, Padding, Pow2;
    var crc, size := LittleEndian32(Crc32(data)), LittleEndian32(Size32(data));
    var file := bytes + crc + size;
    HeaderBytes(bytes);
    BytesToBitsConcat(bytes, crc + size);
    assert bytes + (crc + size) == file;
    assert Decodes(BytesToBits(file), BODY, [], end, data, true);
    SlicesOf(bytes, crc, size);
    LittleEndianBack(Crc32(data));
    LittleEndianBack(Size32(data));
    assert file[..4] == [Inflate.ID1, Inflate.ID2, Inflate.DEFLATED, 0];
  }

  // ---------- zip ----------

  /** The ten bytes of the header. */
  lemma HeaderIs()
    ensures [] + LittleEndian32(0x00088b1f) + LittleEndian32(0) + [0x300 % 0x100, 0x300 / 0x100] == Header()
  {
  }

  /** The coder, with the first eight bytes of the header written and its tables filled. */
  method StartCoder() returns (coder: BlockCoder)
    ensures coder.Valid() && coder.out.Valid() && coder.buf.tokens == [] && coder.done == [] && coder.out.biValid == 0
    ensures coder.out.Bytes() == [] + LittleEndian32(0x00088b1f) + LittleEndian32(0)
    ensures fresh(coder) && fresh(coder.out) && fresh(coder.out.outbuf) && fresh(coder.builder)
    ensures fresh(coder.builder.heap) && fresh(coder.builder.depth) && fresh(coder.builder.blCount)
    ensures fresh(coder.tables.lengthCode) && fresh(coder.tables.distCode)
    ensures fresh(coder.buf) && fresh(coder.buf.lBuf) && fresh(coder.buf.dBuf) && fresh(coder.buf.flagBuf)
    ensures fresh(coder.lDesc) && fresh(coder.lDesc.dynTree) && fresh(coder.dDesc) && fresh(coder.dDesc.dynTree)
    ensures fresh(coder.blDesc) && fresh(coder.blDesc.dynTree)
  {
    hide BytesToBits, BitsOf, LittleEndian32, BlockCoder.Valid, BlockCoder.Wired;
    coder := new BlockCoder();
    var out := coder.out;
    out.Put32bit(0x00088b1f);
    out.Put32bit(0);
    coder.CtInit();
  }

  /** The window, with the first bytes read. */
  method StartWindow(source: Source) returns (win: SlidingWindow)
    requires source.Valid() && source.pos == 0
    modifies source
    ensures win.Valid() && (win.eofile || win.lookahead >= MIN_LOOKAHEAD) && win.source == source
    ensures win.base == 0 && win.strstart == 0 && win.blockStart == 0
    ensures fresh(win) && fresh(win.window) && fresh(win.prev) && fresh(win.head) && fresh(win.crcTable)
  {
    hide Shift8, Update;
    var table := FillTable();
    win := new SlidingWindow(source, table);
    win.LmInit();
  }

  /** Everything is set up for deflate: the header is out, the tables are filled, the first bytes are read. */
  method Start(source: Source) returns (win: SlidingWindow, coder: BlockCoder, d: Deflater)
    requires source.Valid() && source.pos == 0
    modifies source
    ensures fresh(d) && fresh(win) && fresh(win.window) && fresh(win.prev) && fresh(win.head)
    ensures d.win == win && d.coder == coder && win.source == source && d.AtHead(false, MIN_MATCH - 1)
    ensures fresh(coder) && fresh(coder.out) && fresh(coder.out.outbuf) && fresh(coder.builder)
    ensures fresh(coder.builder.heap) && fresh(coder.builder.depth) && fresh(coder.builder.blCount)
    ensures fresh(coder.tables.lengthCode) && fresh(coder.tables.distCode)
    ensures fresh(coder.buf) && fresh(coder.buf.lBuf) && fresh(coder.buf.dBuf) && fresh(coder.buf.flagBuf)
    ensures fresh(coder.lDesc) && fresh(coder.lDesc.dynTree) && fresh(coder.dDesc) && fresh(coder.dDesc.dynTree)
    ensures fresh(coder.blDesc) && fresh(coder.blDesc.dynTree)
  {
    hide BytesToBits, BitsOf, LittleEndian32, Header, Expand, Decoding, SlidingWindow.Content, SlidingWindow.Inserted;
    hide SlidingWindow.HashReady;
    hide Deflater.AtHead, BlockCoder.Valid;
    coder := StartCoder();
    win := StartWindow(source);
    HeaderIs();
    PutEnd(coder);
    d := new Deflater(win, coder);
    ReadyToStart(d);
  }

  lemma ReadyToStart(d: Deflater)
    requires d.Apart() && d.win.Valid() && d.coder.Valid() && d.coder.out.Valid() && Decoding(d.coder.out.Sent(), [])
    requires d.win.eofile || d.win.lookahead >= MIN_LOOKAHEAD
    requires d.win.base == 0 && d.win.strstart == 0 && d.win.blockStart == 0 && d.coder.buf.tokens == []
    requires d.coder.done == []
    ensures d.AtHead(false, MIN_MATCH - 1)
  {
    hide Decoding, Expand, SlidingWindow.Content, SlidingWindow.Inserted, SlidingWindow.HashReady, BlockCoder.Valid;
    NoTokens([]);
    assert d.win.input[..0] == [];
  }

  lemma WholeBytes(out: BitWriter)
    requires out.Valid() && out.biValid == 0
    ensures out.Sent() == BytesToBits(out.Bytes())
  {
    assert BitsOf(out.biBuf, 0) == [];
  }

  /** The last two bytes of the header. */
  method PutEnd(coder: BlockCoder)
    requires coder.Valid() && coder.out.Valid() && coder.out.biValid == 0
    requires coder.out.Bytes() + [0x300 % 0x100, 0x300 / 0x100] == Header()
    modifies coder.out, coder.out.outbuf
    ensures coder.Valid() && coder.out.Valid() && Decoding(coder.out.Sent(), [])
  {
    hide BytesToBits, Header, Expand, Decoding;
    coder.out.Put16bit(0x300);
    WholeBytes(coder.out);
    DecodingStart(BytesToBits(Header()));
  }

  /** The checksum and the size behind the blocks, after which nothing is left in the buffer. */
  method WriteTrailer(out: BitWriter, crc: ulg, isize: ulg, ghost data: seq<byte>, ghost end: nat)
    returns (output: seq<byte>)
    requires out.Valid() && Decoded(BytesToBits(out.Bytes()), data, end)
    requires crc == Update(0xffff_ffff, data) && isize == Size32(data)
    modifies out, out.outbuf
    ensures Header() <= output && Inflate.Gunzip(output) == Got(data, end)
  {
    hide BytesToBits, LittleEndian32, Decoded, Update, Inflate.Gunzip, Crc32, Header;
    ghost var bytes := out.Bytes();
    CrcOf(crc, data);
    out.Put32bit(0xffff_ffff - crc);
    out.Put32bit(isize);
    FileDecodes(bytes, data, end);
    out.FlushOutbuf();
    output := out.written;
  }

  /** zip: for every input and every way in which reads split it up, the file starts with the header of the
      format and decodes to exactly what was read: everything, unless a read failed. */
  method Zip(source: Source) returns (output: seq<byte>)
    requires source.Valid() && source.pos == 0 && !source.failed
    modifies source
    ensures source.Valid() && (!source.failed ==> source.pos == |source.data|)
    ensures Header() <= output
    ensures var r := Inflate.Gunzip(output); r.Got? && r.value == source.data[..source.pos]
  {
    hide BytesToBits, BitsOf, Decoded, Update, Shift8, Deflater.AtHead, Inflate.Gunzip, Header;
    var win, coder, d := Start(source);
    ghost var end := d.Deflate();
    output := WriteTrailer(coder.out, win.crc, win.isize, win.input, end);
  }

  lemma CrcOf(crc: ulg, input: seq<byte>)
    requires crc == Update(0xffff_ffff, input)
    ensures 0xffff_ffff - crc == Crc32(input)
  {
  }

  /** Without read errors, what zip writes for `data` is a file that decodes to `data`. */
  method ZipData(data: seq<byte>) returns (output: seq<byte>, failed: bool)
    ensures !failed ==> Inflate.Gunzip(output).Got? && Inflate.Gunzip(output).value == data
  {
    var source := new Source(data);
    output := Zip(source);
    failed := source.failed;
    assert data[..|data|] == data;
  }
}
