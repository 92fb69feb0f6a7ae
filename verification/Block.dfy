/** One block: counting its tokens, building its trees, and sending it in the cheapest form. */
module Block {
  import opened Bits
  import opened Canonical
  import opened BitOutput
  import opened Heap
  import opened HuffmanShape
  import opened CutLengths
  import opened Reassign
  import opened CodeGen
  import opened HuffmanTree
  import opened Counting
  import opened RunLength
  import opened TreeCoding
  import opened Tokens
  import opened TokenStore
  import opened Tables
  import opened BlockHeader
  import opened BlockCost
  import opened BlockTrees
  import opened BlockDecode
  import opened TrimCodes
  import opened ShortestCodes
  import opened ShortestBlock
  import Inflate

  ghost predicate DescribedAs(desc: TreeDesc, static_: array?<CtData>, extra: seq<nat>, base: nat, elems: nat, max: nat)
  {
    && desc.staticTree == static_ && desc.extraBits == extra && desc.extraBase == base
    && desc.elems == elems && desc.maxLength == max
  }

  /** A tree with its description, as zeroed memory and pack_gzip leave them. */
  method NewDesc(static_: array?<CtData>, extra: seq<nat>, base: nat, elems: nat, max: nat) returns (d: TreeDesc)
    requires base + |extra| == elems && 3 <= elems <= LIT_CODES && 2 <= max <= Inflate.MAX_BITS && elems <= Pow2(max)
    requires base == 0 ==> extra[0] == extra[1] == extra[2] == 0
    requires base == 0 || base >= 3
    requires static_ != null ==> static_.Length >= elems
    ensures fresh(d) && fresh(d.dynTree) && d.Valid() && DescribedAs(d, static_, extra, base, elems, max)
  {
    var t := new CtData[2 * elems + 1](_ => CtData(0, 0));
    d := new TreeDesc(t, static_, extra, base, elems, max);
  }

  /** The first three codes never have extra bits. */
  lemma FirstExtras()
    ensures ExtraDbits()[0] == ExtraDbits()[1] == ExtraDbits()[2] == 0
    ensures ExtraBlbits()[0] == ExtraBlbits()[1] == ExtraBlbits()[2] == 0
  {
  }

  /** The three trees. */
  method NewDescs(tables: CodeTables) returns (l: TreeDesc, d: TreeDesc, bl: TreeDesc)
    requires tables.Allocated()
    ensures fresh(l) && fresh(l.dynTree) && l.Valid() && fresh(d) && fresh(d.dynTree) && d.Valid()
    ensures fresh(bl) && fresh(bl.dynTree) && bl.Valid() && l != d && l != bl && d != bl
    ensures l.dynTree != d.dynTree && l.dynTree != bl.dynTree && d.dynTree != bl.dynTree
    ensures DescribedAs(l, tables.staticLtree, ExtraLbits(), LITERALS + 1, LIT_CODES, Inflate.MAX_BITS)
    ensures DescribedAs(d, tables.staticDtree, ExtraDbits(), 0, D_CODES, Inflate.MAX_BITS)
    ensures DescribedAs(bl, null, ExtraBlbits(), 0, BL_CODES, 7)
  {
    hide ExtraLbits, ExtraDbits, ExtraBlbits, Pow2;
    Pow2Values();
    FirstExtras();
    l := NewDesc(tables.staticLtree, ExtraLbits(), LITERALS + 1, LIT_CODES, Inflate.MAX_BITS);
    d := NewDesc(tables.staticDtree, ExtraDbits(), 0, D_CODES, Inflate.MAX_BITS);
    bl := NewDesc(null, ExtraBlbits(), 0, BL_CODES, 7);
  }

  datatype Form = Stored | Static | Dynamic

  /** No longer block is ever stored: 8191 tokens of at most 31 bits take up less with the static codes. */
  const MAX_STORED := 31738

  /** Bits to bytes, with the three bits of the type. */
  function BlockBytes(bits: nat): nat
  {
    (bits + 3 + 7) / 8
  }

  /** The cheapest form, in bytes: stored if four bytes more than the data are enough, else static or dynamic;
      and the bits that the block then takes up behind the first pos bits of the file. */
  ghost predicate Choice(form: Form, size: nat, pos: nat, storedLen: nat, opt: nat, fixed: nat)
  {
    var best := if BlockBytes(fixed) <= BlockBytes(opt) then BlockBytes(fixed) else BlockBytes(opt);
    match form
    case Stored => storedLen + 4 <= best && size == 3 + Padding(pos + 3) + 32 + 8 * storedLen
    case Static => storedLen + 4 > best && BlockBytes(fixed) <= BlockBytes(opt) && size == 3 + fixed
    case Dynamic => storedLen + 4 > best && BlockBytes(fixed) > BlockBytes(opt) && size == 3 + opt
  }

  /** The codes of a block with codes of its own: the lengths for literals and lengths, for distances, and for
      these lengths, and how many of the last are sent. */
  datatype BlockCodes = BlockCodes(ll: seq<nat>, dl: seq<nat>, cl: seq<nat>, ncl: nat)

  /** The tokens can be sent with these codes, and the codes with the last one of them. */
  ghost predicate Usable(c: BlockCodes, tokens: seq<Token>)
  {
    && Complete(c.ll, Inflate.MAX_BITS) && Complete(c.dl, Inflate.MAX_BITS) && Complete(c.cl, 7)
    && 257 <= |c.ll| <= LIT_CODES && 1 <= |c.dl| <= D_CODES && 4 <= c.ncl <= BL_CODES && Trimmed(c.cl, c.ncl)
    && Coding(c.cl, Symbols(c.ll) + Symbols(c.dl)) && AllEncodable(c.ll, c.dl, tokens)
  }

  /** What the tokens take up behind the type of their block: opt bits with the codes c, and fixed bits with
      the static ones. Unless a length is the greatest allowed, no codes for them take fewer than those of c. */
  ghost predicate Costs(tokens: seq<Token>, c: BlockCodes, opt: nat, fixed: nat)
  {
    && Usable(c, tokens) && Sends(c.ll, c.dl, tokens)
    && AllEncodable(Inflate.FixedLiterals(), Inflate.FixedDistances(), tokens)
    && opt == |HeaderBits(c.ll, c.dl, c.cl, c.ncl)| + |BlockBits(c.ll, c.dl, tokens)|
    && fixed == |BlockBits(Inflate.FixedLiterals(), Inflate.FixedDistances(), tokens)|
    && (Uncut(c.ll, Inflate.MAX_BITS) && Uncut(c.dl, Inflate.MAX_BITS) ==> ShortestBody(c.ll, c.dl, tokens))
  }

  /** The lengths in all nodes of a tree, symbols first. */
  ghost function AllLens(t: seq<CtData>): seq<nat>
  {
    LensOf(t, |t|)
  }

  lemma LensFirst(t: seq<CtData>, lens: seq<nat>)
    requires |lens| <= |t| && LensOf(t, |lens|) == lens
    ensures lens <= AllLens(t)
  {
    forall i | 0 <= i < |lens|
      ensures lens[i] == AllLens(t)[i]
    {
      assert LensOf(t, |lens|)[i] == t[i].dl;
    }
  }

  class BlockCoder {
    const out: BitWriter
    const builder: TreeBuilder
    const tables: CodeTables
    const buf: TokenBuffer
    const lDesc: TreeDesc
    const dDesc: TreeDesc
    const blDesc: TreeDesc
    /** The data in the blocks that were sent. */
    ghost var done: seq<byte>

    /** The trees are set up as in pack_gzip. */
    ghost predicate Described()
    {
      && tables.Allocated() && lDesc.Valid() && dDesc.Valid() && blDesc.Valid()
      && lDesc != dDesc && lDesc != blDesc && dDesc != blDesc
      && DescribedAs(lDesc, tables.staticLtree, ExtraLbits(), LITERALS + 1, LIT_CODES, Inflate.MAX_BITS)
      && DescribedAs(dDesc, tables.staticDtree, ExtraDbits(), 0, D_CODES, Inflate.MAX_BITS)
      && DescribedAs(blDesc, null, ExtraBlbits(), 0, BL_CODES, 7)
    }

    /** No two buffers are the same. */
    ghost predicate Separate()
    {
      && lDesc.dynTree != dDesc.dynTree && lDesc.dynTree != blDesc.dynTree && dDesc.dynTree != blDesc.dynTree
      && lDesc.dynTree != tables.staticLtree && dDesc.dynTree != tables.staticLtree
      && blDesc.dynTree != tables.staticLtree
      && lDesc.dynTree != tables.staticDtree && dDesc.dynTree != tables.staticDtree
      && blDesc.dynTree != tables.staticDtree
      && out.outbuf != builder.depth && out.outbuf != tables.lengthCode && out.outbuf != tables.distCode
      && out.outbuf != buf.lBuf && out.outbuf != buf.flagBuf && builder.depth != tables.lengthCode
      && builder.depth != tables.distCode && builder.depth != buf.lBuf && builder.depth != buf.flagBuf
      && tables.lengthCode != buf.lBuf && tables.lengthCode != buf.flagBuf
      && tables.distCode != buf.lBuf && tables.distCode != buf.flagBuf
      && builder.heap != buf.dBuf && builder.blCount != tables.baseLength && builder.blCount != tables.baseDist
    }

    ghost predicate Wired()
    {
      builder.Valid() && buf.Allocated() && Described() && Separate()
    }

    /** The frequencies are those of the tokens, and nothing has been paid for yet. */
    ghost predicate Counted()
      requires Wired()
      reads lDesc.dynTree, dDesc.dynTree, blDesc.dynTree, buf, builder
    {
      && Freqs(lDesc.dynTree[..], LIT_CODES) == Histogram(LitCodes(buf.tokens), LIT_CODES)
      && Freqs(dDesc.dynTree[..], D_CODES) == Histogram(DistCodes(buf.tokens), D_CODES)
      && Freqs(blDesc.dynTree[..], BL_CODES) == Histogram([], BL_CODES)
      && builder.optLen == 0 && builder.staticLen == 0
    }

    ghost predicate Valid()
      reads this, out, out.outbuf, buf, buf.lBuf, buf.dBuf, buf.flagBuf, builder
      reads tables.lengthCode, tables.distCode, tables.baseLength, tables.baseDist, tables.staticLtree
      reads tables.staticDtree
      reads lDesc.dynTree, dDesc.dynTree, blDesc.dynTree
    {
      && Wired() && out.Valid() && tables.Valid() && buf.Valid() && Counted() && Reachable(buf.tokens, done)
    }

    /** All the data tallied so far. */
    ghost function Data(): seq<byte>
      reads this, buf
    {
      Expand(buf.tokens, done)
    }

    constructor ()
      ensures Wired() && done == [] && fresh(out) && fresh(out.outbuf) && out.Valid() && out.Sent() == []
      ensures out.Bytes() == [] && out.biValid == 0
      ensures fresh(builder) && fresh(builder.heap) && fresh(builder.depth) && fresh(builder.blCount)
      ensures fresh(buf) && fresh(buf.lBuf) && fresh(buf.dBuf) && fresh(buf.flagBuf)
      ensures fresh(tables.lengthCode) && fresh(tables.distCode) && fresh(tables.baseLength) && fresh(tables.baseDist)
      ensures fresh(tables.staticLtree) && fresh(tables.staticDtree)
      ensures fresh(lDesc) && fresh(lDesc.dynTree) && fresh(dDesc) && fresh(dDesc.dynTree) && fresh(blDesc)
      ensures fresh(blDesc.dynTree)
      ensures forall b | 0 <= b <= CutLengths.MAX_BITS :: builder.blCount[b] == 0
    {
      hide ExtraLbits, ExtraDbits, ExtraBlbits, Pow2;
      out := new BitWriter();
      builder := new TreeBuilder();
      buf := new TokenBuffer();
      var t := new CodeTables();
      var l, d, bl := NewDescs(t);
      tables, lDesc, dDesc, blDesc := t, l, d, bl;
      done := [];
    }

    /** ct_init: fills the tables and starts the first block. */
    method CtInit()
      requires Wired() && out.Valid() && done == []
               && forall b | 0 <= b <= CutLengths.MAX_BITS :: builder.blCount[b] == 0
      modifies tables.lengthCode, tables.distCode, tables.baseLength, tables.baseDist, tables.staticLtree
      modifies tables.staticDtree
      modifies lDesc.dynTree, dDesc.dynTree, blDesc.dynTree, buf, builder`optLen, builder`staticLen, builder.blCount
      ensures Valid() && buf.tokens == [] && out.Valid() && out.Bytes() == old(out.Bytes())
    {
      hide Described, CodeTables.Valid, TokenBuffer.Valid, Expand, Reachable, BytesToBits, BitsOf, BlockCoder.Counted;
      hide Pow2;
      hide BlockCoder.TreeLens;
      InitTables();
      InitBlock();
      NoTokens(done);
    }

    method InitTables()
      requires Wired() && forall b | 0 <= b <= CutLengths.MAX_BITS :: builder.blCount[b] == 0
      modifies tables.lengthCode, tables.distCode, tables.baseLength, tables.baseDist, tables.staticLtree
      modifies tables.staticDtree
      modifies builder.blCount
      ensures tables.Valid()
    {
      hide Described, CodeTables.Valid;
      TablesAllocated();
      tables.CtInit(builder.blCount);
    }

    lemma StoredCount()
      requires buf.Valid()
      ensures buf.lastLit == |buf.tokens|
    {
    }

    lemma TablesAllocated()
      requires Described()
      ensures tables.Allocated()
    {
    }

    /** init_block: starts a new, empty block. */
    method InitBlock()
      requires Wired()
      modifies lDesc.dynTree, dDesc.dynTree, blDesc.dynTree, buf, builder`optLen, builder`staticLen
      ensures buf.Valid() && buf.tokens == [] && Counted()
      ensures TreeLens() == old(TreeLens())
    {
      hide Described, Freqs, Histogram, BlockCoder.TreeLens, LitCodes, DistCodes, Pow2;
      Trees();
      ClearTrees();
      builder.optLen, builder.staticLen := 0, 0;
      buf.Clear();
    }

    method ClearTrees()
      requires Wired()
      modifies lDesc.dynTree, dDesc.dynTree, blDesc.dynTree
      ensures lDesc.dynTree.Length >= LIT_CODES
      ensures Freqs(lDesc.dynTree[..], LIT_CODES) == Histogram(LitCodes([]), LIT_CODES)
      ensures dDesc.dynTree.Length >= D_CODES && Freqs(dDesc.dynTree[..], D_CODES) == Histogram(DistCodes([]), D_CODES)
      ensures blDesc.dynTree.Length >= BL_CODES && Freqs(blDesc.dynTree[..], BL_CODES) == Histogram([], BL_CODES)
      ensures TreeLens() == old(TreeLens())
    {
      hide Described, Freqs, Histogram, AllLens, LitCodes, DistCodes, Pow2;
      Trees();
      ClearFreqs(lDesc.dynTree, LIT_CODES);
      ClearFreqs(dDesc.dynTree, D_CODES);
      ClearFreqs(blDesc.dynTree, BL_CODES);
      CountEnd(lDesc.dynTree);
    }

    /** The frequency part of ct_tally for a literal. */
    method CountLiteral(lc: byte)
      requires Wired() && Counted() && |buf.tokens| < LIT_BUFSIZE
      modifies lDesc.dynTree
      ensures Freqs(lDesc.dynTree[..], LIT_CODES) == Histogram(LitCodes(buf.tokens + [Literal(lc)]), LIT_CODES)
      ensures Freqs(dDesc.dynTree[..], D_CODES) == Histogram(DistCodes(buf.tokens + [Literal(lc)]), D_CODES)
    {
      hide Described, Histogram, LitCodes, DistCodes, Freqs;
      Trees();
      LitCodesPush(buf.tokens, Literal(lc));
      assert DistCodes(buf.tokens) + [] == DistCodes(buf.tokens);
      CountCode(lDesc.dynTree, lc, LIT_CODES, LitCodes(buf.tokens));
    }

    /** ... and for a match. */
    method CountMatch(dist: nat, lc: byte)
      requires Wired() && tables.Valid() && Counted() && |buf.tokens| < LIT_BUFSIZE && 1 <= dist <= MAX_DIST
      modifies lDesc.dynTree, dDesc.dynTree
      ensures Freqs(lDesc.dynTree[..], LIT_CODES)
              == Histogram(LitCodes(buf.tokens + [Match(lc + MIN_MATCH, dist)]), LIT_CODES)
      ensures Freqs(dDesc.dynTree[..], D_CODES)
              == Histogram(DistCodes(buf.tokens + [Match(lc + MIN_MATCH, dist)]), D_CODES)
    {
      hide Described, Histogram, LengthTable, DistTable, CodesFor, StaticDistances, LengthCode, DistCode, LitCodes;
      hide DistCodes, Freqs;
      Trees();
      LitCodesPush(buf.tokens, Match(lc + MIN_MATCH, dist));
      var d: nat := dist - 1;
      TableEntries(tables.lengthCode[..], tables.distCode[..], tables.baseLength[..], tables.baseDist[..], lc, d);
      var dcode: nat := if d < 256 then tables.distCode[d] else tables.distCode[256 + d / 128];
      CountCode(lDesc.dynTree, tables.lengthCode[lc] + LITERALS + 1, LIT_CODES, LitCodes(buf.tokens));
      CountCode(dDesc.dynTree, dcode, D_CODES, DistCodes(buf.tokens));
    }

    /** The frequencies are those of the tokens and t. */
    ghost predicate CountedWith(t: Token)
      requires Wired()
      reads lDesc.dynTree, dDesc.dynTree, blDesc.dynTree, buf, builder
    {
      && Freqs(lDesc.dynTree[..], LIT_CODES) == Histogram(LitCodes(buf.tokens + [t]), LIT_CODES)
      && Freqs(dDesc.dynTree[..], D_CODES) == Histogram(DistCodes(buf.tokens + [t]), D_CODES)
      && Freqs(blDesc.dynTree[..], BL_CODES) == Histogram([], BL_CODES)
      && builder.optLen == 0 && builder.staticLen == 0
    }

    /** All is in order but that t, which was counted, has not been saved. */
    ghost predicate Owed(t: Token)
      reads this, out, out.outbuf, buf, buf.lBuf, buf.dBuf, buf.flagBuf, builder
      reads tables.lengthCode, tables.distCode, tables.baseLength, tables.baseDist, tables.staticLtree
      reads tables.staticDtree
      reads lDesc.dynTree, dDesc.dynTree, blDesc.dynTree
    {
      && Wired() && out.Valid() && tables.Valid() && buf.Valid() && CountedWith(t) && Reachable(buf.tokens, done)
      && |buf.tokens| + 1 < LIT_BUFSIZE
    }

    /** ... and for either. */
    method CountToken(dist: nat, lc: byte) returns (ghost t: Token)
      requires Valid() && |buf.tokens| + 1 < LIT_BUFSIZE && dist <= MAX_DIST
      modifies lDesc.dynTree, dDesc.dynTree
      ensures t == if dist == 0 then Literal(lc) else Match(lc + MIN_MATCH, dist)
      ensures Owed(t)
    {
      hide Described, Histogram, Freqs, CodeTables.Valid, TokenBuffer.Valid, LitCodes, DistCodes, Expand, Reachable;
      hide BytesToBits, BitsOf, Pow2;
      StoredCount();
      Trees();
      if dist == 0 {
        t := Literal(lc);
        CountLiteral(lc);
      } else {
        t := Match(lc + MIN_MATCH, dist);
        CountMatch(dist, lc);
      }
    }

    /** Saves a token that has been counted. */
    method SaveToken(dist: nat, lc: byte, ghost t: Token)
      requires Owed(t) && dist <= MAX_DIST && dist <= |Data()|
      requires t == if dist == 0 then Literal(lc) else Match(lc + MIN_MATCH, dist)
      modifies buf, buf.lBuf, buf.dBuf, buf.flagBuf
      ensures Valid() && buf.tokens == old(buf.tokens) + [t] && Data() == ExpandOne(old(Data()), t)
      ensures out.Valid() && out.Sent() == old(out.Sent())
    {
      hide Described, Histogram, Freqs, CodeTables.Valid, TokenBuffer.Stored, TokenBuffer.Flagged, Expand, Reachable;
      hide Pow2;
      hide LitCodes, DistCodes, ExpandOne, BytesToBits, BitsOf;
      StoredCount();
      Push(buf.tokens, t, done);
      buf.Append(dist, lc);
    }

    lemma WholeOut()
      requires Valid()
      ensures out.Valid()
    {
    }

    lemma ValidCount()
      requires Valid()
      ensures buf.lastLit == |buf.tokens| && dDesc.dynTree.Length >= D_CODES
    {
      StoredCount();
      Trees();
    }

    /** Whether the block should end here: every 4096 tokens there is a guess from an upper bound of its
        size, and it must end before the buffers overflow. */
    method FlushWanted(inLength: nat) returns (flush: bool)
      requires dDesc.dynTree.Length >= D_CODES
      ensures buf.lastLit == LIT_BUFSIZE - 1 ==> flush
    {
      flush := buf.lastLit == LIT_BUFSIZE - 1 || buf.lastDist == DIST_BUFSIZE;
      if buf.lastLit % 0x1000 != 0 { return; }
      var outLength := buf.lastLit * 8;
      for dcode := 0 to D_CODES
        invariant outLength >= 0
      {
        outLength := outLength + dDesc.dynTree[dcode].fc * (5 + ExtraDbits()[dcode]);
      }
      outLength := outLength / 8;
      if buf.lastDist < buf.lastLit / 2 && outLength < inLength / 2 { flush := true; }
    }

    /** ct_tally: saves a literal or match and counts it. Returns whether the block must be flushed. */
    method Tally(dist: nat, lc: byte, inLength: nat) returns (flush: bool)
      requires Valid() && |buf.tokens| + 1 < LIT_BUFSIZE && dist <= MAX_DIST && dist <= |Data()|
      modifies buf, buf.lBuf, buf.dBuf, buf.flagBuf, lDesc.dynTree, dDesc.dynTree
      ensures out.Valid() && out.Sent() == old(out.Sent())
      ensures Valid()
      ensures buf.tokens == old(buf.tokens) + [if dist == 0 then Literal(lc) else Match(lc + MIN_MATCH, dist)]
      ensures Data() == ExpandOne(old(Data()), if dist == 0 then Literal(lc) else Match(lc + MIN_MATCH, dist))
      ensures |buf.tokens| == LIT_BUFSIZE - 1 ==> flush
    {
      hide BlockCoder.Valid, BlockCoder.Owed, Expand, ExpandOne, BytesToBits, BitsOf, Pow2;
      WholeOut();
      ghost var t := CountToken(dist, lc);
      SaveToken(dist, lc, t);
      ValidCount();
      flush := FlushWanted(inLength);
    }

    /** The literal/length and the distance code are built: ll and dl are their lengths. */
    ghost predicate CodesBuilt(ll: seq<nat>, dl: seq<nat>)
      reads buf, lDesc, lDesc.dynTree, dDesc, dDesc.dynTree
    {
      && 1 <= |ll| == lDesc.maxCode + 1 <= LIT_CODES && 1 <= |dl| == dDesc.maxCode + 1 <= D_CODES
      && Carries(lDesc.dynTree[..], ll, LitCodes(buf.tokens), Inflate.MAX_BITS)
      && Carries(dDesc.dynTree[..], dl, DistCodes(buf.tokens), Inflate.MAX_BITS)
    }

    /** The first two trees of flush_block. optLen and staticLen become the bits that the tokens and the
        end-of-block code take up with the new codes and with the static ones. */
    method BuildLitDist() returns (ghost ll: seq<nat>, ghost dl: seq<nat>)
      requires Wired() && tables.Valid() && buf.Stored() && Counted()
      modifies builder, builder.heap, builder.depth, builder.blCount, lDesc, lDesc.dynTree, dDesc, dDesc.dynTree
      ensures CodesBuilt(ll, dl) && tables.Valid()
      ensures Tight(LitCodes(buf.tokens), ll, Inflate.MAX_BITS) && Tight(DistCodes(buf.tokens), dl, Inflate.MAX_BITS)
      ensures AllEncodable(ll, dl, buf.tokens) && Inflate.END_OF_BLOCK < |ll| && ll[Inflate.END_OF_BLOCK] >= 1
      ensures builder.optLen == |BlockBits(ll, dl, buf.tokens)|
      ensures AllEncodable(Inflate.FixedLiterals(), Inflate.FixedDistances(), buf.tokens)
      ensures builder.staticLen == |BlockBits(Inflate.FixedLiterals(), Inflate.FixedDistances(), buf.tokens)|
    {
      hide Histogram, CodesCost, Carries, LengthTable, DistTable, CodesFor, StaticDistances, BlockBits, LitCodes;
      hide DistCodes;
      hide ExtraLbits, ExtraDbits, ExtraBlbits, LitExtra, Dists, LitByte, ValidToken, AllSendable, Encodable, Pow2;
      Trees();
      Extras();
      CodesBelow(buf.tokens);
      ghost var lt0, dt0 := tables.staticLtree[..], tables.staticDtree[..];
      StaticSends(lt0, dt0, buf.tokens);
      TreesCost(lt0, dt0, Inflate.FixedLiterals(), Inflate.FixedDistances(), buf.tokens);
      ll := BuildTrimmed(builder, lDesc, LitCodes(buf.tokens));
      dl := BuildTrimmed(builder, dDesc, DistCodes(buf.tokens));
      BuiltSends(lDesc.dynTree[..], dDesc.dynTree[..], ll, dl, buf.tokens);
      TreesCost(lDesc.dynTree[..], dDesc.dynTree[..], ll, dl, buf.tokens);
      SendsEncodes(lDesc.dynTree[..], dDesc.dynTree[..], ll, dl, buf.tokens);
    }

    /** All three codes are built, and the lengths of the first two are guarded. */
    ghost predicate TreesBuilt(ll: seq<nat>, dl: seq<nat>, cl: seq<nat>, ncl: nat)
      reads buf, lDesc, lDesc.dynTree, dDesc, dDesc.dynTree, blDesc.dynTree
    {
      && CodesBuilt(ll, dl) && Guarded(lDesc.dynTree[..], ll) && Guarded(dDesc.dynTree[..], dl)
      && HeaderReady(blDesc.dynTree[..], ll, dl, cl, ncl)
    }

    /** Counts the symbols for the lengths of both trees. */
    method ScanTrees(ghost ll: seq<nat>, ghost dl: seq<nat>)
      requires Wired() && CodesBuilt(ll, dl)
      requires Freqs(blDesc.dynTree[..], BL_CODES) == Histogram([], BL_CODES)
      modifies lDesc.dynTree, dDesc.dynTree, blDesc.dynTree
      ensures CodesBuilt(ll, dl) && Guarded(lDesc.dynTree[..], ll) && Guarded(dDesc.dynTree[..], dl)
      ensures |Symbols(ll)| <= |ll| && |Symbols(dl)| <= |dl|
      ensures Freqs(blDesc.dynTree[..], BL_CODES) == Histogram(Codes(Symbols(ll)) + Codes(Symbols(dl)), BL_CODES)
    {
      hide Histogram, Carries, Guarded, Symbols, Described, LitCodes, DistCodes, Freqs;
      Trees();
      ghost var lt, dt := lDesc.dynTree[..], dDesc.dynTree[..];
      CarriesLens(lt, ll, LitCodes(buf.tokens), Inflate.MAX_BITS);
      CarriesLens(dt, dl, DistCodes(buf.tokens), Inflate.MAX_BITS);
      ScanTree(lDesc.dynTree, lDesc.maxCode, blDesc.dynTree, ll, []);
      assert [] + Codes(Symbols(ll)) == Codes(Symbols(ll));
      ScanTree(dDesc.dynTree, dDesc.maxCode, blDesc.dynTree, dl, Codes(Symbols(ll)));
      CarriesSame(lt, lDesc.dynTree[..], ll, LitCodes(buf.tokens), Inflate.MAX_BITS);
      CarriesSame(dt, dDesc.dynTree[..], dl, DistCodes(buf.tokens), Inflate.MAX_BITS);
    }

    /** Builds the code length tree, adds the cost of the header to optLen, and returns the place in the
        order of the last code length to send. */
    method BuildBlTree(ghost ll: seq<nat>, ghost dl: seq<nat>) returns (maxBlindex: nat, ghost cl: seq<nat>)
      requires Wired() && CodesBuilt(ll, dl) && Inflate.END_OF_BLOCK < |ll| && ll[Inflate.END_OF_BLOCK] >= 1
      requires Freqs(blDesc.dynTree[..], BL_CODES) == Histogram([], BL_CODES)
      modifies builder, builder.heap, builder.depth, builder.blCount
      modifies lDesc.dynTree, dDesc.dynTree, blDesc, blDesc.dynTree
      ensures TreesBuilt(ll, dl, cl, maxBlindex + 1)
      ensures builder.optLen == old(builder.optLen) + |HeaderBits(ll, dl, cl, maxBlindex + 1)|
      ensures builder.staticLen == old(builder.staticLen)
    {
      hide Histogram, Carries, Guarded, Symbols, LitCodes, DistCodes, Freqs, CodesCost, HeaderReady, Codes, Pow2;
      hide ExtraBlbits, ExtraLbits, ExtraDbits, BlOrder, Complete, Coding, CodesFor, Trimmed, HeaderBits;
      Trees();
      CodesComplete(ll, dl);
      ScanTrees(ll, dl);
      maxBlindex, cl := BuildLengthCode(ll, dl);
    }

    /** The code for the lengths of both trees, whose symbols have been counted. */
    method BuildLengthCode(ghost ll: seq<nat>, ghost dl: seq<nat>) returns (maxBlindex: nat, ghost cl: seq<nat>)
      requires Wired() && Complete(ll, Inflate.MAX_BITS) && Complete(dl, Inflate.MAX_BITS)
      requires 257 <= |ll| && ll[Inflate.END_OF_BLOCK] >= 1 && 1 <= |dl|
      requires |Symbols(ll)| <= |ll| <= LIT_CODES && |Symbols(dl)| <= |dl| <= D_CODES
      requires Freqs(blDesc.dynTree[..], BL_CODES) == Histogram(Codes(Symbols(ll)) + Codes(Symbols(dl)), BL_CODES)
      modifies builder, builder.heap, builder.depth, builder.blCount, blDesc, blDesc.dynTree
      ensures HeaderReady(blDesc.dynTree[..], ll, dl, cl, maxBlindex + 1)
      ensures 4 <= maxBlindex + 1 <= BL_CODES && Coding(cl, Symbols(ll) + Symbols(dl))
      ensures builder.optLen == old(builder.optLen) + |HeaderBits(ll, dl, cl, maxBlindex + 1)|
      ensures builder.staticLen == old(builder.staticLen)
    {
      hide Histogram, Symbols, Freqs, CodesCost, HeaderReady, Codes, Pow2, Carries;
      hide ExtraBlbits, ExtraLbits, ExtraDbits, BlOrder, Complete, Coding, CodesFor, Trimmed, HeaderBits;
      Trees();
      Extras();
      LengthSymbols(ll, dl);
      ghost var syms := Symbols(ll) + Symbols(dl);
      cl := BuildCode(builder, blDesc, Codes(syms));
      CarriesCoding(blDesc.dynTree[..], cl, syms);
      CarriesLens(blDesc.dynTree[..], cl, Codes(syms), 7);
      ghost var used := SomeLengthUsed(ll, dl, cl);
      maxBlindex := LastLength(blDesc.dynTree, cl, used);
      HeaderIsReady(blDesc.dynTree[..], ll, dl, cl, maxBlindex + 1);
      HeaderCost(blDesc.dynTree[..], ll, dl, cl, maxBlindex + 1);
      builder.optLen := builder.optLen + (3 * (maxBlindex + 1) + 5 + 5 + 4);
    }

    /** The codes that a dynamic block needs, and what it costs in bits behind its type. */
    ghost predicate Prepared(ll: seq<nat>, dl: seq<nat>, cl: seq<nat>, ncl: nat)
      reads buf, lDesc, lDesc.dynTree, dDesc, dDesc.dynTree, blDesc.dynTree, builder
    {
      && TreesBuilt(ll, dl, cl, ncl) && 257 <= |ll| && ll[Inflate.END_OF_BLOCK] >= 1
      && Tight(LitCodes(buf.tokens), ll, Inflate.MAX_BITS) && Tight(DistCodes(buf.tokens), dl, Inflate.MAX_BITS)
      && AllEncodable(ll, dl, buf.tokens)
      && AllEncodable(Inflate.FixedLiterals(), Inflate.FixedDistances(), buf.tokens)
      && builder.optLen == |HeaderBits(ll, dl, cl, ncl)| + |BlockBits(ll, dl, buf.tokens)|
      && builder.staticLen == |BlockBits(Inflate.FixedLiterals(), Inflate.FixedDistances(), buf.tokens)|
    }

    /** The first half of flush_block: all trees, and the exact costs of sending with them. */
    method BuildTrees() returns (maxBlindex: nat, ghost ll: seq<nat>, ghost dl: seq<nat>, ghost cl: seq<nat>)
      requires Wired() && tables.Valid() && buf.Stored() && Counted()
      modifies builder, builder.heap, builder.depth, builder.blCount
      modifies lDesc, lDesc.dynTree, dDesc, dDesc.dynTree, blDesc, blDesc.dynTree
      ensures Prepared(ll, dl, cl, maxBlindex + 1)
    {
      hide Histogram, HeaderReady, LengthTable, DistTable, CodesFor, StaticDistances, LitCodes, DistCodes, AllEncodable;
      hide Described, Freqs, BlockCoder.CodesBuilt, CodeTables.Valid, TokenBuffer.Stored, BlockBits, HeaderBits, Pow2;
      ll, dl := BuildLitDist();
      maxBlindex, cl := BuildBlTree(ll, dl);
    }

    /** The lengths of the code length code, in their order. */
    method SendOrder(blcodes: nat, ghost cl: seq<nat>)
      requires out.Valid() && blcodes <= BL_CODES <= blDesc.dynTree.Length && LensOf(blDesc.dynTree[..], BL_CODES) == cl
      requires forall i | 0 <= i < BL_CODES :: cl[i] <= 7
      modifies out, out.outbuf
      ensures out.Valid() && out.Sent() == old(out.Sent()) + OrderBits(cl, blcodes)
    {
      hide BlOrder, BitsOf, Pow2, Inflate.CodeLengthOrder;
      TablesAgree();
      Pow2Values();
      ghost var t := blDesc.dynTree[..];
      for rank := 0 to blcodes
        invariant out.Valid() && out.Sent() == old(out.Sent()) + OrderBits(cl, rank) && blDesc.dynTree[..] == t
      {
        ghost var before := out.Sent();
        var c := BlOrder()[rank];
        assert LensOf(t, BL_CODES)[c] == blDesc.dynTree[c].dl;
        out.SendBits(blDesc.dynTree[c].dl, 3);
        JoinTwo(old(out.Sent()), OrderBits(cl, rank), BitsOf(cl[c], 3));
      }
    }

    /** send_all_trees. */
    method SendAllTrees(lcodes: nat, dcodes: nat, blcodes: nat, ghost ll: seq<nat>, ghost dl: seq<nat>,
                        ghost cl: seq<nat>)
      requires Wired() && out.Valid() && TreesBuilt(ll, dl, cl, blcodes) && 257 <= |ll|
      requires lcodes == |ll| && dcodes == |dl|
      modifies out, out.outbuf
      ensures out.Valid() && HeaderReady(blDesc.dynTree[..], ll, dl, cl, blcodes)
      ensures out.Sent() == old(out.Sent()) + HeaderBits(ll, dl, cl, blcodes)
    {
      hide BitsOf, Pow2, Described, Separate, Carries, Guarded, Symbols, SymsBits, OrderBits, Complete, CodesFor;
      hide Coding, Trimmed;
      ghost var sent := out.Sent();
      HeaderParts(blDesc.dynTree[..], ll, dl, cl, blcodes);
      Pow2Values();
      out.SendBits(lcodes - 257, 5);
      out.SendBits(dcodes - 1, 5);
      out.SendBits(blcodes - 4, 4);
      SendOrder(blcodes, cl);
      SendTree(out, lDesc.dynTree, lcodes - 1, blDesc.dynTree, ll, cl);
      SendTree(out, dDesc.dynTree, dcodes - 1, blDesc.dynTree, dl, cl);
      JoinHeader(sent, BitsOf(lcodes - 257, 5), BitsOf(dcodes - 1, 5), BitsOf(blcodes - 4, 4), OrderBits(cl, blcodes),
                 SymsBits(cl, Symbols(ll)), SymsBits(cl, Symbols(dl)));
    }

    /** A stored block: its data lie in the window. */
    method SendStored(window: array<byte>, start: nat, len: nat, eof: bool) returns (ghost block: seq<bool>)
      requires out.Valid() && window != out.outbuf && start + len <= window.Length && len < 0x1_0000
      modifies out, out.outbuf
      ensures out.Valid() && out.Sent() == old(out.Sent()) + block
      ensures block == BitsOf(EofBit(eof), 3) + StoredBits(|old(out.Sent())| + 3, window[start..start + len])
    {
      hide BitsOf, Pow2, BytesToBits, Padding;
      ghost var sent, data := out.Sent(), window[start..start + len];
      Pow2Values();
      out.SendBits(2 * STORED_BLOCK + EofBit(eof), 3);
      out.CopyBlock(window, start, len, true);
      ghost var pad := BitsOf(0, Padding(|sent| + 3));
      JoinStored(sent, BitsOf(EofBit(eof), 3), pad, BitsOf(len, 16), BitsOf(0xffff - len, 16), BytesToBits(data));
      block := BitsOf(EofBit(eof), 3) + StoredBits(|sent| + 3, data);
    }

    /** A block with the static codes. */
    method SendStatic(eof: bool) returns (ghost block: seq<bool>)
      requires Wired() && out.Valid() && tables.Valid() && buf.Stored() && buf.Saved()
      requires AllEncodable(Inflate.FixedLiterals(), Inflate.FixedDistances(), buf.tokens)
      modifies out, out.outbuf
      ensures out.Valid() && out.Sent() == old(out.Sent()) + block
      ensures block == BitsOf(2 + EofBit(eof), 3)
              + BlockBits(Inflate.FixedLiterals(), Inflate.FixedDistances(), buf.tokens)
    {
      hide BitsOf, Pow2, Described, BlockBits, CodesFor, StaticDistances, LengthTable, DistTable, MatchFlags;
      hide BytesToBits, Dists;
      hide LitByte, ValidToken, Sendable, Encodable, Ready, Inflate.FixedLiterals, Inflate.FixedDistances;
      ghost var sent := out.Sent();
      StaticSends(tables.staticLtree[..], tables.staticDtree[..], buf.tokens);
      Pow2Values();
      out.SendBits(2 * STATIC_TREES + EofBit(eof), 3);
      CompressBlock(out, tables, buf, tables.staticLtree, tables.staticDtree, Inflate.FixedLiterals(),
                    Inflate.FixedDistances());
      block := BitsOf(2 + EofBit(eof), 3) + BlockBits(Inflate.FixedLiterals(), Inflate.FixedDistances(), buf.tokens);
      JoinTwo(sent, BitsOf(2 + EofBit(eof), 3),
              BlockBits(Inflate.FixedLiterals(), Inflate.FixedDistances(), buf.tokens));
    }

    /** A block with its own codes. */
    method SendDynamic(eof: bool, blcodes: nat, ghost ll: seq<nat>, ghost dl: seq<nat>, ghost cl: seq<nat>)
      returns (ghost block: seq<bool>)
      requires Wired() && out.Valid() && tables.Valid() && buf.Stored() && buf.Saved() && Prepared(ll, dl, cl, blcodes)
      modifies out, out.outbuf
      ensures out.Valid() && out.Sent() == old(out.Sent()) + block
      ensures Prepared(ll, dl, cl, blcodes) && HeaderReady(blDesc.dynTree[..], ll, dl, cl, blcodes)
      ensures block == BitsOf(4 + EofBit(eof), 3) + (HeaderBits(ll, dl, cl, blcodes) + BlockBits(ll, dl, buf.tokens))
    {
      hide BitsOf, Pow2, Described, BlockBits, CodesFor, StaticDistances, LengthTable, DistTable, MatchFlags;
      hide BytesToBits, Dists;
      hide LitByte, ValidToken, Sendable, Encodable, Ready, HeaderBits, HeaderReady, Guarded, Carries, LitCodes;
      hide DistCodes;
      hide Coding, Symbols;
      ghost var sent := out.Sent();
      HeaderAllowed(blDesc.dynTree[..], ll, dl, cl, blcodes);
      BuiltSends(lDesc.dynTree[..], dDesc.dynTree[..], ll, dl, buf.tokens);
      Pow2Values();
      out.SendBits(2 * DYN_TREES + EofBit(eof), 3);
      SendAllTrees(lDesc.maxCode + 1, dDesc.maxCode + 1, blcodes, ll, dl, cl);
      CompressBlock(out, tables, buf, lDesc.dynTree, dDesc.dynTree, ll, dl);
      block := BitsOf(4 + EofBit(eof), 3) + (HeaderBits(ll, dl, cl, blcodes) + BlockBits(ll, dl, buf.tokens));
      JoinThree(sent, BitsOf(4 + EofBit(eof), 3), HeaderBits(ll, dl, cl, blcodes), BlockBits(ll, dl, buf.tokens));
    }

    /** The data of the block lie in the window, or are too many to be stored. */
    ghost predicate InWindow(window: seq<byte>, blockStart: int, storedLen: nat)
      reads this, buf
    {
      && |Data()| == |done| + storedLen
      && (if blockStart >= 0 then
            blockStart + storedLen <= |window| && window[blockStart..blockStart + storedLen] == Data()[|done|..]
          else storedLen > MAX_STORED)
    }

    /** The second half of flush_block: sends the block in the cheapest form. */
    method SendBlock(window: array<byte>, blockStart: int, storedLen: nat, eof: bool, maxBlindex: nat,
                     ghost ll: seq<nat>, ghost dl: seq<nat>, ghost cl: seq<nat>)
      returns (ghost block: seq<bool>, ghost form: Form)
      requires Wired() && out.Valid() && tables.Valid() && buf.Stored() && buf.Saved()
      requires Prepared(ll, dl, cl, maxBlindex + 1)
      requires Reachable(buf.tokens, done) && InWindow(window[..], blockStart, storedLen) && window != out.outbuf
      modifies out, out.outbuf
      ensures out.Valid() && out.Sent() == old(out.Sent()) + block
      ensures BlockCarries(old(out.Sent()), block, eof, done, Data())
      ensures builder.optLen >= 0 && builder.staticLen >= 0
      ensures Choice(form, |block|, |old(out.Sent())|, storedLen, builder.optLen, builder.staticLen)
    {
      hide BitsOf, Pow2, Described, Separate, BlockBits, CodesFor, StaticDistances, LengthTable, DistTable, MatchFlags;
      hide BytesToBits;
      hide Dists, LitByte, ValidToken, Encodable, HeaderBits, HeaderReady, Guarded, Carries, LitCodes, DistCodes;
      hide Coding, Symbols;
      hide Inflate.FixedLiterals, Inflate.FixedDistances, BlockCarries, Reachable, Expand, Trimmed, Complete, Padding;
      hide BlockCoder.Prepared, ShortestBody, Uncut, BlockCoder.Holds;
      ghost var sent := out.Sent();
      StaticBound(buf.tokens);
      PreparedCosts(BlockCodes(ll, dl, cl, maxBlindex + 1));
      var optLenb := (builder.optLen + 3 + 7) / 8;
      var staticLenb := (builder.staticLen + 3 + 7) / 8;
      if staticLenb <= optLenb { optLenb := staticLenb; }
      if storedLen + 4 <= optLenb && blockStart >= 0 {
        form := Stored;
        block := SendStored(window, blockStart, storedLen, eof);
        ghost var data := window[blockStart..blockStart + storedLen];
        StoredCarries(sent, eof, done, data);
        DataEnd(done, Data(), data);
        assert window[..][blockStart..blockStart + storedLen] == data;
      } else if staticLenb == optLenb {
        form := Static;
        block := SendStatic(eof);
        FixedLiteralsComplete();
        FixedDistancesComplete();
        StaticCarries(sent, eof, done, buf.tokens);
      } else {
        form := Dynamic;
        block := SendDynamic(eof, maxBlindex + 1, ll, dl, cl);
        DynamicCarries(sent, eof, done, buf.tokens, ll, dl, cl, maxBlindex + 1);
      }
    }

    /** The trees hold the lengths of the codes. */
    ghost predicate Holds(c: BlockCodes)
      reads lDesc.dynTree, dDesc.dynTree, blDesc.dynTree
    {
      var t := TreeLens();
      c.ll <= t.0 && c.dl <= t.1 && c.cl <= t.2
    }

    /** The lengths in the three trees. */
    ghost function TreeLens(): (seq<nat>, seq<nat>, seq<nat>)
      reads lDesc.dynTree, dDesc.dynTree, blDesc.dynTree
    {
      (AllLens(lDesc.dynTree[..]), AllLens(dDesc.dynTree[..]), AllLens(blDesc.dynTree[..]))
    }

    lemma PreparedCosts(c: BlockCodes)
      requires Prepared(c.ll, c.dl, c.cl, c.ncl)
      ensures builder.optLen >= 0 && builder.staticLen >= 0
      ensures Costs(buf.tokens, c, builder.optLen, builder.staticLen)
      ensures Holds(c)
    {
      hide Complete, Coding, Carries, AllEncodable, HeaderBits, BlockBits, HeaderReady, Trimmed, Guarded, LensOf;
      hide AllLens, LitCodes, DistCodes;
      hide Uncut, ShortestBody, Shortest;
      CodesComplete(c.ll, c.dl);
      HeaderAllowed(blDesc.dynTree[..], c.ll, c.dl, c.cl, c.ncl);
      HeaderParts(blDesc.dynTree[..], c.ll, c.dl, c.cl, c.ncl);
      CarriesLens(lDesc.dynTree[..], c.ll, LitCodes(buf.tokens), Inflate.MAX_BITS);
      CarriesLens(dDesc.dynTree[..], c.dl, DistCodes(buf.tokens), Inflate.MAX_BITS);
      LensFirst(lDesc.dynTree[..], c.ll);
      LensFirst(dDesc.dynTree[..], c.dl);
      LensFirst(blDesc.dynTree[..], c.cl);
      if Uncut(c.ll, Inflate.MAX_BITS) && Uncut(c.dl, Inflate.MAX_BITS) { ShortestBoth(c.ll, c.dl, buf.tokens); }
    }

    /** All that is ready before a form is chosen. */
    ghost predicate Built(c: BlockCodes, opt: nat, fixed: nat)
      reads this, out, out.outbuf, buf, buf.lBuf, buf.dBuf, buf.flagBuf, builder
      reads tables.lengthCode, tables.distCode, tables.baseLength, tables.baseDist, tables.staticLtree
      reads tables.staticDtree
      reads lDesc, lDesc.dynTree, dDesc, dDesc.dynTree, blDesc.dynTree
    {
      && Wired() && out.Valid() && tables.Valid() && buf.Stored() && buf.Saved() && Reachable(buf.tokens, done)
      && Prepared(c.ll, c.dl, c.cl, c.ncl) && opt == builder.optLen && fixed == builder.staticLen
    }

    /** The codes of the block, and what it costs in bits with them and with the static ones. */
    method Prepare() returns (maxBlindex: nat, ghost c: BlockCodes, ghost opt: nat, ghost fixed: nat)
      requires Valid()
      modifies buf.flagBuf, builder, builder.heap, builder.depth, builder.blCount
      modifies lDesc, lDesc.dynTree, dDesc, dDesc.dynTree, blDesc, blDesc.dynTree
      ensures Built(c, opt, fixed) && c.ncl == maxBlindex + 1 && Costs(buf.tokens, c, opt, fixed) && Holds(c)
      ensures out.Sent() == old(out.Sent())
    {
      hide BitsOf, Pow2, Costs, BlockCoder.Holds, Described, CodeTables.Valid, TokenBuffer.Stored, TokenBuffer.Saved;
      hide BytesToBits;
      hide BlockCoder.Counted, FlagsAre, Expand, Reachable, BlockCoder.Prepared;
      buf.SaveFlags();
      ghost var ll, dl, cl;
      maxBlindex, ll, dl, cl := BuildTrees();
      c := BlockCodes(ll, dl, cl, maxBlindex + 1);
      PreparedCosts(c);
      opt, fixed := builder.optLen, builder.staticLen;
    }

    /** flush_block up to the end of the block: c are the codes that were built for it, and opt and fixed what it
        costs with them and with the static ones, to the bit. */
    method SendTallied(window: array<byte>, blockStart: int, storedLen: nat, eof: bool)
      returns (ghost block: seq<bool>, ghost form: Form, ghost c: BlockCodes, ghost opt: nat, ghost fixed: nat)
      requires Valid() && InWindow(window[..], blockStart, storedLen)
      requires window != out.outbuf && window != builder.depth && window != buf.flagBuf
      modifies out, out.outbuf, buf.flagBuf, builder, builder.heap, builder.depth, builder.blCount
      modifies lDesc, lDesc.dynTree, dDesc, dDesc.dynTree, blDesc, blDesc.dynTree
      ensures out.Valid() && tables.Valid() && out.Sent() == old(out.Sent()) + block
      ensures BlockCarries(old(out.Sent()), block, eof, done, Data())
      ensures Choice(form, |block|, |old(out.Sent())|, storedLen, opt, fixed)
      ensures Costs(old(buf.tokens), c, opt, fixed) && Holds(c)
    {
      hide BitsOf, Pow2, Costs, BlockCoder.Holds, Described, CodeTables.Valid, TokenBuffer.Stored, TokenBuffer.Saved;
      hide BytesToBits;
      hide BlockCoder.Counted, FlagsAre, Expand, Reachable, BlockCoder.Prepared, BlockCarries, Choice, Padding;
      ghost var w := window[..];
      var maxBlindex;
      maxBlindex, c, opt, fixed := Prepare();
      assert window[..] == w;
      block, form := SendBlock(window, blockStart, storedLen, eof, maxBlindex, c.ll, c.dl, c.cl);
    }

    /** flush_block up to the start of the next block. */
    method SendAndStart(window: array<byte>, blockStart: int, storedLen: nat, eof: bool)
      returns (ghost block: seq<bool>, ghost form: Form, ghost c: BlockCodes, ghost opt: nat, ghost fixed: nat)
      requires Valid() && InWindow(window[..], blockStart, storedLen)
      requires window != out.outbuf && window != builder.depth && window != buf.flagBuf
      modifies this, out, out.outbuf, buf, buf.flagBuf, builder, builder.heap, builder.depth, builder.blCount
      modifies lDesc, lDesc.dynTree, dDesc, dDesc.dynTree, blDesc, blDesc.dynTree
      ensures Valid() && out.Valid() && out.Sent() == old(out.Sent()) + block && done == old(Data()) && buf.tokens == []
      ensures BlockCarries(old(out.Sent()), block, eof, old(done), done)
      ensures Choice(form, |block|, |old(out.Sent())|, storedLen, opt, fixed)
      ensures Costs(old(buf.tokens), c, opt, fixed) && Holds(c)
    {
      hide BitsOf, Costs, BlockCoder.TreeLens, Described, CodeTables.Valid, TokenBuffer.Valid, BytesToBits;
      hide BlockCoder.Counted, Pow2;
      hide Expand, BlockCarries, BlockCoder.InWindow, Choice, Reachable;
      ghost var after := Data();
      block, form, c, opt, fixed := SendTallied(window, blockStart, storedLen, eof);
      done := after;
      InitBlock();
      NoTokens(after);
    }

    /** flush_block: sends the tokens, and starts the next block. What the decoder makes of the bits
        sent so far grows by exactly the data of the block. The codes c that were built for it, which the trees
        still hold, would take opt bits, the static ones fixed bits, and the cheapest form is the one that is sent. */
    method FlushBlock(window: array<byte>, blockStart: int, storedLen: nat, eof: bool)
      returns (ghost block: seq<bool>, ghost form: Form, ghost c: BlockCodes, ghost opt: nat, ghost fixed: nat,
               ghost end: nat)
      requires Valid() && Decoding(out.Sent(), done) && InWindow(window[..], blockStart, storedLen)
      requires window != out.outbuf && window != builder.depth && window != buf.flagBuf
      modifies this, out, out.outbuf, buf, buf.flagBuf, builder, builder.heap, builder.depth, builder.blCount
      modifies lDesc, lDesc.dynTree, dDesc, dDesc.dynTree, blDesc, blDesc.dynTree
      ensures Valid() && out.Valid() && done == old(Data()) && buf.tokens == []
      ensures !eof ==> Decoding(out.Sent(), done) && out.Sent() == old(out.Sent()) + block
      ensures eof ==> Decoded(out.Sent(), done, end) && out.biValid == 0 && out.Sent() == BytesToBits(out.Bytes())
      ensures Choice(form, |block|, |old(out.Sent())|, storedLen, opt, fixed)
      ensures Costs(old(buf.tokens), c, opt, fixed) && Holds(c)
    {
      hide BitsOf, Costs, BlockCoder.TreeLens, Described, CodeTables.Valid, TokenBuffer.Valid, BytesToBits;
      hide BlockCoder.Counted, Pow2;
      hide Expand, Decoding, Decoded, BlockCarries, BlockCoder.InWindow, Padding, Choice, Reachable;
      ghost var sent, before := out.Sent(), done;
      block, form, c, opt, fixed := SendAndStart(window, blockStart, storedLen, eof);
      end := |sent + block|;
      EndBlock(out, eof, sent, block, before, done);
    }

    lemma CodesComplete(ll: seq<nat>, dl: seq<nat>)
      requires CodesBuilt(ll, dl)
      ensures Complete(ll, Inflate.MAX_BITS) && Complete(dl, Inflate.MAX_BITS)
      ensures Inflate.END_OF_BLOCK < |ll|
    {
      hide Complete, CodesFor, DistCodes;
      EndListed(buf.tokens);
    }

    lemma Extras()
      requires Described()
      ensures lDesc.Extra() == LitExtra() && dDesc.Extra() == ExtraDbits() && blDesc.Extra() == ExtraBlbits()
    {
      hide ExtraLbits, ExtraDbits, ExtraBlbits, Pow2;
    }

    lemma Trees()
      requires Wired()
      ensures lDesc.dynTree.Length == 2 * LIT_CODES + 1 && dDesc.dynTree.Length == 2 * D_CODES + 1
      ensures blDesc.dynTree.Length == 2 * BL_CODES + 1
      ensures tables.staticLtree.Length == 288 && tables.staticDtree.Length == D_CODES
    {
    }
  }

  method ClearFreqs(tree: array<CtData>, n: nat)
    requires n <= tree.Length
    modifies tree
    ensures Freqs(tree[..], n) == Histogram([], n) && AllLens(tree[..]) == old(AllLens(tree[..]))
  {
    for k := 0 to n
      invariant AllLens(tree[..]) == old(AllLens(tree[..]))
      invariant forall i | 0 <= i < k :: tree[i].fc == 0
    {
      tree[k] := tree[k].(fc := 0);
    }
  }

  /** The end-of-block code is in every block. */
  method CountEnd(tree: array<CtData>)
    requires LIT_CODES <= tree.Length && Freqs(tree[..], LIT_CODES) == Histogram([], LIT_CODES)
    modifies tree
    ensures Freqs(tree[..], LIT_CODES) == Histogram(LitCodes([]), LIT_CODES)
    ensures AllLens(tree[..]) == old(AllLens(tree[..]))
    ensures DistCodes([]) == []
  {
    hide Freqs, Histogram, LitCodes;
    ghost var t := tree[..];
    tree[Inflate.END_OF_BLOCK] := tree[Inflate.END_OF_BLOCK].(fc := 1);
    EndCounted(t, tree[..]);
  }

  lemma EndCounted(t: seq<CtData>, t': seq<CtData>)
    requires LIT_CODES <= |t| && Freqs(t, LIT_CODES) == Histogram([], LIT_CODES)
    requires t' == t[Inflate.END_OF_BLOCK := t[Inflate.END_OF_BLOCK].(fc := 1)]
    ensures Freqs(t', LIT_CODES) == Histogram(LitCodes([]), LIT_CODES)
    ensures DistCodes([]) == []
  {
    hide LitSymbol;
    var e := Inflate.END_OF_BLOCK;
    assert LitCodes([]) == [] + [e];
    HistogramPush([], e, LIT_CODES);
    assert Freqs(t', LIT_CODES) == Freqs(t, LIT_CODES)[e := 1];
  }

  /** The number of code length codes to send, less one. */
  method LastLength(blTree: array<CtData>, ghost cl: seq<nat>, ghost used: nat) returns (maxBlindex: nat)
    requires BL_CODES <= blTree.Length && LensOf(blTree[..], BL_CODES) == cl
    requires 3 <= used < BL_CODES && cl[Inflate.CodeLengthOrder(used)] >= 1
    requires forall i | 0 <= i < BL_CODES :: cl[i] <= 7
    ensures 3 <= maxBlindex < BL_CODES && Trimmed(cl, maxBlindex + 1)
  {
    hide BlOrder, Inflate.CodeLengthOrder;
    TablesAgree();
    var m: int := BL_CODES - 1;
    while m >= 3
      invariant 2 <= m < BL_CODES && used <= m && forall i | m < i < BL_CODES :: cl[Inflate.CodeLengthOrder(i)] == 0
    {
      assert LensOf(blTree[..], BL_CODES)[BlOrder()[m]] == blTree[BlOrder()[m]].dl;
      if blTree[BlOrder()[m]].dl != 0 { break; }
      m := m - 1;
    }
    maxBlindex := m;
  }

  lemma HeaderIsReady(bt: seq<CtData>, ll: seq<nat>, dl: seq<nat>, cl: seq<nat>, ncl: nat)
    requires Complete(cl, 7) && CodesFor(bt, cl) && Coding(cl, Symbols(ll) + Symbols(dl)) && BL_CODES <= |bt|
    requires 4 <= ncl <= BL_CODES && Trimmed(cl, ncl)
    ensures HeaderReady(bt, ll, dl, cl, ncl)
  {
    hide Complete, CodesFor, Coding, Trimmed;
  }

  lemma HeaderAllowed(bt: seq<CtData>, ll: seq<nat>, dl: seq<nat>, cl: seq<nat>, ncl: nat)
    requires HeaderReady(bt, ll, dl, cl, ncl)
    ensures 4 <= ncl <= BL_CODES && Coding(cl, Symbols(ll) + Symbols(dl)) && Complete(cl, 7) && Trimmed(cl, ncl)
  {
    hide Coding, KraftSum, Coded, Symbols, Pow2;
  }

  lemma HeaderParts(bt: seq<CtData>, ll: seq<nat>, dl: seq<nat>, cl: seq<nat>, ncl: nat)
    requires HeaderReady(bt, ll, dl, cl, ncl)
    ensures |cl| == BL_CODES && LensOf(bt, BL_CODES) == cl && forall i | 0 <= i < BL_CODES :: cl[i] <= 7
    ensures Coding(cl, Symbols(ll)) && Coding(cl, Symbols(dl)) && Complete(cl, 7) && CodesFor(bt, cl)
    ensures SymsBits(cl, Symbols(ll) + Symbols(dl)) == SymsBits(cl, Symbols(ll)) + SymsBits(cl, Symbols(dl))
  {
    hide Coding, KraftSum, Coded, Symbols, SymsBits, Pow2;
    CodingSplit(cl, Symbols(ll), Symbols(dl));
    SymsBitsConcat(cl, Symbols(ll), Symbols(dl));
  }

  lemma JoinHeader(s: seq<bool>, a: seq<bool>, b: seq<bool>, c: seq<bool>, d: seq<bool>, e: seq<bool>, f: seq<bool>)
    ensures s + a + b + c + d + e + f == s + (a + (b + (c + (d + (e + f)))))
  {
    JoinFour(s + a + b, c, d, e, f);
    JoinTwo(s, a, b);
    var x := c + (d + (e + f));
    JoinTwo(s, a + b, x);
    JoinTwo(a, b, x);
  }

  lemma JoinThree(s: seq<bool>, a: seq<bool>, b: seq<bool>, c: seq<bool>)
    ensures s + a + b + c == s + (a + (b + c))
  {
  }

  lemma JoinStored(s: seq<bool>, a: seq<bool>, b: seq<bool>, c: seq<bool>, d: seq<bool>, e: seq<bool>)
    ensures s + a + b + (c + d) + e == s + (a + (b + (c + (d + e))))
  {
    JoinThree(s + a, b, c + d, e);
    JoinTwo(c, d, e);
    JoinTwo(s, a, b + (c + (d + e)));
  }

  lemma DataEnd(before: seq<byte>, after: seq<byte>, data: seq<byte>)
    requires before <= after && after[|before|..] == data
    ensures before + data == after
  {
  }

  /** The end of flush_block: the last block is followed by a whole byte. */
  method EndBlock(out: BitWriter, eof: bool, ghost sent: seq<bool>, ghost block: seq<bool>, ghost before: seq<byte>,
                  ghost after: seq<byte>)
    requires out.Valid() && out.Sent() == sent + block
    requires Decoding(sent, before) && BlockCarries(sent, block, eof, before, after)
    modifies out, out.outbuf
    ensures out.Valid()
    ensures !eof ==> Decoding(out.Sent(), after) && out.Sent() == sent + block
    ensures eof ==> Decoded(out.Sent(), after, |sent + block|) && out.biValid == 0
                    && out.Sent() == BytesToBits(out.Bytes())
  {
    hide BitsOf, Pow2, BytesToBits, Decoding, Decoded, BlockCarries, Padding;
    if eof {
      out.BiWindup();
      DecodingEnd(sent, block, before, after, BitsOf(0, Padding(|sent + block|)));
    } else {
      DecodingStep(sent, block, before, after);
    }
  }

  lemma NoTokens(data: seq<byte>)
    ensures Reachable([], data) && Expand([], data) == data
  {
  }
}
