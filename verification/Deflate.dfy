/** deflate: lazy parsing of the input into literals and matches, over a window that slides. */
module Deflate {
  import opened Bits
  import opened BitOutput
  import opened Chains
  import opened Tokens
  import opened TokenStore
  import opened Block
  import opened BlockDecode
  import opened Window
  import Inflate

  /** The bytes from offset p are those d before, len times. */
  ghost predicate Repeats(input: seq<byte>, p: nat, d: nat, len: nat)
  {
    1 <= d <= p && p + len <= |input| && Same(input, p - d, p, len)
  }

  /** The byte before position s of the window begins a match. */
  ghost predicate MatchBefore(input: seq<byte>, base: nat, s: nat, start: ulg, len: nat)
  {
    1 <= s && U32(s - 1 - start) <= MAX_DIST && Repeats(input, base + s - 1, U32(s - 1 - start), len)
  }

  lemma FoundRepeats(input: seq<byte>, o: nat, p: nat, len: nat)
    requires o < p && p + len <= |input| && Same(input, o, p, len)
    ensures Repeats(input, p, p - o, len)
  {
  }

  lemma MatchRepeats(input: seq<byte>, base: nat, s: nat, m: nat, len: nat)
    requires m < s <= m + MAX_DIST && base + s + len <= |input| && Same(input, base + m, base + s, len)
    ensures 1 <= U32(s - m) <= MAX_DIST && Repeats(input, base + s, U32(s - m), len)
  {
    hide Same;
    FoundRepeats(input, base + m, base + s, len);
    assert base + s - (base + m) == s - m == U32(s - m);
  }

  lemma RepeatsGrow(input: seq<byte>, input': seq<byte>, p: nat, d: nat, len: nat)
    requires Repeats(input, p, d, len) && input <= input'
    ensures Repeats(input', p, d, len)
  {
    var o := p - d;
    forall i: nat | i < len
      ensures SameByte(input', o, p, i)
    {
      assert SameByte(input, o, p, i);
    }
  }

  lemma RepeatsBounds(input: seq<byte>, p: nat, d: nat, len: nat)
    requires Repeats(input, p, d, len)
    ensures 1 <= d <= p && p + len <= |input|
  {
  }

  /** Copying a match one byte at a time gives the input that it stands for, also when it overlaps itself. */
  lemma {:induction false} CopyIsInput(input: seq<byte>, p: nat, d: nat, len: nat)
    requires Repeats(input, p, d, len)
    ensures Inflate.CopyMatch(input[..p], len, d) == input[..p + len]
    decreases len
  {
    if len != 0 {
      assert SameByte(input, p - d, p, 0);
      assert input[..p] + [input[p - d]] == input[..p + 1];
      var o, q := p + 1 - d, p + 1;
      forall i: nat | i < len - 1
        ensures SameByte(input, o, q, i)
      {
        assert SameByte(input, p - d, p, i + 1);
      }
      CopyIsInput(input, p + 1, d, len - 1);
    }
  }

  lemma LiteralIsInput(input: seq<byte>, p: nat)
    requires p < |input|
    ensures input[..p] + [input[p]] == input[..p + 1]
  {
  }

  lemma U32Less(a: int, b: int)
    ensures U32(a - 1 - b) == U32(U32(a - b) - 1)
  {
    U32Difference(-1, b - a);
    var x := a - b;
    assert U32(x) - 1 == x - 1 + (-(x / 0x1_0000_0000)) * 0x1_0000_0000;
    U32Period(x - 1, -(x / 0x1_0000_0000));
  }

  /** One more token; or it was that and the block has ended. */
  ghost predicate Emitted(before: seq<Token>, after: seq<Token>, t: Token)
  {
    after == before + [t] || after == []
  }

  /** What a round outputs: the match before, of len bytes and at distance d; the byte before, at offset o; or nothing
      yet. */
  ghost predicate Output(before: seq<Token>, after: seq<Token>, available0: bool, available: bool, len: nat, d: nat,
                         input: seq<byte>, o: int)
  {
    if !available then Emitted(before, after, Match(len, d))
    else if available0 then 0 <= o < |input| && Emitted(before, after, Literal(input[o]))
    else after == before
  }

  class Deflater {
    const win: SlidingWindow
    const coder: BlockCoder

    /** The window and the hash table are not among the buffers of the coder. */
    ghost predicate Apart()
    {
      && win.window != coder.out.outbuf && win.window != coder.builder.depth && win.window != coder.buf.lBuf
      && win.window != coder.buf.flagBuf && win.window != coder.tables.lengthCode && win.window != coder.tables.distCode
      && win.prev != coder.builder.heap && win.prev != coder.buf.dBuf
      && win.head != coder.builder.heap && win.head != coder.buf.dBuf
    }

    /** The tokens stand for the first n bytes of the input, the sent blocks for those before the start of the
        block, and these are what the decoder has. */
    ghost predicate Synced(n: nat)
      reads win`input, win`base, win`strstart, win`blockStart, coder, coder.out, coder.out.outbuf, coder.buf
    {
      && coder.out.outbuf.Length == OUTBUFSIZ >= coder.out.outcnt
      && n <= |win.input| && coder.Data() == win.input[..n]
      && |coder.done| == win.base + win.blockStart && Decoding(coder.out.Sent(), coder.done)
      && (win.base > 0 ==> win.strstart >= MAX_DIST)
    }

    ghost predicate Valid(n: nat, k: nat)
      reads win`crc, win`isize, win`eofile, win`input, win`base, win`end, win`strstart, win`blockStart, win.source
      reads win.window, win.crcTable
      reads win`insH, win`lookahead, win.prev, win.head
      reads coder, coder.out, coder.out.outbuf, coder.buf, coder.buf.lBuf, coder.buf.dBuf, coder.buf.flagBuf
      reads coder.builder
      reads coder.tables.lengthCode, coder.tables.distCode, coder.tables.baseLength, coder.tables.baseDist
      reads coder.tables.staticLtree, coder.tables.staticDtree
      reads coder.lDesc.dynTree, coder.dDesc.dynTree, coder.blDesc.dynTree
    {
      Apart() && win.Content() && win.Ready(k) && coder.Valid() && Synced(n)
    }

    constructor (win: SlidingWindow, coder: BlockCoder)
      ensures this.win == win && this.coder == coder
    {
      this.win, this.coder := win, coder;
    }

    /** FLUSH_BLOCK: the block covers the input from blockStart to strstart. */
    method Flush(eof: bool, ghost k: nat) returns (ghost end: nat)
      requires Valid(win.base + win.strstart, k)
      modifies coder, coder.out, coder.out.outbuf, coder.buf, coder.buf.flagBuf
      modifies coder.builder, coder.builder.heap, coder.builder.depth, coder.builder.blCount
      modifies coder.lDesc, coder.lDesc.dynTree, coder.dDesc, coder.dDesc.dynTree, coder.blDesc, coder.blDesc.dynTree
      ensures coder.Valid() && coder.out.Valid() && win.Content() && win.Ready(k) && coder.buf.tokens == []
      ensures coder.done == coder.Data() == old(coder.Data())
      ensures !eof ==> Decoding(coder.out.Sent(), coder.done)
      ensures eof ==> Decoded(coder.out.Sent(), coder.done, end) && coder.out.biValid == 0
                      && coder.out.Sent() == BytesToBits(coder.out.Bytes())
    {
      hide BlockCoder.Valid, Decoding, Decoded, BytesToBits, BitsOf, Expand, Costs, BlockCoder.Holds, Choice;
      hide BlockCoder.InWindow;
      BlockThere(k);
      ghost var block, form, c, opt, fixed;
      var len := win.strstart - win.blockStart;
      block, form, c, opt, fixed, end := coder.FlushBlock(win.window, win.blockStart, len, eof);
      NoTokens(coder.done);
    }

    /** Tallies the byte before strstart. */
    method TallyLiteral(ghost k: nat) returns (flush: bool)
      requires 1 <= win.strstart && win.base + win.strstart <= |win.input| && Valid(win.base + win.strstart - 1, k)
      requires |coder.buf.tokens| + 1 < LIT_BUFSIZE
      modifies coder.buf, coder.buf.lBuf, coder.buf.dBuf, coder.buf.flagBuf, coder.lDesc.dynTree, coder.dDesc.dynTree
      ensures Valid(win.base + win.strstart, k)
      ensures coder.buf.tokens == old(coder.buf.tokens) + [Literal(win.input[win.base + win.strstart - 1])]
      ensures |coder.buf.tokens| == LIT_BUFSIZE - 1 ==> flush
    {
      hide BlockCoder.Valid, Decoding, Decoded, BytesToBits, BitsOf, Expand, SlidingWindow.Content, SlidingWindow.Ready;
      ContentBounds();
      DataLonger();
      WindowAt(win.window[..], win.end, win.input, win.base, win.strstart - 1);
      LiteralIsInput(win.input, win.base + win.strstart - 1);
      flush := coder.Tally(0, win.window[win.strstart - 1], win.strstart - win.blockStart);
    }

    /** Tallies a match at the byte before strstart. */
    method TallyMatch(prevMatch: ulg, len: nat, ghost d: nat) returns (flush: bool)
      requires 1 <= win.base + win.strstart <= |win.input| && Valid(win.base + win.strstart - 1, 1)
      requires |coder.buf.tokens| + 1 < LIT_BUFSIZE && MIN_MATCH <= len <= MAX_MATCH
      requires d == U32(win.strstart - 1 - prevMatch) <= MAX_DIST
      requires Repeats(win.input, win.base + win.strstart - 1, d, len)
      modifies coder.buf, coder.buf.lBuf, coder.buf.dBuf, coder.buf.flagBuf, coder.lDesc.dynTree, coder.dDesc.dynTree
      ensures Valid(win.base + win.strstart - 1 + len, 1) && coder.buf.tokens == old(coder.buf.tokens) + [Match(len, d)]
      ensures |coder.buf.tokens| == LIT_BUFSIZE - 1 ==> flush
    {
      hide BlockCoder.Valid, Decoding, BytesToBits, BitsOf, Expand, SlidingWindow.Content, SlidingWindow.Ready, Repeats;
      hide Inflate.CopyMatch;
      ContentBounds();
      DataLonger();
      RepeatsBounds(win.input, win.base + win.strstart - 1, d, len);
      CopyIsInput(win.input, win.base + win.strstart - 1, d, len);
      flush := coder.Tally(U32(win.strstart - 1 - prevMatch), len - MIN_MATCH, win.strstart - win.blockStart);
    }

    /** The match found at the previous position. */
    ghost predicate Pending(len: nat)
      reads win`strstart, win`matchStart, win`input, win`base
    {
      Before(win.matchStart, len)
    }

    /** The byte before strstart begins a match. */
    ghost predicate Before(start: ulg, len: nat)
      reads win`strstart, win`input, win`base
    {
      MatchBefore(win.input, win.base, win.strstart, start, len)
    }

    /** Moves the window on to the end of the match; the tokens are not touched. */
    method Skip()
      requires MIN_MATCH <= win.prevLength && 1 <= win.base + win.strstart
      requires Valid(win.base + win.strstart - 1 + win.prevLength, 1)
      modifies win`strstart, win`lookahead, win`prevLength, win`insH, win.prev, win.head
      ensures Valid(win.base + win.strstart, 0) && win.strstart == old(win.strstart + win.prevLength) - 1
      ensures win.lookahead == old(win.lookahead - win.prevLength) + 1
    {
      hide BlockCoder.Valid, Decoding, Expand, SlidingWindow.Content, SlidingWindow.Inserted, SlidingWindow.HashReady;
      MatchInside(win.prevLength);
      win.SkipMatch();
    }

    /** Outputs the match at the previous position, of length win.prevLength. */
    method UseMatch(prevMatch: ulg)
      requires 1 <= win.base + win.strstart <= |win.input| && Valid(win.base + win.strstart - 1, 1)
      requires |coder.buf.tokens| + 1 < LIT_BUFSIZE && MIN_MATCH <= win.prevLength <= MAX_MATCH
      requires Before(prevMatch, win.prevLength)
      modifies win`strstart, win`lookahead, win`prevLength, win`insH, win`blockStart, win.prev, win.head
      modifies coder, coder.out, coder.out.outbuf, coder.buf, coder.buf.lBuf, coder.buf.dBuf, coder.buf.flagBuf
      modifies coder.builder, coder.builder.heap, coder.builder.depth, coder.builder.blCount
      modifies coder.lDesc, coder.lDesc.dynTree, coder.dDesc, coder.dDesc.dynTree, coder.blDesc, coder.blDesc.dynTree
      ensures Valid(win.base + win.strstart, 0) && |coder.buf.tokens| + 1 < LIT_BUFSIZE
      ensures win.strstart == old(win.strstart + win.prevLength) - 1
      ensures win.lookahead == old(win.lookahead - win.prevLength) + 1
      ensures var d := U32(old(win.strstart) - 1 - prevMatch);
              Emitted(old(coder.buf.tokens), coder.buf.tokens, Match(old(win.prevLength), d))
    {
      hide Deflater.Valid, Expand, U32, Repeats;
      var flush := TallyMatch(prevMatch, win.prevLength, U32(win.strstart - 1 - prevMatch));
      Skip();
      if flush { FlushHere(0); }
    }

    /** FLUSH_BLOCK(0), after which the next block starts at strstart. */
    method FlushHere(ghost k: nat)
      requires Valid(win.base + win.strstart, k)
      modifies win`blockStart
      modifies coder, coder.out, coder.out.outbuf, coder.buf, coder.buf.flagBuf
      modifies coder.builder, coder.builder.heap, coder.builder.depth, coder.builder.blCount
      modifies coder.lDesc, coder.lDesc.dynTree, coder.dDesc, coder.dDesc.dynTree, coder.blDesc, coder.blDesc.dynTree
      ensures Valid(win.base + win.strstart, k) && coder.buf.tokens == []
    {
      hide BlockCoder.Valid, Decoding, Decoded, BytesToBits, BitsOf, Expand, SlidingWindow.Content, SlidingWindow.Ready;
      ghost var end := Flush(false, k);
      win.blockStart := win.strstart;
    }

    /** The byte before strstart turns out to be a literal. */
    method UseLiteral()
      requires 1 <= win.strstart && 1 <= win.lookahead && Valid(win.base + win.strstart - 1, 1)
      requires win.base + win.strstart <= |win.input| && |coder.buf.tokens| + 1 < LIT_BUFSIZE
      modifies win`strstart, win`lookahead, win`blockStart
      modifies coder, coder.out, coder.out.outbuf, coder.buf, coder.buf.lBuf, coder.buf.dBuf, coder.buf.flagBuf
      modifies coder.builder, coder.builder.heap, coder.builder.depth, coder.builder.blCount
      modifies coder.lDesc, coder.lDesc.dynTree, coder.dDesc, coder.dDesc.dynTree, coder.blDesc, coder.blDesc.dynTree
      ensures win.strstart == old(win.strstart) + 1 && win.lookahead == old(win.lookahead) - 1
      ensures Valid(win.base + win.strstart - 1, 0) && |coder.buf.tokens| + 1 < LIT_BUFSIZE
      ensures Emitted(old(coder.buf.tokens), coder.buf.tokens, Literal(win.input[win.base + old(win.strstart) - 1]))
    {
      hide Deflater.Valid, Expand;
      var flush := TallyLiteral(1);
      if flush { FlushHere(1); }
      Advance();
    }

    /** Moves on by one byte. */
    method Advance()
      requires Valid(win.base + win.strstart, 1) && win.lookahead >= 1
      modifies win`strstart, win`lookahead
      ensures win.strstart == old(win.strstart) + 1 && win.lookahead == old(win.lookahead) - 1
      ensures Valid(win.base + win.strstart - 1, 0)
    {
      hide BlockCoder.Valid, Decoding, Expand, SlidingWindow.Content, SlidingWindow.Inserted, SlidingWindow.HashReady;
      win.strstart := win.strstart + 1;
      win.lookahead := win.lookahead - 1;
    }

    /** Refills the window; what is pending stays so. */
    method Fill(matchLength: nat, ghost n: nat)
      requires Valid(n, 0)
      requires 1 <= win.strstart && (win.eofile || win.lookahead >= 2)
      requires (matchLength >= MIN_MATCH ==> Pending(matchLength))
      modifies win, win.source, win.window, win.prev, win.head
      ensures Valid(n, 0)
      ensures win.base + win.strstart == old(win.base + win.strstart) && old(win.input) <= win.input
      ensures 1 <= win.strstart && (win.eofile || win.lookahead >= MIN_LOOKAHEAD)
      ensures matchLength >= MIN_MATCH ==> Pending(matchLength)
    {
      hide BlockCoder.Valid, Decoding, Expand, SlidingWindow.Content, SlidingWindow.Inserted, SlidingWindow.HashReady;
      hide Repeats, U32;
      U32Less(win.strstart, win.matchStart);
      ghost var input0, o := win.input, win.base + win.strstart - 1;
      ghost var d := U32(win.strstart - 1 - win.matchStart);
      win.FillWindowIfNeeded();
      U32Less(win.strstart, win.matchStart);
      if matchLength >= MIN_MATCH { RepeatsGrow(input0, win.input, o, d, matchLength); }
      assert win.input[..n] == input0[..n];
    }

    /** Inserts the string at strstart and looks for a match longer than the previous one. */
    method Search(matchLength0: nat, ghost n: nat) returns (matchLength: nat, prevMatch: ulg, ghost whole: nat)
      requires Valid(n, 0)
      requires 1 <= matchLength0 <= MAX_MATCH && win.lookahead >= 1
      modifies win`insH, win`prevLength, win`matchStart, win.prev, win.head
      ensures Valid(n, 1)
      ensures win.prevLength == matchLength0 && prevMatch == old(win.matchStart)
      ensures 1 <= matchLength <= MAX_MATCH && (matchLength >= MIN_MATCH ==> matchLength <= win.lookahead)
      ensures matchLength >= MIN_MATCH && matchLength > matchLength0 ==> win.Found(win.matchStart, matchLength)
      ensures LookedFor(win.input, win.base, win.strstart, win.lookahead, matchLength0, win.matchStart, matchLength,
                        whole)
    {
      hide BlockCoder.Valid, Decoding, Expand, SlidingWindow.Content, SlidingWindow.Inserted, SlidingWindow.HashReady;
      hide Prior, SlidingWindow.Found, LookedFor;
      var hashHead := win.InsertString();
      win.prevLength := matchLength0;
      prevMatch := win.matchStart;
      matchLength, whole := win.FindMatch(hashHead);
    }

    /** The state between two rounds of deflate's loop. */
    ghost predicate Between(available: bool, matchLength: nat)
      reads win`crc, win`isize, win`eofile, win`input, win`base, win`end, win`strstart, win`blockStart, win.source
      reads win.window, win.crcTable
      reads win`insH, win`lookahead, win`matchStart, win.prev, win.head
      reads coder, coder.out, coder.out.outbuf, coder.buf, coder.buf.lBuf, coder.buf.dBuf, coder.buf.flagBuf
      reads coder.builder
      reads coder.tables.lengthCode, coder.tables.distCode, coder.tables.baseLength, coder.tables.baseDist
      reads coder.tables.staticLtree, coder.tables.staticDtree
      reads coder.lDesc.dynTree, coder.dDesc.dynTree, coder.blDesc.dynTree
    {
      && (available ==> 1 <= win.strstart) && Valid(win.base + win.strstart - (if available then 1 else 0), 0)
      && |coder.buf.tokens| + 1 < LIT_BUFSIZE
      && 1 <= matchLength <= MAX_MATCH && (matchLength >= MIN_MATCH ==> available && Pending(matchLength))
    }

    /** ... and at the head of it. */
    ghost predicate AtHead(available: bool, matchLength: nat)
      reads win, win.source, win.window, win.crcTable, win.prev, win.head
      reads coder, coder.out, coder.out.outbuf, coder.buf, coder.buf.lBuf, coder.buf.dBuf, coder.buf.flagBuf
      reads coder.builder
      reads coder.tables.lengthCode, coder.tables.distCode, coder.tables.baseLength, coder.tables.baseDist
      reads coder.tables.staticLtree, coder.tables.staticDtree
      reads coder.lDesc.dynTree, coder.dDesc.dynTree, coder.blDesc.dynTree
    {
      Between(available, matchLength) && (win.eofile || win.lookahead >= MIN_LOOKAHEAD)
    }

    /** The string at strstart has been inserted and looked up: matchLength is the length found, and the match of
        length prevLength before it, if there is one, starts at prevMatch. */
    ghost predicate Searched(available: bool, matchLength: nat, prevMatch: ulg)
      reads win`crc, win`isize, win`eofile, win`input, win`base, win`end, win`strstart, win`blockStart, win.source
      reads win.window, win.crcTable
      reads win`insH, win`lookahead, win`matchStart, win`prevLength, win.prev, win.head
      reads coder, coder.out, coder.out.outbuf, coder.buf, coder.buf.lBuf, coder.buf.dBuf, coder.buf.flagBuf
      reads coder.builder
      reads coder.tables.lengthCode, coder.tables.distCode, coder.tables.baseLength, coder.tables.baseDist
      reads coder.tables.staticLtree, coder.tables.staticDtree
      reads coder.lDesc.dynTree, coder.dDesc.dynTree, coder.blDesc.dynTree
    {
      && (available ==> 1 <= win.strstart) && Valid(win.base + win.strstart - (if available then 1 else 0), 1)
      && |coder.buf.tokens| + 1 < LIT_BUFSIZE && 1 <= win.lookahead && 1 <= win.prevLength <= MAX_MATCH
      && 1 <= matchLength <= MAX_MATCH && (matchLength >= MIN_MATCH ==> matchLength <= win.lookahead)
      && (win.prevLength >= MIN_MATCH ==> available && Before(prevMatch, win.prevLength))
      && (matchLength >= MIN_MATCH && matchLength > win.prevLength ==> win.Found(win.matchStart, matchLength))
    }

    /** The search of one round. */
    method SearchHere(available: bool, matchLength0: nat)
      returns (matchLength: nat, prevMatch: ulg, ghost whole: nat)
      requires Between(available, matchLength0) && win.lookahead >= 1
      modifies win`insH, win`prevLength, win`matchStart, win.prev, win.head
      ensures Searched(available, matchLength, prevMatch)
      ensures win.prevLength == matchLength0 && prevMatch == old(win.matchStart)
      ensures LookedFor(win.input, win.base, win.strstart, win.lookahead, matchLength0, win.matchStart, matchLength,
                        whole)
    {
      hide Deflater.Valid, Deflater.Before, Expand, Repeats, U32, SlidingWindow.Found, Decoding, LookedFor;
      var n := win.base + win.strstart - (if available then 1 else 0);
      matchLength, prevMatch, whole := Search(matchLength0, n);
    }

    /** One round of the loop, without the refill: the previous match is used if and only if it is one and the match
        found now is no longer; otherwise the byte before strstart, if it is pending, becomes a literal, and what was
        found is kept. */
    method Round(available0: bool, matchLength0: nat)
      returns (available: bool, matchLength: nat, ghost found: nat, ghost whole: nat)
      requires AtHead(available0, matchLength0) && win.lookahead >= 1
      modifies win`insH, win`prevLength, win`matchStart, win`strstart, win`lookahead, win`blockStart, win.prev, win.head
      modifies coder, coder.out, coder.out.outbuf, coder.buf, coder.buf.lBuf, coder.buf.dBuf, coder.buf.flagBuf
      modifies coder.builder, coder.builder.heap, coder.builder.depth, coder.builder.blCount
      modifies coder.lDesc, coder.lDesc.dynTree, coder.dDesc, coder.dDesc.dynTree, coder.blDesc, coder.blDesc.dynTree
      ensures Between(available, matchLength) && (win.eofile || win.lookahead >= 2) && win.strstart > old(win.strstart)
      ensures LookedFor(win.input, win.base, old(win.strstart), old(win.lookahead), matchLength0, win.matchStart, found,
                        whole)
      ensures available == !(matchLength0 >= MIN_MATCH && found <= matchLength0)
      ensures matchLength == (if available then found else MIN_MATCH - 1)
      ensures win.strstart == old(win.strstart) + (if available then 1 else matchLength0 - 1)
      ensures Output(old(coder.buf.tokens), coder.buf.tokens, available0, available, matchLength0,
                     U32(old(win.strstart) - 1 - old(win.matchStart)), win.input, win.base + old(win.strstart) - 1)
    {
      hide Deflater.Between, Deflater.Searched, LookedFor, Output, U32;
      var prevMatch;
      available := available0;
      matchLength, prevMatch, whole := SearchHere(available, matchLength0);
      found := matchLength;
      if win.prevLength >= MIN_MATCH && matchLength <= win.prevLength {
        PreviousMatch(available, matchLength, prevMatch);
        available := false;
        matchLength := MIN_MATCH - 1;
      } else {
        MoveOn(available, matchLength, prevMatch);
        available := true;
      }
    }

    /** The match before strstart is output, as the one at strstart is no longer. */
    method PreviousMatch(available: bool, matchLength: nat, prevMatch: ulg)
      requires Searched(available, matchLength, prevMatch) && win.prevLength >= MIN_MATCH
      requires win.eofile || win.lookahead >= MIN_LOOKAHEAD
      modifies win`strstart, win`lookahead, win`prevLength, win`insH, win`blockStart, win.prev, win.head
      modifies coder, coder.out, coder.out.outbuf, coder.buf, coder.buf.lBuf, coder.buf.dBuf, coder.buf.flagBuf
      modifies coder.builder, coder.builder.heap, coder.builder.depth, coder.builder.blCount
      modifies coder.lDesc, coder.lDesc.dynTree, coder.dDesc, coder.dDesc.dynTree, coder.blDesc, coder.blDesc.dynTree
      ensures Between(false, MIN_MATCH - 1) && (win.eofile || win.lookahead >= 2)
      ensures win.strstart == old(win.strstart + win.prevLength) - 1 > old(win.strstart)
      ensures Output(old(coder.buf.tokens), coder.buf.tokens, available, false, old(win.prevLength),
                     U32(old(win.strstart) - 1 - prevMatch), win.input, win.base + old(win.strstart) - 1)
    {
      hide Deflater.Valid, Deflater.Before, Expand, Repeats, U32, SlidingWindow.Found, Decoding, Emitted;
      Inside(win.base + win.strstart - 1, 1);
      UseMatch(prevMatch);
    }

    /** There is no match to output before strstart; one found at it is kept for the next round. */
    method MoveOn(available: bool, matchLength: nat, prevMatch: ulg)
      requires Searched(available, matchLength, prevMatch)
      requires (win.prevLength >= MIN_MATCH ==> matchLength > win.prevLength)
      requires win.eofile || win.lookahead >= MIN_LOOKAHEAD
      modifies win`strstart, win`lookahead, win`blockStart
      modifies coder, coder.out, coder.out.outbuf, coder.buf, coder.buf.lBuf, coder.buf.dBuf, coder.buf.flagBuf
      modifies coder.builder, coder.builder.heap, coder.builder.depth, coder.builder.blCount
      modifies coder.lDesc, coder.lDesc.dynTree, coder.dDesc, coder.dDesc.dynTree, coder.blDesc, coder.blDesc.dynTree
      ensures Between(true, matchLength) && (win.eofile || win.lookahead >= 2)
      ensures win.strstart == old(win.strstart) + 1
      ensures Output(old(coder.buf.tokens), coder.buf.tokens, available, true, old(win.prevLength),
                     U32(old(win.strstart) - 1 - prevMatch), win.input, win.base + old(win.strstart) - 1)
    {
      hide Deflater.Valid, MatchBefore, Expand, SlidingWindow.Found, Decoding, Emitted, U32;
      ghost var n := win.base + win.strstart - (if available then 1 else 0);
      Inside(n, 1);
      if matchLength >= MIN_MATCH { FoundPending(matchLength, n); }
      if available { UseLiteral(); } else { Advance(); }
    }

    /** deflate: all of the input, up to its end or a failure to read it, becomes blocks that the decoder
        turns back into it. */
    method Deflate() returns (ghost end: nat)
      requires AtHead(false, MIN_MATCH - 1)
      modifies win, win.source, win.window, win.prev, win.head
      modifies coder, coder.out, coder.out.outbuf, coder.buf, coder.buf.lBuf, coder.buf.dBuf, coder.buf.flagBuf
      modifies coder.builder, coder.builder.heap, coder.builder.depth, coder.builder.blCount
      modifies coder.lDesc, coder.lDesc.dynTree, coder.dDesc, coder.dDesc.dynTree, coder.blDesc, coder.blDesc.dynTree
      ensures win.Content() && win.eofile && coder.out.Valid() && coder.out.biValid == 0
      ensures Decoded(coder.out.Sent(), win.input, end) && coder.out.Sent() == BytesToBits(coder.out.Bytes())
    {
      hide Deflater.AtHead, Expand, Decoding, Decoded, BytesToBits, Repeats, U32;
      var available, matchLength: nat := false, MIN_MATCH - 1;
      while win.lookahead != 0
        invariant AtHead(available, matchLength)
        decreases |win.source.data| - win.base - win.strstart
      {
        HeadBounds(available, matchLength);
        available, matchLength := Next(available, matchLength);
      }
      HeadBounds(available, matchLength);
      end := Finish(available, matchLength);
    }

    /** One round of the loop with the refill. */
    method Next(available0: bool, matchLength0: nat) returns (available: bool, matchLength: nat)
      requires AtHead(available0, matchLength0) && win.lookahead >= 1
      modifies win, win.source, win.window, win.prev, win.head
      modifies coder, coder.out, coder.out.outbuf, coder.buf, coder.buf.lBuf, coder.buf.dBuf, coder.buf.flagBuf
      modifies coder.builder, coder.builder.heap, coder.builder.depth, coder.builder.blCount
      modifies coder.lDesc, coder.lDesc.dynTree, coder.dDesc, coder.dDesc.dynTree, coder.blDesc, coder.blDesc.dynTree
      ensures AtHead(available, matchLength) && win.base + win.strstart > old(win.base + win.strstart)
    {
      hide Deflater.Valid, Expand, Deflater.Pending, SlidingWindow.Found, Decoding;
      ghost var found, whole;
      available, matchLength, found, whole := Round(available0, matchLength0);
      Fill(matchLength, win.base + win.strstart - (if available then 1 else 0));
    }

    /** The end of deflate: the last byte if it is pending, and the last block. */
    method Finish(available: bool, matchLength: nat) returns (ghost end: nat)
      requires AtHead(available, matchLength) && win.lookahead == 0
      modifies coder, coder.out, coder.out.outbuf, coder.buf, coder.buf.lBuf, coder.buf.dBuf, coder.buf.flagBuf
      modifies coder.builder, coder.builder.heap, coder.builder.depth, coder.builder.blCount
      modifies coder.lDesc, coder.lDesc.dynTree, coder.dDesc, coder.dDesc.dynTree, coder.blDesc, coder.blDesc.dynTree
      ensures win.Content() && win.eofile && coder.out.Valid() && coder.out.biValid == 0
      ensures Decoded(coder.out.Sent(), win.input, end) && coder.out.Sent() == BytesToBits(coder.out.Bytes())
    {
      hide Expand, Deflater.Pending, Deflater.Valid, Decoding, Decoded, BytesToBits;
      Inside(win.base + win.strstart - (if available then 1 else 0), 0);
      if available {
        var flush := TallyLiteral(0);
      }
      end := FlushLast();
    }

    /** FLUSH_BLOCK(1): all of the input is tallied. */
    method FlushLast() returns (ghost end: nat)
      requires win.base + win.strstart == |win.input| && Valid(|win.input|, 0)
      modifies coder, coder.out, coder.out.outbuf, coder.buf, coder.buf.flagBuf
      modifies coder.builder, coder.builder.heap, coder.builder.depth, coder.builder.blCount
      modifies coder.lDesc, coder.lDesc.dynTree, coder.dDesc, coder.dDesc.dynTree, coder.blDesc, coder.blDesc.dynTree
      ensures win.Content() && coder.out.Valid() && coder.out.biValid == 0
      ensures Decoded(coder.out.Sent(), win.input, end) && coder.out.Sent() == BytesToBits(coder.out.Bytes())
    {
      hide Expand, Deflater.Valid, Decoding, Decoded, BytesToBits, BitsOf, SlidingWindow.Content, SlidingWindow.Ready;
      hide BlockCoder.Valid;
      DataIs(win.base + win.strstart, 0);
      assert win.input[..win.base + win.strstart] == win.input;
      end := Flush(true, 0);
    }

    lemma DataIs(n: nat, k: nat)
      requires Valid(n, k)
      ensures n <= |win.input| && coder.Data() == win.input[..n]
    {
    }

    lemma HeadBounds(available: bool, matchLength: nat)
      requires AtHead(available, matchLength)
      ensures win.base + win.strstart <= |win.source.data|
    {
    }

    /** A match found at strstart is one to be output after the next byte. */
    lemma FoundPending(len: nat, n: nat)
      requires Valid(n, 1) && win.Found(win.matchStart, len) && len <= win.lookahead
      ensures MatchBefore(win.input, win.base, win.strstart + 1, win.matchStart, len)
    {
      hide BlockCoder.Valid, Decoding, Expand, Same, SlidingWindow.Content, U32, Repeats;
      ContentBounds();
      MatchRepeats(win.input, win.base, win.strstart, win.matchStart, len);
    }

    lemma Inside(n: nat, k: nat)
      requires Valid(n, k)
      ensures win.base + win.strstart + win.lookahead == |win.input|
    {
    }

    lemma MatchInside(len: nat)
      requires 1 <= win.base + win.strstart + len && Valid(win.base + win.strstart - 1 + len, 1)
      ensures len <= win.lookahead + 1
    {
    }

    /** The data of the block follow those of the blocks before it. */
    lemma DataLonger()
      ensures |coder.done| <= |coder.Data()|
    {
    }

    /** The data of the block are where FLUSH_BLOCK says. */
    lemma BlockThere(k: nat)
      requires Valid(win.base + win.strstart, k)
      ensures win.blockStart <= win.strstart
      ensures coder.InWindow(win.window[..], win.blockStart, win.strstart - win.blockStart)
    {
      hide BlockCoder.Valid, Decoding, Expand, SlidingWindow.Ready;
      ContentBounds();
      BlockInWindow(win.window[..], win.end, win.input, win.base, win.strstart, win.blockStart, coder.done,
                    coder.Data());
    }

    lemma ContentBounds()
      requires win.Content()
      ensures win.end <= win.window.Length == WINDOW_SIZE && |win.input| == win.base + win.end
      ensures win.window[..win.end] == win.input[win.base..]
    {
    }
  }

  /** The window still holds the data of the block, unless it has moved past the start of it. */
  lemma BlockInWindow(w: seq<byte>, end: nat, input: seq<byte>, base: nat, strstart: nat, blockStart: int,
                      done: seq<byte>, data: seq<byte>)
    requires end <= |w| && base + end == |input| && w[..end] == input[base..] && base + strstart <= |input|
    requires |done| == base + blockStart && done <= data && data == input[..base + strstart]
    requires base > 0 ==> strstart >= MAX_DIST
    ensures blockStart <= strstart <= end && |data| == |done| + (strstart - blockStart)
    ensures blockStart >= 0 ==> w[blockStart..strstart] == data[|done|..]
    ensures blockStart < 0 ==> strstart - blockStart > MAX_STORED
  {
    if blockStart >= 0 {
      forall k | 0 <= k < strstart - blockStart
        ensures w[blockStart..strstart][k] == data[|done|..][k]
      {
        assert w[..end][blockStart + k] == input[base..][blockStart + k];
      }
    }
  }
}
