/** The passes over a tree's code lengths: scan_tree counts the symbols that send_tree sends. */
module TreeCoding {
  import opened Bits
  import opened Canonical
  import opened BitOutput
  import opened Heap
  import opened HuffmanShape
  import opened Reassign
  import opened CodeGen
  import opened Counting
  import opened RunLength
  import Inflate

  ghost function Codes(syms: seq<Sym>): (c: seq<nat>)
    ensures |c| == |syms|
  {
    seq(|syms|, i requires 0 <= i < |syms| => syms[i].code)
  }

  lemma CodesConcat(pre: seq<nat>, a: seq<Sym>, b: seq<Sym>)
    ensures pre + Codes(a + b) == pre + Codes(a) + Codes(b)
  {
  }

  // ---------- scan_tree ----------

  lemma CopiesLast(cur: nat, count: nat)
    requires count > 0
    ensures Codes(Copies(cur, count)) == Codes(Copies(cur, count - 1)) + [cur]
  {
    CopiesAt(cur, count);
    CopiesAt(cur, count - 1);
  }

  lemma {:induction false} CopiesAt(cur: nat, count: nat)
    ensures forall i | 0 <= i < count :: Copies(cur, count)[i] == Sym(cur, 0)
  {
    if count > 0 { CopiesAt(cur, count - 1); }
  }

  lemma {:induction false} CopiesCounted(codes: seq<nat>, cur: nat, count: nat, elems: nat)
    requires cur < elems
    ensures Histogram(codes + Codes(Copies(cur, count)), elems) ==
            Histogram(codes, elems)[cur := Histogram(codes, elems)[cur] + count]
  {
    if count == 0 {
      assert codes + Codes(Copies(cur, 0)) == codes;
    } else {
      CopiesCounted(codes, cur, count - 1, elems);
      CopiesLast(cur, count);
      assert codes + Codes(Copies(cur, count)) == codes + Codes(Copies(cur, count - 1)) + [cur];
      HistogramPush(codes + Codes(Copies(cur, count - 1)), cur, elems);
    }
  }

  /** Counts one more occurrence of a code in a tree of n codes. */
  method CountCode(tree: array<CtData>, c: nat, n: nat, ghost codes: seq<nat>)
    requires c < n <= tree.Length && |codes| < 0xffff && Freqs(tree[..], n) == Histogram(codes, n)
    modifies tree
    ensures Freqs(tree[..], n) == Histogram(codes + [c], n)
  {
    hide Histogram;
    assert Freqs(tree[..], n)[c] == tree[c].fc;
    HistogramBound(codes, n, c);
    HistogramPush(codes, c, n);
    ghost var t := tree[..];
    tree[c] := tree[c].(fc := tree[c].fc + 1);
    assert Freqs(tree[..], n) == Freqs(t, n)[c := t[c].fc + 1];
  }

  /** Counts the symbols of one run. */
  method CountRun(blTree: array<CtData>, prevLen: int, curLen: nat, count: nat, minCount: nat, ghost codes: seq<nat>)
    requires curLen < REP_3_6 && BL_CODES <= blTree.Length && |codes| + count < 0xffff && count >= 1
    requires minCount == MinCount(prevLen, curLen)
    requires Freqs(blTree[..], BL_CODES) == Histogram(codes, BL_CODES)
    modifies blTree
    ensures Freqs(blTree[..], BL_CODES) == Histogram(codes + Codes(Chunk(prevLen, curLen, count)), BL_CODES)
  {
    hide Histogram;
    ghost var run := Codes(Chunk(prevLen, curLen, count));
    if count < minCount {
      assert Freqs(blTree[..], BL_CODES)[curLen] == blTree[curLen].fc;
      HistogramBound(codes, BL_CODES, curLen);
      CopiesCounted(codes, curLen, count, BL_CODES);
      ghost var t := blTree[..];
      blTree[curLen] := blTree[curLen].(fc := blTree[curLen].fc + count);
      assert Freqs(blTree[..], BL_CODES) == Freqs(t, BL_CODES)[curLen := t[curLen].fc + count];
    } else if curLen != 0 {
      if curLen != prevLen {
        CountCode(blTree, curLen, BL_CODES, codes);
        CountCode(blTree, REP_3_6, BL_CODES, codes + [curLen]);
        assert codes + [curLen] + [REP_3_6] == codes + run;
      } else {
        CountCode(blTree, REP_3_6, BL_CODES, codes);
        assert run == [REP_3_6];
      }
    } else if count <= 10 {
      CountCode(blTree, REPZ_3_10, BL_CODES, codes);
      assert run == [REPZ_3_10];
    } else {
      CountCode(blTree, REPZ_11_138, BL_CODES, codes);
      assert run == [REPZ_11_138];
    }
  }

  ghost function Symbols(lens: seq<nat>): seq<Sym>
  {
    Encode(lens, 0, 0, -1)
  }

  /** `sent` are the symbols before the state in front of lens[n]; there is at most one a length. */
  ghost predicate SentSoFar(lens: seq<nat>, sent: seq<Sym>, n: nat, count: nat, prev: int)
  {
    && Pending(lens, n, count, prev) && |sent| + count <= n
    && sent + Encode(lens, n, count, prev) == Symbols(lens)
  }

  lemma SentStart(lens: seq<nat>)
    requires forall i | 0 <= i < |lens| :: lens[i] <= Inflate.MAX_BITS
    ensures SentSoFar(lens, [], 0, 0, -1)
  {
    assert [] + Symbols(lens) == Symbols(lens);
  }

  lemma ChunkShort(prev: int, cur: nat, count: nat)
    requires count >= 1
    ensures |Chunk(prev, cur, count)| <= count
  {
  }

  lemma SentStep(lens: seq<nat>, sent: seq<Sym>, n: nat, count: nat, prev: int)
    requires SentSoFar(lens, sent, n, count, prev) && n < |lens|
    ensures lens[n] <= Inflate.MAX_BITS && count <= n && |sent| + count <= n
    ensures if n + 1 < |lens| && lens[n] == lens[n + 1] && count + 1 < MaxCount(prev, lens[n])
            then SentSoFar(lens, sent, n + 1, count + 1, prev)
            else SentSoFar(lens, sent + Chunk(prev, lens[n], count + 1), n + 1, 0, lens[n])
  {
    hide Chunk, Pending;
    PendingStep(lens, n, count, prev);
    ChunkShort(prev, lens[n], count + 1);
    var chunk, rest := Chunk(prev, lens[n], count + 1), Encode(lens, n + 1, 0, lens[n]);
    assert sent + (chunk + rest) == sent + chunk + rest;
  }

  lemma SentEnd(lens: seq<nat>, sent: seq<Sym>, count: nat, prev: int)
    requires SentSoFar(lens, sent, |lens|, count, prev)
    ensures sent == Symbols(lens) && |sent| <= |lens|
  {
  }

  /** The lengths are in the front of the tree, with a guard behind them. */
  ghost predicate Guarded(t: seq<CtData>, lens: seq<nat>)
  {
    && |lens| < |t| && t[|lens|].dl == GUARD && LensOf(t, |lens|) == lens
    && forall i | 0 <= i < |lens| :: lens[i] <= Inflate.MAX_BITS
  }

  lemma GuardedAt(t: seq<CtData>, lens: seq<nat>, n: nat)
    requires Guarded(t, lens) && n <= |lens|
    ensures n < |t| && t[n].dl == if n < |lens| then lens[n] else GUARD
    ensures n < |lens| ==> lens[n] < REP_3_6
  {
    if n < |lens| { assert LensOf(t, |lens|)[n] == t[n].dl; }
  }

  /** Counts the symbols for the lengths of a tree on top of those counted before. */
  method ScanTree(tree: array<CtData>, maxCode: nat, blTree: array<CtData>, ghost lens: seq<nat>,
                  ghost before: seq<nat>)
    requires maxCode + 1 == |lens| < tree.Length && LensOf(tree[..], |lens|) == lens && tree != blTree
    requires forall i | 0 <= i < |lens| :: lens[i] <= Inflate.MAX_BITS
    requires BL_CODES <= blTree.Length && |before| + |lens| < 0xffff
    requires Freqs(blTree[..], BL_CODES) == Histogram(before, BL_CODES)
    modifies tree, blTree
    ensures tree[..] == old(tree[..])[|lens| := old(tree[|lens|]).(dl := GUARD)] && Guarded(tree[..], lens)
    ensures |Symbols(lens)| <= |lens|
    ensures Freqs(blTree[..], BL_CODES) == Histogram(before + Codes(Symbols(lens)), BL_CODES)
  {
    hide Histogram, Encode, Chunk, Freqs, Guarded, LensOf, SentSoFar;
    var prevLen: int := -1;
    var nextLen := tree[0].dl;
    var count := 0;
    var maxCount, minCount := 7, 4;
    if nextLen == 0 { maxCount, minCount := 138, 3; }
    tree[maxCode + 1] := tree[maxCode + 1].(dl := GUARD);
    assert Guarded(tree[..], lens) by { GuardSet(old(tree[..]), tree[..], lens); }
    GuardedAt(tree[..], lens, 0);
    SentStart(lens);
    ghost var sent: seq<Sym>, t := [], tree[..];
    assert before + Codes([]) == before;
    for n := 0 to maxCode + 1
      invariant tree[..] == t && SentSoFar(lens, sent, n, count, prevLen)
      invariant n < |lens| ==> nextLen == lens[n] && maxCount == MaxCount(prevLen, nextLen)
                               && minCount == MinCount(prevLen, nextLen)
      invariant Freqs(blTree[..], BL_CODES) == Histogram(before + Codes(sent), BL_CODES)
    {
      GuardedAt(t, lens, n);
      GuardedAt(t, lens, n + 1);
      SentStep(lens, sent, n, count, prevLen);
      var curLen := nextLen;
      nextLen := tree[n + 1].dl;
      count := count + 1;
      if count < maxCount && curLen == nextLen { continue; }
      CountRun(blTree, prevLen, curLen, count, minCount, before + Codes(sent));
      CodesConcat(before, sent, Chunk(prevLen, curLen, count));
      sent := sent + Chunk(prevLen, curLen, count);
      count := 0;
      prevLen := curLen;
      maxCount, minCount := 7, 4;
      if nextLen == 0 {
        maxCount, minCount := 138, 3;
      } else if curLen == nextLen {
        maxCount, minCount := 6, 3;
      }
    }
    SentEnd(lens, sent, count, prevLen);
  }

  lemma GuardSet(t0: seq<CtData>, t: seq<CtData>, lens: seq<nat>)
    requires |lens| < |t0| && t == t0[|lens| := t0[|lens|].(dl := GUARD)] && LensOf(t0, |lens|) == lens
    requires forall i | 0 <= i < |lens| :: lens[i] <= Inflate.MAX_BITS
    ensures Guarded(t, lens)
  {
    assert LensOf(t, |lens|) == LensOf(t0, |lens|);
  }

  // ---------- send_tree ----------

  /** Node c of the tree holds the codeword that the lengths give to symbol c. */
  ghost predicate Ready(t: seq<CtData>, lens: seq<nat>, c: nat)
  {
    && c < |lens| && c < |t| && t[c].dl == lens[c] && 1 <= lens[c] <= Inflate.MAX_BITS
    && t[c].fc < Pow2(lens[c]) && BitsOf(t[c].fc, lens[c]) == Codeword(lens, c)
  }

  /** SEND_CODE. */
  method SendCode(out: BitWriter, tree: array<CtData>, c: nat, ghost lens: seq<nat>)
    requires out.Valid() && Ready(tree[..], lens, c)
    modifies out, out.outbuf
    ensures out.Valid() && out.Sent() == old(out.Sent()) + Codeword(lens, c)
  {
    hide BitsOf, Pow2, Codeword;
    out.SendBits(tree[c].fc, tree[c].dl);
  }

  lemma CodingReady(t: seq<CtData>, cl: seq<nat>, syms: seq<Sym>, i: nat)
    requires CodesFor(t, cl) && Coding(cl, syms) && i < |syms| && Complete(cl, 7)
    ensures ValidSym(syms[i]) && Ready(t, cl, syms[i].code)
  {
    hide Pow2, BitsOf, Codeword, KraftSum;
    var c := syms[i].code;
    assert Coded(t, cl, c) && LensOf(t, |cl|)[c] == t[c].dl;
  }

  /** Sends a repeat symbol and its count. */
  method SendRepeat(out: BitWriter, blTree: array<CtData>, code: nat, extra: nat, width: nat, ghost cl: seq<nat>)
    requires out.Valid() && ValidSym(Sym(code, extra)) && width == RepeatWidth(code)
    requires Ready(blTree[..], cl, code)
    modifies out, out.outbuf
    ensures out.Valid() && out.Sent() == old(out.Sent()) + SymBits(cl, Sym(code, extra))
  {
    hide BitsOf, Pow2, Codeword;
    SendCode(out, blTree, code, cl);
    Pow2Values();
    Pow2Monotone(width, 16);
    out.SendBits(extra, width);
  }

  lemma CopyBits(cl: seq<nat>, cur: nat)
    requires cur < REP_3_6 && cur < |cl|
    ensures SymBits(cl, Sym(cur, 0)) == Codeword(cl, cur)
  {
    hide Codeword;
  }

  lemma CopiesPush(cl: seq<nat>, cur: nat, count: nat)
    requires |cl| == BL_CODES && cur < REP_3_6 && cl[cur] >= 1
    ensures Coding(cl, Copies(cur, count)) && Coding(cl, Copies(cur, count + 1))
    ensures SymsBits(cl, Copies(cur, count + 1)) == SymsBits(cl, Copies(cur, count)) + Codeword(cl, cur)
  {
    hide Codeword, SymBits;
    CopiesAt(cur, count);
    CopiesAt(cur, count + 1);
    CopyBits(cl, cur);
    assert Copies(cur, count + 1)[..count] == Copies(cur, count);
  }

  lemma PairBits(cl: seq<nat>, a: Sym, b: Sym)
    requires Coding(cl, [a, b])
    ensures a.code < |cl| && b.code < |cl| && SymsBits(cl, [a, b]) == SymBits(cl, a) + SymBits(cl, b)
  {
    hide SymBits, ValidSym;
    assert [a, b] == [a] + [b];
    CodingSplit(cl, [a], [b]);
    OneSym(cl, a);
    OneSym(cl, b);
    SymsBitsConcat(cl, [a], [b]);
  }

  /** Sends the same length several times. */
  method SendCopies(out: BitWriter, blTree: array<CtData>, curLen: nat, count: nat, ghost cl: seq<nat>)
    requires out.Valid() && curLen < REP_3_6 && count >= 1 && |cl| == BL_CODES && Ready(blTree[..], cl, curLen)
    modifies out, out.outbuf
    ensures out.Valid() && Coding(cl, Copies(curLen, count))
    ensures out.Sent() == old(out.Sent()) + SymsBits(cl, Copies(curLen, count))
  {
    hide Codeword, Coding, SymsBits;
    ghost var k := 0;
    var left := count;
    CopiesPush(cl, curLen, 0);
    NoSyms(cl);
    while true
      invariant out.Valid() && 1 <= left <= count && k == count - left && Coding(cl, Copies(curLen, k))
      invariant out.Sent() == old(out.Sent()) + SymsBits(cl, Copies(curLen, k))
      decreases left
    {
      CopiesPush(cl, curLen, k);
      SendCode(out, blTree, curLen, cl);
      k := k + 1;
      left := left - 1;
      if left == 0 { break; }
    }
  }

  /** Sends the symbols of one run. */
  method SendRun(out: BitWriter, blTree: array<CtData>, prevLen: int, curLen: nat, count0: nat, minCount: nat,
                 ghost cl: seq<nat>)
    requires out.Valid() && curLen < REP_3_6 && count0 >= 1 && minCount == MinCount(prevLen, curLen)
    requires CodesFor(blTree[..], cl) && Complete(cl, 7) && Coding(cl, Chunk(prevLen, curLen, count0))
    modifies out, out.outbuf
    ensures out.Valid() && out.Sent() == old(out.Sent()) + SymsBits(cl, Chunk(prevLen, curLen, count0))
  {
    hide Complete, CodesFor, Codeword, SymsBits, SymBits, Ready;
    var count := count0;
    ghost var run := Chunk(prevLen, curLen, count);
    CodingReady(blTree[..], cl, run, 0);
    if count < minCount {
      SendCopies(out, blTree, curLen, count, cl);
    } else if curLen != 0 {
      if curLen != prevLen {
        PairBits(cl, run[0], run[1]);
        assert run == [run[0], run[1]];
        CopyBits(cl, curLen);
        CodingReady(blTree[..], cl, run, 1);
        SendCode(out, blTree, curLen, cl);
        count := count - 1;
      } else {
        OneSym(cl, run[0]);
      }
      SendRepeat(out, blTree, REP_3_6, count - 3, 2, cl);
    } else if count <= 10 {
      OneSym(cl, run[0]);
      SendRepeat(out, blTree, REPZ_3_10, count - 3, 3, cl);
    } else {
      OneSym(cl, run[0]);
      SendRepeat(out, blTree, REPZ_11_138, count - 11, 7, cl);
    }
  }

  lemma RestCoding(cl: seq<nat>, lens: seq<nat>, sent: seq<Sym>, n: nat, count: nat, prev: int)
    requires SentSoFar(lens, sent, n, count, prev) && Coding(cl, Symbols(lens)) && n < |lens|
    requires !(n + 1 < |lens| && lens[n] == lens[n + 1] && count + 1 < MaxCount(prev, lens[n]))
    ensures var run := Chunk(prev, lens[n], count + 1);
            Coding(cl, sent) && Coding(cl, run) && Coding(cl, sent + run)
            && SymsBits(cl, sent + run) == SymsBits(cl, sent) + SymsBits(cl, run)
  {
    hide Coding, Chunk, SymsBits, Pending;
    var run, rest := Chunk(prev, lens[n], count + 1), Encode(lens, n + 1, 0, lens[n]);
    CodingSplit(cl, sent, run + rest);
    CodingSplit(cl, run, rest);
    SymsBitsConcat(cl, sent, run);
  }

  /** Sends the lengths of a tree, using the codes in blTree. */
  method SendTree(out: BitWriter, tree: array<CtData>, maxCode: nat, blTree: array<CtData>, ghost lens: seq<nat>,
                  ghost cl: seq<nat>)
    requires out.Valid() && maxCode + 1 == |lens| && Guarded(tree[..], lens)
    requires CodesFor(blTree[..], cl) && Complete(cl, 7) && Coding(cl, Symbols(lens))
    modifies out, out.outbuf
    ensures out.Valid() && out.Sent() == old(out.Sent()) + SymsBits(cl, Symbols(lens))
  {
    hide Encode, Chunk, Guarded, SentSoFar, Coding, SymsBits, CodesFor, Complete;
    var prevLen: int := -1;
    GuardedAt(tree[..], lens, 0);
    var nextLen := tree[0].dl;
    var count := 0;
    var maxCount, minCount := 7, 4;
    if nextLen == 0 { maxCount, minCount := 138, 3; }
    ghost var sent: seq<Sym> := [];
    GuardedLens(tree[..], lens);
    SentStart(lens);
    NothingSent(cl, lens);
    for n := 0 to maxCode + 1
      invariant out.Valid() && SentSoFar(lens, sent, n, count, prevLen) && Coding(cl, sent)
      invariant n < |lens| ==> nextLen == lens[n] && maxCount == MaxCount(prevLen, nextLen)
                               && minCount == MinCount(prevLen, nextLen)
      invariant out.Sent() == old(out.Sent()) + SymsBits(cl, sent)
    {
      GuardedAt(tree[..], lens, n);
      GuardedAt(tree[..], lens, n + 1);
      SentStep(lens, sent, n, count, prevLen);
      var curLen := nextLen;
      nextLen := tree[n + 1].dl;
      count := count + 1;
      if count < maxCount && curLen == nextLen { continue; }
      RestCoding(cl, lens, sent, n, count - 1, prevLen);
      SendRun(out, blTree, prevLen, curLen, count, minCount, cl);
      sent := sent + Chunk(prevLen, curLen, count);
      count := 0;
      prevLen := curLen;
      if nextLen == 0 {
        maxCount, minCount := 138, 3;
      } else if curLen == nextLen {
        maxCount, minCount := 6, 3;
      } else {
        maxCount, minCount := 7, 4;
      }
    }
    SentEnd(lens, sent, count, prevLen);
  }

  lemma GuardedLens(t: seq<CtData>, lens: seq<nat>)
    requires Guarded(t, lens)
    ensures |lens| < |t| && forall i | 0 <= i < |lens| :: lens[i] <= Inflate.MAX_BITS
  {
  }

  lemma NothingSent(cl: seq<nat>, lens: seq<nat>)
    requires Coding(cl, Symbols(lens))
    ensures Coding(cl, []) && SymsBits(cl, []) == []
  {
  }
}
