/** Run-length coding of code lengths: scan_tree and send_tree, against section 3.2.7 of RFC 1951. */
module RunLength {
  import opened Bits
  import opened Canonical
  import Inflate

  const REP_3_6 := 16
  const REPZ_3_10 := 17
  const REPZ_11_138 := 18
  const GUARD: ush := 0xffff
  const BL_CODES := 19

  /** A symbol of the code length code with its repeat count field. */
  datatype Sym = Sym(code: nat, extra: nat)

  function RepeatWidth(code: nat): (w: nat)
    ensures w <= 7
  {
    if code == REP_3_6 then 2 else if code == REPZ_3_10 then 3 else if code == REPZ_11_138 then 7 else 0
  }

  ghost predicate ValidSym(s: Sym)
  {
    s.code < BL_CODES && s.extra < Pow2(RepeatWidth(s.code))
  }

  function MaxCount(prev: int, cur: nat): nat
  {
    if cur == 0 then 138 else if cur == prev then 6 else 7
  }

  function MinCount(prev: int, cur: nat): nat
  {
    if cur == 0 || cur == prev then 3 else 4
  }

  function Copies(cur: nat, count: nat): (s: seq<Sym>)
    ensures |s| == count
  {
    if count == 0 then [] else [Sym(cur, 0)] + Copies(cur, count - 1)
  }

  /** The symbols for `count` lengths `cur` in a row after a length `prev`. */
  function Chunk(prev: int, cur: nat, count: nat): (s: seq<Sym>)
  {
    if count < MinCount(prev, cur) then Copies(cur, count)
    else if cur != 0 then
      if cur != prev then [Sym(cur, 0), Sym(REP_3_6, count - 4)] else [Sym(REP_3_6, count - 3)]
    else if count <= 10 then [Sym(REPZ_3_10, count - 3)]
    else [Sym(REPZ_11_138, count - 11)]
  }

  /** The symbols still to come when lens[n] is next, `count` lengths equal to it are pending,
      and `prev` was sent last. */
  ghost function Encode(lens: seq<nat>, n: nat, count: nat, prev: int): (s: seq<Sym>)
    requires n <= |lens|
    decreases |lens| - n
  {
    if n == |lens| then []
    else if n + 1 < |lens| && lens[n] == lens[n + 1] && count + 1 < MaxCount(prev, lens[n]) then
      Encode(lens, n + 1, count + 1, prev)
    else Chunk(prev, lens[n], count + 1) + Encode(lens, n + 1, 0, lens[n])
  }

  /** The state in front of lens[n]: the pending lengths are equal to it, and there is room for it. */
  ghost predicate Pending(lens: seq<nat>, n: nat, count: nat, prev: int)
  {
    && count <= n <= |lens| && (forall i | 0 <= i < |lens| :: lens[i] <= Inflate.MAX_BITS)
    && (count > 0 ==> n < |lens| && count < MaxCount(prev, lens[n]))
    && (forall k | n - count <= k < n :: lens[k] == lens[n])
    && prev == if n == count then -1 else lens[n - count - 1]
  }

  lemma PendingStart(lens: seq<nat>)
    requires forall i | 0 <= i < |lens| :: lens[i] <= Inflate.MAX_BITS
    ensures Pending(lens, 0, 0, -1)
  {
  }

  /** The run goes on, or its symbols are sent. */
  lemma PendingStep(lens: seq<nat>, n: nat, count: nat, prev: int)
    requires Pending(lens, n, count, prev) && n < |lens|
    ensures lens[n] <= Inflate.MAX_BITS && count + 1 <= MaxCount(prev, lens[n])
    ensures prev == lens[n] ==> n - count >= 1 && lens[n - count - 1] == lens[n]
    ensures if n + 1 < |lens| && lens[n] == lens[n + 1] && count + 1 < MaxCount(prev, lens[n])
            then Pending(lens, n + 1, count + 1, prev)
            else Pending(lens, n + 1, 0, lens[n])
  {
  }

  // ---------- what the symbols decode to ----------

  ghost function SymBits(cl: seq<nat>, s: Sym): seq<bool>
    requires s.code < |cl|
  {
    Codeword(cl, s.code) + BitsOf(s.extra, RepeatWidth(s.code))
  }

  ghost predicate Coding(cl: seq<nat>, syms: seq<Sym>)
  {
    |cl| == BL_CODES && forall i | 0 <= i < |syms| :: ValidSym(syms[i]) && cl[syms[i].code] >= 1
  }

  ghost function SymsBits(cl: seq<nat>, syms: seq<Sym>): seq<bool>
    requires Coding(cl, syms)
  {
    if syms == [] then [] else SymsBits(cl, syms[..|syms| - 1]) + SymBits(cl, syms[|syms| - 1])
  }

  lemma {:induction false} SymsBitsConcat(cl: seq<nat>, a: seq<Sym>, b: seq<Sym>)
    requires Coding(cl, a) && Coding(cl, b)
    ensures Coding(cl, a + b) && SymsBits(cl, a + b) == SymsBits(cl, a) + SymsBits(cl, b)
  {
    hide SymBits, Pow2, RepeatWidth;
    CodingConcat(cl, a, b);
    if b == [] {
      assert a + b == a;
    } else {
      var c := b[..|b| - 1];
      SymsBitsConcat(cl, a, c);
      assert (a + b)[..|a + b| - 1] == a + c;
      Associative(SymsBits(cl, a), SymsBits(cl, c), SymBits(cl, b[|b| - 1]));
    }
  }

  lemma CodingConcat(cl: seq<nat>, a: seq<Sym>, b: seq<Sym>)
    requires Coding(cl, a) && Coding(cl, b)
    ensures Coding(cl, a + b)
  {
    hide ValidSym;
  }

  lemma Associative(a: seq<bool>, b: seq<bool>, c: seq<bool>)
    ensures a + (b + c) == a + b + c
  {
  }

  lemma CodingSplit(cl: seq<nat>, a: seq<Sym>, b: seq<Sym>)
    requires Coding(cl, a + b)
    ensures Coding(cl, a) && Coding(cl, b)
  {
    assert forall i | 0 <= i < |a| :: a[i] == (a + b)[i];
    assert forall i | 0 <= i < |b| :: b[i] == (a + b)[|a| + i];
  }

  lemma ReadField(bits: seq<bool>, pos: nat, v: nat, n: nat)
    requires At(bits, pos, BitsOf(v, n)) && v < Pow2(n)
    ensures Inflate.ReadBits(bits, pos, n) == Got(v, pos + n)
  {
    ValueOfBits(v, n);
  }

  /** The lengths a symbol stands for after those in acc. */
  ghost function SymLens(acc: seq<nat>, s: Sym): seq<nat>
    requires s.code == REP_3_6 ==> acc != []
  {
    if s.code < REP_3_6 then [s.code]
    else if s.code == REP_3_6 then Inflate.Repeat(acc[|acc| - 1], 3 + s.extra)
    else if s.code == REPZ_3_10 then Inflate.Repeat(0, 3 + s.extra)
    else Inflate.Repeat(0, 11 + s.extra)
  }

  lemma SymDecodes(cl: seq<nat>, bits: seq<bool>, pos: nat, total: nat, acc: seq<nat>, s: Sym)
    requires |cl| == BL_CODES && Complete(cl, 7) && ValidSym(s) && cl[s.code] >= 1
    requires |acc| < total && (s.code == REP_3_6 ==> acc != []) && At(bits, pos, SymBits(cl, s))
    ensures Inflate.ReadLengths(cl, bits, pos, total, acc) ==
            Inflate.ReadLengths(cl, bits, pos + |SymBits(cl, s)|, total, acc + SymLens(acc, s))
  {
    hide Complete, Codeword, BitsOf, Pow2, At, DecodeSymbol, Inflate.ReadBits;
    var word, field := Codeword(cl, s.code), BitsOf(s.extra, RepeatWidth(s.code));
    AtSplit(bits, pos, word, field);
    DecodeCodeword(cl, 7, bits, pos, s.code);
    if s.code >= REP_3_6 { ReadField(bits, pos + |word|, s.extra, RepeatWidth(s.code)); }
  }

  lemma {:induction false} CopiesDecode(cl: seq<nat>, bits: seq<bool>, pos: nat, total: nat, acc: seq<nat>, cur: nat,
                                        count: nat)
    requires Complete(cl, 7) && cur < REP_3_6 && |acc| + count <= total
    requires Coding(cl, Copies(cur, count)) && At(bits, pos, SymsBits(cl, Copies(cur, count)))
    ensures Inflate.ReadLengths(cl, bits, pos, total, acc) ==
            Inflate.ReadLengths(cl, bits, pos + |SymsBits(cl, Copies(cur, count))|, total,
                                acc + Inflate.Repeat(cur, count))
    decreases count
  {
    hide Complete, SymBits, At, Inflate.ReadLengths;
    if count == 0 {
      assert acc + Inflate.Repeat(cur, 0) == acc;
    } else {
      var one, rest := [Sym(cur, 0)], Copies(cur, count - 1);
      CodingSplit(cl, one, rest);
      SymsBitsConcat(cl, one, rest);
      OneSym(cl, Sym(cur, 0));
      AtSplit(bits, pos, SymsBits(cl, one), SymsBits(cl, rest));
      assert Coding(cl, one) && one[0] == Sym(cur, 0);
      SymDecodes(cl, bits, pos, total, acc, Sym(cur, 0));
      CopiesDecode(cl, bits, pos + |SymsBits(cl, one)|, total, acc + [cur], cur, count - 1);
      assert acc + [cur] + Inflate.Repeat(cur, count - 1) == acc + Inflate.Repeat(cur, count);
    }
  }

  lemma OneSym(cl: seq<nat>, s: Sym)
    requires Coding(cl, [s])
    ensures |cl| == BL_CODES && ValidSym(s) && cl[s.code] >= 1 && SymsBits(cl, [s]) == SymBits(cl, s)
  {
    assert [s][..0] == [] && [s][0] == s;
  }

  /** A run comes back as sent, whichever of the forms it takes. */
  lemma ChunkDecodes(cl: seq<nat>, bits: seq<bool>, pos: nat, total: nat, acc: seq<nat>, prev: int, cur: nat,
                     count: nat)
    requires Complete(cl, 7) && cur < REP_3_6 && 1 <= count <= MaxCount(prev, cur) && |acc| + count <= total
    requires cur == prev ==> acc != [] && acc[|acc| - 1] == cur
    requires Coding(cl, Chunk(prev, cur, count)) && At(bits, pos, SymsBits(cl, Chunk(prev, cur, count)))
    ensures Inflate.ReadLengths(cl, bits, pos, total, acc) ==
            Inflate.ReadLengths(cl, bits, pos + |SymsBits(cl, Chunk(prev, cur, count))|, total,
                                acc + Inflate.Repeat(cur, count))
  {
    hide Complete, SymBits, At, Inflate.ReadLengths, SymsBits;
    var syms := Chunk(prev, cur, count);
    if count < MinCount(prev, cur) {
      CopiesDecode(cl, bits, pos, total, acc, cur, count);
    } else if cur != 0 && cur != prev {
      var a, b := syms[0], syms[1];
      assert syms == [a] + [b];
      CodingSplit(cl, [a], [b]);
      OneSym(cl, a);
      OneSym(cl, b);
      SymsBitsConcat(cl, [a], [b]);
      AtSplit(bits, pos, SymBits(cl, a), SymBits(cl, b));
      SymDecodes(cl, bits, pos, total, acc, a);
      SymDecodes(cl, bits, pos + |SymBits(cl, a)|, total, acc + [cur], b);
      assert acc + [cur] + Inflate.Repeat(cur, count - 1) == acc + Inflate.Repeat(cur, count);
    } else {
      OneSym(cl, syms[0]);
      assert syms == [syms[0]];
      SymDecodes(cl, bits, pos, total, acc, syms[0]);
    }
  }

  /** Whatever lengths were read before, reading what send_tree sends appends the lengths of the tree. */
  lemma {:induction false} EncodeDecodes(cl: seq<nat>, bits: seq<bool>, pos: nat, total: nat, pre: seq<nat>,
                                         lens: seq<nat>, n: nat, count: nat, prev: int)
    requires Complete(cl, 7) && Pending(lens, n, count, prev) && |pre| + |lens| <= total
    requires Coding(cl, Encode(lens, n, count, prev)) && At(bits, pos, SymsBits(cl, Encode(lens, n, count, prev)))
    ensures Inflate.ReadLengths(cl, bits, pos, total, pre + lens[..n - count]) ==
            Inflate.ReadLengths(cl, bits, pos + |SymsBits(cl, Encode(lens, n, count, prev))|, total, pre + lens)
    decreases |lens| - n
  {
    hide Complete, SymsBits, At, Inflate.ReadLengths, Coding, Pending, Chunk;
    var done := n - count;
    PendingBounds(lens, n, count, prev);
    if n == |lens| {
      assert lens[..done] == lens;
      NoSyms(cl);
    } else {
      PendingStep(lens, n, count, prev);
      if n + 1 < |lens| && lens[n] == lens[n + 1] && count + 1 < MaxCount(prev, lens[n]) {
        EncodeDecodes(cl, bits, pos, total, pre, lens, n + 1, count + 1, prev);
      } else {
        var chunk, rest := Chunk(prev, lens[n], count + 1), Encode(lens, n + 1, 0, lens[n]);
        CodingSplit(cl, chunk, rest);
        SymsBitsConcat(cl, chunk, rest);
        AtSplit(bits, pos, SymsBits(cl, chunk), SymsBits(cl, rest));
        PendingRun(pre, lens, n, count, prev);
        ChunkDecodes(cl, bits, pos, total, pre + lens[..done], prev, lens[n], count + 1);
        EncodeDecodes(cl, bits, pos + |SymsBits(cl, chunk)|, total, pre, lens, n + 1, 0, lens[n]);
      }
    }
  }

  lemma NoSyms(cl: seq<nat>)
    requires Coding(cl, [])
    ensures SymsBits(cl, []) == []
  {
  }

  lemma PendingBounds(lens: seq<nat>, n: nat, count: nat, prev: int)
    requires Pending(lens, n, count, prev)
    ensures count <= n <= |lens| && (n == |lens| ==> count == 0)
  {
  }

  lemma PendingRun(pre: seq<nat>, lens: seq<nat>, n: nat, count: nat, prev: int)
    requires Pending(lens, n, count, prev) && n < |lens|
    ensures pre + lens[..n - count] + Inflate.Repeat(lens[n], count + 1) == pre + lens[..n + 1]
    ensures prev == lens[n] ==> pre + lens[..n - count] != []
                                && (pre + lens[..n - count])[|pre| + n - count - 1] == lens[n]
  {
    var r := Inflate.Repeat(lens[n], count + 1);
    assert lens[n - count..n + 1] == r;
    assert lens[..n + 1] == lens[..n - count] + lens[n - count..n + 1];
  }
}
