/** The header of a dynamic block: what send_all_trees sends and what the decoder makes of it. */
module BlockHeader {
  import opened Bits
  import opened Canonical
  import opened RunLength
  import opened TreeCoding
  import Inflate

  /** The lengths of the code length code, in the order of the format. */
  ghost function OrderBits(cl: seq<nat>, n: nat): seq<bool>
    requires |cl| == BL_CODES && n <= BL_CODES
  {
    if n == 0 then [] else OrderBits(cl, n - 1) + BitsOf(cl[Inflate.CodeLengthOrder(n - 1)], 3)
  }

  lemma {:induction false} OrderBitsLength(cl: seq<nat>, n: nat)
    requires |cl| == BL_CODES && n <= BL_CODES
    ensures |OrderBits(cl, n)| == 3 * n
  {
    if n != 0 { OrderBitsLength(cl, n - 1); }
  }

  ghost function HeaderBits(ll: seq<nat>, dl: seq<nat>, cl: seq<nat>, ncl: nat): seq<bool>
    requires |ll| >= 257 && |dl| >= 1 && 4 <= ncl <= BL_CODES
    requires Coding(cl, Symbols(ll) + Symbols(dl))
  {
    BitsOf(|ll| - 257, 5) + (BitsOf(|dl| - 1, 5) + (BitsOf(ncl - 4, 4)
      + (OrderBits(cl, ncl) + SymsBits(cl, Symbols(ll) + Symbols(dl)))))
  }

  /** Lengths that are not among the first n of the order are 0. */
  ghost predicate Trimmed(cl: seq<nat>, n: nat)
  {
    && |cl| == BL_CODES && n <= BL_CODES && (forall i | 0 <= i < BL_CODES :: cl[i] <= 7)
    && forall i | n <= i < BL_CODES :: cl[Inflate.CodeLengthOrder(i)] == 0
  }

  /** The lengths read so far. */
  ghost function Partly(cl: seq<nat>, n: nat): (r: seq<nat>)
    requires |cl| == BL_CODES && n <= BL_CODES
    ensures |r| == BL_CODES
  {
    if n == 0 then seq(BL_CODES, _ => 0)
    else var c := Inflate.CodeLengthOrder(n - 1); Partly(cl, n - 1)[c := cl[c]]
  }

  lemma {:induction false} OrderReads(cl: seq<nat>, bits: seq<bool>, pos: nat, n: nat)
    requires |cl| == BL_CODES && n <= BL_CODES && (forall i | 0 <= i < BL_CODES :: cl[i] <= 7)
    requires pos <= |bits| && At(bits, pos, OrderBits(cl, n))
    ensures Inflate.ReadCodeLengthCode(bits, pos, n) == Got(Partly(cl, n), pos + |OrderBits(cl, n)|)
  {
    hide At, BitsOf, Pow2, Inflate.CodeLengthOrder, Inflate.ReadBits;
    if n != 0 {
      var c := Inflate.CodeLengthOrder(n - 1);
      AtSplit(bits, pos, OrderBits(cl, n - 1), BitsOf(cl[c], 3));
      OrderReads(cl, bits, pos, n - 1);
      Pow2Values();
      ReadField(bits, pos + |OrderBits(cl, n - 1)|, cl[c], 3);
    }
  }

  /** Every symbol has its place in the order. */
  lemma OrderInverse(c: nat) returns (i: nat)
    requires c < BL_CODES
    ensures i < BL_CODES && Inflate.CodeLengthOrder(i) == c
  {
    i := [3, 17, 15, 13, 11, 9, 7, 5, 4, 6, 8, 10, 12, 14, 16, 18, 0, 1, 2][c];
  }

  lemma OrderInjective(i: nat, j: nat)
    requires i < j < BL_CODES
    ensures Inflate.CodeLengthOrder(i) != Inflate.CodeLengthOrder(j)
  {
  }

  lemma {:induction false} PartlyAt(cl: seq<nat>, n: nat, i: nat)
    requires |cl| == BL_CODES && n <= BL_CODES && i < BL_CODES
    ensures var c := Inflate.CodeLengthOrder(i); Partly(cl, n)[c] == if i < n then cl[c] else 0
  {
    hide Inflate.CodeLengthOrder;
    if n != 0 {
      PartlyAt(cl, n - 1, i);
      if i < n - 1 { OrderInjective(i, n - 1); }
      if n - 1 < i { OrderInjective(n - 1, i); }
    }
  }

  lemma PartlyWhole(cl: seq<nat>, n: nat)
    requires Trimmed(cl, n)
    ensures Partly(cl, n) == cl
  {
    forall c | 0 <= c < BL_CODES
      ensures Partly(cl, n)[c] == cl[c]
    {
      var i := OrderInverse(c);
      PartlyAt(cl, n, i);
    }
  }

  /** Reading the lengths of both trees, one after the other, as one list. */
  lemma LengthsRead(ll: seq<nat>, dl: seq<nat>, cl: seq<nat>, bits: seq<bool>, pos: nat)
    requires Complete(cl, 7) && Coding(cl, Symbols(ll) + Symbols(dl))
    requires Complete(ll, Inflate.MAX_BITS) && Complete(dl, Inflate.MAX_BITS)
    requires pos <= |bits| && At(bits, pos, SymsBits(cl, Symbols(ll) + Symbols(dl)))
    ensures Inflate.ReadLengths(cl, bits, pos, |ll| + |dl|, []) ==
            Got(ll + dl, pos + |SymsBits(cl, Symbols(ll) + Symbols(dl))|)
  {
    hide Complete, Coding, At, SymsBits, Encode, Inflate.ReadLengths, Pending;
    CompleteBounds(ll, Inflate.MAX_BITS);
    CompleteBounds(dl, Inflate.MAX_BITS);
    var a, b := Symbols(ll), Symbols(dl);
    CodingSplit(cl, a, b);
    SymsBitsConcat(cl, a, b);
    AtSplit(bits, pos, SymsBits(cl, a), SymsBits(cl, b));
    PendingStart(ll);
    PendingStart(dl);
    EncodeDecodes(cl, bits, pos, |ll| + |dl|, [], ll, 0, 0, -1);
    EncodeDecodes(cl, bits, pos + |SymsBits(cl, a)|, |ll| + |dl|, ll, dl, 0, 0, -1);
    assert [] + ll[..0] == [] && [] + ll == ll && ll + dl[..0] == ll;
    AllRead(cl, bits, pos + |SymsBits(cl, a)| + |SymsBits(cl, b)|, ll + dl);
  }

  lemma AllRead(cl: seq<nat>, bits: seq<bool>, pos: nat, lens: seq<nat>)
    ensures Inflate.ReadLengths(cl, bits, pos, |lens|, lens) == Got(lens, pos)
  {
  }

  /** The decoder reads both codes back from the header. */
  lemma HeaderReads(ll: seq<nat>, dl: seq<nat>, cl: seq<nat>, ncl: nat, bits: seq<bool>, pos: nat)
    requires 257 <= |ll| <= 286 && 1 <= |dl| <= 30 && 4 <= ncl <= BL_CODES && Trimmed(cl, ncl)
    requires Complete(ll, Inflate.MAX_BITS) && Complete(dl, Inflate.MAX_BITS) && Complete(cl, 7)
    requires ll[Inflate.END_OF_BLOCK] >= 1 && Coding(cl, Symbols(ll) + Symbols(dl))
    requires pos <= |bits| && At(bits, pos, HeaderBits(ll, dl, cl, ncl))
    ensures Inflate.ReadDynamicCodes(bits, pos) == Got((ll, dl), pos + |HeaderBits(ll, dl, cl, ncl)|)
  {
    hide Coding, At, SymsBits, BitsOf, OrderBits, Encode, Symbols, Inflate.ReadBits, Inflate.ReadLengths, Complete;
    hide Pow2, Trimmed;
    hide Inflate.ReadCodeLengthCode, Inflate.ReadCodes;
    TrimmedBounds(cl, ncl);
    var f1, f2, f3 := BitsOf(|ll| - 257, 5), BitsOf(|dl| - 1, 5), BitsOf(ncl - 4, 4);
    var order, lens := OrderBits(cl, ncl), SymsBits(cl, Symbols(ll) + Symbols(dl));
    AtSplit(bits, pos, f1, f2 + (f3 + (order + lens)));
    AtSplit(bits, pos + 5, f2, f3 + (order + lens));
    AtSplit(bits, pos + 10, f3, order + lens);
    Pow2Values();
    ReadField(bits, pos, |ll| - 257, 5);
    ReadField(bits, pos + 5, |dl| - 1, 5);
    ReadField(bits, pos + 10, ncl - 4, 4);
    AtInside(bits, pos + 14, order + lens);
    CodesRead(ll, dl, cl, ncl, bits, pos + 14);
  }

  lemma AtInside(bits: seq<bool>, pos: nat, chunk: seq<bool>)
    requires At(bits, pos, chunk)
    ensures pos + |chunk| <= |bits|
  {
  }

  lemma CodesRead(ll: seq<nat>, dl: seq<nat>, cl: seq<nat>, ncl: nat, bits: seq<bool>, pos: nat)
    requires 257 <= |ll| <= 286 && 1 <= |dl| <= 30 && 4 <= ncl <= BL_CODES && Trimmed(cl, ncl)
    requires Complete(ll, Inflate.MAX_BITS) && Complete(dl, Inflate.MAX_BITS) && Complete(cl, 7)
    requires ll[Inflate.END_OF_BLOCK] >= 1 && Coding(cl, Symbols(ll) + Symbols(dl)) && pos <= |bits|
    requires At(bits, pos, OrderBits(cl, ncl) + SymsBits(cl, Symbols(ll) + Symbols(dl)))
    ensures Inflate.ReadCodes(bits, pos, |ll|, |dl|, ncl) ==
            Got((ll, dl), pos + |OrderBits(cl, ncl)| + |SymsBits(cl, Symbols(ll) + Symbols(dl))|)
  {
    hide Complete, Coding, At, SymsBits, BitsOf, OrderBits, Encode, Symbols, Inflate.ReadLengths;
    hide Inflate.ReadCodeLengthCode, Partly;
    hide Trimmed;
    TrimmedBounds(cl, ncl);
    var order, lens := OrderBits(cl, ncl), SymsBits(cl, Symbols(ll) + Symbols(dl));
    AtSplit(bits, pos, order, lens);
    AtInside(bits, pos, order);
    OrderReads(cl, bits, pos, ncl);
    PartlyWhole(cl, ncl);
    LengthsRead(ll, dl, cl, bits, pos + |order|);
    SplitBack(ll, dl);
  }

  lemma SplitBack(a: seq<nat>, b: seq<nat>)
    ensures (a + b)[..|a|] == a && (a + b)[|a|..] == b
  {
  }

  lemma CompleteBounds(lens: seq<nat>, max: nat)
    requires Complete(lens, max)
    ensures forall i | 0 <= i < |lens| :: lens[i] <= max
  {
  }

  lemma TrimmedBounds(cl: seq<nat>, n: nat)
    requires Trimmed(cl, n)
    ensures |cl| == BL_CODES && forall i | 0 <= i < BL_CODES :: cl[i] <= 7
  {
  }

  // ---------- the number of code length codes ----------

  /** Some symbol that is sent is a length itself. */
  ghost predicate HasLength(syms: seq<Sym>)
  {
    exists i :: 0 <= i < |syms| && 1 <= syms[i].code < REP_3_6
  }

  lemma HasLengthConcat(a: seq<Sym>, b: seq<Sym>)
    requires HasLength(a) || HasLength(b)
    ensures HasLength(a + b)
  {
    if HasLength(a) {
      var i :| 0 <= i < |a| && 1 <= a[i].code < REP_3_6;
      assert (a + b)[i] == a[i];
    } else {
      var i :| 0 <= i < |b| && 1 <= b[i].code < REP_3_6;
      assert (a + b)[|a| + i] == b[i];
    }
  }

  /** The first length that is not 0 is sent as it is. */
  lemma {:induction false} FirstLengthSent(lens: seq<nat>, n: nat, count: nat, prev: int, k: nat)
    requires Pending(lens, n, count, prev) && prev <= 0 && n - count <= k < |lens| && lens[k] >= 1
    ensures HasLength(Encode(lens, n, count, prev))
    decreases |lens| - n
  {
    if n < |lens| {
      PendingStep(lens, n, count, prev);
      if n + 1 < |lens| && lens[n] == lens[n + 1] && count + 1 < MaxCount(prev, lens[n]) {
        FirstLengthSent(lens, n + 1, count + 1, prev, k);
      } else {
        var chunk, rest := Chunk(prev, lens[n], count + 1), Encode(lens, n + 1, 0, lens[n]);
        if lens[n] >= 1 {
          assert chunk[0] == Sym(lens[n], 0);
        } else {
          FirstLengthSent(lens, n + 1, 0, 0, k);
        }
        HasLengthConcat(chunk, rest);
      }
    }
  }

  /** All repeat counts are in range. */
  lemma ChunkValid(prev: int, cur: nat, count: nat)
    requires 1 <= count <= MaxCount(prev, cur) && cur < REP_3_6
    ensures forall i | 0 <= i < |Chunk(prev, cur, count)| :: ValidSym(Chunk(prev, cur, count)[i])
  {
    hide Copies;
    CopiesAt(cur, count);
    Pow2Values();
  }

  lemma {:induction false} EncodeValid(lens: seq<nat>, n: nat, count: nat, prev: int)
    requires Pending(lens, n, count, prev)
    ensures forall i | 0 <= i < |Encode(lens, n, count, prev)| :: ValidSym(Encode(lens, n, count, prev)[i])
    decreases |lens| - n
  {
    hide Pending, Chunk, ValidSym;
    PendingBounds(lens, n, count, prev);
    if n < |lens| {
      PendingStep(lens, n, count, prev);
      if n + 1 < |lens| && lens[n] == lens[n + 1] && count + 1 < MaxCount(prev, lens[n]) {
        EncodeValid(lens, n + 1, count + 1, prev);
      } else {
        ChunkValid(prev, lens[n], count + 1);
        EncodeValid(lens, n + 1, 0, lens[n]);
      }
    }
  }

  /** Every repeat count that send_tree sends fits its field. */
  lemma SymbolsValid(lens: seq<nat>)
    requires forall i | 0 <= i < |lens| :: lens[i] <= Inflate.MAX_BITS
    ensures forall i | 0 <= i < |Symbols(lens)| :: ValidSym(Symbols(lens)[i])
  {
    hide Encode, ValidSym, Pending;
    PendingStart(lens);
    EncodeValid(lens, 0, 0, -1);
  }
}
