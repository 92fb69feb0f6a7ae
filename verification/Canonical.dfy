/** The canonical prefix codes of section 3.2.2 of RFC 1951: a code is given by the
    lengths of its codewords alone. */
module Canonical {
  import opened Bits

  datatype Read<T> = Fail | Got(value: T, pos: nat)

  /** How many symbols have a codeword of b bits. */
  function CountLen(lens: seq<nat>, b: nat): (c: nat)
    ensures c <= |lens|
  {
    if lens == [] then 0 else CountLen(lens[..|lens| - 1], b) + (if lens[|lens| - 1] == b then 1 else 0)
  }

  /** Sum over b in 1..l of count[b] * 2^(l - b). */
  function Kraft(count: seq<nat>, l: nat): nat
    requires l < |count|
  {
    if l == 0 then 0 else 2 * Kraft(count, l - 1) + count[l]
  }

  function Counts(lens: seq<nat>, max: nat): (c: seq<nat>)
    ensures |c| == max + 1
  {
    seq(max + 1, b requires 0 <= b <= max => CountLen(lens, b))
  }

  function KraftSum(lens: seq<nat>, l: nat): nat
  {
    if l == 0 then 0 else 2 * KraftSum(lens, l - 1) + CountLen(lens, l)
  }

  lemma {:induction false} KraftSumIsKraft(lens: seq<nat>, max: nat, l: nat)
    requires l <= max
    ensures KraftSum(lens, l) == Kraft(Counts(lens, max), l)
  {
    if l != 0 { KraftSumIsKraft(lens, max, l - 1); }
  }

  /** A code that uses up the whole space of `max`-bit strings. */
  predicate Complete(lens: seq<nat>, max: nat)
  {
    && (forall i | 0 <= i < |lens| :: lens[i] <= max)
    && KraftSum(lens, max) == Pow2(max)
  }

  /** The numerically smallest codeword of b bits. */
  function FirstCode(lens: seq<nat>, b: nat): nat
  {
    if b == 0 then 0 else 2 * KraftSum(lens, b - 1)
  }

  function Code(lens: seq<nat>, s: nat): nat
    requires s < |lens|
  {
    FirstCode(lens, lens[s]) + CountLen(lens[..s], lens[s])
  }

  /** The n low bits of c, most significant first. */
  function MsbBits(c: nat, n: nat): (s: seq<bool>)
    ensures |s| == n
  {
    if n == 0 then [] else MsbBits(c / 2, n - 1) + [c % 2 == 1]
  }

  function Codeword(lens: seq<nat>, s: nat): (r: seq<bool>)
    requires s < |lens|
    ensures |r| == lens[s]
  {
    MsbBits(Code(lens, s), lens[s])
  }

  // ---------- reading a codeword ----------

  /** The first symbol from `s` on whose codeword is the l-bit number v. */
  function FindSymbol(lens: seq<nat>, l: nat, v: nat, s: nat): (r: Read<nat>)
    requires s <= |lens|
    ensures r.Got? ==> s <= r.value < |lens| && lens[r.value] == l && Code(lens, r.value) == v
    ensures r.Fail? ==> forall i | s <= i < |lens| :: lens[i] == l ==> Code(lens, i) != v
    decreases |lens| - s
  {
    if s == |lens| then Fail
    else if lens[s] == l && Code(lens, s) == v then Got(s, 0)
    else FindSymbol(lens, l, v, s + 1)
  }

  /** Reads bits until they form a codeword; l bits with value v have been read. */
  function DecodeFrom(lens: seq<nat>, max: nat, bits: seq<bool>, pos: nat, l: nat, v: nat): (r: Read<nat>)
    requires l <= max && pos + l <= |bits|
    ensures r.Got? ==> pos < r.pos <= |bits| && r.value < |lens|
    decreases max - l
  {
    var found := if l == 0 then Fail else FindSymbol(lens, l, v, 0);
    if found.Got? then Got(found.value, pos + l)
    else if l == max || pos + l == |bits| then Fail
    else DecodeFrom(lens, max, bits, pos, l + 1, 2 * v + (if bits[pos + l] then 1 else 0))
  }

  function DecodeSymbol(lens: seq<nat>, max: nat, bits: seq<bool>, pos: nat): (r: Read<nat>)
    ensures r.Got? ==> pos < r.pos <= |bits| && r.value < |lens|
  {
    if pos > |bits| then Fail else DecodeFrom(lens, max, bits, pos, 0, 0)
  }

  /** The chunk sits in the stream at pos. */
  predicate At(bits: seq<bool>, pos: nat, chunk: seq<bool>)
  {
    pos + |chunk| <= |bits| && bits[pos..pos + |chunk|] == chunk
  }

  lemma AtSplit(bits: seq<bool>, pos: nat, a: seq<bool>, b: seq<bool>)
    requires At(bits, pos, a + b)
    ensures At(bits, pos, a) && At(bits, pos + |a|, b)
  {
    var c := bits[pos..pos + |a + b|];
    assert c[..|a|] == a && c[|a|..] == b;
    assert bits[pos..pos + |a|] == c[..|a|];
    assert bits[pos + |a|..pos + |a| + |b|] == c[|a|..];
  }

  // ---------- why reading works ----------

  lemma {:induction false} CountLenMonotone(lens: seq<nat>, s: nat, t: nat, b: nat)
    requires s <= t <= |lens|
    ensures CountLen(lens[..s], b) <= CountLen(lens[..t], b)
    decreases t
  {
    if s < t {
      CountLenMonotone(lens, s, t - 1, b);
      assert lens[..t][..t - 1] == lens[..t - 1];
    }
  }

  /** Codewords of one length are numbered in symbol order, without gaps. */
  lemma RankIncreases(lens: seq<nat>, s: nat, t: nat)
    requires s < t <= |lens|
    ensures CountLen(lens[..s], lens[s]) < CountLen(lens[..t], lens[s])
  {
    assert lens[..s + 1][..s] == lens[..s];
    CountLenMonotone(lens, s + 1, t, lens[s]);
  }

  lemma CodeBelow(lens: seq<nat>, s: nat)
    requires s < |lens| && lens[s] > 0
    ensures Code(lens, s) < KraftSum(lens, lens[s])
  {
    RankIncreases(lens, s, |lens|);
    assert lens[..|lens|] == lens;
  }

  /** In a complete code every codeword fits its length. */
  lemma {:induction false} KraftFits(lens: seq<nat>, l: nat, max: nat)
    requires l <= max && KraftSum(lens, max) <= Pow2(max)
    ensures KraftSum(lens, l) <= Pow2(l)
    decreases max - l
  {
    if l < max { KraftFits(lens, l + 1, max); }
  }

  lemma {:induction false} ShrMonotone(a: nat, b: nat, k: nat)
    requires a <= b
    ensures Shr(a, k) <= Shr(b, k)
  {
    if k != 0 { ShrMonotone(a / 2, b / 2, k - 1); }
  }

  lemma {:induction false} ShrLast(v: nat, k: nat)
    ensures Shr(v, k + 1) == Shr(v, k) / 2
  {
    if k != 0 { ShrLast(v / 2, k - 1); }
  }

  /** No shorter codeword begins a longer one: its prefix is past the shorter ones. */
  lemma {:induction false} PrefixPast(lens: seq<nat>, l: nat, k: nat)
    requires k > 0
    ensures KraftSum(lens, l) <= Shr(FirstCode(lens, l + k), k)
  {
    if k == 1 {
      assert Shr(FirstCode(lens, l + 1), 1) == Shr(FirstCode(lens, l + 1) / 2, 0);
    } else {
      PrefixPast(lens, l, k - 1);
      ShrMonotone(FirstCode(lens, l + k - 1), FirstCode(lens, l + k) / 2, k - 1);
    }
  }

  lemma {:induction false} MsbBitsAt(c: nat, n: nat, i: nat)
    requires i < n
    ensures MsbBits(c, n)[i] == (Shr(c, n - 1 - i) % 2 == 1)
  {
    if i < n - 1 { MsbBitsAt(c / 2, n - 1, i); }
  }

  lemma {:induction false} DecodeFromCodeword(lens: seq<nat>, max: nat, bits: seq<bool>, pos: nat, s: nat, l: nat)
    requires s < |lens| && 0 < lens[s] <= max && l <= lens[s]
    requires At(bits, pos, Codeword(lens, s))
    ensures DecodeFrom(lens, max, bits, pos, l, Shr(Code(lens, s), lens[s] - l)) == Got(s, pos + lens[s])
    decreases lens[s] - l
  {
    hide At, MsbBits, CountLen, KraftSum, Shr, FirstCode;
    var c, len := Code(lens, s), lens[s];
    var v := Shr(c, len - l);
    if l == len {
      assert v == c by { ShrZero(c); }
      var found := FindSymbol(lens, len, c, 0);
      if found.Got? && found.value < s { RankIncreases(lens, found.value, s); }
      if found.Got? && s < found.value { RankIncreases(lens, s, found.value); }
    } else {
      if l > 0 {
        NoShorterCodeword(lens, s, l);
      }
      assert bits[pos + l] == (Shr(c, len - 1 - l) % 2 == 1) && pos + l < |bits| by {
        CodewordBit(lens, bits, pos, s, l);
      }
      ShrLast(c, len - l - 1);
      assert len - l == len - l - 1 + 1;
      assert len - (l + 1) == len - 1 - l;
      DecodeFromCodeword(lens, max, bits, pos, s, l + 1);
    }
  }

  lemma ShrZero(c: nat)
    ensures Shr(c, 0) == c
  {
  }

  lemma CodewordBit(lens: seq<nat>, bits: seq<bool>, pos: nat, s: nat, l: nat)
    requires s < |lens| && l < lens[s] && At(bits, pos, Codeword(lens, s))
    ensures pos + l < |bits| && bits[pos + l] == (Shr(Code(lens, s), lens[s] - 1 - l) % 2 == 1)
  {
    hide Code, MsbBits;
    MsbBitsAt(Code(lens, s), lens[s], l);
    assert bits[pos + l] == bits[pos..pos + lens[s]][l];
  }

  lemma NoShorterCodeword(lens: seq<nat>, s: nat, l: nat)
    requires s < |lens| && 0 < l < lens[s]
    ensures FindSymbol(lens, l, Shr(Code(lens, s), lens[s] - l), 0).Fail?
  {
    hide CountLen, KraftSum, Shr, FirstCode;
    var k := lens[s] - l;
    PrefixPast(lens, l, k);
    assert l + k == lens[s];
    ShrMonotone(FirstCode(lens, lens[s]), Code(lens, s), k);
    var found := FindSymbol(lens, l, Shr(Code(lens, s), k), 0);
    if found.Got? { CodeBelow(lens, found.value); }
  }

  /** A codeword in the stream is read as its own symbol, whatever follows it. */
  lemma DecodeCodeword(lens: seq<nat>, max: nat, bits: seq<bool>, pos: nat, s: nat)
    requires Complete(lens, max) && s < |lens| && lens[s] > 0
    requires At(bits, pos, Codeword(lens, s))
    ensures DecodeSymbol(lens, max, bits, pos) == Got(s, pos + lens[s])
  {
    hide Code, MsbBits;
    var c, len := Code(lens, s), lens[s];
    assert c < Pow2(len) by { CodeBelow(lens, s); KraftFits(lens, len, max); }
    assert Shr(c, len) == 0 by { ShrOfSum(c, 0, len); ShlZero(len); }
    DecodeFromCodeword(lens, max, bits, pos, s, 0);
    assert len - 0 == len;
  }

  /** Distinct symbols have codewords neither of which begins the other. */
  lemma PrefixFree(lens: seq<nat>, max: nat, s: nat, t: nat)
    requires Complete(lens, max) && s < |lens| && t < |lens| && s != t && lens[s] > 0 && lens[t] > 0
    ensures !(Codeword(lens, s) <= Codeword(lens, t))
  {
    if Codeword(lens, s) <= Codeword(lens, t) {
      var bits := Codeword(lens, t);
      DecodeCodeword(lens, max, bits, 0, s);
      DecodeCodeword(lens, max, bits, 0, t);
    }
  }
}
