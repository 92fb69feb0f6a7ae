/** Literals and matches: what they expand to, the bits that carry them, and the proof that the
    decoder gets them back. */
module Tokens {
  import opened Bits
  import opened Canonical
  import opened RunLength
  import Inflate

  const MIN_MATCH := 3
  const MAX_MATCH := 258
  /** Matches are limited to this distance, short of the window size. */
  const MAX_DIST := 0x8000 - (MAX_MATCH + MIN_MATCH + 1)
  const LITERALS := 256
  const D_CODES := 30
  const LENGTH_CODES := 29

  datatype Token = Literal(b: byte) | Match(len: nat, dist: nat)

  ghost predicate ValidToken(t: Token)
  {
    t.Match? ==> MIN_MATCH <= t.len <= MAX_MATCH && 1 <= t.dist <= MAX_DIST
  }

  // ---------- length and distance codes ----------

  /** The last code from c down that starts no later than len. */
  ghost function LengthCodeFrom(len: nat, c: nat): (r: nat)
    requires c < LENGTH_CODES
    ensures r <= c
  {
    if c == 0 || Inflate.LengthBase(c) <= len then c else LengthCodeFrom(len, c - 1)
  }

  ghost function LengthCode(len: nat): (r: nat)
    ensures r < LENGTH_CODES
  {
    LengthCodeFrom(len, LENGTH_CODES - 1)
  }

  ghost function DistCodeFrom(dist: nat, c: nat): (r: nat)
    requires c < D_CODES
    ensures r <= c
  {
    if c == 0 || Inflate.DistBase(c) <= dist then c else DistCodeFrom(dist, c - 1)
  }

  ghost function DistCode(dist: nat): (r: nat)
    ensures r < D_CODES
  {
    DistCodeFrom(dist, D_CODES - 1)
  }

  /** Codes follow each other without gaps; only the last length has a code of its own. */
  lemma LengthCodeNext(c: nat)
    requires c < LENGTH_CODES - 1
    ensures Inflate.LengthBase(c) + Pow2(Inflate.LengthExtra(c)) == if c == 27 then 259 else Inflate.LengthBase(c + 1)
    ensures Inflate.LengthBase(c) < Inflate.LengthBase(c + 1)
  {
    hide Inflate.LengthBase, Inflate.LengthExtra, Pow2;
    Pow2Values();
    LengthExtraRow(c);
    LengthRow(c);
    LengthRow(c + 1);
  }

  /** The tables of lengths in closed form: four codes for each number of extra bits. */
  lemma LengthExtraRow(c: nat)
    requires c < LENGTH_CODES
    ensures Inflate.LengthExtra(c) == if c < 8 || c == 28 then 0 else c / 4 - 1
  {
  }

  lemma LengthRow(c: nat)
    requires c < LENGTH_CODES
    ensures Inflate.LengthBase(c) ==
            if c < 8 then c + 3 else if c < 12 then 2 * c - 5 else if c < 16 then 4 * c - 29
              else if c < 20 then 8 * c - 93
            else if c < 24 then 16 * c - 253 else if c < 28 then 32 * c - 637 else 258
  {
  }

  lemma DistCodeNext(c: nat)
    requires c < D_CODES
    ensures Inflate.DistBase(c) + Pow2(Inflate.DistExtra(c)) == if c == 29 then 32769 else Inflate.DistBase(c + 1)
  {
    Pow2Values();
  }

  lemma FirstBases()
    ensures Inflate.LengthBase(0) == 3 && Inflate.DistBase(0) == 1
  {
  }

  lemma {:induction false} LengthCodeFound(len: nat, c: nat)
    requires MIN_MATCH <= len && c < LENGTH_CODES
    ensures var r := LengthCodeFrom(len, c); Inflate.LengthBase(r) <= len && (r < c ==> len < Inflate.LengthBase(r + 1))
  {
    hide Inflate.LengthBase, Inflate.DistBase;
    FirstBases();
    if c != 0 { LengthCodeFound(len, c - 1); }
  }

  lemma {:induction false} DistCodeFound(dist: nat, c: nat)
    requires 1 <= dist && c < D_CODES
    ensures var r := DistCodeFrom(dist, c); Inflate.DistBase(r) <= dist && (r < c ==> dist < Inflate.DistBase(r + 1))
  {
    hide Inflate.LengthBase, Inflate.DistBase;
    FirstBases();
    if c != 0 { DistCodeFound(dist, c - 1); }
  }

  /** What is left of a length after its code fits into the extra bits. */
  lemma LengthFits(len: nat)
    requires MIN_MATCH <= len <= MAX_MATCH
    ensures var c := LengthCode(len);
            Inflate.LengthBase(c) <= len < Inflate.LengthBase(c) + Pow2(Inflate.LengthExtra(c))
  {
    hide Inflate.LengthBase, Inflate.LengthExtra;
    var c := LengthCode(len);
    LengthCodeFound(len, LENGTH_CODES - 1);
    if c < LENGTH_CODES - 1 {
      LengthCodeNext(c);
      LastLengthBase();
    } else {
      LastLengthBase();
    }
  }

  lemma LastLengthBase()
    ensures Inflate.LengthBase(27) == 227 && Inflate.LengthBase(28) == 258 && Inflate.LengthExtra(28) == 0
  {
  }

  lemma DistFits(dist: nat)
    requires 1 <= dist <= 0x8000
    ensures var c := DistCode(dist); Inflate.DistBase(c) <= dist < Inflate.DistBase(c) + Pow2(Inflate.DistExtra(c))
  {
    hide Inflate.DistBase, Inflate.DistExtra;
    var c := DistCode(dist);
    DistCodeFound(dist, D_CODES - 1);
    DistCodeNext(c);
  }

  lemma {:induction false} LengthCodeIs(len: nat, c: nat, from: nat)
    requires c <= from < LENGTH_CODES && Inflate.LengthBase(c) <= len
    requires forall k | c < k <= from :: len < Inflate.LengthBase(k)
    ensures LengthCodeFrom(len, from) == c
  {
    hide Inflate.LengthBase;
    if c < from { LengthCodeIs(len, c, from - 1); }
  }

  lemma {:induction false} DistCodeIs(dist: nat, c: nat, from: nat)
    requires c <= from < D_CODES && Inflate.DistBase(c) <= dist
    requires forall k | c < k <= from :: dist < Inflate.DistBase(k)
    ensures DistCodeFrom(dist, from) == c
  {
    hide Inflate.DistBase;
    if c < from { DistCodeIs(dist, c, from - 1); }
  }

  // ---------- bits of tokens ----------

  ghost function LitSymbol(t: Token): nat
  {
    if t.Literal? then t.b else LITERALS + 1 + LengthCode(t.len)
  }

  /** The codes have codewords for a token. */
  ghost predicate Encodable(ll: seq<nat>, dl: seq<nat>, t: Token)
  {
    && ValidToken(t) && LitSymbol(t) < |ll| && ll[LitSymbol(t)] >= 1
    && (t.Match? ==> DistCode(t.dist) < |dl| && dl[DistCode(t.dist)] >= 1)
  }

  ghost function LengthBits(len: nat): seq<bool>
    requires MIN_MATCH <= len
  {
    var c := LengthCode(len);
    LengthCodeFound(len, LENGTH_CODES - 1);
    BitsOf(len - Inflate.LengthBase(c), Inflate.LengthExtra(c))
  }

  ghost function DistBits(dist: nat): seq<bool>
    requires 1 <= dist
  {
    var c := DistCode(dist);
    DistCodeFound(dist, D_CODES - 1);
    BitsOf(dist - Inflate.DistBase(c), Inflate.DistExtra(c))
  }

  ghost function TokenBits(ll: seq<nat>, dl: seq<nat>, t: Token): seq<bool>
    requires Encodable(ll, dl, t)
  {
    if t.Literal? then Codeword(ll, LitSymbol(t))
    else Codeword(ll, LitSymbol(t)) + (LengthBits(t.len) + (Codeword(dl, DistCode(t.dist)) + DistBits(t.dist)))
  }

  ghost predicate AllEncodable(ll: seq<nat>, dl: seq<nat>, tokens: seq<Token>)
  {
    forall i | 0 <= i < |tokens| :: Encodable(ll, dl, tokens[i])
  }

  ghost function TokensBits(ll: seq<nat>, dl: seq<nat>, tokens: seq<Token>): seq<bool>
    requires AllEncodable(ll, dl, tokens)
  {
    if tokens == [] then []
    else TokensBits(ll, dl, tokens[..|tokens| - 1]) + TokenBits(ll, dl, tokens[|tokens| - 1])
  }

  // ---------- what tokens stand for ----------

  ghost function ExpandOne(out: seq<byte>, t: Token): (r: seq<byte>)
    ensures out <= r
  {
    if t.Literal? then out + [t.b]
    else if 1 <= t.dist <= |out| then Inflate.CopyMatch(out, t.len, t.dist)
    else out
  }

  /** The data after the tokens when `out` was there before. */
  ghost function Expand(tokens: seq<Token>, out: seq<byte>): (r: seq<byte>)
    ensures out <= r
  {
    if tokens == [] then out
    else ExpandOne(Expand(tokens[..|tokens| - 1], out), tokens[|tokens| - 1])
  }

  /** No match goes back further than the start of the data. */
  ghost predicate Reachable(tokens: seq<Token>, out: seq<byte>)
  {
    tokens == [] ||
    (var rest, t := tokens[..|tokens| - 1], tokens[|tokens| - 1];
     Reachable(rest, out) && (t.Match? ==> 1 <= t.dist <= |Expand(rest, out)|))
  }

  lemma Push(tokens: seq<Token>, t: Token, out: seq<byte>)
    ensures Expand(tokens + [t], out) == ExpandOne(Expand(tokens, out), t)
    ensures Reachable(tokens + [t], out) <==>
            Reachable(tokens, out) && (t.Match? ==> 1 <= t.dist <= |Expand(tokens, out)|)
  {
    assert (tokens + [t])[..|tokens|] == tokens;
  }

  lemma LitSymbolRange(t: Token)
    requires ValidToken(t)
    ensures t.Literal? ==> LitSymbol(t) < LITERALS
    ensures t.Match? ==> LITERALS < LitSymbol(t) <= 285
  {
  }

  /** The decoder reads the length and distance of a match. */
  lemma MatchReads(ll: seq<nat>, dl: seq<nat>, bits: seq<bool>, pos: nat, len: nat, dist: nat)
    requires Encodable(ll, dl, Match(len, dist)) && Complete(dl, Inflate.MAX_BITS)
    requires At(bits, pos, LengthBits(len) + (Codeword(dl, DistCode(dist)) + DistBits(dist)))
    ensures Inflate.ReadMatch(LengthCode(len), dl, bits, pos) ==
            Got((len, dist), pos + |LengthBits(len) + (Codeword(dl, DistCode(dist)) + DistBits(dist))|)
  {
    hide Complete, At, Codeword, Pow2, BitsOf, DecodeSymbol, Inflate.ReadBits, Inflate.LengthBase, Inflate.DistBase;
    hide Inflate.LengthExtra, Inflate.DistExtra, DistCode, LengthCode;
    var l, d := LengthCode(len), DistCode(dist);
    var field, word := LengthBits(len), Codeword(dl, d);
    LengthFits(len);
    DistFits(dist);
    AtSplit(bits, pos, field, word + DistBits(dist));
    AtSplit(bits, pos + |field|, word, DistBits(dist));
    ReadField(bits, pos, len - Inflate.LengthBase(l), Inflate.LengthExtra(l));
    DecodeCodeword(dl, Inflate.MAX_BITS, bits, pos + |field|, d);
    ReadField(bits, pos + |field| + |word|, dist - Inflate.DistBase(d), Inflate.DistExtra(d));
  }

  lemma TokenReads(ll: seq<nat>, dl: seq<nat>, bits: seq<bool>, pos: nat, out: seq<byte>, t: Token)
    requires Complete(ll, Inflate.MAX_BITS) && Complete(dl, Inflate.MAX_BITS) && Encodable(ll, dl, t)
    requires (t.Match? ==> t.dist <= |out|) && At(bits, pos, TokenBits(ll, dl, t))
    ensures Inflate.InflateCodes(ll, dl, bits, pos, out) ==
            Inflate.InflateCodes(ll, dl, bits, pos + |TokenBits(ll, dl, t)|, ExpandOne(out, t))
  {
    hide Complete, At, Codeword, DecodeSymbol, Inflate.ReadMatch, LengthBits, DistBits, LengthCode, DistCode;
    hide Inflate.CopyMatch;
    LitSymbolRange(t);
    if t.Literal? {
      DecodeCodeword(ll, Inflate.MAX_BITS, bits, pos, LitSymbol(t));
    } else {
      var word, rest := Codeword(ll, LitSymbol(t)), LengthBits(t.len)
        + (Codeword(dl, DistCode(t.dist)) + DistBits(t.dist));
      AtSplit(bits, pos, word, rest);
      DecodeCodeword(ll, Inflate.MAX_BITS, bits, pos, LitSymbol(t));
      MatchReads(ll, dl, bits, pos + |word|, t.len, t.dist);
    }
  }

  /** Decoding the bits of a list of tokens expands the tokens. */
  lemma {:induction false} TokensDecode(ll: seq<nat>, dl: seq<nat>, bits: seq<bool>, pos: nat, out: seq<byte>,
                                        tokens: seq<Token>)
    requires Complete(ll, Inflate.MAX_BITS) && Complete(dl, Inflate.MAX_BITS) && AllEncodable(ll, dl, tokens)
    requires Reachable(tokens, out) && At(bits, pos, TokensBits(ll, dl, tokens))
    ensures Inflate.InflateCodes(ll, dl, bits, pos, out) ==
            Inflate.InflateCodes(ll, dl, bits, pos + |TokensBits(ll, dl, tokens)|, Expand(tokens, out))
  {
    hide Complete, At, Encodable, TokenBits, ExpandOne, Inflate.InflateCodes;
    if tokens != [] {
      var rest, t := tokens[..|tokens| - 1], tokens[|tokens| - 1];
      AtSplit(bits, pos, TokensBits(ll, dl, rest), TokenBits(ll, dl, t));
      TokensDecode(ll, dl, bits, pos, out, rest);
      TokenReads(ll, dl, bits, pos + |TokensBits(ll, dl, rest)|, Expand(rest, out), t);
    }
  }

  /** A whole block: tokens and the end-of-block code. */
  ghost function BlockBits(ll: seq<nat>, dl: seq<nat>, tokens: seq<Token>): seq<bool>
    requires AllEncodable(ll, dl, tokens) && Inflate.END_OF_BLOCK < |ll|
  {
    TokensBits(ll, dl, tokens) + Codeword(ll, Inflate.END_OF_BLOCK)
  }

  lemma BlockDecodes(ll: seq<nat>, dl: seq<nat>, bits: seq<bool>, pos: nat, out: seq<byte>, tokens: seq<Token>)
    requires Complete(ll, Inflate.MAX_BITS) && Complete(dl, Inflate.MAX_BITS) && AllEncodable(ll, dl, tokens)
    requires Inflate.END_OF_BLOCK < |ll| && ll[Inflate.END_OF_BLOCK] >= 1
    requires Reachable(tokens, out) && At(bits, pos, BlockBits(ll, dl, tokens))
    ensures Inflate.InflateCodes(ll, dl, bits, pos, out) == Got(Expand(tokens, out), pos + |BlockBits(ll, dl, tokens)|)
  {
    hide Complete, At, Codeword, TokensBits, Expand, DecodeSymbol;
    var most, end := TokensBits(ll, dl, tokens), Codeword(ll, Inflate.END_OF_BLOCK);
    AtSplit(bits, pos, most, end);
    TokensDecode(ll, dl, bits, pos, out, tokens);
    DecodeCodeword(ll, Inflate.MAX_BITS, bits, pos + |most|, Inflate.END_OF_BLOCK);
  }
}
