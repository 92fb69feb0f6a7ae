/** What a block costs: the sums that build_tree forms from frequencies are the bits sent. */
module BlockCost {
  import opened Bits
  import opened Sums
  import opened Canonical
  import opened Heap
  import opened Reassign
  import opened Counting
  import opened RunLength
  import opened TreeCoding
  import opened Tokens
  import opened TokenStore
  import opened Tables
  import Inflate

  const LIT_CODES := 286

  /** The literal/length codes of a block: the end-of-block code is counted first. */
  ghost function LitCodes(tokens: seq<Token>): (c: seq<nat>)
    ensures |c| == |tokens| + 1
  {
    if tokens == [] then [Inflate.END_OF_BLOCK]
    else LitCodes(tokens[..|tokens| - 1]) + [LitSymbol(tokens[|tokens| - 1])]
  }

  ghost function DistCodes(tokens: seq<Token>): (c: seq<nat>)
    ensures |c| <= |tokens|
  {
    if tokens == [] then []
    else DistCodes(tokens[..|tokens| - 1]) + OneDist(tokens[|tokens| - 1])
  }

  ghost function OneDist(t: Token): (c: seq<nat>)
    ensures |c| <= 1
  {
    if t.Match? then [DistCode(t.dist)] else []
  }

  lemma LitCodesPush(tokens: seq<Token>, t: Token)
    ensures LitCodes(tokens + [t]) == LitCodes(tokens) + [LitSymbol(t)]
    ensures DistCodes(tokens + [t]) == DistCodes(tokens) + OneDist(t)
  {
    assert (tokens + [t])[..|tokens|] == tokens;
  }

  lemma {:induction false} CodesBelow(tokens: seq<Token>)
    requires forall i | 0 <= i < |tokens| :: ValidToken(tokens[i])
    ensures Below(LitCodes(tokens), LIT_CODES) && Below(DistCodes(tokens), D_CODES)
  {
    if tokens != [] {
      CodesBelow(tokens[..|tokens| - 1]);
      LitSymbolRange(tokens[|tokens| - 1]);
    }
  }

  /** Each token's codes were counted. */
  lemma {:induction false} CodesListed(tokens: seq<Token>, i: nat)
    requires i < |tokens|
    ensures LitSymbol(tokens[i]) in LitCodes(tokens)
    ensures tokens[i].Match? ==> DistCode(tokens[i].dist) in DistCodes(tokens)
  {
    hide LitSymbol, DistCode;
    if i < |tokens| - 1 { CodesListed(tokens[..|tokens| - 1], i); }
  }

  lemma {:induction false} EndListed(tokens: seq<Token>)
    ensures Inflate.END_OF_BLOCK in LitCodes(tokens)
  {
    if tokens != [] { EndListed(tokens[..|tokens| - 1]); }
  }

  /** The extra bits of the literal/length codes. */
  ghost function LitExtra(): (x: seq<nat>)
    ensures |x| == LIT_CODES
  {
    seq(LIT_CODES, n requires 0 <= n < LIT_CODES => if n >= LITERALS + 1 then ExtraLbits()[n - (LITERALS + 1)] else 0)
  }

  lemma TokenCost(ll: seq<nat>, dl: seq<nat>, lt: seq<CtData>, dt: seq<CtData>, t: Token)
    requires Sendable(lt, dt, ll, dl, t) && Encodable(ll, dl, t) && LIT_CODES <= |lt| && D_CODES <= |dt|
    ensures LitSymbol(t) < LIT_CODES
    ensures |TokenBits(ll, dl, t)| == lt[LitSymbol(t)].dl + LitExtra()[LitSymbol(t)]
                                      + (if t.Match? then dt[DistCode(t.dist)].dl + ExtraDbits()[DistCode(t.dist)]
                                         else 0)
  {
    hide Codeword, BitsOf, LengthCode, DistCode, Inflate.LengthExtra, Inflate.DistExtra, ExtraLbits, ExtraDbits;
    hide Inflate.LengthBase, Inflate.DistBase;
    LitSymbolRange(t);
    TablesAgree();
  }

  lemma {:induction false} TokensCost(ll: seq<nat>, dl: seq<nat>, lt: seq<CtData>, dt: seq<CtData>, tokens: seq<Token>)
    requires LIT_CODES <= |lt| && D_CODES <= |dt| && AllEncodable(ll, dl, tokens)
    requires forall i | 0 <= i < |tokens| :: Sendable(lt, dt, ll, dl, tokens[i])
    requires Below(LitCodes(tokens), LIT_CODES) && Below(DistCodes(tokens), D_CODES)
    requires Ready(lt, ll, Inflate.END_OF_BLOCK)
    ensures CodesCost(LitCodes(tokens), lt, LitExtra(), LIT_CODES)
            + CodesCost(DistCodes(tokens), dt, ExtraDbits(), D_CODES)
            == |BlockBits(ll, dl, tokens)|
  {
    hide Codeword, BitsOf, TokenBits, Encodable, Sendable, LitSymbol, DistCode, LitExtra, ExtraDbits;
    if tokens == [] {
      NoTokensCost(lt, dt, ll);
    } else {
      var rest, t := tokens[..|tokens| - 1], tokens[|tokens| - 1];
      CodesPrefix(tokens);
      TokensCost(ll, dl, lt, dt, rest);
      TokenCost(ll, dl, lt, dt, t);
      CodesCostPush(LitCodes(rest), LitSymbol(t), lt, LitExtra(), LIT_CODES);
      if t.Match? {
        CodesCostPush(DistCodes(rest), DistCode(t.dist), dt, ExtraDbits(), D_CODES);
      } else {
        assert DistCodes(tokens) == DistCodes(rest);
      }
    }
  }

  lemma CodesPrefix(tokens: seq<Token>)
    requires tokens != [] && Below(LitCodes(tokens), LIT_CODES) && Below(DistCodes(tokens), D_CODES)
    ensures var rest, t := tokens[..|tokens| - 1], tokens[|tokens| - 1];
            && Below(LitCodes(rest), LIT_CODES) && Below(DistCodes(rest), D_CODES)
            && LitSymbol(t) < LIT_CODES && (t.Match? ==> DistCode(t.dist) < D_CODES)
  {
    hide LitSymbol, DistCode;
    var rest, t := tokens[..|tokens| - 1], tokens[|tokens| - 1];
    BelowParts(LitCodes(rest), [LitSymbol(t)], LIT_CODES);
    BelowParts(DistCodes(rest), OneDist(t), D_CODES);
    assert [LitSymbol(t)][0] == LitSymbol(t);
  }

  lemma BelowParts(a: seq<nat>, b: seq<nat>, n: nat)
    requires Below(a + b, n)
    ensures Below(a, n) && Below(b, n)
  {
    assert forall i | 0 <= i < |a| :: (a + b)[i] == a[i];
    assert forall i | 0 <= i < |b| :: (a + b)[|a| + i] == b[i];
  }

  lemma NoTokensCost(lt: seq<CtData>, dt: seq<CtData>, ll: seq<nat>)
    requires LIT_CODES <= |lt| && D_CODES <= |dt| && Ready(lt, ll, Inflate.END_OF_BLOCK)
    ensures CodesCost([Inflate.END_OF_BLOCK], lt, LitExtra(), LIT_CODES) == |Codeword(ll, Inflate.END_OF_BLOCK)|
    ensures CodesCost([], dt, ExtraDbits(), D_CODES) == 0
  {
    hide Codeword, BitsOf;
    assert [Inflate.END_OF_BLOCK][..0] == [];
  }

  // ---------- static codes ----------

  /** A token takes at most 31 bits with the static codes. */
  lemma StaticTokenBound(t: Token)
    requires ValidToken(t)
    ensures Encodable(Inflate.FixedLiterals(), Inflate.FixedDistances(), t)
    ensures |TokenBits(Inflate.FixedLiterals(), Inflate.FixedDistances(), t)| <= 31
  {
    hide Codeword, BitsOf, LengthCode, DistCode, Inflate.LengthExtra, Inflate.DistExtra, Inflate.LengthBase;
    hide Inflate.DistBase;
    LitSymbolRange(t);
    if t.Match? {
      LengthExtraBound(LengthCode(t.len));
      DistExtraBound(DistCode(t.dist));
    }
  }

  lemma {:induction false} StaticBound(tokens: seq<Token>)
    requires forall i | 0 <= i < |tokens| :: ValidToken(tokens[i])
    ensures AllEncodable(Inflate.FixedLiterals(), Inflate.FixedDistances(), tokens)
    ensures |BlockBits(Inflate.FixedLiterals(), Inflate.FixedDistances(), tokens)| <= 31 * |tokens| + 7
  {
    hide Codeword, TokenBits, Encodable, ValidToken;
    if tokens != [] {
      StaticBound(tokens[..|tokens| - 1]);
      StaticTokenBound(tokens[|tokens| - 1]);
    }
  }

  // ---------- the code length code ----------

  lemma {:induction false} SymsCost(cl: seq<nat>, t: seq<CtData>, syms: seq<Sym>)
    requires Coding(cl, syms) && BL_CODES <= |t| && LensOf(t, BL_CODES) == cl && Below(Codes(syms), BL_CODES)
    ensures CodesCost(Codes(syms), t, ExtraBlbits(), BL_CODES) == |SymsBits(cl, syms)|
  {
    hide Codeword, BitsOf, ValidSym, ExtraBlbits, RepeatWidth;
    if syms != [] {
      var rest, s := syms[..|syms| - 1], syms[|syms| - 1];
      assert Codes(syms) == Codes(rest) + [s.code];
      BelowParts(Codes(rest), [s.code], BL_CODES);
      assert [s.code][0] == s.code;
      SymsCost(cl, t, rest);
      CodesCostPush(Codes(rest), s.code, t, ExtraBlbits(), BL_CODES);
      TablesAgree();
      assert LensOf(t, BL_CODES)[s.code] == t[s.code].dl;
    }
  }

  lemma SymsBelow(syms: seq<Sym>)
    requires forall i | 0 <= i < |syms| :: ValidSym(syms[i])
    ensures Below(Codes(syms), BL_CODES)
  {
    hide Pow2;
  }
}
