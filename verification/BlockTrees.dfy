/** Which tokens the trees of a block can send, and what that costs, once the trees are built. */
module BlockTrees {
  import opened Bits
  import opened Sums
  import opened Canonical
  import opened Heap
  import opened CodeGen
  import opened Counting
  import opened RunLength
  import opened TreeCoding
  import opened Tokens
  import opened TokenStore
  import opened Tables
  import opened BlockHeader
  import opened BlockCost
  import opened TrimCodes
  import Inflate

  ghost predicate AllSendable(lt: seq<CtData>, dt: seq<CtData>, ll: seq<nat>, dl: seq<nat>, tokens: seq<Token>)
  {
    && (forall i | 0 <= i < |tokens| :: Sendable(lt, dt, ll, dl, tokens[i]))
    && Ready(lt, ll, Inflate.END_OF_BLOCK)
  }

  /** Trees that were built for the tokens can send them. */
  lemma BuiltSends(lt: seq<CtData>, dt: seq<CtData>, ll: seq<nat>, dl: seq<nat>, tokens: seq<Token>)
    requires Carries(lt, ll, LitCodes(tokens), Inflate.MAX_BITS) && Carries(dt, dl, DistCodes(tokens), Inflate.MAX_BITS)
    requires forall i | 0 <= i < |tokens| :: ValidToken(tokens[i])
    ensures AllSendable(lt, dt, ll, dl, tokens)
  {
    hide Carries, LitSymbol, DistCode, Ready, LitCodes, DistCodes;
    forall i | 0 <= i < |tokens|
      ensures Sendable(lt, dt, ll, dl, tokens[i])
    {
      CodesListed(tokens, i);
      CarriesReady(lt, ll, LitCodes(tokens), Inflate.MAX_BITS, LitSymbol(tokens[i]));
      if tokens[i].Match? { CarriesReady(dt, dl, DistCodes(tokens), Inflate.MAX_BITS, DistCode(tokens[i].dist)); }
    }
    EndListed(tokens);
    CarriesReady(lt, ll, LitCodes(tokens), Inflate.MAX_BITS, Inflate.END_OF_BLOCK);
  }

  /** The static trees can send all tokens. */
  lemma StaticSends(lt: seq<CtData>, dt: seq<CtData>, tokens: seq<Token>)
    requires CodesFor(lt, Inflate.FixedLiterals()) && StaticDistances(dt)
    requires forall i | 0 <= i < |tokens| :: ValidToken(tokens[i])
    ensures AllSendable(lt, dt, Inflate.FixedLiterals(), Inflate.FixedDistances(), tokens)
  {
    hide CodesFor, LitSymbol, DistCode, Ready;
    forall i | 0 <= i < |tokens|
      ensures Sendable(lt, dt, Inflate.FixedLiterals(), Inflate.FixedDistances(), tokens[i])
    {
      LitSymbolRange(tokens[i]);
      CodesForReady(lt, Inflate.FixedLiterals(), LitSymbol(tokens[i]));
    }
    CodesForReady(lt, Inflate.FixedLiterals(), Inflate.END_OF_BLOCK);
  }

  lemma SendsEncodes(lt: seq<CtData>, dt: seq<CtData>, ll: seq<nat>, dl: seq<nat>, tokens: seq<Token>)
    requires AllSendable(lt, dt, ll, dl, tokens)
    ensures AllEncodable(ll, dl, tokens) && Inflate.END_OF_BLOCK < |ll| && ll[Inflate.END_OF_BLOCK] >= 1
  {
    hide Codeword, BitsOf, Sendable, Encodable;
    SendableEncodable(lt, dt, ll, dl, tokens);
  }

  /** What the codes of the tokens cost is what the block takes up. */
  lemma TreesCost(lt: seq<CtData>, dt: seq<CtData>, ll: seq<nat>, dl: seq<nat>, tokens: seq<Token>)
    requires AllSendable(lt, dt, ll, dl, tokens) && LIT_CODES <= |lt| && D_CODES <= |dt|
    ensures AllEncodable(ll, dl, tokens) && Inflate.END_OF_BLOCK < |ll|
    ensures Below(LitCodes(tokens), LIT_CODES) && Below(DistCodes(tokens), D_CODES)
    ensures CodesCost(LitCodes(tokens), lt, LitExtra(), LIT_CODES)
            + CodesCost(DistCodes(tokens), dt, ExtraDbits(), D_CODES)
            == |BlockBits(ll, dl, tokens)|
  {
    hide Ready, CodesCost, BlockBits, LitCodes, DistCodes, ExtraDbits, Encodable, ValidToken;
    SendsEncodes(lt, dt, ll, dl, tokens);
    forall i | 0 <= i < |tokens|
      ensures ValidToken(tokens[i])
    {
      assert Sendable(lt, dt, ll, dl, tokens[i]);
    }
    CodesBelow(tokens);
    TokensCost(ll, dl, lt, dt, tokens);
  }

  // ---------- the code length code ----------

  /** The lengths of both trees can be sent with the code length code cl, which is in the tree bt. */
  ghost predicate HeaderReady(bt: seq<CtData>, ll: seq<nat>, dl: seq<nat>, cl: seq<nat>, ncl: nat)
  {
    && Complete(cl, 7) && CodesFor(bt, cl) && Coding(cl, Symbols(ll) + Symbols(dl)) && BL_CODES <= |bt|
    && 4 <= ncl <= BL_CODES && Trimmed(cl, ncl)
  }

  lemma LengthSymbols(ll: seq<nat>, dl: seq<nat>)
    requires Complete(ll, Inflate.MAX_BITS) && Complete(dl, Inflate.MAX_BITS)
    ensures Codes(Symbols(ll) + Symbols(dl)) == Codes(Symbols(ll)) + Codes(Symbols(dl))
    ensures Below(Codes(Symbols(ll) + Symbols(dl)), BL_CODES)
    ensures forall i | 0 <= i < |Symbols(ll) + Symbols(dl)| :: ValidSym((Symbols(ll) + Symbols(dl))[i])
  {
    hide Encode, Symbols, ValidSym, Complete;
    CompleteBounds(ll, Inflate.MAX_BITS);
    CompleteBounds(dl, Inflate.MAX_BITS);
    SymbolsValid(ll);
    SymbolsValid(dl);
    SymsBelow(Symbols(ll) + Symbols(dl));
  }

  lemma CarriesCoding(bt: seq<CtData>, cl: seq<nat>, syms: seq<Sym>)
    requires Carries(bt, cl, Codes(syms), 7) && |cl| == BL_CODES
    requires forall i | 0 <= i < |syms| :: ValidSym(syms[i])
    ensures Coding(cl, syms) && Complete(cl, 7) && CodesFor(bt, cl)
  {
    hide Complete, CodesFor, ValidSym;
    forall i | 0 <= i < |syms|
      ensures syms[i].code < |cl| && cl[syms[i].code] >= 1
    {
      assert Codes(syms)[i] == syms[i].code;
    }
  }

  /** Besides the three repeat codes some length is used, so four code lengths are enough to send. */
  lemma SomeLengthUsed(ll: seq<nat>, dl: seq<nat>, cl: seq<nat>) returns (i: nat)
    requires Complete(ll, Inflate.MAX_BITS) && Inflate.END_OF_BLOCK < |ll| && ll[Inflate.END_OF_BLOCK] >= 1
    requires Coding(cl, Symbols(ll) + Symbols(dl))
    ensures 3 <= i < BL_CODES && cl[Inflate.CodeLengthOrder(i)] >= 1
  {
    hide Complete, ValidSym, Encode, Pending, Inflate.CodeLengthOrder;
    CompleteBounds(ll, Inflate.MAX_BITS);
    PendingStart(ll);
    FirstLengthSent(ll, 0, 0, -1, Inflate.END_OF_BLOCK);
    HasLengthConcat(Symbols(ll), Symbols(dl));
    var syms := Symbols(ll) + Symbols(dl);
    var k :| 0 <= k < |syms| && 1 <= syms[k].code < REP_3_6;
    i := OrderInverse(syms[k].code);
    RepeatsFirst();
  }

  lemma RepeatsFirst()
    ensures Inflate.CodeLengthOrder(0) == 16 && Inflate.CodeLengthOrder(1) == 17 && Inflate.CodeLengthOrder(2) == 18
  {
  }

  lemma HeaderCost(bt: seq<CtData>, ll: seq<nat>, dl: seq<nat>, cl: seq<nat>, ncl: nat)
    requires HeaderReady(bt, ll, dl, cl, ncl) && |ll| >= 257 && |dl| >= 1
    requires Below(Codes(Symbols(ll) + Symbols(dl)), BL_CODES)
    ensures |HeaderBits(ll, dl, cl, ncl)| ==
            14 + 3 * ncl + CodesCost(Codes(Symbols(ll) + Symbols(dl)), bt, ExtraBlbits(), BL_CODES)
  {
    hide Complete, Coded, Encode, Symbols, Codes, CodesCost, SymsBits, BitsOf, OrderBits, ExtraBlbits, Trimmed, Below;
    OrderBitsLength(cl, ncl);
    CodingLength(cl, Symbols(ll) + Symbols(dl));
    SymsCost(cl, bt, Symbols(ll) + Symbols(dl));
  }

  lemma CodingLength(cl: seq<nat>, syms: seq<Sym>)
    requires Coding(cl, syms)
    ensures |cl| == BL_CODES
  {
  }
}
