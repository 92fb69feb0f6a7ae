/** No codes that a block could have take fewer bits for its tokens than those built for it. */
module ShortestBlock {
  import opened Sums
  import opened Canonical
  import opened Tokens
  import opened BlockCost
  import opened ShortestCodes
  import Inflate

  /** The extra bits of lengths and distances, which no code changes. */
  ghost function ExtraSize(tokens: seq<Token>): nat
    requires forall i | 0 <= i < |tokens| :: ValidToken(tokens[i])
  {
    if tokens == [] then 0
    else
      var t := tokens[|tokens| - 1];
      assert ValidToken(t);
      ExtraSize(tokens[..|tokens| - 1]) + if t.Match? then |LengthBits(t.len)| + |DistBits(t.dist)| else 0
  }

  /** The tokens and the end-of-block code can be sent. */
  ghost predicate Sends(ll: seq<nat>, dl: seq<nat>, tokens: seq<Token>)
  {
    AllEncodable(ll, dl, tokens) && Inflate.END_OF_BLOCK < |ll| && ll[Inflate.END_OF_BLOCK] >= 1
  }

  lemma {:induction false} SendsCovers(ll: seq<nat>, dl: seq<nat>, tokens: seq<Token>)
    requires Sends(ll, dl, tokens)
    ensures Covers(ll, LitCodes(tokens)) && Covers(dl, DistCodes(tokens))
    ensures Below(LitCodes(tokens), |ll|) && Below(DistCodes(tokens), |dl|)
  {
    hide LitSymbol, DistCode;
    if tokens != [] {
      assert Encodable(ll, dl, tokens[|tokens| - 1]);
      SendsCovers(ll, dl, tokens[..|tokens| - 1]);
    }
  }

  /** A block takes up what its codes cost and the extra bits. */
  lemma {:induction false} BodySize(ll: seq<nat>, dl: seq<nat>, tokens: seq<Token>)
    requires Sends(ll, dl, tokens)
    ensures Below(LitCodes(tokens), |ll|) && Below(DistCodes(tokens), |dl|)
    ensures forall i | 0 <= i < |tokens| :: ValidToken(tokens[i])
    ensures |BlockBits(ll, dl, tokens)|
            == ListCost(LitCodes(tokens), ll) + ListCost(DistCodes(tokens), dl) + ExtraSize(tokens)
  {
    hide Codeword, LitSymbol, DistCode, LengthBits, DistBits, ValidToken;
    SendsCovers(ll, dl, tokens);
    assert forall i | 0 <= i < |tokens| :: Encodable(ll, dl, tokens[i]);
    if tokens == [] {
      assert [Inflate.END_OF_BLOCK][..0] == [];
    } else {
      var rest, t := tokens[..|tokens| - 1], tokens[|tokens| - 1];
      BodySize(ll, dl, rest);
      if t.Match? {
        assert (DistCodes(rest) + OneDist(t))[..|DistCodes(rest)|] == DistCodes(rest);
      } else {
        assert DistCodes(tokens) == DistCodes(rest);
      }
      assert (LitCodes(rest) + [LitSymbol(t)])[..|LitCodes(rest)|] == LitCodes(rest);
    }
  }

  /** Whatever codes: the block takes no fewer bits. */
  ghost predicate ShortestBody(ll: seq<nat>, dl: seq<nat>, tokens: seq<Token>)
    requires Sends(ll, dl, tokens)
  {
    forall ll': seq<nat>, dl': seq<nat>, m: nat, k: nat ::
      Sends(ll', dl', tokens) && Possible(ll', m) && Possible(dl', k) ==>
        |BlockBits(ll, dl, tokens)| <= |BlockBits(ll', dl', tokens)|
  }

  /** Codes that are shortest for the lists of their symbols are so for the block. */
  lemma ShortestBoth(ll: seq<nat>, dl: seq<nat>, tokens: seq<Token>)
    requires Sends(ll, dl, tokens) && Below(LitCodes(tokens), |ll|) && Below(DistCodes(tokens), |dl|)
    requires Shortest(LitCodes(tokens), ll) && Shortest(DistCodes(tokens), dl)
    ensures ShortestBody(ll, dl, tokens)
  {
    hide Possible, LitCodes, DistCodes, ListCost, BlockBits, Covers;
    BodySize(ll, dl, tokens);
    forall ll': seq<nat>, dl': seq<nat>, m: nat, k: nat | Sends(ll', dl', tokens) && Possible(ll', m)
      && Possible(dl', k)
      ensures |BlockBits(ll, dl, tokens)| <= |BlockBits(ll', dl', tokens)|
    {
      SendsCovers(ll', dl', tokens);
      BodySize(ll', dl', tokens);
    }
  }
}
