/** Lengths that are 0 at the end of a code can be left off. */
module TrimCodes {
  import opened Bits
  import opened Canonical
  import opened Heap
  import opened Reassign
  import opened CodeGen
  import opened TreeCoding
  import Inflate

  lemma {:induction false} CountLenTrim(lens: seq<nat>, n: nat, b: nat)
    requires n <= |lens| && b >= 1 && forall i | n <= i < |lens| :: lens[i] == 0
    ensures CountLen(lens[..n], b) == CountLen(lens, b)
  {
    if n < |lens| {
      var rest := lens[..|lens| - 1];
      CountLenTrim(rest, n, b);
      assert rest[..n] == lens[..n];
    } else {
      assert lens[..n] == lens;
    }
  }

  lemma {:induction false} KraftSumTrim(lens: seq<nat>, n: nat, l: nat)
    requires n <= |lens| && forall i | n <= i < |lens| :: lens[i] == 0
    ensures KraftSum(lens[..n], l) == KraftSum(lens, l)
  {
    hide CountLen;
    if l != 0 {
      KraftSumTrim(lens, n, l - 1);
      CountLenTrim(lens, n, l);
    }
  }

  /** The codewords stay the same. */
  lemma CodewordTrim(lens: seq<nat>, n: nat, c: nat)
    requires c < n <= |lens| && forall i | n <= i < |lens| :: lens[i] == 0
    ensures Codeword(lens[..n], c) == Codeword(lens, c)
  {
    hide CountLen, KraftSum, MsbBits;
    assert lens[..n][..c] == lens[..c];
    if lens[c] >= 1 { KraftSumTrim(lens, n, lens[c] - 1); }
  }

  lemma CompleteTrim(lens: seq<nat>, n: nat, max: nat)
    requires Complete(lens, max) && n <= |lens| && forall i | n <= i < |lens| :: lens[i] == 0
    ensures Complete(lens[..n], max)
  {
    hide KraftSum, Pow2;
    KraftSumTrim(lens, n, max);
  }

  lemma CodesForTrim(t: seq<CtData>, lens: seq<nat>, n: nat)
    requires CodesFor(t, lens) && n <= |lens| && forall i | n <= i < |lens| :: lens[i] == 0
    ensures CodesFor(t, lens[..n])
  {
    hide Pow2, BitsOf, Codeword;
    var l := lens[..n];
    assert LensOf(t, n) == l by {
      forall i | 0 <= i < n
        ensures LensOf(t, n)[i] == l[i]
      {
        assert LensOf(t, |lens|)[i] == t[i].dl;
      }
    }
    forall c | 0 <= c < n
      ensures Coded(t, l, c)
    {
      assert Coded(t, lens, c);
      CodewordTrim(lens, n, c);
    }
  }

  lemma CodesForReady(t: seq<CtData>, lens: seq<nat>, c: nat)
    requires CodesFor(t, lens) && c < |lens| && 1 <= lens[c] <= Inflate.MAX_BITS
    ensures Ready(t, lens, c)
  {
    hide Pow2, BitsOf, Codeword;
    assert Coded(t, lens, c) && LensOf(t, |lens|)[c] == t[c].dl;
  }

  /** Nothing behind the code matters. */
  lemma CodesForSame(t: seq<CtData>, t': seq<CtData>, lens: seq<nat>)
    requires CodesFor(t, lens) && |lens| <= |t'| && forall c | 0 <= c < |lens| :: t'[c] == t[c]
    ensures CodesFor(t', lens)
  {
    hide Pow2, BitsOf, Codeword;
    assert LensOf(t', |lens|) == LensOf(t, |lens|);
    forall c | 0 <= c < |lens|
      ensures Coded(t', lens, c)
    {
      assert Coded(t, lens, c);
    }
  }

  /** A tree that holds a complete code with its codewords in which all the listed symbols have one. */
  ghost predicate Carries(t: seq<CtData>, lens: seq<nat>, codes: seq<nat>, max: nat)
  {
    && Complete(lens, max) && CodesFor(t, lens) && |lens| <= |t|
    && forall i | 0 <= i < |codes| :: codes[i] < |lens| && lens[codes[i]] >= 1
  }

  lemma CarriesReady(t: seq<CtData>, lens: seq<nat>, codes: seq<nat>, max: nat, c: nat)
    requires Carries(t, lens, codes, max) && max <= Inflate.MAX_BITS && c in codes
    ensures Ready(t, lens, c)
  {
    hide Ready, CodesFor, KraftSum;
    CodesForReady(t, lens, c);
  }

  lemma CarriesTrim(t: seq<CtData>, lens: seq<nat>, codes: seq<nat>, max: nat, n: nat)
    requires Carries(t, lens, codes, max) && n <= |lens| && forall i | n <= i < |lens| :: lens[i] == 0
    ensures Carries(t, lens[..n], codes, max)
  {
    hide CodesFor, Complete;
    CodesForTrim(t, lens, n);
    CompleteTrim(lens, n, max);
  }

  lemma CarriesSame(t: seq<CtData>, t': seq<CtData>, lens: seq<nat>, codes: seq<nat>, max: nat)
    requires Carries(t, lens, codes, max) && |lens| <= |t'| && forall c | 0 <= c < |lens| :: t'[c] == t[c]
    ensures Carries(t', lens, codes, max)
  {
    hide CodesFor, Complete;
    CodesForSame(t, t', lens);
  }

  lemma CarriesLens(t: seq<CtData>, lens: seq<nat>, codes: seq<nat>, max: nat)
    requires Carries(t, lens, codes, max)
    ensures |lens| <= |t| && LensOf(t, |lens|) == lens && forall i | 0 <= i < |lens| :: lens[i] <= max
  {
    hide KraftSum, Coded;
  }
}
